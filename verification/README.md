# Verified model of rrp-sdk's protocol core

This project models the parts of the Registry Registrar Protocol software where a mistake is hard
to see by reading: a BER/DER dump program, the session counter that the processes of the test
server share, the text protocol of RFC 2832 from the C client's request builder to the server's
command tables and from the server's answer back to the C and the Java client, the C client's heap
containers, and two computations of the server. `dafny verify dfyconfig.toml` verifies all of it.

Where the program moves a cursor, fills a buffer or relinks nodes, the model is a class or a method
with loops, proved equal to a specification function; the theorems are about these functions and
about all inputs or all runs.

| module | what it is about |
|---|---|
| `BerWalk`, `BerDump` | the dump program: what each procedure does to cursor and listing, as functions; and the program with its stream, flags and loops, proved to compute them |
| `BerEncoding` | trees of BER items (X.690 sections 8.1.2 to 8.1.5), their encoding, and the walk as its inverse |
| `BerArbitrary`, `BerReports` | what holds of the walk on any bytes: bound on its length, bytes accounted for; what is reported, and what comes of bytes that are not as they should be |
| `BerOid`, `BerInteger`, `BerBitString` | object identifiers (X.690 section 8.19), integers (section 8.3) and short bit strings (sections 8.6 and 11.2.2) |
| `SessionCache` | the cache loop, and the transition system of cache and any number of children |
| `Connection` | the session state of one connection over its commands |
| `SessionServer` | the whole server: children that run commands through their session state and share one counter |
| `LinkedNodes`, `RrpVector`, `Multimap`, `RrpProperties` | chains of nodes; the vector; ordered multimaps; the property list |
| `Text`, `Protocol` | strings, lines, fields and messages |
| `Request`, `RequestCalls`, `RequestBuilt` | the C client's formatting, its calls that build requests, and that the server can take what they build |
| `RequestServe`, `Tokenize`, `RequestCheck` | the server's line loop and splitting, `tokenize`, and what it makes of the fields of a request |
| `SessionRequest`, `ModifyRequest` | SESSION, MOD and ADD requests end to end |
| `ResponseRead`, `ResponseParse`, `ResponseRoundTrip`, `ResponseErrors` | the readers of both clients, their parsers, their agreement, and responses that are cut off or malformed |
| `Calendar`, `Ipv6`, `Ipv6Rejects` | expiration dates, the rewriting of `::` in addresses, and which texts are taken for addresses |

## What the theorems found

Several statements one would expect do not hold of the code as it is. Each is proved with the exact
condition under which it does.

- The value 177545 that stands for "length not known" is also met by a *remaining* length: a walk
  goes wrong exactly when a definite container, at any depth, ends in two or more siblings that take
  177545 bytes together (`BerEncoding.WalkInvertsEncode`; `BerEncoding.MagicTreeFails` has such a tree). A
  length given to `printAsn1` is accounted for on all inputs exactly if it is below 177545 or equal to 177546
  (`BerArbitrary.ConservationExactly`).
- An overrun is returned as an `int`: it is exact up to 2^31-1 and vanishes when it is a multiple of
  2^32 (`BerArbitrary.OverrunReported`, with an input in `OverrunLost`).
- A container that uses more bytes than its length says is reported with the difference, except where the file
  ends in the middle of a tag of several octets (`BerReports.InconsistencyReported`; `CutTagUnreported` has such
  a file).
- The cache counts a QUIT before its connection is closed, so open established connections can
  outnumber the session count even in an orderly run (`SessionCache.OpenExceedsCount`). In every run they
  are within it exactly when the connections about to leave and the decrements nobody paid for do not
  outnumber those about to be established and the sessions abandoned (`SessionCache.OpenExactly`); in an
  orderly run, whenever no counted QUIT is still open (`SessionCache.DisciplinedOpen`). Both are carried over
  to children that run real commands (`SessionServer.ServerSafety`, `SessionServer.OrderlySafety`).
- All this needs the lock. Its file is opened once, before the children are forked, and a `flock` lock belongs
  to the open file, so it may exclude nobody. Then a child can read the reply to another one's request: the
  session that was counted is refused and the one that was refused is established (`SessionCache.RepliesCross`).
  The theorems cover exactly the runs in which no child gets the lock while another one has it
  (`SessionCache.ExclusiveExactly`).
- SESSION changes the password before it knows whether the session is granted, and does not change it
  back: after an answer that asks the client to try again, the same command passes the check exactly if it
  gave no new password or the current one, and is refused with 530 otherwise
  (`Connection.RetryExactly`, `SessionRequest.RepeatExactly`; an example is `ChangeCannotBeRepeated`).
- Integers are printed with the first bit as a sign. The value printed is the one encoded exactly if it is not
  negative, or one particular negative number for every length (`BerInteger.IntegerExactly`).
- An unknown command that reaches the maximum of attempts closes the connection; a failed SESSION that
  reaches it does not (`Connection.AttemptsExactly`).
- SESSION, QUIT and unknown commands close the connection exactly if the text of their answer says so
  (`Connection.ClosesAsAnnounced`). The other commands say so with 420 as well, and do not do it: they keep
  their word exactly if they are not answered with such a code (`Connection.OthersStayOpen`).
- Every QUIT lowers the session count, without a session too (`SessionServer.QuitsAreCounted`).
- The server puts whole commands into lower case, values too: a registrar or password configured with
  capital letters never matches (`SessionRequest.CredentialsExactly`).
- `getline` returns an empty line, not an undefined one, at the end of the stream, so a client that
  goes away does not end the line loop: it goes round for ever unless the size limit is negative
  (`RequestServe.EndOfStreamGoesOn`).
- The C client keeps attributes as they are, the Java client trims them and puts keys into lower case.
  They agree on a response exactly if it is already in that form, and the server's own answer to
  DESCRIBE is not (`ResponseRoundTrip.ClientsAgreeExactly`, `DescribeDisagrees`).
- Behind the attributes the C client takes any line without a colon for the end of the response; the Java client
  takes only a dot (`ResponseErrors.BadLineEnds`).
- Deleting the last of several vector elements leaves the tail pointer on a node that is no longer in
  the list; in every other case the vector stays valid (`RrpVector.Vector.DeleteElementAt`).
- `expiration_date` is off by the leap years its loop does not reach, for every date and every start year by an
  exact number (`Calendar.ExpirationFor`): with no start year, or one so far back that the period ends before
  this year, it counts no leap day at all (`Calendar.NothingCounted`); with one from this year on, a date
  before 29 February comes out a day late when the end year is a leap year (`Calendar.ExpirationIs`).
- Of the addresses with a wild card, a lone `::` and seven groups with `::` at the end are rejected
  (`Ipv6.WildCardExpansion`). Three colons in a row, which are no address, are taken for a wild card exactly if
  there are three, five or seven groups around them (`Ipv6Rejects.ThreeColons`).

## Model

| member | source | states |
|---|---|---|
| BerEncoding.WalkInvertsEncode | asn1/dumpasn1.c:1515-1604 | for every tree of well-formed items of either length form, at any place in any file: the top-level call consumes exactly the encoding, complains about no length and lists the nodes in pre-order with true offset, level, tag and length, if and only if no definite container ends in two or more siblings of 177545 bytes together |
| BerEncoding.WalkNode | asn1/dumpasn1.c:1261-1511 | one item at any level: its header is recovered and printing it ends exactly behind it with the lines of its subtree |
| BerEncoding.WalkDefinite | asn1/dumpasn1.c:1565-1583 | the loop over the rest of a definite container ends with nothing left over, behind the last child |
| BerEncoding.WalkIndefinite | asn1/dumpasn1.c:1570-1576 | the loop over an indefinite container ends behind its end-of-contents octets, whatever the negative count it has come to |
| BerEncoding.NodeDeviates | asn1/dumpasn1.c:1528-1568 | where the condition fails somewhere inside an item, its walk aborts, lists a wrong line or stops in front of an item it should have listed |
| BerEncoding.DefiniteDeviates | asn1/dumpasn1.c:1528-1568 | the same for the children of a definite container |
| BerEncoding.IndefiniteDeviates | asn1/dumpasn1.c:1528-1568 | the same for the children of an indefinite container |
| BerEncoding.HeaderRoundTrip | asn1/dumpasn1.c:1038-1095 | `getItem` recovers class, form, tag number and length of every header of at most eight octets, low or high tag form, definite lengths of one to four octets, padded or not, or indefinite; the header size is the octets consumed |
| BerEncoding.PrimitiveExact | asn1/dumpasn1.c:1298-1511 | printing a primitive moves the cursor exactly over its contents if and only if the contents have a length the type allows |
| BerEncoding.MagicTreeFails | asn1/dumpasn1.c:1528-1568 | a well-formed tree on which the walk goes wrong wherever it stands |
| BerWalk.GetItemProgress | asn1/dumpasn1.c:1038-1095 | on any bytes, an item that is found has at least two real header bytes and the cursor is behind them; no item means the end of the file; a length is negative only if the file ended inside it |
| BerWalk.ReadLengthValue | asn1/dumpasn1.c:1071-1092 | a length read octet by octet is negative exactly if the file ends before the last octet |
| BerArbitrary.LoopBound | asn1/dumpasn1.c:1526-1601 | on any bytes the loop ends, with at most one line for each byte it used |
| BerArbitrary.ObjectBound | asn1/dumpasn1.c:1233-1257 | the same for an item and everything inside it |
| BerArbitrary.LoopConserves | asn1/dumpasn1.c:1565-1603 | remaining length plus bytes used is the length given: a negative rest means an overrun of exactly that many bytes, a result of 1 means one trailing byte swallowed, 0 means exactly the length used or the end of the file |
| BerArbitrary.ConservationExactly | asn1/dumpasn1.c:1515-1604 | that account holds on all inputs if and only if the length is below 177545 or is 177546 |
| BerArbitrary.OverrunReported | asn1/dumpasn1.c:1578-1583 | the overrun returned is the true one if and only if it fits an `int`, and 0 if and only if it is a multiple of 2^32 |
| BerArbitrary.OverrunLost | asn1/dumpasn1.c:1578-1583 | a file on which 2^32 bytes too many are skipped and 0 is returned |
| BerReports.InconsistencyReported | asn1/dumpasn1.c:1244-1251 | for a container of any contents with a definite length: bytes used beyond the length are reported with their number, last, unless the file ends there in the middle of a tag; bytes missing at the end of the file are not; if the length is met, one byte is reported exactly if it was swallowed |
| BerReports.OverrunIsLast | asn1/dumpasn1.c:1244-1251 | in a file that does not end in the middle of a tag, the last line of a container that used d bytes too many is the complaint about d bytes |
| BerReports.IndefiniteNotReported | asn1/dumpasn1.c:1570-1576 | a container of indefinite length is never reported |
| BerReports.CutTagUnreported | asn1/dumpasn1.c:1244-1251 | a container of one byte that uses two and is not reported |
| BerReports.OneTooMany | asn1/dumpasn1.c:1244-1251 | the whole listing of a SEQUENCE of three bytes that holds two NULLs |
| BerReports.SpareByte | asn1/dumpasn1.c:1584-1600 | well-formed contents and one byte to spare: zero and anything above 0x31 is swallowed, ends the container and is one byte of difference; any other is kept as the start of an item |
| BerReports.MissingByte | asn1/dumpasn1.c:1584-1600 | well-formed contents and the end of the file with one byte still promised: nothing is swallowed and no difference returned |
| BerReports.StrayEoc | asn1/dumpasn1.c:1548-1563 | behind end-of-contents octets in a definite container the next node is listed and the walk goes on inside it at the level of the container |
| BerReports.AfterEoc | asn1/dumpasn1.c:1548-1563 | from then on only headers are read |
| BerReports.NoItemExactly | asn1/dumpasn1.c:1038-1066 | there is no item exactly at the end of the file and where the file ends within a tag of several octets |
| BerReports.LowTagHeader | asn1/dumpasn1.c:1065-1092 | a header with a low tag is refused exactly if no length follows or it asks for more than four octets, and its length is cut off exactly if the file ends within them |
| BerReports.CutLengthAborts | asn1/dumpasn1.c:1277-1282 | a length cut off by the end of the file ends the program, except for NULL |
| BerReports.MissingContents | asn1/dumpasn1.c:1298-1510 | contents cut off by the end of the file: the types that end there, the types that are skipped past it and by how much, and items of unknown type by the look of their first sixteen bytes |
| BerDump.Dump.GetItem | asn1/dumpasn1.c:1038-1095 | the octet loops of `getItem`, with `getc` and the end-of-file flag, read the header that `BerWalk.GetItem` describes |
| BerDump.Dump.DumpHex | asn1/dumpasn1.c:788-842 | the cursor after a hex dump: at most 128 bytes read, the rest skipped by seeking, even past the end of the file |
| BerDump.Dump.DisplayString | asn1/dumpasn1.c:927-1016 | the cursor after a string: at most 384 bytes shown, the rest read, never past the end |
| BerDump.Dump.GetValue | asn1/dumpasn1.c:1020-1033 | for up to eight octets that are in the file the value is their sign and magnitude; the cursor after a value of any length: one octet at least |
| BerDump.Dump.DumpBitString | asn1/dumpasn1.c:865-916 | for one or two octets that are in the file and up to seven unused bits: the valid bits are printed last one first, and the complaint about zeros fires exactly when due; the cursor after any length |
| BerInteger.IntegerExactly | asn1/dumpasn1.c:1020-1033 | the value returned is the two's complement value of the octets if and only if it is not negative or the octets are C0 followed by zeros |
| BerInteger.MagnitudeIs | asn1/dumpasn1.c:1025-1032 | the shifting loop accumulates the unsigned value without its first bit |
| BerDump.Dump.LookAhead | asn1/dumpasn1.c:1298-1330 | the look-ahead at unknown primitives leaves the cursor where it was and finds text exactly as described |
| BerDump.Dump.PrintPrimitive | asn1/dumpasn1.c:1298-1511 | the cursor after the contents of a primitive of any type, and which of them end the program |
| BerDump.Dump.PrintASN1object | asn1/dumpasn1.c:1261-1511 | cursor and listing after an item are those of the walk, on any bytes; the recursion ends |
| BerDump.Dump.PrintConstructed | asn1/dumpasn1.c:1233-1257 | the same for a container, with a complaint exactly if the inner call returns a difference |
| BerDump.Dump.NextItem | asn1/dumpasn1.c:1526-1563 | the first half of the loop: what is listed, and the replacement of the unknown length |
| BerDump.Dump.AccountForItem | asn1/dumpasn1.c:1565-1600 | the second half: what is left, whether the loop goes on, and the single byte swallowed or pushed back |
| BerDump.Dump.PrintAsn1 | asn1/dumpasn1.c:1515-1604 | the procedure as written ends on every file and does to cursor, listing and result what the walk says |
| BerOid.PrintOid | asn1/dumpasn1.c:1451-1471 | the loop prints the arcs that the octets stand for, with 64-bit wrap-around |
| BerOid.FirstOctet | asn1/dumpasn1.c:1452-1460 | which two arcs the first octet is taken for, over its whole range |
| BerOid.OidRoundTrip | asn1/dumpasn1.c:1451-1471 | an identifier whose first two arcs fit one octet below 128 is printed with the arcs it was made of if and only if every further arc fits a `long` |
| BerBitString.PrintBitString | asn1/dumpasn1.c:865-916 | for one or two octets and up to seven unused bits: the characters printed are the valid bits, last one first; the complaint about zeros fires exactly if the last valid bit and all unused bits are zero; the one about ones never does |
| BerBitString.Reverse | asn1/dumpasn1.c:885-899 | the first loop: the value has the valid bits in reverse order and no others |
| BerBitString.ShiftStep | asn1/dumpasn1.c:887-896 | after each shift the two masks see the next bit and all bits left, 32-bit truncation included |
| SessionCache.Cache.ProcessRequest | server/RRPCache.pm:105-131 | one turn of the cache loop: new count and reply for every line |
| SessionCache.OneInFlight | server/RRPCache.pm:138-205 | in every interleaving of any number of children at most one is inside the lock, and at most one request or reply is on the socket |
| SessionCache.ReplyIsOwn | server/RRPCache.pm:138-193 | the line a child reads answers its own request |
| SessionCache.CallCountsOnce | server/RRPCache.pm:138-193 | each call is counted exactly once between lock and unlock; increment returns 1 exactly when the cache counted it; a decrement always lowers the count by one |
| SessionCache.SessionSafety | server/RRPCache.pm:105-131 | in every run the count is granted increments less decrements and at most MaxSessions; the sessions held are within the count if and only if unpaid decrements do not outnumber abandoned sessions |
| SessionCache.DisciplinedSafety | server/RRPCommands.pm:828-856 | if QUIT comes only well-formed and from established connections, the sessions held (granted, open and with no QUIT counted) <= count <= MaxSessions in every reachable state, even when other clients vanish |
| SessionCache.OpenExactly | server/RRPCache.pm:105-131 | in every run: open established connections <= count if and only if those with a counted QUIT plus unpaid decrements <= those granted but not yet established plus sessions abandoned |
| SessionCache.DisciplinedOpen | server/RRPCommands.pm:828-856 | under the same discipline open established connections exceed the count at most by those with a counted QUIT; while there are none, they are <= count <= MaxSessions |
| SessionCache.ServeEnabled | server/RRPCache.pm:108-131 | the cache can always handle the request it reads |
| SessionCache.AnswersExactly | server/RRPCache.pm:114-125 | a place is given exactly while there is one, a decrement is never refused, and other lines get no reply |
| SessionCache.ServedExactly | server/RRPCache.pm:114-125 | in every run, what the request at the head does: granted exactly if the count is below the maximum; a decrement lowers it and is unpaid for unless it is a proper QUIT |
| SessionCache.DecrementsCounted | server/RRPCache.pm:178-193 | every decrement asked for has lowered the count once or is still waiting to |
| SessionCache.RepliesCross | server/RRPCache.pm:88-94 | without exclusion: a run in which two children read each other's replies and the wrong one is established |
| SessionCache.ExclusiveExactly | server/RRPCache.pm:199-205 | the runs covered are exactly those in which no child gets the lock while another one has it |
| SessionServer.Refines | server/RRPCommands.pm:1104-1114 | every run of children that execute real commands, with the cache's reply as the answer SESSION gets, is a run of the counter's protocol |
| SessionServer.EventKeeps | server/RRPCommands.pm:1059-1136 | after every step each child's place in the protocol and its session agree: established, closing, and the call a command waits for |
| SessionServer.ServerSafety | server/RRPCache.pm:105-205 | whatever the clients send: count at most MaxSessions, every live session granted by the cache, and the exact condition for live sessions <= count |
| SessionServer.OrderlyDisciplined | server/RRPCommands.pm:828-856 | if the commands of every client contain QUIT only well-formed and in a session, the run of the protocol is disciplined |
| SessionServer.OrderlySafety | server/RRPCommands.pm:828-856 | then live sessions <= count + those leaving, and <= count <= MaxSessions while nobody is leaving |
| SessionServer.QuitsAreCounted | server/RRPCommands.pm:843-850 | whatever the clients send: decrements counted and those still waiting are exactly the QUITs sent, well-formed or not, in a session or not; the count is grants less QUITs, but for those waiting |
| SessionServer.QuitServed | server/RRPCommands.pm:843-850 | when the cache handles a QUIT the count goes down by one, unpaid for unless it has no parameters and comes in a session |
| SessionCache.Progress | server/RRPCache.pm:138-205 | no interleaving deadlocks: while a child is in a call, some step of a call is possible |
| SessionCache.OpenExceedsCount | server/RRPCache.pm:122-125 | an orderly run with an open established connection and a count of zero |
| Connection.State.SessionCommand | server/RRPCommands.pm:1059-1136 | SESSION as written: established flag, attempts, password, answer, and whether the counter is called |
| Connection.State.QuitCommand | server/RRPCommands.pm:828-856 | QUIT decrements whatever its lines are, and closes only if they are well-formed |
| Connection.State.InvalidCommand | server/RRPCommands.pm:1450-1469 | an unknown command counts as an attempt before a session is established |
| Connection.State.ProcessCommand | server/RRPCommands.pm:301-337 | dispatch by the first line, with the 547 gates of the other commands |
| Connection.ConnectionSafety | server/RRPCommands.pm:1059-1136 | in every run: established stays established and comes from exactly one granted increment; while open, the try count is failed SESSIONs plus unknown commands before establishment and at most MaxSessionAttempts |
| Connection.StepKeeps | server/RRPCommands.pm:1122-1132 | every command keeps that |
| Connection.GateHolds | server/RRPCommands.pm:354-360 | before establishment only SESSION and unknown commands change the state, the known others answer 547, and a session is established exactly by right credentials, an answer of 200 and a granted increment |
| Connection.OthersDoNotMatter | server/RRPCommands.pm:354-360 | the other commands, wherever they come in a run and however they are answered, can be left out: state and attempts left are the same |
| Connection.AttemptsExactly | server/RRPCommands.pm:1122-1132 | for bad SESSIONs and unknown commands in any mix: the connection survives if and only if they are fewer than the maximum, or as many with a SESSION last |
| Connection.QuitBalances | server/RRPCommands.pm:843-850 | a connection that sends QUIT only well-formed and in a session never gives back more than it was granted, and nothing while it is open |
| Connection.QuitExactly | server/RRPCommands.pm:828-856 | QUIT asks for a decrement in any case; it is answered with 220 and closes exactly if it has no parameters, and with 507 otherwise |
| Connection.DecrementsAreQuits | server/RRPCommands.pm:843-850 | in every run the decrements asked for are the commands named quit read while the connection was open |
| Connection.InSession | server/RRPCommands.pm:1070-1075 | in a session only a QUIT without parameters closes: other commands give their own answer, SESSION is out of sequence, unknown commands are not counted |
| Connection.SessionLasts | server/RRPCommands.pm:1450-1469 | a connection with a session stays open, whatever comes, exactly until there is a QUIT without parameters |
| Connection.AnswersBefore | server/RRPCommands.pm:1097-1132 | the answers of SESSION and unknown commands before there is a session: what is wrong while the attempt can be counted, 520 when it cannot, 521 without a place, otherwise as rand_response has it |
| Connection.ClosesAsAnnounced | server/RRPCommands.pm:115-135 | SESSION, QUIT and unknown commands close exactly with 220, 420, 520 and 521, the codes whose texts say so |
| Connection.OthersStayOpen | server/RRPCommands.pm:640-643 | the other commands stay open with all codes, so they do as their answer says exactly if it is none of these |
| Connection.RetryExactly | server/RRPCommands.pm:1097-1120 | a SESSION that passes its check and is answered with a code that leaves the connection open passes it again if and only if it does not change the password; otherwise it is refused with 530 |
| RrpVector.Vector.Size | API/C/src/rrpVector.c:449-463 | the length of the sequence |
| RrpVector.Vector.ElementAt | API/C/src/rrpVector.c:487-518 | the element at a valid index, nothing at any other |
| RrpVector.Vector.Add | API/C/src/rrpVector.c:264-322 | one element more at the end, list, count, tail and cursor kept in order |
| RrpVector.Vector.RemoveAll | API/C/src/rrpVector.c:347-380 | an empty, valid vector, also from one whose tail was left behind |
| RrpVector.Vector.DeleteElementAt | API/C/src/rrpVector.c:542-591 | at any valid index the chain and the sequence lose exactly that element; the vector stays valid if and only if it was not the last of several |
| RrpVector.Vector.Clone | API/C/src/rrpVector.c:150-239 | a deep copy with new nodes, the same elements and the cursor at the same position |
| RrpProperties.Properties.Size | API/C/src/rrpProperties.c:533-546 | the number of keys |
| RrpProperties.Properties.FindProperty | API/C/src/rrpProperties.c:562-578 | the node at the position of the key, or null |
| RrpProperties.Properties.GetProperty | API/C/src/rrpProperties.c:603-624 | the vector inside the list with exactly the key's values, or null |
| RrpProperties.Properties.Contains | API/C/src/rrpProperties.c:876-895 | true exactly for the keys of the multimap |
| RrpProperties.Properties.ResetPointer | API/C/src/rrpProperties.c:721-736 | the cursor goes back to the first key |
| RrpProperties.Properties.GetNextKey | API/C/src/rrpProperties.c:764-787 | the key at the cursor, which moves on by one; nothing at the end |
| RrpProperties.Properties.Put | API/C/src/rrpProperties.c:290-370 | refines putting into an ordered multimap; where the list's cursor and those of its vectors are afterwards |
| RrpProperties.Properties.PutPair | API/C/src/rrpProperties.c:813-851 | puts key and value around the first colon; nothing without one |
| RrpProperties.Properties.Clear | API/C/src/rrpProperties.c:476-509 | an empty, valid list |
| RrpProperties.Properties.Remove | API/C/src/rrpProperties.c:647-696 | refines removing a key with all its values; tail and cursor are repaired |
| RrpProperties.Properties.Clone | API/C/src/rrpProperties.c:174-260 | a deep, disjoint copy with the same multimap, the cursor at the same position, and the cursors of all vectors at the same positions |
| Multimap.PutKeeps | API/C/src/rrpProperties.c:290-370 | keys stay unique, a new one comes last |
| Multimap.PutValues | API/C/src/rrpProperties.c:290-370 | a put extends the values of its key and leaves all others |
| Multimap.RemoveValues | API/C/src/rrpProperties.c:647-696 | a removal takes all values of its key and leaves all others |
| Multimap.RunRefines | API/C/src/rrpProperties.c:290-696 | after any run of puts, removals and clearings: each key once, in the order they came in, each with exactly the values put since it was last taken off |
| Multimap.PutAllGroups | API/C/src/rrpProperties.c:290-370 | a run of puts groups values by key, keys in order of first occurrence |
| Request.MySprintf | API/C/src/rrpAPI.c:1407-1470 | the loop with its two-character window and 64-byte buffer appends the expansion of the format, and the buffer does not overflow |
| Request.ExpandFormat | API/C/src/rrpAPI.c:1407-1470 | for any literal pieces without percent signs and any arguments, percent signs included, the expansion is the pieces with the arguments in between |
| Request.DecimalValue | API/C/src/rrpAPI.c:1334-1362 | the digits printed for a number read back as that number |
| Request.AppendVector | API/C/src/rrpAPI.c:1535-1564 | one field for each element, in order |
| Request.AppendDeletedVector | API/C/src/rrpAPI.c:1568-1597 | the same with an equals sign behind each value |
| Request.AppendProperties | API/C/src/rrpAPI.c:1478-1527 | one field `old=new` for each value of each key, in order; the caller's list and its cursor are not touched |
| Request.PropertyFieldsAre | API/C/src/rrpAPI.c:1498-1522 | the fields of a list come key by key and for each key value by value |
| RequestCalls.StartSession | API/C/src/rrpAPI.c:201-236 | the request is SESSION with its options, the new password only if it is not empty |
| RequestCalls.AddDomain | API/C/src/rrpAPI.c:296-339 | the request is ADD with name, name servers in order, and the period if it is 1 or more, written out |
| RequestCalls.ModifyDomain | API/C/src/rrpAPI.c:660-743 | the request is MOD with added, replaced and deleted name servers, then added, replaced and deleted statuses, each list in order, written out |
| RequestCalls.ModifyNameServer | API/C/src/rrpAPI.c:778-840 | the request is MOD with the new name and added, replaced and deleted addresses |
| RequestBuilt.StartSessionOk | API/C/src/rrpAPI.c:201-236 | for any arguments without CR, LF and NUL the request built is one that the theorems about the server's loop and splitting take |
| RequestBuilt.AddDomainOk | API/C/src/rrpAPI.c:296-339 | the same for ADD |
| RequestBuilt.ModifyDomainOk | API/C/src/rrpAPI.c:660-743 | the same for MOD of a domain, values with colons and equals signs included |
| RequestBuilt.ModifyNameServerOk | API/C/src/rrpAPI.c:778-840 | the same for MOD of a name server |
| RequestServe.Child.GetLine | server/rrps:86-106 | bytes up to and including a newline, or what is left |
| RequestServe.Child.Run | server/rrps:284-385 | for any input and any command processor the loop hands over and stops as the line-by-line function says, up to the end of the input; what follows there is `EndOfStreamGoesOn` |
| RequestServe.ServeAll | server/rrps:284-350 | any number of requests in one stream, none too large and none but the last one closing: exactly their texts are handed over, in order, and what follows is read as if it came alone |
| RequestServe.ServeRequest | server/rrps:312-350 | a request is handed over whole if and only if it is within MaxCommandSize; otherwise the connection is closed and nothing of it is handed over |
| RequestServe.BlankLinesDoNotMatter | server/rrps:306-310 | a blank line between any two lines, of one request or of two, makes no difference |
| RequestServe.BareNewlines | server/rrps:306-328 | a line that only looks blank or like a dot line is part of the command |
| RequestServe.TimeoutExactly | server/rrps:331-349 | with a positive CommandTimeout exactly that many commands are executed and the next one ends the connection |
| RequestServe.EndOfStreamGoesOn | server/rrps:86-106 | for every input that leaves the connection open: after its end any number of further lines changes nothing and the loop goes on, if and only if the size limit is not negative |
| RequestServe.WithinLimit | server/rrps:312-320 | while the loop goes on, the command so far is within the limit |
| RequestServe.RequestRecovered | server/RRPCommands.pm:301-337 | the CRLF split, the removal of first and last line and the split at the first colon recover the command and the ordered keys and values, in lower case, also for values with colons |
| RequestServe.LowerMessage | server/RRPCommands.pm:309-313 | the text of a request in lower case is the text of the request in lower case |
| Tokenize.Examine | server/RRPCommands.pm:1991-2067 | a line by itself: accepted with its key and flag-free value, or the code of its error |
| Tokenize.Tokenize | server/RRPCommands.pm:1973-2072 | the loop stops at the first line in error with its code; tokens and counts are those of the lines before, a forbidden repetition being counted too |
| Tokenize.OkExactly | server/RRPCommands.pm:1973-2072 | the code is 200 if and only if every line is accepted by itself and no key but nameserver and ipaddress repeats; otherwise it is determined by the first line for which this fails |
| Tokenize.FlagExactly | server/RRPCommands.pm:1997-2004 | for a known key: with a flag, one equals sign at the end is taken off before the value is validated and kept, or a newline behind it in its stead; without a flag it is part of the value |
| Tokenize.NoValue | server/RRPCommands.pm:2006-2019 | a known key without a colon is refused with 507 |
| Tokenize.UnknownKeys | server/RRPCommands.pm:2036-2066 | unknown options are refused with 501 if the command has options, unknown attributes with a value with 503 if it has attributes, all else with 507 |
| Tokenize.ErrorKeepsBefore | server/RRPCommands.pm:1991-2072 | on an error tokens and counts are those of the lines in front, a forbidden repetition counted once more |
| Tokenize.WordExactly | server/RRPCommands.pm:1896-1919 | a word is valid exactly if the program's pattern matches it and it has 1 to 128 characters |
| Tokenize.PasswordExactly | server/RRPCommands.pm:1776-1799 | a password is valid exactly if the program's pattern matches it and it has 4 to 16 characters |
| Tokenize.SeenCounts | server/RRPCommands.pm:2022 | the count of a key is the number of accepted lines with it |
| Tokenize.TokensAreLast | server/RRPCommands.pm:2033 | the token of a key is the value of the last accepted line with it |
| RequestCheck.TokenizeFields | server/RRPCommands.pm:1973-2072 | for fields with known keys, repeated or not, with a flag or without: 200 exactly if every value is valid, without the flag, and only name servers and addresses are repeated; then every key has its count and its last value |
| RequestCheck.JudgeField | server/RRPCommands.pm:1995-2019 | the verdict on one field, from its text |
| ModifyRequest.ModifyDomainChecked | server/RRPCommands.pm:203-212 | a MOD of name servers built by the C client is accepted exactly if the name and all added, replaced (as old=new) and deleted name servers are valid, the deleted ones without their sign, all in lower case |
| ModifyRequest.LastDeleted | server/RRPCommands.pm:1997-2033 | what is kept of an accepted one is the last name server deleted, without its sign |
| ModifyRequest.PeriodRecovered | API/C/src/rrpAPI.c:325-331 | the period of an ADD reads back as the number given, and there is none below 1 |
| SessionRequest.OptionsChecked | server/RRPCommands.pm:1086-1095 | valid SESSION options in any order: 509 without name or password, 530 with a wrong one, 200 otherwise |
| SessionRequest.CredentialsExactly | server/RRPCommands.pm:1079-1100 | a SESSION request built by the C client passes the server's check if and only if its credentials in lower case are valid and equal the configured ones |
| SessionRequest.RepeatExactly | server/RRPCommands.pm:1097-1120 | a client's valid request, answered with a code that leaves the connection open, passes the check again exactly if it gives no new password or one that is the current one in lower case; otherwise it is refused with 530 |
| SessionRequest.SessionTokens | server/RRPCommands.pm:1079-1100 | what the server's `tokenize` makes of a SESSION request of the C client: 200 exactly for valid credentials, and then each option with its value in lower case |
| SessionRequest.ChangeCannotBeRepeated | server/RRPCommands.pm:1097-1120 | a concrete request to change the password that is refused when it is repeated |
| ResponseRead.ReadResponseC | API/C/src/rrpConnection.c:346-406 | for any cutting of a NUL-free stream into chunks that are not empty: the shortest prefix that ends in the terminator, after the first chunk that completes it; without a terminator, all of it or nothing |
| ResponseRead.ReadResponseJava | API/Java/nsi/registry/client/java/rrp/api/RRPSession.java:1402-1468 | the same string from the suffix test at each newline; an error without a terminator |
| ResponseRead.CompleteByOne | API/Java/nsi/registry/client/java/rrp/api/RRPSession.java:1456-1462 | looking only at the end of the text, and only at newlines, misses no terminator |
| ResponseParse.ParseResponse | API/C/src/rrpAPI.c:1223-1315 | the loop over lines, building a property list on the heap, gives the result of the parsing function |
| ResponseParse.Response.ParseRawResponse | API/Java/nsi/registry/client/java/rrp/api/Response.java:178-332 | the tokenizer loop over the fields of a response object gives the result of the parsing function |
| ResponseRoundTrip.CRoundTrip | API/C/src/rrpAPI.c:1223-1315 | the C client recovers code and description of every rendered response, and its attributes grouped by key in order |
| ResponseRoundTrip.JavaRoundTrip | API/Java/nsi/registry/client/java/rrp/api/Response.java:178-364 | what the Java client recovers: keys trimmed and in lower case, values trimmed; an exception exactly if the description is blank |
| ResponseRoundTrip.SameTable | API/Java/nsi/registry/client/java/rrp/api/Response.java:347-364 | table of vectors and list of properties hold the same values for the same pairs |
| ResponseRoundTrip.TablesAgree | API/Java/nsi/registry/client/java/rrp/api/Response.java:306-323 | the tables of both clients are equal if and only if every key and value already has the Java client's form |
| ResponseRoundTrip.ClientsAgreeExactly | API/C/src/rrpAPI.c:1223-1315 | both clients parse a rendered response with the same code, description and table if and only if description, keys and values already have that form and the description is not empty |
| ResponseRoundTrip.DescribeDisagrees | server/RRPCommands.pm:681-683 | on the server's answer to DESCRIBE they do not |
| ResponseRoundTrip.ResponseFramed | API/C/src/rrpConnection.c:367-374 | a rendered response, whatever follows it on the stream, is the first complete one, so both readers return exactly it |
| ResponseErrors.CutNeverParsed | API/C/src/rrpAPI.c:1263-1314 | a rendered response cut off at any byte holds no complete response and the C client gets nothing from it |
| ResponseErrors.Receive | API/C/src/rrpAPI.c:1605-1637 | reading and parsing for any chunks: something is found exactly if what was read is parsed |
| ResponseErrors.BadLineEnds | API/C/src/rrpAPI.c:1283-1292 | a line without a colon behind the attributes: the C client takes it for the end, the Java client throws an exception exactly if it is not a dot |
| ResponseErrors.FirstLineErrors | API/Java/nsi/registry/client/java/rrp/api/Response.java:197-232 | without a space in the first line neither client parses the response |
| ResponseErrors.NoNumber | API/Java/nsi/registry/client/java/rrp/api/Response.java:223-236 | the Java client does not either if what is in front of the space is no number |
| ResponseErrors.TrimIs | API/Java/nsi/registry/client/java/rrp/api/Response.java:306-323 | trimming takes off what is not above a space at both ends, and nothing else |
| ResponseErrors.ParseIntIs | API/Java/nsi/registry/client/java/rrp/api/Response.java:223-236 | which numbers the Java client takes, and their values |
| ResponseErrors.AtoiIs | API/C/src/rrpAPI.c:1275 | the C client takes space and a sign in front of a number |
| Calendar.ExpirationDate | server/RRPUtil.pm:66-146 | the year loop adds exactly the leap days that the closed form in n/4, n/100 and n/400 counts, and the date is that of the resulting day; the time of day is kept |
| Calendar.LeapsStep | server/RRPUtil.pm:103-139 | the closed form grows by one exactly at leap years |
| Calendar.LocalDateIs | server/RRPUtil.pm:142-146 | the date computed from a day number is the one with that number, for every valid date |
| Calendar.LocalDateValid | server/RRPUtil.pm:142-146 | and the other way round, for every day number |
| Calendar.NextDay | server/RRPUtil.pm:142-146 | dates count from 1 January 1970, one day after the other, with the lengths of the months and the rule for leap years written out |
| Calendar.ExpirationIs | server/RRPUtil.pm:66-140 | with a start year not behind the current one: same month and day from March on; before the leap date one day late if the end year is a leap year; from 29 February the end of February |
| Calendar.AnniversaryExactly | server/RRPUtil.pm:66-140 | exactly when the date is the anniversary |
| Calendar.ExpirationFor | server/RRPUtil.pm:66-140 | for every date, 29 February included, and every start year, none, past or future: the date is the due date less the leap years not counted, and the due date itself if and only if there are none |
| Calendar.NothingCounted | server/RRPUtil.pm:99-109 | without a start year, or with a period that ends before this year, no leap day is counted: the date falls short by all of them, and is the due date exactly if there are none |
| Ipv6.NormalizeAddress | server/RRPUtil.pm:204-287 | the rewriting loop ends on every text, and address acceptance and groups are those of the text functions |
| Ipv6.WildCardExpansion | server/RRPUtil.pm:216-271 | for any groups L and R, the text of L::R gives exactly L, zeros and R, or is rejected, with the exact condition for each |
| Ipv6.PlainAddress | server/RRPUtil.pm:252-270 | an address without wild card is taken exactly if it has eight groups, as it is |
| Ipv6.FillStep | server/RRPUtil.pm:239-242 | every pass of the loop adds a field, on any text with a double colon |
| Ipv6Rejects.AcceptedIsAddress | server/RRPUtil.pm:252-287 | every text that is taken comes to eight groups of one to four letters or digits |
| Ipv6Rejects.EightFields | server/RRPUtil.pm:256-287 | eight fields without colons, none empty, are taken exactly if each is such a group, and then as they are |
| Ipv6Rejects.ImproperRejected | server/RRPUtil.pm:263-287 | whatever the wild cards, a text with five characters in a row that are no colons, or with a character that is no letter, digit or colon, is not taken |
| Ipv6Rejects.HexExpansion | server/RRPUtil.pm:216-271 | for groups of one to four hexadecimal digits: the expansion, with zeros written 0000, or rejection |
| Ipv6Rejects.TwoWildCards | server/RRPUtil.pm:225-250 | two wild cards with groups between them are never taken |
| Ipv6Rejects.ThreeColons | server/RRPUtil.pm:225-250 | three colons between groups are taken for a wild card exactly if there are three, five or seven groups |
| Ipv6Rejects.ColonAtEnds | server/RRPUtil.pm:252-260 | a single colon in front of the first or behind the last group is never taken |

## Left out

The dump program:

- the options: `-a` (all data), `-b` and `-o` (encapsulated data), `-hh`, pure output and input from a pipe; the model has the default options and a seekable file
- everything printed beside the header lines and the complaints about inconsistent lengths: indentation, hex columns, names of object identifiers, complaints about zero lengths and their counts, and the file of object identifiers
- undefined behaviour of C ends the walk with a fault of its own: tag and length octets beyond the eight header entries, a look-ahead or a counter past the largest `int`; `long` has 64 bits
- BerDump.Dump.GetValue: states the value for up to eight octets that are in the file; for more, which only an enumerated item can have, C does not say what is lost
- BerDump.Dump.DumpBitString: states what is printed for one or two octets that are in the file and up to seven unused bits; other numbers are shifted by amounts for which C does not say what happens
- BerOid.OidRoundTrip: the limit of 32 octets is in `BerWalk.PrimitiveEnd`, and identifiers of the configuration file are printed from there instead

The server:

- sockets, forks, signals, timeouts, and the idle and session timers of the line loop; no child dies inside the lock
- exclusion by `flock` is an assumption: it holds where Perl's `flock` takes locks for each process, and not where locks belong to the open file the children inherit (server/RRPCache.pm:91-94); `SessionCache.RepliesCross` shows what happens then
- RequestServe.Child.Run: ends at the end of the input; that the program then reads empty lines for ever is `RequestServe.EndOfStreamGoesOn`
- what the commands other than SESSION and QUIT do in a session: forced errors by configured names, weighted random answers and the attributes they print; their answers are an input
- Connection.State.SessionCommand: the random answer is an input; so is the cache's answer, which `SessionServer` ties to the counter
- Connection.OthersDoNotMatter: the ten commands with the same gate are one function of the model
- Tokenize.Tokenize: the validators are any functions from a value to a code; those of SESSION are modelled, the others are simple tests of their argument
- the tables of restricted addresses and the look-up in them
- Ipv6.NormalizeAddress: stops at the groups; the number that the program then makes of them is not modelled
- Calendar.ExpirationDate: states the date for a fixed offset from UTC, no change of time zone rules, dates from 1970 on, and not the formatting of the string, whose day has no leading zero
- `renew_check`, the address validation of IPv4 and the tables of texts: short case distinctions

The clients:

- allocation failures, NULL containers and strings where the C functions only report a bad parameter, and `free`; a request that does not exist yet is an empty string
- Request.MySprintf: formats with literal runs of 64 characters or more, or more slots than arguments, are excluded; the C program overflows its buffer there, and none of its calls has one
- the calls with one fixed format (delete, check, renew, transfer and others): the same formatting with fewer parts
- after a deletion has left the tail of a vector behind, adding to it is not modelled: the C program then links the element to a freed node
- ResponseParse.ParseResponse: codes that do not fit an `int`, for which `atoi` is undefined, are outside `RenderOk`
- characters beyond ASCII: lower case and trimming are those of ASCII, and a byte is a character
- timeouts of the readers, the Java exception classes and the secure socket
