/**
 The BER/DER walker of dumpasn1, as functions over a file that is a sequence of bytes and a
 cursor.  `GetItem` reads one header, `WalkObject` steps over (or into) one item and
 `WalkLoop` is the loop of `printAsn1`.  The functions say where the cursor ends, which
 listing lines are produced and how each call ends; module `BerDump` has the imperative
 program and proves that it computes exactly this.

 The file is seekable, the options are the default ones, `int` has 32 bits and `long` 64.
 Where the C program leaves defined behaviour the walk stops with a `Fault` of its own.
 */
module BerWalk {

  type Byte = b: int | 0 <= b < 256

  // What `fgetc` returns at the end of the file.
  const EOF := -1

  // The in-band value for "length not known yet".
  const LENGTH_MAGIC := 177545

  const HEADER_ENTRIES := 8
  const MAX_OID_SIZE := 32
  const MAX_INT := 0x7FFF_FFFF

  datatype Item = Item(id: int, tag: int, length: int, indefinite: bool, headerSize: nat)

  datatype Fault =
    | LengthFieldTooLarge  // exit: more than four length octets
    | BadLength            // exit: negative length
    | OidTooLarge          // exit: object identifier over 32 octets
    | HeaderOverrun        // undefined: tag and length do not fit the header array
    | LookAheadOverrun     // undefined: look-ahead size is negative as an int
    | CounterOverflow      // undefined: int loop counter passes its maximum

  // One line of the listing: a printed header, or a complaint about an inconsistent length.
  datatype Event =
    | Line(offset: nat, level: nat, id: int, tag: int, length: int, indefinite: bool)
    | Inconsistent(result: int)

  /** Truncation of a wider integer to a signed 32-bit `int`. */
  function Int32(x: int): (r: int) {
    if -0x8000_0000 <= x <= MAX_INT then x else (x + 0x8000_0000) % 0x1_0000_0000 - 0x8000_0000
  }

  lemma Int32Exact(x: int)
    ensures Int32(x) == x <==> -0x8000_0000 <= x <= MAX_INT
  {}

  // ---------------------------------------------------------------- cursor

  /** The cursor after `n` calls of `getc`: it never passes the end, and stays put beyond it. */
  function Advance(data: seq<Byte>, pos: nat, n: int): (r: nat)
    ensures pos <= r
  {
    if pos >= |data| || n <= 0 then pos else if pos + n <= |data| then pos + n else |data|
  }

  /** Bytes not yet read; the termination measure of the walk. */
  function Remaining(data: seq<Byte>, pos: nat): nat {
    if pos < |data| then |data| - pos else 0
  }

  // ---------------------------------------------------------------- headers

  datatype TagResult = TagAt(tag: int, pos: nat, index: nat) | TagEof(pos: nat) | TagOverrun

  /** The do-while loop over the octets of a high tag number. */
  function ReadLongTag(data: seq<Byte>, pos: nat, tag: int, index: nat): (r: TagResult)
    ensures r.TagAt? ==> pos < r.pos <= |data| && index < r.index <= HEADER_ENTRIES
    decreases HEADER_ENTRIES - index
  {
    if index >= HEADER_ENTRIES then TagOverrun
    else if pos >= |data| then TagEof(pos)
    else
      var tag' := Int32(tag * 128 + data[pos] % 128);
      if data[pos] >= 128 then ReadLongTag(data, pos + 1, tag', index + 1)
      else TagAt(tag', pos + 1, index + 1)
  }

  /** `n` length octets after a long-form length; an octet missing at the end reads as -1. */
  function ReadLength(data: seq<Byte>, pos: nat, n: nat, length: int): (int, nat)
    decreases n
  {
    if n == 0 then (length, pos)
    else if pos < |data| then ReadLength(data, pos + 1, n - 1, length * 256 + data[pos])
    else ReadLength(data, pos, n - 1, -1)
  }

  lemma ReadLengthPos(data: seq<Byte>, pos: nat, n: nat, length: int)
    ensures ReadLength(data, pos, n, length).1 == Advance(data, pos, n)
    decreases n
  {}

  datatype GetResult = NoItem(pos: nat) | Got(item: Item, pos: nat) | Failed(fault: Fault)

  /** The length part of `getItem`; `index` header entries are in use. */
  function GetLength(data: seq<Byte>, pos: nat, id: int, tag: int, index: nat): (r: GetResult) {
    if index >= HEADER_ENTRIES then Failed(HeaderOverrun)
    else if pos >= |data| then Failed(LengthFieldTooLarge)  // EOF has all its bits set
    else
      var octet := data[pos];
      if octet < 128 then Got(Item(id, tag, octet, false, index + 1), pos + 1)
      else if octet - 128 > 4 then Failed(LengthFieldTooLarge)
      else if index + 1 + (octet - 128) > HEADER_ENTRIES then Failed(HeaderOverrun)
      else
        var (length, end) := ReadLength(data, pos + 1, octet - 128, 0);
        Got(Item(id, tag, length, octet == 128, index + 1 + (octet - 128)), end)
  }

  /** `getItem`: no item at the end of the file, otherwise an item and the cursor behind its header. */
  function GetItem(data: seq<Byte>, pos: nat): (r: GetResult) {
    if pos >= |data| then NoItem(pos)
    else
      var id := data[pos] / 32 * 32;
      if data[pos] % 32 == 31 then
        match ReadLongTag(data, pos + 1, 0, 1)
        case TagOverrun => Failed(HeaderOverrun)
        case TagEof(p) => NoItem(p)
        case TagAt(tag, p, index) => GetLength(data, p, id, tag, index)
      else GetLength(data, pos + 1, id, data[pos] % 32, 1)
  }

  /** A successful `getItem` has read at least two real bytes; its octet count is the header
      size unless the file ended inside the length octets. */
  lemma GetItemProgress(data: seq<Byte>, pos: nat)
    ensures var r := GetItem(data, pos);
            (r.Got? ==> pos + 2 <= r.pos <= |data| && -1 <= r.item.length
                        && (r.item.length >= 0 ==> r.pos == pos + r.item.headerSize)
                        && (r.item.length < 0 ==> r.pos == |data|)
                        && (r.item.indefinite ==> r.item.length == 0)
                        && 0 <= r.item.id < 256 && r.item.id % 32 == 0)
            && (r.NoItem? ==> r.pos >= |data| && pos <= r.pos)
  {
    if pos < |data| {
      if data[pos] % 32 == 31 {
        ReadLongTagCount(data, pos + 1, 0, 1);
        var t := ReadLongTag(data, pos + 1, 0, 1);
        if t.TagAt? { GetLengthProgress(data, t.pos, data[pos] / 32 * 32, t.tag, t.index); }
      } else {
        GetLengthProgress(data, pos + 1, data[pos] / 32 * 32, data[pos] % 32, 1);
      }
    }
  }

  lemma ReadLongTagCount(data: seq<Byte>, pos: nat, tag: int, index: nat)
    ensures var r := ReadLongTag(data, pos, tag, index);
            (r.TagAt? ==> r.pos - pos == r.index - index)
            && (r.TagEof? ==> r.pos >= |data| && r.pos >= pos)
    decreases HEADER_ENTRIES - index
  {}

  lemma GetLengthProgress(data: seq<Byte>, pos: nat, id: int, tag: int, index: nat)
    requires pos <= |data|
    ensures var r := GetLength(data, pos, id, tag, index);
            !r.NoItem?
            && (r.Got? ==> pos < r.pos <= |data| && -1 <= r.item.length
                           && (r.item.length >= 0 ==> r.pos - pos == r.item.headerSize - index)
                           && (r.item.length < 0 ==> r.pos == |data|)
                           && (r.item.indefinite ==> r.item.length == 0)
                           && r.item.id == id && r.item.tag == tag)
  {
    if index < HEADER_ENTRIES && pos < |data| && 128 <= data[pos] <= 132 {
      ReadLengthValue(data, pos + 1, data[pos] - 128, 0);
      ReadLengthPos(data, pos + 1, data[pos] - 128, 0);
    }
  }

  /** The length is negative exactly when the file ended inside the length octets. */
  lemma ReadLengthValue(data: seq<Byte>, pos: nat, n: nat, length: int)
    requires pos <= |data|
    requires 0 <= length || (length == -1 && pos == |data|)
    ensures var r := ReadLength(data, pos, n, length);
            -1 <= r.0 && (0 <= length ==> (r.0 == -1 <==> pos + n > |data|))
    ensures length == -1 ==> ReadLength(data, pos, n, length).0 == -1
    decreases n
  {}

  // ---------------------------------------------------------------- stepping over contents

  predicate Universal(id: int) { id < 64 }

  predicate Constructed(id: int) { id / 32 % 2 == 1 }

  /** `dumpHex`: at most 128 bytes are read, the rest is skipped by seeking, even past the end. */
  function HexEnd(data: seq<Byte>, pos: nat, length: int): (r: nat)
    ensures pos <= r
  {
    if length > 128 then Advance(data, pos, 128) + (length - 128) else Advance(data, pos, length)
  }

  /** `dumpBitString`: reads the second octet only when more than eight bits are valid. */
  function BitStringEnd(data: seq<Byte>, pos: nat, length: int, unused: int): (r: nat)
    ensures pos <= r
  {
    var first := Advance(data, pos, if length != 0 then 1 else 0);
    Advance(data, first, if length * 8 - unused > 8 then 1 else 0)
  }

  /** The byte `getc` returns at the cursor. */
  function Peek(data: seq<Byte>, pos: nat): int {
    if pos < |data| then data[pos] else EOF
  }

  /** The text test on the first (at most 16) bytes of a primitive of unknown type: printable
      ASCII, or zero at an even index.  Bytes above 127 are negative as `char`. */
  predicate LooksLikeText(data: seq<Byte>, pos: nat, i: nat, n: nat)
    decreases n - i
  {
    i >= n || pos + i >= |data| ||
    ((0x20 <= data[pos + i] <= 0x7E || (i % 2 == 0 && data[pos + i] == 0))
     && LooksLikeText(data, pos, i + 1, n))
  }

  datatype StepResult = At(pos: nat) | StepFault(fault: Fault)

  predicate StringTag(tag: int) {
    tag in {7, 12, 18, 19, 20, 21, 22, 23, 24, 25, 26, 27, 28, 30}
  }

  /** Where the cursor is after the contents of a primitive item have been printed. */
  function PrimitiveEnd(data: seq<Byte>, pos: nat, item: Item): (r: StepResult)
    ensures r.At? ==> pos <= r.pos
  {
    var n := item.length;
    if !Universal(item.id) then
      if n < 4 then At(HexEnd(data, pos, n))
      else if n > MAX_INT then StepFault(LookAheadOverrun)
      else if LooksLikeText(data, pos, 0, if n < 16 then n else 16) then At(Advance(data, pos, n))
      else At(HexEnd(data, pos, n))
    else if n == 0 then At(pos)
    else
      match item.tag
      case 0 => At(pos)
      case 1 => At(Advance(data, pos, 1))
      case 2 => At(if n > 4 then HexEnd(data, pos, n) else Advance(data, pos, if n < 1 then 1 else n))
      case 3 =>
        var contents := Advance(data, pos, 1);
        if n - 1 <= 2 then At(BitStringEnd(data, contents, n - 1, Peek(data, pos)))
        else At(HexEnd(data, contents, n - 1))
      case 4 => At(HexEnd(data, pos, n))
      case 5 => At(pos)
      case 6 => if n > MAX_OID_SIZE then StepFault(OidTooLarge) else At(Advance(data, pos, n))
      case 10 =>
        if n - 1 > MAX_INT then StepFault(CounterOverflow)
        else At(Advance(data, pos, if n < 1 then 1 else n))
      case _ => if StringTag(item.tag) then At(Advance(data, pos, n)) else At(HexEnd(data, pos, n))
  }

  // ---------------------------------------------------------------- the walk

  // Why a call of `printAsn1` returned.
  datatype How =
    | Empty       // zero length, nothing read
    | EndOfInput  // no further item
    | Eoc         // end-of-contents octets in an indefinite container
    | Magic       // item of an unknown length finished
    | Exact       // no bytes left
    | Overrun     // more bytes used than there were
    | Recovered   // one trailing byte swallowed

  datatype Outcome = Done(ret: int, how: How) | Abort(fault: Fault)

  datatype WalkResult = WalkResult(outcome: Outcome, pos: nat, events: seq<Event>)

  predicate IsEoc(item: Item) { !item.indefinite && item.id == 0 && item.tag == 0 }

  function HeaderLine(item: Item, offset: nat, level: nat): seq<Event> {
    if IsEoc(item) then []
    else [Line(offset, level, item.id, item.tag, item.length, item.indefinite)]
  }

  /** The remaining length once the header of the next item is known: an unknown length becomes
      the size of a definite item. */
  function Adjusted(length: int, item: Item): int {
    if length == LENGTH_MAGIC && !item.indefinite then item.headerSize + item.length else length
  }

  /** The single byte left over is pushed back if it could start an item. */
  predicate Swallowed(data: seq<Byte>, pos: nat) {
    pos < |data| && (data[pos] == 0 || data[pos] > 0x31)
  }

  /** `printASN1object` behind the header of `item`. */
  function WalkObject(data: seq<Byte>, pos: nat, level: nat, item: Item): (r: WalkResult)
    ensures r.outcome.Done? ==> pos <= r.pos
    decreases Remaining(data, pos), 3
  {
    if item.tag != 5 && item.length < 0 then WalkResult(Abort(BadLength), pos, [])
    else if !Universal(item.id) && item.length == 0 && !item.indefinite then
      WalkResult(Done(0, Empty), pos, [])
    else if Constructed(item.id) then
      var r := PrintAsn1(data, pos, level + 1, item.length, item.indefinite);
      if r.outcome.Done? && r.outcome.ret != 0 then
        r.(events := r.events + [Inconsistent(r.outcome.ret)])
      else r
    else
      match PrimitiveEnd(data, pos, item)
      case At(p) => WalkResult(Done(0, Exact), p, [])
      case StepFault(f) => WalkResult(Abort(f), pos, [])
  }

  /** `printAsn1`. */
  function PrintAsn1(data: seq<Byte>, pos: nat, level: nat, length: int, indefinite: bool): (r: WalkResult)
    ensures r.outcome.Done? ==> pos <= r.pos
    decreases Remaining(data, pos), 2
  {
    if length == 0 && !indefinite then WalkResult(Done(0, Empty), pos, [])
    else WalkLoop(data, pos, level, length, indefinite, false)
  }

  /** The loop of `printAsn1`, started with `length` bytes to go. */
  function WalkLoop(data: seq<Byte>, pos: nat, level: nat, length: int, indefinite: bool, seenEoc: bool)
    : (r: WalkResult)
    ensures r.outcome.Done? ==> pos <= r.pos
    decreases Remaining(data, pos), 1
  {
    GetItemProgress(data, pos);
    match GetItem(data, pos)
    case NoItem(p) => WalkResult(Done(0, EndOfInput), p, [])
    case Failed(f) => WalkResult(Abort(f), pos, [])
    case Got(item, p) =>
      var total := Adjusted(length, item);
      var line := HeaderLine(item, pos, level);
      var seen := seenEoc || IsEoc(item);
      var body := if seen then WalkResult(Done(0, Eoc), p, []) else WalkObject(data, p, level, item);
      if body.outcome.Abort? then body.(events := line + body.events)
      else
        var rest := AfterItem(data, pos, body.pos, level, total, indefinite, seen);
        rest.(events := line + body.events + rest.events)
  }

  /** The end of one loop iteration: the item that began at `start` has been printed. */
  function AfterItem(data: seq<Byte>, start: nat, pos: nat, level: nat, total: int, indefinite: bool, seen: bool)
    : (r: WalkResult)
    requires start + 2 <= |data| && start + 2 <= pos
    ensures r.outcome.Done? ==> pos <= r.pos
    decreases Remaining(data, start), 0
  {
    var left := total - (pos - start);
    if total == LENGTH_MAGIC then WalkResult(Done(0, Magic), pos, [])
    else if indefinite then
      if seen then WalkResult(Done(0, Eoc), pos, [])
      else WalkLoop(data, pos, level, left, true, seen)
    else if left < 0 then WalkResult(Done(Int32(-left), Overrun), pos, [])
    else if left == 0 then WalkResult(Done(0, Exact), pos, [])
    else if left == 1 && Swallowed(data, pos) then WalkResult(Done(1, Recovered), pos + 1, [])
    else WalkLoop(data, pos, level, left, false, seen)
  }
}
