/**
 Reading one response from the server in chunks.  The C client searches what it has so far for
 the terminator after every read; the Java client looks at the end of its buffer after every
 newline.  Both return the same string, however the stream is cut.
 */
module ResponseRead {
  import opened Common
  import opened Text

  const TERMINATOR := "\r\n.\r\n"

  predicate Complete(s: string) { FindText(s, TERMINATOR) < |s| }

  /** The shortest prefix that ends in the terminator. */
  function FirstResponse(s: string): (r: string)
    requires Complete(s)
    ensures |r| <= |s|
  {
    FindTextFirst(s, TERMINATOR);
    s[..FindText(s, TERMINATOR) + |TERMINATOR|]
  }

  function Flatten(chunks: seq<string>): string {
    if chunks == [] then "" else chunks[0] + Flatten(chunks[1..])
  }

  lemma {:induction false} FlattenTake(chunks: seq<string>, k: nat)
    requires k < |chunks|
    ensures Flatten(chunks[..k + 1]) == Flatten(chunks[..k]) + chunks[k]
    ensures Flatten(chunks[..k]) <= Flatten(chunks)
    decreases k
  {
    if k == 0 {
      assert chunks[..1][1..] == [];
    } else {
      assert chunks[..k + 1][1..] == chunks[1..][..k] && chunks[..k][1..] == chunks[1..][..k - 1];
      FlattenTake(chunks[1..], k - 1);
    }
  }

  lemma CompletePrefix(s: string, t: string)
    requires s <= t && Complete(s)
    ensures Complete(t) && FirstResponse(t) == FirstResponse(s)
  {
    FindTextPrefix(s, TERMINATOR, t[|s|..]);
    FindTextFirst(s, TERMINATOR);
    assert t == s + t[|s|..];
  }

  predicate NulFree(s: string) { '\0' !in s }

  // How the stream ends if no terminator comes.
  datatype Ending = Eof | IoError

  /** What a C string made of these characters holds. */
  function CString(s: string): string { s[..IndexOf(s, '\0')] }

  lemma CStringWhole(s: string)
    requires NulFree(s)
    ensures CString(s) == s
  {
    IndexOfIs(s, '\0', |s|);
  }

  lemma ChunkStep(chunks: seq<string>, k: nat)
    requires k < |chunks|
    ensures var t := Flatten(chunks[..k + 1]);
            t == Flatten(chunks[..k]) + chunks[k] && t <= Flatten(chunks)
            && (NulFree(Flatten(chunks)) ==> CString(t) == t)
  {
    FlattenTake(chunks, k);
    FlattenAll(chunks, k + 1);
    var t := Flatten(chunks[..k + 1]);
    if NulFree(Flatten(chunks)) {
      assert NulFree(t);
      CStringWhole(t);
    }
  }

  lemma FoundIn(s: string, all: string)
    requires s <= all && FindText(s, TERMINATOR) < |s|
    ensures FindText(s, TERMINATOR) + |TERMINATOR| <= |s|
    ensures Complete(s) && Complete(all) && FirstResponse(all) == s[..FindText(s, TERMINATOR) + |TERMINATOR|]
  {
    CompletePrefix(s, all);
    FindTextFirst(s, TERMINATOR);
  }

  /** What reads return: never nothing, since a read of no bytes is the end of the stream. */
  predicate Chunks(chunks: seq<string>) {
    forall i :: 0 <= i < |chunks| ==> chunks[i] != ""
  }

  /** The C client.  Without a terminator it returns what it has at the end of the stream. */
  method ReadResponseC(chunks: seq<string>, ending: Ending) returns (r: Option<string>, taken: nat)
    requires Chunks(chunks)
    ensures var all := Flatten(chunks);
            NulFree(all) ==>
              if Complete(all) then r == Some(FirstResponse(all))
              else r == if ending == IoError || chunks == [] then None else Some(all)
    ensures NulFree(Flatten(chunks)) ==> FirstComplete(chunks, taken)
  {
    hide FirstResponse, CString, NulFree, FindText;
    ghost var all, clean := Flatten(chunks), NulFree(Flatten(chunks));
    var output := "";
    taken := 0;
    NothingComplete();
    while taken < |chunks|
      invariant taken <= |chunks|
      invariant clean ==> output == Flatten(chunks[..taken])
      invariant clean ==> forall k :: 0 <= k <= taken ==> !Complete(Flatten(chunks[..k]))
    {
      ChunkStep(chunks, taken);
      output := CString(output + chunks[taken]);
      taken := taken + 1;
      var end := FindText(output, TERMINATOR);
      if end < |output| {
        FindTextFirst(output, TERMINATOR);
        if clean { FoundIn(output, all); }
        return Some(output[..end + |TERMINATOR|]), taken;
      }
    }
    assert chunks[..|chunks|] == chunks;
    r := if ending == IoError || chunks == [] then None else Some(output);
  }

  lemma NothingComplete()
    ensures !Complete("")
  {}

  /** The number of chunks read: up to the first one that completes a response, if there is one. */
  predicate FirstComplete(chunks: seq<string>, taken: nat) {
    taken <= |chunks|
    && (forall k :: 0 <= k < taken ==> !Complete(Flatten(chunks[..k])))
    && (if Complete(Flatten(chunks)) then Complete(Flatten(chunks[..taken])) else taken == |chunks|)
  }

  lemma FlattenAll(chunks: seq<string>, k: nat)
    requires k <= |chunks|
    ensures Flatten(chunks[..k]) <= Flatten(chunks)
  {
    if k < |chunks| { FlattenTake(chunks, k); } else { assert chunks[..k] == chunks; }
  }

  predicate EndsWith(s: string, t: string) {
    |t| <= |s| && s[|s| - |t|..] == t
  }

  /** One more character completes a response exactly if the text now ends in the terminator, which
      takes a newline. */
  lemma CompleteByOne(s: string, c: char)
    requires !Complete(s)
    ensures Complete(s + [c]) <==> c == '\n' && EndsWith(s + [c], TERMINATOR)
    ensures Complete(s + [c]) ==> FirstResponse(s + [c]) == s + [c]
  {
    hide FindText;
    var t := s + [c];
    FindTextFirst(s, TERMINATOR);
    FindTextFirst(t, TERMINATOR);
    forall j: nat | j + |TERMINATOR| <= |s| ensures !OccursAt(t, TERMINATOR, j) {
      assert !OccursAt(s, TERMINATOR, j);
      assert t[j..j + |TERMINATOR|] == s[j..j + |TERMINATOR|];
    }
    var n := |t| - |TERMINATOR|;
    if EndsWith(t, TERMINATOR) {
      assert t[n..n + |TERMINATOR|] == t[n..];
      assert OccursAt(t, TERMINATOR, n);
      assert t[|t| - 1] == t[n..][4];
    }
    if Complete(t) {
      assert FindText(t, TERMINATOR) == n;
      assert t[n..n + |TERMINATOR|] == t[n..];
      assert t[|t| - 1] == t[n..][4];
      assert t[..|t|] == t;
    }
  }

  /** The Java client.  Without a terminator the end of the stream is an error. */
  method ReadResponseJava(chunks: seq<string>) returns (r: Option<string>, taken: nat)
    requires Chunks(chunks)
    ensures var all := Flatten(chunks);
            r == if Complete(all) then Some(FirstResponse(all)) else None
    ensures FirstComplete(chunks, taken)
  {
    hide FirstResponse, Complete, EndsWith;
    var buffer := "";
    taken := 0;
    NothingComplete();
    while taken < |chunks|
      invariant taken <= |chunks| && buffer == Flatten(chunks[..taken])
      invariant forall k :: 0 <= k <= taken ==> !Complete(Flatten(chunks[..k]))
    {
      ChunkStep(chunks, taken);
      var chunk := chunks[taken];
      ghost var before := buffer;
      taken := taken + 1;
      var i := 0;
      while i < |chunk|
        invariant 0 <= i <= |chunk| && buffer == before + chunk[..i] && !Complete(buffer)
      {
        CompleteByOne(buffer, chunk[i]);
        buffer := buffer + [chunk[i]];
        i := i + 1;
        if chunk[i - 1] == '\n' && EndsWith(buffer, TERMINATOR) {
          assert buffer <= before + chunk;
          CompletePrefix(buffer, before + chunk);
          CompletePrefix(buffer, Flatten(chunks));
          return Some(buffer), taken;
        }
      }
      assert chunk[..i] == chunk;
    }
    assert chunks[..|chunks|] == chunks;
    r := None;
  }
}
