/**
 The program dumpasn1 as it is written: a stream with a cursor and an end-of-file flag, items
 filled in octet by octet, and mutually recursive printing procedures.  Every method is proved
 to move the cursor, extend the listing and return as the functions of `BerWalk` say; that the
 recursion ends on every input is part of the proof.
 */
module BerDump {
  import opened Common
  import opened BerWalk
  import opened BerInteger
  import opened BerBitString

  // Bits of what `fgetc` returned; EOF has all its bits set.
  predicate TopBit(ch: int) { ch == EOF || ch >= 128 }

  // `STR_NONE` and the other checks only affect messages, so the text output has no check option.
  lemma PrintAsn1Unfold(data: seq<Byte>, pos: nat, level: nat, length: int, indefinite: bool)
    ensures BerWalk.PrintAsn1(data, pos, level, length, indefinite)
            == if length == 0 && !indefinite then WalkResult(Done(0, Empty), pos, [])
               else WalkLoop(data, pos, level, length, indefinite, false)
  {
    hide WalkLoop;
  }

  /** The loop of `BerWalk` with its first header read. */
  lemma WalkLoopUnfold(data: seq<Byte>, pos: nat, level: nat, length: int, indefinite: bool, seenEoc: bool)
    ensures var r, got := WalkLoop(data, pos, level, length, indefinite, seenEoc), GetItem(data, pos);
            match got
            case NoItem(p) => r == WalkResult(Done(0, EndOfInput), p, [])
            case Failed(f) => r == WalkResult(Abort(f), pos, [])
            case Got(item, p) =>
              var line, seen := HeaderLine(item, pos, level), seenEoc || IsEoc(item);
              var body := if seen then WalkResult(Done(0, Eoc), p, []) else WalkObject(data, p, level, item);
              if body.outcome.Abort? then r == body.(events := line + body.events)
              else
                pos + 2 <= |data| && pos + 2 <= body.pos
                && var rest := AfterItem(data, pos, body.pos, level, Adjusted(length, item), indefinite, seen);
                   r == rest.(events := line + body.events + rest.events)
  {
    hide GetItem, WalkObject, AfterItem, HeaderLine, Adjusted;
    GetItemProgress(data, pos);
  }

  /** `whole` is what `rest` will be once the lines `done` are put in front. */
  ghost predicate SoFar(whole: WalkResult, done: seq<Event>, rest: WalkResult) {
    whole == rest.(events := done + rest.events)
  }

  lemma SoFarMore(whole: WalkResult, done: seq<Event>, more: seq<Event>, rest: WalkResult)
    requires SoFar(whole, done, rest.(events := more + rest.events))
    ensures SoFar(whole, done + more, rest)
  {
    assert done + (more + rest.events) == done + more + rest.events;
  }

  lemma SoFarEnd(whole: WalkResult, done: seq<Event>, rest: WalkResult)
    requires SoFar(whole, done, rest)
    ensures whole == rest.(events := done + rest.events)
    ensures rest.events == [] ==> whole.events == done
  {}

  lemma SoFarStart(whole: WalkResult)
    ensures SoFar(whole, [], whole)
  {}

  class Dump {
    const data: seq<Byte>
    var pos: nat
    var eof: bool
    var listing: seq<Event>

    constructor (data: seq<Byte>, offset: nat)
      ensures this.data == data && pos == offset && listing == [] && Valid()
    {
      this.data := data;
      pos, eof, listing := offset, false, [];
    }

    ghost predicate Valid()
      reads this
    {
      eof ==> pos >= |data|
    }

    // ------------------------------------------------------------ the stream

    method Getc() returns (ch: int)
      requires Valid()
      modifies this`pos, this`eof
      ensures Valid()
      ensures ch == Peek(data, old(pos)) && pos == Advance(data, old(pos), 1)
      ensures eof <==> old(pos) >= |data|
    {
      if pos < |data| {
        ch := data[pos];
        pos, eof := pos + 1, false;
      } else {
        ch, eof := EOF, true;
      }
    }

    /** `fseek` relative to the cursor: past the end is allowed, and the end-of-file flag is cleared. */
    method Seek(n: int)
      requires pos + n >= 0
      modifies this`pos, this`eof
      ensures Valid() && pos == old(pos) + n && !eof
    {
      pos, eof := pos + n, false;
    }

    /** Pushing back EOF does nothing. */
    method Ungetc(ch: int)
      requires Valid() && (ch != EOF ==> pos > 0)
      modifies this`pos, this`eof
      ensures Valid()
      ensures if ch == EOF then pos == old(pos) && eof == old(eof) else pos == old(pos) - 1
    {
      if ch != EOF {
        pos, eof := pos - 1, false;
      }
    }

    /** `n` calls of `getc`. */
    method GetMany(n: int)
      requires Valid()
      modifies this`pos, this`eof
      ensures Valid() && pos == Advance(data, old(pos), n)
    {
      var i := 0;
      while i < n
        invariant Valid() && 0 <= i && (if n >= 0 then i <= n else i == 0)
        invariant pos == Advance(data, old(pos), i)
      {
        var _ := Getc();
        i := i + 1;
      }
    }

    // ------------------------------------------------------------ headers

    method GetItem() returns (r: GetResult)
      requires Valid()
      modifies this`pos, this`eof
      ensures Valid()
      ensures r == BerWalk.GetItem(data, old(pos))
      ensures !r.Failed? ==> pos == r.pos
    {
      hide GetLength, Int32;
      var first := Getc();
      var index := 1;
      var id, tag := first - first % 32, first % 32;
      if tag == 31 {
        tag := 0;
        var more := true;
        ghost var start := pos;
        while more
          invariant Valid() && pos >= old(pos) && 1 <= index <= HEADER_ENTRIES
          invariant old(pos) >= |data| ==> pos == old(pos) && (more <==> index == 1) && (!more ==> eof)
          invariant old(pos) < |data| && more ==>
                      !eof && ReadLongTag(data, start, 0, 1) == ReadLongTag(data, pos, tag, index)
          invariant old(pos) < |data| && !more ==>
                      ReadLongTag(data, start, 0, 1) == if eof then TagEof(pos) else TagAt(tag, pos, index)
          decreases HEADER_ENTRIES - index, more
        {
          var value := Getc();
          if index >= HEADER_ENTRIES { return Failed(HeaderOverrun); }
          tag := Int32(tag * 128 + value % 128);
          index := index + 1;
          more := TopBit(value) && !eof;
        }
      }
      if eof { return NoItem(pos); }
      r := GetLengthOctets(id, tag, index);
    }

    method GetLengthOctets(id: int, tag: int, index: nat) returns (r: GetResult)
      requires Valid() && !eof
      modifies this`pos, this`eof
      ensures Valid()
      ensures r == GetLength(data, old(pos), id, tag, index)
      ensures !r.NoItem? && (r.Got? ==> pos == r.pos)
    {
      var octet := Getc();
      if index >= HEADER_ENTRIES { return Failed(HeaderOverrun); }
      if !TopBit(octet) { return Got(Item(id, tag, octet, false, index + 1), pos); }
      var n := octet % 128;
      if n > 4 { return Failed(LengthFieldTooLarge); }
      var length, i := 0, 0;
      ghost var start := pos;
      while i < n
        invariant Valid() && 0 <= i <= n && start <= pos
        invariant index + 1 + i <= HEADER_ENTRIES
        invariant ReadLength(data, start, n, 0) == ReadLength(data, pos, n - i, length)
      {
        var ch := Getc();
        if index + 1 + i >= HEADER_ENTRIES { return Failed(HeaderOverrun); }
        length := if ch == EOF then -1 else length * 256 + ch;
        i := i + 1;
      }
      r := Got(Item(id, tag, length, n == 0, index + 1 + n), pos);
    }

    // ------------------------------------------------------------ primitive contents

    method DumpHex(length: int)
      requires Valid()
      modifies this`pos, this`eof
      ensures Valid() && pos == HexEnd(data, old(pos), length)
    {
      GetMany(if length > 128 then 128 else length);
      if length > 128 {
        Seek(length - 128);
      }
    }

    method DisplayString(length: int)
      requires Valid()
      modifies this`pos, this`eof
      ensures Valid() && pos == Advance(data, old(pos), length)
    {
      var shown := if length > 384 then 384 else length;
      GetMany(shown);
      if length > 384 {
        GetMany(length - 384);
      }
    }

    /** For up to eight octets that are in the file the value is their sign and magnitude; beyond that
        it depends on what the machine does with lost bits. */
    method GetValue(length: int) returns (r: int)
      requires Valid()
      modifies this`pos, this`eof
      ensures Valid() && pos == Advance(data, old(pos), if length < 1 then 1 else length)
      ensures 1 <= length <= 8 && old(pos) + length <= |data| ==> r == SignMagnitude(data[old(pos)..old(pos) + length])
    {
      hide Magnitude;
      ghost var octets := if 1 <= length && pos + length <= |data| then data[pos..pos + length] else [];
      ghost var start := pos;
      var value := Getc();
      var sign := 1;
      if TopBit(value) {
        sign, value := -1, value % 128;
      }
      FirstMagnitude(octets);
      var i := 0;
      while i < length - 1
        invariant Valid() && 0 <= i && (if length >= 1 then i < length else i == 0)
        invariant pos == Advance(data, start, i + 1)
        invariant octets != [] ==> value == Magnitude(octets[..i + 1])
      {
        if octets != [] { MagnitudeMore(octets, i + 1); }
        var ch := Getc();
        value := if ch == EOF then -1 else value * 256 + ch;
        i := i + 1;
      }
      assert octets != [] ==> octets[..i + 1] == octets;
      r := value * sign;
    }

    lemma FirstMagnitude(octets: seq<Byte>)
      ensures octets != [] ==> Magnitude(octets[..1]) == octets[0] % 128
    {}

    lemma OctetsAt(start: nat)
      ensures start + 1 <= |data| ==> data[start..start + 1] == [data[start]]
      ensures start + 2 <= |data| ==> data[start..start + 2] == [data[start], data[start + 1]]
    {}

    /** Two octets at most, if they are in the file; other lengths and numbers of unused bits are shifted
        by amounts for which C does not say what happens. */
    method DumpBitString(length: int, unused: int) returns (printed: string, spuriousZeros: bool)
      requires Valid()
      modifies this`pos, this`eof
      ensures Valid() && pos == BitStringEnd(data, old(pos), length, unused)
      ensures 1 <= length <= 2 && 0 <= unused <= 7 && old(pos) + length <= |data|
              ==> BitsPrinted(data[old(pos)..old(pos) + length], unused, printed, spuriousZeros)
    {
      hide BitsPrinted;
      printed, spuriousZeros := "", false;
      ghost var start := pos;
      var noBits := length * 8 - unused;
      var first, second := 0, 0;
      if length != 0 {
        first := Getc();
      }
      assert 0 < length && start < |data| ==> first == data[start] && pos == start + 1;
      if noBits > 8 {
        second := Getc();
      }
      if 1 <= length <= 2 && 0 <= unused <= 7 && first != EOF && second != EOF {
        var octets: seq<Byte> := if length == 1 then [first] else [first, second];
        printed, spuriousZeros := PrintOctets(octets, unused);
        if start + length <= |data| {
          OctetsAt(start);
          assert octets == data[start..start + length];
        }
      }
    }

    /** The look-ahead at up to 16 bytes of a primitive of unknown type; the cursor is put back. */
    method LookAhead(length: int) returns (text: bool)
      requires Valid() && length >= 4
      modifies this`pos, this`eof
      ensures Valid() && pos == old(pos)
      ensures text == LooksLikeText(data, old(pos), 0, if length < 16 then length else 16)
    {
      var n: nat := if length < 16 then length else 16;
      var got := if pos >= |data| then 0 else if pos + n <= |data| then n else |data| - pos;
      var buffer := if got == 0 then [] else data[pos..pos + got];
      pos := pos + got;
      Seek(-got);
      var i := 0;
      while i < got && ((buffer[i] == 0 && i % 2 == 0) || 0x20 <= buffer[i] <= 0x7E)
        invariant 0 <= i <= got
        invariant LooksLikeText(data, old(pos), 0, n) == LooksLikeText(data, old(pos), i, n)
      {
        assert buffer[i] == data[old(pos) + i];
        i := i + 1;
      }
      assert i < got ==> buffer[i] == data[old(pos) + i];
      text := i == got;
    }

    method PrintPrimitive(item: Item) returns (fault: Option<Fault>)
      requires Valid()
      modifies this`pos, this`eof
      ensures Valid()
      ensures match PrimitiveEnd(data, old(pos), item)
              case At(p) => fault == None && pos == p
              case StepFault(f) => fault == Some(f)
    {
      var length := item.length;
      fault := None;
      if !Universal(item.id) {
        if length >= 4 {
          if length > MAX_INT { return Some(LookAheadOverrun); }
          var text := LookAhead(length);
          if text {
            DisplayString(length);
            return;
          }
        }
        DumpHex(length);
        return;
      }
      if length == 0 { return; }
      match item.tag {
        case 0 =>
        case 1 => var _ := Getc();
        case 2 => if length > 4 { DumpHex(length); } else { var _ := GetValue(length); }
        case 3 =>
          var unused := Getc();
          length := length - 1;
          if length <= 2 { var _, _ := DumpBitString(length, unused); } else { DumpHex(length); }
        case 4 => DumpHex(length);
        case 5 =>
        case 6 =>
          if length > MAX_OID_SIZE { return Some(OidTooLarge); }
          GetMany(length);
        case 10 =>
          if length - 1 > MAX_INT { return Some(CounterOverflow); }
          var _ := GetValue(length);
        case _ => if StringTag(item.tag) { DisplayString(length); } else { DumpHex(length); }
      }
    }

    // ------------------------------------------------------------ the walk

    /** The listing, cursor and fault after a method agree with a result of the walk. */
    static ghost predicate Follows(r: WalkResult, before: seq<Event>, after: seq<Event>, pos: nat, fault: Option<Fault>) {
      after == before + r.events
      && match r.outcome
         case Done(_, _) => fault == None && pos == r.pos
         case Abort(f) => fault == Some(f)
    }

    method PrintASN1object(item: Item, level: nat) returns (fault: Option<Fault>)
      requires Valid()
      modifies this
      ensures Valid() && Follows(WalkObject(data, old(pos), level, item), old(listing), listing, pos, fault)
      decreases Remaining(data, pos), 4
    {
      if item.tag != 5 && item.length < 0 {
        fault := Some(BadLength);
      } else if !Universal(item.id) && item.length == 0 && !item.indefinite {
        fault := None;
      } else if Constructed(item.id) {
        fault := PrintConstructed(item, level);
      } else {
        fault := PrintPrimitive(item);
      }
    }

    method PrintConstructed(item: Item, level: nat) returns (fault: Option<Fault>)
      requires Valid() && Constructed(item.id) && (item.tag == 5 || item.length >= 0)
      requires Universal(item.id) || item.length != 0 || item.indefinite
      modifies this
      ensures Valid() && Follows(WalkObject(data, old(pos), level, item), old(listing), listing, pos, fault)
      decreases Remaining(data, pos), 3
    {
      if item.length == 0 && !item.indefinite { return None; }
      var result;
      result, fault := PrintAsn1(level + 1, item.length, item.indefinite);
      if fault == None && result != 0 {
        listing := listing + [Inconsistent(result)];
      }
    }

    /** The first half of the loop body of `printAsn1`: read a header, list it and print the item. */
    method NextItem(level: nat, length: int, ghost isIndefinite: bool, seenBefore: bool)
      returns (found: bool, left: int, seenEoc: bool, fault: Option<Fault>, ghost lines: seq<Event>)
      requires Valid()
      modifies this
      ensures Valid()
      ensures var whole := WalkLoop(data, old(pos), level, length, isIndefinite, seenBefore);
              if found then
                fault == None && old(pos) + 2 <= |data| && old(pos) + 2 <= pos
                && listing == old(listing) + lines
                && SoFar(whole, lines, AfterItem(data, old(pos), pos, level, left, isIndefinite, seenEoc))
              else
                Follows(whole, old(listing), listing, pos, fault) && (whole.outcome.Done? ==> whole.outcome.ret == 0)
      decreases Remaining(data, pos), 0
    {
      hide BerWalk.GetItem, WalkObject, WalkLoop, Int32, AfterItem;
      GetItemProgress(data, pos);
      WalkLoopUnfold(data, pos, level, length, isIndefinite, seenBefore);
      left, seenEoc, fault, lines := length, seenBefore, None, [];
      var lastPos := pos;
      var got := GetItem();
      found := got.Got?;
      if got.NoItem? { return; }
      if got.Failed? { return false, left, seenEoc, Some(got.fault), []; }
      var item := got.item;
      if left == LENGTH_MAGIC && !item.indefinite {
        left := item.headerSize + item.length;
      }
      if IsEoc(item) {
        seenEoc := true;
      } else {
        listing := listing + [Line(lastPos, level, item.id, item.tag, item.length, item.indefinite)];
      }
      lines := HeaderLine(item, lastPos, level);
      if !seenEoc {
        ghost var body := WalkObject(data, pos, level, item);
        fault := PrintASN1object(item, level);
        lines := lines + body.events;
        if fault != None { found := false; }
      }
    }

    /** The second half: account for the bytes used, and decide whether to go on. */
    method AccountForItem(lastPos: nat, ghost level: nat, length: int, isIndefinite: bool, seenEoc: bool)
      returns (more: bool, left: int, result: int)
      requires Valid() && lastPos + 2 <= |data| && lastPos + 2 <= pos
      modifies this`pos, this`eof
      ensures Valid()
      ensures var rest := AfterItem(data, lastPos, old(pos), level, length, isIndefinite, seenEoc);
              if more then
                pos == old(pos) && rest == WalkLoop(data, pos, level, left, isIndefinite, seenEoc)
              else
                rest.outcome.Done? && result == rest.outcome.ret && rest.pos == pos && rest.events == []
    {
      hide WalkLoop;
      more, left, result := false, length, 0;
      if left == LENGTH_MAGIC { return; }
      left := left - (pos - lastPos);
      if isIndefinite {
        more := !seenEoc;
      } else if left <= 0 {
        result := if left < 0 then Int32(-left) else 0;
      } else if left == 1 {
        var ch := Getc();
        if ch != 0 && ch <= 0x31 {
          Ungetc(ch);
          more := true;
        } else {
          result := 1;
        }
      } else {
        more := true;
      }
    }

    /** The loop body of `printAsn1`. */
    method Turn(level: nat, length: int, isIndefinite: bool, seenBefore: bool)
      returns (more: bool, left: int, seenEoc: bool, result: int, fault: Option<Fault>, ghost lines: seq<Event>)
      requires Valid()
      modifies this
      ensures Valid() && listing == old(listing) + lines
      ensures var here := WalkLoop(data, old(pos), level, length, isIndefinite, seenBefore);
              if more then
                fault == None && Remaining(data, pos) < Remaining(data, old(pos))
                && SoFar(here, lines, WalkLoop(data, pos, level, left, isIndefinite, seenEoc))
              else
                Follows(here, old(listing), listing, pos, fault) && (here.outcome.Done? ==> result == here.outcome.ret)
      decreases Remaining(data, pos), 1
    {
      hide WalkLoop, AfterItem, SoFar;
      ghost var here := WalkLoop(data, pos, level, length, isIndefinite, seenBefore);
      var lastPos := pos;
      var found;
      found, left, seenEoc, fault, lines := NextItem(level, length, isIndefinite, seenBefore);
      if !found {
        more, result, lines := false, 0, here.events;
        return;
      }
      ghost var rest := AfterItem(data, lastPos, pos, level, left, isIndefinite, seenEoc);
      SoFarEnd(here, lines, rest);
      more, left, result := AccountForItem(lastPos, level, left, isIndefinite, seenEoc);
    }

    method PrintAsn1(level: nat, length: int, isIndefinite: bool) returns (result: int, fault: Option<Fault>)
      requires Valid()
      modifies this
      ensures Valid()
      ensures var r := BerWalk.PrintAsn1(data, old(pos), level, length, isIndefinite);
              Follows(r, old(listing), listing, pos, fault) && (r.outcome.Done? ==> result == r.outcome.ret)
      decreases Remaining(data, pos), 2
    {
      hide WalkLoop, AfterItem, BerWalk.PrintAsn1, SoFar, Remaining;
      PrintAsn1Unfold(data, pos, level, length, isIndefinite);
      var left, seenEoc, more := length, false, length != 0 || isIndefinite;
      result, fault := 0, None;
      ghost var whole := BerWalk.PrintAsn1(data, pos, level, length, isIndefinite);
      ghost var done: seq<Event> := [];
      SoFarStart(whole);
      while more
        invariant Valid() && listing == old(listing) + done
        invariant more ==> Remaining(data, pos) <= Remaining(data, old(pos))
        invariant more ==> fault == None && SoFar(whole, done, WalkLoop(data, pos, level, left, isIndefinite, seenEoc))
        invariant !more ==> Follows(whole, old(listing), listing, pos, fault) && (whole.outcome.Done? ==> result == whole.outcome.ret)
        decreases if more then 1 + Remaining(data, pos) else 0
      {
        ghost var here := WalkLoop(data, pos, level, left, isIndefinite, seenEoc);
        SoFarEnd(whole, done, here);
        ghost var lines;
        more, left, seenEoc, result, fault, lines := Turn(level, left, isIndefinite, seenEoc);
        if more {
          ghost var rest := WalkLoop(data, pos, level, left, isIndefinite, seenEoc);
          SoFarEnd(here, lines, rest);
          SoFarMore(whole, done, lines, rest);
        }
        done := done + lines;
      }
    }
  }
}
