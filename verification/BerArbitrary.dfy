/**
 What the walker does on arbitrary bytes, well-formed or not: how long a run can get, and how
 many bytes a call of `printAsn1` uses of the length it was given.
 */
module BerArbitrary {
  import opened BerWalk
  import opened BerEncoding

  // ---------------------------------------------------------------- termination, with a bound

  /** Whatever the bytes, a walk that starts with n bytes to read lists at most n lines; a
      completed one uses up at least as many bytes as it lists lines. */
  lemma {:induction false} LoopBound(data: seq<Byte>, pos: nat, level: nat, length: int, indefinite: bool, seenEoc: bool)
    ensures var r := WalkLoop(data, pos, level, length, indefinite, seenEoc);
            |r.events| <= Remaining(data, pos) - if r.outcome.Done? then Remaining(data, r.pos) else 0
    decreases Remaining(data, pos), 1
  {
    hide GetItem, WalkObject, Adjusted;
    GetItemProgress(data, pos);
    if GetItem(data, pos).Got? {
      var item, p := GetItem(data, pos).item, GetItem(data, pos).pos;
      ObjectBound(data, p, level, item);
      var seen := seenEoc || IsEoc(item);
      var q := if seen then p else WalkObject(data, p, level, item).pos;
      if seen || WalkObject(data, p, level, item).outcome.Done? {
        LoopBound(data, q, level, Adjusted(length, item) - (q - pos), indefinite, seen);
      }
    }
  }

  lemma {:induction false} ObjectBound(data: seq<Byte>, pos: nat, level: nat, item: Item)
    ensures var r := WalkObject(data, pos, level, item);
            |r.events| <= 1 + Remaining(data, pos) - if r.outcome.Done? then Remaining(data, r.pos) else 0
    decreases Remaining(data, pos), 2
  {
    hide PrimitiveEnd, WalkLoop;
    LoopBound(data, pos, level + 1, item.length, item.indefinite, false);
  }

  // ---------------------------------------------------------------- conservation of length

  /** How a call with a definite length must end: what the result says about the bytes used. */
  ghost predicate Conserved(data: seq<Byte>, pos: nat, length: int, r: WalkResult) {
    r.outcome.Done? ==>
      var used, ret := r.pos - pos, r.outcome.ret;
      match r.outcome.how
      case Empty => ret == 0 && length == 0 && used == 0
      case Exact => ret == 0 && used == length
      case Overrun => used > length && ret == Int32(used - length)
      case Recovered => ret == 1 && used == length && r.pos > pos && Swallowed(data, r.pos - 1)
      case EndOfInput => ret == 0 && r.pos >= |data|
      case _ => false
  }

  lemma {:induction false} LoopConserves(data: seq<Byte>, pos: nat, level: nat, length: int, seenEoc: bool)
    requires length < LENGTH_MAGIC || length == LENGTH_MAGIC + 1
    ensures Conserved(data, pos, length, WalkLoop(data, pos, level, length, false, seenEoc))
    decreases Remaining(data, pos)
  {
    hide GetItem, WalkObject, Swallowed, Int32, HeaderLine, Remaining;
    GetItemProgress(data, pos);
    if GetItem(data, pos).Got? {
      var item, p := GetItem(data, pos).item, GetItem(data, pos).pos;
      var seen := seenEoc || IsEoc(item);
      var q := if seen then p else WalkObject(data, p, level, item).pos;
      if seen || WalkObject(data, p, level, item).outcome.Done? {
        Fewer(data, pos, q);
        LoopConserves(data, q, level, length - (q - pos), seen);
      }
    }
  }

  lemma Fewer(data: seq<Byte>, pos: nat, q: nat)
    requires pos < |data| && pos < q
    ensures Remaining(data, q) < Remaining(data, pos)
  {}

  /** `k` bytes of complete items. */
  function Filler(k: nat): (r: seq<Byte>)
    requires k != 1
    ensures |r| == k
  {
    if k == 0 then [] else if k == 3 then [4, 1, 0] else [5, 0] + Filler(k - 2)
  }

  const NULLS: seq<Byte> := [5, 0, 5, 0]

  lemma NullItem(data: seq<Byte>, pos: nat, level: nat)
    requires Holds(data, pos, [5, 0])
    ensures GetItem(data, pos) == Got(Item(0, 5, 0, false, 2), pos + 2)
    ensures WalkObject(data, pos + 2, level, Item(0, 5, 0, false, 2)) == WalkResult(Done(0, Exact), pos + 2, [])
  {
    HoldsAt(data, pos, [5, 0], 0);
    HoldsAt(data, pos, [5, 0], 1);
  }

  lemma OctetItem(data: seq<Byte>, pos: nat, level: nat)
    requires Holds(data, pos, [4, 1, 0])
    ensures GetItem(data, pos) == Got(Item(0, 4, 1, false, 2), pos + 2)
    ensures WalkObject(data, pos + 2, level, Item(0, 4, 1, false, 2)) == WalkResult(Done(0, Exact), pos + 3, [])
  {
    HoldsAt(data, pos, [4, 1, 0], 0);
    HoldsAt(data, pos, [4, 1, 0], 1);
  }

  /** With LENGTH_MAGIC bytes to go the remaining length is replaced by the size of the next item. */
  lemma {:induction false} FillerStops(data: seq<Byte>, pos: nat, k: nat)
    requires k != 1 && Holds(data, pos, Filler(k) + NULLS)
    ensures var r := WalkLoop(data, pos, 0, LENGTH_MAGIC + k, false, false);
            r.outcome == Done(0, Exact) && r.pos == pos + k + 2
    decreases k
  {
    hide GetItem, WalkObject, Holds;
    if k == 0 {
      assert Filler(k) + NULLS == [5, 0] + [5, 0];
      HoldsSplit(data, pos, [5, 0], [5, 0]);
      NullItem(data, pos, 0);
    } else if k == 3 {
      HoldsSplit(data, pos, [4, 1, 0], NULLS);
      OctetItem(data, pos, 0);
      assert Filler(0) + NULLS == NULLS;
      FillerStops(data, pos + 3, 0);
    } else {
      assert Filler(k) + NULLS == [5, 0] + (Filler(k - 2) + NULLS);
      HoldsSplit(data, pos, [5, 0], Filler(k - 2) + NULLS);
      NullItem(data, pos, 0);
      FillerStops(data, pos + 2, k - 2);
    }
  }

  /** Every call with this definite length accounts for its bytes. */
  ghost predicate AlwaysConserved(length: int) {
    forall data: seq<Byte>, pos: nat, level: nat ::
      Conserved(data, pos, length, PrintAsn1(data, pos, level, length, false))
  }

  /** The bytes used are accounted for, on every input, exactly for the lengths from which the
      remaining length cannot reach LENGTH_MAGIC in front of an item. */
  lemma ConservationExactly(length: int)
    ensures AlwaysConserved(length) <==> length < LENGTH_MAGIC || length == LENGTH_MAGIC + 1
  {
    hide WalkLoop, Filler, Conserved;
    if length < LENGTH_MAGIC || length == LENGTH_MAGIC + 1 {
      forall data: seq<Byte>, pos: nat, level: nat
        ensures Conserved(data, pos, length, PrintAsn1(data, pos, level, length, false))
      {
        CallConserves(data, pos, level, length);
      }
    } else {
      var data := Filler(length - LENGTH_MAGIC) + NULLS;
      CallFails(data, length - LENGTH_MAGIC);
      assert !Conserved(data, 0, length, PrintAsn1(data, 0, 0, length, false));
    }
  }

  lemma CallConserves(data: seq<Byte>, pos: nat, level: nat, length: int)
    requires length < LENGTH_MAGIC || length == LENGTH_MAGIC + 1
    ensures Conserved(data, pos, length, PrintAsn1(data, pos, level, length, false))
  {
    hide WalkLoop;
    LoopConserves(data, pos, level, length, false);
  }

  lemma CallFails(data: seq<Byte>, k: nat)
    requires k != 1 && data == Filler(k) + NULLS
    ensures !Conserved(data, 0, LENGTH_MAGIC + k, PrintAsn1(data, 0, 0, LENGTH_MAGIC + k, false))
  {
    hide WalkLoop;
    FillerStops(data, 0, k);
  }

  /** The overrun is returned as an int: it is exact if and only if it fits one, and it is lost
      altogether if and only if it is a multiple of 2^32. */
  lemma OverrunReported(data: seq<Byte>, pos: nat, level: nat, length: int)
    requires length < LENGTH_MAGIC
    ensures var r := PrintAsn1(data, pos, level, length, false);
            r.outcome.Done? && r.outcome.how == Overrun ==>
              var overrun := r.pos - pos - length;
              overrun > 0
              && (r.outcome.ret == overrun <==> overrun <= MAX_INT)
              && (r.outcome.ret == 0 <==> overrun % 0x1_0000_0000 == 0)
  {
    hide WalkLoop;
    LoopConserves(data, pos, level, length, false);
  }

  lemma LastItemOverruns(data: seq<Byte>, pos: nat, level: nat, length: nat, item: Item, body: WalkResult)
    requires 0 < length < LENGTH_MAGIC && !IsEoc(item) && body.outcome.Done?
    requires GetItem(data, pos).Got? && GetItem(data, pos).item == item
    requires WalkObject(data, GetItem(data, pos).pos, level, item) == body
    requires body.pos - pos > length
    ensures var r := PrintAsn1(data, pos, level, length, false);
            r.outcome == Done(Int32(body.pos - pos - length), Overrun) && r.pos == body.pos
  {
    hide GetItem, WalkObject, Int32;
    GetItemProgress(data, pos);
    assert WalkLoop(data, pos, level, length, false, false).pos == body.pos;
    assert WalkLoop(data, pos, level, length, false, false).outcome == Done(Int32(body.pos - pos - length), Overrun);
  }

  /** Both happen: five bytes are promised, 2^32 more are skipped, and the result is 0. */
  lemma OverrunLost()
    ensures var data: seq<Byte> := [4, 0x84, 0xFF, 0xFF, 0xFF, 0xFF] + seq(128, _ => 0);
            var r := PrintAsn1(data, 0, 0, 5, false);
            r.outcome == Done(0, Overrun) && r.pos == 5 + 0x1_0000_0000
  {
    var data: seq<Byte> := [4, 0x84, 0xFF, 0xFF, 0xFF, 0xFF] + seq(128, _ => 0);
    var item := Item(0, 4, 0xFFFF_FFFF, false, 6);
    assert GetItem(data, 0) == Got(item, 6) by {
      assert ReadLength(data, 5, 1, 0xFF_FFFF) == (0xFFFF_FFFF, 6);
      assert ReadLength(data, 4, 2, 0xFFFF) == (0xFFFF_FFFF, 6);
      assert ReadLength(data, 3, 3, 0xFF) == (0xFFFF_FFFF, 6);
      assert ReadLength(data, 2, 4, 0) == (0xFFFF_FFFF, 6);
    }
    assert PrimitiveEnd(data, 6, item) == At(6 + 0xFFFF_FFFF);
    hide GetItem, PrimitiveEnd;
    assert WalkObject(data, 6, 0, item) == WalkResult(Done(0, Exact), 6 + 0xFFFF_FFFF, []);
    LastItemOverruns(data, 0, 0, 5, item, WalkResult(Done(0, Exact), 6 + 0xFFFF_FFFF, []));
  }
}
