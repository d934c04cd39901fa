/**
 What the walker reports, and where it ends, when the bytes are not as they should be: containers
 whose contents do not fit their length, a byte to spare, end-of-contents where it does not belong,
 headers cut off or too long, and contents that are not there.
 */
module BerReports {
  import opened BerWalk
  import opened BerEncoding
  import opened BerArbitrary

  // ---------------------------------------------------------------- inconsistent lengths

  /** The complaint behind the lines of a container that used `d` bytes too many, if there is one. */
  function Complaint(d: int): seq<Event> {
    if d % 0x1_0000_0000 == 0 then [] else [Inconsistent(Int32(d))]
  }

  /** The file ends at `q` in the middle of a tag of several octets, which `getItem` takes for the end. */
  predicate CutTag(data: seq<Byte>, q: nat) {
    q < |data| && data[q] % 32 == 31 && |data| - q <= 7 && forall k :: q < k < |data| ==> data[k] >= 128
  }

  lemma TagEofExactly(data: seq<Byte>, pos: nat, tag: int, index: nat)
    requires pos <= |data|
    ensures ReadLongTag(data, pos, tag, index).TagEof?
            <==> |data| - pos < 8 - index && forall k :: pos <= k < |data| ==> data[k] >= 128
    ensures ReadLongTag(data, pos, tag, index).TagEof? ==> ReadLongTag(data, pos, tag, index).pos == |data|
    decreases |data| - pos
  {
    if pos < |data| && index < 8 && data[pos] >= 128 {
      TagEofExactly(data, pos + 1, Int32(tag * 128 + data[pos] % 128), index + 1);
    }
  }

  /** There is no item exactly at the end of the file and where it ends in the middle of a tag. */
  lemma NoItemExactly(data: seq<Byte>, pos: nat)
    ensures GetItem(data, pos).NoItem? <==> pos >= |data| || CutTag(data, pos)
    ensures GetItem(data, pos).NoItem? ==> GetItem(data, pos).pos == if pos >= |data| then pos else |data|
  {
    if pos < |data| {
      TagEofExactly(data, pos + 1, 0, 1);
      LengthFound(data, pos);
    }
  }

  lemma LengthFound(data: seq<Byte>, pos: nat)
    requires pos < |data|
    ensures forall p: nat, id, tag, index: nat :: !GetLength(data, p, id, tag, index).NoItem?
  {}

  lemma {:induction false} CutAtEnd(data: seq<Byte>, pos: nat, level: nat, length: int, seenEoc: bool)
    requires 0 < length < 177545
    ensures var r := WalkLoop(data, pos, level, length, false, seenEoc);
            r.outcome.Done? && r.outcome.how == EndOfInput && r.pos - pos > length
            ==> r.pos == |data| && exists q :: pos <= q < pos + length && CutTag(data, q)
    decreases Remaining(data, pos)
  {
    hide GetItem, WalkObject, HeaderLine, Swallowed, CutTag;
    GetItemProgress(data, pos);
    NoItemExactly(data, pos);
    if GetItem(data, pos).Got? {
      var item, p := GetItem(data, pos).item, GetItem(data, pos).pos;
      var seen := seenEoc || IsEoc(item);
      var q := if seen then p else WalkObject(data, p, level, item).pos;
      if (seen || WalkObject(data, p, level, item).outcome.Done?) && length - (q - pos) > 0 {
        CutAtEnd(data, q, level, length - (q - pos), seen);
      }
    }
  }

  /** A container with a definite length, on any bytes.  Contents that end behind the length are
      reported with the difference, unless the file ends there in the middle of a tag; contents that end
      in front of it with the file are not; if they end where the length says, there is a complaint of
      one byte exactly if a byte was swallowed. */
  lemma InconsistencyReported(data: seq<Byte>, pos: nat, level: nat, item: Item)
    requires Constructed(item.id) && !item.indefinite && 0 < item.length < 177545
    requires WalkObject(data, pos, level, item).outcome.Done?
    ensures var inner, r := PrintAsn1(data, pos, level + 1, item.length, false), WalkObject(data, pos, level, item);
            var d := r.pos - pos - item.length;
            inner.outcome.Done? && r.pos == inner.pos
            && (d > 0 ==> if inner.outcome.how == EndOfInput then
                            r.events == inner.events && r.pos == |data| && exists q :: pos <= q < pos + item.length && CutTag(data, q)
                          else r.events == inner.events + Complaint(d))
            && (d < 0 ==> r.events == inner.events && r.pos >= |data|)
            && (d == 0 ==> r.events == inner.events + if inner.outcome.how == Recovered then [Inconsistent(1)] else [])
  {
    hide WalkLoop, CutTag;
    LoopConserves(data, pos, level + 1, item.length, false);
    CutAtEnd(data, pos, level + 1, item.length, false);
    var d := WalkObject(data, pos, level, item).pos - pos - item.length;
    if d > 0 { Int32Zero(d); }
  }

  lemma Int32Zero(d: int)
    requires d > 0
    ensures Int32(d) == 0 <==> d % 0x1_0000_0000 == 0
  {}

  /** In a file that does not end in the middle of a tag, the last line says how many bytes too many
      were used. */
  lemma OverrunIsLast(data: seq<Byte>, pos: nat, level: nat, item: Item)
    requires Constructed(item.id) && !item.indefinite && 0 < item.length < 177545
    requires WalkObject(data, pos, level, item).outcome.Done?
    requires forall q: nat :: !CutTag(data, q)
    ensures var r := WalkObject(data, pos, level, item);
            var d := r.pos - pos - item.length;
            0 < d <= 0x7FFF_FFFF ==> r.events != [] && r.events[|r.events| - 1] == Inconsistent(d)
  {
    hide WalkObject, PrintAsn1, CutTag;
    InconsistencyReported(data, pos, level, item);
    var d := WalkObject(data, pos, level, item).pos - pos - item.length;
    if 0 < d <= 0x7FFF_FFFF { assert Complaint(d) == [Inconsistent(d)]; }
  }

  /** Without that, a byte too many goes unreported: a SEQUENCE of one byte, a tag that needs more. */
  lemma CutTagUnreported()
    ensures WalkObject([0x30, 1, 0x1F, 0x81], 2, 0, Item(0x20, 16, 1, false, 2)) == WalkResult(Done(0, EndOfInput), 4, [])
  {
    var data: seq<Byte> := [0x30, 1, 0x1F, 0x81];
    assert CutTag(data, 2);
    NoItemExactly(data, 2);
    hide GetItem;
    assert WalkLoop(data, 2, 1, 1, false, false) == WalkResult(Done(0, EndOfInput), 4, []);
  }

  lemma {:induction false} IndefiniteReturnsZero(data: seq<Byte>, pos: nat, level: nat, length: int, seenEoc: bool)
    ensures var r := WalkLoop(data, pos, level, length, true, seenEoc); r.outcome.Done? ==> r.outcome.ret == 0
    decreases Remaining(data, pos)
  {
    hide GetItem, WalkObject, HeaderLine, Adjusted;
    GetItemProgress(data, pos);
    if GetItem(data, pos).Got? {
      var item, p := GetItem(data, pos).item, GetItem(data, pos).pos;
      var seen := seenEoc || IsEoc(item);
      var q := if seen then p else WalkObject(data, p, level, item).pos;
      if seen || WalkObject(data, p, level, item).outcome.Done? {
        IndefiniteReturnsZero(data, q, level, Adjusted(length, item) - (q - pos), seen);
      }
    }
  }

  /** A container of indefinite length is never reported, whatever is in it. */
  lemma IndefiniteNotReported(data: seq<Byte>, pos: nat, level: nat, item: Item)
    requires Constructed(item.id) && item.indefinite && item.length == 0
    ensures WalkObject(data, pos, level, item) == PrintAsn1(data, pos, level + 1, 0, true)
  {
    hide WalkLoop;
    IndefiniteReturnsZero(data, pos, level + 1, 0, false);
  }

  /** One byte too many in a SEQUENCE of three bytes that holds two NULLs. */
  lemma OneTooMany()
    ensures PrintAsn1([0x30, 3, 5, 0, 5, 0], 0, 0, 177545, false)
            == WalkResult(Done(1, Overrun), 6,
                 [Line(0, 0, 0x20, 16, 3, false), Line(2, 1, 0, 5, 0, false), Line(4, 1, 0, 5, 0, false), Inconsistent(1)])
  {
    var data: seq<Byte> := [0x30, 3, 5, 0, 5, 0];
    var sequence := Item(0x20, 16, 3, false, 2);
    InnerNulls();
    assert GetItem(data, 0) == Got(sequence, 2);
    hide WalkLoop, GetItem;
    assert WalkObject(data, 2, 0, sequence)
           == WalkResult(Done(1, Overrun), 6, [Line(2, 1, 0, 5, 0, false), Line(4, 1, 0, 5, 0, false), Inconsistent(1)]);
    OneItem(data, sequence);
  }

  lemma InnerNulls()
    ensures WalkLoop([0x30, 3, 5, 0, 5, 0], 2, 1, 3, false, false)
            == WalkResult(Done(1, Overrun), 6, [Line(2, 1, 0, 5, 0, false), Line(4, 1, 0, 5, 0, false)])
  {
    var data: seq<Byte> := [0x30, 3, 5, 0, 5, 0];
    var null_ := Item(0, 5, 0, false, 2);
    assert GetItem(data, 2) == Got(null_, 4) && GetItem(data, 4) == Got(null_, 6);
    assert WalkObject(data, 4, 1, null_).pos == 4 && WalkObject(data, 6, 1, null_).pos == 6;
    hide GetItem, WalkObject;
    assert WalkLoop(data, 4, 1, 1, false, false) == WalkResult(Done(1, Overrun), 6, [Line(4, 1, 0, 5, 0, false)]);
  }

  /** A single item at the top whose walk ends behind the length it gives. */
  lemma OneItem(data: seq<Byte>, item: Item)
    requires data != [] && GetItem(data, 0).Got? && GetItem(data, 0).item == item && !IsEoc(item) && !item.indefinite
    requires item.headerSize + item.length < 177545
    requires var r := WalkObject(data, GetItem(data, 0).pos, 0, item);
             r.outcome.Done? && 0 < r.pos - item.headerSize - item.length <= 0x7FFF_FFFF
    ensures var r, p := WalkObject(data, GetItem(data, 0).pos, 0, item), PrintAsn1(data, 0, 0, 177545, false);
            p == WalkResult(Done(r.pos - item.headerSize - item.length, Overrun), r.pos,
                            [Line(0, 0, item.id, item.tag, item.length, false)] + r.events)
  {
    hide GetItem, WalkObject;
    GetItemProgress(data, 0);
    var r := WalkObject(data, GetItem(data, 0).pos, 0, item);
    var line := Line(0, 0, item.id, item.tag, item.length, false);
    var total := item.headerSize + item.length;
    assert AfterItem(data, 0, r.pos, 0, total, false, false) == WalkResult(Done(r.pos - total, Overrun), r.pos, []);
    assert WalkLoop(data, 0, 0, 177545, false, false) == WalkResult(Done(r.pos - total, Overrun), r.pos, [line] + r.events + []);
    assert [line] + r.events + [] == [line] + r.events;
  }

  // ---------------------------------------------------------------- a byte to spare

  /** No sibling is followed by bytes that make up, with one to spare, the magic length. */
  predicate MagicFreeWithOne(fs: Forest)
    requires WellFormedAll(fs)
    decreases fs, 1
  {
    fs.Tree? ==> MagicFreeNode(fs.first) && |EncodeAll(fs)| + 1 != 177545 && MagicFreeWithOne(fs.rest)
  }

  /** The contents of a container and one byte more.  A byte that is zero or above 0x31 is swallowed and
      reported as one byte of difference; any other is kept, as the start of another item. */
  lemma {:induction false} SpareByte(data: seq<Byte>, pos: nat, level: nat, fs: Forest, b: Byte)
    requires fs.Tree? && WellFormedAll(fs) && MagicFreeWithOne(fs) && Holds(data, pos, EncodeAll(fs) + [b])
    ensures var r, end := WalkLoop(data, pos, level, |EncodeAll(fs)| + 1, false, false), pos + |EncodeAll(fs)|;
            if b == 0 || b > 0x31 then r == WalkResult(Done(1, Recovered), end + 1, LinesAll(fs, pos, level))
            else
              var rest := WalkLoop(data, end, level, 1, false, false);
              r == rest.(events := LinesAll(fs, pos, level) + rest.events)
    decreases fs
  {
    hide GetItem, WalkObject, WalkLoop, Encode, Holds, WellFormed, MagicFreeNode, ItemOf, Lines, HeaderLine;
    var first, more := Encode(fs.first), EncodeAll(fs.rest) + [b];
    assert EncodeAll(fs) + [b] == first + more;
    HoldsSplit(data, pos, first, more);
    LoopStep(data, pos, level, |EncodeAll(fs)| + 1, false, fs.first);
    ItemOfNode(fs.first);
    if fs.rest.Tree? {
      SpareByte(data, pos + |first|, level, fs.rest, b);
      assert |EncodeAll(fs.rest)| >= 2;
    } else {
      assert more == [b];
      SpareIs(data, pos + |first|, b);
    }
  }

  /** The contents of a container and the end of the file where one byte more is promised: nothing is
      swallowed and there is no difference. */
  lemma {:induction false} MissingByte(data: seq<Byte>, pos: nat, level: nat, fs: Forest)
    requires fs.Tree? && WellFormedAll(fs) && MagicFreeWithOne(fs) && Holds(data, pos, EncodeAll(fs)) && |data| == pos + |EncodeAll(fs)|
    ensures WalkLoop(data, pos, level, |EncodeAll(fs)| + 1, false, false)
            == WalkResult(Done(0, EndOfInput), |data|, LinesAll(fs, pos, level))
    decreases fs
  {
    hide GetItem, WalkObject, WalkLoop, Encode, Holds, WellFormed, MagicFreeNode, ItemOf, Lines, HeaderLine;
    var first := Encode(fs.first);
    HoldsSplit(data, pos, first, EncodeAll(fs.rest));
    LoopStep(data, pos, level, |EncodeAll(fs)| + 1, false, fs.first);
    ItemOfNode(fs.first);
    if fs.rest.Tree? {
      MissingByte(data, pos + |first|, level, fs.rest);
      assert |EncodeAll(fs.rest)| >= 2;
    } else {
      NothingLeft(data, pos + |first|, level);
    }
  }

  lemma NothingLeft(data: seq<Byte>, pos: nat, level: nat)
    requires pos >= |data|
    ensures WalkLoop(data, pos, level, 1, false, false) == WalkResult(Done(0, EndOfInput), pos, [])
  {}

  lemma SpareIs(data: seq<Byte>, pos: nat, b: Byte)
    requires Holds(data, pos, [b])
    ensures pos < |data| && data[pos] == b
  {
    HoldsAt(data, pos, [b], 0);
  }

  // ---------------------------------------------------------------- end-of-contents out of place

  /** Behind end-of-contents octets in a definite container only headers are read: the contents of the
      next item are taken for items of this level, and so on. */
  lemma AfterEoc(data: seq<Byte>, pos: nat, level: nat, length: int, item: Item, p: nat)
    requires GetItem(data, pos) == Got(item, p) && length != 177545 && length - (p - pos) > 1
    ensures var r, rest := WalkLoop(data, pos, level, length, false, true), WalkLoop(data, p, level, length - (p - pos), false, true);
            r == rest.(events := HeaderLine(item, pos, level) + rest.events)
  {
    hide GetItem;
    GetItemProgress(data, pos);
    var rest := WalkLoop(data, p, level, length - (p - pos), false, true);
    assert AfterItem(data, pos, p, level, length, false, true) == rest;
    assert HeaderLine(item, pos, level) + [] == HeaderLine(item, pos, level);
  }

  /** A container that goes on behind end-of-contents octets: the next node is listed, and the walk goes
      on inside it, at the level of the container. */
  lemma StrayEoc(data: seq<Byte>, pos: nat, level: nat, length: int, node: Node)
    requires WellFormed(node) && Holds(data, pos, [0, 0] + Header(node))
    requires length != 177545 && length != 177547 && length - 2 - |Header(node)| > 1
    ensures var inside := pos + 2 + |Header(node)|;
            var r, rest := WalkLoop(data, pos, level, length, false, false),
                           WalkLoop(data, inside, level, length - 2 - |Header(node)|, false, true);
            r == rest.(events := [HeaderOf(node, pos + 2, level)] + rest.events)
  {
    hide GetItem, Holds, Header, ItemOf, HeaderLine, WellFormed, HeaderOf, WalkLoop, IsEoc;
    HoldsSplit(data, pos, [0, 0], Header(node));
    EocDecode(data, pos);
    HeaderRoundTrip(data, pos + 2, node);
    ItemOfNode(node);
    EocStarts(data, pos, level, length);
    AfterEoc(data, pos + 2, level, length - 2, ItemOf(node), pos + 2 + |Header(node)|);
  }

  lemma EocStarts(data: seq<Byte>, pos: nat, level: nat, length: int)
    requires GetItem(data, pos) == Got(Item(0, 0, 0, false, 2), pos + 2) && length != 177545 && length > 3
    ensures WalkLoop(data, pos, level, length, false, false) == WalkLoop(data, pos + 2, level, length - 2, false, true)
  {
    hide GetItem;
    GetItemProgress(data, pos);
    var rest := WalkLoop(data, pos + 2, level, length - 2, false, true);
    assert AfterItem(data, pos, pos + 2, level, length, false, true) == rest;
    assert rest.(events := [] + [] + rest.events) == rest;
  }

  // ---------------------------------------------------------------- headers that fail

  /** A length field is refused exactly if the file ends in front of it or it asks for more than four
      octets. */
  lemma LengthRefused(data: seq<Byte>, pos: nat, id: int, tag: int, index: nat)
    requires index < 8
    ensures GetLength(data, pos, id, tag, index) == Failed(LengthFieldTooLarge) <==> pos >= |data| || data[pos] > 132
  {}

  /** A header with a low tag: refused for its length field, cut off by the end of the file, or found. */
  lemma LowTagHeader(data: seq<Byte>, pos: nat)
    requires pos < |data| && data[pos] % 32 != 31
    ensures GetItem(data, pos) == Failed(LengthFieldTooLarge) <==> pos + 1 == |data| || data[pos + 1] > 132
    ensures GetItem(data, pos).Got? && GetItem(data, pos).item.length == -1
            <==> pos + 1 < |data| && 129 <= data[pos + 1] <= 132 && |data| < pos + 2 + (data[pos + 1] - 128)
  {
    if pos + 1 < |data| && 128 <= data[pos + 1] <= 132 {
      ReadLengthValue(data, pos + 2, data[pos + 1] - 128, 0);
    }
  }

  /** A length cut off by the end of the file ends the program, unless the tag is that of NULL. */
  lemma CutLengthAborts(data: seq<Byte>, pos: nat, level: nat, item: Item)
    requires item.length == -1 && !item.indefinite && pos >= |data|
    ensures WalkObject(data, pos, level, item) == WalkResult(Abort(BadLength), pos, []) <==> item.tag != 5
  {
    hide WalkLoop;
    if item.tag == 5 && Constructed(item.id) { LoopFaults(data, pos, level + 1, -1); }
  }

  /** A walk with a negative length left reads one more item, which ends it. */
  lemma LoopFaults(data: seq<Byte>, pos: nat, level: nat, length: int)
    requires length < 0 && pos >= |data|
    ensures WalkLoop(data, pos, level, length, false, false) == WalkResult(Done(0, EndOfInput), pos, [])
  {}

  // ---------------------------------------------------------------- contents that are not there

  /** The first sixteen bytes, as far as there are any, are printable or zeros at even places. */
  predicate Textual(data: seq<Byte>, pos: nat, n: nat) {
    forall k :: 0 <= k < n && pos + k < |data| ==> 0x20 <= data[pos + k] <= 0x7E || (k % 2 == 0 && data[pos + k] == 0)
  }

  lemma TextualIs(data: seq<Byte>, pos: nat, i: nat, n: nat)
    ensures LooksLikeText(data, pos, i, n)
            <==> forall k :: i <= k < n && pos + k < |data| ==> 0x20 <= data[pos + k] <= 0x7E || (k % 2 == 0 && data[pos + k] == 0)
    decreases n - i
  {
    if i < n && pos + i < |data| { TextualIs(data, pos, i + 1, n); }
  }

  /** Where the cursor is after `n` octets that are skipped and that the file has not got. */
  function Beyond(data: seq<Byte>, pos: nat, n: nat): int {
    if n <= 128 then |data| else if pos + 128 <= |data| then pos + n else |data| + n - 128
  }

  /** Contents cut off by the end of the file: strings end there, what is dumped is skipped past it, and
      an item of unknown type is one or the other by the look of its first sixteen bytes. */
  lemma MissingContents(data: seq<Byte>, pos: nat, item: Item)
    requires pos <= |data| < pos + item.length && 4 < item.length <= 0x7FFF_FFFF
    ensures item.id < 64 && item.tag in {7, 12, 18, 19, 20, 21, 22, 23, 24, 25, 26, 27, 28, 30}
            ==> PrimitiveEnd(data, pos, item) == At(|data|)
    ensures item.id < 64 && item.tag in {2, 4, 8, 9, 11, 13, 16, 17} ==> PrimitiveEnd(data, pos, item) == At(Beyond(data, pos, item.length))
    ensures item.id >= 64 ==> PrimitiveEnd(data, pos, item)
                              == At(if Textual(data, pos, if item.length < 16 then item.length else 16) then |data|
                                    else Beyond(data, pos, item.length))
  {
    TextualIs(data, pos, 0, if item.length < 16 then item.length else 16);
  }
}
