/**
 BER encodings as trees (X.690 sections 8.1.2 to 8.1.5) and what the walker of `BerWalk`
 makes of them: it lists exactly the nodes of the tree, in order, with their true offsets,
 levels, tags and lengths, if and only if the in-band magic length does not get in the way.
 */
module BerEncoding {
  import opened BerWalk

  // Definite lengths: one octet, or a number of octets given first, padded or not.
  datatype LengthForm = Short | Long(octets: nat)

  // `tagOctets` is 0 for the low tag form and counts the base-128 octets otherwise.
  datatype Node =
    | Primitive(cls: nat, tag: nat, tagOctets: nat, form: LengthForm, contents: seq<Byte>)
    | Definite(cls: nat, tag: nat, tagOctets: nat, form: LengthForm, children: Forest)
    | Indefinite(cls: nat, tag: nat, tagOctets: nat, children: Forest)

  datatype Forest = Nil | Tree(first: Node, rest: Forest)

  // ---------------------------------------------------------------- encoding

  /** `v` has at most `j` base-128 digits. */
  predicate FitsTag(v: nat, j: nat) {
    if j == 0 then v == 0 else FitsTag(v / 128, j - 1)
  }

  /** `v` has at most `j` base-256 digits. */
  predicate FitsLength(v: nat, j: nat) {
    if j == 0 then v == 0 else FitsLength(v / 256, j - 1)
  }

  /** `j` base-128 digits, most significant first, all with the continuation bit set. */
  function TagDigits(v: nat, j: nat): (r: seq<Byte>)
    ensures |r| == j
  {
    if j == 0 then [] else TagDigits(v / 128, j - 1) + [128 + v % 128]
  }

  /** `j` octets of a number, most significant first. */
  function LengthDigits(v: nat, j: nat): (r: seq<Byte>)
    ensures |r| == j
  {
    if j == 0 then [] else LengthDigits(v / 256, j - 1) + [v % 256]
  }

  function Id(cls: nat, constructed: bool): nat { cls * 64 + if constructed then 32 else 0 }

  function TagBytes(cls: nat, constructed: bool, tag: nat, tagOctets: nat): (r: seq<Byte>)
    requires cls < 4 && (tagOctets == 0 ==> tag < 31)
    ensures |r| == 1 + tagOctets
  {
    if tagOctets == 0 then [Id(cls, constructed) + tag]
    else [Id(cls, constructed) + 31] + TagDigits(tag / 128, tagOctets - 1) + [tag % 128]
  }

  predicate LengthFits(form: LengthForm, length: nat) {
    match form
    case Short => length < 128
    case Long(n) => 1 <= n <= 4 && FitsLength(length, n)
  }

  function LengthBytes(form: LengthForm, length: nat): (r: seq<Byte>)
    requires LengthFits(form, length)
  {
    match form
    case Short => [length]
    case Long(n) => [128 + n] + LengthDigits(length, n)
  }

  /** The tag can be written, is an `int`, and is not that of end-of-contents. */
  predicate TagOk(cls: nat, constructed: bool, tag: nat, tagOctets: nat) {
    cls < 4 && tag <= MAX_INT
    && (if tagOctets == 0 then tag < 31 else FitsTag(tag, tagOctets))
    && (cls == 0 && !constructed ==> tag != 0)
  }

  /** Contents that the printing of their type reads exactly. */
  predicate ContentsOk(cls: nat, tag: nat, contents: seq<Byte>) {
    if cls != 0 then |contents| <= 0x7FFF_FFFF
    else
      match tag
      case 1 => |contents| <= 1
      case 3 => |contents| == 3 ==> contents[0] <= 7
      case 5 => |contents| == 0
      case 6 => |contents| <= 32
      case 10 => |contents| <= 0x8000_0000
      case _ => true
  }

  predicate WellFormed(node: Node)
    decreases node, 0
  {
    match node
    case Primitive(cls, tag, k, form, contents) =>
      TagOk(cls, false, tag, k) && LengthFits(form, |contents|) && ContentsOk(cls, tag, contents)
      && |TagBytes(cls, false, tag, k)| + |LengthBytes(form, |contents|)| <= 8
    case Definite(cls, tag, k, form, children) =>
      WellFormedAll(children)
      && TagOk(cls, true, tag, k) && LengthFits(form, |EncodeAll(children)|)
      && |TagBytes(cls, true, tag, k)| + |LengthBytes(form, |EncodeAll(children)|)| <= 8
    case Indefinite(cls, tag, k, children) =>
      WellFormedAll(children) && TagOk(cls, true, tag, k)
      && |TagBytes(cls, true, tag, k)| + 1 <= 8
  }

  predicate WellFormedAll(fs: Forest)
    decreases fs, 1
  {
    fs.Tree? ==> WellFormed(fs.first) && WellFormedAll(fs.rest)
  }

  /** Tag and length octets. */
  function Header(node: Node): (r: seq<Byte>)
    requires WellFormed(node)
    ensures 2 <= |r| <= HEADER_ENTRIES
    decreases node, 1
  {
    match node
    case Primitive(cls, tag, k, form, contents) =>
      TagBytes(cls, false, tag, k) + LengthBytes(form, |contents|)
    case Definite(cls, tag, k, form, children) =>
      TagBytes(cls, true, tag, k) + LengthBytes(form, |EncodeAll(children)|)
    case Indefinite(cls, tag, k, children) => TagBytes(cls, true, tag, k) + [128]
  }

  function Body(node: Node): (r: seq<Byte>)
    requires WellFormed(node)
    decreases node, 1
  {
    match node
    case Primitive(_, _, _, _, contents) => contents
    case Definite(_, _, _, _, children) => EncodeAll(children)
    case Indefinite(_, _, _, children) => EncodeAll(children) + [0, 0]
  }

  function Encode(node: Node): (r: seq<Byte>)
    requires WellFormed(node)
    ensures 2 <= |r|
    decreases node, 2
  {
    Header(node) + Body(node)
  }

  function EncodeAll(fs: Forest): (r: seq<Byte>)
    requires WellFormedAll(fs)
    decreases fs, 2
  {
    if fs.Nil? then [] else Encode(fs.first) + EncodeAll(fs.rest)
  }

  // ---------------------------------------------------------------- the listing of a tree

  /** The item `getItem` should produce for a node. */
  function ItemOf(node: Node): Item
    requires WellFormed(node)
  {
    Item(Id(node.cls, !node.Primitive?), node.tag,
         if node.Indefinite? then 0 else |Body(node)|, node.Indefinite?, |Header(node)|)
  }

  /** The header lines of a node and its descendants, in pre-order. */
  function Lines(node: Node, pos: nat, level: nat): (r: seq<Event>)
    requires WellFormed(node)
    decreases node, 3
  {
    [HeaderOf(node, pos, level)] + Inner(node, pos, level)
  }

  /** The line of a node: where it starts, how deep it is, its identifier, tag and length. */
  function HeaderOf(node: Node, pos: nat, level: nat): Event
    requires WellFormed(node)
    decreases node, 2
  {
    Line(pos, level, node.cls * 64 + (if node.Primitive? then 0 else 32), node.tag,
         if node.Indefinite? then 0 else |Body(node)|, node.Indefinite?)
  }

  function Inner(node: Node, pos: nat, level: nat): (r: seq<Event>)
    requires WellFormed(node)
    decreases node, 2
  {
    if node.Primitive? then [] else LinesAll(node.children, pos + |Header(node)|, level + 1)
  }

  function LinesAll(fs: Forest, pos: nat, level: nat): (r: seq<Event>)
    requires WellFormedAll(fs)
    decreases fs, 3
  {
    if fs.Nil? then []
    else Lines(fs.first, pos, level) + LinesAll(fs.rest, pos + |Encode(fs.first)|, level)
  }

  lemma ItemOfNode(node: Node)
    requires WellFormed(node)
    ensures var item := ItemOf(node);
            !IsEoc(item) && item.indefinite == node.Indefinite?
            && (!item.indefinite ==> item.headerSize + item.length == |Encode(node)|)
            && |Encode(node)| >= item.headerSize == |Header(node)|
    ensures forall pos: nat, level: nat :: HeaderLine(ItemOf(node), pos, level) == [HeaderOf(node, pos, level)]
  {
    hide TagBytes, LengthBytes, LengthFits, FitsTag;
  }

  // ---------------------------------------------------------------- the magic length

  /** No run of two or more siblings that ends a definite container is encoded in exactly
      LENGTH_MAGIC bytes. */
  predicate MagicFree(fs: Forest)
    requires WellFormedAll(fs)
    decreases fs, 1
  {
    fs.Tree? ==>
      MagicFreeNode(fs.first)
      && (fs.rest.Tree? ==> |EncodeAll(fs)| != LENGTH_MAGIC)
      && MagicFree(fs.rest)
  }

  /** The same for the containers inside the nodes of an indefinite container. */
  predicate MagicFreeEach(fs: Forest)
    requires WellFormedAll(fs)
    decreases fs, 1
  {
    fs.Tree? ==> MagicFreeNode(fs.first) && MagicFreeEach(fs.rest)
  }

  predicate MagicFreeNode(node: Node)
    requires WellFormed(node)
    decreases node, 0
  {
    match node
    case Primitive(_, _, _, _, _) => true
    case Definite(_, _, _, _, children) => MagicFree(children)
    case Indefinite(_, _, _, children) => MagicFreeEach(children)
  }

  // ---------------------------------------------------------------- bytes at a position

  predicate Holds(data: seq<Byte>, pos: nat, s: seq<Byte>) {
    pos + |s| <= |data| && data[pos..pos + |s|] == s
  }

  lemma HoldsSplit(data: seq<Byte>, pos: nat, a: seq<Byte>, b: seq<Byte>)
    requires Holds(data, pos, a + b)
    ensures Holds(data, pos, a) && Holds(data, pos + |a|, b)
  {
    var s := a + b;
    assert data[pos..pos + |a|] == data[pos..pos + |s|][..|a|] == a;
    assert data[pos + |a|..pos + |a| + |b|] == data[pos..pos + |s|][|a|..] == b;
  }

  lemma HoldsAt(data: seq<Byte>, pos: nat, s: seq<Byte>, i: nat)
    requires Holds(data, pos, s) && i < |s|
    ensures pos + i < |data| && data[pos + i] == s[i]
  {
    assert data[pos + i] == data[pos..pos + |s|][i];
  }

  // ---------------------------------------------------------------- headers

  /** After `j` continuation octets of `v` the tag loop has accumulated `v`. */
  lemma {:induction false} TagDigitsDecode(data: seq<Byte>, pos: nat, v: nat, j: nat, index: nat)
    requires Holds(data, pos, TagDigits(v, j)) && FitsTag(v, j)
    requires v <= MAX_INT && index + j < HEADER_ENTRIES
    ensures ReadLongTag(data, pos, 0, index) == ReadLongTag(data, pos + j, v, index + j)
    decreases j
  {
    hide Holds, ReadLongTag;
    if j > 0 {
      HoldsSplit(data, pos, TagDigits(v / 128, j - 1), [128 + v % 128]);
      TagDigitsDecode(data, pos, v / 128, j - 1, index);
      NextTagDigit(data, pos + j - 1, v, index + j - 1);
    }
  }

  lemma NextTagDigit(data: seq<Byte>, pos: nat, v: nat, index: nat)
    requires index < HEADER_ENTRIES && v <= MAX_INT && Holds(data, pos, [128 + v % 128])
    ensures ReadLongTag(data, pos, v / 128, index) == ReadLongTag(data, pos + 1, v, index + 1)
  {
    hide Int32, Holds;
    HoldsAt(data, pos, [128 + v % 128], 0);
    LastDigit(v);
    Int32Exact(v);
  }

  lemma LastDigit(v: nat)
    ensures v / 128 * 128 + v % 128 == v && (128 + v % 128) % 128 == v % 128 && v % 128 % 128 == v % 128
  {}

  lemma {:induction false} LengthDigitsDecode(data: seq<Byte>, pos: nat, v: nat, j: nat, more: nat)
    requires Holds(data, pos, LengthDigits(v, j)) && FitsLength(v, j)
    ensures ReadLength(data, pos, j + more, 0) == ReadLength(data, pos + j, more, v)
    decreases j
  {
    if j > 0 {
      HoldsSplit(data, pos, LengthDigits(v / 256, j - 1), [v % 256]);
      HoldsAt(data, pos + j - 1, [v % 256], 0);
      LengthDigitsDecode(data, pos, v / 256, j - 1, more + 1);
    }
  }

  lemma LengthBytesDecode(data: seq<Byte>, pos: nat, form: LengthForm, length: nat, id: int, tag: int, index: nat)
    requires LengthFits(form, length) && Holds(data, pos, LengthBytes(form, length))
    requires index + |LengthBytes(form, length)| <= HEADER_ENTRIES
    ensures var size := |LengthBytes(form, length)|;
            GetLength(data, pos, id, tag, index) == Got(Item(id, tag, length, false, index + size), pos + size)
  {
    HoldsAt(data, pos, LengthBytes(form, length), 0);
    if form.Long? {
      HoldsSplit(data, pos, [128 + form.octets], LengthDigits(length, form.octets));
      LengthDigitsDecode(data, pos + 1, length, form.octets, 0);
    }
  }

  lemma IdParts(cls: nat, constructed: bool, low: nat)
    requires cls < 4 && low < 32
    ensures var lead := Id(cls, constructed) + low;
            0 <= lead < 256 && lead / 32 * 32 == Id(cls, constructed) && lead % 32 == low
    ensures Universal(Id(cls, constructed)) <==> cls == 0
    ensures Constructed(Id(cls, constructed)) <==> constructed
  {}

  lemma TagBytesDecode(data: seq<Byte>, pos: nat, cls: nat, constructed: bool, tag: nat, k: nat)
    requires TagOk(cls, constructed, tag, k) && Holds(data, pos, TagBytes(cls, constructed, tag, k))
    requires 2 + k <= HEADER_ENTRIES
    ensures pos < |data|
    ensures GetItem(data, pos) == GetLength(data, pos + 1 + k, Id(cls, constructed), tag, 1 + k)
  {
    hide GetLength, Int32, FitsTag, Id, ReadLongTag, TagDigits;
    IdParts(cls, constructed, if k == 0 then tag else 31);
    if k == 0 {
      LowTagDecode(data, pos, Id(cls, constructed), tag);
    } else {
      HighTagDecode(data, pos, Id(cls, constructed) + 31, tag, k);
    }
  }

  lemma LowTagDecode(data: seq<Byte>, pos: nat, id: nat, tag: nat)
    requires tag < 31 && id + tag < 256 && (id + tag) / 32 * 32 == id && (id + tag) % 32 == tag
    requires Holds(data, pos, [id + tag])
    ensures pos < |data| && GetItem(data, pos) == GetLength(data, pos + 1, id, tag, 1)
  {
    hide GetLength, Holds;
    HoldsAt(data, pos, [id + tag], 0);
  }

  lemma HighTagDecode(data: seq<Byte>, pos: nat, lead: Byte, tag: nat, k: nat)
    requires 0 < k && 2 + k <= HEADER_ENTRIES && tag <= MAX_INT && FitsTag(tag, k)
    requires Holds(data, pos, [lead] + TagDigits(tag / 128, k - 1) + [tag % 128])
    ensures pos < |data| && data[pos] == lead
    ensures ReadLongTag(data, pos + 1, 0, 1) == TagAt(tag, pos + 1 + k, 1 + k)
  {
    hide Int32, Holds, ReadLongTag;
    var digits, last := TagDigits(tag / 128, k - 1), [tag % 128];
    HoldsSplit(data, pos, [lead] + digits, last);
    HoldsSplit(data, pos, [lead], digits);
    HoldsAt(data, pos, [lead], 0);
    TagDigitsDecode(data, pos + 1, tag / 128, k - 1, 1);
    LastTagDigit(data, pos + k, tag, k);
  }

  lemma LastTagDigit(data: seq<Byte>, pos: nat, tag: nat, index: nat)
    requires index < HEADER_ENTRIES && tag <= MAX_INT && Holds(data, pos, [tag % 128])
    ensures ReadLongTag(data, pos, tag / 128, index) == TagAt(tag, pos + 1, index + 1)
  {
    hide Int32, Holds;
    HoldsAt(data, pos, [tag % 128], 0);
    LastDigit(tag);
    Int32Exact(tag);
  }

  function LengthPart(node: Node): (r: seq<Byte>)
    requires WellFormed(node)
  {
    if node.Indefinite? then [128] else LengthBytes(node.form, |Body(node)|)
  }

  lemma HeaderParts(node: Node)
    requires WellFormed(node)
    ensures var c, k := !node.Primitive?, node.tagOctets;
            TagOk(node.cls, c, node.tag, k)
            && Header(node) == TagBytes(node.cls, c, node.tag, k) + LengthPart(node)
            && 1 + k + |LengthPart(node)| <= HEADER_ENTRIES && |LengthPart(node)| >= 1
  {
    hide TagBytes, Id, ContentsOk, FitsTag, FitsLength;
  }

  lemma LengthPartDecode(data: seq<Byte>, pos: nat, node: Node)
    requires WellFormed(node) && Holds(data, pos, LengthPart(node))
    requires |Header(node)| == 1 + node.tagOctets + |LengthPart(node)|
    ensures GetLength(data, pos, Id(node.cls, !node.Primitive?), node.tag, 1 + node.tagOctets)
            == Got(ItemOf(node), pos + |LengthPart(node)|)
  {
    hide GetLength, FitsTag, FitsLength, Holds, ContentsOk, Id, TagBytes, Header, LengthDigits;
    var id, index := Id(node.cls, !node.Primitive?), 1 + node.tagOctets;
    HeaderParts(node);
    if node.Indefinite? {
      IndefiniteDecode(data, pos, id, node.tag, index);
    } else {
      LengthBytesDecode(data, pos, node.form, |Body(node)|, id, node.tag, index);
    }
  }

  /** `getItem` recovers class, form, tag number and length of any header that fits its array,
      whatever the number of tag and length octets, and stops behind it. */
  lemma HeaderRoundTrip(data: seq<Byte>, pos: nat, node: Node)
    requires WellFormed(node) && Holds(data, pos, Header(node))
    ensures GetItem(data, pos) == Got(ItemOf(node), pos + |Header(node)|)
  {
    hide GetItem, GetLength, Holds, TagBytes, LengthPart, Id, Header, WellFormed, ItemOf, FitsTag, TagDigits;
    HeaderParts(node);
    var c, k := !node.Primitive?, node.tagOctets;
    HoldsSplit(data, pos, TagBytes(node.cls, c, node.tag, k), LengthPart(node));
    TagBytesDecode(data, pos, node.cls, c, node.tag, k);
    LengthPartDecode(data, pos + 1 + k, node);
  }

  lemma IndefiniteDecode(data: seq<Byte>, pos: nat, id: int, tag: int, index: nat)
    requires Holds(data, pos, [128]) && index < HEADER_ENTRIES
    ensures GetLength(data, pos, id, tag, index) == Got(Item(id, tag, 0, true, index + 1), pos + 1)
  {
    HoldsAt(data, pos, [128], 0);
  }

  // ---------------------------------------------------------------- primitive contents

  lemma HexEndWithin(data: seq<Byte>, pos: nat, n: nat)
    requires pos + n <= |data|
    ensures HexEnd(data, pos, n) == pos + n
  {}

  /** Printing a primitive item moves the cursor exactly over its contents if and only if the
      contents have a length its type allows. */
  lemma PrimitiveExact(data: seq<Byte>, pos: nat, cls: nat, tag: nat, contents: seq<Byte>, headerSize: nat)
    requires cls < 4 && (cls == 0 ==> tag != 0) && Holds(data, pos, contents)
    ensures PrimitiveEnd(data, pos, Item(Id(cls, false), tag, |contents|, false, headerSize)) == At(pos + |contents|)
            <==> ContentsOk(cls, tag, contents)
  {
    if |contents| > 0 {
      HoldsAt(data, pos, contents, 0);
      HexEndWithin(data, pos, |contents|);
      HexEndWithin(data, pos + 1, |contents| - 1);
    }
  }

  // ---------------------------------------------------------------- the walk inverts encoding

  /** A walk that ended normally, at `pos`, having listed `events`. */
  predicate Walked(r: WalkResult, pos: nat, events: seq<Event>) {
    r.outcome.Done? && r.outcome.ret == 0 && r.pos == pos && r.events == events
  }

  lemma {:induction false} WalkNode(data: seq<Byte>, pos: nat, level: nat, node: Node)
    requires WellFormed(node) && MagicFreeNode(node) && Holds(data, pos, Encode(node))
    ensures GetItem(data, pos) == Got(ItemOf(node), pos + |Header(node)|)
    ensures Walked(WalkObject(data, pos + |Header(node)|, level, ItemOf(node)),
                   pos + |Encode(node)|, Inner(node, pos, level))
    decreases node, 0
  {
    hide GetItem, PrimitiveEnd, TagBytes, LengthBytes, FitsTag, LengthFits, Holds, WalkLoop, Header, ContentsOk, Id;
    HoldsSplit(data, pos, Header(node), Body(node));
    HeaderRoundTrip(data, pos, node);
    IdParts(node.cls, !node.Primitive?, 0);
    match node
    case Primitive(cls, tag, _, _, contents) =>
      PrimitiveExact(data, pos + |Header(node)|, cls, tag, contents, |Header(node)|);
    case Definite(_, _, _, _, children) =>
      if children.Tree? { WalkDefinite(data, pos + |Header(node)|, level + 1, children); }
    case Indefinite(_, _, _, children) =>
      WalkIndefinite(data, pos + |Header(node)|, level + 1, 0, children);
  }

  /** The loop over the rest of a definite container. */
  lemma {:induction false} WalkDefinite(data: seq<Byte>, pos: nat, level: nat, fs: Forest)
    requires fs.Tree? && WellFormedAll(fs) && MagicFree(fs) && Holds(data, pos, EncodeAll(fs))
    ensures Walked(WalkLoop(data, pos, level, |EncodeAll(fs)|, false, false),
                   pos + |EncodeAll(fs)|, LinesAll(fs, pos, level))
    decreases fs, 1
  {
    hide GetItem, WalkObject, Encode, Holds, WellFormed, MagicFreeNode, ItemOf;
    ItemOfNode(fs.first);
    HoldsSplit(data, pos, Encode(fs.first), EncodeAll(fs.rest));
    WalkNode(data, pos, level, fs.first);
    if fs.rest.Tree? {
      WalkDefinite(data, pos + |Encode(fs.first)|, level, fs.rest);
      assert |EncodeAll(fs.rest)| >= 2;
    }
  }

  /** The loop over the rest of an indefinite container; the length counts down from zero. */
  lemma {:induction false} WalkIndefinite(data: seq<Byte>, pos: nat, level: nat, length: int, fs: Forest)
    requires WellFormedAll(fs) && MagicFreeEach(fs) && Holds(data, pos, EncodeAll(fs) + [0, 0])
    requires length <= 0
    ensures Walked(WalkLoop(data, pos, level, length, true, false),
                   pos + |EncodeAll(fs)| + 2, LinesAll(fs, pos, level))
    decreases fs, 1
  {
    hide GetItem, WalkObject, Encode, Holds, WellFormed, MagicFreeNode, ItemOf;
    if fs.Nil? {
      assert EncodeAll(fs) + [0, 0] == [0, 0];
      EocDecode(data, pos);
    } else {
      ItemOfNode(fs.first);
      var first, rest := Encode(fs.first), EncodeAll(fs.rest) + [0, 0];
      assert EncodeAll(fs) + [0, 0] == first + rest;
      HoldsSplit(data, pos, first, rest);
      WalkNode(data, pos, level, fs.first);
      WalkIndefinite(data, pos + |first|, level, length - |first|, fs.rest);
    }
  }

  lemma EocDecode(data: seq<Byte>, pos: nat)
    requires Holds(data, pos, [0, 0])
    ensures GetItem(data, pos) == Got(Item(0, 0, 0, false, 2), pos + 2)
  {
    HoldsAt(data, pos, [0, 0], 0);
    HoldsAt(data, pos, [0, 0], 1);
  }

  // ---------------------------------------------------------------- when the magic length is hit

  /** The listing differs from the expected one at a line both have. */
  ghost predicate Mismatch(events: seq<Event>, expected: seq<Event>) {
    exists k :: 0 <= k < |events| && k < |expected| && events[k] != expected[k]
  }

  /** A walk that stopped early, in front of an item of its own level or deeper. */
  ghost predicate StoppedShort(data: seq<Byte>, r: WalkResult, expected: seq<Event>, level: nat, end: nat) {
    r.outcome.Done? && r.outcome.ret == 0 && r.pos + 2 <= end && r.events < expected
    && NextHeader(data, r.pos)
    && var e := expected[|r.events|]; e.Line? && e.offset == r.pos && e.level >= level
  }

  predicate NextHeader(data: seq<Byte>, pos: nat) {
    var r := GetItem(data, pos);
    r.Got? && !IsEoc(r.item)
  }

  ghost predicate Deviates(data: seq<Byte>, r: WalkResult, expected: seq<Event>, level: nat, end: nat) {
    r.outcome.Abort? || Mismatch(r.events, expected) || StoppedShort(data, r, expected, level, end)
  }

  lemma MismatchLift(before: seq<Event>, events: seq<Event>, after: seq<Event>, expected: seq<Event>, tail: seq<Event>)
    requires Mismatch(events, expected)
    ensures Mismatch(before + events + after, before + expected + tail)
  {
    var k :| 0 <= k < |events| && k < |expected| && events[k] != expected[k];
    assert (before + events + after)[|before| + k] != (before + expected + tail)[|before| + k];
  }

  lemma DeviatesLift(data: seq<Byte>, r: WalkResult, expected: seq<Event>, level: nat, end: nat,
                     before: seq<Event>, tail: seq<Event>, outer: WalkResult, outerLevel: nat, outerEnd: nat)
    requires Deviates(data, r, expected, level, end)
    requires outer == r.(events := before + r.events) && outerLevel <= level && end <= outerEnd
    ensures Deviates(data, outer, before + expected + tail, outerLevel, outerEnd)
  {
    if Mismatch(r.events, expected) {
      MismatchLift(before, r.events, [], expected, tail);
      assert before + r.events + [] == before + r.events;
    } else if r.outcome.Done? {
      var all := before + expected + tail;
      assert before + r.events < all;
      assert all[|before + r.events|] == expected[|r.events|];
    }
  }

  /** A loop that finds a header lists it at its own level, whatever happens next. */
  lemma LoopStarts(data: seq<Byte>, pos: nat, level: nat, length: int, indefinite: bool)
    requires NextHeader(data, pos)
    ensures var r := WalkLoop(data, pos, level, length, indefinite, false);
            |r.events| > 0 && r.events[0].Line? && r.events[0].level == level
  {
    hide GetItem, WalkObject;
  }

  /** An item whose inside was left early: the enclosing loop either returns there, or goes on
      listing inner items as its own. */
  lemma BodyDeviates(data: seq<Byte>, pos: nat, level: nat, length: int, indefinite: bool, node: Node, tail: seq<Event>, end: nat)
    requires WellFormed(node) && GetItem(data, pos) == Got(ItemOf(node), pos + |Header(node)|)
    requires Deviates(data, WalkObject(data, pos + |Header(node)|, level, ItemOf(node)),
                      Inner(node, pos, level), level + 1, pos + |Encode(node)|)
    requires pos + |Encode(node)| <= end
    requires indefinite || length == LENGTH_MAGIC || length >= |Encode(node)|
    ensures Deviates(data, WalkLoop(data, pos, level, length, indefinite, false), Lines(node, pos, level) + tail, level, end)
    ensures var r := WalkLoop(data, pos, level, length, indefinite, false);
            r.outcome.Done? ==> !(Lines(node, pos, level) + tail <= r.events)
  {
    hide GetItem, WalkObject, Encode, ItemOf, Header, WellFormed, Mismatch;
    ItemOfNode(node);
    GetItemProgress(data, pos);
    var item := ItemOf(node);
    var line := HeaderLine(item, pos, level);
    var body := WalkObject(data, pos + |Header(node)|, level, item);
    var expected := Lines(node, pos, level) + tail;
    var r := WalkLoop(data, pos, level, length, indefinite, false);
    assert expected == line + Inner(node, pos, level) + tail;
    if body.outcome.Done? {
      var total := Adjusted(length, item);
      var next := AfterItem(data, pos, body.pos, level, total, indefinite, false);
      assert r == next.(events := line + body.events + next.events);
      if Mismatch(body.events, Inner(node, pos, level)) {
        MismatchLift(line, body.events, next.events, Inner(node, pos, level), tail);
        MismatchNoPrefix(r.events, expected);
      } else {
        var at := |line + body.events|;
        assert line + body.events < expected && expected[at] == Inner(node, pos, level)[|body.events|];
        if total == LENGTH_MAGIC {
          assert r.events == line + body.events;
          assert StoppedShort(data, r, expected, level, end);
        } else {
          LoopStarts(data, body.pos, level, total - (body.pos - pos), indefinite);
          assert r.events[at] == next.events[0];
          DifferAt(r.events, expected, at);
          MismatchNoPrefix(r.events, expected);
        }
      }
    }
  }

  lemma DifferAt(events: seq<Event>, expected: seq<Event>, k: nat)
    requires k < |events| && k < |expected| && events[k] != expected[k]
    ensures Mismatch(events, expected)
  {}

  lemma MismatchNoPrefix(events: seq<Event>, expected: seq<Event>)
    requires Mismatch(events, expected)
    ensures !(expected <= events)
  {}

  /** One iteration of the loop over an item that was printed exactly. */
  lemma LoopStep(data: seq<Byte>, pos: nat, level: nat, length: int, indefinite: bool, node: Node)
    requires WellFormed(node) && MagicFreeNode(node) && Holds(data, pos, Encode(node))
    ensures pos + |Encode(node)| <= |data|
    ensures WalkLoop(data, pos, level, length, indefinite, false)
            == var next := AfterItem(data, pos, pos + |Encode(node)|, level, Adjusted(length, ItemOf(node)), indefinite, false);
               next.(events := Lines(node, pos, level) + next.events)
  {
    hide GetItem, WalkObject, Encode, WellFormed, MagicFreeNode, ItemOf, Header;
    ItemOfNode(node);
    WalkNode(data, pos, level, node);
  }

  lemma {:induction false} NodeDeviates(data: seq<Byte>, pos: nat, level: nat, node: Node)
    requires WellFormed(node) && !MagicFreeNode(node) && Holds(data, pos, Encode(node))
    ensures GetItem(data, pos) == Got(ItemOf(node), pos + |Header(node)|)
    ensures Deviates(data, WalkObject(data, pos + |Header(node)|, level, ItemOf(node)),
                     Inner(node, pos, level), level + 1, pos + |Encode(node)|)
    decreases node, 0
  {
    hide GetItem, PrimitiveEnd, TagBytes, LengthBytes, FitsTag, LengthFits, Holds, WalkLoop, Header, Id, Mismatch, NextHeader;
    HoldsSplit(data, pos, Header(node), Body(node));
    HeaderRoundTrip(data, pos, node);
    IdParts(node.cls, !node.Primitive?, 0);
    var start := pos + |Header(node)|;
    var r: WalkResult;
    if node.Definite? {
      DefiniteDeviates(data, start, level + 1, node.children);
      r := WalkLoop(data, start, level + 1, |EncodeAll(node.children)|, false, false);
    } else {
      IndefiniteDeviates(data, start, level + 1, 0, node.children);
      r := WalkLoop(data, start, level + 1, 0, true, false);
    }
    var inner := Inner(node, pos, level);
    if Mismatch(r.events, inner) && r.outcome.Done? {
      var after := [Inconsistent(r.outcome.ret)];
      MismatchLift([], r.events, after, inner, []);
      assert [] + r.events + after == r.events + after;
      assert [] + inner + [] == inner;
    }
  }

  lemma {:induction false} DefiniteDeviates(data: seq<Byte>, pos: nat, level: nat, fs: Forest)
    requires WellFormedAll(fs) && !MagicFree(fs) && Holds(data, pos, EncodeAll(fs))
    ensures Deviates(data, WalkLoop(data, pos, level, |EncodeAll(fs)|, false, false),
                     LinesAll(fs, pos, level), level, pos + |EncodeAll(fs)|)
    decreases fs, 1
  {
    hide GetItem, WalkObject, Encode, Holds, WellFormed, MagicFreeNode, ItemOf, Deviates, Header;
    HoldsSplit(data, pos, Encode(fs.first), EncodeAll(fs.rest));
    var next := pos + |Encode(fs.first)|;
    var tail := LinesAll(fs.rest, next, level);
    var end := pos + |EncodeAll(fs)|;
    if !MagicFreeNode(fs.first) {
      NodeDeviates(data, pos, level, fs.first);
      BodyDeviates(data, pos, level, |EncodeAll(fs)|, false, fs.first, tail, end);
    } else {
      LoopStep(data, pos, level, |EncodeAll(fs)|, false, fs.first);
      ItemOfNode(fs.first);
      var r := WalkLoop(data, pos, level, |EncodeAll(fs)|, false, false);
      if |EncodeAll(fs)| == LENGTH_MAGIC && fs.rest.Tree? {
        assert |EncodeAll(fs.rest)| >= 2;
        StopsBefore(data, r, pos, level, fs);
      } else {
        DefiniteDeviates(data, next, level, fs.rest);
        var rest := WalkLoop(data, next, level, |EncodeAll(fs.rest)|, false, false);
        DeviatesLift(data, rest, tail, level, end, Lines(fs.first, pos, level), [], r, level, end);
        assert Lines(fs.first, pos, level) + tail + [] == LinesAll(fs, pos, level);
      }
    }
  }

  /** Returning behind the first of several siblings is stopping short. */
  lemma StopsBefore(data: seq<Byte>, r: WalkResult, pos: nat, level: nat, fs: Forest)
    requires WellFormedAll(fs) && fs.Tree? && fs.rest.Tree? && Holds(data, pos, EncodeAll(fs))
    requires Walked(r, pos + |Encode(fs.first)|, Lines(fs.first, pos, level))
    ensures Deviates(data, r, LinesAll(fs, pos, level), level, pos + |EncodeAll(fs)|)
  {
    hide GetItem, Encode, Holds, WellFormed, Header, ItemOf;
    var second := fs.rest.first;
    var next := pos + |Encode(fs.first)|;
    HoldsSplit(data, pos, Encode(fs.first), EncodeAll(fs.rest));
    HoldsSplit(data, next, Encode(second), EncodeAll(fs.rest.rest));
    EncodeHeader(data, next, second);
    ItemOfNode(second);
    var expected := LinesAll(fs, pos, level);
    assert expected == Lines(fs.first, pos, level) + LinesAll(fs.rest, next, level);
    assert LinesAll(fs.rest, next, level)[0] == HeaderLine(ItemOf(second), next, level)[0];
  }

  lemma EncodeHeader(data: seq<Byte>, pos: nat, node: Node)
    requires WellFormed(node) && Holds(data, pos, Encode(node))
    ensures GetItem(data, pos) == Got(ItemOf(node), pos + |Header(node)|)
  {
    hide GetItem, Header, WellFormed, ItemOf, Holds;
    HoldsSplit(data, pos, Header(node), Body(node));
    HeaderRoundTrip(data, pos, node);
  }

  lemma {:induction false} IndefiniteDeviates(data: seq<Byte>, pos: nat, level: nat, length: int, fs: Forest)
    requires WellFormedAll(fs) && !MagicFreeEach(fs) && Holds(data, pos, EncodeAll(fs) + [0, 0])
    requires length <= 0
    ensures Deviates(data, WalkLoop(data, pos, level, length, true, false),
                     LinesAll(fs, pos, level), level, pos + |EncodeAll(fs)| + 2)
    decreases fs, 1
  {
    hide GetItem, WalkObject, Encode, Holds, WellFormed, MagicFreeNode, ItemOf, Deviates, Header;
    var first, rest := Encode(fs.first), EncodeAll(fs.rest) + [0, 0];
    assert EncodeAll(fs) + [0, 0] == first + rest;
    HoldsSplit(data, pos, first, rest);
    var next := pos + |first|;
    var tail := LinesAll(fs.rest, next, level);
    var end := pos + |EncodeAll(fs)| + 2;
    if !MagicFreeNode(fs.first) {
      NodeDeviates(data, pos, level, fs.first);
      BodyDeviates(data, pos, level, length, true, fs.first, tail, end);
    } else {
      LoopStep(data, pos, level, length, true, fs.first);
      ItemOfNode(fs.first);
      IndefiniteDeviates(data, next, level, length - |first|, fs.rest);
      var r := WalkLoop(data, pos, level, length, true, false);
      var inner := WalkLoop(data, next, level, length - |first|, true, false);
      DeviatesLift(data, inner, tail, level, end, Lines(fs.first, pos, level), [], r, level, end);
      assert Lines(fs.first, pos, level) + tail + [] == LinesAll(fs, pos, level);
    }
  }

  // ---------------------------------------------------------------- the main theorem

  /** The top-level call on the encoding of a node, wherever it is in the file, consumes exactly
      that encoding, complains about no length and lists exactly the nodes of the tree with their
      true offsets, levels, tags and lengths, if and only if no definite container ends in two or
      more siblings of LENGTH_MAGIC bytes together. */
  lemma WalkInvertsEncode(data: seq<Byte>, pos: nat, node: Node)
    requires WellFormed(node) && Holds(data, pos, Encode(node))
    ensures Walked(PrintAsn1(data, pos, 0, LENGTH_MAGIC, false), pos + |Encode(node)|, Lines(node, pos, 0))
            <==> MagicFreeNode(node)
  {
    hide GetItem, WalkObject, Encode, Holds, WellFormed, MagicFreeNode, ItemOf, Deviates, Header;
    ItemOfNode(node);
    if MagicFreeNode(node) {
      WalkNode(data, pos, 0, node);
      assert Walked(WalkLoop(data, pos, 0, LENGTH_MAGIC, false, false), pos + |Encode(node)|, Lines(node, pos, 0));
    } else {
      NodeDeviates(data, pos, 0, node);
      BodyDeviates(data, pos, 0, LENGTH_MAGIC, false, node, [], pos + |Encode(node)|);
      assert Lines(node, pos, 0) + [] == Lines(node, pos, 0);
    }
  }

  /** Such a tree: a SEQUENCE of an OCTET STRING of 177538 octets and a NULL. */
  const MAGIC_TREE :=
    Definite(0, 16, 0, Long(3),
             Tree(Primitive(0, 4, 0, Long(3), seq(177538, _ => 0)), Tree(Primitive(0, 5, 0, Short, []), Nil)))

  lemma MagicTreeFails(data: seq<Byte>, pos: nat)
    ensures WellFormed(MAGIC_TREE) && !MagicFreeNode(MAGIC_TREE)
    ensures Holds(data, pos, Encode(MAGIC_TREE)) ==>
              !Walked(PrintAsn1(data, pos, 0, LENGTH_MAGIC, false), pos + |Encode(MAGIC_TREE)|, Lines(MAGIC_TREE, pos, 0))
  {
    hide PrintAsn1, Walked, Holds, Lines;
    MagicTreeIs();
    if Holds(data, pos, Encode(MAGIC_TREE)) {
      WalkInvertsEncode(data, pos, MAGIC_TREE);
    }
  }

  lemma MagicTreeIs()
    ensures WellFormed(MAGIC_TREE) && !MagicFreeNode(MAGIC_TREE)
  {
    assert FitsLength(177538, 3) && FitsLength(LENGTH_MAGIC, 3) by { ThreeOctets(); }
    var octets, null_ := MAGIC_TREE.children.first, MAGIC_TREE.children.rest;
    assert WellFormed(null_.first) && |Encode(null_.first)| == 2;
    assert WellFormed(octets) && |Encode(octets)| == 177543;
    assert WellFormedAll(null_) && |EncodeAll(null_)| == 2;
    assert WellFormedAll(MAGIC_TREE.children) && |EncodeAll(MAGIC_TREE.children)| == LENGTH_MAGIC;
  }

  lemma ThreeOctets()
    ensures FitsLength(177538, 3) && FitsLength(LENGTH_MAGIC, 3)
  {
    assert FitsLength(177538 / 256 / 256, 1) && FitsLength(LENGTH_MAGIC / 256 / 256, 1);
    assert FitsLength(177538 / 256, 2) && FitsLength(LENGTH_MAGIC / 256, 2);
  }
}
