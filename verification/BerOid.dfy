/**
 Object identifiers: the loop of dumpasn1 that picks the arcs out of the content octets, and
 when it recovers the arcs that X.690 section 8.19 encodes.
 */
module BerOid {
  import opened BerWalk
  import opened BerEncoding

  const MAX_LONG := 0x7FFF_FFFF_FFFF_FFFF

  /** Wrap-around of a 64-bit `long`. */
  function Int64(x: int): (r: int) {
    if -0x8000_0000_0000_0000 <= x <= MAX_LONG then x
    else (x + 0x8000_0000_0000_0000) % 0x1_0000_0000_0000_0000 - 0x8000_0000_0000_0000
  }

  lemma Int64Range(x: int)
    ensures -0x8000_0000_0000_0000 <= Int64(x) <= MAX_LONG
  {}

  predicate AllLong(arcs: seq<int>) {
    forall k :: 0 <= k < |arcs| ==> arcs[k] <= MAX_LONG
  }

  // ---------------------------------------------------------------- decoding

  /** The arcs behind the first octet, with `value` accumulated so far. */
  function ArcsFrom(buffer: seq<Byte>, i: nat, value: int): (r: seq<int>)
    decreases |buffer| - i
  {
    if i >= |buffer| then []
    else
      var v := Int64(value * 128 + buffer[i] % 128);
      if buffer[i] < 128 then [v] + ArcsFrom(buffer, i + 1, 0) else ArcsFrom(buffer, i + 1, v)
  }

  /** The first octet holds two arcs; the second can pass 39 only below arc 2. */
  function FirstArcs(octet: Byte): (int, int) {
    if octet / 40 > 2 then (2, octet % 40 + (octet / 40 - 2) * 40) else (octet / 40, octet % 40)
  }

  /** The first octet is always taken for two arcs, the second one of any size below arc 2 only. */
  lemma FirstOctet(octet: Byte)
    ensures FirstArcs(octet) == if octet < 40 then (0, octet as int) else if octet < 80 then (1, octet - 40) else (2, octet - 80)
  {}

  function Arcs(buffer: seq<Byte>): seq<int>
    requires buffer != []
  {
    [FirstArcs(buffer[0]).0, FirstArcs(buffer[0]).1] + ArcsFrom(buffer, 1, 0)
  }

  /** The loop as written; the numbers are printed in this order. */
  method PrintOid(buffer: seq<Byte>) returns (printed: seq<int>)
    requires buffer != []
    ensures printed == Arcs(buffer)
  {
    var x, y := buffer[0] / 40, buffer[0] % 40;
    if x > 2 {
      y := y + (x - 2) * 40;
      x := 2;
    }
    printed := [x, y];
    var value := 0;
    x := 1;
    while x < |buffer|
      invariant 1 <= x <= |buffer|
      invariant printed + ArcsFrom(buffer, x, value) == Arcs(buffer)
    {
      value := Int64(value * 128 + buffer[x] % 128);
      if buffer[x] < 128 {
        printed := printed + [value];
        value := 0;
      }
      x := x + 1;
    }
  }

  // ---------------------------------------------------------------- encoding

  /** How many base-128 digits an arc needs. */
  function Width(arc: nat): (r: nat)
    ensures r >= 1
  {
    if arc < 128 then 1 else 1 + Width(arc / 128)
  }

  function EncodeArc(arc: nat): (r: seq<Byte>)
    ensures |r| == Width(arc)
  {
    TagDigits(arc / 128, Width(arc) - 1) + [arc % 128]
  }

  function EncodeArcs(arcs: seq<nat>): seq<Byte> {
    if arcs == [] then [] else EncodeArc(arcs[0]) + EncodeArcs(arcs[1..])
  }

  function EncodeOid(x: nat, y: nat, arcs: seq<nat>): seq<Byte>
    requires x * 40 + y < 128
  {
    [x * 40 + y] + EncodeArcs(arcs)
  }

  lemma {:induction false} WidthFits(arc: nat)
    ensures FitsTag(arc / 128, Width(arc) - 1)
    decreases arc
  {
    if arc >= 128 { WidthFits(arc / 128); }
  }

  lemma {:induction false} DigitsDecode(buffer: seq<Byte>, i: nat, v: nat, j: nat)
    requires Holds(buffer, i, TagDigits(v, j)) && FitsTag(v, j) && v <= MAX_LONG
    ensures ArcsFrom(buffer, i, 0) == ArcsFrom(buffer, i + j, v)
    decreases j
  {
    hide Holds;
    if j > 0 {
      HoldsSplit(buffer, i, TagDigits(v / 128, j - 1), [128 + v % 128]);
      HoldsAt(buffer, i + j - 1, [128 + v % 128], 0);
      DigitsDecode(buffer, i, v / 128, j - 1);
    }
  }

  lemma ArcDecode(buffer: seq<Byte>, i: nat, arc: nat)
    requires Holds(buffer, i, EncodeArc(arc)) && arc <= MAX_LONG
    ensures ArcsFrom(buffer, i, 0) == [arc] + ArcsFrom(buffer, i + Width(arc), 0)
  {
    hide Holds, ArcsFrom, TagDigits, FitsTag, Width;
    var digits := TagDigits(arc / 128, Width(arc) - 1);
    HoldsSplit(buffer, i, digits, [arc % 128]);
    WidthFits(arc);
    DigitsDecode(buffer, i, arc / 128, Width(arc) - 1);
    LastArcDigit(buffer, i + |digits|, arc);
  }

  lemma LastArcDigit(buffer: seq<Byte>, i: nat, arc: nat)
    requires Holds(buffer, i, [arc % 128]) && arc <= MAX_LONG
    ensures ArcsFrom(buffer, i, arc / 128) == [arc] + ArcsFrom(buffer, i + 1, 0)
  {
    HoldsAt(buffer, i, [arc % 128], 0);
  }

  lemma {:induction false} ArcsDecode(buffer: seq<Byte>, i: nat, arcs: seq<nat>)
    requires Holds(buffer, i, EncodeArcs(arcs)) && i + |EncodeArcs(arcs)| == |buffer|
    requires AllLong(arcs)
    ensures ArcsFrom(buffer, i, 0) == arcs
    decreases |arcs|
  {
    hide Holds, EncodeArc;
    if arcs != [] {
      HoldsSplit(buffer, i, EncodeArc(arcs[0]), EncodeArcs(arcs[1..]));
      ArcDecode(buffer, i, arcs[0]);
      ArcsDecode(buffer, i + Width(arcs[0]), arcs[1..]);
    }
  }

  lemma {:induction false} PrintedFitLong(buffer: seq<Byte>, i: nat, value: int)
    ensures AllLong(ArcsFrom(buffer, i, value))
    decreases |buffer| - i
  {
    if i < |buffer| {
      var v := Int64(value * 128 + buffer[i] % 128);
      Int64Range(value * 128 + buffer[i] % 128);
      PrintedFitLong(buffer, i + 1, if buffer[i] < 128 then 0 else v);
    }
  }

  /** An object identifier whose first two arcs share an octet below 128 is printed with the arcs
      it was made of if and only if every further arc fits a `long`. */
  lemma OidRoundTrip(x: nat, y: nat, arcs: seq<nat>)
    requires x <= 2 && (x < 2 ==> y < 40) && x * 40 + y < 128
    ensures Arcs(EncodeOid(x, y, arcs)) == [x, y] + arcs <==> AllLong(arcs)
  {
    var buffer := EncodeOid(x, y, arcs);
    assert FirstArcs(buffer[0]) == (x, y);
    assert Arcs(buffer)[2..] == ArcsFrom(buffer, 1, 0) && ([x, y] + arcs)[2..] == arcs;
    PrintedFitLong(buffer, 1, 0);
    if AllLong(arcs) {
      ArcsDecode(buffer, 1, arcs);
    }
  }
}
