/**
 Bit strings of one or two octets: dumpasn1 reverses their bits, first bit last, and complains
 about zero bits behind the last one bit.  Unsigned 32-bit shifts and masks are written as
 arithmetic.
 */
module BerBitString {
  import opened Common
  import opened BerWalk

  const UINT_SIZE := 0x1_0000_0000

  function Pow2(n: nat): (r: nat)
    ensures r > 0
  {
    if n == 0 then 1 else 2 * Pow2(n - 1)
  }

  /** The number with these bits, most significant first: how X.690 section 8.6 fills octets. */
  function Number(bits: seq<bool>): (r: nat)
    ensures r < Pow2(|bits|)
  {
    if bits == [] then 0 else (if bits[0] then Pow2(|bits| - 1) else 0) + Number(bits[1..])
  }

  /** The number with these bits, least significant first. */
  function Value(bits: seq<bool>): (r: nat)
    ensures r < Pow2(|bits|)
  {
    if bits == [] then 0
    else Value(bits[..|bits| - 1]) + if bits[|bits| - 1] then Pow2(|bits| - 1) else 0
  }

  /** `x & mask` is not zero, for a mask that is a power of two. */
  predicate BitSet(x: nat, mask: nat)
    requires mask > 0
  {
    x / mask % 2 == 1
  }

  lemma PowStep(n: nat)
    requires n > 0
    ensures Pow2(n) == 2 * Pow2(n - 1)
  {}

  lemma PowAdd(a: nat, b: nat)
    ensures Pow2(a + b) == Pow2(a) * Pow2(b)
  {
    if a > 0 { PowAdd(a - 1, b); }
  }

  // ---------------------------------------------------------------- shifting

  lemma {:induction false} NumberAppend(bits: seq<bool>)
    ensures Number(bits + [false]) == 2 * Number(bits)
    decreases |bits|
  {
    if bits == [] {
      assert bits + [false] == [false];
      assert [false][1..] == [];
    } else {
      assert (bits + [false])[1..] == bits[1..] + [false];
      NumberAppend(bits[1..]);
    }
  }

  /** Shifting drops the first bit and lets a zero in at the end. */
  lemma ShiftBits(bits: seq<bool>)
    requires bits != []
    ensures 2 * Number(bits) == Number(bits[1..] + [false]) + if bits[0] then Pow2(|bits|) else 0
    ensures bits[0] <==> Number(bits) >= Pow2(|bits| - 1)
  {
    NumberAppend(bits[1..]);
  }

  lemma {:induction false} NumberZero(bits: seq<bool>)
    ensures Number(bits) == 0 <==> forall b <- bits :: !b
    decreases |bits|
  {
    if bits != [] {
      NumberZero(bits[1..]);
      assert bits[0] in bits;
      assert forall b :: b in bits <==> b == bits[0] || b in bits[1..];
    }
  }

  /** What is left of the bits after `i` shifts. */
  function Shifted(bits: seq<bool>, i: nat): (r: seq<bool>)
    requires i <= |bits|
    ensures |r| == |bits|
  {
    bits[i..] + seq(i, k => false)
  }

  /** Two octets, or one: the size of the number the bits start in. */
  predicate Size(size: nat, bits: seq<bool>) {
    (|bits| == 8 && size == 0x100) || (|bits| == 16 && size == 0x1_0000)
  }

  lemma SizeIs(size: nat, bits: seq<bool>)
    requires Size(size, bits)
    ensures Pow2(|bits|) == size && Pow2(|bits| - 1) == size / 2
  {
    assert Pow2(4) == 16;
    PowAdd(4, 4);
    PowAdd(8, 8);
  }

  /** One turn of the first loop: the masks see the right bits, and the shift keeps step. */
  lemma ShiftStep(size: nat, bits: seq<bool>, i: nat, bitString: nat)
    requires Size(size, bits) && i < |bits| && bitString % size == Number(Shifted(bits, i))
    ensures BitSet(bitString, size / 2) <==> bits[i]
    ensures bitString % size == 0 <==> forall k :: i <= k < |bits| ==> !bits[k]
    ensures 2 * bitString % UINT_SIZE % size == Number(Shifted(bits, i + 1))
  {
    hide Number, BitSet;
    var s := Shifted(bits, i);
    SizeIs(size, bits);
    ShiftBits(s);
    assert s[0] == bits[i];
    assert s[1..] + [false] == Shifted(bits, i + 1);
    HighBit(size, bitString);
    Doubled(size, bitString);
    Wraps(size, 2 * Number(s), Number(s[1..] + [false]));
    NumberZero(s);
    ShiftedZero(bits, i);
  }

  lemma Wraps(size: nat, x: nat, r: nat)
    requires r < size && (x == r || x == r + size)
    ensures x % size == r
  {
    if x == r { Quotient(r, 0, size); } else { Quotient(r, 1, size); }
  }

  lemma ShiftedZero(bits: seq<bool>, i: nat)
    requires i <= |bits|
    ensures (forall b <- Shifted(bits, i) :: !b) <==> forall k :: i <= k < |bits| ==> !bits[k]
  {
    var s := Shifted(bits, i);
    if forall b <- s :: !b {
      forall k | i <= k < |bits| ensures !bits[k] {
        assert s[k - i] == bits[k] && s[k - i] in s;
      }
    }
  }

  lemma HighBit(size: nat, x: nat)
    requires size == 0x100 || size == 0x1_0000
    ensures BitSet(x, size / 2) <==> x % size >= size / 2
  {
    if size == 0x100 { HighBit8(x / 0x100, x % 0x100); } else { HighBit16(x / 0x1_0000, x % 0x1_0000); }
  }

  lemma HighBit8(q: nat, r: nat)
    requires r < 0x100
    ensures (0x100 * q + r) / 0x80 % 2 == 1 <==> r >= 0x80
  {}

  lemma HighBit16(q: nat, r: nat)
    requires r < 0x1_0000
    ensures (0x1_0000 * q + r) / 0x8000 % 2 == 1 <==> r >= 0x8000
  {}

  lemma Doubled(size: nat, x: nat)
    requires size == 0x100 || size == 0x1_0000
    ensures 2 * x % UINT_SIZE % size == 2 * (x % size) % size
  {
    var y, z := 2 * x % UINT_SIZE, 2 * (x % size);
    if size == 0x100 {
      Same8(2 * x / UINT_SIZE, y / 0x100, y % 0x100, x / 0x100, z / 0x100, z % 0x100);
    } else {
      Same16(2 * x / UINT_SIZE, y / 0x1_0000, y % 0x1_0000, x / 0x1_0000, z / 0x1_0000, z % 0x1_0000);
    }
  }

  lemma Same8(a: int, b: int, r: int, c: int, d: int, s: int)
    requires UINT_SIZE * a + 0x100 * b + r == 2 * 0x100 * c + 0x100 * d + s && 0 <= r < 0x100 && 0 <= s < 0x100
    ensures r == s
  {}

  lemma Same16(a: int, b: int, r: int, c: int, d: int, s: int)
    requires UINT_SIZE * a + 0x1_0000 * b + r == 2 * 0x1_0000 * c + 0x1_0000 * d + s && 0 <= r < 0x1_0000 && 0 <= s < 0x1_0000
    ensures r == s
  {}

  // ---------------------------------------------------------------- reading a value's bits

  lemma {:induction false} ValueBit(bits: seq<bool>, k: nat)
    requires k < |bits|
    ensures BitSet(Value(bits), Pow2(k)) <==> bits[k]
    decreases |bits|
  {
    var n := |bits| - 1;
    if k == n {
      Quotient(Value(bits[..n]), if bits[n] then 1 else 0, Pow2(n));
    } else {
      ValueBit(bits[..n], k);
      HigherBit(Value(bits[..n]), bits[n], k, n);
    }
  }

  /** A higher bit does not change bit `k`. */
  lemma HigherBit(x: nat, b: bool, k: nat, n: nat)
    requires k < n
    ensures BitSet(x + if b then Pow2(n) else 0, Pow2(k)) <==> BitSet(x, Pow2(k))
  {
    hide Pow2;
    if b {
      HigherPower(k, n);
      Quotient2(x, 2 * Pow2(n - 1 - k), Pow2(k));
    }
  }

  lemma HigherPower(k: nat, n: nat)
    requires k < n
    ensures Pow2(n) == 2 * Pow2(n - 1 - k) * Pow2(k)
  {
    hide Pow2;
    PowAdd(n - 1 - k, k);
    PowStep(n);
    Twice(Pow2(n - 1 - k), Pow2(k));
  }

  lemma Twice(m: nat, p: nat)
    ensures 2 * m * p == 2 * (m * p)
  {}

  lemma Quotient(x: nat, q: nat, p: nat)
    requires x < p
    ensures (x + q * p) / p == q
  {
    var y := x + q * p;
    Unique(y / p, y % p, q, x, p);
  }

  lemma Unique(d: int, m: int, q: int, x: int, p: int)
    requires d * p + m == q * p + x && 0 <= m < p && 0 <= x < p
    ensures d == q
  {
    assert (d - q) * p == x - m;
    if d > q { Product(d - q, p); }
    if d < q { Product(q - d, p); }
  }

  lemma Product(a: int, p: int)
    requires a >= 1 && p >= 1
    ensures a * p >= p && (-a) * p <= -p
  {}

  lemma Quotient2(x: nat, q: nat, p: nat)
    requires p > 0 && q % 2 == 0
    ensures (x + q * p) / p % 2 == x / p % 2
  {
    var r, d := x % p, x / p;
    Distribute(d, q, p);
    Euclid(x, p);
    assert x + q * p == r + (d + q) * p;
    Quotient(r, d + q, p);
    SameParity(d, q);
  }

  lemma Euclid(x: nat, p: nat)
    requires p > 0
    ensures x == x / p * p + x % p
  {}

  lemma SameParity(d: nat, q: nat)
    requires q % 2 == 0
    ensures (d + q) % 2 == d % 2
  {  }

  // ---------------------------------------------------------------- printing

  /** Some valid bit is followed by nothing but zeros, unused bits included: just so the last one. */
  predicate SpuriousZeros(bits: seq<bool>, noBits: nat)
    requires 0 < noBits <= |bits|
  {
    forall k :: noBits - 1 <= k < |bits| ==> !bits[k]
  }

  /** The octets hold these bits, first bit first. */
  predicate Holding(octets: seq<Byte>, bits: seq<bool>) {
    |bits| == 8 * |octets| && 1 <= |octets| <= 2
    && octets[0] == Number(bits[..8]) && (|octets| == 2 ==> octets[1] == Number(bits[8..]))
  }

  /** Printed are the valid bits the octets hold, last one first, and a complaint is due exactly if the
      last valid bit and all unused ones are zero. */
  ghost predicate BitsPrinted(octets: seq<Byte>, unused: nat, printed: string, spuriousZeros: bool)
    requires 1 <= |octets| <= 2 && unused <= 7
  {
    var noBits := 8 * |octets| - unused;
    forall bits: seq<bool> :: Holding(octets, bits) ==>
      |printed| == noBits
      && (forall j :: 0 <= j < noBits ==> printed[j] == if bits[noBits - 1 - j] then '1' else '0')
      && (spuriousZeros <==> SpuriousZeros(bits, noBits))
  }

  /** The octets hold exactly one sequence of bits. */
  lemma HeldBits(octets: seq<Byte>) returns (bits: seq<bool>)
    requires 1 <= |octets| <= 2
    ensures Holding(octets, bits)
    ensures forall other: seq<bool> :: Holding(octets, other) ==> other == bits
  {
    OctetBits(octets[0]);
    bits :| |bits| == 8 && Number(bits) == octets[0];
    if |octets| == 1 {
      assert bits[..8] == bits;
    } else {
      OctetBits(octets[1]);
      var more: seq<bool> :| |more| == 8 && Number(more) == octets[1];
      assert (bits + more)[..8] == bits && (bits + more)[8..] == more;
      bits := bits + more;
    }
    forall other: seq<bool> | Holding(octets, other) ensures other == bits {
      NumberInjective(other[..8], bits[..8]);
      assert bits == bits[..8] + bits[8..] && other == other[..8] + other[8..];
      if |octets| == 2 { NumberInjective(other[8..], bits[8..]); }
    }
  }

  lemma {:induction false} NumberInjective(a: seq<bool>, b: seq<bool>)
    requires |a| == |b| && Number(a) == Number(b)
    ensures a == b
    decreases |a|
  {
    if a != [] {
      assert a == [a[0]] + a[1..] && b == [b[0]] + b[1..];
      NumberInjective(a[1..], b[1..]);
    }
  }

  method PrintOctets(octets: seq<Byte>, unused: nat) returns (printed: string, spuriousZeros: bool)
    requires 1 <= |octets| <= 2 && unused <= 7
    ensures BitsPrinted(octets, unused, printed, spuriousZeros)
  {
    hide Number, SpuriousZeros;
    ghost var bits := HeldBits(octets);
    printed, spuriousZeros := PrintBitString(octets, unused, bits);
  }

  /** The loops of `dumpBitString`.  The second complaint of the program, about one bits behind the
      last valid one, never fires. */
  method PrintBitString(octets: seq<Byte>, unused: nat, ghost bits: seq<bool>) returns (printed: string, spuriousZeros: bool)
    requires unused <= 7 && Holding(octets, bits)
    ensures var noBits := 8 * |octets| - unused;
            |printed| == noBits && forall j :: 0 <= j < noBits ==> printed[j] == if bits[noBits - 1 - j] then '1' else '0'
    ensures spuriousZeros <==> SpuriousZeros(bits, 8 * |octets| - unused)
  {
    hide Pow2, Number, Value, Shifted;
    var noBits: nat := 8 * |octets| - unused;
    var bitString: nat, size: nat := octets[0], 0x100;
    if noBits > 8 {
      bitString, size := bitString * 0x100 + octets[1], 0x1_0000;
    }
    Start(octets, bits);
    var value: nat;
    value, spuriousZeros := Reverse(bitString, size, noBits, bits);
    if value / Pow2(noBits) % 0x1_0000 != 0 {
      assert false;  // "Spurious one bits in bitstring"
    }
    printed := PrintBits(value, noBits, bits[..noBits]);
  }

  lemma ValueStep(bits: seq<bool>, i: nat)
    requires i < |bits|
    ensures Value(bits[..i + 1]) == Value(bits[..i]) + if bits[i] then Pow2(i) else 0
  {
    assert bits[..i + 1][..i] == bits[..i];
  }

  lemma FirstStep(start: nat, size: nat, bits: seq<bool>)
    requires start < size
    ensures start % size == start && Value(bits[..0]) == 0 && Pow2(0) == 1
  {
    Quotient(start, 0, size);
  }

  /** The loop over the valid bits. */
  method Reverse(start: nat, size: nat, noBits: nat, ghost bits: seq<bool>) returns (value: nat, spuriousZeros: bool)
    requires Size(size, bits) && 0 < noBits <= |bits| && start < size && start == Number(Shifted(bits, 0))
    ensures value == Value(bits[..noBits]) && value / Pow2(noBits) == 0
    ensures spuriousZeros <==> SpuriousZeros(bits, noBits)
  {
    hide Number, Shifted, Value, Pow2, BitSet;
    FirstStep(start, size, bits);
    var bitString: nat, bitFlag: nat, i: nat := start, 1, 0;
    value, spuriousZeros := 0, false;
    while i < noBits
      invariant i <= noBits && bitString % size == Number(Shifted(bits, i))
      invariant value == Value(bits[..i]) && bitFlag == Pow2(i)
      invariant spuriousZeros <==> i > 0 && forall k :: i - 1 <= k < |bits| ==> !bits[k]
    {
      ShiftStep(size, bits, i, bitString);
      ValueStep(bits, i);
      PowStep(i + 1);
      if BitSet(bitString, size / 2) {
        value := value + bitFlag;  // the bit is not set yet: value < bitFlag
      }
      if bitString % size == 0 {
        spuriousZeros := true;
      }
      bitFlag := 2 * bitFlag;
      bitString := 2 * bitString % UINT_SIZE;
      i := i + 1;
    }
    Quotient(value, 0, Pow2(noBits));
  }

  /** The loop that prints a value, highest bit first. */
  method PrintBits(value: nat, noBits: nat, ghost bits: seq<bool>) returns (printed: string)
    requires |bits| == noBits > 0 && value == Value(bits)
    ensures |printed| == noBits && forall j :: 0 <= j < noBits ==> printed[j] == if bits[noBits - 1 - j] then '1' else '0'
  {
    hide Value;
    printed := "";
    var currentBitMask: nat, i: nat := Pow2(noBits - 1), 0;
    while i < noBits
      invariant i <= noBits && |printed| == i
      invariant i < noBits ==> currentBitMask == Pow2(noBits - 1 - i)
      invariant forall j :: 0 <= j < i ==> printed[j] == if bits[noBits - 1 - j] then '1' else '0'
    {
      ValueBit(bits, noBits - 1 - i);
      printed := printed + [if BitSet(value, currentBitMask) then '1' else '0'];
      currentBitMask := currentBitMask / 2;
      i := i + 1;
    }
  }

  lemma Start(octets: seq<Byte>, bits: seq<bool>)
    requires 1 <= |octets| <= 2 && |bits| == 8 * |octets|
    requires octets[0] == Number(bits[..8]) && (|octets| == 2 ==> octets[1] == Number(bits[8..]))
    ensures Number(Shifted(bits, 0)) == if |octets| == 1 then octets[0] as int else (octets[0] as int) * 0x100 + octets[1]
    ensures Number(Shifted(bits, 0)) < if |octets| == 1 then 0x100 else 0x1_0000
  {
    assert Shifted(bits, 0) == bits == bits[..8] + bits[8..];
    if |octets| == 1 {
      assert bits[..8] == bits;
      SizeIs(0x100, bits);
    } else {
      NumberConcat(bits[..8], bits[8..]);
      SizeIs(0x100, bits[..8]);
      SizeIs(0x1_0000, bits);
    }
  }

  lemma Distribute(x: nat, y: nat, p: nat)
    ensures (x + y) * p == x * p + y * p
  {}

  lemma {:induction false} NumberConcat(a: seq<bool>, b: seq<bool>)
    ensures Number(a + b) == Number(a) * Pow2(|b|) + Number(b)
    decreases |a|
  {
    if a == [] {
      assert a + b == b;
    } else {
      assert (a + b)[1..] == a[1..] + b;
      NumberConcat(a[1..], b);
      PowAdd(|a| - 1, |b|);
      var first := if a[0] then Pow2(|a| - 1) else 0;
      Distribute(first, Number(a[1..]), Pow2(|b|));
    }
  }

  /** Every octet is the number of its eight bits. */
  lemma OctetBits(octet: Byte)
    ensures exists bits: seq<bool> :: |bits| == 8 && Number(bits) == octet
  {
    BitsExist(8, octet);
  }

  lemma {:induction false} BitsExist(n: nat, x: nat)
    requires x < Pow2(n)
    ensures exists bits: seq<bool> :: |bits| == n && Number(bits) == x
  {
    if n == 0 {
      var none: seq<bool> := [];
      assert |none| == 0 && Number(none) == x;
    } else {
      var high := x >= Pow2(n - 1);
      BitsExist(n - 1, if high then x - Pow2(n - 1) else x);
      var rest: seq<bool> :| |rest| == n - 1 && Number(rest) == if high then x - Pow2(n - 1) else x;
      assert ([high] + rest)[1..] == rest;
      assert |[high] + rest| == n && Number([high] + rest) == x;
    }
  }
}
