/**
 Integers: dumpasn1 takes the first bit of the contents for a sign, X.690 section 8.3 has two's
 complement.  When the value printed is the value encoded.
 */
module BerInteger {
  import opened BerWalk

  function Power256(n: nat): (r: nat)
    ensures r > 0
  {
    if n == 0 then 1 else 256 * Power256(n - 1)
  }

  /** The octets as an unsigned number. */
  function Unsigned(octets: seq<Byte>): (r: nat)
    ensures r < Power256(|octets|)
  {
    if octets == [] then 0 else Unsigned(octets[..|octets| - 1]) * 256 + octets[|octets| - 1]
  }

  /** The value X.690 gives them. */
  function TwosComplement(octets: seq<Byte>): int
    requires octets != []
  {
    Unsigned(octets) - if octets[0] < 128 then 0 else Power256(|octets|)
  }

  /** The octets without their first bit, as `getValue` accumulates them. */
  function Magnitude(octets: seq<Byte>): nat
    requires octets != []
  {
    if |octets| == 1 then octets[0] % 128 else Magnitude(octets[..|octets| - 1]) * 256 + octets[|octets| - 1]
  }

  /** What `getValue` returns. */
  function SignMagnitude(octets: seq<Byte>): int
    requires octets != []
  {
    var m: int := Magnitude(octets);
    if octets[0] < 128 then m else -m
  }

  lemma {:induction false} MagnitudeIs(octets: seq<Byte>)
    requires octets != []
    ensures Magnitude(octets) == Unsigned(octets) - if octets[0] < 128 then 0 else 128 * Power256(|octets| - 1)
    decreases |octets|
  {
    if |octets| > 1 {
      MagnitudeIs(octets[..|octets| - 1]);
    } else {
      assert Unsigned(octets[..0]) == 0;
    }
  }

  /** The smallest negative number whose sign and magnitude say the same as its two's complement. */
  predicate OneQuarter(octets: seq<Byte>) {
    octets != [] && octets[0] == 0xC0 && forall i :: 1 <= i < |octets| ==> octets[i] == 0
  }

  lemma {:induction false} UnsignedQuarter(octets: seq<Byte>)
    requires octets != []
    ensures Unsigned(octets) == 0xC0 * Power256(|octets| - 1) <==> OneQuarter(octets)
    decreases |octets|
  {
    var n := |octets| - 1;
    var front := octets[..n];
    if n == 0 {
      assert Unsigned(front) == 0;
    } else {
      UnsignedQuarter(front);
      assert Unsigned(octets) == Unsigned(front) * 256 + octets[n];
      assert 0xC0 * Power256(n) == 256 * (0xC0 * Power256(n - 1));
    }
  }

  /** The value printed is the one encoded exactly for numbers that are not negative, and for the one
      negative number of every length that is a quarter of the range below zero. */
  lemma IntegerExactly(octets: seq<Byte>)
    requires octets != []
    ensures SignMagnitude(octets) == TwosComplement(octets) <==> octets[0] < 128 || OneQuarter(octets)
  {
    MagnitudeIs(octets);
    UnsignedQuarter(octets);
    assert Power256(|octets|) == 256 * Power256(|octets| - 1);
  }

  lemma MagnitudeMore(octets: seq<Byte>, i: nat)
    requires 0 < i < |octets|
    ensures Magnitude(octets[..i + 1]) == Magnitude(octets[..i]) * 256 + octets[i]
  {
    assert octets[..i + 1][..i] == octets[..i];
  }
}
