/** Java's fixed-width integers and the hash arithmetic `Piece.hashCode` relies on:
    `Long.hashCode`, and the `31 * result + element` fold that Guava's
    `Objects.hashCode(Object...)` performs through `Arrays.hashCode`.
    Dafny's integers are unbounded, so the 32-bit wrap-around is written out. */
module JavaHash {

  const TWO_32: int := 0x1_0000_0000
  const TWO_64: int := 0x1_0000_0000_0000_0000

  /** Java `int`. */
  type Int32 = x: int | -0x8000_0000 <= x < 0x8000_0000

  /** Java `long`. */
  type Int64 = x: int | -0x8000_0000_0000_0000 <= x < 0x8000_0000_0000_0000

  /** How many multiples of 2^32 `Wrap32` removes from `x`. */
  function WrapCount(x: int): int
  {
    (x + 0x8000_0000) / TWO_32
  }

  /** The value of Java `int` arithmetic on `x`: the low 32 bits, read as two's complement. */
  function Wrap32(x: int): (r: Int32)
    ensures -0x8000_0000 <= x < 0x8000_0000 ==> r == x
  {
    x - TWO_32 * WrapCount(x)
  }

  /** Wrapping is determined by the residue: any `x == 2^32 * q + r` with `r` in the `int`
      range wraps to `r`. */
  lemma Wrap32Unique(x: int, q: int, r: int)
    requires x == TWO_32 * q + r && -0x8000_0000 <= r < 0x8000_0000
    ensures Wrap32(x) == r
  {
    var c := WrapCount(x);
    assert TWO_32 * (q - c) == Wrap32(x) - r;
  }

  /** 2 to the power `n`. */
  function Pow2(n: nat): (r: nat)
    ensures r >= 1
  {
    if n == 0 then 1 else 2 * Pow2(n - 1)
  }

  /** Bitwise XOR of the low `width` bits of `a` and `b`. */
  function XorBits(a: nat, b: nat, width: nat): nat
  {
    if width == 0 then 0
    else (if a % 2 == b % 2 then 0 else 1) + 2 * XorBits(a / 2, b / 2, width - 1)
  }

  /** XOR with zero keeps every bit of a value that fits in the width. */
  lemma {:induction false} XorZero(a: nat, width: nat)
    requires a < Pow2(width)
    ensures XorBits(a, 0, width) == a
  {
    if width > 0 {
      XorZero(a / 2, width - 1);
    }
  }

  /** XOR with all ones flips every bit: the result is the complement within the width. */
  lemma {:induction false} XorOnes(a: nat, width: nat)
    requires a < Pow2(width)
    ensures XorBits(a, Pow2(width) - 1, width) == Pow2(width) - 1 - a
  {
    if width > 0 {
      var ones := Pow2(width) - 1;
      assert ones / 2 == Pow2(width - 1) - 1 && ones % 2 == 1;
      XorOnes(a / 2, width - 1);
    }
  }

  /** `Long.hashCode(v)`, that is `(int)(v ^ (v >>> 32))`: the XOR of the high and
      low 32-bit halves of the two's-complement bits of `v`, read as an `int`. A non-negative
      `long` that fits in an `int` hashes to itself; a negative one hashes to `-v - 1`, because
      its all-ones high half complements the low half (so `-1` hashes to `0`). */
  function LongHashCode(v: Int64): (h: Int32)
    ensures 0 <= v < 0x8000_0000 ==> h == v
    ensures -0x8000_0000 <= v < 0 ==> h == -v - 1
  {
    var bits := v % TWO_64;
    XorOfHalves(v);
    Wrap32(XorBits(bits % TWO_32, bits / TWO_32, 32))
  }

  /** The XOR of the two 32-bit halves of a `long` that fits in an `int`: the value itself when
      it is non-negative (high half zero), its complement `-v - 1` when negative (high half all ones). */
  lemma XorOfHalves(v: Int64)
    ensures var bits := v % TWO_64;
            var mixed := XorBits(bits % TWO_32, bits / TWO_32, 32);
            (0 <= v < 0x8000_0000 ==> mixed == v) && (-0x8000_0000 <= v < 0 ==> mixed == -v - 1)
  {
    var bits := v % TWO_64;
    Pow2Of32();
    if 0 <= v < 0x8000_0000 {
      assert bits == v;
      assert bits % TWO_32 == v && bits / TWO_32 == 0;
      XorZero(v, 32);
    } else if -0x8000_0000 <= v < 0 {
      assert bits == v + TWO_64;
      assert bits / TWO_32 == TWO_32 - 1;
      assert bits % TWO_32 == v + TWO_32;
      XorOnes(v + TWO_32, 32);
    }
  }

  lemma Pow2Of32()
    ensures Pow2(32) == TWO_32
  {
    assert Pow2(8) == 256;
    assert Pow2(16) == 65536 by {
      assert Pow2(12) == 4096;
    }
    assert Pow2(24) == 16777216 by {
      assert Pow2(20) == 1048576;
    }
    assert Pow2(28) == 268435456;
  }

  /** `Arrays.hashCode(a)` for an array of non-null elements whose own hash codes are `hs`:
      start at 1 and, element by element, set `result = 31 * result + hash` in `int` arithmetic.
      Wrapping after every step gives the same `int` as evaluating the whole polynomial exactly
      and wrapping once at the end. */
  function ArraysHashCode(hs: seq<Int32>): (r: Int32)
    ensures r == Wrap32(HashPolynomial(hs))
  {
    if |hs| == 0 then
      assert HashPolynomial(hs) == 1;
      1
    else
      var init := hs[..|hs| - 1];
      var last := hs[|hs| - 1];
      var folded := ArraysHashCode(init);
      assert HashPolynomial(hs) == 31 * HashPolynomial(init) + last;
      FoldStepCongruent(folded, HashPolynomial(init), last);
      Wrap32(31 * folded + last)
  }

  /** 31 to the power `n`. */
  function Pow31(n: nat): nat
  {
    if n == 0 then 1 else 31 * Pow31(n - 1)
  }

  /** Sum of `hs[i] * 31^(|hs| - 1 - i)` over all `i`, with no wrap-around. */
  function WeightedSum(hs: seq<Int32>): int
  {
    if |hs| == 0 then 0 else 31 * WeightedSum(hs[..|hs| - 1]) + hs[|hs| - 1]
  }

  /** The polynomial the fold evaluates, in unbounded integers: `31^n + sum hs[i] * 31^(n-1-i)`. */
  function HashPolynomial(hs: seq<Int32>): int
  {
    Pow31(|hs|) + WeightedSum(hs)
  }

  /** One fold step keeps agreement modulo 2^32: if `folded` is `exact` wrapped, then
      `31 * folded + h` and `31 * exact + h` wrap to the same `int`. */
  lemma FoldStepCongruent(folded: int, exact: int, h: int)
    requires folded == Wrap32(exact)
    ensures Wrap32(31 * folded + h) == Wrap32(31 * exact + h)
  {
    var c := WrapCount(exact);
    var q := WrapCount(31 * exact + h);
    var r := Wrap32(31 * exact + h);
    assert 31 * exact + h == TWO_32 * q + r;
    assert 31 * folded + h == TWO_32 * (q - 31 * c) + r;
    Wrap32Unique(31 * folded + h, q - 31 * c, r);
  }

  /** The three-element case `Objects.hashCode(a, b, c)` in closed form. */
  lemma ThreeElementHashCode(a: Int32, b: Int32, c: Int32)
    ensures ArraysHashCode([a, b, c]) == Wrap32(29791 + 961 * a + 31 * b + c)
  {
    var hs := [a, b, c];
    assert hs[..2] == [a, b] && [a, b][..1] == [a] && [a][..0] == [];
    assert Pow31(3) == 29791;
    assert WeightedSum([a]) == a;
    assert WeightedSum([a, b]) == 31 * a + b;
    assert WeightedSum(hs) == 961 * a + 31 * b + c;
  }
}
