/** Bit sequences and the integers they stand for, most significant bit first.

    The source keeps bits in integer arrays and Python strings of '0'/'1' digits and
    turns them into integers with a shift-and-or loop; this module gives those
    operations one exact meaning over unbounded integers. */
module Bits {

  /** One binary digit, as stored in the source's integer arrays. */
  type Bit = b: nat | b < 2

  function Pow2(k: nat): (r: nat)
    ensures r >= 1
  {
    if k == 0 then 1 else 2 * Pow2(k - 1)
  }

  lemma {:induction false} Pow2Monotone(a: nat, b: nat)
    requires a <= b
    ensures Pow2(a) <= Pow2(b)
    decreases b
  {
    if a < b {
      Pow2Monotone(a, b - 1);
    }
  }

  /** `k` zero bits (`np.zeros(k, dtype=int)`). */
  function Zeros(k: nat): (r: seq<Bit>)
    ensures |r| == k
    ensures forall i :: 0 <= i < k ==> r[i] == 0
  {
    seq(k, _ => 0)
  }

  /** True when no index occurs twice. */
  predicate Distinct(s: seq<nat>) {
    forall p, q :: 0 <= p < q < |s| ==> s[p] != s[q]
  }

  /** True when every index addresses an element of a sequence of length `n`. */
  predicate Below(s: seq<nat>, n: nat) {
    forall k :: 0 <= k < |s| ==> s[k] < n
  }

  // ---------------------------------------------------------------------------
  // Packing: the loop `key_int = (key_int << 1) | bit`
  // ---------------------------------------------------------------------------

  /** The integer the packing loop stands for over unbounded integers, read left
      to right: each step shifts the accumulator left by one and ors in the next
      bit. The shift leaves the low bit clear, so the or is an addition. The
      loop as numpy runs it is `PackInt64` below. */
  function Pack(s: seq<Bit>): (r: nat)
    ensures r < Pow2(|s|)
  {
    if s == [] then 0 else 2 * Pack(s[..|s| - 1]) + s[|s| - 1]
  }

  /** Positional reading of `s`: bit `k` weighs 2^(|s|-1-k), so `s[0]` is the most
      significant bit. This is the reference meaning of a big-endian bit string. */
  function Positional(s: seq<Bit>): nat
  {
    if s == [] then 0 else s[0] * Pow2(|s| - 1) + Positional(s[1..])
  }

  lemma {:induction false} PositionalSnoc(a: seq<Bit>, b: Bit)
    ensures Positional(a + [b]) == 2 * Positional(a) + b
    decreases |a|
  {
    if a == [] {
      assert a + [b] == [b];
    } else {
      assert (a + [b])[1..] == a[1..] + [b];
      PositionalSnoc(a[1..], b);
      assert Pow2(|a + [b]| - 1) == 2 * Pow2(|a| - 1);
    }
  }

  /** The shift-and-or loop computes the positional value: bit 0 is the most
      significant and bit k contributes bits[k]·2^(|s|-1-k). */
  lemma {:induction false} PackIsPositional(s: seq<Bit>)
    ensures Pack(s) == Positional(s)
    decreases |s|
  {
    if s != [] {
      var init := s[..|s| - 1];
      assert s == init + [s[|s| - 1]];
      PackIsPositional(init);
      PositionalSnoc(init, s[|s| - 1]);
    }
  }

  /** Packing a concatenation: the left part is shifted past the right part. */
  lemma {:induction false} PackAppend(a: seq<Bit>, b: seq<Bit>)
    ensures Pack(a + b) == Pack(a) * Pow2(|b|) + Pack(b)
    decreases |b|
  {
    if b == [] {
      assert a + b == a;
    } else {
      var b' := b[..|b| - 1];
      assert (a + b)[..|a + b| - 1] == a + b';
      assert (a + b)[|a + b| - 1] == b[|b| - 1];
      PackAppend(a, b');
      assert b[..|b| - 1] == b';
      ShiftDistributes(Pack(a), Pow2(|b'|), Pack(b'), b[|b| - 1]);
    }
  }

  lemma ShiftDistributes(p: int, q: int, r: int, x: int)
    ensures 2 * (p * q + r) + x == p * (2 * q) + (2 * r + x)
  {
  }

  lemma DivOfMulAdd(q: nat, d: nat, r: nat)
    requires r < d
    ensures (q * d + r) / d == q
  {
    var x := q * d + r;
    var k := x / d - q;
    assert d * k == r - x % d by {
      assert x == d * (x / d) + x % d;
      assert d * (x / d) == d * k + d * q;
    }
  }

  lemma ModOfMulAdd(q: nat, d: nat, r: nat)
    requires r < d
    ensures (q * d + r) % d == r
  {
    DivOfMulAdd(q, d, r);
    var x := q * d + r;
    assert x == d * (x / d) + x % d;
  }

  /** The first `k` bits of `s` pack to the integer value of `s` with its low
      `|s| - k` bits shifted out. */
  lemma PackPrefix(s: seq<Bit>, k: nat)
    requires k <= |s|
    ensures Pack(s[..k]) == Pack(s) / Pow2(|s| - k)
  {
    assert s == s[..k] + s[k..];
    PackAppend(s[..k], s[k..]);
    DivOfMulAdd(Pack(s[..k]), Pow2(|s| - k), Pack(s[k..]));
  }

  /** A packed integer is zero exactly when every bit is zero. */
  lemma {:induction false} PackZeroIff(s: seq<Bit>)
    ensures Pack(s) == 0 <==> forall i :: 0 <= i < |s| ==> s[i] == 0
    decreases |s|
  {
    if s != [] {
      var init := s[..|s| - 1];
      PackZeroIff(init);
      assert s == init + [s[|s| - 1]];
      assert (forall i :: 0 <= i < |s| ==> s[i] == 0) <==>
             (forall i :: 0 <= i < |init| ==> init[i] == 0) && s[|s| - 1] == 0;
    }
  }

  /** Leading zeros do not change the packed value. */
  lemma PackZeroPrefix(k: nat, s: seq<Bit>)
    ensures Pack(Zeros(k) + s) == Pack(s)
  {
    PackZeroIff(Zeros(k));
    PackAppend(Zeros(k), s);
  }

  // ---------------------------------------------------------------------------
  // The packing loop on numpy's int64 accumulator
  // ---------------------------------------------------------------------------

  const Int64Modulus: nat := 0x1_0000_0000_0000_0000
  const Int64Half: nat := 0x8000_0000_0000_0000

  /** The `np.int64` holding `v` after two's-complement wrap-around: the value
      congruent to `v` modulo 2^64 in [-2^63, 2^63). */
  function WrapInt64(v: int): (r: int)
    ensures -(Int64Half as int) <= r < Int64Half
    ensures (r - v) % Int64Modulus == 0
    ensures -(Int64Half as int) <= v < Int64Half ==> r == v
  {
    var u := v % Int64Modulus;
    if u >= Int64Half then u - Int64Modulus else u
  }

  /** The packing loop as numpy evaluates it. The array's elements are
      `np.int64`, so from the first `| bit` on the accumulator is an `np.int64`
      too: the shift wraps at 64 bits, and the or then sets the clear low bit. */
  function PackInt64(s: seq<Bit>): (r: int)
    ensures r == WrapInt64(Pack(s))
    decreases |s|
  {
    if s == [] then 0
    else
      var init := s[..|s| - 1];
      WrapStep(Pack(init), s[|s| - 1]);
      WrapInt64(2 * PackInt64(init)) + s[|s| - 1]
  }

  /** The remainder of an even value modulo 2^64 is even, hence at most
      2^64 - 2. */
  lemma ModEven(v: int)
    requires v % 2 == 0
    ensures (v % Int64Modulus) % 2 == 0 && v % Int64Modulus <= Int64Modulus - 2
  {
    var q := v / Int64Modulus;
    var u := v % Int64Modulus;
    assert v == Int64Modulus * q + u;
    var a := v / 2;
    assert v == 2 * a;
    var t := a - Int64Half * q;
    assert u == 2 * t;
  }

  /** The remainder modulo 2^64 is the unique one: `x = q·2^64 + r` with
      `0 <= r < 2^64` forces `x % 2^64 == r`. */
  lemma ModUnique(x: int, q: int, r: int)
    requires x == q * Int64Modulus + r && 0 <= r < Int64Modulus
    ensures x % Int64Modulus == r
  {
    var t := x / Int64Modulus - q;
    assert Int64Modulus * t == r - x % Int64Modulus;
  }

  /** Values congruent modulo 2^64 wrap to the same `np.int64`. */
  lemma WrapCongruent(a: int, b: int)
    requires (a - b) % Int64Modulus == 0
    ensures WrapInt64(a) == WrapInt64(b)
  {
    var k := (a - b) / Int64Modulus;
    assert a - b == k * Int64Modulus;
    ModUnique(a, b / Int64Modulus + k, b % Int64Modulus);
  }

  /** Doubling keeps congruence modulo 2^64. */
  lemma DoubleCongruent(w: int, p: int)
    requires (w - p) % Int64Modulus == 0
    ensures (2 * w - 2 * p) % Int64Modulus == 0
  {
    var k := (w - p) / Int64Modulus;
    assert w - p == k * Int64Modulus;
    ModUnique(2 * w - 2 * p, 2 * k, 0);
  }

  /** Setting the clear low bit of an even value does not cross a multiple of
      2^64. */
  lemma ModSetLowBit(p: int, b: Bit)
    ensures (2 * p + b) % Int64Modulus == (2 * p) % Int64Modulus + b
  {
    if b == 1 {
      var u := (2 * p) % Int64Modulus;
      var q := (2 * p) / Int64Modulus;
      EuclidInt64(2 * p);
      ModEven(2 * p);
      assert u + 1 < Int64Modulus;
      ModUnique(2 * p + 1, q, u + 1);
    }
  }

  lemma EuclidInt64(x: int)
    ensures x == (x / Int64Modulus) * Int64Modulus + x % Int64Modulus
    ensures 0 <= x % Int64Modulus < Int64Modulus
  {
  }

  /** One wrapped step: shifting the wrapped accumulator and setting the low bit
      gives the wrap of the exact step. */
  lemma WrapStep(p: int, b: Bit)
    ensures WrapInt64(2 * WrapInt64(p)) + b == WrapInt64(2 * p + b)
  {
    DoubleCongruent(WrapInt64(p), p);
    WrapCongruent(2 * WrapInt64(p), 2 * p);
    ModSetLowBit(p, b);
  }

  /** Patterns short enough to fit are packed exactly: for at most 63 bits the
      int64 loop and the exact loop agree. */
  lemma PackInt64Short(s: seq<Bit>)
    requires |s| <= 63
    ensures PackInt64(s) == Pack(s)
  {
    Pow2Monotone(|s|, 63);
    Pow2Int64();
  }

  lemma {:induction false} Pow2Add(a: nat, b: nat)
    ensures Pow2(a + b) == Pow2(a) * Pow2(b)
    decreases b
  {
    if b > 0 {
      Pow2Add(a, b - 1);
    }
  }

  lemma Pow2Sixteen()
    ensures Pow2(16) == 0x1_0000
  {
    assert Pow2(4) == 16;
    Pow2Add(4, 4);
    Pow2Add(8, 8);
  }

  /** The int64 bounds are powers of two. */
  lemma Pow2Int64()
    ensures Pow2(63) == Int64Half && Pow2(64) == Int64Modulus
  {
    Pow2Sixteen();
    Pow2Add(16, 16);
    Pow2Add(32, 32);
    assert Pow2(64) == 2 * Pow2(63);
  }

  /** 2^255 is a multiple of 2^64. */
  lemma Pow2HighMultiple()
    ensures Pow2(255) % Int64Modulus == 0
  {
    Pow2Add(191, 64);
    Pow2Int64();
    ModUnique(Pow2(255), Pow2(191), 0);
  }

  /** A 256-bit pattern whose only one is its leading bit stands for 2^255, but
      the int64 loop shifts that bit out and returns 0. */
  lemma PackInt64LosesLeadingOne()
    ensures Pack([1] + Zeros(255)) == Pow2(255)
    ensures PackInt64([1] + Zeros(255)) == 0
  {
    var s: seq<Bit> := [1] + Zeros(255);
    PackLeadingOne(255);
    Pow2HighMultiple();
    WrapCongruent(Pow2(255), 0);
  }

  /** A one followed by `k` zeros packs to 2^k. */
  lemma PackLeadingOne(k: nat)
    ensures Pack([1] + Zeros(k)) == Pow2(k)
  {
    var one: seq<Bit> := [1];
    var zeros := Zeros(k);
    assert Pack(one) == 1 by { assert one[..0] == []; }
    PackZeroIff(zeros);
    assert Pack(zeros) == 0;
    PackAppend(one, zeros);
  }

  // ---------------------------------------------------------------------------
  // Binary digits: `bin(x)[2:]` and `zfill`
  // ---------------------------------------------------------------------------

  /** The digits `bin(x)[2:]` prints for a non-negative `x`: no leading zero,
      except the single digit of zero itself. */
  function Digits(x: nat): (r: seq<Bit>)
    ensures |r| >= 1
    ensures x > 0 ==> r[0] == 1
    ensures Pack(r) == x
    decreases x
  {
    if x < 2 then [x]
    else
      var d := Digits(x / 2) + [x % 2];
      assert d[..|d| - 1] == Digits(x / 2);
      d
  }

  /** A value below 2^w (w >= 1) has at most `w` digits, and conversely. */
  lemma {:induction false} DigitsWidth(x: nat, w: nat)
    requires w >= 1
    ensures |Digits(x)| <= w <==> x < Pow2(w)
    decreases x
  {
    if x >= 2 {
      if w == 1 {
        assert Pow2(1) == 2;
        assert |Digits(x)| >= 2 by { assert |Digits(x)| == |Digits(x / 2)| + 1; }
      } else {
        DigitsWidth(x / 2, w - 1);
        assert |Digits(x)| == |Digits(x / 2)| + 1;
      }
    } else {
      assert Pow2(w) >= 2 by { assert Pow2(w) == 2 * Pow2(w - 1); }
    }
  }

  /** `d.zfill(w)`: left-pad with zeros to length `w`; never truncates. The
      digits stay as a suffix and only zeros are added, so the result has
      length max(w, |d|) and the same value. */
  function ZeroFill(d: seq<Bit>, w: nat): (r: seq<Bit>)
    ensures |r| == if |d| >= w then |d| else w
    ensures r[|r| - |d|..] == d
    ensures forall i :: 0 <= i < |r| - |d| ==> r[i] == 0
    ensures Pack(r) == Pack(d)
  {
    if |d| >= w then d
    else
      PackZeroPrefix(w - |d|, d);
      Zeros(w - |d|) + d
  }

  /** Reading a fixed-width bit string as an integer and writing it back with
      `bin(..)[2:].zfill(w)` reproduces the string exactly. */
  lemma {:induction false} ZeroFillDigitsOfPack(s: seq<Bit>)
    requires |s| >= 1
    ensures ZeroFill(Digits(Pack(s)), |s|) == s
    decreases |s|
  {
    var w := |s|;
    var init := s[..w - 1];
    var b := s[w - 1];
    assert s == init + [b];
    var x := Pack(s);
    assert x == 2 * Pack(init) + b;
    if x < 2 {
      assert Pack(init) == 0;
      PackZeroIff(init);
      assert Digits(x) == [b];
      assert init == Zeros(w - 1);
    } else {
      assert w >= 2;
      assert x / 2 == Pack(init) && x % 2 == b;
      assert Digits(x) == Digits(Pack(init)) + [b];
      DigitsWidth(Pack(init), w - 1);
      ZeroFillDigitsOfPack(init);
      var d := Digits(Pack(init));
      if |d| < w - 1 {
        assert ZeroFill(d + [b], w) == Zeros(w - 1 - |d|) + d + [b];
      }
    }
  }

  // ---------------------------------------------------------------------------
  // Counting and scattering: `bits[indices] = 1`
  // ---------------------------------------------------------------------------

  /** Number of one bits. */
  function CountOnes(s: seq<Bit>): nat
  {
    if s == [] then 0 else (if s[0] == 1 then 1 else 0) + CountOnes(s[1..])
  }

  lemma CountOnesZeros(k: nat)
    ensures CountOnes(Zeros(k)) == 0
  {
    if k > 0 {
      assert Zeros(k)[1..] == Zeros(k - 1);
      CountOnesZeros(k - 1);
    }
  }

  /** The count is zero exactly when every bit is zero. */
  lemma {:induction false} CountOnesZeroIff(s: seq<Bit>)
    ensures CountOnes(s) == 0 <==> forall i :: 0 <= i < |s| ==> s[i] == 0
    decreases |s|
  {
    if s != [] {
      CountOnesZeroIff(s[1..]);
      assert s == [s[0]] + s[1..];
      assert (forall i :: 0 <= i < |s| ==> s[i] == 0) <==>
             s[0] == 0 && (forall i :: 0 <= i < |s[1..]| ==> s[1..][i] == 0);
    }
  }

  /** Raising one clear bit adds exactly one to the count. */
  lemma {:induction false} CountOnesRaise(s: seq<Bit>, p: nat)
    requires p < |s| && s[p] == 0
    ensures CountOnes(s[p := 1]) == CountOnes(s) + 1
    decreases p
  {
    if p > 0 {
      assert s[p := 1][1..] == s[1..][p - 1 := 1];
      CountOnesRaise(s[1..], p - 1);
    }
  }

  /** `bits[idxs] = 1`, one index after the other. */
  function SetOnes(bits: seq<Bit>, idxs: seq<nat>): (r: seq<Bit>)
    requires Below(idxs, |bits|)
    ensures |r| == |bits|
    decreases |idxs|
  {
    if idxs == [] then bits else SetOnes(bits[idxs[0] := 1], idxs[1..])
  }

  /** After scattering, a bit is one exactly when it was one before or its
      index was scattered. */
  lemma {:induction false} SetOnesAt(bits: seq<Bit>, idxs: seq<nat>, j: nat)
    requires Below(idxs, |bits|) && j < |bits|
    ensures SetOnes(bits, idxs)[j] == 1 <==> bits[j] == 1 || j in idxs
    decreases |idxs|
  {
    if idxs != [] {
      SetOnesAt(bits[idxs[0] := 1], idxs[1..], j);
      assert idxs == [idxs[0]] + idxs[1..];
    }
  }

  /** Scattering distinct indices onto clear bits raises the count by the
      number of indices. */
  lemma {:induction false} CountOnesSetOnes(bits: seq<Bit>, idxs: seq<nat>)
    requires Below(idxs, |bits|) && Distinct(idxs)
    requires forall k :: 0 <= k < |idxs| ==> bits[idxs[k]] == 0
    ensures CountOnes(SetOnes(bits, idxs)) == CountOnes(bits) + |idxs|
    decreases |idxs|
  {
    if idxs != [] {
      var p := idxs[0];
      CountOnesRaise(bits, p);
      var rest := idxs[1..];
      forall k | 0 <= k < |rest| ensures bits[p := 1][rest[k]] == 0 {
        assert rest[k] == idxs[k + 1] != idxs[0];
      }
      CountOnesSetOnes(bits[p := 1], rest);
    }
  }
}
