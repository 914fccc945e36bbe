/** Candidate extraction (`KeyExtractor.extract`).

    A lattice snapshot is turned into one feature per point; the points are
    ranked by feature and the upper half by rank gets bit 1 (a median split); the
    first 256 bits are packed most significant first into an integer, an all-zero
    result is replaced by a random pattern of 128 ones, the integer is clamped
    into the key range [1, n] and handed to the validator, and a match is
    appended to the candidate history. */
module KeyExtraction {
  import opened Bits
  import opened Numerics
  import opened Config

  // ---------------------------------------------------------------------------
  // Features and their order
  // ---------------------------------------------------------------------------

  /** One entry of the combined feature vector. It is complex in the source,
      because the demon term is a sum of complex amplitudes, and `np.argsort`
      orders complex values by real part first and imaginary part second. */
  datatype Feature = Feature(re: real, im: real)

  /** numpy's order on complex values. */
  predicate FeatureLe(a: Feature, b: Feature) {
    a.re < b.re || (a.re == b.re && a.im <= b.im)
  }

  // ---------------------------------------------------------------------------
  // Demon observation and its tiling
  // ---------------------------------------------------------------------------

  /** Sum of the amplitudes whose flat index is `k` modulo the last axis. In
      row-major order the last coordinate (w2) of flat index j is j % 3, so this
      is the sum over the first five axes at w2 = k. */
  function ResidueSum(s: seq<Complex>, k: nat): Complex
  {
    if s == [] then Zero
    else Add(ResidueSum(s[..|s| - 1], k), if (|s| - 1) % LastAxis == k then s[|s| - 1] else Zero)
  }

  /** `np.sum(state_6d, axis=(0, 1, 2, 3, 4)).flatten()`: one sum per w2 slice.
      The three slices partition the lattice, so together they hold the sum of
      all amplitudes, each point counted once. */
  function DemonObservation(state: seq<Complex>): (r: seq<Complex>)
    ensures |r| == LastAxis
    ensures Add(Add(r[0], r[1]), r[2]) == Sum(state)
  {
    ResidueSumsTotal(state);
    [ResidueSum(state, 0), ResidueSum(state, 1), ResidueSum(state, 2)]
  }

  lemma {:induction false} ResidueSumsTotal(s: seq<Complex>)
    ensures Add(Add(ResidueSum(s, 0), ResidueSum(s, 1)), ResidueSum(s, 2)) == Sum(s)
    decreases |s|
  {
    if s != [] {
      var init := s[..|s| - 1];
      var last := s[|s| - 1];
      ResidueSumsTotal(init);
      ResidueSumStep(s, 0);
      ResidueSumStep(s, 1);
      ResidueSumStep(s, 2);
      assert Sum(s) == Add(Sum(init), last);
      AddToOneSlice(ResidueSum(init, 0), ResidueSum(init, 1), ResidueSum(init, 2), last, (|s| - 1) % LastAxis);
    }
  }

  /** Adding a value to one of three summands adds it to their total. */
  lemma AddToOneSlice(a: Complex, b: Complex, c: Complex, z: Complex, k: nat)
    requires k < LastAxis
    ensures Add(Add(if k == 0 then Add(a, z) else a, if k == 1 then Add(b, z) else b), if k == 2 then Add(c, z) else c)
         == Add(Add(Add(a, b), c), z)
  {
  }

  /** The last amplitude is added to exactly one of the three slice sums. */
  lemma ResidueSumStep(s: seq<Complex>, k: nat)
    requires s != [] && k < LastAxis
    ensures ResidueSum(s, k)
         == if (|s| - 1) % LastAxis == k then Add(ResidueSum(s[..|s| - 1], k), s[|s| - 1])
            else ResidueSum(s[..|s| - 1], k)
  {
  }

  /** `np.tile(obs, reps)`: `reps` copies of `obs`, one after the other. */
  function Repeat<T>(obs: seq<T>, reps: nat): seq<T>
  {
    if reps == 0 then [] else Repeat(obs, reps - 1) + obs
  }

  /** Python's `s[:n]`: the first `n` elements, or all of `s` when it is shorter. */
  function Take<T>(s: seq<T>, n: nat): (r: seq<T>)
    ensures |r| == if n <= |s| then n else |s|
    ensures r == s[..|r|]
  {
    if n <= |s| then s[..n] else s
  }

  /** Tiling repeats the pattern: entry i of the tile is entry i mod |obs| of the
      pattern. */
  lemma {:induction false} RepeatShape<T>(obs: seq<T>, reps: nat)
    requires |obs| > 0
    ensures |Repeat(obs, reps)| == reps * |obs|
    ensures forall i :: 0 <= i < reps * |obs| ==> Repeat(obs, reps)[i] == obs[i % |obs|]
    decreases reps
  {
    if reps > 0 {
      RepeatShape(obs, reps - 1);
      var m := |obs|;
      forall i | 0 <= i < reps * m ensures Repeat(obs, reps)[i] == obs[i % m] {
        if i >= (reps - 1) * m {
          var j := i - (reps - 1) * m;
          ModOfMulAdd(reps - 1, m, j);
        }
      }
    }
  }

  /** `np.tile(demon_observation, total_points // 3)[:total_points]`. The tile
      has `n - n % 3` entries, so it covers the lattice only when the point
      count is a multiple of 3; entry i is observation i mod 3. */
  function DemonFactor(obs: seq<Complex>, n: nat): (r: seq<Complex>)
    requires |obs| == LastAxis
    ensures |r| == n - n % LastAxis
    ensures forall i :: 0 <= i < |r| ==> r[i] == obs[i % LastAxis]
  {
    RepeatShape(obs, n / LastAxis);
    Take(Repeat(obs, n / LastAxis), n)
  }

  /** The combined feature of every lattice point: the per-point float part plus
      0.1 times the tiled demon observation. The demon term is the only complex
      part, and it repeats with period 3: each feature carries 0.1 times the sum
      of the w2 slice its point belongs to. */
  function Features(state: seq<Complex>, lib: FloatLib): (r: seq<Feature>)
    requires |state| == TotalPoints
    ensures |r| == |state|
    ensures forall i :: 0 <= i < |r| ==>
              r[i] == Feature(lib.pointFeature(state[i]) + 0.1 * DemonObservation(state)[i % LastAxis].re,
                              0.1 * DemonObservation(state)[i % LastAxis].im)
  {
    var demon := DemonFactor(DemonObservation(state), |state|);
    seq(|state|, i requires 0 <= i < |state| =>
      Feature(lib.pointFeature(state[i]) + 0.1 * demon[i].re, 0.1 * demon[i].im))
  }

  // ---------------------------------------------------------------------------
  // Ranking: what `np.argsort` may return, and one way to compute it
  // ---------------------------------------------------------------------------

  /** `order` lists every index below `n` exactly once. */
  predicate IsPermutation(order: seq<nat>, n: nat) {
    && |order| == n
    && Below(order, n)
    && Distinct(order)
    && forall j :: 0 <= j < n ==> j in order
  }

  /** `order` lists indices of `f` by ascending feature. */
  predicate SortedBy(f: seq<Feature>, order: seq<nat>)
    requires Below(order, |f|)
  {
    forall p, q :: 0 <= p < q < |order| ==> FeatureLe(f[order[p]], f[order[q]])
  }

  /** What `np.argsort(f)` may return: the indices of `f` by ascending feature.
      Its default sort is not stable, so equal features may come in any order. */
  predicate IsArgSort(f: seq<Feature>, order: seq<nat>) {
    IsPermutation(order, |f|) && SortedBy(f, order)
  }

  /** Inserts index `j` into the ranked list `s`, before the first entry whose
      feature is not below it. */
  function Insert(f: seq<Feature>, j: nat, s: seq<nat>): (r: seq<nat>)
    requires j < |f| && Below(s, |f|)
    ensures |r| == |s| + 1
    ensures forall x :: x in r <==> x == j || x in s
    ensures Below(r, |f|)
    decreases |s|
  {
    if s == [] then [j]
    else if FeatureLe(f[j], f[s[0]]) then [j] + s
    else [s[0]] + Insert(f, j, s[1..])
  }

  /** Inserting a new index keeps a list free of repetitions. */
  lemma {:induction false} InsertDistinct(f: seq<Feature>, j: nat, s: seq<nat>)
    requires j < |f| && Below(s, |f|) && Distinct(s) && j !in s
    ensures Distinct(Insert(f, j, s))
    decreases |s|
  {
    if s == [] {
    } else if FeatureLe(f[j], f[s[0]]) {
      var r := [j] + s;
      forall p, q | 0 <= p < q < |r| ensures r[p] != r[q] {
        assert r[q] == s[q - 1];
        if p > 0 {
          assert r[p] == s[p - 1];
        } else {
          assert s[q - 1] in s;
        }
      }
    } else {
      var head, tail := s[0], s[1..];
      var rest := Insert(f, j, tail);
      InsertDistinct(f, j, tail);
      assert head !in tail by {
        forall k | 0 <= k < |tail| ensures tail[k] != head {
          assert tail[k] == s[k + 1];
        }
      }
      assert head != j by { assert head in s; }
      assert head !in rest;
      var r := [head] + rest;
      forall p, q | 0 <= p < q < |r| ensures r[p] != r[q] {
        assert r[q] == rest[q - 1];
        if p > 0 {
          assert r[p] == rest[p - 1];
        } else {
          assert rest[q - 1] in rest;
        }
      }
    }
  }

  /** Insertion keeps a ranked list ranked. */
  lemma {:induction false} InsertSorted(f: seq<Feature>, j: nat, s: seq<nat>)
    requires j < |f| && Below(s, |f|) && SortedBy(f, s)
    ensures SortedBy(f, Insert(f, j, s))
    decreases |s|
  {
    var r := Insert(f, j, s);
    if s == [] {
    } else if FeatureLe(f[j], f[s[0]]) {
      assert r == [j] + s;
      forall p, q | 0 <= p < q < |r| ensures FeatureLe(f[r[p]], f[r[q]]) {
        if p == 0 {
          assert r[q] == s[q - 1];
          if q > 1 {
            assert FeatureLe(f[s[0]], f[s[q - 1]]);
          }
        } else {
          assert r[p] == s[p - 1] && r[q] == s[q - 1];
        }
      }
    } else {
      var rest := Insert(f, j, s[1..]);
      assert r == [s[0]] + rest;
      InsertSorted(f, j, s[1..]);
      forall p, q | 0 <= p < q < |r| ensures FeatureLe(f[r[p]], f[r[q]]) {
        if p == 0 {
          var x := r[q];
          assert x == rest[q - 1];
          assert x in rest;
          if x != j {
            assert x in s[1..];
            var k :| 0 <= k < |s[1..]| && s[1..][k] == x;
            assert s[k + 1] == x;
          }
        } else {
          assert r[p] == rest[p - 1] && r[q] == rest[q - 1];
        }
      }
    }
  }

  /** Ranks the first `m` indices of `f` by insertion. */
  function ArgSortPrefix(f: seq<Feature>, m: nat): (r: seq<nat>)
    requires m <= |f|
    ensures |r| == m && Below(r, |f|) && Distinct(r)
    ensures forall x: nat :: x in r <==> x < m
  {
    if m == 0 then []
    else
      var prev := ArgSortPrefix(f, m - 1);
      InsertDistinct(f, m - 1, prev);
      var r := Insert(f, m - 1, prev);
      r
  }

  lemma {:induction false} ArgSortPrefixSorted(f: seq<Feature>, m: nat)
    requires m <= |f|
    ensures SortedBy(f, ArgSortPrefix(f, m))
    decreases m
  {
    if m > 0 {
      ArgSortPrefixSorted(f, m - 1);
      InsertSorted(f, m - 1, ArgSortPrefix(f, m - 1));
    }
  }

  /** One valid `np.argsort`, by insertion. A new index goes before the first
      entry whose feature is not below its own, so among equal features the
      later index comes first. */
  function ArgSort(f: seq<Feature>): (r: seq<nat>)
    ensures IsArgSort(f, r)
  {
    ArgSortPrefixSorted(f, |f|);
    ArgSortPrefix(f, |f|)
  }

  /** What `np.argsort` returns: for every feature vector, one of the sorting
      permutations it allows. Which one it picks among equal features is up to
      numpy's sort, so the model leaves it open. */
  type Ranking = rank: seq<Feature> -> seq<nat> | forall f :: IsArgSort(f, rank(f)) witness ArgSort

  // ---------------------------------------------------------------------------
  // Median split
  // ---------------------------------------------------------------------------

  /** `key_bits[indices[n // 2:]] = 1` on a zero array of length `n`: the
      point ranked `p` gets bit 1 exactly when `p` lies in the upper half of the
      ranking, so `n - n / 2` points get bit 1 and the other `n / 2` bit 0. */
  function MedianSplit(order: seq<nat>, n: nat): (r: seq<Bit>)
    requires IsPermutation(order, n)
    ensures |r| == n
    ensures forall p :: 0 <= p < n ==> (r[order[p]] == 1 <==> p >= n / 2)
    ensures CountOnes(r) == n - n / 2
  {
    UpperHalfOnes(order, n);
    SetOnes(Zeros(n), order[n / 2..])
  }

  lemma UpperHalfOnes(order: seq<nat>, n: nat)
    requires IsPermutation(order, n)
    ensures Below(order[n / 2..], n)
    ensures forall p :: 0 <= p < n ==> (SetOnes(Zeros(n), order[n / 2..])[order[p]] == 1 <==> p >= n / 2)
    ensures CountOnes(SetOnes(Zeros(n), order[n / 2..])) == n - n / 2
  {
    var h := n / 2;
    var upper := order[h..];
    assert Distinct(upper) by {
      forall p, q | 0 <= p < q < |upper| ensures upper[p] != upper[q] {
        assert upper[p] == order[h + p] && upper[q] == order[h + q];
      }
    }
    assert Below(upper, n) by {
      forall k | 0 <= k < |upper| ensures upper[k] < n {
        assert upper[k] == order[h + k];
      }
    }
    forall p | 0 <= p < n ensures SetOnes(Zeros(n), upper)[order[p]] == 1 <==> p >= h {
      SetOnesAt(Zeros(n), upper, order[p]);
      if p >= h {
        assert upper[p - h] == order[p];
      }
    }
    CountOnesZeros(n);
    CountOnesSetOnes(Zeros(n), upper);
  }

  /** Every point with bit 1 has a feature at least that of every point with
      bit 0, whichever sorting permutation the ranking came from. */
  lemma MedianSplitOrdered(f: seq<Feature>, order: seq<nat>)
    requires IsArgSort(f, order)
    ensures forall a, b ::
              (0 <= a < |f| && 0 <= b < |f| && MedianSplit(order, |f|)[a] == 1 && MedianSplit(order, |f|)[b] == 0)
              ==> FeatureLe(f[b], f[a])
  {
    var n := |f|;
    var bits := MedianSplit(order, n);
    forall a, b | 0 <= a < n && 0 <= b < n && bits[a] == 1 && bits[b] == 0
      ensures FeatureLe(f[b], f[a])
    {
      assert a in order && b in order;
      var p :| 0 <= p < n && order[p] == a;
      var q :| 0 <= q < n && order[q] == b;
      assert q < n / 2 <= p;
    }
  }

  // ---------------------------------------------------------------------------
  // Packing, fallback and clamping
  // ---------------------------------------------------------------------------

  /** The packed first 256 bits of the median split (`key_bits[:256]`). */
  function PackedCandidate(f: seq<Feature>, order: seq<nat>): (r: nat)
    requires IsArgSort(f, order)
    ensures r < Pow2(KeyBits)
  {
    var bits := Take(MedianSplit(order, |f|), KeyBits);
    Pow2Monotone(|bits|, KeyBits);
    Pack(bits)
  }

  /** The packed candidate is the big-endian value of the first 256 median-split
      bits: bit k weighs 2^(255-k) when the lattice has at least 256 points. */
  lemma PackedCandidateValue(f: seq<Feature>, order: seq<nat>)
    requires IsArgSort(f, order) && |f| >= KeyBits
    ensures PackedCandidate(f, order) == Positional(MedianSplit(order, |f|)[..KeyBits])
  {
    PackIsPositional(MedianSplit(order, |f|)[..KeyBits]);
  }

  predicate ValidChoice(c: seq<nat>) {
    |c| == FallbackOnes && Below(c, KeyBits) && Distinct(c)
  }

  /** One draw of `np.random.choice(256, 128, replace=False)`: 128 distinct
      positions among 256. */
  type Choice = c: seq<nat> | ValidChoice(c) witness seq(FallbackOnes, (i: int) requires 0 <= i => i as nat)

  /** The all-zero fallback pattern: ones exactly at the drawn positions. */
  function FallbackBits(c: Choice): (r: seq<Bit>)
    ensures |r| == KeyBits
    ensures CountOnes(r) == FallbackOnes
    ensures forall j :: 0 <= j < KeyBits ==> (r[j] == 1 <==> j in c)
  {
    CountOnesZeros(KeyBits);
    CountOnesSetOnes(Zeros(KeyBits), c);
    assert forall j :: 0 <= j < KeyBits ==> (SetOnes(Zeros(KeyBits), c)[j] == 1 <==> j in c) by {
      forall j | 0 <= j < KeyBits ensures SetOnes(Zeros(KeyBits), c)[j] == 1 <==> j in c {
        SetOnesAt(Zeros(KeyBits), c, j);
      }
    }
    SetOnes(Zeros(KeyBits), c)
  }

  /** The fallback pattern packs to a non-zero integer below 2^256. */
  lemma FallbackNonZero(c: Choice)
    ensures 0 < Pack(FallbackBits(c)) < Pow2(KeyBits)
  {
    CountOnesZeroIff(FallbackBits(c));
    PackZeroIff(FallbackBits(c));
  }

  /** `max(SEARCH_START, min(SEARCH_END, k))`. */
  function Clamp(k: int): (r: nat)
    ensures SearchStart <= r <= SearchEnd
    ensures SearchStart <= k <= SearchEnd ==> r == k
    ensures k < SearchStart ==> r == SearchStart
    ensures k > SearchEnd ==> r == SearchEnd
  {
    if k < SearchStart then SearchStart else if k > SearchEnd then SearchEnd else k
  }

  /** The candidate key: the packed median split, or the fallback pattern when
      that is zero, clamped into the key range. */
  function Candidate(f: seq<Feature>, order: seq<nat>, fallback: Choice): (r: nat)
    requires IsArgSort(f, order)
    ensures SearchStart <= r <= SearchEnd
  {
    var packed := PackedCandidate(f, order);
    if packed == 0 then Clamp(Pack(FallbackBits(fallback))) else Clamp(packed)
  }

  /** A non-zero packed median split within range is the candidate itself; the
      random fallback is consulted only when the packed bits are all zero, and
      then yields a clamped pattern with exactly 128 ones. */
  lemma CandidateCases(f: seq<Feature>, order: seq<nat>, fallback: Choice)
    requires IsArgSort(f, order)
    ensures var packed := PackedCandidate(f, order);
      && (0 < packed <= SearchEnd ==> Candidate(f, order, fallback) == packed)
      && (packed > SearchEnd ==> Candidate(f, order, fallback) == SearchEnd)
      && (packed != 0 ==> forall c: Choice :: Candidate(f, order, c) == Candidate(f, order, fallback))
      && (packed == 0 ==> (Candidate(f, order, fallback) == Clamp(Pack(FallbackBits(fallback)))
                           && Pack(FallbackBits(fallback)) > 0))
  {
    FallbackNonZero(fallback);
  }

  /** The candidate as numpy computes it. Both packing loops run on an
      `np.int64` accumulator, so the zero test and the clamp see only the low 64
      bits of each pattern, read as a signed number: the key never reaches
      2^63, and a negative accumulator is clamped to 1. */
  function CandidateAsWritten(f: seq<Feature>, order: seq<nat>, fallback: Choice): (r: nat)
    requires IsArgSort(f, order)
    ensures SearchStart <= r < Int64Half
  {
    var bits := Take(MedianSplit(order, |f|), KeyBits);
    var packed := PackInt64(bits);
    Clamp(if packed == 0 then PackInt64(FallbackBits(fallback)) else packed)
  }

  /** Where the two computations part: for a non-zero packed median split, the
      int64 loop yields the intended candidate exactly when the split packs
      below 2^63. */
  lemma CandidateAsWrittenAgrees(f: seq<Feature>, order: seq<nat>, fallback: Choice)
    requires IsArgSort(f, order)
    requires PackedCandidate(f, order) != 0
    ensures CandidateAsWritten(f, order, fallback) == Candidate(f, order, fallback)
            <==> PackedCandidate(f, order) < Int64Half
  {
    var bits := Take(MedianSplit(order, |f|), KeyBits);
    if PackedCandidate(f, order) < Int64Half {
      assert PackInt64(bits) == PackedCandidate(f, order);
    }
  }

  // ---------------------------------------------------------------------------
  // Extraction
  // ---------------------------------------------------------------------------

  /** The validator's reply: whether the key derives the target address, and the
      key's WIF encoding when it does. */
  datatype Validation = Validation(matched: bool, wif: string)

  /** The address check (`validate_key`), an opaque oracle of the key and the
      target address. */
  type Validator = (nat, string) -> Validation

  /** The triple `extract` returns, with the candidate history after the call. */
  datatype Extraction = Extraction(key: nat, success: bool, wif: string, history: seq<nat>)

  /** `KeyExtractor.extract` from the feature vector on: `order` is the ranking
      `np.argsort` returned and `fallback` the draw used if the packed bits are
      all zero. */
  function Extract(f: seq<Feature>, order: seq<nat>, fallback: Choice, target: string,
                   validate: Validator, history: seq<nat>): (r: Extraction)
    requires IsArgSort(f, order)
    ensures SearchStart <= r.key <= SearchEnd
    ensures r.key == Candidate(f, order, fallback)
    ensures validate(r.key, target) == Validation(r.success, r.wif)
    ensures r.success ==> r.history == history + [r.key]
    ensures !r.success ==> r.history == history
  {
    var key := Candidate(f, order, fallback);
    var v := validate(key, target);
    Extraction(key, v.matched, v.wif, if v.matched then history + [key] else history)
  }
}
