/** The feature encoder: a window of recent outcomes becomes a flat one-hot
    vector with one slice of `n` entries per window position; entry
    `i * n + num` is 1 when position `i` of the window holds the number
    `num`. Numbers outside 0..n-1 are skipped, not rejected. */
module FeatureEncoder {
  import opened IndexErrors

  /** Default number of possible outcomes (pockets 0..36). */
  const NumOutcomes: nat := 37
  /** Default number of window positions encoded. */
  const SequenceLength: nat := 5

  /** Feature `k` is set when window position `k / n` holds the number `k % n`. */
  predicate IsSet(window: seq<int>, n: nat, k: nat) {
    n > 0 && k / n < |window| && window[k / n] == k % n
  }

  /** The vector the encoder produces for `window`. */
  function FeatureVector(window: seq<int>, n: nat, len: nat): (v: seq<int>)
    ensures |v| == n * len
    ensures forall k | 0 <= k < |v| :: v[k] == 0 || v[k] == 1
  {
    seq(n * len, k requires 0 <= k < n * len => if IsSet(window, n, k) then 1 else 0)
  }

  /** Window position `i` lies at or past `len` and holds an in-range number,
      so its feature index falls past the end of the vector. */
  predicate Misfit(window: seq<int>, n: nat, len: nat, i: nat) {
    len <= i < |window| && 0 <= window[i] < n
  }

  /** No window position writes past the end of the vector. */
  predicate Fits(window: seq<int>, n: nat, len: nat) {
    forall i | 0 <= i < |window| :: !Misfit(window, n, len, i)
  }

  /** The first window position from `m` on that writes past the end of the
      vector, or `|window|` when there is none. */
  function FirstMisfit(window: seq<int>, n: nat, len: nat, m: nat): (r: nat)
    requires m <= |window|
    ensures m <= r <= |window|
    ensures forall k | m <= k < r :: !Misfit(window, n, len, k)
    ensures r < |window| ==> Misfit(window, n, len, r)
    decreases |window| - m
  {
    if m == |window| then m
    else if Misfit(window, n, len, m) then m
    else FirstMisfit(window, n, len, m + 1)
  }

  /** `_prepare_features`: zero a vector of `n * len` entries, then for each
      window position holding an in-range number set its one entry; a
      position at or past `len` with an in-range number writes past the end
      of the vector and stops the encoder with an `IndexError`. */
  method PrepareFeatures(window: seq<int>, n: nat, len: nat) returns (r: Result<seq<int>>)
    ensures r.Ok? <==> Fits(window, n, len)
    ensures r.Ok? ==> r.value == FeatureVector(window, n, len)
    ensures r.IndexOutOfRange? ==>
      var i := FirstMisfit(window, n, len, 0);
      && i < |window|
      && r.index == FeatureIndex(i, n, window[i])
      && r.size == n * len
      && r.index >= r.size
  {
    var a := new int[n * len](_ => 0);
    EmptyWindow(a[..], n, len);
    for i := 0 to |window|
      invariant a.Length == n * len
      invariant a[..] == FeatureVector(window[..i], n, len)
      invariant forall k | 0 <= k < i :: !Misfit(window, n, len, k)
    {
      var num := window[i];
      MisfitAt(window, i, n, len);
      if 0 <= num < n && FeatureIndex(i, n, num) >= a.Length {
        FirstMisfitAt(window, n, len, i);
        return IndexOutOfRange(FeatureIndex(i, n, num), a.Length);
      }
      EncodeStep(window, i, n, len);
      if 0 <= num < n {
        a[FeatureIndex(i, n, num)] := 1;
      }
    }
    assert window[..|window|] == window;
    r := Ok(a[..]);
  }

  /** A misfit with none before it is the first one, and the window does not fit. */
  lemma FirstMisfitAt(window: seq<int>, n: nat, len: nat, i: nat)
    requires Misfit(window, n, len, i)
    requires forall k | 0 <= k < i :: !Misfit(window, n, len, k)
    ensures FirstMisfit(window, n, len, 0) == i && !Fits(window, n, len)
  {
    var r := FirstMisfit(window, n, len, 0);
    assert !(r < i) && !(r > i);
  }

  /** The zeroed vector is the encoding of the empty window. */
  lemma EmptyWindow(z: seq<int>, n: nat, len: nat)
    requires |z| == n * len && forall k | 0 <= k < |z| :: z[k] == 0
    ensures z == FeatureVector([], n, len)
  {
  }

  /** Position `i` writes past the end of the vector exactly when it holds
      an in-range number whose feature index is not below `n * len`. */
  lemma MisfitAt(window: seq<int>, i: nat, n: nat, len: nat)
    requires i < |window|
    ensures Misfit(window, n, len, i) <==>
      0 <= window[i] < n && FeatureIndex(i, n, window[i]) >= n * len
  {
    if 0 <= window[i] < n {
      if i < len {
        SlotInVector(i, window[i], n, len);
      } else {
        MulLe(len, i, n);
      }
    }
  }

  /** One turn of the encoder's loop: the vector for the first `i + 1`
      entries is the one for the first `i` with at most the new bit set. */
  lemma EncodeStep(window: seq<int>, i: nat, n: nat, len: nat)
    requires i < |window| && !Misfit(window, n, len, i)
    ensures 0 <= window[i] < n ==>
      FeatureIndex(i, n, window[i]) < n * len &&
      FeatureVector(window[..i + 1], n, len) == FeatureVector(window[..i], n, len)[FeatureIndex(i, n, window[i]) := 1]
    ensures !(0 <= window[i] < n) ==> FeatureVector(window[..i + 1], n, len) == FeatureVector(window[..i], n, len)
  {
    assert window[..i + 1] == window[..i] + [window[i]];
    FeatureVectorAppend(window[..i], window[i], n, len);
  }

  /** `feature_index`: the entry that stands for number `num` at window position `i`. */
  function FeatureIndex(i: nat, n: nat, num: nat): nat {
    i * n + num
  }

  /** Bit `FeatureIndex(i, n, v)` is set exactly when window position `i`
      holds `v`. */
  lemma OneHotExact(window: seq<int>, n: nat, len: nat)
    ensures forall i, v | 0 <= i < len && 0 <= v < n ::
      FeatureIndex(i, n, v) < n * len &&
      (FeatureVector(window, n, len)[FeatureIndex(i, n, v)] == 1 <==> i < |window| && window[i] == v)
  {
    forall i, v | 0 <= i < len && 0 <= v < n
      ensures FeatureIndex(i, n, v) < n * len
      ensures FeatureVector(window, n, len)[FeatureIndex(i, n, v)] == 1 <==> i < |window| && window[i] == v
    {
      SlotInVector(i, v, n, len);
    }
  }

  /** Each position's slice of `n` entries holds at most one 1. */
  lemma OnePerPosition(window: seq<int>, n: nat, len: nat)
    ensures forall i, v, w | 0 <= i < len && 0 <= v < n && 0 <= w < n ::
      FeatureIndex(i, n, v) < n * len && FeatureIndex(i, n, w) < n * len &&
      ((FeatureVector(window, n, len)[FeatureIndex(i, n, v)] == 1 &&
        FeatureVector(window, n, len)[FeatureIndex(i, n, w)] == 1) ==> v == w)
  {
    OneHotExact(window, n, len);
  }

  /** Number of entries equal to 1. */
  function Ones(v: seq<int>): nat {
    if v == [] then 0 else Ones(v[..|v| - 1]) + (if v[|v| - 1] == 1 then 1 else 0)
  }

  /** Number of window entries that are in range 0..n-1. */
  function InRangeCount(window: seq<int>, n: nat): nat {
    if window == [] then 0
    else InRangeCount(window[..|window| - 1], n) + (if 0 <= window[|window| - 1] < n then 1 else 0)
  }

  /** The vector holds exactly one 1 per in-range number of the window. */
  lemma {:induction false} OnesCountInRange(window: seq<int>, n: nat, len: nat)
    requires Fits(window, n, len)
    ensures Ones(FeatureVector(window, n, len)) == InRangeCount(window, n)
  {
    if window == [] {
      NoOnes(FeatureVector(window, n, len));
    } else {
      var w, x := window[..|window| - 1], window[|window| - 1];
      assert window == w + [x];
      FitsSplit(w, x, n, len);
      OnesCountInRange(w, n, len);
      OnesAppend(w, x, n, len);
    }
  }

  /** A window that fits ends in a number that writes inside the vector,
      after a prefix that fits. */
  lemma FitsSplit(w: seq<int>, x: int, n: nat, len: nat)
    requires Fits(w + [x], n, len)
    ensures Fits(w, n, len) && (|w| < len || !(0 <= x < n))
  {
    forall i | 0 <= i < |w|
      ensures !Misfit(w, n, len, i)
    {
      assert (w + [x])[i] == w[i];
      assert !Misfit(w + [x], n, len, i);
    }
    assert !Misfit(w + [x], n, len, |w|);
  }

  /** Appending an in-range number adds one 1 to the vector; appending any
      other number adds none. */
  lemma OnesAppend(w: seq<int>, x: int, n: nat, len: nat)
    requires |w| < len || !(0 <= x < n)
    ensures Ones(FeatureVector(w + [x], n, len)) ==
      Ones(FeatureVector(w, n, len)) + (if 0 <= x < n then 1 else 0)
  {
    FeatureVectorAppend(w, x, n, len);
    if 0 <= x < n {
      OnesUpdate(FeatureVector(w, n, len), FeatureIndex(|w|, n, x));
    }
  }

  /** Appending a number to the window sets at most the one new bit. */
  lemma FeatureVectorAppend(w: seq<int>, x: int, n: nat, len: nat)
    requires |w| < len || !(0 <= x < n)
    ensures 0 <= x < n ==>
      FeatureIndex(|w|, n, x) < n * len &&
      FeatureVector(w, n, len)[FeatureIndex(|w|, n, x)] == 0 &&
      FeatureVector(w + [x], n, len) == FeatureVector(w, n, len)[FeatureIndex(|w|, n, x) := 1]
    ensures !(0 <= x < n) ==> FeatureVector(w + [x], n, len) == FeatureVector(w, n, len)
  {
    var before, after := FeatureVector(w, n, len), FeatureVector(w + [x], n, len);
    if 0 <= x < n {
      SlotInVector(|w|, x, n, len);
    }
    forall k | 0 <= k < n * len
      ensures after[k] == if 0 <= x < n && k == |w| * n + x then 1 else before[k]
    {
      if n > 0 {
        DivModSplit(k, n);
        if k / n == |w| && k % n == x {
          assert k == |w| * n + x;
        }
      }
    }
  }

  /** Entry `i * n + v` lies in the slice of position `i`, at offset `v`. */
  lemma SlotInVector(i: nat, v: nat, n: nat, len: nat)
    requires i < len && v < n
    ensures i * n + v < n * len
    ensures (i * n + v) / n == i && (i * n + v) % n == v
  {
    MulLe(i + 1, len, n);
    DivModUnique(i * n + v, n, i, v);
  }

  lemma MulLe(a: nat, b: nat, n: nat)
    requires a <= b
    ensures a * n <= b * n
  {
    assert b * n == a * n + (b - a) * n;
  }

  lemma DivModSplit(k: nat, n: nat)
    requires n > 0
    ensures k == (k / n) * n + k % n && 0 <= k % n < n
  {
  }

  lemma DivModUnique(k: nat, n: nat, q: nat, r: nat)
    requires r < n && k == q * n + r
    ensures k / n == q && k % n == r
  {
    DivModSplit(k, n);
    var q', r' := k / n, k % n;
    assert (q - q') * n == r' - r;
    if q > q' {
      MulLe(1, q - q', n);
    } else if q < q' {
      MulLe(1, q' - q, n);
    }
  }

  lemma {:induction false} OnesUpdate(v: seq<int>, k: nat)
    requires k < |v| && v[k] == 0
    ensures Ones(v[k := 1]) == Ones(v) + 1
  {
    var u := v[k := 1];
    if k < |v| - 1 {
      assert u[..|u| - 1] == v[..|v| - 1][k := 1];
      OnesUpdate(v[..|v| - 1], k);
    } else {
      assert u[..|u| - 1] == v[..|v| - 1];
    }
  }

  lemma {:induction false} NoOnes(v: seq<int>)
    requires forall k | 0 <= k < |v| :: v[k] == 0
    ensures Ones(v) == 0
  {
    if v != [] {
      NoOnes(v[..|v| - 1]);
    }
  }
}
