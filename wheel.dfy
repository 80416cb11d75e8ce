/** The fixed topology of a European (single-zero) roulette wheel: the 37
    pockets in their physical order, read circularly, the inverse map from a
    pocket number to its place on the wheel, and the circular spans of
    consecutive pockets that the block scorer ranks.

    Spans and their lemmas are stated for any wheel order `w` that passes
    `IsWheel`; `WheelIsPermutation` shows that the European order does. */
module Wheel {

  /** Number of pockets on the wheel (`wheel_len`). */
  const Size: nat := 37

  /** The pocket numbers in physical order around the wheel, starting at zero. */
  const Sequence: seq<int> := [
    0, 32, 15, 19, 4, 21, 2, 25, 17, 34, 6, 27, 13, 36, 11, 30, 8, 23, 10,
    5, 24, 16, 33, 1, 20, 14, 31, 9, 22, 18, 29, 7, 28, 12, 35, 3, 26
  ]

  /** The wheel's inverse: pocket number to its index in `Sequence`. */
  const IndexMap: map<int, nat> := IndexMapOf(Sequence)

  predicate IsPocket(n: int) {
    0 <= n < Size
  }

  ghost predicate Distinct(s: seq<int>) {
    forall i, j | 0 <= i < j < |s| :: s[i] != s[j]
  }

  /** A wheel order: 37 distinct pocket numbers. */
  ghost predicate IsWheel(w: seq<int>) {
    && |w| == Size
    && (forall a | 0 <= a < |w| :: IsPocket(w[a]))
    && Distinct(w)
  }

  /** The dictionary built by enumerating `s` and mapping each element to its
      index; a later occurrence of a value overwrites an earlier one, as a
      dictionary comprehension does. */
  function IndexMapOf(s: seq<int>): (m: map<int, nat>)
    ensures forall x :: x in m <==> x in s
    ensures forall x | x in m :: m[x] < |s| && s[m[x]] == x
  {
    if s == [] then map[]
    else IndexMapOf(s[..|s| - 1])[s[|s| - 1] := |s| - 1]
  }

  /** For a sequence without repetitions, the enumerated dictionary sends
      every element back to its own index. */
  lemma {:induction false} IndexMapOfDistinct(s: seq<int>)
    requires Distinct(s)
    ensures Inverts(IndexMapOf(s), s)
  {
    if s != [] {
      var init := s[..|s| - 1];
      assert Distinct(init);
      IndexMapOfDistinct(init);
      forall i | 0 <= i < |s|
        ensures s[i] in IndexMapOf(s) && IndexMapOf(s)[s[i]] == i
      {
        if i < |s| - 1 {
          assert s[i] == init[i];
          assert s[i] != s[|s| - 1];
        }
      }
    }
  }

  /** Where each pocket number sits on the wheel: `Sequence` inverted and
      written out, used only as a witness in the lemma below. */
  ghost const Places: seq<int> := [
    0, 23, 6, 35, 4, 19, 10, 31, 16, 27, 18, 14, 33, 12, 25, 2, 21, 8, 29,
    3, 24, 5, 28, 17, 20, 7, 36, 11, 32, 30, 15, 26, 1, 22, 9, 34, 13
  ]

  /** The European order holds 37 distinct pocket numbers. */
  lemma WheelIsPermutation()
    ensures IsWheel(Sequence)
  {
    forall i | 0 <= i < Size
      ensures IsPocket(Sequence[i]) && Places[Sequence[i]] == i
    {
      match i {
        case 0 => case 1 => case 2 => case 3 => case 4 => case 5 => case 6 =>
        case 7 => case 8 => case 9 => case 10 => case 11 => case 12 =>
        case 13 => case 14 => case 15 => case 16 => case 17 => case 18 =>
        case 19 => case 20 => case 21 => case 22 => case 23 => case 24 =>
        case 25 => case 26 => case 27 => case 28 => case 29 => case 30 =>
        case 31 => case 32 => case 33 => case 34 => case 35 => case _ =>
      }
    }
  }

  /** A wheel order misses no pocket: 37 distinct values drawn from 37
      pockets must take every one of them. */
  lemma WheelCoversPockets(w: seq<int>)
    requires IsWheel(w)
    ensures forall n | IsPocket(n) :: n in w
  {
    var held := set x | x in w;
    var pockets := set n | 0 <= n < Size && Below(n, Size);
    DistinctSetSize(w);
    RangeSize(Size);
    forall n | IsPocket(n)
      ensures n in w
    {
      if n !in w {
        assert held <= pockets - {n};
        SubsetSize(held, pockets - {n});
      }
    }
  }

  lemma {:induction false} DistinctSetSize(s: seq<int>)
    requires Distinct(s)
    ensures |set x | x in s| == |s|
  {
    if s != [] {
      var init, last := s[..|s| - 1], s[|s| - 1];
      assert Distinct(init);
      DistinctSetSize(init);
      assert (set x | x in s) == (set x | x in init) + {last};
      assert last !in (set x | x in init);
    }
  }

  /** Restates `0 <= n < k` as a function term: the range comprehensions
      below repeat their bound through it so that the verifier has a term to
      match on when it counts their elements. */
  predicate Below(n: int, k: nat) {
    0 <= n < k
  }

  lemma {:induction false} RangeSize(k: nat)
    ensures |set n | 0 <= n < k && Below(n, k)| == k
  {
    if k > 0 {
      RangeSize(k - 1);
      var m := k - 1;
      assert (set n | 0 <= n < k && Below(n, k)) == (set n | 0 <= n < m && Below(n, m)) + {m};
    }
  }

  lemma SubsetSize(a: set<int>, b: set<int>)
    requires a <= b
    ensures |a| <= |b|
  {
    assert b == a + (b - a);
  }

  /** `IndexMap` is the inverse of the wheel: its keys are exactly the 37
      pockets, and it and `Sequence` undo each other. */
  lemma IndexMapInvertsWheel()
    ensures forall n :: n in IndexMap <==> IsPocket(n)
    ensures forall i | 0 <= i < Size :: IndexMap[Sequence[i]] == i
    ensures forall n | IsPocket(n) :: IndexMap[n] < Size && Sequence[IndexMap[n]] == n
  {
    WheelIsPermutation();
    WheelCoversPockets(Sequence);
    IndexMapOfDistinct(Sequence);
  }

  /** The `size` pockets that follow one another on wheel `w` from index
      `start` on, wrapping from the last pocket back to the first. */
  function Span(w: seq<int>, start: nat, size: nat): seq<int>
    requires |w| == Size
  {
    seq(size, i requires 0 <= i < size => w[(start + i) % Size])
  }

  /** A span grows by the pocket at the next place on the wheel. */
  lemma SpanExtend(w: seq<int>, start: nat, size: nat)
    requires |w| == Size
    ensures Span(w, start, size + 1) == Span(w, start, size) + [w[(start + size) % Size]]
  {
  }

  /** Every entry of a span is a pocket number. */
  lemma SpanHoldsPockets(w: seq<int>, start: nat, size: nat)
    requires IsWheel(w)
    ensures forall i | 0 <= i < size :: IsPocket(Span(w, start, size)[i])
  {
  }

  /** A span no longer than the wheel repeats no pocket. */
  lemma SpanDistinct(w: seq<int>, start: nat, size: nat)
    requires IsWheel(w) && size <= Size
    ensures Distinct(Span(w, start, size))
  {
    var s := Span(w, start, size);
    forall i, j | 0 <= i < j < size
      ensures s[i] != s[j]
    {
      var a, b := (start + i) % Size, (start + j) % Size;
      PlacesDiffer(start, i, j);
      if a < b {
        assert w[a] != w[b];
      } else {
        assert w[b] != w[a];
      }
    }
  }

  /** Fewer than 37 steps round the wheel never come back to the same place. */
  lemma PlacesDiffer(start: nat, i: nat, j: nat)
    requires i < j < Size
    ensures (start + i) % Size != (start + j) % Size
  {
  }

  /** `m` sends every pocket of wheel order `w` back to its index in `w`. */
  ghost predicate Inverts(m: map<int, nat>, w: seq<int>) {
    forall a | 0 <= a < |w| :: w[a] in m && m[w[a]] == a
  }

  /** Entry `i` of a span is the pocket at wheel index `(start + i) % 37`. */
  lemma SpanPlaces(w: seq<int>, m: map<int, nat>, start: nat, size: nat)
    requires |w| == Size && Inverts(m, w)
    ensures forall i | 0 <= i < size ::
      Span(w, start, size)[i] in m && m[Span(w, start, size)[i]] == (start + i) % Size
  {
    var s := Span(w, start, size);
    forall i | 0 <= i < size
      ensures s[i] in m && m[s[i]] == (start + i) % Size
    {
      assert s[i] == w[(start + i) % Size];
    }
  }

  /** Each entry of `run` is the wheel neighbour of the one before it: its
      place under the inverse map `m` is one more, modulo 37. */
  ghost predicate RunUnder(m: map<int, nat>, run: seq<int>) {
    forall i, j | 0 <= i && j == i + 1 && j < |run| ::
      run[i] in m && run[j] in m && m[run[j]] == (m[run[i]] + 1) % Size
  }

  /** `run` is a run of neighbours on wheel `w`, placed by `w`'s own index map. */
  ghost predicate IsRun(w: seq<int>, run: seq<int>) {
    RunUnder(IndexMapOf(w), run)
  }

  /** A block built by the circular scan is a run of wheel neighbours. */
  lemma SpanContiguous(w: seq<int>, start: nat, size: nat)
    requires IsWheel(w)
    ensures IsRun(w, Span(w, start, size))
  {
    IndexMapOfDistinct(w);
    SpanRunUnder(w, IndexMapOf(w), start, size);
  }

  /** The same for any map that inverts the wheel. */
  lemma SpanRunUnder(w: seq<int>, m: map<int, nat>, start: nat, size: nat)
    requires |w| == Size && Inverts(m, w)
    ensures RunUnder(m, Span(w, start, size))
  {
    SpanPlaces(w, m, start, size);
    forall i, j | 0 <= i && j == i + 1 && j < size
      ensures m[Span(w, start, size)[j]] == (m[Span(w, start, size)[i]] + 1) % Size
    {
      NextPlace(start + i);
    }
  }

  lemma NextPlace(k: nat)
    ensures (k + 1) % Size == (k % Size + 1) % Size
  {
  }
}
