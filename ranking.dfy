/** The stable descending sort that orders scored candidates: Python's
    `sorted(xs, key=score, reverse=True)` keeps equal-keyed items in their
    original order.  The model sorts the POSITIONS 0..|keys|-1 of a list by
    their keys, so that "original order" is visible as the positions
    themselves. */
module Ranking {

  /** Position `j` is placed before position `k` in a stable descending sort:
      its key is larger, or the keys tie and it came first. */
  predicate Before(keys: seq<real>, j: nat, k: nat)
    requires j < |keys| && k < |keys|
  {
    keys[j] > keys[k] || (keys[j] == keys[k] && j < k)
  }

  ghost predicate InRange(keys: seq<real>, order: seq<nat>) {
    forall a | 0 <= a < |order| :: order[a] < |keys|
  }

  /** Every pair of entries of `order` is in `Before` order. */
  ghost predicate SortedBy(keys: seq<real>, order: seq<nat>)
    requires InRange(keys, order)
  {
    forall a, b | 0 <= a < b < |order| :: Before(keys, order[a], order[b])
  }

  /** `order` lists every position of `keys` once, in stable descending order. */
  ghost predicate IsRanking(keys: seq<real>, order: seq<nat>) {
    && |order| == |keys|
    && InRange(keys, order)
    && (forall j | 0 <= j < |keys| :: j in order)
    && SortedBy(keys, order)
  }

  /** Inserts position `j`, which precedes every position already in `order`,
      in front of the first entry whose key does not exceed its own. */
  function Insert(keys: seq<real>, j: nat, order: seq<nat>): (r: seq<nat>)
    requires j < |keys| && InRange(keys, order)
    ensures multiset(r) == multiset(order) + multiset{j}
    ensures InRange(keys, r)
  {
    if order == [] || keys[j] >= keys[order[0]] then [j] + order
    else
      assert order == [order[0]] + order[1..];
      [order[0]] + Insert(keys, j, order[1..])
  }

  /** The positions lo..|keys|-1 sorted by insertion, last one first. */
  function SortFrom(keys: seq<real>, lo: nat): (r: seq<nat>)
    requires lo <= |keys|
    ensures multiset(r) == multiset(Positions(lo, |keys|))
    ensures InRange(keys, r)
    decreases |keys| - lo
  {
    if lo == |keys| then []
    else
      assert Positions(lo, |keys|) == [lo] + Positions(lo + 1, |keys|);
      Insert(keys, lo, SortFrom(keys, lo + 1))
  }

  /** The list `lo, lo + 1, ..., hi - 1`. */
  function Positions(lo: nat, hi: nat): (r: seq<nat>)
    requires lo <= hi
    ensures |r| == hi - lo && forall a | 0 <= a < |r| :: r[a] == lo + a
  {
    seq(hi - lo, a requires 0 <= a < hi - lo => lo + a)
  }

  /** The order in which a stable descending sort lists the positions of `keys`. */
  function Order(keys: seq<real>): (r: seq<nat>)
    ensures |r| == |keys| && InRange(keys, r)
  {
    var r := SortFrom(keys, 0);
    assert |r| == |multiset(r)| == |multiset(Positions(0, |keys|))|;
    r
  }

  /** Inserting a position that precedes all others keeps the list sorted. */
  lemma {:induction false} InsertSorted(keys: seq<real>, j: nat, order: seq<nat>)
    requires j < |keys| && InRange(keys, order) && SortedBy(keys, order)
    requires forall a | 0 <= a < |order| :: j < order[a]
    ensures SortedBy(keys, Insert(keys, j, order))
  {
    var r := Insert(keys, j, order);
    if order == [] || keys[j] >= keys[order[0]] {
      forall a, b | 0 <= a < b < |r|
        ensures Before(keys, r[a], r[b])
      {
        if a == 0 {
          assert r[b] == order[b - 1];
          assert Before(keys, j, order[0]);
          if b > 1 {
            assert Before(keys, order[0], order[b - 1]);
          }
        } else {
          assert r[a] == order[a - 1] && r[b] == order[b - 1];
        }
      }
    } else {
      var tail := order[1..];
      InsertSorted(keys, j, tail);
      var t := Insert(keys, j, tail);
      assert r == [order[0]] + t;
      forall a, b | 0 <= a < b < |r|
        ensures Before(keys, r[a], r[b])
      {
        if a == 0 {
          var x := r[b];
          assert x == t[b - 1] && x in multiset(t);
          if x != j {
            assert x in multiset(tail);
            var c :| 0 <= c < |tail| && tail[c] == x;
            assert Before(keys, order[0], order[c + 1]);
          }
        } else {
          assert r[a] == t[a - 1] && r[b] == t[b - 1];
        }
      }
    }
  }

  lemma {:induction false} SortFromSorted(keys: seq<real>, lo: nat)
    requires lo <= |keys|
    ensures SortedBy(keys, SortFrom(keys, lo))
    decreases |keys| - lo
  {
    if lo < |keys| {
      var rest := SortFrom(keys, lo + 1);
      SortFromSorted(keys, lo + 1);
      forall a | 0 <= a < |rest|
        ensures lo < rest[a]
      {
        assert rest[a] in multiset(Positions(lo + 1, |keys|));
      }
      InsertSorted(keys, lo, rest);
    }
  }

  /** The stable sort lists every position exactly once, in `Before` order. */
  lemma OrderIsRanking(keys: seq<real>)
    ensures IsRanking(keys, Order(keys))
  {
    var r := Order(keys);
    SortFromSorted(keys, 0);
    forall j | 0 <= j < |keys|
      ensures j in r
    {
      assert Positions(0, |keys|)[j] == j;
      assert j in multiset(Positions(0, |keys|));
    }
  }

  /** `Before` leaves no room for a second ranking: any two lists that each
      hold every position once in `Before` order are the same list.  So the
      stable sort above and any other stable descending sort agree. */
  lemma RankingUnique(keys: seq<real>, o1: seq<nat>, o2: seq<nat>)
    requires IsRanking(keys, o1) && IsRanking(keys, o2)
    ensures o1 == o2
  {
    SameElementsSame(keys, o1, o2);
  }

  lemma {:induction false} SameElementsSame(keys: seq<real>, o1: seq<nat>, o2: seq<nat>)
    requires InRange(keys, o1) && SortedBy(keys, o1)
    requires InRange(keys, o2) && SortedBy(keys, o2)
    requires forall x :: x in o1 <==> x in o2
    ensures o1 == o2
  {
    if o1 != [] || o2 != [] {
      HeadsAgree(keys, o1, o2);
      var t1, t2 := o1[1..], o2[1..];
      forall z
        ensures z in t1 <==> z in t2
      {
        if z in t1 {
          TailMember(keys, o1, o2, z);
        }
        if z in t2 {
          TailMember(keys, o2, o1, z);
        }
      }
      SameElementsSame(keys, t1, t2);
      assert o1 == [o1[0]] + t1 && o2 == [o2[0]] + t2;
    }
  }

  /** Two rankings of the same positions start with the same position: the
      head of each is `Before` every other entry of both. */
  lemma HeadsAgree(keys: seq<real>, o1: seq<nat>, o2: seq<nat>)
    requires InRange(keys, o1) && SortedBy(keys, o1)
    requires InRange(keys, o2) && SortedBy(keys, o2)
    requires forall x :: x in o1 <==> x in o2
    requires o1 != [] || o2 != []
    ensures o1 != [] && o2 != [] && o1[0] == o2[0]
  {
    if o1 != [] {
      assert o1[0] in o1;
    }
    if o2 != [] {
      assert o2[0] in o2;
    }
    var a :| 0 <= a < |o2| && o2[a] == o1[0];
    var b :| 0 <= b < |o1| && o1[b] == o2[0];
  }

  /** An entry of the tail of one ranking lies in the tail of the other,
      once the heads agree. */
  lemma TailMember(keys: seq<real>, o1: seq<nat>, o2: seq<nat>, z: nat)
    requires InRange(keys, o1) && SortedBy(keys, o1)
    requires forall x :: x in o1 <==> x in o2
    requires o1 != [] && o2 != [] && o1[0] == o2[0]
    requires z in o1[1..]
    ensures z in o2[1..]
  {
    var c :| 0 <= c < |o1| - 1 && o1[1..][c] == z;
    assert Before(keys, o1[0], o1[c + 1]);
    assert z in o1;
    var d :| 0 <= d < |o2| && o2[d] == z;
    assert o2[1..][d - 1] == z;
  }

  /** When all keys tie, the positions in their original order are the ranking. */
  lemma TiesKeepPositions(keys: seq<real>)
    requires forall j | 0 <= j < |keys| :: keys[j] == keys[0]
    ensures IsRanking(keys, Positions(0, |keys|))
  {
    var scan := Positions(0, |keys|);
    forall j | 0 <= j < |keys|
      ensures j in scan
    {
      assert scan[j] == j;
    }
  }
}
