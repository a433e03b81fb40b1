/** The resequencing engine behind `ResequenceCardsInColumn` and `ResequenceColumns`
    in Board.cs: take the elements of one group in list order, order them by their
    current position with a stable sort (LINQ `OrderBy`), then give the k-th one
    position k. Elements are named by their index in the owning list; `keys` holds
    every element's current position. */
module Ordering {

  predicate Distinct<T(==)>(xs: seq<T>)
  {
    forall a, b | 0 <= a < b < |xs| :: xs[a] != xs[b]
  }

  /** Every index in `xs` names an element of `keys`. */
  predicate InRange(keys: seq<nat>, xs: seq<nat>)
  {
    forall k | 0 <= k < |xs| :: xs[k] < |keys|
  }

  /** The order a stable sort by position produces on a list given in index order:
      smaller position first, and on equal positions the earlier list entry first. */
  predicate Before(keys: seq<nat>, i: nat, j: nat)
    requires i < |keys| && j < |keys|
  {
    keys[i] < keys[j] || (keys[i] == keys[j] && i < j)
  }

  predicate SortedBy(keys: seq<nat>, xs: seq<nat>)
    requires InRange(keys, xs)
  {
    forall a, b | 0 <= a < b < |xs| :: Before(keys, xs[a], xs[b])
  }

  /** Positions exactly {0..|ps|-1}: every position is below the count and none repeats. */
  predicate Dense(ps: seq<nat>)
  {
    (forall i | 0 <= i < |ps| :: ps[i] < |ps|) && Distinct(ps)
  }

  function Insert(keys: seq<nat>, x: nat, s: seq<nat>): (r: seq<nat>)
    requires x < |keys| && InRange(keys, s)
    ensures multiset(r) == multiset(s) + multiset{x}
    ensures |r| == |s| + 1 && InRange(keys, r)
  {
    if s == [] then [x]
    else if Before(keys, x, s[0]) then [x] + s
    else
      assert s == [s[0]] + s[1..];
      [s[0]] + Insert(keys, x, s[1..])
  }

  lemma {:induction false} InsertSorted(keys: seq<nat>, x: nat, s: seq<nat>)
    requires x < |keys| && InRange(keys, s)
    requires SortedBy(keys, s) && x !in s
    ensures SortedBy(keys, Insert(keys, x, s))
  {
    if s != [] && !Before(keys, x, s[0]) {
      var t := Insert(keys, x, s[1..]);
      InsertSorted(keys, x, s[1..]);
      assert s == [s[0]] + s[1..];
      forall b | 0 <= b < |t| ensures Before(keys, s[0], t[b]) {
        assert t[b] in multiset(t);
        if t[b] != x {
          assert t[b] in s[1..];
        }
      }
    }
  }

  /** `OrderBy(position)` on the elements `xs`, given in list order. */
  function Sort(keys: seq<nat>, xs: seq<nat>): (r: seq<nat>)
    requires InRange(keys, xs)
    ensures multiset(r) == multiset(xs) && |r| == |xs| && InRange(keys, r)
    ensures Distinct(xs) ==> SortedBy(keys, r)
  {
    if xs == [] then []
    else
      assert xs == [xs[0]] + xs[1..];
      var r := Insert(keys, xs[0], Sort(keys, xs[1..]));
      if Distinct(xs) then
        assert xs[0] !in multiset(xs[1..]);
        assert Distinct(xs[1..]);
        InsertSorted(keys, xs[0], Sort(keys, xs[1..]));
        r
      else r
  }

  /** The renumbering loop: the k-th element of `order` is given position k. */
  function Renumbered(keys: seq<nat>, order: seq<nat>): (r: seq<nat>)
    requires InRange(keys, order)
    ensures |r| == |keys|
    ensures Distinct(order) ==> forall k | 0 <= k < |order| :: r[order[k]] == k
    ensures forall i | 0 <= i < |keys| && i !in order :: r[i] == keys[i]
  {
    if order == [] then keys
    else
      var n := |order| - 1;
      assert forall i | i in order[..n] :: i in order;
      Renumbered(keys, order[..n])[order[n] := n]
  }

  /** The positions after resequencing the group `xs`. */
  function Resequenced(keys: seq<nat>, xs: seq<nat>): seq<nat>
    requires InRange(keys, xs)
  {
    Renumbered(keys, Sort(keys, xs))
  }

  /** In a list without repeats a value sits at one index only. */
  lemma DistinctIndexUnique<T>(xs: seq<T>, a: nat, b: nat)
    requires Distinct(xs) && a < |xs| && b < |xs| && xs[a] == xs[b]
    ensures a == b
  {
  }

  /** Sorting a list whose elements are pairwise distinct yields no repeats. */
  lemma SortedIsDistinct(keys: seq<nat>, xs: seq<nat>)
    requires InRange(keys, xs) && SortedBy(keys, xs)
    ensures Distinct(xs)
  {
  }

  /** The index at which `x` sits in `xs`. */
  function Rank(xs: seq<nat>, x: nat): (k: nat)
    requires x in xs
    ensures k < |xs| && xs[k] == x
  {
    if xs[0] == x then 0 else 1 + Rank(xs[1..], x)
  }

  /** Lists with the same multiset have the same members. */
  lemma SameMembers(xs: seq<nat>, ys: seq<nat>)
    requires multiset(xs) == multiset(ys)
    ensures forall i :: i in xs <==> i in ys
  {
    forall i ensures i in xs <==> i in ys {
      assert i in xs <==> i in multiset(xs);
      assert i in ys <==> i in multiset(ys);
    }
  }

  /** After renumbering along a list without repeats, each listed element's new
      position is its rank in that list. */
  lemma RenumberedRank(keys: seq<nat>, order: seq<nat>, i: nat)
    requires InRange(keys, order) && Distinct(order) && i in order
    ensures Renumbered(keys, order)[i] == Rank(order, i)
  {
  }

  /** After resequencing, a group member's position is its rank in the stable order and
      every other element keeps its position. */
  lemma ResequencedRanks(keys: seq<nat>, xs: seq<nat>)
    requires InRange(keys, xs) && Distinct(xs)
    ensures Distinct(Sort(keys, xs)) && forall i :: i in xs <==> i in Sort(keys, xs)
    ensures |Resequenced(keys, xs)| == |keys|
    ensures forall i | 0 <= i < |keys| && i !in xs :: Resequenced(keys, xs)[i] == keys[i]
    ensures forall i | i in xs :: Resequenced(keys, xs)[i] == Rank(Sort(keys, xs), i)
  {
    var order := Sort(keys, xs);
    SortedIsDistinct(keys, order);
    SameMembers(xs, order);
    forall i | i in xs ensures Resequenced(keys, xs)[i] == Rank(order, i) {
      RenumberedRank(keys, order, i);
    }
  }

  /** Resequencing gives the group positions exactly {0..|xs|-1}, ordered as the
      stable sort orders them, and leaves every other element where it was. */
  lemma {:induction false} ResequencedSpec(keys: seq<nat>, xs: seq<nat>)
    requires InRange(keys, xs) && Distinct(xs)
    ensures |Resequenced(keys, xs)| == |keys|
    ensures forall i | 0 <= i < |keys| && i !in xs :: Resequenced(keys, xs)[i] == keys[i]
    ensures forall i | i in xs :: Resequenced(keys, xs)[i] < |xs|
    ensures forall i, j | i in xs && j in xs && i != j :: Resequenced(keys, xs)[i] != Resequenced(keys, xs)[j]
    ensures forall i, j | i in xs && j in xs ::
              Resequenced(keys, xs)[i] < Resequenced(keys, xs)[j] <==> Before(keys, i, j)
  {
    var order := Sort(keys, xs);
    var r := Resequenced(keys, xs);
    ResequencedRanks(keys, xs);
    forall i, j | i in xs && j in xs
      ensures r[i] < r[j] <==> Before(keys, i, j)
    {
      var ki, kj := Rank(order, i), Rank(order, j);
      if ki < kj {
        assert Before(keys, order[ki], order[kj]);
      } else if kj < ki {
        assert Before(keys, order[kj], order[ki]);
      }
    }
  }

  /** A strictly increasing sequence of n naturals below n is 0, 1, ..., n-1. */
  lemma {:induction false} IncreasingBelowLengthIsIdentity(s: seq<nat>)
    requires forall a, b | 0 <= a < b < |s| :: s[a] < s[b]
    requires forall a | 0 <= a < |s| :: s[a] < |s|
    ensures forall a | 0 <= a < |s| :: s[a] == a
  {
    forall a | 0 <= a < |s| ensures s[a] == a {
      AtLeastIndex(s, a);
      AtMostIndex(s, a);
    }
  }

  lemma {:induction false} AtLeastIndex(s: seq<nat>, a: nat)
    requires forall x, y | 0 <= x < y < |s| :: s[x] < s[y]
    requires a < |s|
    ensures s[a] >= a
  {
    if a > 0 { AtLeastIndex(s, a - 1); }
  }

  lemma {:induction false} AtMostIndex(s: seq<nat>, a: nat)
    requires forall x, y | 0 <= x < y < |s| :: s[x] < s[y]
    requires forall x | 0 <= x < |s| :: s[x] < |s|
    requires a < |s|
    ensures s[a] <= a
    decreases |s| - a
  {
    if a < |s| - 1 { AtMostIndex(s, a + 1); }
  }

  /** Resequencing a group whose positions are already exactly {0..|xs|-1} changes nothing. */
  lemma {:induction false} ResequencedDenseIsIdentity(keys: seq<nat>, xs: seq<nat>)
    requires InRange(keys, xs) && Distinct(xs)
    requires forall i | i in xs :: keys[i] < |xs|
    requires forall i, j | i in xs && j in xs && i != j :: keys[i] != keys[j]
    ensures Resequenced(keys, xs) == keys
  {
    var order := Sort(keys, xs);
    var r := Resequenced(keys, xs);
    ResequencedRanks(keys, xs);
    var ks := seq(|order|, k requires 0 <= k < |order| => keys[order[k]]);
    forall a, b | 0 <= a < b < |ks| ensures ks[a] < ks[b] {
      assert Before(keys, order[a], order[b]);
      assert order[a] in xs && order[b] in xs;
    }
    forall a | 0 <= a < |ks| ensures ks[a] < |ks| {
      assert order[a] in xs;
    }
    IncreasingBelowLengthIsIdentity(ks);
    forall i | 0 <= i < |keys| ensures r[i] == keys[i] {
      if i in xs {
        assert ks[Rank(order, i)] == Rank(order, i);
      }
    }
  }

  /** The set of values a sequence takes. */
  function Elements<T>(s: seq<T>): set<T>
  {
    set x | x in s
  }

  /** The set {0..n-1}. */
  function Below(n: nat): (r: set<nat>)
    ensures forall k: nat :: k in r <==> k < n
  {
    if n == 0 then {} else Below(n - 1) + {n - 1}
  }

  lemma {:induction false} BelowSize(n: nat)
    ensures |Below(n)| == n
  {
    if n > 0 {
      BelowSize(n - 1);
    }
  }

  /** A sequence has at most as many distinct values as entries, and exactly as many
      when no value repeats. */
  lemma {:induction false} ElementsSize<T>(s: seq<T>)
    ensures |Elements(s)| <= |s|
    ensures |Elements(s)| == |s| <==> Distinct(s)
  {
    if s != [] {
      var n := |s| - 1;
      var t := s[..n];
      ElementsSize(t);
      assert s == t + [s[n]];
      assert Elements(s) == Elements(t) + {s[n]};
      if s[n] in t {
        assert Elements(s) == Elements(t);
        var k :| 0 <= k < n && t[k] == s[n];
        assert !Distinct(s);
      } else {
        assert Distinct(s) <==> Distinct(t);
      }
    }
  }

  lemma {:induction false} SubsetSize<T>(a: set<T>, b: set<T>)
    requires a <= b
    ensures |a| <= |b|
    ensures |a| == |b| ==> a == b
    decreases |b|
  {
    if b != {} {
      var y :| y in b;
      SubsetSize(a - {y}, b - {y});
      if y in a {
        assert |a - {y}| == |a| - 1;
        assert a == (a - {y}) + {y};
        assert b == (b - {y}) + {y};
      } else {
        assert a - {y} == a;
      }
    }
  }

  /** `Dense` is the density invariant of positions: the positions are exactly
      {0..n-1}, with n the number of elements. */
  lemma DenseIsExactRange(ps: seq<nat>)
    ensures Dense(ps) <==> Elements(ps) == Below(|ps|)
  {
    BelowSize(|ps|);
    ElementsSize(ps);
    if Dense(ps) {
      assert Elements(ps) <= Below(|ps|);
      SubsetSize(Elements(ps), Below(|ps|));
    }
    if Elements(ps) == Below(|ps|) {
      forall i | 0 <= i < |ps| ensures ps[i] < |ps| {
        assert ps[i] in Elements(ps);
      }
    }
  }

  /** Pigeonhole: n distinct values drawn from a duplicate-free list of n values
      use up every value of that list. */
  lemma {:induction false} DistinctCoversAll<T>(xs: seq<T>, ys: seq<T>)
    requires Distinct(xs) && Distinct(ys) && |xs| == |ys|
    requires forall x | x in xs :: x in ys
    ensures forall y | y in ys :: y in xs
  {
    ElementsSize(xs);
    ElementsSize(ys);
    assert Elements(xs) <= Elements(ys);
    SubsetSize(Elements(xs), Elements(ys));
    forall y | y in ys ensures y in xs {
      assert y in Elements(ys);
    }
  }
}
