/** The median rule of BIP 113 (section Specification) by sorting, and the counting facts that
    let one pass over the window check a claimed median. */
module Median {
  import opened Words

  ghost predicate Sorted(s: seq<u32>) {
    forall i, j :: 0 <= i < j < |s| ==> s[i] <= s[j]
  }

  function Insert(x: u32, s: seq<u32>): (r: seq<u32>)
    ensures |r| == |s| + 1
  {
    if s == [] then [x]
    else if x <= s[0] then [x] + s
    else [s[0]] + Insert(x, s[1..])
  }

  function Sort(s: seq<u32>): (r: seq<u32>)
    ensures |r| == |s|
  {
    if s == [] then [] else Insert(s[|s| - 1], Sort(s[..|s| - 1]))
  }

  /** Upper median: element `len / 2` of the sorted window. */
  function MedianOf(w: seq<u32>): (m: u32)
    requires w != []
  {
    Sort(w)[|w| / 2]
  }

  /** Number of elements below a bound. */
  function CountBelow(s: seq<u32>, bound: nat): (n: nat)
    ensures n <= |s|
  {
    if s == [] then 0
    else CountBelow(s[..|s| - 1], bound) + (if s[|s| - 1] < bound then 1 else 0)
  }

  lemma {:induction false} CountConcat(a: seq<u32>, b: seq<u32>, bound: nat)
    ensures CountBelow(a + b, bound) == CountBelow(a, bound) + CountBelow(b, bound)
  {
    if b == [] {
      assert a + b == a;
    } else {
      assert (a + b)[..|a + b| - 1] == a + b[..|b| - 1];
      CountConcat(a, b[..|b| - 1], bound);
    }
  }

  lemma CountOne(x: u32, bound: nat)
    ensures CountBelow([x], bound) == if x < bound then 1 else 0
  {
    assert [x][..0] == [];
  }

  lemma CountCons(s: seq<u32>, bound: nat)
    requires s != []
    ensures CountBelow(s, bound) == (if s[0] < bound then 1 else 0) + CountBelow(s[1..], bound)
  {
    assert s == [s[0]] + s[1..];
    CountConcat([s[0]], s[1..], bound);
    CountOne(s[0], bound);
  }

  lemma CountUpdate(s: seq<u32>, i: nat, x: u32, bound: nat)
    requires i < |s|
    ensures CountBelow(s[i := x], bound) + (if s[i] < bound then 1 else 0)
         == CountBelow(s, bound) + (if x < bound then 1 else 0)
  {
    var t := s[i := x];
    assert t[..i] == s[..i] && t[i + 1..] == s[i + 1..];
    CountRemoved(s, i, bound);
    CountRemoved(t, i, bound);
  }

  /** A set of positions whose elements are not below the bound limits the count. */
  lemma {:induction false} CountAvoids(s: seq<u32>, bound: nat, kept: set<nat>)
    requires forall i :: i in kept ==> i < |s| && s[i] >= bound
    ensures CountBelow(s, bound) + |kept| <= |s|
  {
    if s == [] {
      assert kept == {};
    } else {
      var n := |s| - 1;
      CountAvoids(s[..n], bound, kept - {n});
    }
  }

  // ---- sorting ----

  lemma {:induction false} InsertSorted(x: u32, s: seq<u32>)
    requires Sorted(s)
    ensures Sorted(Insert(x, s))
  {
    if s == [] || x <= s[0] {
    } else {
      InsertSorted(x, s[1..]);
      InsertKeepsLow(x, s[1..], s[0]);
    }
  }

  lemma {:induction false} InsertKeepsLow(x: u32, s: seq<u32>, low: u32)
    requires low <= x && forall i :: 0 <= i < |s| ==> low <= s[i]
    ensures forall i :: 0 <= i < |s| + 1 ==> low <= Insert(x, s)[i]
  {
    if s == [] || x <= s[0] {
    } else {
      InsertKeepsLow(x, s[1..], low);
    }
  }

  lemma {:induction false} InsertPermutes(x: u32, s: seq<u32>)
    ensures multiset(Insert(x, s)) == multiset(s) + multiset{x}
  {
    if s == [] || x <= s[0] {
    } else {
      InsertPermutes(x, s[1..]);
      assert s == [s[0]] + s[1..];
    }
  }

  lemma {:induction false} InsertCounts(x: u32, s: seq<u32>, bound: nat)
    ensures CountBelow(Insert(x, s), bound) == CountBelow(s, bound) + (if x < bound then 1 else 0)
  {
    hide CountBelow;
    if s == [] {
      CountOne(x, bound);
      CountNone(bound);
    } else if x <= s[0] {
      CountConcat([x], s, bound);
      CountOne(x, bound);
    } else {
      var rest := Insert(x, s[1..]);
      InsertCounts(x, s[1..], bound);
      CountConcat([s[0]], rest, bound);
      CountOne(s[0], bound);
      CountCons(s, bound);
    }
  }

  lemma CountNone(bound: nat)
    ensures CountBelow([], bound) == 0
  {}

  lemma {:induction false} SortSorts(s: seq<u32>)
    ensures Sorted(Sort(s)) && multiset(Sort(s)) == multiset(s)
  {
    if s == [] {
    } else {
      var init, x := s[..|s| - 1], s[|s| - 1];
      SortSorts(init);
      InsertSorted(x, Sort(init));
      InsertPermutes(x, Sort(init));
      assert s == init + [x];
    }
  }

  lemma {:induction false} SortCounts(s: seq<u32>, bound: nat)
    ensures CountBelow(Sort(s), bound) == CountBelow(s, bound)
  {
    hide Insert;
    if s == [] {
    } else {
      var init, x := s[..|s| - 1], s[|s| - 1];
      SortCounts(init, bound);
      InsertCounts(x, Sort(init), bound);
    }
  }

  /** In a sorted sequence, exactly the elements of rank below the count are below the bound. */
  lemma {:induction false} SortedRank(t: seq<u32>, k: nat, bound: nat)
    requires Sorted(t) && k < |t|
    ensures t[k] < bound <==> CountBelow(t, bound) > k
  {
    var n := |t| - 1;
    if k < n {
      SortedRank(t[..n], k, bound);
      if t[n] < bound {
        assert t[k] <= t[n];
      }
    } else if t[n] < bound {
      AllBelow(t, bound);
    }
  }

  lemma {:induction false} AllBelow(t: seq<u32>, bound: nat)
    requires forall i :: 0 <= i < |t| ==> t[i] < bound
    ensures CountBelow(t, bound) == |t|
  {
    if t == [] {
    } else {
      AllBelow(t[..|t| - 1], bound);
    }
  }

  /** The median is below a bound exactly when more than half the window is. */
  lemma MedianRank(w: seq<u32>, bound: nat)
    requires w != []
    ensures MedianOf(w) < bound <==> CountBelow(w, bound) > |w| / 2
  {
    hide Sort, CountBelow;
    SortSorts(w);
    SortCounts(w, bound);
    SortedRank(Sort(w), |w| / 2, bound);
  }

  /** The counting check accepts exactly one value, the median, whatever the duplicates. */
  lemma CountingAcceptsMedian(w: seq<u32>, claimed: u32)
    requires w != []
    ensures claimed == MedianOf(w) <==>
            CountBelow(w, claimed) <= |w| / 2 < CountBelow(w, claimed + 1)
  {
    MedianRank(w, claimed);
    MedianRank(w, (claimed as nat) + 1);
  }

  /** The median depends only on which values are in the window, not on their order. */
  lemma MedianIgnoresOrder(a: seq<u32>, b: seq<u32>)
    requires a != [] && multiset(a) == multiset(b)
    ensures |a| == |b| && MedianOf(a) == MedianOf(b)
  {
    assert |a| == |multiset(a)| == |multiset(b)| == |b|;
    hide MedianOf, CountBelow;
    var m := MedianOf(a);
    CountIgnoresOrder(a, b, m);
    CountIgnoresOrder(a, b, (m as nat) + 1);
    CountingAcceptsMedian(a, m);
    CountingAcceptsMedian(b, m);
  }

  lemma {:induction false} CountIgnoresOrder(a: seq<u32>, b: seq<u32>, bound: nat)
    requires multiset(a) == multiset(b)
    ensures CountBelow(a, bound) == CountBelow(b, bound)
  {
    if a == [] {
      assert |b| == |multiset(b)| == 0;
    } else {
      var i := MatchLast(a, b);
      CountIgnoresOrder(a[..|a| - 1], b[..i] + b[i + 1..], bound);
      CountRemoved(b, i, bound);
    }
  }

  lemma MatchLast(a: seq<u32>, b: seq<u32>) returns (i: nat)
    requires a != [] && multiset(a) == multiset(b)
    ensures i < |b| && b[i] == a[|a| - 1]
    ensures multiset(a[..|a| - 1]) == multiset(b[..i] + b[i + 1..])
  {
    var x := a[|a| - 1];
    assert x in multiset(a);
    i :| 0 <= i < |b| && b[i] == x;
    RemoveOne(b, i);
    RemoveOne(a, |a| - 1);
    assert a[..|a| - 1] + a[|a|..] == a[..|a| - 1];
  }

  lemma RemoveOne(b: seq<u32>, i: nat)
    requires i < |b|
    ensures multiset(b[..i] + b[i + 1..]) == multiset(b) - multiset{b[i]}
  {
    assert b == b[..i] + ([b[i]] + b[i + 1..]);
    assert multiset(b) == multiset(b[..i]) + (multiset{b[i]} + multiset(b[i + 1..]));
  }

  lemma CountRemoved(b: seq<u32>, i: nat, bound: nat)
    requires i < |b|
    ensures CountBelow(b, bound) == CountBelow(b[..i] + b[i + 1..], bound) + (if b[i] < bound then 1 else 0)
  {
    hide CountBelow;
    assert b == b[..i] + ([b[i]] + b[i + 1..]);
    CountConcat(b[..i], [b[i]] + b[i + 1..], bound);
    CountConcat([b[i]], b[i + 1..], bound);
    CountConcat(b[..i], b[i + 1..], bound);
    CountOne(b[i], bound);
  }
}
