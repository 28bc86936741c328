/** `data.sort((a, b) => b.sizeRaw - a.sizeRaw)`: a stable sort of the entries,
    largest first. ECMAScript 2019 (section 22.1.3.27 of ECMA-262, 10th
    edition) requires `Array.prototype.sort` to be stable, so entries of equal
    size keep the order in which they were pushed. */
module SizeSort {
  import opened DataUriEntry

  /** Sizes never increase from left to right. */
  ghost predicate NonIncreasing(s: seq<Entry>) {
    forall i, j :: 0 <= i < j < |s| ==> s[i].sizeRaw >= s[j].sizeRaw
  }

  /** The entries of size `k`, in their order in `s`. */
  function WithSize(s: seq<Entry>, k: nat): seq<Entry> {
    if s == [] then []
    else WithSize(s[..|s| - 1], k) + (if s[|s| - 1].sizeRaw == k then [s[|s| - 1]] else [])
  }

  /** Places `e` after every entry at least as large as it; on a sorted
      sequence that is where a stable sort puts a later entry. */
  function InsertBySize(sorted: seq<Entry>, e: Entry): (r: seq<Entry>)
    ensures |r| == |sorted| + 1
  {
    if sorted == [] then [e]
    else if sorted[0].sizeRaw >= e.sizeRaw then [sorted[0]] + InsertBySize(sorted[1..], e)
    else [e] + sorted
  }

  /** The reference stable sort: insertion of each entry in encounter order. */
  function SortBySize(s: seq<Entry>): (r: seq<Entry>)
    ensures |r| == |s|
  {
    if s == [] then [] else InsertBySize(SortBySize(s[..|s| - 1]), s[|s| - 1])
  }

  // ----- insertion -----

  /** Insertion keeps the order by size and adds exactly `e`. */
  lemma InsertSorted(sorted: seq<Entry>, e: Entry)
    requires NonIncreasing(sorted)
    ensures NonIncreasing(InsertBySize(sorted, e))
    ensures multiset(InsertBySize(sorted, e)) == multiset(sorted) + multiset{e}
  {
    var p := SplitPoint(sorted, e);
    InsertAtSplit(sorted, e, p);
    SpliceSorted(sorted, e, p);
    SpliceMultiset(sorted, e, p);
  }

  lemma SpliceMultiset(s: seq<Entry>, e: Entry, p: nat)
    requires p <= |s|
    ensures multiset(s[..p] + [e] + s[p..]) == multiset(s) + multiset{e}
  {
    calc {
      multiset(s[..p] + [e] + s[p..]);
      multiset(s[..p]) + multiset{e} + multiset(s[p..]);
      { assert s == s[..p] + s[p..]; }
      multiset(s) + multiset{e};
    }
  }

  lemma SpliceSorted(sorted: seq<Entry>, e: Entry, p: nat)
    requires NonIncreasing(sorted) && p <= |sorted|
    requires forall m :: 0 <= m < p ==> sorted[m].sizeRaw >= e.sizeRaw
    requires forall m :: p <= m < |sorted| ==> sorted[m].sizeRaw < e.sizeRaw
    ensures NonIncreasing(sorted[..p] + [e] + sorted[p..])
  {
    var r := sorted[..p] + [e] + sorted[p..];
    assert forall i :: 0 <= i < p ==> r[i] == sorted[i];
    assert r[p] == e;
    assert forall i :: p < i < |r| ==> r[i] == sorted[i - 1];
    forall i, j | 0 <= i < j < |r|
      ensures r[i].sizeRaw >= r[j].sizeRaw
    {
      if j < p {
        assert sorted[i].sizeRaw >= sorted[j].sizeRaw;
      } else if i > p {
        assert sorted[i - 1].sizeRaw >= sorted[j - 1].sizeRaw;
      }
    }
  }

  /** Where the imperative insertion stops: before the first entry smaller than `e`. */
  lemma {:induction false} InsertAtSplit(sorted: seq<Entry>, e: Entry, p: nat)
    requires p <= |sorted|
    requires forall m :: 0 <= m < p ==> sorted[m].sizeRaw >= e.sizeRaw
    requires forall m :: p <= m < |sorted| ==> sorted[m].sizeRaw < e.sizeRaw
    ensures InsertBySize(sorted, e) == sorted[..p] + [e] + sorted[p..]
    decreases p
  {
    if p > 0 {
      InsertAtSplit(sorted[1..], e, p - 1);
      assert sorted[1..][..p - 1] == sorted[1..p];
      assert sorted[1..][p - 1..] == sorted[p..];
    } else if sorted != [] {
      assert sorted[p..] == sorted;
    }
  }

  lemma {:induction false} WithSizeAppend(a: seq<Entry>, b: seq<Entry>, k: nat)
    ensures WithSize(a + b, k) == WithSize(a, k) + WithSize(b, k)
    decreases |b|
  {
    if b == [] {
      assert a + b == a;
    } else {
      assert (a + b)[..|a + b| - 1] == a + b[..|b| - 1];
      WithSizeAppend(a, b[..|b| - 1], k);
    }
  }

  lemma {:induction false} WithSizeNone(s: seq<Entry>, k: nat)
    requires forall m :: 0 <= m < |s| ==> s[m].sizeRaw != k
    ensures WithSize(s, k) == []
  {
    if s != [] {
      WithSizeNone(s[..|s| - 1], k);
    }
  }

  lemma WithSizeSingleton(e: Entry, k: nat)
    ensures WithSize([e], k) == if e.sizeRaw == k then [e] else []
  {
    assert [e][..0] == [];
  }

  /** Putting `e` in front of entries all smaller than it adds it to the end
      of its own size class and leaves the others alone. */
  lemma WithSizeSplice(front: seq<Entry>, e: Entry, back: seq<Entry>, k: nat)
    requires forall m :: 0 <= m < |back| ==> back[m].sizeRaw < e.sizeRaw
    ensures WithSize(front + [e] + back, k)
            == WithSize(front + back, k) + (if e.sizeRaw == k then [e] else [])
  {
    WithSizeSingleton(e, k);
    WithSizeAppend(front + [e], back, k);
    WithSizeAppend(front, [e], k);
    WithSizeAppend(front, back, k);
    if e.sizeRaw == k {
      WithSizeNone(back, k);
      assert WithSize(front + [e] + back, k) == WithSize(front, k) + [e] + [];
      assert WithSize(front + back, k) == WithSize(front, k) + [];
    } else {
      assert WithSize(front + [e] + back, k) == WithSize(front, k) + [] + WithSize(back, k);
    }
  }

  /** Inserting `e` appends it to its own size class and leaves the others alone. */
  lemma InsertWithSize(sorted: seq<Entry>, e: Entry, k: nat)
    requires NonIncreasing(sorted)
    ensures WithSize(InsertBySize(sorted, e), k)
            == WithSize(sorted, k) + (if e.sizeRaw == k then [e] else [])
  {
    var p := SplitPoint(sorted, e);
    InsertAtSplit(sorted, e, p);
    assert sorted == sorted[..p] + sorted[p..];
    WithSizeSplice(sorted[..p], e, sorted[p..], k);
  }

  /** Number of leading entries at least as large as `e`. */
  function SplitPoint(sorted: seq<Entry>, e: Entry): (p: nat)
    requires NonIncreasing(sorted)
    ensures p <= |sorted|
    ensures forall m :: 0 <= m < p ==> sorted[m].sizeRaw >= e.sizeRaw
    ensures forall m :: p <= m < |sorted| ==> sorted[m].sizeRaw < e.sizeRaw
  {
    if sorted == [] || sorted[0].sizeRaw < e.sizeRaw then 0
    else 1 + SplitPoint(sorted[1..], e)
  }

  // ----- the sort -----

  /** The sort orders by size, largest first, and only rearranges. */
  lemma {:induction false} SortBySizeSorted(s: seq<Entry>)
    ensures NonIncreasing(SortBySize(s))
    ensures multiset(SortBySize(s)) == multiset(s)
    ensures |SortBySize(s)| == |s|
  {
    if s != [] {
      var init, last := s[..|s| - 1], s[|s| - 1];
      SortBySizeSorted(init);
      assert s == init + [last];
      InsertNext(SortBySize(init), init, last);
    }
  }

  /** One step of the sort: inserting the next entry into the sorted prefix
      gives a sorted permutation of the longer prefix. */
  lemma InsertNext(sorted: seq<Entry>, init: seq<Entry>, last: Entry)
    requires NonIncreasing(sorted) && multiset(sorted) == multiset(init)
    ensures NonIncreasing(InsertBySize(sorted, last))
    ensures multiset(InsertBySize(sorted, last)) == multiset(init + [last])
  {
    InsertSorted(sorted, last);
  }

  /** Stability: entries of each size come out in the order they went in. */
  lemma {:induction false} SortBySizeStable(s: seq<Entry>, k: nat)
    ensures WithSize(SortBySize(s), k) == WithSize(s, k)
  {
    if s != [] {
      SortBySizeStable(s[..|s| - 1], k);
      SortBySizeSorted(s[..|s| - 1]);
      InsertWithSize(SortBySize(s[..|s| - 1]), s[|s| - 1], k);
    }
  }

  /** What the size classes of `s` hold: entries of `s` of that size, and
      at least one when `s` has one. */
  lemma {:induction false} WithSizeMembers(s: seq<Entry>, k: nat)
    ensures forall x :: x in WithSize(s, k) ==> x in s && x.sizeRaw == k
    ensures (exists m :: 0 <= m < |s| && s[m].sizeRaw == k) ==> WithSize(s, k) != []
  {
    if s != [] {
      WithSizeMembers(s[..|s| - 1], k);
      if exists m :: 0 <= m < |s| && s[m].sizeRaw == k {
        var m :| 0 <= m < |s| && s[m].sizeRaw == k;
        if m < |s| - 1 {
          assert s[..|s| - 1][m].sizeRaw == k;
        }
      }
    }
  }

  /** A size class that is not empty in `u` bounds the size of `u`'s last entry. */
  lemma LastBelowClass(u: seq<Entry>, k: nat)
    requires NonIncreasing(u) && u != [] && WithSize(u, k) != []
    ensures u[|u| - 1].sizeRaw <= k
  {
    WithSizeMembers(u, k);
    var x := WithSize(u, k)[0];
    assert x in WithSize(u, k);
    var q :| 0 <= q < |u| && u[q] == x;
  }

  /** Two sequences sorted by size with the same size classes end in the
      same entry. */
  lemma SameLast(t: seq<Entry>, u: seq<Entry>)
    requires NonIncreasing(t) && NonIncreasing(u) && t != [] && u != []
    requires WithSize(t, t[|t| - 1].sizeRaw) == WithSize(u, t[|t| - 1].sizeRaw)
    requires WithSize(t, u[|u| - 1].sizeRaw) == WithSize(u, u[|u| - 1].sizeRaw)
    ensures t[|t| - 1] == u[|u| - 1]
  {
    var a, b := t[|t| - 1], u[|u| - 1];
    var ca, cb := WithSize(t, a.sizeRaw), WithSize(u, b.sizeRaw);
    assert ca == WithSize(t[..|t| - 1], a.sizeRaw) + [a];
    assert cb == WithSize(u[..|u| - 1], b.sizeRaw) + [b];
    LastBelowClass(u, a.sizeRaw);
    LastBelowClass(t, b.sizeRaw);
    assert ca[|ca| - 1] == a && cb[|cb| - 1] == b;
  }

  /** Dropping the same last entry from both keeps the size classes equal. */
  lemma DropLastClasses(t: seq<Entry>, u: seq<Entry>, k: nat)
    requires t != [] && u != [] && t[|t| - 1] == u[|u| - 1]
    requires WithSize(t, k) == WithSize(u, k)
    ensures WithSize(t[..|t| - 1], k) == WithSize(u[..|u| - 1], k)
  {
    var t', u', a := t[..|t| - 1], u[..|u| - 1], t[|t| - 1];
    assert WithSize(t, k) == WithSize(t', k) + (if a.sizeRaw == k then [a] else []);
    assert WithSize(u, k) == WithSize(u', k) + (if a.sizeRaw == k then [a] else []);
    if a.sizeRaw == k {
      assert WithSize(t', k) == WithSize(t, k)[..|WithSize(t, k)| - 1];
      assert WithSize(u', k) == WithSize(u, k)[..|WithSize(u, k)| - 1];
    } else {
      assert WithSize(t', k) + [] == WithSize(t', k);
      assert WithSize(u', k) + [] == WithSize(u', k);
    }
  }

  /** A sequence sorted by size is fixed by its size classes: two such
      sequences with the same entries of each size, in the same order, are
      equal. */
  lemma {:induction false} SortedBySizeClassesUnique(t: seq<Entry>, u: seq<Entry>)
    requires NonIncreasing(t) && NonIncreasing(u)
    requires forall k :: WithSize(t, k) == WithSize(u, k)
    ensures t == u
    decreases |t|
  {
    if t == [] && u == [] {
    } else if u == [] {
      WithSizeMembers(t, t[0].sizeRaw);
      assert false;
    } else if t == [] {
      WithSizeMembers(u, u[0].sizeRaw);
      assert false;
    } else {
      assert WithSize(t, t[|t| - 1].sizeRaw) == WithSize(u, t[|t| - 1].sizeRaw);
      assert WithSize(t, u[|u| - 1].sizeRaw) == WithSize(u, u[|u| - 1].sizeRaw);
      SameLast(t, u);
      var t', u' := t[..|t| - 1], u[..|u| - 1];
      forall k
        ensures WithSize(t', k) == WithSize(u', k)
      {
        DropLastClasses(t, u, k);
      }
      SortedBySizeClassesUnique(t', u');
      assert t == t' + [t[|t| - 1]];
      assert u == u' + [u[|u| - 1]];
    }
  }

  /** The sort is the only sequence ordered by size, largest first, that keeps
      each size class of its input in input order: whatever a stable sort with
      the comparator `b.sizeRaw - a.sizeRaw` returns, it is this. */
  lemma SortBySizeIsTheStableSort(s: seq<Entry>, t: seq<Entry>)
    requires NonIncreasing(t)
    requires forall k :: WithSize(t, k) == WithSize(s, k)
    ensures t == SortBySize(s)
  {
    SortBySizeSorted(s);
    forall k
      ensures WithSize(t, k) == WithSize(SortBySize(s), k)
    {
      SortBySizeStable(s, k);
    }
    SortedBySizeClassesUnique(t, SortBySize(s));
  }

  lemma SortBySizePrefix(s: seq<Entry>, i: nat)
    requires i < |s|
    ensures SortBySize(s[..i + 1]) == InsertBySize(SortBySize(s[..i]), s[i])
  {
    assert s[..i + 1][..i] == s[..i];
  }

  /** One step of insertion sort: shifts the entries of the sorted prefix
      `a[..i]` that are smaller than `a[i]` one place right and drops `a[i]`
      into the gap. */
  method InsertLast(a: array<Entry>, i: nat)
    requires i < a.Length
    requires NonIncreasing(a[..i])
    modifies a
    ensures a[..i + 1] == InsertBySize(old(a[..i]), old(a[i]))
    ensures a[i + 1..] == old(a[i + 1..])
  {
    ghost var sorted := a[..i];
    var x := a[i];
    var j := i;
    while j > 0 && a[j - 1].sizeRaw < x.sizeRaw
      invariant 0 <= j <= i
      invariant forall m :: 0 <= m < j ==> a[m] == sorted[m]
      invariant forall m :: j < m <= i ==> a[m] == sorted[m - 1]
      invariant forall m :: j <= m < i ==> sorted[m].sizeRaw < x.sizeRaw
      invariant forall m :: i < m < a.Length ==> a[m] == old(a[m])
    {
      a[j] := a[j - 1];
      j := j - 1;
    }
    a[j] := x;
    ShiftedIsInsert(sorted, x, j, a[..i + 1]);
  }

  /** The array after the shifting loop, read as a sequence, is the insertion. */
  lemma ShiftedIsInsert(sorted: seq<Entry>, x: Entry, j: nat, r: seq<Entry>)
    requires NonIncreasing(sorted)
    requires j <= |sorted| && |r| == |sorted| + 1 && r[j] == x
    requires forall m :: 0 <= m < j ==> r[m] == sorted[m]
    requires forall m :: j < m < |r| ==> r[m] == sorted[m - 1]
    requires forall m :: j <= m < |sorted| ==> sorted[m].sizeRaw < x.sizeRaw
    requires j > 0 ==> sorted[j - 1].sizeRaw >= x.sizeRaw
    ensures r == InsertBySize(sorted, x)
  {
    assert forall m :: 0 <= m < j ==> sorted[m].sizeRaw >= x.sizeRaw by {
      if j > 0 {
        assert forall m :: 0 <= m < j ==> sorted[m].sizeRaw >= sorted[j - 1].sizeRaw;
      }
    }
    InsertAtSplit(sorted, x, j);
    assert r == sorted[..j] + [x] + sorted[j..];
  }

  /** In-place insertion sort of the pushed entries; the array ends up holding
      exactly the reference stable sort of what it held. */
  method SortInPlace(a: array<Entry>)
    modifies a
    ensures a[..] == SortBySize(old(a[..]))
  {
    ghost var input := a[..];
    var i := 0;
    while i < a.Length
      invariant 0 <= i <= a.Length
      invariant a[..i] == SortBySize(input[..i])
      invariant a[i..] == input[i..]
    {
      SortBySizeSorted(input[..i]);
      assert a[i] == input[i];
      InsertLast(a, i);
      SortBySizePrefix(input, i);
      i := i + 1;
    }
    assert a[..] == a[..a.Length];
    assert input[..a.Length] == input;
  }
}
