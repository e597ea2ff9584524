/** `[...papers].sort((a, b) => yearB - yearA)`: the papers of one list, copied and
    sorted by descending year key, ties kept in their input order. */
module YearSort {
  import opened Papers
  import opened YearOrder

  /** The sort key of a paper: the key of its year. */
  function Key(p: Paper): int
  {
    YearKey(p.year)
  }

  /** The comparator `(a, b) => key(b) - key(a)`: positive when `a` belongs after `b`. */
  function CompareBy(a: Paper, b: Paper, key: Paper -> int): int
  {
    key(b) - key(a)
  }

  /** The comparator is consistent in the sense ECMA-262 asks of a sort comparator
      (section 23.1.3.30.2 of the 2023 edition): it is zero on equal papers,
      antisymmetric in sign, and its "before", "tie" and "after" relations are
      transitive, because it is the difference of two integer keys. */
  lemma CompareIsConsistent(a: Paper, b: Paper, c: Paper, key: Paper -> int)
    ensures CompareBy(a, a, key) == 0
    ensures CompareBy(a, b, key) == -CompareBy(b, a, key)
    ensures CompareBy(a, b, key) < 0 && CompareBy(b, c, key) < 0 ==> CompareBy(a, c, key) < 0
    ensures CompareBy(a, b, key) == 0 && CompareBy(b, c, key) == 0 ==> CompareBy(a, c, key) == 0
    ensures CompareBy(a, b, key) == 0 ==> (CompareBy(a, c, key) < 0 <==> CompareBy(b, c, key) < 0)
  {
  }

  /** Year keys never increase from front to back. */
  ghost predicate NonIncreasing(s: seq<Paper>, key: Paper -> int)
  {
    forall i, j :: 0 <= i < j < |s| ==> key(s[i]) >= key(s[j])
  }

  /** The papers of `s` whose key is `k`, in the order `s` has them. */
  function Ties(s: seq<Paper>, k: int, key: Paper -> int): seq<Paper>
  {
    if s == [] then []
    else Ties(s[..|s| - 1], k, key) + (if key(s[|s| - 1]) == k then [s[|s| - 1]] else [])
  }

  /** Stability: every group of papers with equal keys appears in the same order in both. */
  ghost predicate SameTies(s: seq<Paper>, t: seq<Paper>, key: Paper -> int)
  {
    forall k :: Ties(s, k, key) == Ties(t, k, key)
  }

  /** One insertion step: `x` goes after every paper the comparator does not place
      after it, so it lands behind the papers of equal key already there. */
  function Insert(t: seq<Paper>, x: Paper, key: Paper -> int): (r: seq<Paper>)
    ensures |r| == |t| + 1
  {
    if t == [] then [x]
    else if CompareBy(t[|t| - 1], x, key) <= 0 then t + [x]
    else Insert(t[..|t| - 1], x, key) + [t[|t| - 1]]
  }

  /** The order the stable sort produces: insert the papers one by one, front to back. */
  function SortDesc(s: seq<Paper>, key: Paper -> int): (r: seq<Paper>)
    ensures |r| == |s|
  {
    if s == [] then [] else Insert(SortDesc(s[..|s| - 1], key), s[|s| - 1], key)
  }

  lemma {:induction false} InsertMultiset(t: seq<Paper>, x: Paper, key: Paper -> int)
    ensures multiset(Insert(t, x, key)) == multiset(t) + multiset{x}
  {
    if t != [] && CompareBy(t[|t| - 1], x, key) > 0 {
      InsertMultiset(t[..|t| - 1], x, key);
      assert t == t[..|t| - 1] + [t[|t| - 1]];
    }
  }

  lemma {:induction false} SortDescMultiset(s: seq<Paper>, key: Paper -> int)
    ensures multiset(SortDesc(s, key)) == multiset(s)
  {
    if s != [] {
      var init, last := s[..|s| - 1], s[|s| - 1];
      var r' := SortDesc(init, key);
      SortDescMultiset(init, key);
      InsertMultiset(r', last, key);
      assert SortDesc(s, key) == Insert(r', last, key);
      MultisetOfSnoc(s);
    }
  }

  lemma MultisetOfSnoc(s: seq<Paper>)
    requires s != []
    ensures multiset(s) == multiset(s[..|s| - 1]) + multiset{s[|s| - 1]}
  {
    assert s == s[..|s| - 1] + [s[|s| - 1]];
  }

  lemma {:induction false} TiesAppend(s: seq<Paper>, t: seq<Paper>, k: int, key: Paper -> int)
    ensures Ties(s + t, k, key) == Ties(s, k, key) + Ties(t, k, key)
    decreases |t|
  {
    if t == [] {
      assert s + t == s;
    } else {
      var t' := t[..|t| - 1];
      assert (s + t)[..|s + t| - 1] == s + t';
      TiesAppend(s, t', k, key);
    }
  }

  lemma TiesOfOne(x: Paper, k: int, key: Paper -> int)
    ensures Ties([x], k, key) == if key(x) == k then [x] else []
  {
    assert [x][..0] == [];
  }

  /** Inserting `x` adds it behind the papers of its own key and leaves every other
      key's group untouched. */
  lemma {:induction false} InsertTies(t: seq<Paper>, x: Paper, k: int, key: Paper -> int)
    ensures Ties(Insert(t, x, key), k, key) == Ties(t, k, key) + Ties([x], k, key)
  {
    if t == [] {
      assert Insert(t, x, key) == [x];
      assert t + [x] == [x];
      TiesAppend(t, [x], k, key);
    } else if CompareBy(t[|t| - 1], x, key) <= 0 {
      assert Insert(t, x, key) == t + [x];
      TiesAppend(t, [x], k, key);
    } else {
      var t', last := t[..|t| - 1], t[|t| - 1];
      assert Insert(t, x, key) == Insert(t', x, key) + [last];
      InsertTies(t', x, k, key);
      InsertPastTies(t', last, x, k, key);
    }
  }

  /** The step where `x` moves past `last`: their keys differ, so at most one of the
      two belongs to the group of `k` and their order within it does not matter. */
  lemma InsertPastTies(t': seq<Paper>, last: Paper, x: Paper, k: int, key: Paper -> int)
    requires key(last) < key(x)
    requires Ties(Insert(t', x, key), k, key) == Ties(t', k, key) + Ties([x], k, key)
    ensures Ties(Insert(t', x, key) + [last], k, key) == Ties(t' + [last], k, key) + Ties([x], k, key)
  {
    TiesAppend(Insert(t', x, key), [last], k, key);
    TiesAppend(t', [last], k, key);
    TiesOfOne(last, k, key);
    TiesOfOne(x, k, key);
  }

  /** Inserting into a non-increasing sequence keeps it non-increasing. */
  lemma {:induction false} InsertNonIncreasing(t: seq<Paper>, x: Paper, key: Paper -> int)
    requires NonIncreasing(t, key)
    ensures NonIncreasing(Insert(t, x, key), key)
  {
    if t != [] && CompareBy(t[|t| - 1], x, key) > 0 {
      var t', last := t[..|t| - 1], t[|t| - 1];
      var r' := Insert(t', x, key);
      InsertNonIncreasing(t', x, key);
      InsertAbove(t', x, key(last), key);
      assert forall i :: 0 <= i < |r'| ==> key(r'[i]) >= key(last);
    }
  }

  /** A bound that every paper of `t` and `x` meet is met by every paper of the insertion. */
  lemma {:induction false} InsertAbove(t: seq<Paper>, x: Paper, b: int, key: Paper -> int)
    requires forall i :: 0 <= i < |t| ==> key(t[i]) >= b
    requires key(x) >= b
    ensures forall i :: 0 <= i < |t| + 1 ==> key(Insert(t, x, key)[i]) >= b
  {
    if t != [] && CompareBy(t[|t| - 1], x, key) > 0 {
      InsertAbove(t[..|t| - 1], x, b, key);
    }
  }

  lemma {:induction false} SortDescNonIncreasing(s: seq<Paper>, key: Paper -> int)
    ensures NonIncreasing(SortDesc(s, key), key)
  {
    if s != [] {
      SortDescNonIncreasing(s[..|s| - 1], key);
      InsertNonIncreasing(SortDesc(s[..|s| - 1], key), s[|s| - 1], key);
    }
  }

  lemma {:induction false} SortDescTies(s: seq<Paper>, k: int, key: Paper -> int)
    ensures Ties(SortDesc(s, key), k, key) == Ties(s, k, key)
  {
    if s != [] {
      var s', last := s[..|s| - 1], s[|s| - 1];
      SortDescTies(s', k, key);
      InsertTies(SortDesc(s', key), last, k, key);
      TiesAppend(s', [last], k, key);
      assert s == s' + [last];
    }
  }

  /** The sorted order is a permutation of the input, its keys never increase, and
      papers of equal key keep their input order. */
  lemma SortDescCorrect(s: seq<Paper>, key: Paper -> int)
    ensures multiset(SortDesc(s, key)) == multiset(s)
    ensures NonIncreasing(SortDesc(s, key), key)
    ensures SameTies(SortDesc(s, key), s, key)
  {
    SortDescMultiset(s, key);
    SortDescNonIncreasing(s, key);
    forall k
      ensures Ties(SortDesc(s, key), k, key) == Ties(s, k, key)
    {
      SortDescTies(s, k, key);
    }
  }

  /** A paper's key group is non-empty exactly when some paper has that key. */
  lemma {:induction false} TiesNonEmpty(s: seq<Paper>, k: int, key: Paper -> int)
    ensures Ties(s, k, key) != [] <==> exists i :: 0 <= i < |s| && key(s[i]) == k
  {
    if s != [] {
      var s' := s[..|s| - 1];
      TiesNonEmpty(s', k, key);
      if exists i :: 0 <= i < |s'| && key(s'[i]) == k {
        var i :| 0 <= i < |s'| && key(s'[i]) == k;
        assert s[i] == s'[i];
      }
      if exists i :: 0 <= i < |s| && key(s[i]) == k {
        var i :| 0 <= i < |s| && key(s[i]) == k;
        if i < |s'| {
          assert s'[i] == s[i];
        }
      }
    }
  }

  /** Two non-empty non-increasing sequences with the same key groups start with the
      same paper: both start with the first paper of the largest key's group. */
  lemma SameFirst(t: seq<Paper>, u: seq<Paper>, key: Paper -> int)
    requires t != [] && u != []
    requires NonIncreasing(t, key) && NonIncreasing(u, key)
    requires SameTies(t, u, key)
    ensures t[0] == u[0]
  {
    var m, m' := key(t[0]), key(u[0]);
    TiesNonEmpty(t, m', key);
    TiesNonEmpty(u, m', key);
    assert Ties(t, m', key) == Ties(u, m', key);
    var i :| 0 <= i < |t| && key(t[i]) == m';
    TiesNonEmpty(t, m, key);
    TiesNonEmpty(u, m, key);
    assert Ties(t, m, key) == Ties(u, m, key);
    var i' :| 0 <= i' < |u| && key(u[i']) == m;
    assert m >= m' && m' >= m;
    FirstOfTies(t, key);
    FirstOfTies(u, key);
  }

  /** The first paper leads its own key group. */
  lemma FirstOfTies(t: seq<Paper>, key: Paper -> int)
    requires t != []
    ensures Ties(t, key(t[0]), key) != [] && Ties(t, key(t[0]), key)[0] == t[0]
  {
    var m := key(t[0]);
    assert t == [t[0]] + t[1..];
    TiesAppend([t[0]], t[1..], m, key);
    TiesOfOne(t[0], m, key);
  }

  /** Dropping the same first paper from two sequences keeps their key groups equal. */
  lemma SameTiesTail(t: seq<Paper>, u: seq<Paper>, key: Paper -> int)
    requires t != [] && u != [] && t[0] == u[0]
    requires SameTies(t, u, key)
    ensures SameTies(t[1..], u[1..], key)
  {
    assert t == [t[0]] + t[1..];
    assert u == [u[0]] + u[1..];
    forall k
      ensures Ties(t[1..], k, key) == Ties(u[1..], k, key)
    {
      TiesAppend([t[0]], t[1..], k, key);
      TiesAppend([u[0]], u[1..], k, key);
      var front := Ties([t[0]], k, key);
      assert Ties(t, k, key) == front + Ties(t[1..], k, key);
      assert Ties(u, k, key) == front + Ties(u[1..], k, key);
      assert (front + Ties(t[1..], k, key))[|front|..] == Ties(t[1..], k, key);
      assert (front + Ties(u[1..], k, key))[|front|..] == Ties(u[1..], k, key);
    }
  }

  /** Two non-increasing sequences with the same key groups are equal: stability and
      order leave no freedom, so any stable descending sort gives this result. */
  lemma {:induction false} SortedWithSameTiesEqual(t: seq<Paper>, u: seq<Paper>, key: Paper -> int)
    requires NonIncreasing(t, key) && NonIncreasing(u, key)
    requires SameTies(t, u, key)
    ensures t == u
    decreases |t|
  {
    if t != [] && u == [] {
      TiesNonEmpty(t, key(t[0]), key);
      TiesNonEmpty(u, key(t[0]), key);
    } else if t == [] && u != [] {
      TiesNonEmpty(u, key(u[0]), key);
      TiesNonEmpty(t, key(u[0]), key);
    } else if t != [] {
      SameFirst(t, u, key);
      SameTiesTail(t, u, key);
      assert NonIncreasing(t[1..], key) && NonIncreasing(u[1..], key);
      SortedWithSameTiesEqual(t[1..], u[1..], key);
      assert t == [t[0]] + t[1..];
      assert u == [u[0]] + u[1..];
    }
  }

  /** `SortDesc` is the only stable descending order of its input. */
  lemma SortDescUnique(s: seq<Paper>, t: seq<Paper>, key: Paper -> int)
    requires NonIncreasing(t, key) && SameTies(t, s, key)
    ensures t == SortDesc(s, key)
  {
    SortDescCorrect(s, key);
    SortedWithSameTiesEqual(t, SortDesc(s, key), key);
  }

  /** Sorting an already ordered list changes nothing; in particular sorting twice is
      the same as sorting once. */
  lemma SortDescIdempotent(s: seq<Paper>, key: Paper -> int)
    ensures NonIncreasing(s, key) ==> SortDesc(s, key) == s
    ensures SortDesc(SortDesc(s, key), key) == SortDesc(s, key)
  {
    if NonIncreasing(s, key) {
      SortDescUnique(s, s, key);
    }
    SortDescCorrect(s, key);
    SortDescUnique(SortDesc(s, key), SortDesc(s, key), key);
  }

  /** `Array.prototype.sort` with the comparator `(a, b) => key(b) - key(a)`, run in
      place on `a`, by insertion: the papers before position `i` are already in order,
      and each next paper joins them. */
  method SortInPlace(a: array<Paper>, key: Paper -> int)
    modifies a
    ensures a[..] == SortDesc(old(a[..]), key)
    ensures multiset(a[..]) == multiset(old(a[..]))
    ensures NonIncreasing(a[..], key)
    ensures SameTies(a[..], old(a[..]), key)
  {
    ghost var orig := a[..];
    var i := 0;
    while i < a.Length
      invariant 0 <= i <= a.Length
      invariant a[..i] == SortDesc(orig[..i], key)
      invariant forall m :: i <= m < a.Length ==> a[m] == orig[m]
    {
      assert orig[..i + 1] == orig[..i] + [orig[i]];
      InsertAt(a, i, key);
      i := i + 1;
    }
    assert a[..] == a[..a.Length];
    assert orig == orig[..a.Length];
    SortDescCorrect(orig, key);
  }

  /** One pass of the insertion sort: `a[i]` moves left past every paper the comparator
      places after it, and the ordered prefix grows by one. */
  method InsertAt(a: array<Paper>, i: nat, key: Paper -> int)
    requires i < a.Length
    modifies a
    ensures a[..i + 1] == Insert(old(a[..i]), old(a[i]), key)
    ensures forall m :: i < m < a.Length ==> a[m] == old(a[m])
  {
    ghost var sorted := a[..i];
    var x := a[i];
    var j := i;
    while j > 0 && CompareBy(a[j - 1], x, key) > 0
      invariant 0 <= j <= i
      invariant forall m :: 0 <= m < j ==> a[m] == sorted[m]
      invariant forall m :: j < m <= i ==> a[m] == sorted[m - 1]
      invariant forall m :: i < m < a.Length ==> a[m] == old(a[m])
      invariant forall m :: j <= m < i ==> CompareBy(sorted[m], x, key) > 0
    {
      a[j] := a[j - 1];
      j := j - 1;
    }
    InsertSplit(sorted, j, x, key);
    a[j] := x;
    ShiftedInsert(a[..i + 1], sorted, j, x);
  }

  /** The insertion puts `x` behind the last paper the comparator does not place after
      it, with every later paper moved one place back. */
  lemma {:induction false} InsertSplit(sorted: seq<Paper>, j: nat, x: Paper, key: Paper -> int)
    requires j <= |sorted|
    requires j == 0 || CompareBy(sorted[j - 1], x, key) <= 0
    requires forall m :: j <= m < |sorted| ==> CompareBy(sorted[m], x, key) > 0
    ensures Insert(sorted, x, key) == sorted[..j] + [x] + sorted[j..]
    decreases |sorted|
  {
    if j == |sorted| {
      assert sorted[..j] == sorted && sorted[j..] == [];
    } else {
      var t', last := sorted[..|sorted| - 1], sorted[|sorted| - 1];
      InsertSplit(t', j, x, key);
      assert t'[..j] == sorted[..j];
      assert t'[j..] + [last] == sorted[j..];
    }
  }

  /** A sequence that holds `sorted[..j]`, then `x`, then the rest of `sorted` shifted one
      place right, is that concatenation. */
  lemma ShiftedInsert(b: seq<Paper>, sorted: seq<Paper>, j: nat, x: Paper)
    requires j <= |sorted| && |b| == |sorted| + 1
    requires forall m :: 0 <= m < j ==> b[m] == sorted[m]
    requires b[j] == x
    requires forall m :: j < m < |b| ==> b[m] == sorted[m - 1]
    ensures b == sorted[..j] + [x] + sorted[j..]
  {
  }

  /** `[...papers].sort((a, b) => yearB - yearA)`: sort a fresh copy by year key; the
      input array is left as it was. */
  method SortedCopy(papers: array<Paper>) returns (sorted: array<Paper>)
    ensures fresh(sorted)
    ensures papers[..] == old(papers[..])
    ensures sorted[..] == SortDesc(papers[..], Key)
    ensures multiset(sorted[..]) == multiset(papers[..])
    ensures NonIncreasing(sorted[..], Key)
    ensures SameTies(sorted[..], papers[..], Key)
  {
    var items := papers[..];
    sorted := new Paper[|items|](i requires 0 <= i < |items| => items[i]);
    assert sorted[..] == items;
    SortInPlace(sorted, Key);
  }
}
