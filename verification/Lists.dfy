/** Rows found by id, elements taken out, and one stable sort with what makes its result unique. */
module Lists {
  import opened Base

  // ------------------------------------------------------------------------ rows by their id

  // The first row with this id, or |rows|.
  function IndexOf<T>(rows: seq<T>, key: T -> Id, id: Id): (i: nat)
    ensures i <= |rows|
    ensures i < |rows| ==> key(rows[i]) == id
    ensures forall j :: 0 <= j < i ==> key(rows[j]) != id
  {
    if rows == [] || key(rows[0]) == id then 0 else 1 + IndexOf(rows[1..], key, id)
  }

  method Find<T>(rows: seq<T>, key: T -> Id, id: Id) returns (i: nat)
    ensures i == IndexOf(rows, key, id)
  {
    i := 0;
    while i < |rows| && key(rows[i]) != id
      invariant i <= |rows| && IndexOf(rows, key, id) == i + IndexOf(rows[i..], key, id)
    {
      i := i + 1;
    }
  }

  // -------------------------------------------------------------------- one element taken out

  function WithoutAt<T>(s: seq<T>, i: nat): (r: seq<T>)
    requires i < |s|
    ensures |r| == |s| - 1
    ensures forall k :: 0 <= k < |r| ==> r[k] == s[if k < i then k else k + 1]
  {
    s[..i] + s[i + 1..]
  }

  lemma WithoutCounts<T>(s: seq<T>, i: nat)
    requires i < |s|
    ensures multiset(s) == multiset(WithoutAt(s, i)) + multiset{s[i]}
  {
    assert s == s[..i] + [s[i]] + s[i + 1..];
  }

  lemma PlusCancels<T>(a: multiset<T>, b: multiset<T>, x: T)
    requires a + multiset{x} == b + multiset{x}
    ensures a == b
  {
    assert a == (a + multiset{x}) - multiset{x} && b == (b + multiset{x}) - multiset{x};
  }

  // What remains of two permutations when an equal element is taken out of each.
  lemma RestCounts<T>(a: seq<T>, i: nat, b: seq<T>, j: nat)
    requires multiset(a) == multiset(b) && i < |a| && j < |b| && a[i] == b[j]
    ensures multiset(WithoutAt(a, i)) == multiset(WithoutAt(b, j))
  {
    WithoutCounts(a, i);
    WithoutCounts(b, j);
    PlusCancels(multiset(WithoutAt(a, i)), multiset(WithoutAt(b, j)), a[i]);
  }

  lemma SameLength<T>(a: seq<T>, b: seq<T>)
    requires multiset(a) == multiset(b)
    ensures |a| == |b|
  {
    assert |multiset(a)| == |multiset(b)|;
  }

  // --------------------------------------------------------------------------------- sorting

  // Before the first element that it may precede.
  function Insert<T>(x: T, sorted: seq<T>, before: (T, T) -> bool): (r: seq<T>)
    ensures multiset(r) == multiset(sorted) + multiset{x} && |r| == |sorted| + 1
  {
    if sorted == [] || before(x, sorted[0]) then [x] + sorted
    else
      assert sorted == [sorted[0]] + sorted[1..];
      [sorted[0]] + Insert(x, sorted[1..], before)
  }

  // Stable: elements that may precede each other keep their order.
  function Sort<T>(s: seq<T>, before: (T, T) -> bool): (r: seq<T>)
    ensures multiset(r) == multiset(s) && |r| == |s|
  {
    if s == [] then []
    else
      assert s == [s[0]] + s[1..];
      Insert(s[0], Sort(s[1..], before), before)
  }

  ghost predicate TotalOrder<T(!new)>(before: (T, T) -> bool) {
    && (forall x, y :: before(x, y) || before(y, x))
    && forall x, y, z :: before(x, y) && before(y, z) ==> before(x, z)
  }

  ghost predicate Sorted<T>(s: seq<T>, before: (T, T) -> bool) {
    forall i, j :: 0 <= i < j < |s| ==> before(s[i], s[j])
  }

  lemma InsertedElement<T>(x: T, s: seq<T>, before: (T, T) -> bool, i: nat)
    requires i <= |s|
    ensures Insert(x, s, before)[i] == x || Insert(x, s, before)[i] in s
  {
    assert Insert(x, s, before)[i] in multiset(Insert(x, s, before));
  }

  lemma {:induction false} InsertKeepsSorted<T(!new)>(x: T, s: seq<T>, before: (T, T) -> bool)
    requires TotalOrder(before) && Sorted(s, before)
    ensures Sorted(Insert(x, s, before), before)
    decreases |s|
  {
    if s != [] && !before(x, s[0]) {
      var rest := Insert(x, s[1..], before);
      InsertKeepsSorted(x, s[1..], before);
      forall i | 0 <= i < |rest| ensures before(s[0], rest[i]) { InsertedElement(x, s[1..], before, i); }
    }
  }

  lemma {:induction false} SortIsSorted<T(!new)>(s: seq<T>, before: (T, T) -> bool)
    requires TotalOrder(before)
    ensures Sorted(Sort(s, before), before)
    decreases |s|
  {
    if s != [] {
      SortIsSorted(s[1..], before);
      InsertKeepsSorted(s[0], Sort(s[1..], before), before);
    }
  }

  lemma SortMembers<T(!new)>(s: seq<T>, before: (T, T) -> bool)
    ensures forall x :: x in Sort(s, before) <==> x in s
  {
    forall x ensures x in Sort(s, before) <==> x in s {
      assert x in Sort(s, before) <==> x in multiset(Sort(s, before));
      assert x in s <==> x in multiset(s);
    }
  }

  // No two different members may precede each other.
  ghost predicate Antisymmetric<T(!new)>(s: seq<T>, before: (T, T) -> bool) {
    forall x, y :: x in s && y in s && before(x, y) && before(y, x) ==> x == y
  }

  lemma HeadPrecedes<T(!new)>(a: seq<T>, b: seq<T>, before: (T, T) -> bool)
    requires Sorted(a, before) && a != [] && b != [] && multiset(a) == multiset(b)
    ensures b[0] in a && (b[0] == a[0] || before(a[0], b[0]))
  {
    assert b[0] in multiset(a);
    var i :| 0 <= i < |a| && a[i] == b[0];
  }

  lemma RestIsSorted<T(!new)>(a: seq<T>, before: (T, T) -> bool)
    requires Sorted(a, before) && Antisymmetric(a, before) && a != []
    ensures Sorted(WithoutAt(a, 0), before) && Antisymmetric(WithoutAt(a, 0), before)
    ensures a == [a[0]] + WithoutAt(a, 0)
  {
    assert forall x :: x in WithoutAt(a, 0) ==> x in a;
  }

  // A sorted list is fixed by what it counts.
  lemma {:induction false} SortedIsUnique<T(!new)>(a: seq<T>, b: seq<T>, before: (T, T) -> bool)
    requires Sorted(a, before) && Sorted(b, before) && multiset(a) == multiset(b)
    requires Antisymmetric(a, before) && Antisymmetric(b, before)
    ensures a == b
    decreases |a|
  {
    SameLength(a, b);
    if a != [] {
      HeadPrecedes(a, b, before);
      HeadPrecedes(b, a, before);
      RestCounts(a, 0, b, 0);
      RestIsSorted(a, before);
      RestIsSorted(b, before);
      SortedIsUnique(WithoutAt(a, 0), WithoutAt(b, 0), before);
    }
  }

  // Permutations sort to the same list.
  lemma SortIgnoresOrder<T(!new)>(s: seq<T>, t: seq<T>, before: (T, T) -> bool)
    requires TotalOrder(before) && Antisymmetric(s, before) && multiset(s) == multiset(t)
    ensures Sort(s, before) == Sort(t, before)
  {
    SortIsSorted(s, before);
    SortIsSorted(t, before);
    forall x ensures (x in Sort(s, before) <==> x in s) && (x in Sort(t, before) <==> x in s) {
      assert x in s <==> x in multiset(t);
      assert x in Sort(s, before) <==> x in multiset(Sort(s, before));
      assert x in Sort(t, before) <==> x in multiset(Sort(t, before));
    }
    SortedIsUnique(Sort(s, before), Sort(t, before), before);
  }

  // ------------------------------------------------------------------------- lists without repeats

  ghost predicate NoRepeats<T>(s: seq<T>) { forall i, j :: 0 <= i < j < |s| ==> s[i] != s[j] }

  lemma {:induction false} CountsOnce<T(!new)>(s: seq<T>, x: T)
    requires NoRepeats(s)
    ensures multiset(s)[x] == if x in s then 1 else 0
    decreases |s|
  {
    if s != [] {
      CountsOnce(s[1..], x);
      assert s == [s[0]] + s[1..];
    }
  }

  lemma SameMembersCountAlike<T(!new)>(a: seq<T>, b: seq<T>)
    requires NoRepeats(a) && NoRepeats(b) && forall x :: x in a <==> x in b
    ensures multiset(a) == multiset(b)
  {
    forall x: T ensures multiset(a)[x] == multiset(b)[x] {
      CountsOnce(a, x);
      CountsOnce(b, x);
    }
  }
}
