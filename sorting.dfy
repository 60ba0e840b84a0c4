/**
 * A stable sort by a three-way comparator, the model of `Vec::sort_by` and `Vec::sort`
 * (both stable in Rust). The reference algorithm is insertion sort; what the scanner relies
 * on is proved about it: the result is a permutation, it is sorted whenever the comparator is
 * a total preorder, and elements in one equivalence class keep their input order.
 */
module Sorting {
  import opened Text
  import opened Collections

  /** The comparator is a total preorder: swapping arguments flips the answer, and
      "not Greater" is transitive. */
  ghost predicate TotalPreorder<T(!new)>(cmp: (T, T) -> Ordering) {
    && (forall a, b :: cmp(b, a) == Flip(cmp(a, b)))
    && (forall a, b, c :: cmp(a, b) != Greater && cmp(b, c) != Greater ==> cmp(a, c) != Greater)
  }

  predicate SortedBy<T>(s: seq<T>, cmp: (T, T) -> Ordering) {
    forall i, j :: 0 <= i < j < |s| ==> cmp(s[i], s[j]) != Greater
  }

  /** How many leading elements of s the new element x must pass: those it is Greater than. */
  function InsertPos<T>(x: T, s: seq<T>, cmp: (T, T) -> Ordering): (k: nat)
    ensures k <= |s|
    ensures forall j :: 0 <= j < k ==> cmp(x, s[j]) == Greater
    ensures k == |s| || cmp(x, s[k]) != Greater
  {
    if s == [] || cmp(x, s[0]) != Greater then 0 else 1 + InsertPos(x, s[1..], cmp)
  }

  /** Inserts x before the first element it is not Greater than, so after all its equals
      that are already placed there is none: x goes before every element equal to it. */
  function Insert<T>(x: T, s: seq<T>, cmp: (T, T) -> Ordering): seq<T> {
    var k := InsertPos(x, s, cmp);
    s[..k] + [x] + s[k..]
  }

  function SortBy<T>(s: seq<T>, cmp: (T, T) -> Ordering): (r: seq<T>)
    ensures multiset(r) == multiset(s)
  {
    if s == [] then []
    else
      var rest := SortBy(s[1..], cmp);
      InsertMultiset(s[0], rest, cmp);
      assert s == [s[0]] + s[1..];
      Insert(s[0], rest, cmp)
  }

  /** Inserting adds exactly the one element. */
  lemma InsertMultiset<T>(x: T, s: seq<T>, cmp: (T, T) -> Ordering)
    ensures multiset(Insert(x, s, cmp)) == multiset(s) + multiset{x}
  {
    var k := InsertPos(x, s, cmp);
    assert s == s[..k] + s[k..];
  }

  lemma InsertSorted<T(!new)>(x: T, s: seq<T>, cmp: (T, T) -> Ordering)
    requires TotalPreorder(cmp) && SortedBy(s, cmp)
    ensures SortedBy(Insert(x, s, cmp), cmp)
  {
    var k := InsertPos(x, s, cmp);
    var r := Insert(x, s, cmp);
    forall i, j | 0 <= i < j < |r| ensures cmp(r[i], r[j]) != Greater {
      if i < k && j == k {
        assert cmp(x, r[i]) == Greater;
        assert cmp(r[i], x) == Flip(cmp(x, r[i]));
      } else if i == k && j > k {
        assert r[j] == s[j - 1];
        assert cmp(x, s[k]) != Greater;
        if j - 1 > k { assert cmp(s[k], s[j - 1]) != Greater; }
      } else if i < k && j > k {
        assert r[i] == s[i] && r[j] == s[j - 1];
      } else if j < k {
        assert r[i] == s[i] && r[j] == s[j];
      } else {
        assert r[i] == s[i - 1] && r[j] == s[j - 1];
      }
    }
  }

  /** With a total preorder, the result is sorted. */
  lemma {:induction false} SortBySorted<T(!new)>(s: seq<T>, cmp: (T, T) -> Ordering)
    requires TotalPreorder(cmp)
    ensures SortedBy(SortBy(s, cmp), cmp)
  {
    if s != [] {
      SortBySorted(s[1..], cmp);
      InsertSorted(s[0], SortBy(s[1..], cmp), cmp);
    }
  }

  lemma {:induction false} FilterNone<T>(s: seq<T>, keep: T -> bool)
    requires forall j :: 0 <= j < |s| ==> !keep(s[j])
    ensures Filter(s, keep) == []
  {
    if s != [] { FilterNone(s[1..], keep); }
  }

  lemma FilterSingleton<T>(x: T, keep: T -> bool)
    ensures Filter([x], keep) == if keep(x) then [x] else []
  {
    assert [x][1..] == [];
  }

  /** An element never passes one of its equals on the way in. */
  lemma PassesNoneOfClass<T>(x: T, s: seq<T>, cmp: (T, T) -> Ordering, inClass: T -> bool)
    requires forall a, b :: inClass(a) && inClass(b) ==> cmp(a, b) == Equal
    requires inClass(x)
    ensures forall j :: 0 <= j < InsertPos(x, s, cmp) ==> !inClass(s[j])
  {
    forall j | 0 <= j < InsertPos(x, s, cmp) ensures !inClass(s[j]) {
      assert cmp(x, s[j]) == Greater;
    }
  }

  /** Filtering around an inserted element that nothing before it is kept with. */
  lemma FilterAround<T>(pre: seq<T>, x: T, post: seq<T>, keep: T -> bool)
    requires keep(x) ==> Filter(pre, keep) == []
    ensures Filter(pre + [x] + post, keep) == (if keep(x) then [x] else []) + Filter(pre + post, keep)
  {
    FilterAppend(pre + [x], post, keep);
    FilterAppend(pre, [x], keep);
    FilterAppend(pre, post, keep);
    FilterSingleton(x, keep);
    var fPre, fPost := Filter(pre, keep), Filter(post, keep);
    if keep(x) {
      assert fPre + [x] + fPost == [x] + (fPre + fPost);
    } else {
      assert fPre + [] + fPost == fPre + fPost;
    }
  }

  lemma FilterInsert<T>(x: T, s: seq<T>, cmp: (T, T) -> Ordering, inClass: T -> bool)
    requires forall a, b :: inClass(a) && inClass(b) ==> cmp(a, b) == Equal
    ensures Filter(Insert(x, s, cmp), inClass)
      == (if inClass(x) then [x] else []) + Filter(s, inClass)
  {
    var k := InsertPos(x, s, cmp);
    if inClass(x) {
      PassesNoneOfClass(x, s, cmp, inClass);
      FilterNone(s[..k], inClass);
    }
    FilterAround(s[..k], x, s[k..], inClass);
    assert s[..k] + s[k..] == s;
  }

  /** Stability: when `inClass` picks out elements that are all Equal to one another, those
      elements leave the sort in the order they came in. */
  lemma {:induction false} SortByStable<T>(s: seq<T>, cmp: (T, T) -> Ordering, inClass: T -> bool)
    requires forall a, b :: inClass(a) && inClass(b) ==> cmp(a, b) == Equal
    ensures Filter(SortBy(s, cmp), inClass) == Filter(s, inClass)
  {
    if s != [] {
      SortByStable(s[1..], cmp, inClass);
      FilterInsert(s[0], SortBy(s[1..], cmp), cmp, inClass);
      assert s == [s[0]] + s[1..];
      FilterAppend([s[0]], s[1..], inClass);
      FilterSingleton(s[0], inClass);
    }
  }
}
