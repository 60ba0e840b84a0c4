/** Sequence and set helpers shared by the expansion, collection and line-reading models. */
module Collections {
  import opened Wrappers

  function Min(a: nat, b: nat): nat { if a <= b then a else b }

  /** The elements of a sequence, as a set. */
  function Elems<T>(s: seq<T>): set<T> { set x | x in s }

  /** No element occurs twice. */
  predicate NoDups<T(==)>(s: seq<T>) {
    forall i, j :: 0 <= i < j < |s| ==> s[i] != s[j]
  }

  /** f applied to every element, in order, as a loop that pushes f(x) for each x builds it. */
  function Map<A, B>(s: seq<A>, f: A -> B): (r: seq<B>)
    ensures |r| == |s|
  {
    if s == [] then [] else Map(s[..|s| - 1], f) + [f(s[|s| - 1])]
  }

  /** Position by position, Map holds f of the element. */
  lemma {:induction false} MapAt<A, B>(s: seq<A>, f: A -> B)
    ensures forall i :: 0 <= i < |s| ==> Map(s, f)[i] == f(s[i])
  {
    if s != [] {
      var init := s[..|s| - 1];
      MapAt(init, f);
      assert forall i :: 0 <= i < |init| ==> s[i] == init[i];
    }
  }

  lemma MapSnoc<A, B>(s: seq<A>, i: nat, f: A -> B)
    requires i < |s|
    ensures Map(s[..i + 1], f) == Map(s[..i], f) + [f(s[i])]
  {
    assert s[..i + 1][..i] == s[..i];
  }

  /** The concatenation of a sequence of batches, as `Vec::extend` builds it batch by batch. */
  function Flatten<T>(parts: seq<seq<T>>): seq<T> {
    if parts == [] then [] else Flatten(parts[..|parts| - 1]) + parts[|parts| - 1]
  }

  /** The elements of s that satisfy keep, in their original order. */
  function Filter<T>(s: seq<T>, keep: T -> bool): (r: seq<T>)
    ensures |r| <= |s|
  {
    if s == [] then []
    else (if keep(s[0]) then [s[0]] else []) + Filter(s[1..], keep)
  }

  lemma {:induction false} FilterAppend<T>(a: seq<T>, b: seq<T>, keep: T -> bool)
    ensures Filter(a + b, keep) == Filter(a, keep) + Filter(b, keep)
  {
    if a == [] {
      assert a + b == b;
    } else {
      var ab, h := a + b, if keep(a[0]) then [a[0]] else [];
      assert ab[0] == a[0] && ab[1..] == a[1..] + b;
      FilterAppend(a[1..], b, keep);
      var fRest, fB := Filter(a[1..], keep), Filter(b, keep);
      assert Filter(ab, keep) == h + (fRest + fB);
      assert Filter(a, keep) == h + fRest;
      assert h + (fRest + fB) == (h + fRest) + fB;
    }
  }

  lemma {:induction false} NoDupsCard<T>(s: seq<T>)
    requires NoDups(s)
    ensures |Elems(s)| == |s|
  {
    if s != [] {
      var t := s[..|s| - 1];
      assert s == t + [s[|s| - 1]];
      assert Elems(s) == Elems(t) + {s[|s| - 1]};
      assert s[|s| - 1] !in Elems(t);
      NoDupsCard(t);
    }
  }

  /** Index of the first element that satisfies `pick`. */
  function FirstWhere<T>(s: seq<T>, pick: T -> bool): (r: Option<nat>)
    ensures r.Some? ==> r.value < |s| && pick(s[r.value])
  {
    if s == [] then None
    else if pick(s[0]) then Some(0)
    else
      match FirstWhere(s[1..], pick)
      case Some(i) => Some(i + 1)
      case None => None
  }

  /** Nothing before the first pick qualifies, and there is none exactly when nothing does. */
  lemma {:induction false} FirstWhereMeaning<T>(s: seq<T>, pick: T -> bool)
    ensures FirstWhere(s, pick).Some? ==> forall k :: 0 <= k < FirstWhere(s, pick).value ==> !pick(s[k])
    ensures FirstWhere(s, pick).None? <==> forall k :: 0 <= k < |s| ==> !pick(s[k])
  {
    if s != [] {
      FirstWhereMeaning(s[1..], pick);
      assert forall k :: 1 <= k < |s| ==> s[k] == s[1..][k - 1];
    }
  }

  /** Index of the last element that satisfies `pick`. */
  function LastWhere<T>(s: seq<T>, pick: T -> bool): (r: Option<nat>)
    ensures r.Some? ==> r.value < |s| && pick(s[r.value])
  {
    if s == [] then None
    else if pick(s[|s| - 1]) then Some(|s| - 1)
    else LastWhere(s[..|s| - 1], pick)
  }

  /** Nothing after the last pick qualifies, and there is none exactly when nothing does. */
  lemma {:induction false} LastWhereMeaning<T>(s: seq<T>, pick: T -> bool)
    ensures LastWhere(s, pick).Some? ==> forall k :: LastWhere(s, pick).value < k < |s| ==> !pick(s[k])
    ensures LastWhere(s, pick).None? <==> forall k :: 0 <= k < |s| ==> !pick(s[k])
  {
    if s != [] {
      LastWhereMeaning(s[..|s| - 1], pick);
      assert forall k :: 0 <= k < |s| - 1 ==> s[k] == s[..|s| - 1][k];
    }
  }

  /** Extending a sequence by one element keeps an earlier pick, and otherwise picks the new
      element exactly when it qualifies. */
  lemma FirstWhereSnoc<T>(s: seq<T>, i: nat, pick: T -> bool)
    requires i < |s|
    ensures FirstWhere(s[..i + 1], pick)
      == if FirstWhere(s[..i], pick).Some? then FirstWhere(s[..i], pick)
         else if pick(s[i]) then Some(i) else None
  {
    var r, r' := FirstWhere(s[..i], pick), FirstWhere(s[..i + 1], pick);
    FirstWhereMeaning(s[..i], pick);
    FirstWhereMeaning(s[..i + 1], pick);
    assert forall k :: 0 <= k < i ==> s[..i + 1][k] == s[..i][k];
    if r.Some? {
      assert r'.Some? && r'.value <= r.value;
    }
  }

  /** The first pick is at i when s[i] qualifies and nothing before it is picked. */
  lemma FirstWhereAt<T>(s: seq<T>, i: nat, pick: T -> bool)
    requires i < |s| && pick(s[i]) && FirstWhere(s[..i], pick).None?
    ensures FirstWhere(s, pick) == Some(i)
  {
    FirstWhereMeaning(s[..i], pick);
    FirstWhereMeaning(s, pick);
    forall k | 0 <= k < i ensures !pick(s[k]) {
      assert s[k] == s[..i][k];
    }
  }

  /** The last pick is at k when s[k] qualifies and nothing after it does. */
  lemma LastWhereAt<T>(s: seq<T>, k: nat, pick: T -> bool)
    requires k < |s| && pick(s[k]) && forall j :: k < j < |s| ==> !pick(s[j])
    ensures LastWhere(s, pick) == Some(k)
  {
    LastWhereMeaning(s, pick);
  }

  /** Where an index of a + b lands once x is inserted between a and b. */
  function ShiftPast(r: Option<nat>, at: nat): Option<nat> {
    match r
    case None => None
    case Some(i) => if i < at then Some(i) else Some(i + 1)
  }

  lemma ShiftPastAfter(i: nat, at: nat)
    requires at <= i
    ensures ShiftPast(Some(i), at) == Some(i + 1)
  {}

  /** Inserting an element that is not picked moves the first pick, but never changes it. */
  lemma {:induction false} FirstWhereInsert<T>(a: seq<T>, x: T, b: seq<T>, pick: T -> bool)
    requires !pick(x)
    ensures FirstWhere(a + [x] + b, pick) == ShiftPast(FirstWhere(a + b, pick), |a|)
    decreases |a|
  {
    var ext, orig := a + [x] + b, a + b;
    if a == [] {
      assert ext == [x] + b && orig == b;
      assert ext[1..] == b;
    } else {
      assert ext[0] == a[0] && orig[0] == a[0];
      if !pick(a[0]) {
        assert ext[1..] == a[1..] + [x] + b;
        assert orig[1..] == a[1..] + b;
        FirstWhereInsert(a[1..], x, b, pick);
      }
    }
  }

  /** FirstWhereInsert for an element inserted at position j of s. */
  lemma FirstWhereInsertAt<T>(s: seq<T>, j: nat, x: T, pick: T -> bool)
    requires j <= |s| && !pick(x)
    ensures FirstWhere(s[..j] + [x] + s[j..], pick) == ShiftPast(FirstWhere(s, pick), j)
  {
    var a, b := s[..j], s[j..];
    FirstWhereInsert(a, x, b, pick);
    assert a + b == s;
  }

  /** Inserting x at position j leaves what comes before j in place ... */
  lemma InsertKeepsBefore<T>(s: seq<T>, j: nat, x: T, i: nat)
    requires i < j <= |s|
    ensures (s[..j] + [x] + s[j..])[..i] == s[..i]
    ensures (s[..j] + [x] + s[j..])[i] == s[i]
  {}

  /** ... and moves what comes after it one place on. */
  lemma InsertShiftsAfter<T>(s: seq<T>, j: nat, x: T, i: nat)
    requires j <= i < |s|
    ensures (s[..j] + [x] + s[j..])[..i + 1] == s[..j] + [x] + s[j..i]
    ensures (s[..j] + [x] + s[j..])[i + 1] == s[i]
    ensures s[..i] == s[..j] + s[j..i]
  {
    var t := s[..j] + [x] + s[j..];
    assert s[j..][..i - j] == s[j..i];
    assert t[..i + 1] == (s[..j] + [x]) + s[j..][..i - j];
  }

  /** The element at index k of a + c sits at ShiftPast(k) once x is inserted after a. */
  lemma InsertIndexShift<T>(a: seq<T>, x: T, c: seq<T>, k: nat)
    requires k < |a + c|
    ensures ShiftPast(Some(k), |a|).value < |a + [x] + c|
    ensures (a + [x] + c)[ShiftPast(Some(k), |a|).value] == (a + c)[k]
  {}

  /** The same for the last pick. */
  lemma {:induction false} LastWhereInsert<T>(a: seq<T>, x: T, b: seq<T>, pick: T -> bool)
    requires !pick(x)
    ensures LastWhere(a + [x] + b, pick) == ShiftPast(LastWhere(a + b, pick), |a|)
    decreases |b|
  {
    if b == [] {
      assert a + [x] + b == a + [x] && a + b == a;
      assert (a + [x])[..|a|] == a;
    } else {
      var b' := b[..|b| - 1];
      LastWhereInsert(a, x, b', pick);
      assert (a + [x] + b)[|a + [x] + b| - 1] == (a + b)[|a + b| - 1] == b[|b| - 1];
      assert (a + [x] + b)[..|a + [x] + b| - 1] == a + [x] + b';
      assert (a + b)[..|a + b| - 1] == a + b';
    }
  }

  lemma ElemsEmpty<T>(s: seq<T>)
    ensures Elems(s) == {} ==> s == []
  {
    if s != [] {
      assert s[0] in Elems(s);
    }
  }

  /** A sequence has at most as many distinct elements as positions ... */
  lemma {:induction false} ElemsCardBound<T>(s: seq<T>)
    ensures |Elems(s)| <= |s|
  {
    if s != [] {
      ElemsCardBound(s[1..]);
      assert Elems(s) == Elems(s[1..]) + {s[0]};
    }
  }

  /** ... and exactly as many only when none repeats. */
  lemma {:induction false} CardElemsNoDups<T>(s: seq<T>)
    requires |Elems(s)| == |s|
    ensures NoDups(s)
  {
    if s != [] {
      assert Elems(s) == Elems(s[1..]) + {s[0]};
      ElemsCardBound(s[1..]);
      assert s[0] !in Elems(s[1..]);
      CardElemsNoDups(s[1..]);
      forall i, j | 0 <= i < j < |s| ensures s[i] != s[j] {
        if i == 0 {
          assert s[j] == s[1..][j - 1];
        } else {
          assert s[i] == s[1..][i - 1] && s[j] == s[1..][j - 1];
        }
      }
    }
  }

  /** The image of a set under f. */
  function Image<A, B>(xs: set<A>, f: A -> B): set<B> { set x | x in xs :: f(x) }

  /** The image of a finite set is never larger than the set. */
  lemma {:induction false} ImageCard<A, B>(xs: set<A>, f: A -> B)
    ensures |Image(xs, f)| <= |xs|
    decreases |xs|
  {
    if xs != {} {
      var x :| x in xs;
      var rest := xs - {x};
      ImageCard(rest, f);
      var img := Image(rest, f);
      assert Image(xs, f) == img + {f(x)};
    }
  }

  /** An injective function preserves the size of a finite set. */
  lemma {:induction false} InjectiveImageCard<A, B>(xs: set<A>, f: A -> B)
    requires forall x, y :: x in xs && y in xs && f(x) == f(y) ==> x == y
    ensures |Image(xs, f)| == |xs|
    decreases |xs|
  {
    if xs != {} {
      var x :| x in xs;
      var rest := xs - {x};
      InjectiveImageCard(rest, f);
      var img := Image(rest, f);
      assert Image(xs, f) == img + {f(x)};
      assert f(x) !in img;
    }
  }

  lemma SubsetCard<T>(a: set<T>, b: set<T>)
    requires a <= b
    ensures |a| <= |b|
  {
    assert b == a + (b - a);
  }

  /** A finite set of naturals all below n has at most n elements. */
  lemma {:induction false} BoundedNatSetCard(xs: set<nat>, n: nat)
    requires forall x :: x in xs ==> x < n
    ensures |xs| <= n
  {
    if n > 0 {
      var rest := xs - {n - 1};
      BoundedNatSetCard(rest, n - 1);
    } else {
      assert xs == {};
    }
  }

  /** Lists a set in an unspecified order, as iterating a `HashSet` does. */
  method SetToSeq<T>(s: set<T>) returns (r: seq<T>)
    ensures NoDups(r) && Elems(r) == s && |r| == |s|
  {
    r := [];
    var rest := s;
    while rest != {}
      invariant rest !! Elems(r)
      invariant rest + Elems(r) == s
      invariant NoDups(r) && |r| + |rest| == |s|
      decreases |rest|
    {
      var x :| x in rest;
      assert Elems(r + [x]) == Elems(r) + {x};
      r := r + [x];
      rest := rest - {x};
    }
  }

  /** Puts a sequence into some order, as `SliceRandom::shuffle` does; which order is left open. */
  method Shuffle<T>(s: seq<T>) returns (r: seq<T>)
    ensures multiset(r) == multiset(s)
  {
    r := [];
    var rest := s;
    while rest != []
      invariant multiset(r) + multiset(rest) == multiset(s)
      decreases |rest|
    {
      var i :| 0 <= i < |rest|;
      assert rest == rest[..i] + [rest[i]] + rest[i + 1..];
      r := r + [rest[i]];
      rest := rest[..i] + rest[i + 1..];
    }
  }
}
