/**
 * The line normalisation of `read_text_file` (test/demo5.rs): every line is trimmed, empty
 * results are dropped, the rest go into a HashSet, and the set's elements are sorted
 * (`Vec::sort` on `String`, whose order is the code-point order of the characters).
 */
module LineInput {
  import opened Collections
  import opened Text
  import opened Sorting

  /** The trimmed, non-empty forms of the lines. */
  function TrimmedNonEmpty(lines: seq<string>): set<string> {
    set l | l in lines && Trim(l) != [] :: Trim(l)
  }

  predicate StrictlySorted(s: seq<string>) {
    forall i, j :: 0 <= i < j < |s| ==> LexCompare(s[i], s[j]) == Less
  }

  lemma LexCompareIsTotalPreorder()
    ensures TotalPreorder(LexCompare)
  {
    forall a, b ensures LexCompare(b, a) == Flip(LexCompare(a, b)) {
      LexCompareFlip(a, b);
    }
    forall a, b, c | LexCompare(a, b) != Greater && LexCompare(b, c) != Greater
      ensures LexCompare(a, c) != Greater
    {
      LexCompareTransitive(a, b, c);
    }
  }

  /** Lines 18-27: the normalised lines are sorted strictly ascending (so no line appears
      twice), each is trimmed and non-empty, and together they are exactly the trimmed
      non-empty input lines. */
  method NormaliseLines(lines: seq<string>) returns (r: seq<string>)
    ensures StrictlySorted(r)
    ensures Elems(r) == TrimmedNonEmpty(lines)
    ensures forall i :: 0 <= i < |r| ==> r[i] != [] && Trim(r[i]) == r[i]
  {
    var uniqueLines: set<string> := {};
    for i := 0 to |lines|
      invariant uniqueLines == TrimmedNonEmpty(lines[..i])
    {
      var trimmedLine := Trim(lines[i]);
      TrimmedNonEmptyStep(lines, i);
      if trimmedLine != [] {
        uniqueLines := uniqueLines + {trimmedLine};
      }
    }
    assert lines[..|lines|] == lines;
    var uniqueLinesVec := SetToSeq(uniqueLines);
    r := SortBy(uniqueLinesVec, LexCompare);
    SortedDistinct(uniqueLinesVec, r);
    TrimmedNonEmptyAreTrimmed(lines, r);
  }

  lemma TrimmedNonEmptyStep(lines: seq<string>, i: nat)
    requires i < |lines|
    ensures TrimmedNonEmpty(lines[..i + 1])
         == TrimmedNonEmpty(lines[..i]) + (if Trim(lines[i]) != [] then {Trim(lines[i])} else {})
  {
    assert lines[..i + 1] == lines[..i] + [lines[i]];
  }

  /** Every member of TrimmedNonEmpty is non-empty and trims to itself. */
  lemma TrimmedNonEmptyAreTrimmed(lines: seq<string>, r: seq<string>)
    requires Elems(r) == TrimmedNonEmpty(lines)
    ensures forall i :: 0 <= i < |r| ==> r[i] != [] && Trim(r[i]) == r[i]
  {
    forall i | 0 <= i < |r| ensures r[i] != [] && Trim(r[i]) == r[i] {
      assert r[i] in TrimmedNonEmpty(lines);
      var l :| l in lines && Trim(l) != [] && r[i] == Trim(l);
      TrimWhileIdempotent(l, IsWhitespace);
    }
  }

  /** Sorting a list without repetitions gives a strictly ascending list of the same
      elements. */
  lemma SortedDistinct(v: seq<string>, r: seq<string>)
    requires NoDups(v) && r == SortBy(v, LexCompare)
    ensures StrictlySorted(r) && Elems(r) == Elems(v)
  {
    LexCompareIsTotalPreorder();
    SortBySorted(v, LexCompare);
    assert forall x :: x in r <==> x in multiset(r);
    assert forall x :: x in v <==> x in multiset(v);
    assert Elems(r) == Elems(v);
    NoDupsCard(v);
    assert |r| == |multiset(r)| == |multiset(v)| == |v|;
    CardElemsNoDups(r);
    forall i, j | 0 <= i < j < |r| ensures LexCompare(r[i], r[j]) == Less {
      LexCompareFlip(r[i], r[j]);
    }
  }

  /** Two strictly ascending lists with the same elements are equal. */
  lemma {:induction false} StrictlySortedUnique(a: seq<string>, b: seq<string>)
    requires StrictlySorted(a) && StrictlySorted(b) && Elems(a) == Elems(b)
    ensures a == b
    decreases |a|
  {
    ElemsEmpty(a);
    ElemsEmpty(b);
    if a != [] && b != [] {
      // the first element of each is the least of the common set
      assert a[0] in Elems(b) && b[0] in Elems(a);
      if a[0] != b[0] {
        LexCompareFlip(a[0], b[0]);
        assert false;
      }
      assert Elems(a[1..]) == Elems(a) - {a[0]} by {
        forall x | x in Elems(a) - {a[0]} ensures x in Elems(a[1..]) {
          var k :| 0 <= k < |a| && a[k] == x;
          assert k > 0 && a[1..][k - 1] == x;
        }
        forall x | x in Elems(a[1..]) ensures x != a[0] {
          var k :| 0 <= k < |a[1..]| && a[1..][k] == x;
          LexCompareFlip(a[0], a[k + 1]);
        }
      }
      assert Elems(b[1..]) == Elems(b) - {b[0]} by {
        forall x | x in Elems(b) - {b[0]} ensures x in Elems(b[1..]) {
          var k :| 0 <= k < |b| && b[k] == x;
          assert k > 0 && b[1..][k - 1] == x;
        }
        forall x | x in Elems(b[1..]) ensures x != b[0] {
          var k :| 0 <= k < |b[1..]| && b[1..][k] == x;
          LexCompareFlip(b[0], b[k + 1]);
        }
      }
      StrictlySortedUnique(a[1..], b[1..]);
      assert a == [a[0]] + a[1..] && b == [b[0]] + b[1..];
    }
  }

  /** Normalising already normalised lines changes nothing: whatever list a second pass
      produces equals the first pass's. */
  lemma NormaliseIdempotent(lines: seq<string>, r: seq<string>, r2: seq<string>)
    requires StrictlySorted(r) && Elems(r) == TrimmedNonEmpty(lines)
    requires forall i :: 0 <= i < |r| ==> r[i] != [] && Trim(r[i]) == r[i]
    requires StrictlySorted(r2) && Elems(r2) == TrimmedNonEmpty(r)
    ensures r2 == r
  {
    assert TrimmedNonEmpty(r) == Elems(r) by {
      forall x | x in Elems(r) ensures x in TrimmedNonEmpty(r) {
        var k :| 0 <= k < |r| && r[k] == x;
        assert Trim(r[k]) == x;
      }
    }
    StrictlySortedUnique(r2, r);
  }
}
