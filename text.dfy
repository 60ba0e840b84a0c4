/**
 * The string operations of Rust's `str` that the scanner relies on, over `seq<char>`:
 * prefix tests, `trim`/`trim_matches`/`trim_end_matches`, `split`, `rfind`, and the
 * lexicographic order of `String`.
 */
module Text {
  import opened Wrappers

  /** `str::starts_with`, character by character. */
  predicate StartsWith(s: string, prefix: string)
    decreases |prefix|
  {
    prefix == [] || (s != [] && s[0] == prefix[0] && StartsWith(s[1..], prefix[1..]))
  }

  /** The prefix test holds exactly when the input begins with the prefix. */
  lemma {:induction false} StartsWithSlice(s: string, prefix: string)
    ensures StartsWith(s, prefix) <==> |prefix| <= |s| && s[..|prefix|] == prefix
    decreases |prefix|
  {
    if prefix != [] && s != [] {
      StartsWithSlice(s[1..], prefix[1..]);
      if |prefix| <= |s| && s[..|prefix|] == prefix {
        assert s[1..][..|prefix| - 1] == prefix[1..];
      }
      if s[0] == prefix[0] && |prefix| <= |s| && s[1..][..|prefix| - 1] == prefix[1..] {
        assert s[..|prefix|] == [s[0]] + s[1..][..|prefix| - 1];
        assert prefix == [prefix[0]] + prefix[1..];
      }
    }
  }

  predicate EndsWith(s: string, suffix: string) {
    |suffix| <= |s| && s[|s| - |suffix|..] == suffix
  }

  /** `char::is_whitespace`: the characters with the Unicode White_Space property. */
  predicate IsWhitespace(c: char) {
    var n := c as int;
    (0x09 <= n <= 0x0D) || n == 0x20 || n == 0x85 || n == 0xA0 || n == 0x1680
    || (0x2000 <= n <= 0x200A) || n == 0x2028 || n == 0x2029 || n == 0x202F
    || n == 0x205F || n == 0x3000
  }

  predicate IsBracket(c: char) { c == '[' || c == ']' }

  predicate IsSlash(c: char) { c == '/' }

  /** `trim_start_matches(strip)`: drops the longest prefix of characters satisfying strip. */
  function TrimStartWhile(s: string, strip: char -> bool): (r: string)
    ensures |r| <= |s| && r == s[|s| - |r|..]
    ensures forall k :: 0 <= k < |s| - |r| ==> strip(s[k])
    ensures r == [] || !strip(r[0])
  {
    if s != [] && strip(s[0]) then TrimStartWhile(s[1..], strip) else s
  }

  /** `trim_end_matches(strip)`: drops the longest suffix of characters satisfying strip. */
  function TrimEndWhile(s: string, strip: char -> bool): (r: string)
    ensures |r| <= |s| && r == s[..|r|]
    ensures forall k :: |r| <= k < |s| ==> strip(s[k])
    ensures r == [] || !strip(r[|r| - 1])
  {
    if s != [] && strip(s[|s| - 1]) then TrimEndWhile(s[..|s| - 1], strip) else s
  }

  /** `trim_matches(strip)`: both ends. */
  function TrimWhile(s: string, strip: char -> bool): string {
    TrimEndWhile(TrimStartWhile(s, strip), strip)
  }

  /** `str::trim`. */
  function Trim(s: string): string { TrimWhile(s, IsWhitespace) }

  /** Everything before i and from j on is stripped. */
  predicate StrippedOutside(s: string, strip: char -> bool, i: nat, j: nat) {
    && i <= j <= |s|
    && (forall k :: 0 <= k < i ==> strip(s[k]))
    && (forall k :: j <= k < |s| ==> strip(s[k]))
  }

  /** Where the trimmed text sits in the input. */
  function TrimStart(s: string, strip: char -> bool): nat { |s| - |TrimStartWhile(s, strip)| }

  lemma TrimWhileSlice(s: string, strip: char -> bool)
    ensures var i := TrimStart(s, strip);
      StrippedOutside(s, strip, i, i + |TrimWhile(s, strip)|)
      && TrimWhile(s, strip) == s[i..i + |TrimWhile(s, strip)|]
  {
    var t := TrimStartWhile(s, strip);
    var r := TrimEndWhile(t, strip);
    var i := |s| - |t|;
    var j := i + |r|;
    assert r == s[i..j] by {
      assert t == s[i..] && r == t[..|r|];
    }
    forall k | j <= k < |s| ensures strip(s[k]) {
      assert s[k] == t[k - i];
    }
  }

  /** What trimming leaves is a contiguous piece of the input with only strippable characters
      around it ... */
  lemma TrimWhileShape(s: string, strip: char -> bool)
    ensures exists i: nat, j: nat :: StrippedOutside(s, strip, i, j) && TrimWhile(s, strip) == s[i..j]
  {
    TrimWhileSlice(s, strip);
  }

  /** ... and with nothing to strip at either end. */
  lemma TrimWhileEnds(s: string, strip: char -> bool)
    ensures var r := TrimWhile(s, strip); r == [] || (!strip(r[0]) && !strip(r[|r| - 1]))
  {
    var t := TrimStartWhile(s, strip);
    var r := TrimEndWhile(t, strip);
    if r != [] {
      assert r[0] == t[0];
    }
  }

  /** Trimming the start of u + v, where u is all strippable and v does not start with a
      strippable character, leaves v. */
  lemma {:induction false} TrimStartPrefix(u: string, v: string, strip: char -> bool)
    requires forall k :: 0 <= k < |u| ==> strip(u[k])
    requires v == [] || !strip(v[0])
    ensures TrimStartWhile(u + v, strip) == v
    decreases |u|
  {
    if u == [] {
      assert u + v == v;
    } else {
      assert (u + v)[0] == u[0] && (u + v)[1..] == u[1..] + v;
      TrimStartPrefix(u[1..], v, strip);
    }
  }

  /** Trimming the end of u + v, where v is all strippable and u does not end with a
      strippable character, leaves u. */
  lemma {:induction false} TrimEndSuffix(u: string, v: string, strip: char -> bool)
    requires forall k :: 0 <= k < |v| ==> strip(v[k])
    requires u == [] || !strip(u[|u| - 1])
    ensures TrimEndWhile(u + v, strip) == u
    decreases |v|
  {
    if v == [] {
      assert u + v == u;
    } else {
      var w := u + v;
      assert w[|w| - 1] == v[|v| - 1] && w[..|w| - 1] == u + v[..|v| - 1];
      TrimEndSuffix(u, v[..|v| - 1], strip);
    }
  }

  /** Trimming twice is trimming once. */
  lemma TrimWhileIdempotent(s: string, strip: char -> bool)
    ensures TrimWhile(TrimWhile(s, strip), strip) == TrimWhile(s, strip)
  {
    var t := TrimStartWhile(s, strip);
    var r := TrimEndWhile(t, strip);
    assert r == [] || !strip(r[0]) by {
      if r != [] { assert r[0] == t[0]; }
    }
    assert TrimStartWhile(r, strip) == r;
    assert TrimEndWhile(r, strip) == r;
  }

  /** Stripping brackets from a bracket-wrapped text that does not itself start or end with a
      bracket gives back that text. */
  lemma StripWrappingBrackets(x: string)
    requires x == [] || (!IsBracket(x[0]) && !IsBracket(x[|x| - 1]))
    ensures TrimWhile("[" + x + "]", IsBracket) == x
  {
    var w := "[" + x + "]";
    assert w[1..] == x + "]";
    assert TrimStartWhile(w, IsBracket) == TrimStartWhile(x + "]", IsBracket);
    if x == [] {
      assert TrimStartWhile("]", IsBracket) == TrimStartWhile([], IsBracket);
    } else {
      assert (x + "]")[0] == x[0];
    }
    assert (x + "]")[..|x|] == x;
  }

  /** `str::split(c)`: the fields between occurrences of c; an empty input has one empty field. */
  function Split(s: string, c: char): (parts: seq<string>)
    ensures |parts| >= 1
    decreases |s|
  {
    if s == [] then [[]]
    else
      var rest := Split(s[1..], c);
      if s[0] == c then [[]] + rest else [[s[0]] + rest[0]] + rest[1..]
  }

  /** Joins fields with the separator, the inverse of Split. */
  function Join(parts: seq<string>, c: char): string
    requires |parts| >= 1
  {
    if |parts| == 1 then parts[0] else parts[0] + [c] + Join(parts[1..], c)
  }

  /** Split loses nothing: joining the fields back with the separator gives the input. */
  lemma {:induction false} JoinSplit(s: string, c: char)
    ensures Join(Split(s, c), c) == s
    decreases |s|
  {
    if s != [] {
      var rest := Split(s[1..], c);
      JoinSplit(s[1..], c);
      if s[0] == c {
        assert Split(s, c)[1..] == rest;
        assert s == [c] + s[1..];
      } else {
        var parts := Split(s, c);
        assert parts[0] == [s[0]] + rest[0];
        if |rest| == 1 {
          assert parts == [[s[0]] + rest[0]];
        } else {
          assert parts[1..] == rest[1..];
        }
      }
    }
  }

  /** No field contains the separator, and there are at least two fields exactly when the
      separator occurs. */
  lemma {:induction false} SplitFields(s: string, c: char)
    ensures forall k :: 0 <= k < |Split(s, c)| ==> c !in Split(s, c)[k]
    ensures |Split(s, c)| >= 2 <==> c in s
    decreases |s|
  {
    if s != [] {
      SplitFields(s[1..], c);
      var rest := Split(s[1..], c);
      var parts := Split(s, c);
      if s[0] != c {
        assert forall k :: 1 <= k < |parts| ==> parts[k] == rest[k];
        assert c in s <==> c in s[1..] by {
          assert s == [s[0]] + s[1..];
        }
      }
    }
  }

  /** `str::rfind(c)`: the position of the last occurrence of c. */
  function LastIndexOf(s: string, c: char): (r: Option<nat>)
    ensures r.Some? ==> r.value < |s| && s[r.value] == c
    ensures r.Some? ==> forall j :: r.value < j < |s| ==> s[j] != c
    ensures r.None? ==> c !in s
  {
    if s == [] then None
    else if s[|s| - 1] == c then Some(|s| - 1)
    else LastIndexOf(s[..|s| - 1], c)
  }

  datatype Ordering = Less | Equal | Greater

  function Flip(o: Ordering): Ordering {
    match o
    case Less => Greater
    case Equal => Equal
    case Greater => Less
  }

  /** `Ord for String`: lexicographic by code point, which is also the byte order of UTF-8. */
  function LexCompare(a: string, b: string): Ordering {
    if a == [] && b == [] then Equal
    else if a == [] then Less
    else if b == [] then Greater
    else if a[0] < b[0] then Less
    else if a[0] > b[0] then Greater
    else LexCompare(a[1..], b[1..])
  }

  /** Swapping the arguments flips the answer, and only identical strings compare Equal. */
  lemma {:induction false} LexCompareFlip(a: string, b: string)
    ensures LexCompare(b, a) == Flip(LexCompare(a, b))
    ensures LexCompare(a, b) == Equal <==> a == b
  {
    if a != [] && b != [] && a[0] == b[0] {
      LexCompareFlip(a[1..], b[1..]);
      assert a == [a[0]] + a[1..] && b == [b[0]] + b[1..];
    }
  }

  lemma {:induction false} LexCompareTransitive(a: string, b: string, c: string)
    requires LexCompare(a, b) != Greater && LexCompare(b, c) != Greater
    ensures LexCompare(a, c) != Greater
  {
    if a != [] && b != [] && c != [] && a[0] == b[0] && b[0] == c[0] {
      LexCompareTransitive(a[1..], b[1..], c[1..]);
    }
  }
}
