/** The string operations the pipeline relies on: Python's `str.strip()`,
    `sep.join(...)` and its inverse `str.split(sep)`, for a one-character
    separator. Strings are sequences of Unicode scalar values. */
module Text {

  /** Python's `str.isspace()` for one character: the characters that
      `str.strip()` with no argument removes. */
  predicate IsSpace(c: char) {
    || ('\U{9}' <= c && c <= '\U{D}')
    || ('\U{1C}' <= c && c <= '\U{20}')
    || c == '\U{85}'
    || c == '\U{A0}'
    || c == '\U{1680}'
    || ('\U{2000}' <= c && c <= '\U{200A}')
    || c == '\U{2028}'
    || c == '\U{2029}'
    || c == '\U{202F}'
    || c == '\U{205F}'
    || c == '\U{3000}'
  }

  predicate AllSpace(s: string) {
    forall k :: 0 <= k < |s| ==> IsSpace(s[k])
  }

  /** Neither end of `s` is whitespace. */
  predicate IsStripped(s: string) {
    |s| == 0 || (!IsSpace(s[0]) && !IsSpace(s[|s| - 1]))
  }

  /** Reference meaning of stripping: `r` is the slice of `s` left after
      removing a whitespace-only prefix and a whitespace-only suffix, and no
      more whitespace can be removed from either end. */
  ghost predicate StripsTo(s: string, r: string) {
    exists i, j :: 0 <= i <= j <= |s| && r == s[i..j]
      && AllSpace(s[..i]) && AllSpace(s[j..]) && IsStripped(r)
  }

  /** Number of leading whitespace characters of `s`. */
  function LeadingSpace(s: string): (i: nat)
    ensures i <= |s|
    ensures AllSpace(s[..i])
    ensures i < |s| ==> !IsSpace(s[i])
  {
    if |s| == 0 || !IsSpace(s[0]) then 0
    else
      var j := LeadingSpace(s[1..]);
      assert forall k :: 1 <= k < 1 + j ==> s[k] == s[1..][..j][k - 1];
      1 + j
  }

  /** Index just past the last non-whitespace character of `s`. */
  function TrailingEnd(s: string): (j: nat)
    ensures j <= |s|
    ensures AllSpace(s[j..])
    ensures j > 0 ==> !IsSpace(s[j - 1])
  {
    if |s| == 0 || !IsSpace(s[|s| - 1]) then |s|
    else
      var j := TrailingEnd(s[..|s| - 1]);
      assert forall k :: j <= k < |s| - 1 ==> s[k] == s[..|s| - 1][j..][k - j];
      j
  }

  lemma StripsToWitness(s: string, r: string, i: nat, j: nat)
    requires i <= j <= |s| && r == s[i..j]
    requires AllSpace(s[..i]) && AllSpace(s[j..]) && IsStripped(r)
    ensures StripsTo(s, r)
  {
  }

  /** Python's `s.strip()`. */
  function Strip(s: string): (r: string)
    ensures StripsTo(s, r)
    ensures |r| == 0 <==> AllSpace(s)
    ensures |r| <= |s|
  {
    var i := LeadingSpace(s);
    var j := TrailingEnd(s);
    if i == |s| then
      assert s[..i] == s;
      StripsToWitness(s, "", i, i);
      ""
    else
      assert i < j;
      assert s[i..j][0] == s[i] && s[i..j][j - i - 1] == s[j - 1];
      StripsToWitness(s, s[i..j], i, j);
      s[i..j]
  }

  lemma LeadingSpaceUnique(s: string, i: nat)
    requires i < |s| && AllSpace(s[..i]) && !IsSpace(s[i])
    ensures LeadingSpace(s) == i
  {
  }

  lemma TrailingEndUnique(s: string, j: nat)
    requires 0 < j <= |s| && AllSpace(s[j..]) && !IsSpace(s[j - 1])
    ensures TrailingEnd(s) == j
  {
  }

  /** A string whose parts before and after `i` are all whitespace is all
      whitespace. */
  lemma AllSpaceAround(s: string, i: nat)
    requires i <= |s| && AllSpace(s[..i]) && AllSpace(s[i..])
    ensures AllSpace(s)
  {
    forall k | 0 <= k < |s|
      ensures IsSpace(s[k])
    {
      if k < i {
        assert s[..i][k] == s[k];
      } else {
        assert s[i..][k - i] == s[k];
      }
    }
  }

  /** Stripping keeps exactly the span between whitespace-only ends when
      that span starts and ends with non-whitespace. */
  lemma StripBetween(s: string, i: nat, j: nat)
    requires i < j <= |s|
    requires AllSpace(s[..i]) && !IsSpace(s[i])
    requires AllSpace(s[j..]) && !IsSpace(s[j - 1])
    ensures Strip(s) == s[i..j]
  {
    LeadingSpaceUnique(s, i);
    TrailingEndUnique(s, j);
  }

  /** Stripping is unique: `Strip` returns the one string `StripsTo`
      describes, so the reference meaning fully determines it. */
  lemma StripUnique(s: string, r: string)
    requires StripsTo(s, r)
    ensures r == Strip(s)
  {
    var i, j :| 0 <= i <= j <= |s| && r == s[i..j]
      && AllSpace(s[..i]) && AllSpace(s[j..]) && IsStripped(r);
    StripUniqueAt(s, r, i, j);
  }

  /** `StripUnique` for given bounds of the kept span. */
  lemma StripUniqueAt(s: string, r: string, i: nat, j: nat)
    requires i <= j <= |s| && r == s[i..j]
    requires AllSpace(s[..i]) && AllSpace(s[j..]) && IsStripped(r)
    ensures r == Strip(s)
  {
    if i == j {
      AllSpaceAround(s, i);
    } else {
      assert s[i] == r[0] && s[j - 1] == r[|r| - 1];
      StripBetween(s, i, j);
    }
  }

  /** Python's `sep.join(xs)` for a one-character separator. */
  function Join(xs: seq<string>, sep: char): (r: string)
  {
    if |xs| == 0 then ""
    else if |xs| == 1 then xs[0]
    else xs[0] + [sep] + Join(xs[1..], sep)
  }

  /** Where the k-th piece starts in a join with a one-character separator:
      the lengths of the pieces before it, plus one separator after each. */
  function Offset(xs: seq<string>, k: nat): nat
    requires k <= |xs|
  {
    if k == 0 then 0 else |xs[0]| + 1 + Offset(xs[1..], k - 1)
  }

  /** The k-th piece sits in the join at its offset, with a separator just
      before it unless it is the first. */
  lemma {:induction false} JoinPositionAt(xs: seq<string>, sep: char, k: nat)
    requires k < |xs|
    ensures Offset(xs, k) + |xs[k]| <= |Join(xs, sep)|
    ensures Join(xs, sep)[Offset(xs, k)..Offset(xs, k) + |xs[k]|] == xs[k]
    ensures k > 0 ==> Join(xs, sep)[Offset(xs, k) - 1] == sep
    decreases k
  {
    var j := Join(xs, sep);
    if k == 0 {
      if |xs| >= 2 {
        assert j == xs[0] + ([sep] + Join(xs[1..], sep));
      }
      assert j[0..|xs[0]|] == xs[0];
    } else {
      var tail := xs[1..];
      var h := xs[0] + [sep];
      var jt := Join(tail, sep);
      JoinPositionAt(tail, sep, k - 1);
      var o := Offset(tail, k - 1);
      assert j == h + jt;
      assert Offset(xs, k) == |h| + o;
      assert xs[k] == tail[k - 1];
      assert j[|h| + o..|h| + o + |xs[k]|] == jt[o..o + |xs[k]|];
      assert j[|h| + o - 1] == (if o == 0 then sep else jt[o - 1]);
    }
  }

  /** Each piece sits in the join at its offset, and a separator sits just
      before every piece but the first. */
  lemma {:induction false} JoinPositions(xs: seq<string>, sep: char)
    ensures forall k :: 0 <= k < |xs| ==>
              Offset(xs, k) + |xs[k]| <= |Join(xs, sep)|
              && Join(xs, sep)[Offset(xs, k)..Offset(xs, k) + |xs[k]|] == xs[k]
    ensures forall k :: 0 < k < |xs| ==> Join(xs, sep)[Offset(xs, k) - 1] == sep
  {
    forall k | 0 <= k < |xs|
      ensures Offset(xs, k) + |xs[k]| <= |Join(xs, sep)|
      ensures Join(xs, sep)[Offset(xs, k)..Offset(xs, k) + |xs[k]|] == xs[k]
      ensures k > 0 ==> Join(xs, sep)[Offset(xs, k) - 1] == sep
    {
      JoinPositionAt(xs, sep, k);
    }
  }

  /** Python's `s.split(sep)` for a one-character separator: every occurrence
      of `sep` ends a field, empty fields are kept, and the empty string
      splits into one empty field. */
  function Split(s: string, sep: char): (r: seq<string>)
    ensures |r| >= 1
    ensures forall k :: 0 <= k < |r| ==> sep !in r[k]
  {
    if |s| == 0 then [""]
    else
      var rest := Split(s[1..], sep);
      if s[0] == sep then [""] + rest
      else [[s[0]] + rest[0]] + rest[1..]
  }

  lemma JoinPrepend(c: char, xs: seq<string>, sep: char)
    requires |xs| >= 1
    ensures Join([[c] + xs[0]] + xs[1..], sep) == [c] + Join(xs, sep)
  {
    var ys := [[c] + xs[0]] + xs[1..];
    assert ys[1..] == xs[1..];
  }

  /** Joining the fields of a split restores the string. */
  lemma {:induction false} JoinSplit(s: string, sep: char)
    ensures Join(Split(s, sep), sep) == s
  {
    if |s| > 0 {
      var rest := Split(s[1..], sep);
      JoinSplit(s[1..], sep);
      if s[0] == sep {
        var ys := [""] + rest;
        assert ys[1..] == rest;
        assert s == [sep] + s[1..];
      } else {
        JoinPrepend(s[0], rest, sep);
        assert s == [s[0]] + s[1..];
      }
    }
  }

  /** Splitting a string that starts with a separator-free field `x`. */
  lemma {:induction false} SplitPrefix(x: string, t: string, sep: char)
    requires sep !in x
    ensures Split(x + t, sep) == [x + Split(t, sep)[0]] + Split(t, sep)[1..]
  {
    if |x| > 0 {
      SplitPrefix(x[1..], t, sep);
      assert (x + t)[1..] == x[1..] + t;
      assert [x[0]] + (x[1..] + Split(t, sep)[0]) == x + Split(t, sep)[0];
    } else {
      var r := Split(t, sep);
      assert x + t == t && x + r[0] == r[0];
      assert r == [r[0]] + r[1..];
    }
  }

  /** Splitting a join restores the pieces, provided there is at least one
      piece and no piece contains the separator. */
  lemma {:induction false} SplitJoin(xs: seq<string>, sep: char)
    requires |xs| >= 1
    requires forall k :: 0 <= k < |xs| ==> sep !in xs[k]
    ensures Split(Join(xs, sep), sep) == xs
  {
    if |xs| == 1 {
      SplitPrefix(xs[0], "", sep);
      assert xs[0] + "" == xs[0];
    } else {
      var j := Join(xs[1..], sep);
      SplitJoin(xs[1..], sep);
      assert Join(xs, sep) == xs[0] + ([sep] + j);
      SplitPrefix(xs[0], [sep] + j, sep);
      assert ([sep] + j)[0] == sep && ([sep] + j)[1..] == j;
      var sj := Split([sep] + j, sep);
      assert sj == [""] + Split(j, sep);
      assert sj[0] == "" && sj[1..] == xs[1..];
      assert xs[0] + "" == xs[0];
      assert xs == [xs[0]] + xs[1..];
    }
  }

  /** Length of a join: the pieces plus one separator between neighbours. */
  lemma {:induction false} JoinLength(xs: seq<string>, sep: char)
    ensures |xs| >= 1 ==> |Join(xs, sep)| == TotalLength(xs) + |xs| - 1
  {
    if |xs| > 1 {
      JoinLength(xs[1..], sep);
    }
  }

  function TotalLength(xs: seq<string>): nat {
    if |xs| == 0 then 0 else |xs[0]| + TotalLength(xs[1..])
  }
}
