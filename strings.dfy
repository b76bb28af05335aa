/** The .NET string operations the service relies on: `char.IsWhiteSpace`,
    `string.IsNullOrEmpty`, `string.IsNullOrWhiteSpace`, `Trim` and the
    ordinal `Replace`. */
module Strings {
  import opened Wrappers

  /** A C# `string`, which may be `null`. */
  type NString = Option<string>

  /** `char.IsWhiteSpace`: the Unicode separators (categories Zs, Zl, Zp)
      together with U+0009-U+000D, U+0085 and U+00A0. */
  predicate IsWhiteSpace(c: char) {
    || ('\t' <= c <= '\r')
    || c == ' '
    || c == '\U{0085}'
    || c == '\U{00A0}'
    || c == '\U{1680}'
    || ('\U{2000}' <= c <= '\U{200A}')
    || c == '\U{2028}'
    || c == '\U{2029}'
    || c == '\U{202F}'
    || c == '\U{205F}'
    || c == '\U{3000}'
  }

  /** Every white-space character is a single UTF-16 code unit, and none
      is a backtick, so trimming never cuts into a fence or a surrogate pair. */
  lemma WhiteSpaceInBmp(c: char)
    requires IsWhiteSpace(c)
    ensures c as int < 0x1_0000 && c != '`'
  {
  }

  predicate AllWhiteSpace(s: string) {
    forall i | 0 <= i < |s| :: IsWhiteSpace(s[i])
  }

  /** Neither the first nor the last character is white space. */
  predicate Trimmed(s: string) {
    s == [] || (!IsWhiteSpace(s[0]) && !IsWhiteSpace(s[|s| - 1]))
  }

  /** `string.IsNullOrEmpty`. */
  predicate IsNullOrEmpty(s: NString) {
    s.None? || s.value == []
  }

  /** `string.IsNullOrWhiteSpace`: `null`, or nothing is left once trimmed. */
  predicate IsNullOrWhiteSpace(s: NString)
    ensures IsNullOrWhiteSpace(s) <==> s.None? || Trim(s.value) == []
  {
    s.None? || (BlankIffTrimsToEmpty(s.value); AllWhiteSpace(s.value))
  }

  /** The service's `IsNullOrEmpty` guard is narrower than the controller's
      `IsNullOrWhiteSpace` gate: a null or empty text is also blank. */
  lemma NullOrEmptyIsBlank(s: NString)
    ensures IsNullOrEmpty(s) ==> IsNullOrWhiteSpace(s)
    ensures s == Some(" ") ==> !IsNullOrEmpty(s) && IsNullOrWhiteSpace(s)
  {
    if s.Some? && s.value == [] {
      assert AllWhiteSpace(s.value);
    } else if s == Some(" ") {
      assert IsWhiteSpace(s.value[0]);
      assert AllWhiteSpace(s.value);
    }
  }

  /** `s` with its leading white space removed. */
  function TrimStart(s: string): (r: string)
    ensures |r| <= |s| && r == s[|s| - |r|..]
    ensures AllWhiteSpace(s[..|s| - |r|])
    ensures r == [] || !IsWhiteSpace(r[0])
  {
    if s != [] && IsWhiteSpace(s[0]) then TrimStart(s[1..]) else s
  }

  /** `s` with its trailing white space removed. */
  function TrimEnd(s: string): (r: string)
    ensures |r| <= |s| && r == s[..|r|]
    ensures AllWhiteSpace(s[|r|..])
    ensures r == [] || !IsWhiteSpace(r[|r| - 1])
  {
    if s != [] && IsWhiteSpace(s[|s| - 1]) then
      var r := TrimEnd(s[..|s| - 1]);
      assert s[..|s| - 1][..|r|] == s[..|r|];
      assert s[|r|..] == s[..|s| - 1][|r|..] + [s[|s| - 1]];
      r
    else
      s
  }

  /** `r` is `s[k..k + |r|]` and everything around it is white space. */
  predicate MiddleOf(s: string, r: string, k: int) {
    && 0 <= k <= |s| - |r|
    && r == s[k..k + |r|]
    && AllWhiteSpace(s[..k])
    && AllWhiteSpace(s[k + |r|..])
  }

  /** Cutting white space off the front and then off the back leaves a
      middle part. */
  lemma MiddleOfParts(s: string, t: string, r: string)
    requires |t| <= |s| && t == s[|s| - |t|..] && AllWhiteSpace(s[..|s| - |t|])
    requires |r| <= |t| && r == t[..|r|] && AllWhiteSpace(t[|r|..])
    ensures MiddleOf(s, r, |s| - |t|)
  {
    var k := |s| - |t|;
    assert r == s[k..k + |r|];
    assert s[k + |r|..] == t[|r|..];
  }

  /** `string.Trim()`: the longest middle part of `s` that neither starts
      nor ends with white space; everything cut off on either side is
      white space. */
  function Trim(s: string): (r: string)
    ensures Trimmed(r)
    ensures exists k :: MiddleOf(s, r, k)
  {
    var t := TrimStart(s);
    var r := TrimEnd(t);
    MiddleOfParts(s, t, r);
    assert Trimmed(r) by {
      if r != [] {
        assert r[0] == t[0];
      }
    }
    r
  }

  /** A string is all white space exactly when trimming leaves nothing. */
  lemma BlankIffTrimsToEmpty(s: string)
    ensures AllWhiteSpace(s) <==> Trim(s) == []
  {
    var r := Trim(s);
    var k :| MiddleOf(s, r, k);
    if r == [] {
      forall i | 0 <= i < |s| ensures IsWhiteSpace(s[i]) {
        if i < k {
          assert s[i] == s[..k][i];
        } else {
          assert s[i] == s[k..][i - k];
        }
      }
    } else {
      assert r[0] == s[k];
    }
  }

  /** A string that is already trimmed is left as it is. */
  lemma TrimOfTrimmed(s: string)
    requires Trimmed(s)
    ensures Trim(s) == s
  {
    assert TrimStart(s) == s;
  }

  lemma TrimIdempotent(s: string)
    ensures Trim(Trim(s)) == Trim(s)
  {
    TrimOfTrimmed(Trim(s));
  }

  /** `p` occurs in `s` starting at index `i`. */
  predicate OccursAt(s: string, p: string, i: int) {
    0 <= i && i + |p| <= |s| && s[i..i + |p|] == p
  }

  predicate Contains(s: string, p: string) {
    exists i | 0 <= i <= |s| :: OccursAt(s, p, i)
  }

  /** A part of a string cannot contain what the whole does not. */
  lemma SliceKeepsAbsence(s: string, p: string, k: nat, j: nat)
    requires k <= j <= |s|
    requires !Contains(s, p)
    ensures !Contains(s[k..j], p)
  {
    var t := s[k..j];
    forall i | 0 <= i <= |t| ensures !OccursAt(t, p, i) {
      if OccursAt(t, p, i) {
        forall m | k + i <= m < k + i + |p| ensures s[m] == p[m - k - i] {
          assert t[i..i + |p|][m - k - i] == t[m - k];
        }
        assert OccursAt(s, p, k + i);
      }
    }
  }

  /** Trimming cannot create an occurrence. */
  lemma TrimKeepsAbsence(s: string, p: string)
    requires !Contains(s, p)
    ensures !Contains(Trim(s), p)
  {
    var r := Trim(s);
    var k :| MiddleOf(s, r, k);
    SliceKeepsAbsence(s, p, k, k + |r|);
  }

  /** `s.Replace(pat, rep)`: an ordinal scan from left to right that
      replaces each occurrence of `pat` and resumes after it, so that
      occurrences never overlap. .NET rejects an empty `pat`. */
  function ReplaceAll(s: string, pat: string, rep: string): (r: string)
    requires pat != []
    ensures |rep| <= |pat| ==> |r| <= |s|
    ensures |s| < |pat| ==> r == s
    decreases |s|
  {
    if |s| < |pat| then s
    else if s[..|pat|] == pat then rep + ReplaceAll(s[|pat|..], pat, rep)
    else [s[0]] + ReplaceAll(s[1..], pat, rep)
  }

  /** Without an occurrence, `Replace` returns its input. */
  lemma {:induction false} ReplaceAllAbsent(s: string, pat: string, rep: string)
    requires pat != []
    requires !Contains(s, pat)
    ensures ReplaceAll(s, pat, rep) == s
    decreases |s|
  {
    if |s| >= |pat| {
      assert !OccursAt(s, pat, 0);
      var t := s[1..];
      forall i | 0 <= i <= |t| ensures !OccursAt(t, pat, i) {
        if OccursAt(t, pat, i) {
          assert t[i..i + |pat|] == s[i + 1..i + 1 + |pat|];
          assert OccursAt(s, pat, i + 1);
        }
      }
      ReplaceAllAbsent(t, pat, rep);
    }
  }

  /** A prefix in which `pat` cannot start is copied unchanged, however far
      into the text the first occurrence lies. */
  lemma {:induction false} ReplaceAllSkipsPrefix(a: string, b: string, pat: string, rep: string)
    requires pat != []
    requires pat[0] !in a
    ensures ReplaceAll(a + b, pat, rep) == a + ReplaceAll(b, pat, rep)
    decreases |a|
  {
    var s := a + b;
    if a == [] {
      assert s == b;
    } else if |s| < |pat| {
      assert ReplaceAll(b, pat, rep) == b;
    } else {
      assert s[..|pat|][0] == a[0];
      assert s[..|pat|] != pat;
      assert ReplaceAll(s, pat, rep) == [a[0]] + ReplaceAll(s[1..], pat, rep);
      assert s[1..] == a[1..] + b;
      ReplaceAllSkipsPrefix(a[1..], b, pat, rep);
      assert a == [a[0]] + a[1..];
    }
  }

  /** A tail shorter than `pat` that lacks the last character of `pat` can
      take part in no occurrence, so it is copied unchanged. */
  lemma {:induction false} ReplaceAllShortTail(x: string, y: string, pat: string, rep: string)
    requires pat != []
    requires |y| < |pat|
    requires pat[|pat| - 1] !in y
    ensures ReplaceAll(x + y, pat, rep) == ReplaceAll(x, pat, rep) + y
    decreases |x|
  {
    var s := x + y;
    var n := |pat|;
    if |s| < n {
      assert ReplaceAll(x, pat, rep) == x;
    } else if s[..n] == pat {
      assert s[..n][n - 1] == pat[n - 1];
      assert |x| >= n;
      assert x[..n] == pat;
      assert s[n..] == x[n..] + y;
      ReplaceAllShortTail(x[n..], y, pat, rep);
    } else {
      assert x != [];
      assert s[1..] == x[1..] + y;
      ReplaceAllShortTail(x[1..], y, pat, rep);
      if |x| >= n {
        assert x[..n] == s[..n];
      } else {
        assert ReplaceAll(x[1..], pat, rep) == x[1..];
        assert x == [x[0]] + x[1..];
      }
    }
  }
}
