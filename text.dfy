/** The Python string operations the scripts rely on: `in`, `replace`, `strip` and
    `split(c)[-1]`, as functions over `seq<char>`. */
module Text {

  /** `p` is a prefix of `s`: the building block of `in` below. */
  predicate StartsWith(s: string, p: string) {
    |p| <= |s| && s[..|p|] == p
  }

  /** `p in s`: some position of `s` starts an occurrence of `p`. */
  predicate Contains(s: string, p: string)
    decreases |s|
  {
    StartsWith(s, p) || (|s| > 0 && Contains(s[1..], p))
  }

  /** `s.replace(pat, rep)`: scans left to right and replaces every non-overlapping
      occurrence of `pat`, resuming after each replaced occurrence. */
  function Replace(s: string, pat: string, rep: string): (r: string)
    requires |pat| > 0
    ensures !Contains(s, pat) ==> r == s
    decreases |s|
  {
    if |s| < |pat| then s
    else if s[..|pat|] == pat then rep + Replace(s[|pat|..], pat, rep)
    else [s[0]] + Replace(s[1..], pat, rep)
  }

  /** The characters below U+0080 that Python's `str.strip()` removes. */
  predicate IsWhitespace(c: char) {
    c == ' ' || '\t' <= c <= '\r' || '\U{001C}' <= c <= '\U{001F}'
  }

  /** How many whitespace characters `s` starts with. */
  function LeadingSpace(s: string): (n: nat)
    ensures n <= |s|
    ensures n < |s| ==> !IsWhitespace(s[n])
    decreases |s|
  {
    if |s| > 0 && IsWhitespace(s[0]) then 1 + LeadingSpace(s[1..]) else 0
  }

  /** How many whitespace characters `s` ends with. */
  function TrailingSpace(s: string): (n: nat)
    ensures n <= |s|
    ensures n < |s| ==> !IsWhitespace(s[|s| - n - 1])
    decreases |s|
  {
    if |s| > 0 && IsWhitespace(s[|s| - 1]) then 1 + TrailingSpace(s[..|s| - 1]) else 0
  }

  lemma {:induction false} LeadingSpaceIsWhitespace(s: string)
    ensures forall k :: 0 <= k < LeadingSpace(s) ==> IsWhitespace(s[k])
    decreases |s|
  {
    if |s| > 0 && IsWhitespace(s[0]) {
      LeadingSpaceIsWhitespace(s[1..]);
      forall k | 1 <= k < LeadingSpace(s)
        ensures IsWhitespace(s[k])
      {
        assert s[k] == s[1..][k - 1];
      }
    }
  }

  lemma {:induction false} TrailingSpaceIsWhitespace(s: string)
    ensures forall k :: |s| - TrailingSpace(s) <= k < |s| ==> IsWhitespace(s[k])
    decreases |s|
  {
    if |s| > 0 && IsWhitespace(s[|s| - 1]) {
      TrailingSpaceIsWhitespace(s[..|s| - 1]);
    }
  }

  /** `s.lstrip()`: the suffix left after every leading whitespace character is dropped. */
  function TrimStart(s: string): (r: string)
    ensures |r| <= |s| && r == s[|s| - |r|..]
    ensures |r| > 0 ==> !IsWhitespace(r[0])
  {
    s[LeadingSpace(s)..]
  }

  /** `s.rstrip()`: the prefix left after every trailing whitespace character is dropped. */
  function TrimEnd(s: string): (r: string)
    ensures |r| <= |s| && r == s[..|r|]
    ensures |r| > 0 ==> !IsWhitespace(r[|r| - 1])
  {
    s[..|s| - TrailingSpace(s)]
  }

  /** `s.strip()`: a contiguous piece of `s` with neither a leading nor a trailing
      whitespace character. */
  function Strip(s: string): (r: string)
    ensures |r| <= |s|
    ensures var i := |s| - |TrimStart(s)|; i + |r| <= |s| && r == s[i..i + |r|]
    ensures |r| > 0 ==> !IsWhitespace(r[0]) && !IsWhitespace(r[|r| - 1])
    ensures (|s| > 0 ==> !IsWhitespace(s[0]) && !IsWhitespace(s[|s| - 1])) ==> r == s
  {
    StripFacts(s);
    TrimEnd(TrimStart(s))
  }

  lemma {:induction false} StripFacts(s: string)
    ensures var t := TrimStart(s);
            var r := TrimEnd(t);
            && |s| - |t| + |r| <= |s| && r == s[|s| - |t|..|s| - |t| + |r|]
            && ((|s| > 0 ==> !IsWhitespace(s[0]) && !IsWhitespace(s[|s| - 1])) ==> r == s)
  {
    var i := LeadingSpace(s);
    var t := s[i..];
    var r := t[..|t| - TrailingSpace(t)];
    assert r == s[i..i + |r|];
    if |s| > 0 && !IsWhitespace(s[0]) && !IsWhitespace(s[|s| - 1]) {
      assert i == 0 && t == s;
      assert TrailingSpace(t) == 0;
    }
  }

  /** Stripping drops whitespace only: every character before and after the kept piece
      is whitespace. */
  lemma {:induction false} StripDropsWhitespace(s: string)
    ensures var i := |s| - |TrimStart(s)|;
            && (forall k :: 0 <= k < i ==> IsWhitespace(s[k]))
            && (forall k :: i + |Strip(s)| <= k < |s| ==> IsWhitespace(s[k]))
  {
    LeadingSpaceIsWhitespace(s);
    var t := TrimStart(s);
    var i := |s| - |t|;
    TrailingSpaceIsWhitespace(t);
    forall k | i + |Strip(s)| <= k < |s|
      ensures IsWhitespace(s[k])
    {
      assert s[k] == t[k - i];
    }
  }

  /** Where the text after the last `c` begins: just past the last `c`, or at 0. */
  function AfterLastStart(s: string, c: char): (k: nat)
    ensures k <= |s|
    ensures k > 0 ==> s[k - 1] == c
    decreases |s|
  {
    if |s| == 0 then 0
    else if s[|s| - 1] == c then |s|
    else AfterLastStart(s[..|s| - 1], c)
  }

  lemma {:induction false} NoSeparatorAfterLast(s: string, c: char)
    ensures forall j :: AfterLastStart(s, c) <= j < |s| ==> s[j] != c
    decreases |s|
  {
    if |s| > 0 && s[|s| - 1] != c {
      NoSeparatorAfterLast(s[..|s| - 1], c);
    }
  }

  /** `s.split(c)[-1]`: the longest suffix of `s` in which `c` does not occur. */
  function AfterLast(s: string, c: char): string {
    s[AfterLastStart(s, c)..]
  }

  /** The text after the last `c` is a suffix of `s` free of `c`, preceded in `s` by a
      `c` unless it is the whole of `s`. */
  lemma {:induction false} AfterLastMeaning(s: string, c: char)
    ensures var r := AfterLast(s, c);
            && |r| <= |s| && r == s[|s| - |r|..]
            && c !in r
            && (|r| < |s| ==> s[|s| - |r| - 1] == c)
  {
    NoSeparatorAfterLast(s, c);
  }

  lemma {:induction false} ContainsLength(s: string, p: string)
    requires Contains(s, p)
    ensures |p| <= |s|
    decreases |s|
  {
    if !StartsWith(s, p) {
      ContainsLength(s[1..], p);
    }
  }

  /** An occurrence inside a prefix is an occurrence in the whole string. */
  lemma {:induction false} ContainsInPrefix(s: string, n: nat, p: string)
    requires n <= |s| && Contains(s[..n], p)
    ensures Contains(s, p)
    decreases n
  {
    if StartsWith(s[..n], p) {
      assert s[..|p|] == s[..n][..|p|];
    } else {
      assert s[..n][1..] == s[1..][..n - 1];
      ContainsInPrefix(s[1..], n - 1, p);
    }
  }

  /** An occurrence inside a suffix is an occurrence in the whole string. */
  lemma {:induction false} ContainsInSuffix(s: string, i: nat, p: string)
    requires i <= |s| && Contains(s[i..], p)
    ensures Contains(s, p)
    decreases i
  {
    if i > 0 {
      assert s[1..][i - 1..] == s[i..];
      ContainsInSuffix(s[1..], i - 1, p);
    }
  }

  /** An occurrence inside any slice is an occurrence in the whole string. */
  lemma {:induction false} ContainsInSlice(s: string, i: nat, j: nat, p: string)
    requires i <= j <= |s| && Contains(s[i..j], p)
    ensures Contains(s, p)
  {
    assert s[i..j] == s[i..][..j - i];
    ContainsInPrefix(s[i..], j - i, p);
    ContainsInSuffix(s, i, p);
  }

  /** A string with a known first character starts with a pattern exactly when that
      character opens the pattern and the rest starts with the pattern's rest. */
  lemma {:induction false} StartsWithCons(c: char, y: string, w: string)
    requires |w| > 0
    ensures StartsWith([c] + y, w) <==> c == w[0] && StartsWith(y, w[1..])
  {
    var x := [c] + y;
    if |w| <= |x| {
      assert x[..|w|] == [c] + y[..|w| - 1];
      assert w == [w[0]] + w[1..];
    }
  }

  /** Stripping cannot create an occurrence of a pattern. */
  lemma {:induction false} StripKeepsAbsent(s: string, p: string)
    requires !Contains(s, p)
    ensures !Contains(Strip(s), p)
  {
    var r := Strip(s);
    var i := |s| - |TrimStart(s)|;
    if Contains(r, p) {
      ContainsInSlice(s, i, i + |r|, p);
      assert false;
    }
  }

  /** `Contains` agrees with the existence of a matching position. */
  lemma {:induction false} ContainsAt(s: string, p: string, i: nat)
    requires i + |p| <= |s| && s[i..i + |p|] == p
    ensures Contains(s, p)
  {
    assert s[i..i + |p|] == s[i..][..|p|];
    ContainsInSuffix(s, i, p);
  }

  /** Finding a pattern finds each of its prefixes. */
  lemma {:induction false} ContainsPatternPrefix(s: string, p: string, q: string)
    requires Contains(s, p + q)
    ensures Contains(s, p)
    decreases |s|
  {
    if StartsWith(s, p + q) {
      assert s[..|p|] == (p + q)[..|p|];
    } else {
      ContainsPatternPrefix(s[1..], p, q);
    }
  }

  /** A stretch of text that does not hold the pattern's first character is copied
      unchanged by `Replace`, which resumes at the end of that stretch. */
  lemma {:induction false} ReplaceSkipsFree(body: string, suffix: string, pat: string, rep: string)
    requires |pat| > 0 && pat[0] !in body
    ensures Replace(body + suffix, pat, rep) == body + Replace(suffix, pat, rep)
    decreases |body|
  {
    if |body| > 0 {
      var s := body + suffix;
      assert s[1..] == body[1..] + suffix;
      if |s| >= |pat| {
        assert s[..|pat|][0] == body[0] != pat[0];
        assert Replace(s, pat, rep) == [s[0]] + Replace(s[1..], pat, rep);
      } else {
        assert !Contains(suffix, pat) by {
          if Contains(suffix, pat) { ContainsLength(suffix, pat); }
        }
        assert !Contains(body[1..] + suffix, pat) by {
          if Contains(body[1..] + suffix, pat) { ContainsLength(body[1..] + suffix, pat); }
        }
      }
      ReplaceSkipsFree(body[1..], suffix, pat, rep);
      assert body == [body[0]] + body[1..];
    } else {
      assert body + suffix == suffix;
    }
  }
}
