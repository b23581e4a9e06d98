/**
 * The string primitives the JavaScript code relies on: `startsWith`,
 * `includes`, `split`, `join` and the decimal rendering of a number.
 * Strings are sequences of characters.
 */
module Text {

  /** `s.startsWith(p)`. */
  predicate StartsWith(s: string, p: string)
  {
    |p| <= |s| && s[..|p|] == p
  }

  /** `s.includes(pat)`: some position of `s` starts an occurrence of `pat`. */
  predicate Contains(s: string, pat: string)
    decreases |s|
  {
    StartsWith(s, pat) || (|s| > 0 && Contains(s[1..], pat))
  }

  /**
   * `s.split(sep)` for a non-empty separator: occurrences are found left to
   * right without overlap, and the pieces between them are returned in order.
   */
  function SplitOn(s: string, sep: string): (parts: seq<string>)
    requires |sep| > 0
    ensures |parts| >= 1
    decreases |s|
  {
    if |s| < |sep| then [s]
    else if s[..|sep|] == sep then [""] + SplitOn(s[|sep|..], sep)
    else
      var rest := SplitOn(s[1..], sep);
      [[s[0]] + rest[0]] + rest[1..]
  }

  /** `parts.join(sep)`. */
  function Join(parts: seq<string>, sep: string): string
  {
    if |parts| == 0 then ""
    else if |parts| == 1 then parts[0]
    else parts[0] + sep + Join(parts[1..], sep)
  }

  /** The digit character for `d < 10`. */
  function DigitChar(d: nat): (c: char)
    requires d < 10
    ensures '0' <= c <= '9'
  {
    ['0','1','2','3','4','5','6','7','8','9'][d]
  }

  predicate IsDigits(s: string)
  {
    |s| > 0 && forall i :: 0 <= i < |s| ==> '0' <= s[i] <= '9'
  }

  /** The decimal rendering of a natural number (template literal `${n}`). */
  function DecimalString(n: nat): (s: string)
    ensures IsDigits(s)
    ensures n < 10 <==> |s| == 1
    decreases n
  {
    if n < 10 then [DigitChar(n)] else DecimalString(n / 10) + [DigitChar(n % 10)]
  }

  /** Distinct numbers have distinct renderings. */
  lemma {:induction false} DecimalStringInjective(n: nat, m: nat)
    requires DecimalString(n) == DecimalString(m)
    ensures n == m
    decreases n
  {
    var s := DecimalString(n);
    if n >= 10 && m >= 10 {
      assert DecimalString(n / 10) == s[..|s| - 1] == DecimalString(m / 10);
      DecimalStringInjective(n / 10, m / 10);
      assert DigitChar(n % 10) == s[|s| - 1] == DigitChar(m % 10);
    }
  }

  /** Splitting a string that holds no separator character gives it back whole. */
  lemma {:induction false} SplitOnNoSeparator(p: string, sep: string)
    requires |sep| > 0 && sep[0] !in p
    ensures SplitOn(p, sep) == [p]
    decreases |p|
  {
    if |p| >= |sep| {
      assert p[..|sep|][0] == p[0] != sep[0];
      SplitOnNoSeparator(p[1..], sep);
      assert [p[0]] + p[1..] == p;
    }
  }

  /** A piece free of the separator's first character is cut off exactly at the separator. */
  lemma {:induction false} SplitOnPrefix(p: string, sep: string, rest: string)
    requires |sep| > 0 && sep[0] !in p
    ensures SplitOn(p + sep + rest, sep) == [p] + SplitOn(rest, sep)
    decreases |p|
  {
    var s := p + sep + rest;
    if |p| == 0 {
      assert s == sep + rest;
      assert s[..|sep|] == sep;
      assert s[|sep|..] == rest;
    } else {
      assert s[..|sep|][0] == p[0] != sep[0];
      assert s[1..] == p[1..] + sep + rest;
      SplitOnPrefix(p[1..], sep, rest);
      assert [p[0]] + p[1..] == p;
    }
  }

  /** `split` undoes `join` when no piece holds the separator's first character. */
  lemma {:induction false} SplitJoin(parts: seq<string>, sep: string)
    requires |sep| > 0 && |parts| > 0
    requires forall i :: 0 <= i < |parts| ==> sep[0] !in parts[i]
    ensures SplitOn(Join(parts, sep), sep) == parts
    decreases |parts|
  {
    if |parts| == 1 {
      SplitOnNoSeparator(parts[0], sep);
    } else {
      SplitOnPrefix(parts[0], sep, Join(parts[1..], sep));
      SplitJoin(parts[1..], sep);
    }
  }

  /** A first piece that starts with `pre` puts `pre` in front of the whole join. */
  lemma JoinFirstWord(words: seq<string>, sep: string, pre: string, first: string)
    requires |words| > 0 && words[0] == pre + first
    ensures Join(words, sep) == pre + Join([first] + words[1..], sep)
  {
    var w := [first] + words[1..];
    assert w[1..] == words[1..];
    if |words| > 1 {
      assert (pre + first) + sep + Join(words[1..], sep) == pre + (first + sep + Join(words[1..], sep));
    }
  }

  /** Joining with a trailing empty piece appends one more separator. */
  lemma {:induction false} JoinTrailing(parts: seq<string>, sep: string)
    requires |parts| > 0
    ensures Join(parts + [""], sep) == Join(parts, sep) + sep
    decreases |parts|
  {
    if |parts| == 1 {
      assert Join([""], sep) == "";
    } else {
      assert (parts + [""])[1..] == parts[1..] + [""];
      JoinTrailing(parts[1..], sep);
    }
  }

  /** A pattern holding a character that `s` lacks does not occur in `s`. */
  lemma {:induction false} NotContainsMissingChar(s: string, pat: string, c: char)
    requires c in pat && c !in s
    ensures !Contains(s, pat)
    decreases |s|
  {
    if |pat| <= |s| {
      var k :| 0 <= k < |pat| && pat[k] == c;
      assert s[..|pat|][k] != pat[k];
    }
    if |s| > 0 {
      NotContainsMissingChar(s[1..], pat, c);
    }
  }

  /**
   * A pattern without `c` that occurs in `a + [c] + b` occurs in `a` or in `b`:
   * an occurrence cannot straddle the character `c`.
   */
  lemma {:induction false} ContainsAcross(a: string, c: char, b: string, pat: string)
    requires |pat| > 0 && c !in pat
    requires Contains(a + [c] + b, pat)
    ensures Contains(a, pat) || Contains(b, pat)
    decreases |a|
  {
    var s := a + [c] + b;
    if |a| < |pat| <= |s| {
      assert s[..|pat|][|a|] == c != pat[|a|];
    }
    if |pat| <= |a| {
      assert a[..|pat|] == s[..|pat|];
    }
    if !StartsWith(s, pat) {
      if |a| == 0 {
        assert s[1..] == b;
      } else {
        assert s[1..] == a[1..] + [c] + b;
        ContainsAcross(a[1..], c, b, pat);
      }
    }
  }

  /** Words joined by spaces, none holding a space-free `pat`: the whole does not hold it either. */
  lemma {:induction false} JoinNotContains(words: seq<string>, pat: string)
    requires |pat| > 0 && ' ' !in pat
    requires forall i :: 0 <= i < |words| ==> !Contains(words[i], pat)
    ensures !Contains(Join(words, " "), pat)
    decreases |words|
  {
    if |words| > 1 {
      JoinNotContains(words[1..], pat);
      if Contains(Join(words, " "), pat) {
        assert Join(words, " ") == words[0] + [' '] + Join(words[1..], " ");
        ContainsAcross(words[0], ' ', Join(words[1..], " "), pat);
      }
    } else if |words| == 0 {
      assert !Contains("", pat);
    }
  }

  /** An occurrence stays an occurrence when text is appended. */
  lemma {:induction false} ContainsAppend(s: string, b: string, pat: string)
    requires Contains(s, pat)
    ensures Contains(s + b, pat)
    decreases |s|
  {
    if StartsWith(s, pat) {
      assert (s + b)[..|pat|] == s[..|pat|];
    } else {
      assert (s + b)[1..] == s[1..] + b;
      ContainsAppend(s[1..], b, pat);
    }
  }

  /** An occurrence stays an occurrence when text is prepended. */
  lemma {:induction false} ContainsPrepend(a: string, s: string, pat: string)
    requires Contains(s, pat)
    ensures Contains(a + s, pat)
    decreases |a|
  {
    if |a| > 0 {
      assert (a + s)[1..] == a[1..] + s;
      ContainsPrepend(a[1..], s, pat);
    } else {
      assert a + s == s;
    }
  }

  /** The first piece of a split is a prefix of the string. */
  lemma {:induction false} SplitFirstPrefix(s: string, sep: string)
    requires |sep| > 0
    ensures |SplitOn(s, sep)[0]| <= |s| && s[..|SplitOn(s, sep)[0]|] == SplitOn(s, sep)[0]
    decreases |s|
  {
    if |s| >= |sep| && s[..|sep|] != sep {
      SplitFirstPrefix(s[1..], sep);
      var r0 := SplitOn(s[1..], sep)[0];
      assert SplitOn(s, sep)[0] == [s[0]] + r0;
      assert s[..|r0| + 1] == [s[0]] + s[1..][..|r0|];
    }
  }

  /** A piece of a split that holds `pat` means the whole string holds it. */
  lemma {:induction false} SplitPieceContains(s: string, sep: string, i: nat, pat: string)
    requires |sep| > 0 && i < |SplitOn(s, sep)| && Contains(SplitOn(s, sep)[i], pat)
    ensures Contains(s, pat)
    decreases |s|
  {
    if |pat| == 0 {
      assert s[..0] == pat;
    } else if |s| >= |sep| && s[..|sep|] == sep && i > 0 {
      SplitPieceContains(s[|sep|..], sep, i - 1, pat);
      assert s == s[..|sep|] + s[|sep|..];
      ContainsPrepend(s[..|sep|], s[|sep|..], pat);
    } else if |s| >= |sep| && s[..|sep|] != sep {
      var rest := SplitOn(s[1..], sep);
      if i == 0 {
        var p0 := [s[0]] + rest[0];
        assert SplitOn(s, sep)[0] == p0;
        if StartsWith(p0, pat) {
          SplitFirstPrefix(s[1..], sep);
          assert s[..|p0|] == [s[0]] + s[1..][..|rest[0]|] == p0;
          assert s[..|pat|] == p0[..|pat|];
        } else {
          SplitPieceContains(s[1..], sep, 0, pat);
        }
      } else {
        assert SplitOn(s, sep)[i] == rest[i];
        SplitPieceContains(s[1..], sep, i, pat);
      }
    }
  }
}
