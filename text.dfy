/**
 * The Python string operations the mapper relies on (`str.strip`, `str.split`,
 * `str.replace`, `in`, `startswith`, `upper`, `lower`, `isalnum`), stated over
 * `seq<char>`.
 */
module Text {
  import opened Wrappers

  /** Python's `str.isspace` for one character. */
  predicate IsSpace(c: char)
  {
    ('\t' <= c <= '\r') || ('\U{1C}' <= c <= '\U{1F}') || c == ' ' || c == '\U{85}' || c == '\U{A0}'
    || c == '\U{1680}' || ('\U{2000}' <= c <= '\U{200A}') || c == '\U{2028}' || c == '\U{2029}'
    || c == '\U{202F}' || c == '\U{205F}' || c == '\U{3000}'
  }

  /** `str.lstrip()` with no argument: drops leading whitespace. */
  function LStrip(s: string): (r: string)
    ensures |r| <= |s| && r == s[|s| - |r|..]
    ensures r == [] || !IsSpace(r[0])
    ensures forall i | 0 <= i < |s| - |r| :: IsSpace(s[i])
    decreases |s|
  {
    if |s| > 0 && IsSpace(s[0]) then LStrip(s[1..]) else s
  }

  /** `str.rstrip()` with no argument: drops trailing whitespace. */
  function RStrip(s: string): (r: string)
    ensures |r| <= |s| && r == s[..|r|]
    ensures r == [] || !IsSpace(r[|r| - 1])
    ensures forall i | |r| <= i < |s| :: IsSpace(s[i])
    decreases |s|
  {
    if |s| > 0 && IsSpace(s[|s| - 1]) then RStrip(s[..|s| - 1]) else s
  }

  /** `str.strip()` with no argument. */
  function Strip(s: string): (r: string)
    ensures |r| <= |s|
    ensures r == [] || (!IsSpace(r[0]) && !IsSpace(r[|r| - 1]))
    ensures (forall i | 0 <= i < |s| :: !IsSpace(s[i])) ==> r == s
  {
    RStrip(LStrip(s))
  }

  /**
   * `strip` removes exactly a leading whitespace run (the first `k`
   * characters) and a trailing whitespace run: what is left is the slice of
   * `s` between them.
   */
  lemma {:induction false} StripTrims(s: string)
    ensures var r, k := Strip(s), |s| - |LStrip(s)|;
            && k + |r| <= |s| && r == s[k..k + |r|]
            && (forall i | 0 <= i < k :: IsSpace(s[i]))
            && (forall i | k + |r| <= i < |s| :: IsSpace(s[i]))
  {
    var l := LStrip(s);
    var r := RStrip(l);
    assert Strip(s) == r;
    TrimmedSlice(s, l, r, |s| - |l|);
  }

  /** A trailing run of `l == s[k..]` is a trailing run of `s`. */
  lemma {:induction false} TrimmedSlice(s: string, l: string, r: string, k: nat)
    requires k <= |s| && l == s[k..] && |r| <= |l| && r == l[..|r|]
    requires forall i | 0 <= i < k :: IsSpace(s[i])
    requires forall i | |r| <= i < |l| :: IsSpace(l[i])
    ensures k + |r| <= |s| && r == s[k..k + |r|]
    ensures forall i | 0 <= i < k :: IsSpace(s[i])
    ensures forall i | k + |r| <= i < |s| :: IsSpace(s[i])
  {
    forall i | k + |r| <= i < |s| ensures IsSpace(s[i]) {
      assert s[i] == l[i - k];
    }
  }

  predicate StartsWith(s: string, p: string)
  {
    |p| <= |s| && s[..|p|] == p
  }

  /** Python's substring test `p in s`. */
  predicate Contains(s: string, p: string)
    decreases |s|
  {
    StartsWith(s, p) || (|s| > 0 && Contains(s[1..], p))
  }

  /** `s.split(c, 1)` when `c in s`: the text before the first `c` and the text after it. */
  function SplitFirst(s: string, c: char): (r: Option<(string, string)>)
    ensures r.None? <==> c !in s
    ensures r.Some? ==> s == r.value.0 + [c] + r.value.1 && c !in r.value.0
    decreases |s|
  {
    if |s| == 0 then None
    else if s[0] == c then Some(([], s[1..]))
    else match SplitFirst(s[1..], c)
         case None => None
         case Some(parts) =>
           assert s == [s[0]] + s[1..];
           Some(([s[0]] + parts.0, parts.1))
  }

  /**
   * Python's `s.replace(p, r)`: scans left to right and replaces every
   * non-overlapping occurrence of `p` by `r`.
   */
  function ReplaceAll(s: string, p: string, r: string): string
    requires |p| > 0
    decreases |s|
  {
    if |s| < |p| then s
    else if s[..|p|] == p then r + ReplaceAll(s[|p|..], p, r)
    else [s[0]] + ReplaceAll(s[1..], p, r)
  }

  /** A string in which `p` does not occur is left alone by `replace`. */
  lemma {:induction false} ReplaceAllAbsent(s: string, p: string, r: string)
    requires |p| > 0 && !Contains(s, p)
    ensures ReplaceAll(s, p, r) == s
    decreases |s|
  {
    if |s| >= |p| {
      ReplaceAllAbsent(s[1..], p, r);
      assert [s[0]] + s[1..] == s;
    }
  }

  /** `c` does not occur in `s`. */
  predicate NoChar(s: string, c: char)
  {
    c !in s
  }

  /** Characters that cannot start `p` are copied through unchanged. */
  lemma {:induction false} ReplaceAllSkip(a: string, b: string, p: string, r: string)
    requires |p| > 0
    requires NoChar(a, p[0])
    ensures ReplaceAll(a + b, p, r) == a + ReplaceAll(b, p, r)
    decreases |a|
  {
    if |a| > 0 {
      var s := a + b;
      if |s| < |p| {
        assert ReplaceAll(s, p, r) == s;
        assert ReplaceAll(b, p, r) == b;
      } else {
        assert ReplaceAll(s, p, r) == [s[0]] + ReplaceAll(s[1..], p, r);
        assert s[..|p|][0] == a[0] != p[0];
        assert s[1..] == a[1..] + b;
        calc {
          ReplaceAll(s, p, r);
          [a[0]] + ReplaceAll(a[1..] + b, p, r);
          { ReplaceAllSkip(a[1..], b, p, r); }
          [a[0]] + (a[1..] + ReplaceAll(b, p, r));
          { assert [a[0]] + a[1..] == a; }
          a + ReplaceAll(b, p, r);
        }
      }
    } else {
      assert a + b == b;
    }
  }

  /** An occurrence of `p` at the front is replaced, and the scan resumes after it. */
  lemma ReplaceAllHit(b: string, p: string, r: string)
    requires |p| > 0
    ensures ReplaceAll(p + b, p, r) == r + ReplaceAll(b, p, r)
  {
    assert (p + b)[..|p|] == p;
    assert (p + b)[|p|..] == b;
  }

  /** The one occurrence of `p` in `a + p + b` is replaced, when `a` cannot start `p` and `b` does not contain it. */
  lemma ReplaceAllOnce(a: string, p: string, r: string, b: string)
    requires |p| > 0 && NoChar(a, p[0]) && !Contains(b, p)
    ensures ReplaceAll(a + p + b, p, r) == a + r + b
  {
    assert a + p + b == a + (p + b);
    ReplaceAllSkip(a, p + b, p, r);
    ReplaceAllHit(b, p, r);
    ReplaceAllAbsent(b, p, r);
    assert a + (r + b) == a + r + b;
  }

  /** A string shorter than `p` does not contain it. */
  lemma {:induction false} ContainsShort(s: string, p: string)
    requires |s| < |p|
    ensures !Contains(s, p)
    decreases |s|
  {
    if |s| > 0 {
      ContainsShort(s[1..], p);
    }
  }

  /** A prefix that cannot start `p` does not change whether `p` occurs. */
  lemma {:induction false} ContainsSkip(a: string, b: string, p: string)
    requires |p| > 0 && NoChar(a, p[0])
    ensures Contains(a + b, p) == Contains(b, p)
    decreases |a|
  {
    if |a| > 0 {
      assert (a + b)[1..] == a[1..] + b;
      if |p| <= |a + b| {
        assert (a + b)[..|p|][0] == a[0];
      }
      ContainsSkip(a[1..], b, p);
    } else {
      assert a + b == b;
    }
  }

  /** An occurrence in `b` is an occurrence in `a + b`. */
  lemma {:induction false} ContainsAfter(a: string, b: string, p: string)
    requires Contains(b, p)
    ensures Contains(a + b, p)
    decreases |a|
  {
    if |a| > 0 {
      assert (a + b)[1..] == a[1..] + b;
      ContainsAfter(a[1..], b, p);
    } else {
      assert a + b == b;
    }
  }

  /** A string with no occurrence of the first character of `p` is left unchanged. */
  lemma ReplaceAllNoFirst(s: string, p: string, r: string)
    requires |p| > 0
    requires NoChar(s, p[0])
    ensures ReplaceAll(s, p, r) == s
  {
    ReplaceAllSkip(s, [], p, r);
    assert s + [] == s;
  }

  /** A character that does not begin an occurrence of `p` is copied and the scan moves on by one. */
  lemma ReplaceAllMiss(c: char, b: string, p: string, r: string)
    requires |p| > 0
    requires |p| <= |b| + 1 ==> ([c] + b)[..|p|] != p
    ensures ReplaceAll([c] + b, p, r) == [c] + ReplaceAll(b, p, r)
  {
    assert ([c] + b)[1..] == b;
  }

  /** A string with no occurrence of the first character of `p` does not contain `p`. */
  lemma {:induction false} NoFirstCharNotContains(s: string, p: string)
    requires |p| > 0
    requires NoChar(s, p[0])
    ensures !Contains(s, p)
    decreases |s|
  {
    if |s| > 0 {
      if |p| <= |s| {
        assert s[..|p|][0] == s[0];
      }
      NoFirstCharNotContains(s[1..], p);
    }
  }

  predicate IsAsciiUpper(c: char) { 'A' <= c <= 'Z' }
  predicate IsAsciiLower(c: char) { 'a' <= c <= 'z' }
  predicate IsAsciiDigit(c: char) { '0' <= c <= '9' }

  /** `str.isalnum` restricted to ASCII letters and digits. */
  predicate IsAlnum(c: char) { IsAsciiUpper(c) || IsAsciiLower(c) || IsAsciiDigit(c) }

  function LowerChar(c: char): char
  {
    if IsAsciiUpper(c) then (c as int + 32) as char else c
  }

  function UpperChar(c: char): char
  {
    if IsAsciiLower(c) then (c as int - 32) as char else c
  }

  /** `str.lower()` on ASCII letters: every upper-case letter becomes lower-case, everything else is kept. */
  function Lower(s: string): (r: string)
    ensures |r| == |s|
    ensures forall i | 0 <= i < |s| :: !IsAsciiUpper(r[i]) && (r[i] == s[i] || IsAsciiUpper(s[i]))
  {
    seq(|s|, i requires 0 <= i < |s| => LowerChar(s[i]))
  }

  /** `str.upper()` on ASCII letters. */
  function Upper(s: string): (r: string)
    ensures |r| == |s|
    ensures forall i | 0 <= i < |s| :: !IsAsciiLower(r[i]) && (r[i] == s[i] || IsAsciiLower(s[i]))
  {
    seq(|s|, i requires 0 <= i < |s| => UpperChar(s[i]))
  }

  /** Python's ordering of strings: lexicographic by code point, a proper prefix first. */
  predicate LexLe(a: string, b: string)
    decreases |a|
  {
    |a| == 0 || (|b| > 0 && (a[0] < b[0] || (a[0] == b[0] && LexLe(a[1..], b[1..]))))
  }

  lemma {:induction false} LexLeTotal(a: string, b: string)
    ensures LexLe(a, b) || LexLe(b, a)
    decreases |a|
  {
    if |a| > 0 && |b| > 0 && a[0] == b[0] {
      LexLeTotal(a[1..], b[1..]);
    }
  }

  lemma {:induction false} LexLeTransitive(a: string, b: string, c: string)
    requires LexLe(a, b) && LexLe(b, c)
    ensures LexLe(a, c)
    decreases |a|
  {
    if |a| > 0 && a[0] == b[0] && b[0] == c[0] {
      LexLeTransitive(a[1..], b[1..], c[1..]);
    }
  }

  lemma {:induction false} LexLeAntisymmetric(a: string, b: string)
    requires LexLe(a, b) && LexLe(b, a)
    ensures a == b
    decreases |a|
  {
    if |a| > 0 {
      LexLeAntisymmetric(a[1..], b[1..]);
      assert a == [a[0]] + a[1..] && b == [b[0]] + b[1..];
    }
  }
}
