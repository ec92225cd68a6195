/** String operations of the two runtimes the application is written in:
    substring search (`includes` in JavaScript, `in` in Python), Python's
    `str.replace`, `str.upper`, `str.strip` and `str.isalnum`, and
    JavaScript's `toLowerCase`. Character classes cover ASCII and Latin-1. */
module Text {

  predicate StartsWith(s: string, prefix: string) {
    |prefix| <= |s| && s[..|prefix|] == prefix
  }

  /** `sub` occurs in `s` starting at index `i`. */
  ghost predicate OccursAt(sub: string, s: string, i: int) {
    0 <= i && i + |sub| <= |s| && s[i..i + |sub|] == sub
  }

  ghost predicate OccursIn(sub: string, s: string) {
    exists i :: OccursAt(sub, s, i)
  }

  /** Left-to-right substring search; the empty string occurs everywhere. */
  function Contains(s: string, sub: string): bool
    decreases |s|
  {
    if StartsWith(s, sub) then true
    else if |s| == 0 then false
    else Contains(s[1..], sub)
  }

  /** The scan finds an occurrence exactly when one exists. */
  lemma {:induction false} ContainsIsOccurrence(s: string, sub: string)
    ensures Contains(s, sub) <==> OccursIn(sub, s)
    decreases |s|
  {
    if StartsWith(s, sub) {
      assert OccursAt(sub, s, 0);
    } else if |s| == 0 {
      assert forall i :: !OccursAt(sub, s, i);
    } else {
      ContainsIsOccurrence(s[1..], sub);
      forall i | OccursAt(sub, s[1..], i)
        ensures OccursAt(sub, s, i + 1)
      {
        assert s[1..][i..i + |sub|] == s[i + 1..i + 1 + |sub|];
      }
      forall i | 1 <= i && OccursAt(sub, s, i)
        ensures OccursAt(sub, s[1..], i - 1)
      {
        assert s[1..][i - 1..i - 1 + |sub|] == s[i..i + |sub|];
      }
      assert !OccursAt(sub, s, 0);
    }
  }

  // ---------------------------------------------------------------------------
  // Python str.replace

  /** Python's `s.replace(pat, rep)`: every leftmost, non-overlapping occurrence
      of `pat`, scanning left to right, is replaced by `rep`. */
  function ReplaceAll(s: string, pat: string, rep: string): (r: string)
    requires |pat| > 0
    ensures StartsWith(s, pat) ==> StartsWith(r, rep)
    ensures |rep| <= |pat| ==> |r| <= |s|
    ensures |pat| <= |rep| ==> |s| <= |r|
    decreases |s|
  {
    if |s| == 0 then []
    else if StartsWith(s, pat) then rep + ReplaceAll(s[|pat|..], pat, rep)
    else [s[0]] + ReplaceAll(s[1..], pat, rep)
  }

  /** Replacing a pattern by itself changes nothing. */
  lemma {:induction false} ReplaceBySelf(s: string, pat: string)
    requires |pat| > 0
    ensures ReplaceAll(s, pat, pat) == s
    decreases |s|
  {
    if |s| == 0 {
    } else if StartsWith(s, pat) {
      ReplaceBySelf(s[|pat|..], pat);
      assert s == pat + s[|pat|..];
    } else {
      ReplaceBySelf(s[1..], pat);
      assert s == [s[0]] + s[1..];
    }
  }

  /** Replacing a pattern that does not occur changes nothing. */
  lemma {:induction false} ReplaceAbsent(s: string, pat: string, rep: string)
    requires |pat| > 0
    requires !OccursIn(pat, s)
    ensures ReplaceAll(s, pat, rep) == s
    decreases |s|
  {
    if |s| > 0 {
      assert !OccursAt(pat, s, 0);
      forall i | OccursAt(pat, s[1..], i)
        ensures OccursAt(pat, s, i + 1)
      {
        assert s[1..][i..i + |pat|] == s[i + 1..i + 1 + |pat|];
      }
      ReplaceAbsent(s[1..], pat, rep);
      assert s == [s[0]] + s[1..];
    }
  }

  /** An inserted `rep` can neither contain `pat` nor start one that runs past
      its end, and `rep` cannot resume a partial `pat`. */
  ghost predicate CannotRecreate(pat: string, rep: string) {
    && |pat| > 0 && |rep| > 0
    && rep[0] !in pat[1..]
    && forall k :: 0 <= k < |rep| ==> !StartsWith(rep[k..], pat) && !StartsWith(pat, rep[k..])
  }

  /** A prefix of the output that avoids `rep[0]` was copied from the input. */
  lemma {:induction false} LiteralPrefix(t: string, w: string, pat: string, rep: string)
    requires |pat| > 0 && |rep| > 0 && rep[0] !in w
    ensures StartsWith(ReplaceAll(t, pat, rep), w) ==> StartsWith(t, w)
    decreases |w|
  {
    if |w| > 0 && |t| > 0 && !StartsWith(t, pat) {
      assert rep[0] !in w[1..];
      LiteralPrefix(t[1..], w[1..], pat, rep);
      var r := ReplaceAll(t, pat, rep);
      var r' := ReplaceAll(t[1..], pat, rep);
      assert r == [t[0]] + r';
      if StartsWith(r, w) {
        assert r'[..|w| - 1] == r[1..|w|] == w[1..];
        assert t == [t[0]] + t[1..];
        assert t[..|w|] == [t[0]] + t[1..][..|w| - 1];
      }
    } else if |w| > 0 && |t| > 0 {
      var r := ReplaceAll(t, pat, rep);
      assert r == rep + ReplaceAll(t[|pat|..], pat, rep);
      assert r[0] == rep[0];
      assert w[0] in w;
    }
  }

  /** When `rep` cannot recreate `pat`, no occurrence of `pat` survives. */
  lemma {:induction false} ReplaceRemoves(s: string, pat: string, rep: string)
    requires CannotRecreate(pat, rep)
    ensures !OccursIn(pat, ReplaceAll(s, pat, rep))
    decreases |s|
  {
    var r := ReplaceAll(s, pat, rep);
    if |s| == 0 {
      assert forall j :: !OccursAt(pat, r, j);
    } else if StartsWith(s, pat) {
      var t := s[|pat|..];
      ReplaceRemoves(t, pat, rep);
      RepThenClean(pat, rep, ReplaceAll(t, pat, rep));
    } else {
      var t := s[1..];
      var rt := ReplaceAll(t, pat, rep);
      ReplaceRemoves(t, pat, rep);
      assert r == [s[0]] + rt;
      LiteralPrefix(t, pat[1..], pat, rep);
      assert !StartsWith(r, pat);
      CharThenClean(s[0], rt, pat);
    }
  }

  /** A `rep` that cannot recreate `pat`, followed by a text free of `pat`,
      is free of `pat`. */
  lemma RepThenClean(pat: string, rep: string, rt: string)
    requires CannotRecreate(pat, rep) && !OccursIn(pat, rt)
    ensures !OccursIn(pat, rep + rt)
  {
    var r := rep + rt;
    forall j | 0 <= j
      ensures !OccursAt(pat, r, j)
    {
      if j + |pat| <= |r| {
        if j < |rep| {
          if |rep| - j >= |pat| {
            assert r[j..j + |pat|] == rep[j..][..|pat|];
            assert !StartsWith(rep[j..], pat);
          } else {
            assert r[j..j + |pat|][..|rep| - j] == r[j..|rep|];
            assert r[j..|rep|] == rep[j..];
            assert !StartsWith(pat, rep[j..]);
          }
        } else {
          assert r[j..j + |pat|] == rt[j - |rep|..j - |rep| + |pat|];
          assert !OccursAt(pat, rt, j - |rep|);
        }
      }
    }
  }

  /** A character that does not start `pat`, followed by a text free of
      `pat`, is free of `pat`. */
  lemma CharThenClean(c: char, rt: string, pat: string)
    requires |pat| > 0 && !OccursIn(pat, rt) && !StartsWith([c] + rt, pat)
    ensures !OccursIn(pat, [c] + rt)
  {
    var r := [c] + rt;
    forall j | 0 <= j
      ensures !OccursAt(pat, r, j)
    {
      if 0 < j && j + |pat| <= |r| {
        assert r[j..j + |pat|] == rt[j - 1..j - 1 + |pat|];
        assert !OccursAt(pat, rt, j - 1);
      }
    }
  }

  /** Every character of the output comes from the input or from `rep`. */
  lemma {:induction false} ReplaceChars(s: string, pat: string, rep: string)
    requires |pat| > 0
    ensures forall c :: c in ReplaceAll(s, pat, rep) ==> c in s || c in rep
    decreases |s|
  {
    if |s| > 0 {
      if StartsWith(s, pat) {
        ReplaceChars(s[|pat|..], pat, rep);
      } else {
        ReplaceChars(s[1..], pat, rep);
      }
    }
  }

  // ---------------------------------------------------------------------------
  // Character classes and case mapping

  /** Python's `str.isspace`, which `str.strip()` uses. */
  predicate IsSpace(c: char) {
    var n := c as int;
    || 0x09 <= n <= 0x0D || 0x1C <= n <= 0x20 || n == 0x85 || n == 0xA0
    || n == 0x1680 || 0x2000 <= n <= 0x200A || n == 0x2028 || n == 0x2029
    || n == 0x202F || n == 0x205F || n == 0x3000
  }

  /** Python's `str.isalnum` on ASCII and Latin-1 (letters, digits, and the
      superscript digits, fractions and ordinal indicators counted as numeric
      or alphabetic) and on the two capitals outside Latin-1 that upper-casing
      produces from it, `Ÿ` (U+0178) and `Μ` (U+039C); other characters count
      as non-alphanumeric. */
  predicate IsAlnum(c: char): (b: bool)
    ensures b ==> !IsSpace(c)
  {
    var n := c as int;
    || '0' <= c <= '9' || 'A' <= c <= 'Z' || 'a' <= c <= 'z'
    || n == 0xAA || n == 0xB2 || n == 0xB3 || n == 0xB5 || n == 0xB9 || n == 0xBA
    || 0xBC <= n <= 0xBE || 0xC0 <= n <= 0xD6 || 0xD8 <= n <= 0xF6 || 0xF8 <= n <= 0xFF
    || n == 0x178 || n == 0x39C
  }

  /** Python's `str.upper` on one character, for the one-to-one mappings of
      ASCII and Latin-1: `a`-`z` and `à`-`þ` (except `÷`) move down by 32,
      `ÿ` becomes `Ÿ` (U+0178) and the micro sign `µ` becomes the Greek
      capital `Μ` (U+039C). */
  function UpperChar(c: char): (r: char)
    ensures IsAlnum(r) <==> IsAlnum(c)
    ensures IsSpace(r) <==> IsSpace(c)
    ensures r != c ==> IsAlnum(c)
  {
    var n := c as int;
    if 'a' <= c <= 'z' || (0xE0 <= n <= 0xFE && n != 0xF7) then (n - 32) as char
    else if n == 0xFF then 0x178 as char
    else if n == 0xB5 then 0x39C as char
    else c
  }

  /** JavaScript's `toLowerCase` on one character, for ASCII and Latin-1. */
  function LowerChar(c: char): (r: char)
    ensures UpperChar(r) == UpperChar(c)
    ensures r != c ==> UpperChar(r) == c
    ensures IsAlnum(r) <==> IsAlnum(c)
  {
    var n := c as int;
    if 'A' <= c <= 'Z' || (0xC0 <= n <= 0xDE && n != 0xD7) then (n + 32) as char else c
  }

  function Upper(s: string): (r: string)
    ensures |r| == |s|
    ensures UpperCased(r)
    ensures r == s <==> UpperCased(s)
  {
    seq(|s|, i requires 0 <= i < |s| => UpperChar(s[i]))
  }

  function Lower(s: string): (r: string)
    ensures |r| == |s|
    ensures Upper(r) == Upper(s)
  {
    seq(|s|, i requires 0 <= i < |s| => LowerChar(s[i]))
  }

  /** Lower-casing is idempotent. */
  lemma LowerTwice(s: string)
    ensures Lower(Lower(s)) == Lower(s)
  {
  }

  /** `s` is left unchanged by `str.upper`. */
  predicate UpperCased(s: string) {
    forall i :: 0 <= i < |s| ==> UpperChar(s[i]) == s[i]
  }

  /** Upper-casing is idempotent, so its result is upper-cased. */
  lemma UpperIsUpperCased(s: string)
    ensures UpperCased(Upper(s))
  {
  }

  /** Replacing inside an upper-cased string by an upper-cased string keeps it
      upper-cased. */
  lemma ReplaceKeepsUpperCased(s: string, pat: string, rep: string)
    requires |pat| > 0 && UpperCased(s) && UpperCased(rep)
    ensures UpperCased(ReplaceAll(s, pat, rep))
  {
    ReplaceChars(s, pat, rep);
    var r := ReplaceAll(s, pat, rep);
    forall i | 0 <= i < |r|
      ensures UpperChar(r[i]) == r[i]
    {
      assert r[i] in r;
    }
  }

  // ---------------------------------------------------------------------------
  // Python str.strip()

  predicate AllSpace(s: string) {
    forall i :: 0 <= i < |s| ==> IsSpace(s[i])
  }

  /** Neither end of `s` is whitespace. */
  predicate Trimmed(s: string) {
    |s| == 0 || (!IsSpace(s[0]) && !IsSpace(s[|s| - 1]))
  }

  /** Length of the longest all-whitespace prefix. */
  function LeadingSpaces(s: string): (n: nat)
    ensures n <= |s|
    ensures forall j :: 0 <= j < n ==> IsSpace(s[j])
    ensures n < |s| ==> !IsSpace(s[n])
    decreases |s|
  {
    if |s| > 0 && IsSpace(s[0]) then 1 + LeadingSpaces(s[1..]) else 0
  }

  /** Length of the longest all-whitespace suffix. */
  function TrailingSpaces(s: string): (n: nat)
    ensures n <= |s|
    ensures forall j :: |s| - n <= j < |s| ==> IsSpace(s[j])
    ensures n < |s| ==> !IsSpace(s[|s| - 1 - n])
    decreases |s|
  {
    if |s| > 0 && IsSpace(s[|s| - 1]) then 1 + TrailingSpaces(s[..|s| - 1]) else 0
  }

  /** Python's `s.strip()`: the whitespace-free core of `s`. */
  function Strip(s: string): (r: string)
    ensures Trimmed(r)
    ensures exists i, j :: 0 <= i <= j <= |s| && r == s[i..j] && AllSpace(s[..i]) && AllSpace(s[j..])
  {
    var i := LeadingSpaces(s);
    var k := TrailingSpaces(s[i..]);
    StripSlices(s, i, k);
    s[i..|s| - k]
  }

  /** The slices `Strip` cuts: whitespace on both sides, and a core with a
      non-whitespace character at each end. */
  lemma StripSlices(s: string, i: nat, k: nat)
    requires i <= |s| && (forall j :: 0 <= j < i ==> IsSpace(s[j])) && (i < |s| ==> !IsSpace(s[i]))
    requires k <= |s| - i && forall j :: |s| - i - k <= j < |s| - i ==> IsSpace(s[i..][j])
    requires k < |s| - i ==> !IsSpace(s[i..][|s| - i - 1 - k])
    ensures AllSpace(s[..i]) && AllSpace(s[|s| - k..])
    ensures Trimmed(s[i..|s| - k])
  {
    forall j | |s| - k <= j < |s|
      ensures IsSpace(s[j])
    {
      assert s[j] == s[i..][j - i];
    }
    if k < |s| - i {
      assert s[i..|s| - k][|s| - k - i - 1] == s[i..][|s| - i - 1 - k];
    }
  }

  /** A non-whitespace last character survives replacement when the
      replacement also ends in one. */
  lemma {:induction false} ReplaceKeepsLast(s: string, pat: string, rep: string)
    requires |pat| > 0 && |rep| > 0 && !IsSpace(rep[|rep| - 1])
    requires |s| > 0 && !IsSpace(s[|s| - 1])
    ensures var r := ReplaceAll(s, pat, rep); |r| > 0 && !IsSpace(r[|r| - 1])
    decreases |s|
  {
    var r := ReplaceAll(s, pat, rep);
    var t := if StartsWith(s, pat) then s[|pat|..] else s[1..];
    var head := if StartsWith(s, pat) then rep else [s[0]];
    assert r == head + ReplaceAll(t, pat, rep);
    if |t| > 0 {
      assert t[|t| - 1] == s[|s| - 1];
      ReplaceKeepsLast(t, pat, rep);
    } else {
      assert r == head;
    }
  }

  /** Replacement keeps a string trimmed when the pattern and the replacement
      are non-empty and trimmed. */
  lemma ReplaceKeepsTrimmed(s: string, pat: string, rep: string)
    requires |pat| > 0 && |rep| > 0 && Trimmed(pat) && Trimmed(rep) && Trimmed(s)
    ensures Trimmed(ReplaceAll(s, pat, rep))
  {
    if |s| > 0 {
      ReplaceKeepsLast(s, pat, rep);
    }
  }

  // ---------------------------------------------------------------------------
  // Python ''.join(c for c in s if c.isalnum())

  function KeepAlnum(s: string): (r: string)
    ensures |r| <= |s|
    ensures forall i :: 0 <= i < |r| ==> IsAlnum(r[i])
    decreases |s|
  {
    if |s| == 0 then []
    else (if IsAlnum(s[0]) then [s[0]] else []) + KeepAlnum(s[1..])
  }

  /** Simplifying keeps exactly the alphanumeric characters of `s`, and
      leaves an all-alphanumeric string as it is. */
  lemma {:induction false} KeepAlnumSpec(s: string)
    ensures forall c :: c in KeepAlnum(s) <==> c in s && IsAlnum(c)
    ensures (forall i :: 0 <= i < |s| ==> IsAlnum(s[i])) ==> KeepAlnum(s) == s
    decreases |s|
  {
    if |s| > 0 {
      KeepAlnumSpec(s[1..]);
      assert forall c :: c in s <==> c == s[0] || c in s[1..];
    }
  }

  /** Simplifying keeps the alphanumeric characters in order: the
      simplification of a concatenation is the concatenation of the
      simplifications. */
  lemma {:induction false} KeepAlnumAppend(a: string, b: string)
    ensures KeepAlnum(a + b) == KeepAlnum(a) + KeepAlnum(b)
    decreases |a|
  {
    if |a| > 0 {
      assert (a + b)[1..] == a[1..] + b;
      KeepAlnumAppend(a[1..], b);
    } else {
      assert a + b == b;
    }
  }
}
