/**
 * The handful of Python string operations the knowledge base relies on:
 * `str.split()` with no argument, `" ".join(...)`, `str.split("/")`,
 * `str.replace(pattern, "")` and decimal formatting of non-negative integers.
 */
module Text {

  // ---------------------------------------------------------------------------
  // Whitespace and words (str.split() / str.strip())
  // ---------------------------------------------------------------------------

  /** The characters for which Python's `str.isspace()` holds, i.e. the separators of `str.split()`. */
  predicate IsSpace(c: char) {
    var n := c as int;
    || 0x09 <= n <= 0x0D || 0x1C <= n <= 0x20 || n == 0x85 || n == 0xA0 || n == 0x1680
    || 0x2000 <= n <= 0x200A || n == 0x2028 || n == 0x2029 || n == 0x202F || n == 0x205F || n == 0x3000
  }

  /** `s.strip()` is empty: every character is whitespace. */
  predicate Blank(s: string) {
    forall i :: 0 <= i < |s| ==> IsSpace(s[i])
  }

  /** A word as `str.split()` produces it: non-empty and free of whitespace. */
  predicate IsWord(w: string) {
    |w| > 0 && forall i :: 0 <= i < |w| ==> !IsSpace(w[i])
  }

  predicate AllWords(ws: seq<string>) {
    forall i :: 0 <= i < |ws| ==> IsWord(ws[i])
  }

  /** Length of the longest all-whitespace prefix of `s`. */
  function SpaceLength(s: string): (n: nat)
    ensures n <= |s|
  {
    if |s| > 0 && IsSpace(s[0]) then 1 + SpaceLength(s[1..]) else 0
  }

  /** The whitespace prefix is whitespace and maximal: the character after it, if any, is not. */
  lemma {:induction false} SpaceLengthSpec(s: string)
    ensures forall i :: 0 <= i < SpaceLength(s) ==> IsSpace(s[i])
    ensures SpaceLength(s) == |s| || !IsSpace(s[SpaceLength(s)])
    decreases |s|
  {
    if |s| > 0 && IsSpace(s[0]) {
      SpaceLengthSpec(s[1..]);
      assert forall i :: 1 <= i < |s| ==> s[i] == s[1..][i - 1];
    }
  }

  /** Length of the longest whitespace-free prefix of `s`. */
  function WordLength(s: string): (n: nat)
    ensures n <= |s|
  {
    if |s| > 0 && !IsSpace(s[0]) then 1 + WordLength(s[1..]) else 0
  }

  /** The word prefix is free of whitespace and maximal: the character after it, if any, is whitespace. */
  lemma {:induction false} WordLengthSpec(s: string)
    ensures forall i :: 0 <= i < WordLength(s) ==> !IsSpace(s[i])
    ensures WordLength(s) == |s| || IsSpace(s[WordLength(s)])
    decreases |s|
  {
    if |s| > 0 && !IsSpace(s[0]) {
      WordLengthSpec(s[1..]);
      assert forall i :: 1 <= i < |s| ==> s[i] == s[1..][i - 1];
    }
  }

  /** Python's `s.split()`: the maximal runs of non-whitespace characters, in order. */
  function Split(s: string): seq<string>
    decreases |s|
  {
    var t := s[SpaceLength(s)..];
    if |t| == 0 then []
    else
      SpaceLengthSpec(s);
      assert t[0] == s[SpaceLength(s)];
      [t[..WordLength(t)]] + Split(t[WordLength(t)..])
  }

  /** `split()` yields only words: non-empty runs free of whitespace. */
  lemma {:induction false} SplitAllWords(s: string)
    ensures AllWords(Split(s))
    decreases |s|
  {
    var k := SpaceLength(s);
    if k < |s| {
      var n := WordLength(s[k..]);
      FirstWord(s, k, n);
      SplitStep(s, k, n);
      SplitAllWords(s[k + n..]);
      AllWordsCons(s[k..k + n], Split(s[k + n..]));
    }
  }

  /** The first run after the leading whitespace is a word. */
  lemma {:induction false} FirstWord(s: string, k: nat, n: nat)
    requires k == SpaceLength(s) < |s|
    requires n == WordLength(s[k..])
    ensures IsWord(s[k..k + n])
  {
    var t := s[k..];
    assert n > 0 by {
      SpaceLengthSpec(s);
      assert t[0] == s[k];
    }
    assert forall i :: 0 <= i < n ==> !IsSpace(t[i]) by {
      WordLengthSpec(t);
    }
    assert s[k..k + n] == t[..n];
  }

  lemma {:induction false} AllWordsCons(w: string, rest: seq<string>)
    requires IsWord(w) && AllWords(rest)
    ensures AllWords([w] + rest)
  {
    assert forall i :: 1 <= i < |rest| + 1 ==> ([w] + rest)[i] == rest[i - 1];
  }

  /** Python's `" ".join(ws)`. */
  function JoinWords(ws: seq<string>): string {
    if |ws| == 0 then ""
    else if |ws| == 1 then ws[0]
    else ws[0] + " " + JoinWords(ws[1..])
  }

  /** Concatenation of a sequence of word lists. */
  function Flatten<T>(xss: seq<seq<T>>): seq<T> {
    if |xss| == 0 then [] else xss[0] + Flatten(xss[1..])
  }

  /** A string is blank exactly when it splits into no words. */
  lemma {:induction false} BlankIffNoWords(s: string)
    ensures Blank(s) <==> Split(s) == []
  {
    var k := SpaceLength(s);
    SpaceLengthSpec(s);
    if k < |s| {
      assert !IsSpace(s[k]);
    }
  }

  /** Leading whitespace does not change the words. */
  lemma {:induction false} SplitSkipsSpace(c: char, s: string)
    requires IsSpace(c)
    ensures Split([c] + s) == Split(s)
  {
    var s' := [c] + s;
    assert s'[SpaceLength(s')..] == s[SpaceLength(s)..] by {
      assert s'[1..] == s by { ConsDrop(c, s, 0); }
      assert SpaceLength(s') == 1 + SpaceLength(s);
      ConsDrop(c, s, SpaceLength(s));
    }
  }

  /** Dropping past a prepended element is dropping from the original one position earlier. */
  lemma {:induction false} ConsDrop<T>(c: T, s: seq<T>, i: nat)
    requires i <= |s|
    ensures ([c] + s)[i + 1..] == s[i..]
  {
  }

  /** One step of `Split`: the first word, then the words of what follows it. */
  lemma {:induction false} SplitStep(s: string, k: nat, n: nat)
    requires k == SpaceLength(s) < |s|
    requires n == WordLength(s[k..])
    ensures Split(s) == [s[k..k + n]] + Split(s[k + n..])
  {
    assert s[k..][..n] == s[k..k + n];
    assert s[k..][n..] == s[k + n..];
  }

  lemma {:induction false} WordLengthOfWord(w: string, rest: string)
    requires IsWord(w)
    requires rest == [] || IsSpace(rest[0])
    ensures WordLength(w + rest) == |w|
  {
    var s := w + rest;
    WordLengthSpec(s);
    assert forall i :: 0 <= i < |w| ==> s[i] == w[i];
    assert |s| > |w| ==> s[|w|] == rest[0];
  }

  /** A word on its own splits into itself. */
  lemma {:induction false} SplitSingleWord(w: string)
    requires IsWord(w)
    ensures Split(w) == [w]
  {
    assert SpaceLength(w) == 0;
    assert w[0..] == w + [];
    WordLengthOfWord(w, []);
    SplitStep(w, 0, |w|);
    assert w[0..|w|] == w && w[|w|..] == [];
  }

  /** A word followed by a space and more text splits into the word, then the words of the rest. */
  lemma {:induction false} SplitWordThenRest(w: string, tail: string)
    requires IsWord(w)
    ensures Split(w + ([' '] + tail)) == [w] + Split(tail)
  {
    var s := w + ([' '] + tail);
    assert SpaceLength(s) == 0;
    assert s[0..] == s;
    WordLengthOfWord(w, [' '] + tail);
    SplitStep(s, 0, |w|);
    assert s[0..|w|] == w;
    assert s[|w|..] == [' '] + tail;
    SplitSkipsSpace(' ', tail);
  }

  /** Splitting the single-space join of words gives the words back. */
  lemma {:induction false} SplitJoinWords(ws: seq<string>)
    requires AllWords(ws)
    ensures Split(JoinWords(ws)) == ws
    decreases |ws|
  {
    if |ws| == 0 {
      assert Split("") == [];
    } else if |ws| == 1 {
      SplitSingleWord(ws[0]);
    } else {
      assert JoinWords(ws) == ws[0] + ([' '] + JoinWords(ws[1..]));
      SplitWordThenRest(ws[0], JoinWords(ws[1..]));
      assert AllWords(ws[1..]);
      SplitJoinWords(ws[1..]);
    }
  }

  // ---------------------------------------------------------------------------
  // Splitting on one separator character (str.split(sep))
  // ---------------------------------------------------------------------------

  /** Length of the longest prefix of `s` free of `sep`. */
  function FieldLength(s: string, sep: char): (n: nat)
    ensures n <= |s|
    ensures forall i :: 0 <= i < n ==> s[i] != sep
    ensures n == |s| || s[n] == sep
  {
    if |s| > 0 && s[0] != sep then 1 + FieldLength(s[1..], sep) else 0
  }

  /** Python's `s.split(sep)` for a one-character separator: empty fields are kept. */
  function SplitOn(s: string, sep: char): (parts: seq<string>)
    ensures |parts| >= 1
    ensures forall i :: 0 <= i < |parts| ==> sep !in parts[i]
    ensures |parts| == 1 <==> sep !in s
    decreases |s|
  {
    var n := FieldLength(s, sep);
    if n == |s| then [s]
    else
      var rest := SplitOn(s[n + 1..], sep);
      assert s[n] == sep;
      [s[..n]] + rest
  }

  /** Python's `sep.join(parts)`. */
  function JoinWith(parts: seq<string>, sep: char): string {
    if |parts| == 0 then ""
    else if |parts| == 1 then parts[0]
    else parts[0] + [sep] + JoinWith(parts[1..], sep)
  }

  /** Splitting on a separator and joining with it again restores the string. */
  lemma {:induction false} JoinSplitOn(s: string, sep: char)
    ensures JoinWith(SplitOn(s, sep), sep) == s
    decreases |s|
  {
    var n := FieldLength(s, sep);
    if n == |s| {
      assert SplitOn(s, sep) == [s];
    } else {
      var rest := SplitOn(s[n + 1..], sep);
      calc {
        JoinWith(SplitOn(s, sep), sep);
        JoinWith([s[..n]] + rest, sep);
        { JoinWithCons(s[..n], rest, sep); }
        s[..n] + [sep] + JoinWith(rest, sep);
        { JoinSplitOn(s[n + 1..], sep); }
        s[..n] + [sep] + s[n + 1..];
        { SliceAround(s, n); }
        s;
      }
    }
  }

  lemma {:induction false} SliceAround<T>(s: seq<T>, n: nat)
    requires n < |s|
    ensures s[..n] + [s[n]] + s[n + 1..] == s
  {
  }

  lemma {:induction false} JoinWithCons(part: string, rest: seq<string>, sep: char)
    requires |rest| > 0
    ensures JoinWith([part] + rest, sep) == part + [sep] + JoinWith(rest, sep)
  {
    assert ([part] + rest)[1..] == rest;
  }

  /** Two separator-free fields joined by the separator split back into those two fields. */
  lemma {:induction false} SplitOnTwoFields(a: string, b: string, sep: char)
    requires sep !in a && sep !in b
    ensures SplitOn(a + [sep] + b, sep) == [a, b]
  {
    var s := a + [sep] + b;
    assert forall i :: 0 <= i < |a| ==> s[i] == a[i];
    assert s[|a|] == sep;
    assert FieldLength(s, sep) == |a|;
    assert s[..|a|] == a;
    assert s[|a| + 1..] == b;
  }

  // ---------------------------------------------------------------------------
  // Removing every occurrence of a pattern (str.replace(pattern, ""))
  // ---------------------------------------------------------------------------

  /** `pat` occurs in `s` at position `i`. */
  predicate OccursAt(s: string, pat: string, i: int) {
    0 <= i && i + |pat| <= |s| && s[i..i + |pat|] == pat
  }

  /** `pat` occurs somewhere in `s`. */
  ghost predicate Occurs(s: string, pat: string) {
    exists i :: OccursAt(s, pat, i)
  }

  /** Python's `s.replace(pat, "")`: occurrences are found left to right and do not overlap. */
  function RemoveAll(s: string, pat: string): (r: string)
    requires |pat| > 0
    ensures |r| <= |s|
    decreases |s|
  {
    if |s| < |pat| then s
    else if s[..|pat|] == pat then RemoveAll(s[|pat|..], pat)
    else [s[0]] + RemoveAll(s[1..], pat)
  }

  /**
   * The removal leaves the string as it is exactly when the pattern does not
   * occur in it, and otherwise makes it strictly shorter.
   */
  lemma {:induction false} RemoveAllUnchanged(s: string, pat: string)
    requires |pat| > 0
    ensures RemoveAll(s, pat) == s <==> !Occurs(s, pat)
    ensures Occurs(s, pat) ==> |RemoveAll(s, pat)| < |s|
    decreases |s|
  {
    if |s| >= |pat| {
      if s[..|pat|] == pat {
        assert OccursAt(s, pat, 0);
      } else {
        OccursTail(s, pat);
        RemoveAllUnchanged(s[1..], pat);
        assert s == [s[0]] + s[1..];
      }
    }
  }

  /** Without a leading occurrence, the pattern occurs in `s` exactly when it occurs after the first character. */
  lemma {:induction false} OccursTail(s: string, pat: string)
    requires 0 < |pat| <= |s| && s[..|pat|] != pat
    ensures Occurs(s, pat) <==> Occurs(s[1..], pat)
  {
    var t := s[1..];
    if Occurs(s, pat) {
      var i :| OccursAt(s, pat, i);
      assert i != 0;
      assert t[i - 1..i - 1 + |pat|] == s[i..i + |pat|];
      assert OccursAt(t, pat, i - 1);
    }
    if Occurs(t, pat) {
      var j :| OccursAt(t, pat, j);
      assert s[j + 1..j + 1 + |pat|] == t[j..j + |pat|];
      assert OccursAt(s, pat, j + 1);
    }
  }

  /** A string lacking one of the pattern's characters holds no occurrence and is left as it is. */
  lemma {:induction false} RemoveAllAbsent(s: string, pat: string, k: nat)
    requires k < |pat|
    requires pat[k] !in s
    ensures RemoveAll(s, pat) == s
    decreases |s|
  {
    if |s| >= |pat| {
      assert s[..|pat|][k] == s[k];
      assert s[..|pat|] != pat;
      RemoveAllAbsent(s[1..], pat, k);
      assert s == [s[0]] + s[1..];
    }
  }

  /** A leading occurrence of the pattern is removed. */
  lemma {:induction false} RemoveAllLeading(pat: string, rest: string)
    requires |pat| > 0
    ensures RemoveAll(pat + rest, pat) == RemoveAll(rest, pat)
  {
    assert (pat + rest)[..|pat|] == pat;
    assert (pat + rest)[|pat|..] == rest;
  }

  // ---------------------------------------------------------------------------
  // Decimal formatting of non-negative integers (f"{n}")
  // ---------------------------------------------------------------------------

  predicate IsDigit(c: char) {
    '0' <= c <= '9'
  }

  predicate AllDigits(s: string) {
    forall i :: 0 <= i < |s| ==> IsDigit(s[i])
  }

  function DigitChar(d: nat): (c: char)
    requires d < 10
    ensures IsDigit(c)
  {
    ('0' as int + d) as char
  }

  function DigitValue(c: char): (d: nat)
    requires IsDigit(c)
    ensures d < 10
  {
    c as int - '0' as int
  }

  /** Python's `str(n)` for `n >= 0`: decimal digits, no sign, no leading zeros. */
  function NatToString(n: nat): (s: string)
    ensures |s| > 0 && AllDigits(s)
  {
    if n < 10 then [DigitChar(n)] else NatToString(n / 10) + [DigitChar(n % 10)]
  }

  /** Reads a string of decimal digits as a number. */
  function ParseNat(s: string): nat
    requires AllDigits(s)
  {
    if |s| == 0 then 0 else 10 * ParseNat(s[..|s| - 1]) + DigitValue(s[|s| - 1])
  }

  /** Decimal formatting is undone by parsing, so distinct numbers format differently. */
  lemma {:induction false} ParseNatToString(n: nat)
    ensures ParseNat(NatToString(n)) == n
  {
    if n >= 10 {
      var s := NatToString(n);
      assert s[..|s| - 1] == NatToString(n / 10);
      ParseNatToString(n / 10);
    }
  }

  /** Length of the longest all-digit suffix of `s`. */
  function DigitSuffixLength(s: string): (n: nat)
    ensures n <= |s|
    ensures forall i :: |s| - n <= i < |s| ==> IsDigit(s[i])
    ensures n == |s| || !IsDigit(s[|s| - n - 1])
  {
    if |s| > 0 && IsDigit(s[|s| - 1]) then 1 + DigitSuffixLength(s[..|s| - 1]) else 0
  }

  lemma {:induction false} DigitSuffixOf(head: string, digits: string)
    requires AllDigits(digits)
    requires |head| > 0 && !IsDigit(head[|head| - 1])
    ensures DigitSuffixLength(head + digits) == |digits|
  {
    var s := head + digits;
    assert forall i :: |head| <= i < |s| ==> s[i] == digits[i - |head|];
    assert s[|head| - 1] == head[|head| - 1];
  }

  predicate EndsWith(s: string, suffix: string) {
    |suffix| <= |s| && s[|s| - |suffix|..] == suffix
  }

  lemma {:induction false} EndsWithAppend(s: string, suffix: string)
    ensures EndsWith(s + suffix, suffix)
    ensures (s + suffix)[..|s|] == s
  {
    assert (s + suffix)[|s|..] == suffix;
  }

  /** One mismatching position is enough to rule out a suffix. */
  lemma {:induction false} MismatchNotEndsWith(s: string, suffix: string, j: int)
    requires 0 <= j < |suffix|
    requires |suffix| <= |s| ==> s[|s| - |suffix| + j] != suffix[j]
    ensures !EndsWith(s, suffix)
  {
    if |suffix| <= |s| {
      assert s[|s| - |suffix|..][j] == s[|s| - |suffix| + j];
    }
  }
}
