/**
 * Character classes and the handful of Python `str` operations the model
 * relies on: `split()` with no argument, `" ".join`, `strip()`, `lower()`,
 * `replace` of one character, `startswith`, and decimal formatting of
 * non-negative integers. Characters are treated as ASCII: a character
 * above 127 is neither whitespace nor a word character here.
 */
module Text {

  /** Python's `str.isspace()` restricted to ASCII: tab, line feed, vertical
      tab, form feed, carriage return, the four separators 0x1C-0x1F and space.
      This is also what `\s` matches and what `split()`/`strip()` remove. */
  predicate IsSpace(c: char) {
    9 <= c as int <= 13 || 28 <= c as int <= 32
  }

  /** What the regular-expression class `\w` matches on ASCII. */
  predicate IsWordChar(c: char) {
    ('a' <= c <= 'z') || ('A' <= c <= 'Z') || ('0' <= c <= '9') || c == '_'
  }

  predicate IsUpper(c: char) {
    'A' <= c <= 'Z'
  }

  function LowerChar(c: char): (d: char)
    ensures !IsUpper(d)
    ensures IsWordChar(c) <==> IsWordChar(d)
    ensures IsSpace(c) <==> IsSpace(d)
  {
    if IsUpper(c) then (c as int + 32) as char else c
  }

  /** `s.lower()` on ASCII. */
  function Lower(s: string): (t: string)
    ensures |t| == |s|
    ensures forall i :: 0 <= i < |s| ==> t[i] == LowerChar(s[i])
  {
    seq(|s|, i requires 0 <= i < |s| => LowerChar(s[i]))
  }

  /** `s.replace(a, b)` for single characters. */
  function ReplaceChar(s: string, a: char, b: char): (t: string)
    ensures |t| == |s|
    ensures forall i :: 0 <= i < |s| ==> t[i] == (if s[i] == a then b else s[i])
  {
    seq(|s|, i requires 0 <= i < |s| => if s[i] == a then b else s[i])
  }

  predicate StartsWith(s: string, prefix: string) {
    |prefix| <= |s| && s[..|prefix|] == prefix
  }

  /** A word of `split()`: non-empty and free of whitespace. */
  predicate IsWord(w: string) {
    |w| > 0 && forall i :: 0 <= i < |w| ==> !IsSpace(w[i])
  }

  predicate AllWords(ws: seq<string>) {
    forall k :: 0 <= k < |ws| ==> IsWord(ws[k])
  }

  /** The index of the first non-space character of `s` at or after `i`,
      or `|s|` when there is none. */
  function SkipSpaces(s: string, i: nat): (j: nat)
    requires i <= |s|
    ensures i <= j <= |s|
    ensures forall m :: i <= m < j ==> IsSpace(s[m])
    ensures j == |s| || !IsSpace(s[j])
    decreases |s| - i
  {
    if i == |s| || !IsSpace(s[i]) then i else SkipSpaces(s, i + 1)
  }

  /** The index just after the last non-space character of `s[lo..e]`, or
      `lo` when that slice is all whitespace. */
  function TrimEnd(s: string, lo: nat, e: nat): (j: nat)
    requires lo <= e <= |s|
    ensures lo <= j <= e
    ensures forall m :: j <= m < e ==> IsSpace(s[m])
    ensures j == lo || !IsSpace(s[j - 1])
    decreases e
  {
    if e == lo || !IsSpace(s[e - 1]) then e else TrimEnd(s, lo, e - 1)
  }

  /** How many whitespace characters `s` starts with. */
  function LeadingSpaces(s: string): (n: nat)
    ensures n <= |s|
  {
    SkipSpaces(s, 0)
  }

  /** Python's `s.split()`: the maximal runs of non-space characters, in
      order. Defined one character at a time: a non-space character either
      starts a new word or, when the next character is not a space, is put in
      front of the first word of the rest. */
  function Split(s: string): (ws: seq<string>)
    ensures AllWords(ws)
    ensures s != [] && !IsSpace(s[0]) ==> |ws| > 0 && ws[0][0] == s[0]
  {
    if s == [] then []
    else if IsSpace(s[0]) then Split(s[1..])
    else
      var rest := Split(s[1..]);
      if |s| > 1 && !IsSpace(s[1]) then [[s[0]] + rest[0]] + rest[1..]
      else [[s[0]]] + rest
  }

  /** Python's `" ".join(ws)`. */
  function Join(ws: seq<string>): string
  {
    if ws == [] then ""
    else if |ws| == 1 then ws[0]
    else ws[0] + " " + Join(ws[1..])
  }

  /** Python's `s.strip()` with no argument. */
  function Strip(s: string): (t: string)
    ensures |t| <= |s|
    ensures t == [] || (!IsSpace(t[0]) && !IsSpace(t[|t| - 1]))
    ensures LeadingSpaces(s) + |t| <= |s| && t == s[LeadingSpaces(s)..LeadingSpaces(s) + |t|]
    ensures forall m :: 0 <= m < LeadingSpaces(s) ==> IsSpace(s[m])
    ensures forall m :: LeadingSpaces(s) + |t| <= m < |s| ==> IsSpace(s[m])
    ensures (s == [] || (!IsSpace(s[0]) && !IsSpace(s[|s| - 1]))) ==> t == s
  {
    var a := SkipSpaces(s, 0);
    s[a..TrimEnd(s, a, |s|)]
  }

  /** `split()` of a word followed by a space and more text. */
  lemma {:induction false} SplitWordThenSpace(w: string, rest: string)
    requires IsWord(w)
    ensures Split(w + " " + rest) == [w] + Split(rest)
    decreases |w|
  {
    var s := w + " " + rest;
    assert s[1..] == w[1..] + " " + rest;
    if |w| == 1 {
      assert s[1..] == [' '] + rest;
      assert ([' '] + rest)[1..] == rest;
      assert Split(s[1..]) == Split(rest);
      assert w == [w[0]];
    } else {
      SplitWordThenSpace(w[1..], rest);
      assert [w[0]] + w[1..] == w;
    }
  }

  /** `split()` of a single word. */
  lemma {:induction false} SplitWord(w: string)
    requires IsWord(w)
    ensures Split(w) == [w]
    decreases |w|
  {
    if |w| > 1 {
      SplitWord(w[1..]);
      assert [w[0]] + w[1..] == w;
    } else {
      assert w == [w[0]];
      assert w[1..] == [];
    }
  }

  /** Any whitespace character separates: `split()` of two texts joined
      by one is the concatenation of their splits. With `SplitWord` and
      `Split("") == []` this fixes `split()` on every string. */
  lemma {:induction false} SplitAtSpace(a: string, c: char, b: string)
    requires IsSpace(c)
    ensures Split(a + [c] + b) == Split(a) + Split(b)
    decreases |a|
  {
    var s := a + [c] + b;
    if a == [] {
      assert s == [c] + b && s[1..] == b;
    } else {
      assert s[0] == a[0] && s[1..] == a[1..] + [c] + b;
      SplitAtSpace(a[1..], c, b);
      if !IsSpace(a[0]) {
        var inner := Split(a[1..]);
        if |a| > 1 && !IsSpace(a[1]) {
          assert s[1] == a[1];
          assert |inner| > 0;
          assert (inner + Split(b))[0] == inner[0];
          assert (inner + Split(b))[1..] == inner[1..] + Split(b);
        } else {
          assert IsSpace(s[1]);
        }
      }
    }
  }

  /** `split()` undoes `" ".join` on a list of words. */
  lemma {:induction false} SplitJoin(ws: seq<string>)
    requires AllWords(ws)
    ensures Split(Join(ws)) == ws
    decreases |ws|
  {
    if ws == [] {
    } else if |ws| == 1 {
      SplitWord(ws[0]);
    } else {
      assert IsWord(ws[0]);
      SplitWordThenSpace(ws[0], Join(ws[1..]));
      SplitJoin(ws[1..]);
      assert ws == [ws[0]] + ws[1..];
    }
  }

  /** Every character of a word of `split()` occurs in the split string. */
  lemma {:induction false} SplitCharsIn(s: string)
    ensures forall k, i :: 0 <= k < |Split(s)| && 0 <= i < |Split(s)[k]| ==> Split(s)[k][i] in s
    decreases |s|
  {
    if s != [] {
      SplitCharsIn(s[1..]);
      assert forall c :: c in s[1..] ==> c in s;
    }
  }

  /** Decimal digits of a non-negative integer, as `str(n)` writes them. */
  function NatToString(n: nat): (s: string)
    ensures |s| > 0
    ensures forall i :: 0 <= i < |s| ==> '0' <= s[i] <= '9'
    ensures |s| > 1 ==> s[0] != '0'
  {
    if n < 10 then [Digit(n)] else NatToString(n / 10) + [Digit(n % 10)]
  }

  function Digit(d: nat): (c: char)
    requires d < 10
    ensures '0' <= c <= '9' && c as int - '0' as int == d
  {
    ('0' as int + d) as char
  }

  /** Reads a string of decimal digits back as a number. */
  function ParseNat(s: string): nat
    requires forall i :: 0 <= i < |s| ==> '0' <= s[i] <= '9'
  {
    if s == [] then 0 else ParseNat(s[..|s| - 1]) * 10 + (s[|s| - 1] as int - '0' as int)
  }

  /** Formatting a number in decimal and reading it back gives the number. */
  lemma {:induction false} ParseNatToString(n: nat)
    ensures ParseNat(NatToString(n)) == n
  {
    if n >= 10 {
      var s := NatToString(n);
      assert s[..|s| - 1] == NatToString(n / 10);
      ParseNatToString(n / 10);
    }
  }
}
