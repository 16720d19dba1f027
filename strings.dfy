/**
 * The Python `str` operations the three scripts rely on, over `seq<char>`:
 * `strip()`, `lower()`, `isalpha()`, `split(sep)`, `sep.join(parts)`,
 * the substring test `k in s`, `endswith`, and the newline translation
 * that reading a file in text mode performs.
 */
module Strings {

  /** Python's whitespace class (`str.isspace`), the characters `strip()` removes. */
  predicate IsSpace(c: char) {
    c in Whitespace
  }

  /**
   * The code points U+0009 to U+000D, U+001C to U+0020, U+0085, U+00A0,
   * U+1680, U+2000 to U+200A, U+2028, U+2029, U+202F, U+205F and U+3000.
   */
  const Whitespace: set<char> := {
    '\t', '\n', '\U{B}', '\U{C}', '\r', '\U{1C}', '\U{1D}', '\U{1E}', '\U{1F}', ' ',
    '\U{85}', '\U{A0}', '\U{1680}', '\U{2000}', '\U{2001}', '\U{2002}', '\U{2003}',
    '\U{2004}', '\U{2005}', '\U{2006}', '\U{2007}', '\U{2008}', '\U{2009}', '\U{200A}',
    '\U{2028}', '\U{2029}', '\U{202F}', '\U{205F}', '\U{3000}'}

  ghost predicate AllSpace(s: string) {
    forall k :: 0 <= k < |s| ==> IsSpace(s[k])
  }

  /** Neither the first nor the last character is whitespace. */
  predicate NoOuterSpace(s: string) {
    s == [] || (!IsSpace(s[0]) && !IsSpace(s[|s| - 1]))
  }

  /** The number of whitespace characters `s` starts with. */
  function LeadingSpaces(s: string): (n: nat)
    ensures n <= |s|
    ensures forall k :: 0 <= k < n ==> IsSpace(s[k])
    ensures n < |s| ==> !IsSpace(s[n])
  {
    if s != [] && IsSpace(s[0]) then 1 + LeadingSpaces(s[1..]) else 0
  }

  /** The number of whitespace characters `s` ends with. */
  function TrailingSpaces(s: string): (n: nat)
    ensures n <= |s|
    ensures forall k :: |s| - n <= k < |s| ==> IsSpace(s[k])
    ensures n < |s| ==> !IsSpace(s[|s| - 1 - n])
  {
    if s != [] && IsSpace(s[|s| - 1]) then 1 + TrailingSpaces(s[..|s| - 1]) else 0
  }

  /** `s.strip()`: `s` without its leading and trailing whitespace. */
  function Strip(s: string): (r: string)
    ensures |r| <= |s|
    ensures NoOuterSpace(r)
  {
    var i := LeadingSpaces(s);
    s[i..|s| - TrailingSpaces(s[i..])]
  }

  /**
   * `s` is some whitespace, then `s.strip()`, then some whitespace: nothing
   * but outer whitespace is removed.
   */
  lemma StripRemovesOuterSpace(s: string)
    ensures exists i :: 0 <= i <= |s| - |Strip(s)| && Strip(s) == s[i..i + |Strip(s)|]
                        && AllSpace(s[..i]) && AllSpace(s[i + |Strip(s)|..])
  {
    var i := LeadingSpaces(s);
    var j := TrailingSpaces(s[i..]);
    var r := Strip(s);
    assert r == s[i..i + |r|];
    assert AllSpace(s[..i]);
    var rest := s[i..];
    var tail := s[i + |r|..];
    assert tail == rest[|rest| - j..];
    forall k | 0 <= k < |tail| ensures IsSpace(tail[k]) {
      assert tail[k] == rest[|rest| - j + k];
    }
  }

  /** Stripping text that already has no outer whitespace, followed by whitespace, gives the text back. */
  lemma StripTrailingSpace(t: string, w: string)
    requires NoOuterSpace(t) && AllSpace(w)
    ensures Strip(t + w) == t
  {
    var s := t + w;
    if t == [] {
      assert s == w;
      assert LeadingSpaces(s) == |s|;
    } else {
      assert !IsSpace(s[0]);
      assert LeadingSpaces(s) == 0;
      assert s[0..] == s;
      var j := TrailingSpaces(s);
      forall k | |t| <= k < |s| ensures IsSpace(s[k]) {
        assert s[k] == w[k - |t|];
      }
      assert s[|t| - 1] == t[|t| - 1];
      assert j == |w|;
      assert s[..|s| - j] == t;
    }
  }

  /** ASCII `str.lower()` on one character. */
  function LowerChar(c: char): char {
    if 'A' <= c <= 'Z' then (c as int + 32) as char else c
  }

  /** `s.lower()`, with the ASCII letters as the only cased characters. */
  function Lower(s: string): (r: string)
    ensures |r| == |s|
    ensures forall i :: 0 <= i < |s| ==> r[i] == LowerChar(s[i])
    ensures forall i :: 0 <= i < |r| ==> !('A' <= r[i] <= 'Z')
  {
    seq(|s|, i requires 0 <= i < |s| => LowerChar(s[i]))
  }

  /** ASCII `str.isalpha()` on one character. */
  predicate IsAlpha(c: char) {
    'a' <= c <= 'z' || 'A' <= c <= 'Z'
  }

  /** The substring test `k in s`: `k` starts at some position of `s`. */
  predicate Contains(s: string, k: string) {
    (|k| <= |s| && s[..|k|] == k) || (s != [] && Contains(s[1..], k))
  }

  /** `k` occurs in `s` starting at index `i`. */
  predicate OccursAt(s: string, k: string, i: int) {
    0 <= i <= |s| - |k| && s[i..i + |k|] == k
  }

  /** `Contains` holds exactly when `k` occurs at some index of `s`. */
  lemma {:induction false} ContainsOccurs(s: string, k: string)
    ensures Contains(s, k) <==> exists i :: OccursAt(s, k, i)
  {
    if |k| <= |s| && s[..|k|] == k {
      assert OccursAt(s, k, 0);
    }
    if s != [] {
      ContainsOccurs(s[1..], k);
      forall i | OccursAt(s[1..], k, i) ensures OccursAt(s, k, i + 1) {
        assert s[i + 1..i + 1 + |k|] == s[1..][i..i + |k|];
      }
      forall i | OccursAt(s, k, i) && i > 0 ensures OccursAt(s[1..], k, i - 1) {
        assert s[i..i + |k|] == s[1..][i - 1..i - 1 + |k|];
      }
    }
  }

  predicate EndsWith(s: string, suffix: string) {
    |suffix| <= |s| && s[|s| - |suffix|..] == suffix
  }

  /** `sep.join(parts)`. */
  function Join(parts: seq<string>, sep: char): string {
    if |parts| == 0 then []
    else if |parts| == 1 then parts[0]
    else parts[0] + [sep] + Join(parts[1..], sep)
  }

  /** Adding a character in front of the first part adds it in front of the joined text. */
  lemma JoinConsFirst(parts: seq<string>, c: char, sep: char)
    requires |parts| >= 1
    ensures Join([[c] + parts[0]] + parts[1..], sep) == [c] + Join(parts, sep)
  {
    var q := [[c] + parts[0]] + parts[1..];
    assert q[1..] == parts[1..];
  }

  /** `s.split(sep)`: at least one piece, and no piece holds the separator. */
  function Split(s: string, sep: char): (r: seq<string>)
    ensures |r| >= 1
    ensures forall p :: p in r ==> sep !in p
  {
    if s == [] then [[]]
    else
      var rest := Split(s[1..], sep);
      if s[0] == sep then
        var r := [[]] + rest;
        assert forall p :: p in r ==> p == [] || p in rest;
        r
      else
        var first := [s[0]] + rest[0];
        var r := [first] + rest[1..];
        assert forall p :: p in r ==> p == first || p in rest;
        assert sep !in first by { assert rest[0] in rest; }
        r
  }

  /** `s.split(sep)` has one more piece than `s` has separators. */
  lemma {:induction false} SplitCount(s: string, sep: char)
    ensures |Split(s, sep)| == multiset(s)[sep] + 1
  {
    if s != [] {
      SplitCount(s[1..], sep);
      assert s == [s[0]] + s[1..];
      assert multiset(s) == multiset{s[0]} + multiset(s[1..]);
    }
  }

  /** Joining the pieces of `s.split(sep)` with `sep` gives `s` back. */
  lemma {:induction false} SplitJoinsBack(s: string, sep: char)
    ensures Join(Split(s, sep), sep) == s
  {
    if s != [] {
      var rest := Split(s[1..], sep);
      SplitJoinsBack(s[1..], sep);
      if s[0] == sep {
        assert ([[]] + rest)[1..] == rest;
      } else {
        JoinConsFirst(rest, s[0], sep);
      }
      assert s == [s[0]] + s[1..];
    }
  }

  /** Text without the separator is one piece. */
  lemma {:induction false} SplitWithoutSep(p: string, sep: char)
    requires sep !in p
    ensures Split(p, sep) == [p]
  {
    if p != [] {
      SplitWithoutSep(p[1..], sep);
      assert [p[0]] + p[1..] == p;
    }
  }

  /** A separator in front starts a new, empty first piece. */
  lemma SplitSepCons(t: string, sep: char)
    ensures Split([sep] + t, sep) == [[]] + Split(t, sep)
  {
    assert ([sep] + t)[1..] == t;
  }

  /** Another character in front goes to the start of the first piece. */
  lemma SplitCharCons(c: char, t: string, sep: char)
    requires c != sep
    ensures Split([c] + t, sep) == [[c] + Split(t, sep)[0]] + Split(t, sep)[1..]
  {
    assert ([c] + t)[1..] == t;
  }

  /** A leading piece without the separator splits off on its own. */
  lemma {:induction false} SplitAtSep(p: string, t: string, sep: char)
    requires sep !in p
    ensures Split(p + [sep] + t, sep) == [p] + Split(t, sep)
  {
    if p == [] {
      assert p + [sep] + t == [sep] + t;
      SplitSepCons(t, sep);
    } else {
      var q := p[1..] + [sep] + t;
      assert p + [sep] + t == [p[0]] + q;
      SplitAtSep(p[1..], t, sep);
      SplitCharCons(p[0], q, sep);
      assert [p[0]] + p[1..] == p;
    }
  }

  /** Splitting undoes joining when no part holds the separator and there is a part. */
  lemma {:induction false} SplitJoin(parts: seq<string>, sep: char)
    requires |parts| >= 1
    requires forall p :: p in parts ==> sep !in p
    ensures Split(Join(parts, sep), sep) == parts
  {
    if |parts| == 1 {
      SplitWithoutSep(parts[0], sep);
    } else {
      assert parts[0] in parts;
      assert forall p :: p in parts[1..] ==> p in parts;
      SplitJoin(parts[1..], sep);
      SplitAtSep(parts[0], Join(parts[1..], sep), sep);
      assert [parts[0]] + parts[1..] == parts;
    }
  }

  /** A character other than the separator occurs in the joined text only if it occurs in a part. */
  lemma {:induction false} JoinChars(parts: seq<string>, sep: char, c: char)
    requires c != sep
    requires forall p :: p in parts ==> c !in p
    ensures c !in Join(parts, sep)
  {
    if |parts| > 1 {
      assert parts[0] in parts;
      assert forall p :: p in parts[1..] ==> p in parts;
      JoinChars(parts[1..], sep, c);
    } else if |parts| == 1 {
      assert parts[0] in parts;
    }
  }

  /** A character of a part occurs in the joined text. */
  lemma {:induction false} JoinHasPartChars(parts: seq<string>, sep: char, part: string, c: char)
    requires part in parts
    ensures c in part ==> c in Join(parts, sep)
  {
    if |parts| > 1 {
      assert Join(parts, sep) == parts[0] + [sep] + Join(parts[1..], sep);
      if part != parts[0] {
        JoinHasPartChars(parts[1..], sep, part, c);
      }
    }
  }

  /** Each line followed by its terminator, in order: what writing `f"{line}\n"` line by line produces. */
  function Terminated(lines: seq<string>): string {
    if lines == [] then [] else lines[0] + "\n" + Terminated(lines[1..])
  }

  /** The output is empty exactly when there are no lines, and otherwise ends with a newline. */
  lemma {:induction false} TerminatedEnds(lines: seq<string>)
    ensures lines == [] <==> Terminated(lines) == []
    ensures lines != [] ==> Terminated(lines)[|Terminated(lines)| - 1] == '\n'
  {
    if |lines| > 1 {
      TerminatedEnds(lines[1..]);
    }
  }

  lemma {:induction false} TerminatedSnoc(lines: seq<string>, l: string)
    ensures Terminated(lines + [l]) == Terminated(lines) + l + "\n"
  {
    if lines == [] {
      assert [] + [l] == [l];
    } else {
      assert (lines + [l])[1..] == lines[1..] + [l];
      TerminatedSnoc(lines[1..], l);
    }
  }

  /** Terminating every line is joining the lines with newlines and ending with one. */
  lemma {:induction false} TerminatedIsJoin(lines: seq<string>)
    requires |lines| >= 1
    ensures Terminated(lines) == Join(lines, '\n') + "\n"
  {
    if |lines| > 1 {
      TerminatedIsJoin(lines[1..]);
    }
  }

  /** With no newline inside a line, the output holds exactly one newline per line. */
  lemma {:induction false} TerminatorCount(lines: seq<string>)
    requires forall l :: l in lines ==> '\n' !in l
    ensures multiset(Terminated(lines))['\n'] == |lines|
  {
    if lines != [] {
      assert lines[0] in lines;
      assert forall l :: l in lines[1..] ==> l in lines;
      TerminatorCount(lines[1..]);
      assert multiset(lines[0])['\n'] == 0;
    }
  }

  /**
   * Universal-newline translation done by reading a file in text mode:
   * `"\r\n"` and a lone `"\r"` both become `"\n"`.
   */
  function TranslateNewlines(s: string): (r: string)
    ensures '\r' !in r
  {
    if s == [] then []
    else if s[0] == '\r' then
      "\n" + (if |s| > 1 && s[1] == '\n' then TranslateNewlines(s[2..]) else TranslateNewlines(s[1..]))
    else [s[0]] + TranslateNewlines(s[1..])
  }

  /**
   * The translation step by step: `"\r\n"` becomes one newline, a `'\r'` not
   * followed by `'\n'` becomes one newline, and any other character is kept.
   */
  lemma TranslateSteps(c: char, t: string)
    ensures TranslateNewlines("\r\n" + t) == "\n" + TranslateNewlines(t)
    ensures (t == [] || t[0] != '\n') ==> TranslateNewlines("\r" + t) == "\n" + TranslateNewlines(t)
    ensures c != '\r' ==> TranslateNewlines([c] + t) == [c] + TranslateNewlines(t)
  {
    assert ("\r\n" + t)[2..] == t;
    assert ("\r" + t)[1..] == t;
    assert ([c] + t)[1..] == t;
  }

  /** Newline translation leaves a text empty exactly when it was empty. */
  lemma TranslateEmpty(s: string)
    ensures TranslateNewlines(s) == [] <==> s == []
  {
  }

  /** Text without a carriage return reads back unchanged. */
  lemma {:induction false} TranslateWithoutReturn(s: string)
    requires '\r' !in s
    ensures TranslateNewlines(s) == s
  {
    if s != [] {
      TranslateWithoutReturn(s[1..]);
    }
  }
}
