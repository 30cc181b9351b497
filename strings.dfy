/**
  The parts of Python's `str` that the protection and text helpers rely on:
  `isspace`, `strip()`, `split(sep)` with a one-character separator,
  `split()` with no argument (runs of whitespace), and `sep.join`.
*/
module Strings {

  /** Python's `str.isspace` on one character (the characters `split()` and `strip()` treat as whitespace). */
  predicate IsSpace(c: char) {
    if c <= ' ' then c == ' ' || ('\t' <= c <= '\r') || ('\U{001C}' <= c <= '\U{001F}')
    else if c < '\U{0085}' then false
    else
      || c == '\U{0085}' || c == '\U{00A0}' || c == '\U{1680}'
      || ('\U{2000}' <= c <= '\U{200A}')
      || c == '\U{2028}' || c == '\U{2029}' || c == '\U{202F}' || c == '\U{205F}' || c == '\U{3000}'
  }

  /** A word as `split()` produces it: non-empty, no whitespace. */
  predicate IsWord(w: string) {
    w != [] && forall k :: 0 <= k < |w| ==> !IsSpace(w[k])
  }

  /** `s.lstrip()`: what is left after the leading whitespace. */
  function LStrip(s: string): string {
    if s != [] && IsSpace(s[0]) then LStrip(s[1..]) else s
  }

  /** `s.rstrip()`: what is left before the trailing whitespace. */
  function RStrip(s: string): string {
    if s != [] && IsSpace(s[|s| - 1]) then RStrip(s[..|s| - 1]) else s
  }

  /** `lstrip` drops exactly the leading whitespace: a suffix remains, not starting with whitespace. */
  lemma {:induction false} LStripShape(s: string)
    ensures var r := LStrip(s);
      && |r| <= |s| && r == s[|s| - |r|..]
      && (forall k :: 0 <= k < |s| - |r| ==> IsSpace(s[k]))
      && (r == [] || !IsSpace(r[0]))
  {
    if s != [] && IsSpace(s[0]) {
      var t := s[1..];
      LStripShape(t);
      var r := LStrip(t);
      assert t[|t| - |r|..] == s[|s| - |r|..];
      forall k | 0 <= k < |s| - |r| ensures IsSpace(s[k]) {
        if k > 0 {
          assert s[k] == t[k - 1];
        }
      }
    }
  }

  /** `rstrip` drops exactly the trailing whitespace: a prefix remains, not ending with whitespace. */
  lemma {:induction false} RStripShape(s: string)
    ensures var r := RStrip(s);
      && |r| <= |s| && r == s[..|r|]
      && (forall k :: |r| <= k < |s| ==> IsSpace(s[k]))
      && (r == [] || !IsSpace(r[|r| - 1]))
  {
    if s != [] && IsSpace(s[|s| - 1]) {
      var t := s[..|s| - 1];
      RStripShape(t);
      var r := RStrip(t);
      assert t[..|r|] == s[..|r|];
      forall k | |r| <= k < |s| ensures IsSpace(s[k]) {
        if k < |t| {
          assert s[k] == t[k];
        }
      }
    }
  }

  /** `s.strip()`. */
  function Strip(s: string): string {
    RStrip(LStrip(s))
  }

  /**
    `s.strip()` removes exactly the whitespace at both ends: the result is a
    slice of `s` bordered by whitespace only, and neither of its ends is whitespace.
  */
  lemma StripShape(s: string)
    ensures |LStrip(s)| <= |s|
    ensures var r, i := Strip(s), |s| - |LStrip(s)|;
      && i + |r| <= |s|
      && s[i..i + |r|] == r
      && (forall k :: 0 <= k < i ==> IsSpace(s[k]))
      && (forall k :: i + |r| <= k < |s| ==> IsSpace(s[k]))
      && (r == [] || (!IsSpace(r[0]) && !IsSpace(r[|r| - 1])))
  {
    var l := LStrip(s);
    var r := RStrip(l);
    var i := |s| - |l|;
    LStripShape(s);
    RStripShape(l);
    assert s[i..i + |r|] == l[..|r|];
    forall k | i + |r| <= k < |s| ensures IsSpace(s[k]) {
      assert s[k] == l[k - i];
    }
  }

  /** A word has nothing to strip. */
  lemma StripWord(w: string)
    requires IsWord(w)
    ensures Strip(w) == w
  {
  }

  /** The first position of `c` in `s`. */
  function IndexOf(s: string, c: char): (i: nat)
    requires c in s
    ensures i < |s| && s[i] == c && c !in s[..i]
  {
    if s[0] == c then 0 else 1 + IndexOf(s[1..], c)
  }

  /** `s.split(c)` for a one-character separator `c`: never empty; `"".split(c) == [""]`. */
  function Split(s: string, c: char): (parts: seq<string>)
    ensures |parts| >= 1
    ensures forall k :: 0 <= k < |parts| ==> c !in parts[k]
    decreases |s|
  {
    if c in s then
      var i := IndexOf(s, c);
      [s[..i]] + Split(s[i + 1..], c)
    else
      [s]
  }

  /** `c.join(parts)`. */
  function Join(parts: seq<string>, c: char): string {
    if |parts| == 0 then ""
    else if |parts| == 1 then parts[0]
    else parts[0] + [c] + Join(parts[1..], c)
  }

  /** Joining the pieces of a split with the same separator gives the string back. */
  lemma {:induction false} JoinSplit(s: string, c: char)
    ensures Join(Split(s, c), c) == s
    decreases |s|
  {
    if c in s {
      var i := IndexOf(s, c);
      var rest := s[i + 1..];
      JoinSplit(rest, c);
      assert Split(s, c) == [s[..i]] + Split(rest, c);
      assert s == s[..i] + [c] + rest;
    }
  }

  /** Splitting a join of separator-free pieces gives the pieces back. */
  lemma {:induction false} SplitJoin(parts: seq<string>, c: char)
    requires |parts| >= 1
    requires forall k :: 0 <= k < |parts| ==> c !in parts[k]
    ensures Split(Join(parts, c), c) == parts
  {
    if |parts| > 1 {
      var p, rest := parts[0], Join(parts[1..], c);
      var s := p + [c] + rest;
      assert Join(parts, c) == s;
      FirstSeparator(p, c, rest);
      assert s[..|p|] == p;
      assert s[|p| + 1..] == rest;
      SplitJoin(parts[1..], c);
      assert Split(s, c) == [p] + Split(rest, c);
    }
  }

  /** In `p + [c] + rest` with `c` not in `p`, the first `c` is the one after `p`. */
  lemma {:induction false} FirstSeparator(p: string, c: char, rest: string)
    requires c !in p
    ensures c in p + [c] + rest && IndexOf(p + [c] + rest, c) == |p|
  {
    var s := p + [c] + rest;
    assert s[|p|] == c;
    if p != [] {
      assert s[1..] == p[1..] + [c] + rest;
      FirstSeparator(p[1..], c, rest);
    }
  }

  /** The length of the leading run of non-whitespace characters of `s`. */
  function WordEnd(s: string): (k: nat)
    ensures k <= |s|
    ensures forall j :: 0 <= j < k ==> !IsSpace(s[j])
    ensures k < |s| ==> IsSpace(s[k])
  {
    if s == [] || IsSpace(s[0]) then 0 else 1 + WordEnd(s[1..])
  }

  /** A word end is determined by its two defining facts. */
  lemma {:induction false} WordEndUnique(s: string, k: nat)
    requires k <= |s| && (forall j :: 0 <= j < k ==> !IsSpace(s[j])) && (k < |s| ==> IsSpace(s[k]))
    ensures WordEnd(s) == k
  {
    if k > 0 {
      var t := s[1..];
      forall j | 0 <= j < k - 1 ensures !IsSpace(t[j]) {
        assert t[j] == s[j + 1];
      }
      WordEndUnique(t, k - 1);
    }
  }

  /** `s.split()` with no argument: the maximal whitespace-free runs, in order. */
  function Words(s: string): (ws: seq<string>)
    ensures forall k :: 0 <= k < |ws| ==> IsWord(ws[k])
    decreases |s|
  {
    if s == [] then []
    else if IsSpace(s[0]) then Words(s[1..])
    else
      var k := WordEnd(s);
      [s[..k]] + Words(s[k..])
  }

  /** A whitespace character splits the word list: nothing crosses it. */
  lemma {:induction false} WordsAroundSpace(a: string, c: char, b: string)
    requires IsSpace(c)
    ensures Words(a + [c] + b) == Words(a) + Words(b)
    decreases |a|
  {
    var x := a + [c] + b;
    if a == [] {
      assert x == [c] + b;
      assert x[1..] == b;
    } else if IsSpace(a[0]) {
      assert x[1..] == a[1..] + [c] + b;
      WordsAroundSpace(a[1..], c, b);
    } else {
      var k := WordEnd(a);
      forall j | 0 <= j < k ensures !IsSpace(x[j]) {
        assert x[j] == a[j];
      }
      assert IsSpace(x[k]) by {
        if k < |a| { assert x[k] == a[k]; } else { assert x[k] == c; }
      }
      WordEndUnique(x, k);
      assert x[..k] == a[..k];
      assert x[k..] == a[k..] + [c] + b;
      WordsAroundSpace(a[k..], c, b);
      assert Words(x) == [x[..k]] + Words(x[k..]);
    }
  }

  /** A text of whitespace only has no words. */
  lemma {:induction false} BlankHasNoWords(p: string)
    requires forall j :: 0 <= j < |p| ==> IsSpace(p[j])
    ensures Words(p) == []
  {
    if p != [] {
      BlankHasNoWords(p[1..]);
    }
  }

  /** Whitespace before and after a text adds no words. */
  lemma {:induction false} PaddedWords(p: string, text: string, q: string)
    requires forall j :: 0 <= j < |p| ==> IsSpace(p[j])
    requires forall j :: 0 <= j < |q| ==> IsSpace(q[j])
    ensures Words(p + text + q) == Words(text)
    decreases |p|
  {
    if p != [] {
      assert p + text + q == [] + [p[0]] + (p[1..] + text + q);
      WordsAroundSpace([], p[0], p[1..] + text + q);
      assert Words([]) == [];
      PaddedWords(p[1..], text, q);
    } else if q != [] {
      assert p + text + q == text + [q[0]] + q[1..];
      WordsAroundSpace(text, q[0], q[1..]);
      BlankHasNoWords(q[1..]);
    } else {
      assert p + text + q == text;
    }
  }

  /** `split()` of a single word is that word. */
  lemma WordsOfWord(w: string)
    requires IsWord(w)
    ensures Words(w) == [w]
  {
    assert WordEnd(w) == |w|;
    assert w[..|w|] == w;
    assert w[|w|..] == [];
  }

  /** Splitting a space-joined list of words gives the list back. */
  lemma {:induction false} WordsOfJoin(ws: seq<string>)
    requires forall k :: 0 <= k < |ws| ==> IsWord(ws[k])
    ensures Words(Join(ws, ' ')) == ws
  {
    if |ws| == 1 {
      WordsOfWord(ws[0]);
    } else if |ws| > 1 {
      WordsOfWord(ws[0]);
      WordsOfJoin(ws[1..]);
      WordsAroundSpace(ws[0], ' ', Join(ws[1..], ' '));
      assert ws == [ws[0]] + ws[1..];
    }
  }
}
