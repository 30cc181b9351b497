/**
  `generate_ngrams(text, n=4)`: the word n-grams of a text, each rejoined with
  single spaces, by `[" ".join(words[i:i+n]) for i in range(len(words)-n+1)]`
  over `words = text.split()`.
*/
module NGrams {
  import opened Strings

  /** Python's `s[lo:hi]` for `lo >= 0`: a negative `hi` counts from the end, both are clipped to the length. */
  function PySlice<T>(s: seq<T>, lo: nat, hi: int): (r: seq<T>)
    ensures 0 <= hi <= |s| && lo <= hi ==> r == s[lo..hi]
    ensures 0 <= hi <= lo ==> r == []
  {
    var start := if lo <= |s| then lo else |s|;
    var stop := if hi < 0 then (if hi + |s| < 0 then 0 else hi + |s|) else if hi <= |s| then hi else |s|;
    if stop <= start then [] else s[start..stop]
  }

  /** `generate_ngrams(text, n)`. */
  function NGrams(text: string, n: int := 4): (r: seq<string>)
    ensures var words := Words(text);
      |r| == if |words| - n + 1 < 0 then 0 else |words| - n + 1
  {
    var words := Words(text);
    var count := if |words| - n + 1 < 0 then 0 else |words| - n + 1;
    seq(count, i requires 0 <= i < count => Join(PySlice(words, i, i + n), ' '))
  }

  /**
    For a positive `n`, element `i` is the `n` words starting at word `i` joined by
    single spaces, and `split()` reads those words back.
  */
  lemma WindowRoundTrip(text: string, n: int, i: int)
    requires n >= 1 && 0 <= i < |NGrams(text, n)|
    ensures var words := Words(text);
      && i + n <= |words|
      && NGrams(text, n)[i] == Join(words[i..i + n], ' ')
      && Words(NGrams(text, n)[i]) == words[i..i + n]
  {
    var words := Words(text);
    var g := NGrams(text, n);
    assert g[i] == Join(PySlice(words, i, i + n), ' ');
    assert PySlice(words, i, i + n) == words[i..i + n];
    WordsOfJoin(words[i..i + n]);
  }

  /** Consecutive n-grams overlap: the next drops the first word of the previous and appends the following word. */
  lemma SlidingWindow(text: string, n: int, i: int)
    requires n >= 1 && 0 <= i && i + 1 < |NGrams(text, n)|
    ensures var g, words := NGrams(text, n), Words(text);
      && i + n < |words|
      && Words(g[i]) == words[i..i + n]
      && Words(g[i + 1]) == Words(g[i])[1..] + [words[i + n]]
  {
    var words := Words(text);
    WindowRoundTrip(text, n, i);
    WindowRoundTrip(text, n, i + 1);
    WindowShift(words, i, n);
  }

  lemma WindowShift(words: seq<string>, i: nat, n: nat)
    requires n >= 1 && i + n < |words|
    ensures words[i + 1..i + 1 + n] == words[i..i + n][1..] + [words[i + n]]
  {
  }

  /** A text with fewer than `n` words has no n-grams. */
  lemma TooFewWords(text: string, n: int)
    requires |Words(text)| < n
    ensures NGrams(text, n) == []
  {
  }

  /** With `n == 0` every window is empty: one empty string per word, plus one. */
  lemma ZeroWidthWindows(text: string)
    ensures var g := NGrams(text, 0);
      |g| == |Words(text)| + 1 && forall i :: 0 <= i < |g| ==> g[i] == ""
  {
  }

  /** Only the words matter: the text and its words rejoined by single spaces give the same n-grams. */
  lemma OnlyWordsMatter(text: string, n: int)
    ensures NGrams(text, n) == NGrams(Join(Words(text), ' '), n)
  {
    WordsOfJoin(Words(text));
  }

  /** Extra whitespace between, before or after the words changes nothing. */
  lemma WhitespaceCollapses(a: string, c: char, b: string, n: int)
    requires IsSpace(c)
    ensures NGrams(a + [c] + b, n) == NGrams(a + " " + b, n)
  {
    WordsAroundSpace(a, c, b);
    WordsAroundSpace(a, ' ', b);
  }

  /** Leading and trailing whitespace, of any kind and length, is ignored. */
  lemma PaddingIgnored(p: string, text: string, q: string, n: int)
    requires forall j :: 0 <= j < |p| ==> IsSpace(p[j])
    requires forall j :: 0 <= j < |q| ==> IsSpace(q[j])
    ensures NGrams(p + text + q, n) == NGrams(text, n)
  {
    PaddedWords(p, text, q);
  }
}
