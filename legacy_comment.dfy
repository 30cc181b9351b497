/**
  `parse_old_protection`: the protection settings that old log comments carry
  in brackets, as in "edit war [edit=sysop:move=sysop]".

  The search is the regular expression `\[(.*?)\]` under `re.search`: the
  leftmost `[` whose next `]` comes before any line break; the captured text
  runs from just after that `[` to just before that `]`.
*/
module LegacyComment {
  import opened Wrappers
  import opened Strings
  import opened ProtectionStatus

  /** The first position at or after `j` holding `]` or a line break, or `|s|`. */
  function SpanEnd(s: string, j: nat): (k: nat)
    requires j <= |s|
    ensures j <= k <= |s|
    ensures forall m :: j <= m < k ==> s[m] != ']' && s[m] != '\n'
    ensures k < |s| ==> s[k] == ']' || s[k] == '\n'
    decreases |s| - j
  {
    if j == |s| || s[j] == ']' || s[j] == '\n' then j else SpanEnd(s, j + 1)
  }

  /** The text the pattern captures when its match starts at position `i`, if it matches there. */
  function SpanAt(s: string, i: nat): Option<string>
    requires i < |s|
  {
    if s[i] != '[' then None
    else
      var k := SpanEnd(s, i + 1);
      if k < |s| && s[k] == ']' then Some(s[i + 1..k]) else None
  }

  /** The regular-expression meaning of a match at `i`: `[`, then text without `]` or a line break, then `]`. */
  lemma SpanAtMeaning(s: string, i: nat, c: string)
    requires i < |s|
    ensures SpanAt(s, i) == Some(c) <==>
      && s[i] == '['
      && i + 1 + |c| < |s|
      && s[i + 1..i + 1 + |c|] == c
      && s[i + 1 + |c|] == ']'
      && ']' !in c && '\n' !in c
  {
    if s[i] == '[' && i + 1 + |c| < |s| && s[i + 1..i + 1 + |c|] == c && s[i + 1 + |c|] == ']'
      && ']' !in c && '\n' !in c
    {
      var k := SpanEnd(s, i + 1);
      assert k == i + 1 + |c|;
    }
    if SpanAt(s, i) == Some(c) {
      var k := SpanEnd(s, i + 1);
      assert c == s[i + 1..k];
      forall m | 0 <= m < |c| ensures c[m] != ']' && c[m] != '\n' {
        assert c[m] == s[i + 1 + m];
      }
    }
  }

  /** `re.search` from position `i` on: the leftmost match at or after `i`. */
  function SearchFrom(s: string, i: nat): Option<string>
    requires i <= |s|
    decreases |s| - i
  {
    if i == |s| then None
    else if SpanAt(s, i).Some? then SpanAt(s, i)
    else SearchFrom(s, i + 1)
  }

  /** The captured group of `re.search(r"\[(.*?)\]", comment)`, or `None` when it does not match. */
  function BracketSpan(s: string): Option<string> {
    SearchFrom(s, 0)
  }

  lemma {:induction false} SearchFromLeftmost(s: string, i: nat)
    requires i <= |s|
    ensures SearchFrom(s, i).None? <==> forall j :: i <= j < |s| ==> SpanAt(s, j).None?
    ensures SearchFrom(s, i).Some? ==>
      exists j :: i <= j < |s| && SearchFrom(s, i) == SpanAt(s, j)
        && forall m :: i <= m < j ==> SpanAt(s, m).None?
    decreases |s| - i
  {
    if i < |s| && SpanAt(s, i).None? {
      SearchFromLeftmost(s, i + 1);
      if SearchFrom(s, i).Some? {
        var j :| i + 1 <= j < |s| && SearchFrom(s, i + 1) == SpanAt(s, j)
          && forall m :: i + 1 <= m < j ==> SpanAt(s, m).None?;
        assert forall m :: i <= m < j ==> SpanAt(s, m).None?;
      }
    }
  }

  /** Only the first bracketed span counts: the result is the match at the leftmost position where one exists. */
  lemma BracketSpanLeftmost(s: string)
    ensures BracketSpan(s).None? <==> forall j :: 0 <= j < |s| ==> SpanAt(s, j).None?
    ensures BracketSpan(s).Some? ==>
      exists j :: 0 <= j < |s| && BracketSpan(s) == SpanAt(s, j)
        && forall m :: 0 <= m < j ==> SpanAt(s, m).None?
  {
    SearchFromLeftmost(s, 0);
  }

  /** A comment with no `[` has no bracketed span. */
  lemma NoOpeningBracket(s: string)
    requires '[' !in s
    ensures BracketSpan(s) == None
  {
    BracketSpanLeftmost(s);
    forall j | 0 <= j < |s| ensures SpanAt(s, j).None? {
      assert s[j] != '[';
    }
  }

  /** One `key=value` segment: split at the first `=`, both halves stripped; `None` without `=`. */
  function Rule(segment: string): (r: Option<(string, string)>)
    ensures r.Some? <==> '=' in segment
  {
    if '=' in segment then
      var i := IndexOf(segment, '=');
      Some((Strip(segment[..i]), Strip(segment[i + 1..])))
    else
      None
  }

  /** The key of a rule comes from before the first `=`; the value may itself contain `=`. */
  lemma RuleSplitsAtFirstEquals(segment: string)
    requires '=' in segment
    ensures var i := IndexOf(segment, '=');
      && segment == segment[..i] + "=" + segment[i + 1..]
      && '=' !in segment[..i]
      && Rule(segment) == Some((Strip(segment[..i]), Strip(segment[i + 1..])))
  {
    var i := IndexOf(segment, '=');
    assert segment == segment[..i] + "=" + segment[i + 1..];
  }

  /** One step of the loop: a segment with `=` sets its key, any other segment changes nothing. */
  function Apply(m: LevelMap, segment: string): LevelMap {
    match Rule(segment)
    case None => m
    case Some((k, v)) => m[k := v]
  }

  /** The dictionary the loop over the segments builds; later segments overwrite earlier ones. */
  function RulesMap(rules: seq<string>): LevelMap {
    if rules == [] then map[] else Apply(RulesMap(rules[..|rules| - 1]), rules[|rules| - 1])
  }

  /** Segment `i` is a rule for key `k`. */
  predicate Names(rules: seq<string>, i: int, k: string) {
    0 <= i < |rules| && Rule(rules[i]).Some? && Rule(rules[i]).value.0 == k
  }

  /** A key is in the map exactly when some segment with `=` names it. */
  lemma {:induction false} RulesMapKeys(rules: seq<string>, k: string)
    ensures k in RulesMap(rules) <==> exists i :: Names(rules, i, k)
  {
    if rules != [] {
      var n := |rules| - 1;
      var init := rules[..n];
      RulesMapKeys(init, k);
      assert RulesMap(rules) == Apply(RulesMap(init), rules[n]);
      if Names(rules, n, k) {
        assert k in RulesMap(rules);
      } else {
        assert k in RulesMap(rules) <==> k in RulesMap(init);
      }
      if exists i :: Names(init, i, k) {
        var i :| Names(init, i, k);
        assert rules[i] == init[i];
        assert Names(rules, i, k);
      }
      if exists i :: Names(rules, i, k) {
        var i :| Names(rules, i, k);
        if i < n {
          assert rules[i] == init[i];
          assert Names(init, i, k);
        }
      }
    }
  }

  /** The last segment that names a key decides its value. */
  lemma {:induction false} RulesMapLastWins(rules: seq<string>, i: nat, k: string, v: string)
    requires i < |rules| && Rule(rules[i]) == Some((k, v))
    requires forall j :: i < j < |rules| ==> Rule(rules[j]).None? || Rule(rules[j]).value.0 != k
    ensures k in RulesMap(rules) && RulesMap(rules)[k] == v
  {
    var init := rules[..|rules| - 1];
    if i < |rules| - 1 {
      assert init[i] == rules[i];
      forall j | i < j < |init| ensures Rule(init[j]).None? || Rule(init[j]).value.0 != k {
        assert init[j] == rules[j];
      }
      RulesMapLastWins(init, i, k, v);
    }
  }

  /** What `parse_old_protection(comment)` returns. */
  function LegacyLevels(comment: string): LevelMap {
    match BracketSpan(comment)
    case None => map[]
    case Some(content) => RulesMap(Split(content, ':'))
  }

  /** `parse_old_protection`: find the span, split it on `:`, fill the dictionary segment by segment. */
  method ParseOldProtection(comment: string) returns (prot: LevelMap)
    ensures prot == LegacyLevels(comment)
  {
    var found := BracketSpan(comment);
    if found.None? {
      return map[];
    }
    var rules := Split(found.value, ':');
    prot := map[];
    for n := 0 to |rules|
      invariant prot == RulesMap(rules[..n])
    {
      var rule := rules[n];
      if '=' in rule {
        var i := IndexOf(rule, '=');
        var key, value := rule[..i], rule[i + 1..];
        prot := prot[Strip(key) := Strip(value)];
      }
      assert rules[..n + 1][..n] == rules[..n];
    }
    assert rules[..|rules|] == rules;
  }

  /** A comment without a bracketed span gives the empty dictionary. */
  lemma NoSpanNoLevels(comment: string)
    requires forall j :: 0 <= j < |comment| ==> SpanAt(comment, j).None?
    ensures LegacyLevels(comment) == map[]
  {
    BracketSpanLeftmost(comment);
  }

  /** An unclosed bracket is no span. */
  lemma UnclosedSpanGivesNoLevels()
    ensures LegacyLevels("[edit=sysop") == map[]
  {
    NoSpanNoLevels("[edit=sysop");
  }

  /** A line break before the closing bracket breaks the span. */
  lemma LineBreakInSpanGivesNoLevels()
    ensures LegacyLevels("[edit=\nsysop]") == map[]
  {
    NoSpanNoLevels("[edit=\nsysop]");
  }

  /** Positions where nothing matches are skipped by the search. */
  lemma {:induction false} SearchFromSkips(s: string, i: nat, j: nat)
    requires i <= j <= |s|
    requires forall m :: i <= m < j ==> SpanAt(s, m).None?
    ensures SearchFrom(s, i) == SearchFrom(s, j)
    decreases j - i
  {
    if i < j {
      SearchFromSkips(s, i + 1, j);
    }
  }

  /** With no `[` before it, a closed span is the one found, whatever follows it. */
  lemma FirstClosedSpan(prefix: string, c: string, rest: string)
    requires '[' !in prefix && ']' !in c && '\n' !in c
    ensures BracketSpan(prefix + "[" + c + "]" + rest) == Some(c)
  {
    var s := prefix + "[" + c + "]" + rest;
    var i := |prefix|;
    assert s[i + 1..i + 1 + |c|] == c;
    SpanAtMeaning(s, i, c);
    forall m | 0 <= m < i ensures SpanAt(s, m).None? {
      assert s[m] == prefix[m];
    }
    SearchFromSkips(s, 0, i);
  }

  /** A segment `key=value` whose key holds no `=` yields the stripped pair. */
  lemma RuleOfPair(key: string, value: string)
    requires '=' !in key
    ensures Rule(key + "=" + value) == Some((Strip(key), Strip(value)))
  {
    var seg := key + "=" + value;
    assert seg[|key|] == '=';
    var i := IndexOf(seg, '=');
    assert i == |key|;
    assert seg[..i] == key;
    assert seg[i + 1..] == value;
  }

  /** A word that can stand as a key or a level inside a bracketed span. */
  predicate PlainWord(w: string) {
    IsWord(w) && ']' !in w && '\n' !in w && ':' !in w && '=' !in w
  }

  /** A non-empty run of lower-case ASCII letters, such as the scope and level names. */
  predicate LowerWord(w: string) {
    w != [] && forall k :: 0 <= k < |w| ==> 'a' <= w[k] <= 'z'
  }

  lemma LowerWordIsPlain(w: string)
    requires LowerWord(w)
    ensures PlainWord(w)
  {
  }

  /** The segments `a=x` and `b=y` give `{a: x, b: y}`, the second winning a shared key. */
  lemma TwoRules(a: string, x: string, b: string, y: string)
    requires PlainWord(a) && PlainWord(x) && PlainWord(b) && PlainWord(y)
    ensures RulesMap([a + "=" + x, b + "=" + y]) == map[a := x][b := y]
  {
    var first, second := a + "=" + x, b + "=" + y;
    RuleOfPair(a, x);
    RuleOfPair(b, y);
    StripWord(a);
    StripWord(x);
    StripWord(b);
    StripWord(y);
    assert [first][..0] == [];
    assert RulesMap([first]) == map[a := x];
    assert [first, second][..1] == [first];
  }

  /** A bracketed `a=x:b=y` after a bracket-free prefix gives `{a: x, b: y}`. */
  lemma TwoPairComment(prefix: string, a: string, x: string, b: string, y: string)
    requires '[' !in prefix
    requires PlainWord(a) && PlainWord(x) && PlainWord(b) && PlainWord(y)
    ensures LegacyLevels(prefix + "[" + a + "=" + x + ":" + b + "=" + y + "]") == map[a := x][b := y]
  {
    var first, second := a + "=" + x, b + "=" + y;
    var c := first + ":" + second;
    assert prefix + "[" + a + "=" + x + ":" + b + "=" + y + "]" == prefix + "[" + c + "]" + "";
    FirstClosedSpan(prefix, c, "");
    assert Join([first, second], ':') == c;
    SplitJoin([first, second], ':');
    TwoRules(a, x, b, y);
  }

  /** A bracketed `a=x` after a bracket-free prefix gives `{a: x}`. */
  lemma OnePairComment(prefix: string, a: string, x: string)
    requires '[' !in prefix
    requires PlainWord(a) && PlainWord(x)
    ensures LegacyLevels(prefix + "[" + a + "=" + x + "]") == map[a := x]
  {
    var c := a + "=" + x;
    assert prefix + "[" + a + "=" + x + "]" == prefix + "[" + c + "]" + "";
    FirstClosedSpan(prefix, c, "");
    assert ':' !in c by {
      forall m | 0 <= m < |c| ensures c[m] != ':' {
        if m < |a| { assert c[m] == a[m]; } else if m > |a| { assert c[m] == x[m - |a| - 1]; }
      }
    }
    assert Split(c, ':') == [c];
    RuleOfPair(a, x);
    StripWord(a);
    StripWord(x);
    assert [c][..0] == [];
    assert RulesMap([c]) == map[a := x];
  }

  /** The documented example: "edit war [edit=sysop:move=sysop]" gives `{edit: sysop, move: sysop}`. */
  lemma DocumentedExample()
    ensures LegacyLevels("edit war [edit=sysop:move=sysop]") == map["edit" := "sysop", "move" := "sysop"]
  {
    var comment := "edit war [edit=sysop:move=sysop]";
    DocumentedSpelling();
    LowerWordIsPlain("edit");
    LowerWordIsPlain("sysop");
    LowerWordIsPlain("move");
    TwoPairComment("edit war ", "edit", "sysop", "move", "sysop");
  }

  /**
    The documented comment literal spelled out as the pieces the parser sees; kept apart
    so the scenario proof handles the pieces rather than one long string equality.
  */
  lemma DocumentedSpelling()
    ensures "edit war [edit=sysop:move=sysop]" == "edit war " + "[" + "edit" + "=" + "sysop" + ":" + "move" + "=" + "sysop" + "]"
  {
  }
}
