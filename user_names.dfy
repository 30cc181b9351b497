/**
  `is_ip`: whether a user name looks like an IPv4 address, by
  `re.match(r"^\d{1,3}(\.\d{1,3}){3}$", user)`. Python's `$` also matches just
  before a final newline, so one trailing "\n" is accepted. There is no range check.
*/
module UserNames {
  import opened Strings

  predicate IsDigit(c: char) {
    '0' <= c <= '9'
  }

  /** `\d{1,3}`: one to three digits. */
  predicate IsGroup(g: string) {
    1 <= |g| <= 3 && forall k :: 0 <= k < |g| ==> IsDigit(g[k])
  }

  /** `\d{1,3}(\.\d{1,3}){3}` over the whole of `s`. */
  predicate DottedQuad(s: string) {
    var parts := Split(s, '.');
    |parts| == 4 && forall k :: 0 <= k < 4 ==> IsGroup(parts[k])
  }

  /** `is_ip(user)`. */
  predicate IsIp(user: string) {
    || DottedQuad(user)
    || (user != [] && user[|user| - 1] == '\n' && DottedQuad(user[..|user| - 1]))
  }

  /**
    A user name accepted by `is_ip` is four digit groups joined by dots, or
    that followed by one newline.
  */
  lemma IpIsFourGroups(user: string)
    requires IsIp(user)
    ensures var body := BodyOf(user);
      && DottedQuad(body)
      && body == Join(Split(body, '.'), '.')
      && (user == body || user == body + "\n")
  {
    var body := BodyOf(user);
    if DottedQuad(user) {
      assert body == user;
    } else {
      assert body == user[..|user| - 1];
      assert DottedQuad(body);
      assert user == body + [user[|user| - 1]];
    }
    JoinSplit(body, '.');
  }

  /** The name without one final newline when that is how it passes, else the name itself. */
  function BodyOf(user: string): string {
    if !DottedQuad(user) && user != [] && user[|user| - 1] == '\n' then user[..|user| - 1] else user
  }

  lemma JoinFour(a: string, b: string, c: string, d: string)
    ensures Join([a, b, c, d], '.') == a + "." + b + "." + c + "." + d
  {
    assert Join([d], '.') == d;
    assert [c, d][1..] == [d];
    assert Join([c, d], '.') == c + "." + d;
    assert [b, c, d][1..] == [c, d];
    assert Join([b, c, d], '.') == b + "." + c + "." + d;
    assert [a, b, c, d][1..] == [b, c, d];
  }

  /** Any four digit groups joined by dots are accepted, with or without one trailing newline. */
  lemma FourGroupsAreIp(a: string, b: string, c: string, d: string)
    requires IsGroup(a) && IsGroup(b) && IsGroup(c) && IsGroup(d)
    ensures IsIp(a + "." + b + "." + c + "." + d)
    ensures IsIp(a + "." + b + "." + c + "." + d + "\n")
  {
    var q := a + "." + b + "." + c + "." + d;
    var groups := [a, b, c, d];
    JoinFour(a, b, c, d);
    forall k | 0 <= k < 4 ensures '.' !in groups[k] {
      assert IsGroup(groups[k]);
    }
    SplitJoin(groups, '.');
    assert DottedQuad(q);
    assert (q + "\n")[..|q|] == q;
  }

  /** A character that is in no part and is not the separator is not in the join. */
  lemma {:induction false} JoinAvoids(parts: seq<string>, c: char, x: char)
    requires x != c && forall k :: 0 <= k < |parts| ==> x !in parts[k]
    ensures x !in Join(parts, c)
  {
    if |parts| > 1 {
      JoinAvoids(parts[1..], c, x);
    }
  }

  /** Digit groups joined by dots are rejected unless there are exactly four: `"1.2.3"` and `"1.2.3.4.5"` fail. */
  lemma WrongGroupCountRejected(groups: seq<string>)
    requires |groups| >= 1 && |groups| != 4
    requires forall k :: 0 <= k < |groups| ==> IsGroup(groups[k])
    ensures !IsIp(Join(groups, '.'))
  {
    var s := Join(groups, '.');
    forall k | 0 <= k < |groups| ensures '.' !in groups[k] && '\n' !in groups[k] {
      assert IsGroup(groups[k]);
    }
    SplitJoin(groups, '.');
    JoinAvoids(groups, '.', '\n');
  }

  /** The first part of a split is a prefix of the string. */
  lemma SplitHead(s: string, c: char)
    ensures var h := Split(s, c)[0]; |h| <= |s| && h == s[..|h|]
  {
  }

  /** A name that does not start with a digit is rejected: `"a1.2.3.4"` fails. */
  lemma LeadingNonDigitRejected(user: string)
    requires user != [] && !IsDigit(user[0])
    ensures !IsIp(user)
  {
    NoDigitFirstNoQuad(user);
    if user[|user| - 1] == '\n' {
      var body := user[..|user| - 1];
      if body != [] {
        assert body[0] == user[0];
        NoDigitFirstNoQuad(body);
      }
    }
  }

  /** A string that does not start with a digit is not a dotted quad. */
  lemma NoDigitFirstNoQuad(s: string)
    requires s == [] || !IsDigit(s[0])
    ensures !DottedQuad(s)
  {
    SplitHead(s, '.');
    var h := Split(s, '.')[0];
    if h != [] {
      assert h[0] == s[0];
    }
  }


  /** No octet range check: "999.999.999.999" passes. */
  lemma NoRangeCheck()
    ensures IsIp("999.999.999.999")
  {
    var g := "999";
    assert IsGroup(g);
    FourGroupsAreIp(g, g, g, g);
    SpelledQuad();
  }

  /**
    Dotted-quad literals spelled out as their groups; kept apart so the example proofs
    meet one small string equality each rather than a long one inline.
  */
  lemma SpelledQuad()
    ensures "999.999.999.999" == "999" + "." + "999" + "." + "999" + "." + "999"
    ensures "10.0.0.1\n" == "10" + "." + "0" + "." + "0" + "." + "1" + "\n"
  {
  }

  /** One final newline is accepted, as Python's `$` allows. */
  lemma FinalNewlineAccepted()
    ensures IsIp("10.0.0.1\n")
  {
    assert IsGroup("10") && IsGroup("0") && IsGroup("1");
    FourGroupsAreIp("10", "0", "0", "1");
    SpelledQuad();
  }

  /** Extra characters before the groups are refused. */
  lemma LeadingLetterRejected()
    ensures !IsIp("a1.2.3.4")
  {
    LeadingNonDigitRejected("a1.2.3.4");
  }

  /** The five- and three-group literals spelled out as their groups, for the same reason as `SpelledQuad`. */
  lemma SpelledGroups()
    ensures Join(["1", "2", "3", "4", "5"], '.') == "1.2.3.4.5"
    ensures Join(["1", "2", "3"], '.') == "1.2.3"
  {
    assert Join(["5"], '.') == "5";
    assert Join(["4", "5"], '.') == "4.5";
    assert Join(["3", "4", "5"], '.') == "3.4.5";
    assert Join(["2", "3", "4", "5"], '.') == "2.3.4.5";
    assert Join(["3"], '.') == "3";
    assert Join(["2", "3"], '.') == "2.3";
  }

  /** Five groups and three groups are refused. */
  lemma GroupCountExamples()
    ensures !IsIp("1.2.3.4.5")
    ensures !IsIp("1.2.3")
  {
    var five, three := ["1", "2", "3", "4", "5"], ["1", "2", "3"];
    assert forall k :: 0 <= k < |five| ==> five[k] in {"1", "2", "3", "4", "5"};
    assert IsGroup("1") && IsGroup("2") && IsGroup("3") && IsGroup("4") && IsGroup("5");
    WrongGroupCountRejected(five);
    WrongGroupCountRejected(three);
    SpelledGroups();
  }
}
