/**
  The status classification of `get_article_protection_status`: the page's
  current protection entries are read in order, each known type/level pair
  overwriting the status, starting from "custom protection".
  The same code appears in three files of the source; this is its one model.
*/
module Snapshot {
  import opened Wrappers
  import opened ProtectionStatus

  /** The part of the API's page object that the classifier reads. */
  datatype Page = Page(missing: bool, protection: seq<ProtEntry>)

  /** The returned dictionary: `{"status": ..., "protections": ...}`. */
  datatype Snapshot = Snapshot(status: Status, protections: seq<ProtEntry>)

  /** The status one entry selects, if its type/level pair is one of the four known ones. */
  function EntryStatus(e: ProtEntry): (r: Option<Status>)
    ensures r == Some(SemiProtected) <==> e == ProtEntry(Some("edit"), Some("autoconfirmed"))
    ensures r == Some(ExtendedProtected) <==> e == ProtEntry(Some("edit"), Some("extendedconfirmed"))
    ensures r == Some(FullyProtected) <==> e == ProtEntry(Some("edit"), Some("sysop"))
    ensures r == Some(MoveProtected) <==> e == ProtEntry(Some("move"), Some("sysop"))
    ensures r.None? <==> e !in {
      ProtEntry(Some("edit"), Some("autoconfirmed")), ProtEntry(Some("edit"), Some("extendedconfirmed")),
      ProtEntry(Some("edit"), Some("sysop")), ProtEntry(Some("move"), Some("sysop"))}
  {
    if e.scope == Some("edit") then
      if e.level == Some("autoconfirmed") then Some(SemiProtected)
      else if e.level == Some("extendedconfirmed") then Some(ExtendedProtected)
      else if e.level == Some("sysop") then Some(FullyProtected)
      else None
    else if e.scope == Some("move") && e.level == Some("sysop") then Some(MoveProtected)
    else None
  }

  /** The status after the loop over `entries`: the last known pair decides, "custom protection" if none. */
  function LastMatch(entries: seq<ProtEntry>): Status {
    if entries == [] then CustomProtection
    else
      match EntryStatus(entries[|entries| - 1])
      case Some(s) => s
      case None => LastMatch(entries[..|entries| - 1])
  }

  /** The classification half of `get_article_protection_status`, the fetch replaced by `page`. */
  method ClassifyPage(page: Page) returns (snap: Snapshot)
    ensures page.missing ==> snap == Snapshot(Missing, [])
    ensures !page.missing && page.protection == [] ==> snap == Snapshot(Unprotected, [])
    ensures !page.missing && page.protection != [] ==>
      snap == Snapshot(LastMatch(page.protection), page.protection)
  {
    if page.missing {
      return Snapshot(Missing, []);
    }
    var protections := page.protection;
    if |protections| == 0 {
      return Snapshot(Unprotected, []);
    }
    var status := CustomProtection;
    for n := 0 to |protections|
      invariant status == LastMatch(protections[..n])
    {
      var action, level := protections[n].scope, protections[n].level;
      if action == Some("edit") {
        if level == Some("autoconfirmed") {
          status := SemiProtected;
        } else if level == Some("extendedconfirmed") {
          status := ExtendedProtected;
        } else if level == Some("sysop") {
          status := FullyProtected;
        }
      } else if action == Some("move") && level == Some("sysop") {
        status := MoveProtected;
      }
      assert protections[..n + 1][..n] == protections[..n];
    }
    assert protections[..|protections|] == protections;
    return Snapshot(status, protections);
  }

  /** Entry `i` selects `s` and no later entry selects anything. */
  predicate DecidedBy(entries: seq<ProtEntry>, i: int, s: Status) {
    && 0 <= i < |entries|
    && EntryStatus(entries[i]) == Some(s)
    && forall j :: i < j < |entries| ==> EntryStatus(entries[j]).None?
  }

  /**
    Last match wins: the loop ends on status `s` (other than the default) exactly
    when some entry selects `s` and no later entry selects anything.
  */
  lemma {:induction false} LastMatchWins(entries: seq<ProtEntry>, s: Status)
    requires s != CustomProtection
    ensures LastMatch(entries) == s <==> exists i :: DecidedBy(entries, i, s)
  {
    if entries != [] {
      var n := |entries| - 1;
      var init := entries[..n];
      LastMatchWins(init, s);
      if EntryStatus(entries[n]).None? {
        if exists i :: DecidedBy(entries, i, s) {
          var i :| DecidedBy(entries, i, s);
          assert DecidedBy(init, i, s);
        }
        if exists i :: DecidedBy(init, i, s) {
          var i :| DecidedBy(init, i, s);
          assert DecidedBy(entries, i, s);
        }
      } else if EntryStatus(entries[n]) == Some(s) {
        assert DecidedBy(entries, n, s);
      }
    }
  }

  /** The status stays "custom protection" exactly when no entry is a known type/level pair. */
  lemma {:induction false} CustomWhenNothingMatches(entries: seq<ProtEntry>)
    ensures LastMatch(entries) == CustomProtection <==>
      forall i :: 0 <= i < |entries| ==> EntryStatus(entries[i]).None?
  {
    if entries != [] {
      var n := |entries| - 1;
      CustomWhenNothingMatches(entries[..n]);
      assert forall i :: 0 <= i < n ==> entries[..n][i] == entries[i];
    }
  }

  /** An edit entry with an unknown level leaves the status as it was. */
  lemma UnknownEditLevelIgnored(entries: seq<ProtEntry>, level: Option<string>)
    requires level !in {Some("autoconfirmed"), Some("extendedconfirmed"), Some("sysop")}
    ensures LastMatch(entries + [ProtEntry(Some("edit"), level)]) == LastMatch(entries)
  {
    var e := entries + [ProtEntry(Some("edit"), level)];
    assert e[..|e| - 1] == entries;
  }

  /** `[edit=sysop, move=sysop]` classifies as move-protected: the later entry overrides. */
  lemma EditThenMoveIsMoveProtected()
    ensures LastMatch([ProtEntry(Some("edit"), Some("sysop")), ProtEntry(Some("move"), Some("sysop"))])
      == MoveProtected
  {
  }
}
