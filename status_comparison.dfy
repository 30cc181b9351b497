/**
  The snapshot classifier and the timeline's resolver read the same kind of
  entries but disagree: the classifier lets the last known entry decide, the
  resolver ranks the edit level above the move level.
*/
module StatusComparison {
  import opened Wrappers
  import opened ProtectionStatus
  import opened Snapshot
  import opened Timeline

  /** `[edit=sysop, move=sysop]`: "move-protected" for the classifier, "fully protected" for the timeline. */
  lemma ClassifierAndResolverDisagree()
    ensures var entries := [ProtEntry(Some("edit"), Some("sysop")), ProtEntry(Some("move"), Some("sysop"))];
      LastMatch(entries) == MoveProtected && ResolveStatus(DetailsMap(entries)) == FullyProtected
  {
    var entries := [ProtEntry(Some("edit"), Some("sysop")), ProtEntry(Some("move"), Some("sysop"))];
    assert entries[..1] == [entries[0]];
    assert entries[..1][..0] == [];
    assert DetailsMap(entries) == map["edit" := "sysop", "move" := "sysop"];
  }

  /** What the classifier calls "custom protection", the timeline resolves to "unprotected". */
  lemma CustomIsUnprotectedInTimeline(entries: seq<ProtEntry>)
    requires LastMatch(entries) == CustomProtection
    ensures ResolveStatus(DetailsMap(entries)) == Unprotected
  {
    CustomWhenNothingMatches(entries);
    var m := DetailsMap(entries);
    if "edit" in m {
      DetailsMapLastWins(entries, "edit", m["edit"]);
      var i :| SetsLast(entries, i, "edit", m["edit"]);
      assert EntryStatus(entries[i]).None?;
    }
    if "move" in m {
      DetailsMapLastWins(entries, "move", m["move"]);
      var i :| SetsLast(entries, i, "move", m["move"]);
      assert EntryStatus(entries[i]).None?;
    }
  }

  /** On a single known entry the two agree. */
  lemma SingleKnownEntryAgrees(e: ProtEntry)
    requires EntryStatus(e).Some?
    ensures LastMatch([e]) == ResolveStatus(DetailsMap([e]))
  {
    assert [e][..0] == [];
  }
}
