# Wikipedia article protection timelines, modelled in Dafny

The repository studies how Wikipedia articles were protected against editing
over time. Its one piece of real logic rebuilds an article's protection
timeline from the article's protection log:

- each log event becomes a scope-to-level map (`{"edit": "sysop", "move": "sysop"}`),
  taken from the event's structured `details` entries or, for old events without them,
  parsed out of a bracketed span in the event comment (`"edit war [edit=sysop:move=sysop]"`);
- a fixed precedence turns the map into one of five statuses;
- a left-to-right fold over the chronologically sorted events emits an interval
  each time the status changes and closes the last interval at the query instant.

Next to it sit a single-snapshot classifier of a page's current protection (one
loop, copied verbatim into three files), the chronological sort of the fetched
events, the `is_ip` user-name check, and the `generate_ngrams` text helper.

The modules:

- `Wrappers` (wrappers.dfy) holds `Option`.
- `Strings` (strings.dfy) models the Python string operations the code relies on:
  `str.isspace`, `strip()`, `split(sep)`, `split()` and `sep.join`.
- `ProtectionStatus` (protection_status.dfy) holds the status strings, as a
  datatype whose `Name()` gives the source's exact strings, and `resolve_status`.
- `LegacyComment` (legacy_comment.dfy) models `parse_old_protection`. This
  includes the exact semantics of `re.search(r"\[(.*?)\]", comment)`: the
  leftmost `[` whose next `]` comes before any newline.
- `Snapshot` (snapshot.dfy) models the classification loop of
  `get_article_protection_status`.
- `ProtectionLog` (protection_log.dfy) models log events and the stable in-place
  `events.sort(key=timestamp)`.
- `Timeline` and `TimelineScenarios` (timeline.dfy) model `build_protection_timeline`:
  - the method `BuildTimeline` is proved equal to the fold function `TimelineOf`;
  - lemmas state what the timeline guarantees.
- `StatusComparison` (status_comparison.dfy) states how the snapshot classifier
  and the timeline resolver disagree.
- `UserNames` (user_names.dfy) models `is_ip`.
- `NGrams` (ngrams.dfy) models `generate_ngrams`.

Modelling choices:

- Timestamps are integers, and `now` is a parameter of the fold.
- The event fetch is replaced by the event sequence given as input.
- Dictionary lookups that may miss (`prot.get("type")`) are `Option` values.
- The `"type"` key of a protection entry is the field `scope` (`type` is a Dafny keyword).
- The `if ptype and level` test of the timeline is Python truthiness: the field is present and non-empty.
- The snapshot classifier compares fields with literals, as the source does.

`build_protection_timeline` treats four actions as (re)protections: `protect`,
`modify`, `move_prot` and `move_protect` (files/policy_analysis_methods.py:204).
Its first interval starts at the first event whose status is not "unprotected",
not at the first event (files/policy_analysis_methods.py:229-239).

The source sorts events by their ISO-8601 timestamp strings. For the fixed
`YYYY-MM-DDTHH:MM:SSZ` format of the log API, that order is chronological, so the
model sorts integer timestamps.

## Model

| member | source | states |
|---|---|---|
| ProtectionStatus.NameIsInjective | files/policy_analysis_methods.py:159-168 | Distinct statuses have distinct status strings. |
| ProtectionStatus.ResolveStatus | files/policy_analysis_methods.py:151-168 | The result is always one of the five timeline statuses. It is fully / extended / semi-protected exactly when the edit level is sysop / extendedconfirmed / autoconfirmed. It is move-protected exactly when the edit level is none of those and the move level is sysop. Otherwise it is unprotected. |
| ProtectionStatus.ResolveReadsEditAndMoveOnly | files/policy_analysis_methods.py:156-157 | Maps that agree on the "edit" and "move" entries resolve to the same status; no other scope is read. |
| ProtectionStatus.EditOutranksMove | files/policy_analysis_methods.py:159-168 | `{edit: sysop, move: sysop}` is fully protected; `{move: sysop}` is move-protected; the empty map and an unknown edit level are unprotected. |
| LegacyComment.SpanAtMeaning | files/policy_analysis_methods.py:135 | At position i the pattern `\[(.*?)\]` captures c exactly when `[`, c, `]` stand there and c holds no `]` and no newline (non-greedy, `.` does not cross a newline). |
| LegacyComment.BracketSpanLeftmost | files/policy_analysis_methods.py:135-139 | `re.search` finds nothing exactly when no position matches; otherwise it returns the capture at the leftmost matching position. |
| LegacyComment.NoOpeningBracket | files/policy_analysis_methods.py:135-137 | A comment without `[` has no match. |
| LegacyComment.FirstClosedSpan | files/policy_analysis_methods.py:135-139 | After a bracket-free prefix, the first closed span is the one used, whatever follows it (later spans are ignored). |
| LegacyComment.Rule | files/policy_analysis_methods.py:144-146 | A segment yields a key/value pair exactly when it contains `=`. |
| LegacyComment.RuleSplitsAtFirstEquals | files/policy_analysis_methods.py:145-146 | The pair is the stripped text before the first `=` and the stripped text after it (the value may contain `=`). |
| LegacyComment.RuleOfPair | files/policy_analysis_methods.py:145-146 | `key=value` with a key free of `=` gives `(strip(key), strip(value))`. |
| LegacyComment.RulesMapKeys | files/policy_analysis_methods.py:142-146 | A key is in the dictionary exactly when some segment with `=` yields it. |
| LegacyComment.RulesMapLastWins | files/policy_analysis_methods.py:143-146 | A key maps to the value of the last segment that yields it; later duplicates overwrite earlier ones. |
| LegacyComment.ParseOldProtection | files/policy_analysis_methods.py:129-148 | The loop over the `:`-separated segments returns exactly `LegacyLevels(comment)`, the span, split and fold specified above. |
| LegacyComment.NoSpanNoLevels | files/policy_analysis_methods.py:135-137 | A comment in which no position starts a bracketed span gives the empty dictionary. |
| LegacyComment.UnclosedSpanGivesNoLevels | files/policy_analysis_methods.py:135-137 | The unclosed comment `[edit=sysop` gives the empty dictionary. |
| LegacyComment.LineBreakInSpanGivesNoLevels | files/policy_analysis_methods.py:135-137 | A line break before the closing `]` gives no span, so the dictionary is empty. |
| LegacyComment.TwoRules | files/policy_analysis_methods.py:140-146 | Segments `a=x` and `b=y` of plain words give `{a: x, b: y}`, the second winning a shared key. |
| LegacyComment.OnePairComment | files/policy_analysis_methods.py:135-148 | A bracket-free prefix followed by `[a=x]` gives `{a: x}`. |
| LegacyComment.TwoPairComment | files/policy_analysis_methods.py:135-148 | A bracket-free prefix followed by `[a=x:b=y]` gives `{a: x, b: y}`. |
| LegacyComment.DocumentedExample | files/policy_analysis_methods.py:130-134 | "edit war [edit=sysop:move=sysop]" gives `{edit: sysop, move: sysop}`, the docstring's example. |
| Strings.StripShape | files/policy_analysis_methods.py:146 | `strip()` removes exactly the whitespace at both ends: it returns a slice bordered only by whitespace, and neither end of that slice is whitespace. |
| Strings.JoinSplit | files/policy_analysis_methods.py:140 | `split(":")` loses nothing: joining its parts with the separator gives the string back. |
| Strings.SplitJoin | files/policy_analysis_methods.py:140 | Splitting a join of separator-free parts gives the parts back. |
| Timeline.DetailsMapLastWins | files/policy_analysis_methods.py:209-213 | The details map sends a type to a level exactly when the last entry of that type with truthy type and level carries that level. |
| Timeline.StructuredLevels | files/policy_analysis_methods.py:206-213 | The loop over the details entries builds exactly `DetailsMap(protections)`. |
| Timeline.EventStatusOf | files/policy_analysis_methods.py:193-227 | The per-event case analysis yields exactly `EventStatus(ev)`. |
| Timeline.NonProtectionIsUnprotected | files/policy_analysis_methods.py:197-227 | An action that is absent, `unprotect` or outside {protect, modify, move_prot, move_protect} yields unprotected. |
| Timeline.DetailsOverrideComment | files/policy_analysis_methods.py:215-218 | When the details give any entry, the comment does not affect the status. |
| Timeline.CommentWhenNoDetails | files/policy_analysis_methods.py:215-221 | A (re)protection without usable details resolves the map parsed from its comment. |
| Timeline.EventStatusInRange | files/policy_analysis_methods.py:197-227 | Every event resolves to one of the five timeline statuses. |
| Timeline.BuildTimeline | files/policy_analysis_methods.py:171-249 | The fold over the events, followed by the final close at `now`, returns exactly `TimelineOf(events, now)`. |
| Timeline.EmptyLog | files/policy_analysis_methods.py:180-185 | No events give exactly `[{start: None, end: None, status: unprotected}]`. |
| Timeline.RunWellFormed | files/policy_analysis_methods.py:229-239 | After any prefix of the events, the emitted intervals are contiguous and repeat no status, and all their bounds are set. The last interval ends where the open one starts and differs from it in status. No interval is open only while nothing was emitted and the status is unprotected. |
| Timeline.AdvanceWellFormed | files/policy_analysis_methods.py:230-239 | One loop iteration preserves that shape, whatever status the event resolves to. |
| Timeline.CollapseShape | files/policy_analysis_methods.py:230 | Collapsing runs of equal statuses leaves no adjacent duplicates and keeps the first and last status. |
| Timeline.RunFollowsCollapse | files/policy_analysis_methods.py:229-239 | The fold's state lists the collapsed status trace: the initial unprotected, then each emitted interval's status, then the open status (or the trace is only unprotected while no interval is open). |
| Timeline.RunNeverOpened | files/policy_analysis_methods.py:230-239 | No interval has been opened exactly when every event resolved to unprotected. |
| Timeline.TimelineShape | files/policy_analysis_methods.py:229-247 | For a non-empty log: the intervals are contiguous and no two neighbours share a status. The last interval ends at `now`, carries the last event's status and starts at `current_start`. |
| Timeline.LastStartNoneIffAllUnprotected | files/policy_analysis_methods.py:243-247 | The last interval's start is None exactly when every event resolved to unprotected. |
| Timeline.TimelineStatusesAreRuns | files/policy_analysis_methods.py:229-247 | The statuses of the intervals are the collapsed trace without its initial unprotected (only that status when nothing changed), so a leading run of unprotected events is not represented. |
| Timeline.TimelineLength | files/policy_analysis_methods.py:180-247 | The timeline has max(1, number of status changes) intervals. |
| Timeline.RunOrdered | files/policy_analysis_methods.py:229-239 | With a chronologically sorted log, each emitted interval's start is at most its end, which is at most the latest timestamp seen. |
| Timeline.RunBoundsAtChanges | files/policy_analysis_methods.py:229-239 | Every bound the fold has recorded, closed or open, is the timestamp of an event whose status differs from the status before it. |
| Timeline.TimelineBoundsAtChanges | files/policy_analysis_methods.py:229-247 | Every start and every end of the timeline except the final one is the timestamp of an event at which the status changes. |
| Timeline.RunFirstStart | files/policy_analysis_methods.py:229-239 | The first bound the fold records is the timestamp of the first event that does not resolve to unprotected. |
| Timeline.TimelineFirstStart | files/policy_analysis_methods.py:229-247 | The first interval starts at the first event that does not resolve to unprotected. |
| Timeline.ChangesListsChangesAt | files/policy_analysis_methods.py:230 | `Changes` lists, in strictly increasing order, exactly the positions of the events whose status differs from the status before them. |
| Timeline.AdvanceBounds | files/policy_analysis_methods.py:230-239 | A status change at instant `at` closes the open interval at `at` and opens the next one at `at`; an unchanged status records no bound. |
| Timeline.RunBoundsAre | files/policy_analysis_methods.py:229-239 | After the loop, an interval has been opened at every change instant and at no other, and each closed interval runs from one change to the next. |
| Timeline.TimelineBoundsAre | files/policy_analysis_methods.py:229-247 | With no status change the timeline is the single unprotected interval up to `now`. Otherwise interval i starts at the i-th change and ends at the next change, the last one at `now`. |
| Timeline.TimelineOrdered | files/policy_analysis_methods.py:229-247 | With a sorted log and `now` no earlier than the last event, every interval with a start starts no later than it ends. |
| TimelineScenarios.StructuredEditLevel | files/policy_analysis_methods.py:209-218 | A (re)protection whose only details entry is `edit=level` uses the map `{edit: level}`. |
| TimelineScenarios.StructuredWinsOverComment | files/policy_analysis_methods.py:209-221 | With details `edit=autoconfirmed` and comment "[edit=sysop]" the event is semi-protected; without the details it would be fully protected. |
| TimelineScenarios.LegacySemiProtection | files/policy_analysis_methods.py:215-221 | A protection with no details and comment "[edit=autoconfirmed]" is semi-protected. |
| TimelineScenarios.ThreeChanges | files/policy_analysis_methods.py:229-247 | Three events that each change the status give three intervals: event 1 to event 2, event 2 to event 3, event 3 to `now`. |
| TimelineScenarios.ProtectUnprotectReprotect | files/policy_analysis_methods.py:191-247 | Protect (details edit=sysop) at t1, unprotect at t2, protect (comment "[edit=autoconfirmed]") at t3 give fully protected t1-t2, unprotected t2-t3, semi-protected t3-now. |
| TimelineScenarios.ReaffirmedLevelCollapses | files/policy_analysis_methods.py:230-247 | Two events resolving to the same protected status give one interval from the first event to `now`. |
| Snapshot.EntryStatus | files/wikipedia_api.py:558-566 | An entry selects semi / extended / fully protected exactly when it is edit/autoconfirmed, edit/extendedconfirmed or edit/sysop, and move-protected exactly when it is move/sysop. Every other entry selects nothing. |
| Snapshot.ClassifyPage | files/wikipedia_api.py:543-571 | A missing page gives ("missing", []). An empty list gives ("unprotected", []). Otherwise the result is the loop's last-match status with the input list unchanged. |
| Snapshot.LastMatchWins | files/wikipedia_api.py:553-566 | The loop ends on a status other than the default exactly when some entry selects it and no later entry selects anything. |
| Snapshot.CustomWhenNothingMatches | files/wp_api_policy.py:47-60 | The status stays "custom protection" exactly when no entry is one of the four known pairs. |
| Snapshot.UnknownEditLevelIgnored | files/policy_analysis_methods.py:60-66 | An edit entry with an unknown level leaves the status as it was. |
| Snapshot.EditThenMoveIsMoveProtected | files/wp_api_policy.py:48-60 | `[edit=sysop, move=sysop]` classifies as move-protected: the later entry overrides. |
| StatusComparison.ClassifierAndResolverDisagree | files/wikipedia_api.py:553-566 | The same entries `[edit=sysop, move=sysop]` are move-protected for the snapshot classifier and fully protected for the timeline resolver. |
| StatusComparison.CustomIsUnprotectedInTimeline | files/policy_analysis_methods.py:151-168 | Entries that the classifier calls "custom protection" resolve to unprotected in the timeline. |
| StatusComparison.SingleKnownEntryAgrees | files/policy_analysis_methods.py:45-68 | On a single known entry the classifier and the resolver agree. |
| ProtectionLog.SortByTimestamp | files/wikipedia_api.py:626 | The in-place sort leaves the array ascending by timestamp. For every timestamp, the events carrying it appear in their original order (a stable sort). |
| ProtectionLog.InsertLast | files/wikipedia_api.py:626 | One insertion pass turns a sorted prefix of length i into a sorted prefix of length i+1, keeping every timestamp's events in order and leaving the events after position i untouched. |
| ProtectionLog.SameTimesArePermutation | files/wikipedia_api.py:626 | Keeping every timestamp's events in order makes the result a permutation of the input. |
| ProtectionLog.StableSortIsUnique | files/wikipedia_api.py:626 | Two sorted sequences that keep every timestamp's events in the same order are equal, so the stable sort has exactly one result. |
| ProtectionLog.History | files/wikipedia_api.py:625-628 | The returned events are sorted by timestamp, keep the collected order among equal timestamps and are a permutation of the collected events. |
| UserNames.IpIsFourGroups | files/wikipedia_api.py:33-35 | A name accepted by `is_ip` is a dotted quad (four groups of 1-3 digits, split on dots and joined back without loss), optionally followed by one newline. |
| UserNames.FourGroupsAreIp | files/wikipedia_api.py:35 | Any four groups of 1-3 digits joined by dots are accepted, with or without one trailing newline. |
| UserNames.WrongGroupCountRejected | files/wikipedia_api.py:35 | Digit groups joined by dots are rejected unless there are exactly four. |
| UserNames.LeadingNonDigitRejected | files/wikipedia_api.py:35 | A name that does not start with a digit is rejected. |
| UserNames.NoRangeCheck | files/wikipedia_api.py:35 | "999.999.999.999" is accepted: there is no octet range check. |
| UserNames.FinalNewlineAccepted | files/wikipedia_api.py:35 | "10.0.0.1\n" is accepted, because `$` matches before a final newline. |
| UserNames.LeadingLetterRejected | files/wikipedia_api.py:35 | "a1.2.3.4" is rejected. |
| UserNames.GroupCountExamples | files/wikipedia_api.py:35 | "1.2.3.4.5" and "1.2.3" are rejected. |
| NGrams.NGrams | src/dhlab_utils/implementation.py:44-46 | The number of n-grams is max(0, number of words - n + 1). |
| NGrams.PySlice | src/dhlab_utils/implementation.py:46 | Within bounds, Python's slice is the sequence slice; a stop at or before the start gives the empty list. |
| NGrams.WindowRoundTrip | src/dhlab_utils/implementation.py:45-46 | For n >= 1, n-gram i is words i to i+n-1 of the text joined by single spaces, and splitting it gives those words back. |
| NGrams.SlidingWindow | src/dhlab_utils/implementation.py:46 | N-gram i+1 drops the first word of n-gram i and appends word i+n. |
| NGrams.TooFewWords | src/dhlab_utils/implementation.py:46 | Fewer than n words give no n-grams. |
| NGrams.ZeroWidthWindows | src/dhlab_utils/implementation.py:46 | With n = 0 the result is one empty string per word, plus one. |
| NGrams.OnlyWordsMatter | src/dhlab_utils/implementation.py:45 | The text and its words rejoined by single spaces give the same n-grams. |
| NGrams.WhitespaceCollapses | src/dhlab_utils/implementation.py:45 | Any whitespace character between two parts of the text acts like a single space. |
| NGrams.PaddingIgnored | src/dhlab_utils/implementation.py:45 | Leading and trailing whitespace, of any kind and length, does not change the n-grams. |
| Strings.WordsOfJoin | src/dhlab_utils/implementation.py:45-46 | `split()` of words joined by single spaces gives the words back. |
| Strings.WordsAroundSpace | src/dhlab_utils/implementation.py:45 | `split()` never joins across a whitespace character. |
| Strings.BlankHasNoWords | src/dhlab_utils/implementation.py:45 | `split()` of a text of whitespace only is empty. |
| Strings.PaddedWords | src/dhlab_utils/implementation.py:45 | Whitespace before and after a text adds no words to its `split()`. |

The snapshot classifier is one method for the three identical copies, at
files/wikipedia_api.py:543-571, files/wp_api_policy.py:37-65 and
files/policy_analysis_methods.py:45-73. Its rows cite whichever copy the property
is easiest to read from.

## Left out

- HTTP sessions, headers, pagination, retries and sleeps: network I/O. The events and the page object are inputs.
- `datetime.fromisoformat` and `datetime.utcnow()`: timestamps are integers, and the query instant is the parameter `now`.
- Sorting by ISO timestamp strings is modelled as sorting by integer timestamps. Events without a timestamp, whose sort would raise, are not modelled.
- A comment that is None: the source would raise in `re.search` for a (re)protection without details. The model's comment is always a string.
- The `expiry` field of protection entries and the `user` field of events are carried or dropped without effect, as in the fold.
- Protection entries whose type or level is not a string: the model's fields are optional strings.
- UserNames.IsIp: `\d` is modelled as the ASCII digits; Python's `\d` on `str` also matches other Unicode decimal digits.
- NGrams.NGrams: for negative n, no lemma beyond the length is stated, although the Python slicing semantics are modelled.
- Plotting (`plot_protection_timelines`, the colour palette) and the dataframe export: presentation glue.
- The rest of `src/dhlab_utils/implementation.py` and `src/dhlab_utils/dataset.py` (JSON key extraction, TF-IDF matching, CSV loading), the user and page API wrappers, and the re-export modules are not part of this model.
