# TabEater background core in Dafny

TabEater is a browser extension that closes ("eats") tabs in bulk and
restores them. This project models its background logic:

- closing every tab of a domain or every tab whose title or URL holds a
  keyword;
- closing inactive tabs and duplicate tabs;
- restoring a batch of closed tabs with activation and a retry without
  window placement;
- sorting the current window's tabs by how many tabs each domain has open;
- the persisted settings, the closed-domain history and the "tabs eaten"
  statistics;
- the domain suggestions shown in the popup.

The model works on values. Browser storage is a `Storage.Store` record
(settings, history, statistics) that an operation takes and returns. The
tab list is a `seq<Tabs.Tab>`. Every host call whose result the code uses
is a parameter:

- the WHATWG URL parser is `parse: string -> Option<Url>`;
- the clock is `now`;
- success or failure of `tabs.create` and `tabs.move` are oracle functions
  over the call's position;
- `String.prototype.localeCompare` is `collate`, a function constrained to
  be a consistent three-way comparison (`SortTabs.Collation`);
- the recency boost `Math.exp(-(now - lastClosedAt) / decayMs)` is `boost`.

`Array.prototype.sort` is stable. It is modelled by the stable insertion
sort `Sorting.SortBy`, with `le(a, b)` meaning "the comparator returns at
most 0". A JavaScript `Map` keeps its insertion order; it is modelled by
`Table.Table`, which holds a key sequence and a map.

Modules, one file each:

| module | file | models |
|---|---|---|
| `Wrappers`, `Seqs`, `Sorting`, `Table`, `Text` | wrappers.dfy, seqs.dfy, sorting.dfy, table.dfy, text.dfy | `Option`; counting and `slice`; stable sort; insertion-ordered map; ASCII lower-casing, `trim`, the `^www\.` strip, case-insensitive search |
| `Settings` | settings.dfy | both default tables, `normalizeSettings`, `getSettings`, `updateSettings`, and the inactivity threshold |
| `Urls` | urls.dfy | `domainFromUrl`, `normalizeUrlForDedup` |
| `Tabs` | tabs.dfy | the tab record, `tabLooksInactive`, `serializeTab` |
| `Storage` | storage.dfy | history rows, statistic rows, the store |
| `Closing` | closing.dfy | `closeByKeyword`, `closeInactiveTabs`, `closeDuplicateTabs` |
| `Restore` | restore.dfy | `restoreTabs` |
| `SortTabs` | sorttabs.dfy | `sortTabsByOpenCount` |
| `Stats` | stats.dfy | `pcStatsEat`, `getStats`, `resetStats` |
| `History` | history.dfy | `pcRecordClosedTabs` |
| `Suggestions` | suggestions.dfy | `pcGetSuggestions` |

Loops in the code are methods with `while` loops (`Closing.CloseWhere`,
`Closing.CloseDuplicateTabs`, `Restore.CreateAll`, `SortTabs.Partition`,
`SortTabs.MoveAll`, `Stats.CountBatch`, `History.RecordBatch`,
`Suggestions.CountOpenTabs`, `Suggestions.ScoreDomains`). Each one is proved
equal to a recursive specification function. The lemmas then state the
promised properties about that function.

Four behaviours of the code worth noting:

- `restoreTabs` activates the first active tab of each window. A later
  active tab in a window that was already activated is not simply left
  inactive: it takes the single fallback activation if that is still free
  (`Restore.TwoActiveInOneWindow`).
- `domainFromUrl` strips only one leading `www.` (`Urls.OnlyOneWwwRemoved`).
- The two files have different defaults for the inactivity threshold.
  `closeInactiveTabs` reads the settings through the background defaults
  (120 minutes). `pcGetSuggestions` uses the suggestion defaults (60
  minutes). The fallback for a zero or missing value is 30 minutes in both
  (`Settings.DefaultThresholds`).
- `pcRecordClosedTabs` keeps an item that contains a dot whole (lower-cased)
  instead of reducing it to a domain, so a full URL with a dot is recorded as
  a URL (`History.DottedItemKeptWhole`).

## Model

| member | source | states |
|---|---|---|
| `Settings.NormalizeSettings` | src/shared/background.js:13-17 | stored keys override the background defaults, every default key is present, and "enableSuggestions" is always removed |
| `Settings.GetSettings` | src/shared/background.suggestions.js:36-39 | the keys are the union of stored and default keys; a stored value wins and a default fills each missing key |
| `Settings.UpdateSettings` | src/shared/background.suggestions.js:40-44 | every patched key takes the patch value; every other key reads as it did before the update |
| `Settings.ReadAfterUpdate` | src/shared/background.suggestions.js:40-44 | reading back a written settings object returns it unchanged |
| `Settings.EmptyPatchKeepsSettings` | src/shared/background.suggestions.js:40-44 | an empty patch leaves the settings as read unchanged |
| `Settings.ThresholdMinutes` | src/shared/background.js:406-410 | the threshold is at least 1 minute; a missing or zero value gives 30; otherwise it is max(1, value) |
| `Settings.ThresholdMs` | src/shared/background.js:411 | the threshold in milliseconds is at least one minute |
| `Settings.DefaultThresholds` | src/shared/background.js:405-411 | with nothing stored, the background reads 120 minutes and the suggestions read 60 minutes |
| `Urls.DomainFromUrl` | src/shared/background.js:55-61 | an unparsable URL gives no domain; otherwise the domain is the lower-cased hostname without one leading "www." |
| `Urls.WwwVariantsAgree` | src/shared/background.js:55-61 | a host and the same host with "www." prefixed give the same domain |
| `Urls.OnlyOneWwwRemoved` | src/shared/background.js:57 | "www.www.a.com" gives "www.a.com" |
| `Urls.NormalizeUrlForDedup` | src/shared/background.js:446-454 | an unparsable URL gives no key; otherwise the key is the serialized URL with the fragment cleared |
| `Urls.DedupKeyIgnoresFragment` | src/shared/background.js:446-454 | two URLs that differ only in their fragment have the same key |
| `Tabs.TabLooksInactive` | src/shared/background.js:63-70 | a tab that looks inactive is neither incognito, pinned, audible nor active; if it has a last access, that is at least the threshold ago, and if it has none, it is discarded |
| `Tabs.InactiveMonotone` | src/shared/background.js:63-70 | a tab inactive at a larger threshold and an earlier time stays inactive at a smaller threshold and a later time |
| `Tabs.SerializeTab` | src/shared/background.js:135-147 | no snapshot exactly when the tab has neither a url nor a pendingUrl; the snapshot prefers url, copies windowId, index, active and pinned |
| `Text.Lower` | src/shared/background.js:57 | lower-casing keeps the length and maps each character |
| `Text.LowerIsLower` | src/shared/background.js:57 | a lower-cased string holds no upper-case letter |
| `Text.LowerIdempotent` | src/shared/background.js:57 | lower-casing twice is lower-casing once |
| `Text.StripWww` | src/shared/background.js:362 | a "www." prefix is removed once; any other string is unchanged |
| `Text.Trim` | src/shared/background.js:354 | the trimmed keyword is a slice of the input, everything outside that slice is white space, and the slice neither starts nor ends with white space |
| `Text.BlankTrimsToEmpty` | src/shared/background.js:354 | a string made only of white space trims to the empty string |
| `Text.TrimUnchanged` | src/shared/background.js:354 | a non-empty string without white space at its ends is its own trim |
| `Text.EmptyNeedleMatches` | src/shared/background.js:374-378 | the empty pattern matches any text |
| `Sorting.SortBy` | src/shared/background.js:514-525 | sorting keeps the length and the multiset of elements |
| `Sorting.InsertEquivalents` | src/shared/background.js:514-525 | inserting an element puts it ahead of the elements ranked level with it and keeps their order |
| `Sorting.SortByStable` | src/shared/background.js:514-525 | the sort is stable: for every element, the elements ranked level with it appear in the sorted sequence in their input order |
| `Sorting.SortBySorted` | src/shared/background.js:514-525 | for a total preorder, the sorted sequence is ordered by it |
| `Closing.GatherShape` | src/shared/background.js:363-372 | one id per chosen tab, in order, and one snapshot per chosen tab that serializes |
| `Closing.GatherDomains` | src/shared/background.js:368 | the closed domains are distinct, and a domain is listed exactly when some chosen tab has it as a non-empty domain |
| `Closing.Chosen` | src/shared/background.js:363-385 | at most as many tabs are chosen as there are tabs |
| `Closing.ChosenExactly` | src/shared/background.js:363-385 | a tab is chosen exactly when it is in the list and meets the criterion |
| `Closing.ChosenCount` | src/shared/background.js:363-385 | a tab is chosen as often as it occurs in the list when it meets the criterion, and never otherwise |
| `Closing.ChosenCounts` | src/shared/background.js:363-385 | the chosen tabs, with multiplicity, are exactly the tabs of the list that meet the criterion |
| `Closing.CloseWhere` | src/shared/background.js:363-385 | the loop's result is the gathered result of the chosen tabs |
| `Closing.AfterCloseCounts` | src/shared/background.js:387-395 | closing changes only the statistics; nothing happens when no tab closed or stats are off; otherwise the eaten total grows by the number of closed tabs |
| `Closing.KeywordCriterion` | src/shared/background.js:354-362 | a trimmed keyword selects by domain exactly when it holds a dot, and the wanted domain then has no upper-case letter; otherwise the trimmed, dot-free keyword is searched for as text |
| `Closing.CloseByKeyword` | src/shared/background.js:350-403 | an empty keyword closes nothing; otherwise the result and the new store are those of the keyword selection |
| `Closing.KeywordSelection` | src/shared/background.js:354-385 | a tab is closed exactly when it is not incognito and its domain equals the wanted one (domain mode), or its non-empty title or url contains the keyword ignoring case (text mode) |
| `Closing.BlankKeywordMatchesAll` | src/shared/background.js:354-378 | a keyword made only of white space trims to empty and then selects every non-incognito tab that has a title or url |
| `Closing.KeywordExample` | src/shared/background.js:350-403 | with two unpinned a.com tabs and a pinned b.com tab, "a.com" closes ids 1 and 2 and reports domain a.com |
| `Closing.PlainDomainKeyword` | src/shared/background.js:354-362 | a lower-case dotted keyword without blanks or "www." is its own wanted domain |
| `Closing.CloseInactiveTabs` | src/shared/background.js:405-444 | the result is the gathered result of the tabs that look inactive at the normalized threshold, and the store is updated as after any close |
| `Closing.InactiveSelection` | src/shared/background.js:405-426 | a tab is closed exactly when it looks inactive at the configured threshold times 60000; with nothing stored that threshold is 120 minutes |
| `Closing.KeyOf` | src/shared/background.js:463-466 | incognito and pinned tabs, unparsable URLs and empty keys give no key; an unpinned non-incognito tab whose url (or pendingUrl when url is empty) has a non-empty dedup key gets exactly that key |
| `Closing.DedupFacts` | src/shared/background.js:463-476 | the seen set is the set of keys; closed tabs plus distinct keys equal the eligible tabs; every closed tab is a keyed tab of the list |
| `Closing.DedupStep` | src/shared/background.js:467-475 | a tab is closed when its key was seen before and otherwise adds its key |
| `Closing.CloseDuplicateTabs` | src/shared/background.js:456-494 | the loop's result is the gathered result of the duplicates, and the store is updated as after any close |
| `Closing.DedupExample` | src/shared/background.js:456-494 | of two tabs on the same URL with different fragments, the second is closed |
| `Restore.Clean` | src/shared/background.js:499-510 | the cleaned list keeps exactly the present snapshots with a non-empty url |
| `Restore.CleanCounts` | src/shared/background.js:499-510 | each snapshot with a non-empty url is kept as often as it occurs in the input, and every other is dropped |
| `Restore.RestoreLeIsTotalPreorder` | src/shared/background.js:514-525 | the restore comparator is a total preorder |
| `Restore.OrderedFacts` | src/shared/background.js:514-525 | the ordered list is a permutation of the cleaned list, sorted by window and then by index, with missing values last |
| `Restore.OrderedStable` | src/shared/background.js:514-525 | snapshots with the same window and index keep their cleaned order, so the first of them is the one that may take the fallback |
| `Restore.Activate` | src/shared/background.js:546-557 | an inactive snapshot stays inactive; an active one with an unactivated window activates it; the fallback is taken exactly when the snapshot is active, has no unactivated window, and the fallback is free |
| `Restore.Plan` | src/shared/background.js:531-557 | each create call keeps url, pinned and windowId, passes an index exactly when the snapshot has one, and that index is max(0, index); it is active exactly when activation chose it; only active snapshots are created active |
| `Restore.MarksWindows` | src/shared/background.js:547-552 | a window is marked exactly when an earlier active snapshot of that window activated it |
| `Restore.MarksFallback` | src/shared/background.js:553-556 | the fallback is used exactly when some earlier snapshot took it |
| `Restore.FirstOfWindowActive` | src/shared/background.js:547-552 | the first active snapshot of a window is created active |
| `Restore.OneFirstPerWindow` | src/shared/background.js:547-552 | two snapshots that activate a window activate different windows |
| `Restore.OneFallback` | src/shared/background.js:553-556 | at most one snapshot takes the fallback activation |
| `Restore.WindowFirstExactly` | src/shared/background.js:547-552 | a snapshot activates its window exactly when it is active, has a window, and no earlier active snapshot has that window |
| `Restore.AfterFallbackInactive` | src/shared/background.js:553-556 | after the fallback is taken, no snapshot without a fresh window is created active |
| `Restore.TwoActiveInOneWindow` | src/shared/background.js:546-557 | two active snapshots of one window are both created active, the second through the fallback |
| `Restore.Run` | src/shared/background.js:559-580 | no more tabs are restored than planned, and at least one call is made per planned tab |
| `Restore.RunCountsSuccesses` | src/shared/background.js:559-580 | the restored count is the number of tabs whose first call or retry succeeded |
| `Restore.RunAllSucceed` | src/shared/background.js:559-561 | when every first call succeeds, the calls are the plan and all tabs are restored |
| `Restore.RunNoWindowNoRetry` | src/shared/background.js:562-578 | a tab without a window is never retried |
| `Restore.ActivateNext` | src/shared/background.js:546-557 | one loop step's activation and marks are those of the activation function |
| `Restore.CreateWithRetry` | src/shared/background.js:559-579 | one tab's calls and success are the first call, then a retry without window and index only after a failure with a window |
| `Restore.CreateAll` | src/shared/background.js:531-580 | the loop's calls and count are those of running the activation plan |
| `Restore.RestoreTabs` | src/shared/background.js:496-584 | the outcome is that of cleaning, ordering and running the plan |
| `Restore.RestoredCounts` | src/shared/background.js:496-584 | nothing usable restores nothing with no calls; the count never exceeds the cleaned tabs; all first calls succeeding restores every cleaned tab |
| `SortTabs.PositionLeIsTotalPreorder` | src/shared/background.js:590 | ordering by index, with a missing index as 0, is a total preorder |
| `SortTabs.SplitFacts` | src/shared/background.js:595-607 | each domain's count is its number of tabs, pinned tabs included; pinnedCount is the number of pinned tabs; movable and pinned tabs together number all tabs |
| `SortTabs.MovableFromUnpinned` | src/shared/background.js:598-606 | each movable entry carries an unpinned tab's id, domain and index, with a missing index as MAX_SAFE_INTEGER |
| `SortTabs.Partition` | src/shared/background.js:591-607 | the loop's counts, movable list and pinned count are those of the split |
| `SortTabs.MoveLeIsTotalPreorder` | src/shared/background.js:611-620 | for a consistent collation the movable comparator is a total preorder |
| `SortTabs.SortedMovableOrder` | src/shared/background.js:611-620 | the sort keeps the movable tabs; counts never increase; on equal counts a tab without a domain never precedes one with a domain; between domains of the same count and kind the collation never decreases, and on equal collation the original index never decreases |
| `SortTabs.Moves` | src/shared/background.js:622-635 | no more moves than movable tabs and no more successes than moves |
| `SortTabs.MovesTargets` | src/shared/background.js:623-629 | move targets lie after the pinned tabs, strictly increase, and each moves the tab sorted to that position |
| `SortTabs.MovesCover` | src/shared/background.js:623-629 | every sorted tab with a numeric id is moved to the pinned count plus its position |
| `SortTabs.MovesCount` | src/shared/background.js:622-635 | the sorted count is the number of positions with a numeric id whose move succeeded |
| `SortTabs.MoveAll` | src/shared/background.js:622-635 | the loop's moves and count are those of the move function |
| `SortTabs.SortTabsByOpenCount` | src/shared/background.js:586-636 | the outcome is that of ordering, splitting, sorting and moving |
| `SortTabs.SortResultNothingToDo` | src/shared/background.js:588-609 | one tab or fewer, or at most one unpinned tab, moves nothing |
| `SortTabs.SortResultMoves` | src/shared/background.js:586-636 | every target lies between the pinned count and the tab count, targets strictly increase, and at most the unpinned tabs are counted |
| `SortTabs.SortResultIsMoves` | src/shared/background.js:586-636 | with more than one tab and more than one movable tab, the outcome is that of moving the sorted movable tabs behind the pinned ones |
| `SortTabs.SortResultCovers` | src/shared/background.js:586-636 | when the window is sorted, every movable tab with a numeric id is moved to the number of pinned tabs plus its place in the sorted order |
| `SortTabs.PinnedSortBy` | src/shared/background.js:590 | ordering the tabs keeps the number of pinned tabs |
| `Stats.CountLeIsTotalPreorder` | src/shared/background.suggestions.js:183-185 | ordering by descending count is a total preorder |
| `Stats.BumpCounts` | src/shared/background.suggestions.js:176-181 | bumping adds count to the lower-cased non-empty domain's row and leaves other rows unchanged |
| `Stats.BumpAllCounts` | src/shared/background.suggestions.js:176-182 | each non-empty key gains count times its occurrences in the lower-cased batch |
| `Stats.BumpAllKeepsOthers` | src/shared/background.suggestions.js:176-182 | rows the batch does not name are unchanged |
| `Stats.Tally` | src/shared/background.suggestions.js:175-182 | the tallied table is well formed and keyed by domain |
| `Stats.Ranked` | src/shared/background.suggestions.js:183-185 | at most 100 rows are kept |
| `Stats.CountBatch` | src/shared/background.suggestions.js:175-182 | the loop's table is the tally |
| `Stats.StatsEat` | src/shared/background.suggestions.js:163-187 | the new store is that of eating the batch |
| `Stats.EatenNoOp` | src/shared/background.suggestions.js:164-167 | a zero count or stats tracking off leaves the store unchanged |
| `Stats.RankedShape` | src/shared/background.suggestions.js:183-185 | the kept rows number min(rows, 100), are sorted by descending count and list each domain once |
| `Stats.RankedRows` | src/shared/background.suggestions.js:183-185 | each kept row is the table's row for its domain |
| `Stats.RankedEvictsSmallest` | src/shared/background.suggestions.js:183-185 | a dropped row counts no more than any kept row |
| `Stats.EatenRecord` | src/shared/background.suggestions.js:163-187 | only the statistics change; the total grows by count; the rows are ranked, sorted, distinct and at most 100 |
| `Stats.EatenCounts` | src/shared/background.suggestions.js:174-185 | each kept row holds its stored count plus count times its occurrences in the batch |
| `Stats.CountOnlyKeepsTally` | src/shared/background.suggestions.js:174-185 | a batch without domains only re-sorts and trims the stored rows |
| `Stats.GetStats` | src/shared/background.suggestions.js:148-157 | a missing record reads as a fresh one; otherwise the total and start are kept and the rows are sorted |
| `Stats.GetStatsSorted` | src/shared/background.suggestions.js:155 | the rows read are sorted by descending count |
| `Stats.ResetStats` | src/shared/background.suggestions.js:158-162 | reset writes a zero record started now and changes nothing else |
| `Stats.ResetThenGet` | src/shared/background.suggestions.js:148-162 | reading after a reset gives the zero record of the reset |
| `History.RecencyLeIsTotalPreorder` | src/shared/background.suggestions.js:67-68 | ordering by most recent closing is a total preorder |
| `History.Resolve` | src/shared/background.suggestions.js:56-58 | a dotted item is lower-cased whole; otherwise it is the URL's domain, or the lower-cased item when that is missing or empty |
| `History.Touch` | src/shared/background.suggestions.js:59-65 | touching keeps the table well formed and keyed by domain |
| `History.TouchRow` | src/shared/background.suggestions.js:59-65 | touching a domain adds one to its count and sets its last closing to now; other rows are unchanged |
| `History.TouchAllCounts` | src/shared/background.suggestions.js:55-66 | each domain gains one per occurrence in the batch and, if named, was last closed now |
| `History.TouchAllKeepsOthers` | src/shared/background.suggestions.js:55-66 | rows not named by the batch are unchanged |
| `History.Updated` | src/shared/background.suggestions.js:53-66 | the updated table is well formed and keyed by domain |
| `History.Trimmed` | src/shared/background.suggestions.js:67-69 | the trimmed list has the length `slice(0, maxHistory)` gives |
| `History.RecordBatch` | src/shared/background.suggestions.js:53-66 | the loop's table is the updated table |
| `History.RecordClosedTabs` | src/shared/background.suggestions.js:46-71 | the new store is the recorded store |
| `History.RecordedNoOp` | src/shared/background.suggestions.js:49 | with history tracking off the store is unchanged |
| `History.TrimmedEvictsOldest` | src/shared/background.suggestions.js:67-69 | the cut evicts the least recently closed entries: a dropped row was closed no later than any kept entry |
| `History.TrimmedShape` | src/shared/background.suggestions.js:67-69 | the history is sorted most recent first, lists each domain once, and holds at most a non-negative maxHistory entries |
| `History.RecordedShape` | src/shared/background.suggestions.js:46-71 | only the history changes, and it is sorted, distinct and within maxHistory; a domain dropped by the cut was closed no later than any kept entry |
| `History.TrimmedRows` | src/shared/background.suggestions.js:67-69 | each written entry is the table's row for its domain |
| `History.RecordedEntries` | src/shared/background.suggestions.js:46-71 | an entry for a batch domain counts its earlier closings plus its occurrences and was closed now; every other entry is the stored one |
| `History.EmptyKeyUntouched` | src/shared/background.suggestions.js:58 | the empty domain is never created or changed |
| `History.DottedItemKeptWhole` | src/shared/background.suggestions.js:56-57 | a dotted full URL is recorded as the lower-cased URL, not its domain |
| `Suggestions.OpenTable` | src/shared/background.suggestions.js:83-89 | the open-count table is well formed |
| `Suggestions.CountOpenTabs` | src/shared/background.suggestions.js:83-89 | the loop's table is the open-count table |
| `Suggestions.OpenTableCounts` | src/shared/background.suggestions.js:83-89 | a non-empty domain is in the table exactly when a non-incognito tab has it, and its value is that number of tabs |
| `Suggestions.OpenTableNoEmpty` | src/shared/background.suggestions.js:87 | the empty domain is never counted |
| `Suggestions.InactiveCount` | src/shared/background.suggestions.js:97-108 | the inactive count is at most the number of tabs |
| `Suggestions.InactiveCountPositive` | src/shared/background.suggestions.js:97-108 | the count is positive exactly when some tab looks inactive |
| `Suggestions.FindEntry` | src/shared/background.suggestions.js:113 | no entry exactly when no history row has the domain; otherwise the first such row |
| `Suggestions.ScoreMonotoneInOpenCount` | src/shared/background.suggestions.js:118 | more open tabs never lower the score |
| `Suggestions.ScoreMonotoneInBoost` | src/shared/background.suggestions.js:118 | a larger recency boost never lowers the score |
| `Suggestions.Rate` | src/shared/background.suggestions.js:113-125 | without history the frequency is 1, last closing 0 and boost 0.2; with history they come from the first matching row and the boost of its last closing |
| `Suggestions.ScoredFromMembers` | src/shared/background.suggestions.js:111-126 | every scored entry rates a table domain whose count passes the minimum |
| `Suggestions.ScoredFromComplete` | src/shared/background.suggestions.js:111-126 | every table domain whose count passes the minimum is scored |
| `Suggestions.ScoredFromDistinct` | src/shared/background.suggestions.js:111-126 | each domain is scored once |
| `Suggestions.ScoreDomains` | src/shared/background.suggestions.js:110-126 | the loop's list is the scored list |
| `Suggestions.ScoreLeIsTotalPreorder` | src/shared/background.suggestions.js:127 | ordering by descending score is a total preorder |
| `Suggestions.Top` | src/shared/background.suggestions.js:129 | at most 10 entries are kept |
| `Suggestions.TopLength` | src/shared/background.suggestions.js:129 | exactly min(entries, 10) entries are kept |
| `Suggestions.Items` | src/shared/background.suggestions.js:129-135 | one domain item per kept entry, copying domain, open count, frequency and last closing |
| `Suggestions.GetSuggestions` | src/shared/background.suggestions.js:73-146 | the result is the suggestion function of store, tabs and time |
| `Suggestions.SuggestOff` | src/shared/background.suggestions.js:76 | with suggestions disabled the list is empty |
| `Suggestions.SuggestShape` | src/shared/background.suggestions.js:137-145 | the list starts with an inactive item exactly when inactive suggestions are on and some tab looks inactive, carrying their count; then min(scored domains, 10) domain items |
| `Suggestions.TopFacts` | src/shared/background.suggestions.js:127-129 | the kept entries are sorted by score, distinct, drawn from the list, and none scores below a dropped one |
| `Suggestions.ScoredForFacts` | src/shared/background.suggestions.js:83-126 | every scored domain is non-empty and carries its number of open non-incognito tabs |
| `Suggestions.ScoredForComplete` | src/shared/background.suggestions.js:83-126 | every open domain that passes the minimum is scored |
| `Suggestions.SuggestDomainItems` | src/shared/background.suggestions.js:129-145 | the domain items are exactly the items of the top entries |
| `Suggestions.SuggestItems` | src/shared/background.suggestions.js:110-145 | each domain item comes from a scored entry, and the items name different domains |
| `Suggestions.ItemsRated` | src/shared/background.suggestions.js:110-135 | each domain item is the rating of its domain and open count |
| `Suggestions.SuggestOrdered` | src/shared/background.suggestions.js:127-135 | the domain items appear by non-increasing score |
| `Suggestions.SuggestKeepsBest` | src/shared/background.suggestions.js:110-135 | an eligible open domain left out scores no higher than any listed domain |

## Left out

- URL parsing is the `parse` parameter. `Url` keeps only the hostname, the serialized form and the fragment. `parse("")` is left unconstrained, although `new URL("")` throws. The code's behaviour for a tab without a url is that of a parser returning `None` for "".
- Lower-casing covers ASCII letters only; Unicode case mapping is not modelled. `trim` removes the full ECMAScript white-space and line-terminator set.
- `closeByKeyword` escapes the keyword and builds a case-insensitive `RegExp` from it. The model uses a case-insensitive substring search, which is what the escaped pattern matches.
- `Closing.CloseByKeyword`: the early return for an empty keyword (src/shared/background.js:351-352) has no `closedTabs` field, while the model's `Nothing` result carries an empty list.
- Non-string keywords, null tabs, null history rows and non-array `restoreTabs` input are not representable. The typed inputs stand for the checked ones.
- Settings values are booleans, integers or strings. `Number` of a string is read as NaN, even for a numeric string that `Number` would convert. Fractional numbers, objects and arrays are not modelled.
- JavaScript numbers are modelled as unbounded integers, or reals for the score. Precision loss above 2^53 is not modelled, for example in `MAX_SAFE_INTEGER - index` in the comparators.
- `Math.exp` is the `boost` parameter, and `decayDays * 86400000` is folded into it.
- `localeCompare` is the `collate` parameter.
- `tabs.remove`, `tabs.create`, `tabs.move` and storage writes are effects. The closing operations return the ids to remove and do not drop the tabs from the list. The remove call itself, its failure and storage failures are not modelled.
- `pcStatsEat` is called by `background.js` with the count only. `Closing.AfterClose` passes no domains, and the domain rows are exercised by `Stats.StatsEat` directly. Its `try/catch` around the call is not modelled.
- `pcRecordClosedTabs` is exposed but no modelled code calls it. `History.RecordClosedTabs` models it on its own.
- The icon badge, context menus, commands, listeners, `scheduleIconRefresh`, the message router, console logging, and asynchronous interleaving between concurrent calls are not modelled.
