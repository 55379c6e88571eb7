/**
 * The closed-tab history of src/shared/background.suggestions.js:46-71
 * (`pcRecordClosedTabs`): one entry per domain with the number of closings
 * and the time of the last one, kept sorted by recency and cut to the
 * "maxHistory" setting.
 */
module History {
  import opened Wrappers
  import opened Seqs
  import opened Text
  import opened Sorting
  import opened Table
  import opened Settings
  import opened Storage
  import opened Urls

  function DomainOf(e: HistoryEntry): string {
    e.domain
  }

  /** The comparator `(a, b) => b.lastClosedAt - a.lastClosedAt`: most recent first. */
  predicate RecencyLe(a: HistoryEntry, b: HistoryEntry) {
    b.lastClosedAt - a.lastClosedAt <= 0
  }

  lemma RecencyLeIsTotalPreorder()
    ensures TotalPreorder(RecencyLe)
  {
  }

  /**
   * The domain an input item stands for: an item containing "." is taken as a
   * domain already; any other item goes through `domainFromUrl`, and when that
   * gives nothing the item itself is used. Lower-cased; "" means skip.
   */
  function Resolve(parse: Parser, item: string): (domain: string)
    ensures HasDot(item) ==> domain == Lower(item)
    ensures !HasDot(item) ==> match DomainFromUrl(parse, item)
      case Some(d) => domain == if d != "" then d else Lower(item)
      case None => domain == Lower(item)
    ensures domain == "" ==> item == "" || (!HasDot(item) && DomainFromUrl(parse, item) in {None, Some("")})
  {
    var d := if HasDot(item) then Some(item) else DomainFromUrl(parse, item);
    Lower(if d.Some? && d.value != "" then d.value else item)
  }

  /** The domains of all the items, in order, skipped ones included as "". */
  function ResolveAll(parse: Parser, items: seq<string>): (ds: seq<string>)
    ensures |ds| == |items|
    ensures forall i :: 0 <= i < |items| ==> ds[i] == Resolve(parse, items[i])
  {
    seq(|items|, i requires 0 <= i < |items| => Resolve(parse, items[i]))
  }

  /** One turn of the loop: the domain's row (new rows start at zero) counts one more closing, at `now`. */
  function Touch(t: Table<HistoryEntry>, domain: string, now: int): (r: Table<HistoryEntry>)
    requires t.Valid() && KeyedBy(t, DomainOf)
    ensures r.Valid() && KeyedBy(r, DomainOf)
  {
    if domain == "" then t
    else
      var row := if domain in t.rows then t.rows[domain] else HistoryEntry(domain, 0, 0);
      t.Set(domain, row.(count := row.count + 1, lastClosedAt := now))
  }

  /** The whole loop over the resolved domains. */
  function TouchAll(t: Table<HistoryEntry>, ds: seq<string>, now: int): (r: Table<HistoryEntry>)
    requires t.Valid() && KeyedBy(t, DomainOf)
    ensures r.Valid() && KeyedBy(r, DomainOf)
  {
    if ds == [] then t
    else Touch(TouchAll(t, ds[..|ds| - 1], now), ds[|ds| - 1], now)
  }

  lemma TouchAllStep(t: Table<HistoryEntry>, ds: seq<string>, now: int, i: nat)
    requires t.Valid() && KeyedBy(t, DomainOf)
    requires i < |ds|
    ensures TouchAll(t, ds[..i + 1], now) == Touch(TouchAll(t, ds[..i], now), ds[i], now)
  {
    assert ds[..i + 1][..i] == ds[..i];
  }

  lemma TouchSetsRow(t: Table<HistoryEntry>, domain: string, now: int, row: HistoryEntry)
    requires t.Valid() && KeyedBy(t, DomainOf)
    requires domain != ""
    requires row == if domain in t.rows then t.rows[domain] else HistoryEntry(domain, 0, 0)
    ensures Touch(t, domain, now) == t.Set(domain, row.(count := row.count + 1, lastClosedAt := now))
  {
  }

  /** The count a history table holds for `domain`, 0 when it has no row. */
  function CountOf(t: Table<HistoryEntry>, domain: string): int {
    if domain in t.rows then t.rows[domain].count else 0
  }

  /** One turn changes only the row of its domain: one more closing, last at `now`. */
  lemma TouchRow(t: Table<HistoryEntry>, domain: string, now: int, key: string)
    requires t.Valid() && KeyedBy(t, DomainOf)
    ensures key in Touch(t, domain, now).rows <==> key in t.rows || (key != "" && key == domain)
    ensures key != "" ==> CountOf(Touch(t, domain, now), key) == CountOf(t, key) + (if key == domain then 1 else 0)
    ensures key != "" && key == domain ==> Touch(t, domain, now).rows[key].lastClosedAt == now
    ensures key != domain && key in t.rows ==> Touch(t, domain, now).rows[key] == t.rows[key]
  {
  }

  /** The loop gives a row to exactly the stored domains and the non-empty resolved ones. */
  lemma {:induction false} TouchAllKeys(t: Table<HistoryEntry>, ds: seq<string>, now: int, key: string)
    requires t.Valid() && KeyedBy(t, DomainOf)
    ensures key in TouchAll(t, ds, now).rows <==> key in t.rows || (key != "" && key in ds)
  {
    if ds != [] {
      var init := ds[..|ds| - 1];
      TouchAllKeys(t, init, now, key);
      TouchRow(TouchAll(t, init, now), ds[|ds| - 1], now, key);
      assert ds == init + [ds[|ds| - 1]];
    }
  }

  /** Every non-empty domain gains one closing per occurrence, and its last closing is `now`. */
  lemma {:induction false} TouchAllCounts(t: Table<HistoryEntry>, ds: seq<string>, now: int, key: string)
    requires t.Valid() && KeyedBy(t, DomainOf)
    requires key != ""
    ensures CountOf(TouchAll(t, ds, now), key) == CountOf(t, key) + Occurrences(ds, key)
    ensures key in ds ==> key in TouchAll(t, ds, now).rows && TouchAll(t, ds, now).rows[key].lastClosedAt == now
  {
    TouchAllKeys(t, ds, now, key);
    if ds != [] {
      var init := ds[..|ds| - 1];
      TouchAllCounts(t, init, now, key);
      TouchAllKeys(t, init, now, key);
      TouchRow(TouchAll(t, init, now), ds[|ds| - 1], now, key);
      assert ds == init + [ds[|ds| - 1]];
    }
  }

  /** A domain not in the batch keeps its row as it was. */
  lemma {:induction false} TouchAllKeepsOthers(t: Table<HistoryEntry>, ds: seq<string>, now: int, key: string)
    requires t.Valid() && KeyedBy(t, DomainOf)
    requires key !in ds && key in t.rows
    ensures key in TouchAll(t, ds, now).rows && TouchAll(t, ds, now).rows[key] == t.rows[key]
  {
    if ds != [] {
      var init := ds[..|ds| - 1];
      assert ds == init + [ds[|ds| - 1]];
      TouchAllKeepsOthers(t, init, now, key);
      TouchRow(TouchAll(t, init, now), ds[|ds| - 1], now, key);
    }
  }

  /** The stored history with the batch recorded, before sorting and truncation. */
  function Updated(parse: Parser, history: seq<HistoryEntry>, items: seq<string>, now: int): (t: Table<HistoryEntry>)
    ensures t.Valid() && KeyedBy(t, DomainOf)
  {
    TouchAll(FromList(history, DomainOf), ResolveAll(parse, items), now)
  }

  /** The rows sorted most recent first and cut by `slice(0, maxHistory)`. */
  function Trimmed(t: Table<HistoryEntry>, maxHistory: Option<int>): (r: seq<HistoryEntry>)
    requires t.Valid()
    ensures |r| == SliceEnd(|t.keys|, maxHistory)
  {
    var sorted := SortBy(t.Values(), RecencyLe);
    sorted[..SliceEnd(|sorted|, maxHistory)]
  }

  /** What `pcRecordClosedTabs(items)` leaves in storage. */
  function Recorded(parse: Parser, store: Store, items: seq<string>, now: int): Store {
    var cfg := GetSettings(store.settings);
    if !Flag(cfg, "trackHistory") then store
    else store.(history := Trimmed(Updated(parse, store.history, items, now), NumberSetting(cfg, "maxHistory")))
  }

  /** One pass of the counting loop: skip an empty domain, else create or update its row. */
  method TouchOne(byDomain: Table<HistoryEntry>, domain: string, now: int) returns (next: Table<HistoryEntry>)
    requires byDomain.Valid() && KeyedBy(byDomain, DomainOf)
    ensures next == Touch(byDomain, domain, now)
  {
    next := byDomain;
    if domain != "" {
      var row := if domain in byDomain.rows then byDomain.rows[domain] else HistoryEntry(domain, 0, 0);
      TouchSetsRow(byDomain, domain, now, row);
      row := row.(count := row.count + 1, lastClosedAt := now);
      next := byDomain.Set(domain, row);
    }
  }

  /** The counting loop of `pcRecordClosedTabs`. */
  method RecordBatch(parse: Parser, history: seq<HistoryEntry>, items: seq<string>, now: int)
    returns (byDomain: Table<HistoryEntry>)
    ensures byDomain == Updated(parse, history, items, now)
  {
    byDomain := FromList(history, DomainOf);
    ghost var start := byDomain;
    ghost var ds := ResolveAll(parse, items);
    var i := 0;
    while i < |items|
      invariant 0 <= i <= |items|
      invariant byDomain.Valid() && KeyedBy(byDomain, DomainOf)
      invariant byDomain == TouchAll(start, ds[..i], now)
    {
      TouchAllStep(start, ds, now, i);
      byDomain := TouchOne(byDomain, Resolve(parse, items[i]), now);
      i := i + 1;
    }
    assert ds[..i] == ds;
  }

  /** `pcRecordClosedTabs`, with the storage read and write and the clock made explicit. */
  method RecordClosedTabs(parse: Parser, store: Store, items: seq<string>, now: int) returns (next: Store)
    ensures next == Recorded(parse, store, items, now)
  {
    var cfg := GetSettings(store.settings);
    if !Flag(cfg, "trackHistory") {
      return store;
    }
    var byDomain := RecordBatch(parse, store.history, items, now);
    var updated := SortBy(byDomain.Values(), RecencyLe);
    updated := updated[..SliceEnd(|updated|, NumberSetting(cfg, "maxHistory"))];
    next := store.(history := updated);
  }

  /** With history tracking off nothing is written. */
  lemma RecordedNoOp(parse: Parser, store: Store, items: seq<string>, now: int)
    requires !Flag(GetSettings(store.settings), "trackHistory")
    ensures Recorded(parse, store, items, now) == store
  {
  }

  /** The trimmed history lists each domain once, most recent first, and no more entries than a non-negative limit. */
  lemma TrimmedShape(t: Table<HistoryEntry>, maxHistory: Option<int>)
    requires t.Valid() && KeyedBy(t, DomainOf)
    ensures SortedBy(Trimmed(t, maxHistory), RecencyLe)
    ensures DistinctKeys(Trimmed(t, maxHistory), DomainOf)
    ensures forall n :: maxHistory == Some(n) && n >= 0 ==> |Trimmed(t, maxHistory)| <= n
  {
    var sorted := SortBy(t.Values(), RecencyLe);
    ValuesKeyed(t);
    PermutationKeepsDistinctKeys(t.Values(), sorted, DomainOf);
    RecencyLeIsTotalPreorder();
    SortBySorted(t.Values(), RecencyLe);
  }

  /** The cut evicts the least recently closed rows: a dropped row was closed no later than any kept one. */
  lemma TrimmedEvictsOldest(t: Table<HistoryEntry>, maxHistory: Option<int>)
    requires t.Valid() && KeyedBy(t, DomainOf)
    ensures forall k :: k in t.rows && t.rows[k] !in Trimmed(t, maxHistory) ==>
      forall e :: e in Trimmed(t, maxHistory) ==> t.rows[k].lastClosedAt <= e.lastClosedAt
  {
    var vals := t.Values();
    var sorted := SortBy(vals, RecencyLe);
    var kept := Trimmed(t, maxHistory);
    RecencyLeIsTotalPreorder();
    SortBySorted(vals, RecencyLe);
    forall k | k in t.rows && t.rows[k] !in kept
      ensures forall e :: e in kept ==> t.rows[k].lastClosedAt <= e.lastClosedAt
    {
      var i :| 0 <= i < |t.keys| && t.keys[i] == k;
      assert vals[i] == t.rows[k];
      assert t.rows[k] in multiset(sorted);
      PrefixBeforeRest(sorted, RecencyLe, |kept|, t.rows[k]);
    }
  }

  /**
   * Otherwise only the history changes, and it holds each domain once, most
   * recent first, and no more entries than a non-negative "maxHistory"; a
   * domain dropped by the cut was closed no later than any kept one.
   */
  lemma RecordedShape(parse: Parser, store: Store, items: seq<string>, now: int)
    requires Flag(GetSettings(store.settings), "trackHistory")
    ensures var next := Recorded(parse, store, items, now);
      && next.settings == store.settings && next.stats == store.stats
      && SortedBy(next.history, RecencyLe)
      && DistinctKeys(next.history, DomainOf)
      && (forall n :: NumberSetting(GetSettings(store.settings), "maxHistory") == Some(n) && n >= 0 ==> |next.history| <= n)
    ensures var next := Recorded(parse, store, items, now);
      var t := Updated(parse, store.history, items, now);
      forall k :: k in t.rows && t.rows[k] !in next.history ==>
        forall e :: e in next.history ==> t.rows[k].lastClosedAt <= e.lastClosedAt
  {
    TrimmedShape(Updated(parse, store.history, items, now), NumberSetting(GetSettings(store.settings), "maxHistory"));
    TrimmedEvictsOldest(Updated(parse, store.history, items, now), NumberSetting(GetSettings(store.settings), "maxHistory"));
  }

  /** The values of a keyed table carry pairwise different domains. */
  lemma ValuesKeyed(t: Table<HistoryEntry>)
    requires t.Valid() && KeyedBy(t, DomainOf)
    ensures DistinctKeys(t.Values(), DomainOf)
  {
    forall i, j | 0 <= i < j < |t.keys|
      ensures DomainOf(t.Values()[i]) != DomainOf(t.Values()[j])
    {
      assert t.keys[i] != t.keys[j];
    }
  }

  /** Every entry written is the updated row of its domain. */
  lemma TrimmedRows(t: Table<HistoryEntry>, maxHistory: Option<int>)
    requires t.Valid() && KeyedBy(t, DomainOf)
    ensures forall e :: e in Trimmed(t, maxHistory) ==> e.domain in t.rows && t.rows[e.domain] == e
  {
    var vals := t.Values();
    var sorted := SortBy(vals, RecencyLe);
    forall e | e in Trimmed(t, maxHistory)
      ensures e.domain in t.rows && t.rows[e.domain] == e
    {
      assert e in sorted;
      assert e in multiset(vals);
      var i :| 0 <= i < |vals| && vals[i] == e;
    }
  }

  /**
   * Every entry written for a domain of the batch counts its earlier closings
   * plus one per occurrence and was last closed `now`; every other entry is
   * the stored one, unchanged.
   */
  lemma RecordedEntries(parse: Parser, store: Store, items: seq<string>, now: int)
    requires Flag(GetSettings(store.settings), "trackHistory")
    ensures var old_ := FromList(store.history, DomainOf);
      var ds := ResolveAll(parse, items);
      forall e :: e in Recorded(parse, store, items, now).history ==>
        if e.domain in ds && e.domain != "" then
          e.count == CountOf(old_, e.domain) + Occurrences(ds, e.domain) && e.lastClosedAt == now
        else
          e.domain in old_.rows && e == old_.rows[e.domain]
  {
    var start := FromList(store.history, DomainOf);
    var ds := ResolveAll(parse, items);
    var t := Updated(parse, store.history, items, now);
    TrimmedRows(t, NumberSetting(GetSettings(store.settings), "maxHistory"));
    forall e | e in Recorded(parse, store, items, now).history
      ensures if e.domain in ds && e.domain != "" then
          e.count == CountOf(start, e.domain) + Occurrences(ds, e.domain) && e.lastClosedAt == now
        else
          e.domain in start.rows && e == start.rows[e.domain]
    {
      if e.domain in ds && e.domain != "" {
        TouchAllCounts(start, ds, now, e.domain);
      } else {
        TouchAllKeys(start, ds, now, e.domain);
        if e.domain != "" {
          TouchAllKeepsOthers(start, ds, now, e.domain);
        } else {
          EmptyKeyUntouched(start, ds, now);
        }
      }
    }
  }

  /** The empty domain is skipped, so a stored row under "" stays as it was. */
  lemma {:induction false} EmptyKeyUntouched(t: Table<HistoryEntry>, ds: seq<string>, now: int)
    requires t.Valid() && KeyedBy(t, DomainOf)
    ensures "" in TouchAll(t, ds, now).rows <==> "" in t.rows
    ensures "" in t.rows ==> TouchAll(t, ds, now).rows[""] == t.rows[""]
  {
    if ds != [] {
      EmptyKeyUntouched(t, ds[..|ds| - 1], now);
      TouchRow(TouchAll(t, ds[..|ds| - 1], now), ds[|ds| - 1], now, "");
    }
  }

  /**
   * An item that contains "." is kept whole, so a full URL such as
   * "https://Example.com/a" is recorded as "https://example.com/a", not as its domain.
   */
  lemma DottedItemKeptWhole(parse: Parser)
    ensures Resolve(parse, "https://Example.com/a") == "https://example.com/a"
  {
    assert "https://Example.com/a"[15] == '.';
    assert HasDot("https://Example.com/a");
    assert Lower("https://Example.com/a") == "https://example.com/a";
  }
}
