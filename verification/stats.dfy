/**
 * The lifetime statistics of src/shared/background.suggestions.js:148-187:
 * the total number of tabs eaten and a per-domain tally kept sorted by count
 * and capped at 100 domains.
 */
module Stats {
  import opened Wrappers
  import opened Seqs
  import opened Text
  import opened Sorting
  import opened Table
  import opened Settings
  import opened Storage

  const MaxDomains: nat := 100

  /** The record used when none is stored yet. */
  function Fresh(now: int): StatsRecord {
    StatsRecord(0, [], now)
  }

  function DomainOf(e: DomainCount): string {
    e.domain
  }

  /** The comparator `(a, b) => b.count - a.count`: larger counts first. */
  predicate CountLe(a: DomainCount, b: DomainCount) {
    b.count - a.count <= 0
  }

  lemma CountLeIsTotalPreorder()
    ensures TotalPreorder(CountLe)
  {
  }

  /** The count a tally holds for `key`, 0 when it has no row. */
  function CountOf(t: Table<DomainCount>, key: string): int {
    if key in t.rows then t.rows[key].count else 0
  }

  /** The keys the loop over `domains` uses: each lowered, empty ones included. */
  function Keys(domains: seq<string>): (ks: seq<string>)
    ensures |ks| == |domains|
    ensures forall i :: 0 <= i < |domains| ==> ks[i] == Lower(domains[i])
  {
    seq(|domains|, i requires 0 <= i < |domains| => Lower(domains[i]))
  }

  /** One turn of the loop: a non-empty lowered domain gains `count`. */
  function Bump(t: Table<DomainCount>, d: string, count: int): (r: Table<DomainCount>)
    requires t.Valid() && KeyedBy(t, DomainOf)
    ensures r.Valid() && KeyedBy(r, DomainOf)
  {
    var key := Lower(d);
    if key == "" then t
    else
      var row := if key in t.rows then t.rows[key] else DomainCount(key, 0);
      t.Set(key, row.(count := row.count + count))
  }

  /** The whole loop over `domains`. */
  function BumpAll(t: Table<DomainCount>, domains: seq<string>, count: int): (r: Table<DomainCount>)
    requires t.Valid() && KeyedBy(t, DomainOf)
    ensures r.Valid() && KeyedBy(r, DomainOf)
  {
    if domains == [] then t
    else Bump(BumpAll(t, domains[..|domains| - 1], count), domains[|domains| - 1], count)
  }

  lemma BumpAllStep(t: Table<DomainCount>, domains: seq<string>, count: int, i: nat)
    requires t.Valid() && KeyedBy(t, DomainOf)
    requires i < |domains|
    ensures BumpAll(t, domains[..i + 1], count) == Bump(BumpAll(t, domains[..i], count), domains[i], count)
  {
    assert domains[..i + 1][..i] == domains[..i];
  }

  lemma BumpSetsRow(t: Table<DomainCount>, d: string, count: int, row: DomainCount)
    requires t.Valid() && KeyedBy(t, DomainOf)
    requires Lower(d) != ""
    requires row == if Lower(d) in t.rows then t.rows[Lower(d)] else DomainCount(Lower(d), 0)
    ensures Bump(t, d, count) == t.Set(Lower(d), row.(count := row.count + count))
  {
  }

  /** One turn of the loop changes only the row of the lowered domain, by `count`. */
  lemma BumpCounts(t: Table<DomainCount>, d: string, count: int, key: string)
    requires t.Valid() && KeyedBy(t, DomainOf)
    ensures key in Bump(t, d, count).rows <==> key in t.rows || (key != "" && key == Lower(d))
    ensures key != "" ==> CountOf(Bump(t, d, count), key) == CountOf(t, key) + (if key == Lower(d) then count else 0)
    ensures (key == "" || key != Lower(d)) && key in t.rows ==> Bump(t, d, count).rows[key] == t.rows[key]
  {
  }

  /** What the occurrences of `key` in `ks` add up to when each is worth `count`. */
  function Gain(ks: seq<string>, key: string, count: int): int {
    if ks == [] then 0 else Gain(ks[..|ks| - 1], key, count) + (if ks[|ks| - 1] == key then count else 0)
  }

  lemma {:induction false} GainIsProduct(ks: seq<string>, key: string, count: int)
    ensures Gain(ks, key, count) == count * Occurrences(ks, key)
  {
    if ks != [] {
      GainIsProduct(ks[..|ks| - 1], key, count);
      var n := Occurrences(ks[..|ks| - 1], key);
      assert count * (n + 1) == count * n + count;
    }
  }

  /** The loop gives a row to exactly the stored keys and the non-empty lowered domains. */
  lemma {:induction false} BumpAllKeys(t: Table<DomainCount>, domains: seq<string>, count: int, key: string)
    requires t.Valid() && KeyedBy(t, DomainOf)
    ensures key in BumpAll(t, domains, count).rows <==> key in t.rows || (key != "" && key in Keys(domains))
  {
    if domains != [] {
      var init := domains[..|domains| - 1];
      var last := domains[|domains| - 1];
      BumpAllKeys(t, init, count, key);
      BumpCounts(BumpAll(t, init, count), last, count, key);
      assert Keys(domains) == Keys(init) + [Lower(last)];
    }
  }

  /** Every non-empty domain gains the whole `count` once per occurrence in the list. */
  lemma {:induction false} BumpAllCounts(t: Table<DomainCount>, domains: seq<string>, count: int, key: string)
    requires t.Valid() && KeyedBy(t, DomainOf)
    requires key != ""
    ensures CountOf(BumpAll(t, domains, count), key) == CountOf(t, key) + count * Occurrences(Keys(domains), key)
  {
    BumpAllGain(t, domains, count, key);
    GainIsProduct(Keys(domains), key, count);
  }

  lemma {:induction false} BumpAllGain(t: Table<DomainCount>, domains: seq<string>, count: int, key: string)
    requires t.Valid() && KeyedBy(t, DomainOf)
    requires key != ""
    ensures CountOf(BumpAll(t, domains, count), key) == CountOf(t, key) + Gain(Keys(domains), key, count)
  {
    if domains != [] {
      var init := domains[..|domains| - 1];
      BumpAllGain(t, init, count, key);
      BumpCounts(BumpAll(t, init, count), domains[|domains| - 1], count, key);
      var ks := Keys(domains);
      assert ks[..|ks| - 1] == Keys(init);
    }
  }

  /** The empty key and the domains not listed keep their rows. */
  lemma {:induction false} BumpAllKeepsOthers(t: Table<DomainCount>, domains: seq<string>, count: int, key: string)
    requires t.Valid() && KeyedBy(t, DomainOf)
    requires key == "" || key !in Keys(domains)
    requires key in t.rows
    ensures key in BumpAll(t, domains, count).rows && BumpAll(t, domains, count).rows[key] == t.rows[key]
  {
    if domains != [] {
      var init := domains[..|domains| - 1];
      var last := domains[|domains| - 1];
      assert Keys(domains) == Keys(init) + [Lower(last)];
      BumpAllKeepsOthers(t, init, count, key);
      BumpCounts(BumpAll(t, init, count), last, count, key);
    }
  }

  /** The stored tally with the domains of this batch counted in, before sorting and truncation. */
  function Tally(s: StatsRecord, count: int, domains: seq<string>): (t: Table<DomainCount>)
    ensures t.Valid() && KeyedBy(t, DomainOf)
  {
    BumpAll(FromList(s.byDomain, DomainOf), domains, count)
  }

  /** The tally's rows in insertion order, sorted by count descending and cut to `MaxDomains`. */
  function Ranked(t: Table<DomainCount>): (r: seq<DomainCount>)
    requires t.Valid()
    ensures |r| <= MaxDomains
  {
    Take(SortBy(t.Values(), CountLe), MaxDomains)
  }

  /**
   * What `pcStatsEat({ count, domains })` (src/shared/background.suggestions.js:163-187)
   * leaves in storage.
   */
  function Eaten(store: Store, count: int, domains: seq<string>, now: int): Store {
    if count == 0 then store
    else if !Flag(GetSettings(store.settings), "trackStats") then store
    else
      var s := store.stats.GetOr(Fresh(now));
      store.(stats := Some(StatsRecord(s.totalTabsEaten + count, Ranked(Tally(s, count, domains)), s.startedAt)))
  }

  /** One pass of the counting loop: skip an empty key, else add `count` to its row. */
  method BumpOne(m: Table<DomainCount>, d: string, count: int) returns (next: Table<DomainCount>)
    requires m.Valid() && KeyedBy(m, DomainOf)
    ensures next == Bump(m, d, count)
  {
    next := m;
    var key := Lower(d);
    if key != "" {
      var row := if key in m.rows then m.rows[key] else DomainCount(key, 0);
      BumpSetsRow(m, d, count, row);
      row := row.(count := row.count + count);
      next := m.Set(key, row);
    }
  }

  /**
   * The counting loop of `pcStatsEat`: the stored tally in a `Map`, then each
   * domain of the batch, lowered, gains `count` (an empty one is skipped).
   */
  method CountBatch(s: StatsRecord, count: int, domains: seq<string>) returns (m: Table<DomainCount>)
    ensures m == Tally(s, count, domains)
  {
    m := FromList(s.byDomain, DomainOf);
    ghost var start := m;
    var i := 0;
    while i < |domains|
      invariant 0 <= i <= |domains|
      invariant m.Valid() && KeyedBy(m, DomainOf)
      invariant m == BumpAll(start, domains[..i], count)
    {
      BumpAllStep(start, domains, count, i);
      m := BumpOne(m, domains[i], count);
      i := i + 1;
    }
    assert domains[..i] == domains;
  }

  /** `pcStatsEat`, with the storage read and write made explicit. */
  method StatsEat(store: Store, count: int, domains: seq<string>, now: int) returns (next: Store)
    ensures next == Eaten(store, count, domains, now)
  {
    if count == 0 {
      return store;
    }
    var cfg := GetSettings(store.settings);
    if !Flag(cfg, "trackStats") {
      return store;
    }
    var s := store.stats.GetOr(Fresh(now));
    var m := CountBatch(s, count, domains);
    next := store.(stats := Some(StatsRecord(s.totalTabsEaten + count, Ranked(m), s.startedAt)));
  }

  /** Nothing is written when the count is 0 or statistics are switched off. */
  lemma EatenNoOp(store: Store, count: int, domains: seq<string>, now: int)
    requires count == 0 || !Flag(GetSettings(store.settings), "trackStats")
    ensures Eaten(store, count, domains, now) == store
  {
  }

  /** The ranked tally is sorted by count descending, lists each domain once and holds at most 100 entries. */
  lemma RankedShape(t: Table<DomainCount>)
    requires t.Valid() && KeyedBy(t, DomainOf)
    ensures |Ranked(t)| == if |t.keys| < MaxDomains then |t.keys| else MaxDomains
    ensures SortedBy(Ranked(t), CountLe)
    ensures DistinctKeys(Ranked(t), DomainOf)
  {
    var ranked := SortBy(t.Values(), CountLe);
    ValuesKeyed(t);
    PermutationKeepsDistinctKeys(t.Values(), ranked, DomainOf);
    CountLeIsTotalPreorder();
    SortBySorted(t.Values(), CountLe);
    assert Ranked(t) == ranked[..|Ranked(t)|];
  }

  /** Every ranked entry is the tally's row for its domain. */
  lemma RankedRows(t: Table<DomainCount>)
    requires t.Valid() && KeyedBy(t, DomainOf)
    ensures forall e :: e in Ranked(t) ==> e.domain in t.rows && t.rows[e.domain] == e
  {
    var vals := t.Values();
    var ranked := SortBy(vals, CountLe);
    forall e | e in Ranked(t)
      ensures e.domain in t.rows && t.rows[e.domain] == e
    {
      assert e in ranked;
      assert e in multiset(vals);
      var i :| 0 <= i < |vals| && vals[i] == e;
    }
  }

  /** A domain the cap leaves out has a count no larger than that of any domain kept. */
  lemma RankedEvictsSmallest(t: Table<DomainCount>)
    requires t.Valid() && KeyedBy(t, DomainOf)
    ensures forall k :: k in t.rows && t.rows[k] !in Ranked(t) ==>
      forall e :: e in Ranked(t) ==> t.rows[k].count <= e.count
  {
    var vals := t.Values();
    var ranked := SortBy(vals, CountLe);
    var kept := Ranked(t);
    CountLeIsTotalPreorder();
    SortBySorted(vals, CountLe);
    forall k | k in t.rows && t.rows[k] !in kept
      ensures forall e :: e in kept ==> t.rows[k].count <= e.count
    {
      var i :| 0 <= i < |t.keys| && t.keys[i] == k;
      assert vals[i] == t.rows[k];
      assert t.rows[k] in multiset(ranked);
      PrefixBeforeRest(ranked, CountLe, |kept|, t.rows[k]);
    }
  }

  /**
   * Otherwise the total grows by `count`, the start time is kept (or set now),
   * and the tally written is the ranked tally with this batch counted in:
   * sorted by count descending, each domain once, at most 100 domains.
   */
  lemma EatenRecord(store: Store, count: int, domains: seq<string>, now: int)
    requires count != 0 && Flag(GetSettings(store.settings), "trackStats")
    ensures var next := Eaten(store, count, domains, now);
      var s := store.stats.GetOr(Fresh(now));
      && next.settings == store.settings && next.history == store.history
      && next.stats == Some(StatsRecord(s.totalTabsEaten + count, Ranked(Tally(s, count, domains)), s.startedAt))
      && SortedBy(next.stats.value.byDomain, CountLe)
      && DistinctKeys(next.stats.value.byDomain, DomainOf)
      && |next.stats.value.byDomain| <= MaxDomains
  {
    var s := store.stats.GetOr(Fresh(now));
    RankedShape(Tally(s, count, domains));
  }

  /**
   * Every domain written with a non-empty name holds its stored count plus
   * `count` for each time the batch names it (in any letter case).
   */
  lemma EatenCounts(store: Store, count: int, domains: seq<string>, now: int)
    requires count != 0 && Flag(GetSettings(store.settings), "trackStats")
    ensures var s := store.stats.GetOr(Fresh(now));
      forall e :: e in Eaten(store, count, domains, now).stats.value.byDomain && e.domain != "" ==>
        e.count == CountOf(FromList(s.byDomain, DomainOf), e.domain) + count * Occurrences(Keys(domains), e.domain)
  {
    var s := store.stats.GetOr(Fresh(now));
    var t := Tally(s, count, domains);
    RankedRows(t);
    forall e | e in Ranked(t) && e.domain != ""
      ensures e.count == CountOf(FromList(s.byDomain, DomainOf), e.domain) + count * Occurrences(Keys(domains), e.domain)
    {
      BumpAllCounts(FromList(s.byDomain, DomainOf), domains, count, e.domain);
    }
  }

  /** The values of a keyed table carry pairwise different keys. */
  lemma ValuesKeyed(t: Table<DomainCount>)
    requires t.Valid() && KeyedBy(t, DomainOf)
    ensures DistinctKeys(t.Values(), DomainOf)
  {
    forall i, j | 0 <= i < j < |t.keys|
      ensures DomainOf(t.Values()[i]) != DomainOf(t.Values()[j])
    {
      assert t.keys[i] != t.keys[j];
    }
  }

  /**
   * Closing tabs reports only a count (src/shared/background.js:392, 433, 483):
   * then no domain gains anything, and a stored tally with distinct domains is
   * only re-sorted and cut to 100 entries.
   */
  lemma CountOnlyKeepsTally(store: Store, count: int, now: int)
    requires count != 0 && Flag(GetSettings(store.settings), "trackStats")
    requires store.stats.Some? && DistinctKeys(store.stats.value.byDomain, DomainOf)
    ensures Eaten(store, count, [], now).stats.value.byDomain
      == Take(SortBy(store.stats.value.byDomain, CountLe), MaxDomains)
  {
    FromDistinctList(store.stats.value.byDomain, DomainOf);
  }

  /**
   * `getStats` (src/shared/background.suggestions.js:148-157): the stored record,
   * or a zero record started now, with its tally sorted by count descending.
   */
  function GetStats(store: Store, now: int): (r: StatsRecord)
    ensures store.stats.None? ==> r == Fresh(now)
    ensures store.stats.Some? ==>
      && r.totalTabsEaten == store.stats.value.totalTabsEaten
      && r.startedAt == store.stats.value.startedAt
      && multiset(r.byDomain) == multiset(store.stats.value.byDomain)
  {
    var s := store.stats.GetOr(Fresh(now));
    s.(byDomain := SortBy(s.byDomain, CountLe))
  }

  lemma GetStatsSorted(store: Store, now: int)
    ensures SortedBy(GetStats(store, now).byDomain, CountLe)
  {
    CountLeIsTotalPreorder();
    SortBySorted(store.stats.GetOr(Fresh(now)).byDomain, CountLe);
  }

  /** `resetStats` (src/shared/background.suggestions.js:158-162). */
  function ResetStats(store: Store, now: int): (next: Store)
    ensures next.settings == store.settings && next.history == store.history
    ensures next.stats == Some(StatsRecord(0, [], now))
  {
    store.(stats := Some(Fresh(now)))
  }

  /** After a reset, reading the statistics gives a zero record started at the reset. */
  lemma ResetThenGet(store: Store, t1: int, t2: int)
    ensures GetStats(ResetStats(store, t1), t2) == StatsRecord(0, [], t1)
  {
  }
}
