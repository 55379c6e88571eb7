/**
 * The suggestion engine of src/shared/background.suggestions.js:73-146
 * (`pcGetSuggestions`): open tabs counted per domain, a score per domain from
 * the open count and the closing history, the ten best domains by score, and
 * in front of them an item counting the inactive tabs.
 *
 * The recency boost `Math.exp(-(now - lastClosedAt) / decayMs)` is a parameter
 * `boost` of the last-closing time (the clock and "decayDays" are fixed for
 * one call); scores are reals.
 */
module Suggestions {
  import opened Wrappers
  import opened Seqs
  import opened Sorting
  import opened Table
  import opened Settings
  import opened Storage
  import opened Urls
  import opened Tabs

  datatype Suggestion =
    | Inactive(inactiveCount: nat)
    | DomainItem(domain: string, openCount: int, freq: int, lastClosedAt: int)

  /** A domain with its score, before the ten best are kept. */
  datatype Scored = Scored(domain: string, openCount: int, freq: int, lastClosedAt: int, score: real)

  type Boost = int -> real

  // ---------------------------------------------------------------- open tabs

  /** One turn of the counting loop: a non-private tab with a non-empty domain adds one to it. */
  function CountTab(parse: Parser, t: Table<int>, tab: Tab): (r: Table<int>)
    requires t.Valid()
    ensures r.Valid()
  {
    if tab.incognito then t
    else match DomainFromUrl(parse, tab.url)
      case None => t
      case Some(d) => if d == "" then t else t.Set(d, (if d in t.rows then t.rows[d] else 0) + 1)
  }

  /** `openByDomain` after the loop over `tabs`. */
  function OpenTable(parse: Parser, tabs: seq<Tab>): (t: Table<int>)
    ensures t.Valid()
  {
    if tabs == [] then Empty() else CountTab(parse, OpenTable(parse, tabs[..|tabs| - 1]), tabs[|tabs| - 1])
  }

  /** Whether `tab` counts as open on domain `d`. */
  predicate OpenOn(parse: Parser, tab: Tab, d: string) {
    !tab.incognito && DomainFromUrl(parse, tab.url) == Some(d)
  }

  /** The number of non-private tabs whose URL has domain `d`. */
  function CountOpen(parse: Parser, tabs: seq<Tab>, d: string): (n: nat)
    ensures n <= |tabs|
  {
    if tabs == [] then 0
    else CountOpen(parse, tabs[..|tabs| - 1], d) + (if OpenOn(parse, tabs[|tabs| - 1], d) then 1 else 0)
  }

  /** The table holds exactly the non-empty domains with an open tab, each with its number of open tabs. */
  lemma {:induction false} OpenTableCounts(parse: Parser, tabs: seq<Tab>, d: string)
    requires d != ""
    ensures d in OpenTable(parse, tabs).rows <==> CountOpen(parse, tabs, d) > 0
    ensures d in OpenTable(parse, tabs).rows ==> OpenTable(parse, tabs).rows[d] == CountOpen(parse, tabs, d)
  {
    if tabs != [] {
      OpenTableCounts(parse, tabs[..|tabs| - 1], d);
    }
  }

  /** The table has no row for the empty domain. */
  lemma {:induction false} OpenTableNoEmpty(parse: Parser, tabs: seq<Tab>)
    ensures "" !in OpenTable(parse, tabs).rows
  {
    if tabs != [] {
      OpenTableNoEmpty(parse, tabs[..|tabs| - 1]);
    }
  }

  lemma OpenTableStep(parse: Parser, tabs: seq<Tab>, i: nat)
    requires i < |tabs|
    ensures OpenTable(parse, tabs[..i + 1]) == CountTab(parse, OpenTable(parse, tabs[..i]), tabs[i])
  {
    assert tabs[..i + 1][..i] == tabs[..i];
  }

  /** The loop filling `openByDomain`. */
  method CountOpenTabs(parse: Parser, tabs: seq<Tab>) returns (openByDomain: Table<int>)
    ensures openByDomain == OpenTable(parse, tabs)
  {
    openByDomain := Empty();
    var i := 0;
    while i < |tabs|
      invariant 0 <= i <= |tabs|
      invariant openByDomain == OpenTable(parse, tabs[..i])
    {
      OpenTableStep(parse, tabs, i);
      var t := tabs[i];
      if !t.incognito {
        var d := DomainFromUrl(parse, t.url);
        if d.Some? && d.value != "" {
          var prior := if d.value in openByDomain.rows then openByDomain.rows[d.value] else 0;
          openByDomain := openByDomain.Set(d.value, prior + 1);
        }
      }
      i := i + 1;
    }
    assert tabs[..i] == tabs;
  }

  // ---------------------------------------------------------------- inactive tabs

  /** `tabs.filter(tabLooksInactive).length`. */
  function InactiveCount(tabs: seq<Tab>, thresholdMs: int, now: int): (n: nat)
    ensures n <= |tabs|
  {
    if tabs == [] then 0
    else InactiveCount(tabs[..|tabs| - 1], thresholdMs, now) + (if TabLooksInactive(tabs[|tabs| - 1], thresholdMs, now) then 1 else 0)
  }

  /** The count is positive exactly when some tab looks inactive. */
  lemma {:induction false} InactiveCountPositive(tabs: seq<Tab>, thresholdMs: int, now: int)
    ensures InactiveCount(tabs, thresholdMs, now) > 0 <==> exists i :: 0 <= i < |tabs| && TabLooksInactive(tabs[i], thresholdMs, now)
  {
    if tabs != [] {
      var init := tabs[..|tabs| - 1];
      InactiveCountPositive(init, thresholdMs, now);
      if InactiveCount(init, thresholdMs, now) > 0 {
        var i :| 0 <= i < |init| && TabLooksInactive(init[i], thresholdMs, now);
        assert tabs[i] == init[i];
      }
      if exists i :: 0 <= i < |tabs| && TabLooksInactive(tabs[i], thresholdMs, now) {
        var i :| 0 <= i < |tabs| && TabLooksInactive(tabs[i], thresholdMs, now);
        if i < |init| {
          assert init[i] == tabs[i];
        }
      }
    }
  }

  // ---------------------------------------------------------------- scores

  /** `hist.find((x) => x.domain === domain)`: the first entry for `domain`. */
  function FindEntry(hist: seq<HistoryEntry>, domain: string): (h: Option<HistoryEntry>)
    ensures h.None? <==> forall i :: 0 <= i < |hist| ==> hist[i].domain != domain
    ensures h.Some? ==>
      && h.value.domain == domain
      && (exists i :: 0 <= i < |hist| && hist[i] == h.value && (forall j :: 0 <= j < i ==> hist[j].domain != domain))
  {
    if hist == [] then None
    else if hist[0].domain == domain then
      assert hist[0] == hist[0];
      Some(hist[0])
    else
      var h := FindEntry(hist[1..], domain);
      if h.Some? then
        var i :| 0 <= i < |hist[1..]| && hist[1..][i] == h.value
          && (forall j :: 0 <= j < i ==> hist[1..][j].domain != domain);
        assert hist[i + 1] == h.value;
        h
      else h
  }

  /** `openCount * (1 + freq * 0.5) * (0.5 + recencyBoost)`. */
  function Score(openCount: int, freq: int, boost: real): real {
    openCount as real * (1.0 + freq as real * 0.5) * (0.5 + boost)
  }

  /** More open tabs never lower the score, for a boost above -0.5 and a frequency of at least -2. */
  lemma ScoreMonotoneInOpenCount(o1: int, o2: int, freq: int, boost: real)
    requires o1 <= o2 && freq >= -2 && boost >= -0.5
    ensures Score(o1, freq, boost) <= Score(o2, freq, boost)
  {
    var k := (1.0 + freq as real * 0.5) * (0.5 + boost);
    assert k >= 0.0;
    assert Score(o1, freq, boost) == o1 as real * k;
    assert Score(o2, freq, boost) == o2 as real * k;
    assert (o2 as real - o1 as real) * k >= 0.0;
  }

  /** A larger recency boost never lowers the score, for a non-negative open count and a frequency of at least -2. */
  lemma ScoreMonotoneInBoost(openCount: int, freq: int, b1: real, b2: real)
    requires b1 <= b2 && openCount >= 0 && freq >= -2
    ensures Score(openCount, freq, b1) <= Score(openCount, freq, b2)
  {
    var k := openCount as real * (1.0 + freq as real * 0.5);
    assert k >= 0.0;
    assert Score(openCount, freq, b1) == k * (0.5 + b1);
    assert Score(openCount, freq, b2) == k * (0.5 + b2);
    assert k * (b2 - b1) >= 0.0;
  }

  /** The scored record of one domain: history count and boost when the history knows it, else 1 and 0.2. */
  function Rate(hist: seq<HistoryEntry>, boost: Boost, domain: string, openCount: int): (s: Scored)
    ensures s.domain == domain && s.openCount == openCount
    ensures FindEntry(hist, domain).None? ==> s.freq == 1 && s.lastClosedAt == 0 && s.score == Score(openCount, 1, 0.2)
    ensures FindEntry(hist, domain).Some? ==>
      var h := FindEntry(hist, domain).value;
      s.freq == h.count && s.lastClosedAt == h.lastClosedAt && s.score == Score(openCount, h.count, boost(h.lastClosedAt))
  {
    match FindEntry(hist, domain)
    case None => Scored(domain, openCount, 1, 0, Score(openCount, 1, 0.2))
    case Some(h) => Scored(domain, openCount, h.count, h.lastClosedAt, Score(openCount, h.count, boost(h.lastClosedAt)))
  }

  /** `openCount < cfg.suggestMinOpenTabsPerDomain` is false (a comparison with NaN is false). */
  predicate Passes(minOpen: Option<int>, openCount: int) {
    !(minOpen.Some? && openCount < minOpen.value)
  }

  /** The `scored` array after the loop over the first `n` domains of the table. */
  function ScoredFrom(hist: seq<HistoryEntry>, boost: Boost, minOpen: Option<int>, t: Table<int>, n: nat): seq<Scored>
    requires t.Valid() && n <= |t.keys|
  {
    if n == 0 then []
    else
      var prior := ScoredFrom(hist, boost, minOpen, t, n - 1);
      var d := t.keys[n - 1];
      if Passes(minOpen, t.rows[d]) then prior + [Rate(hist, boost, d, t.rows[d])] else prior
  }

  /** Every scored entry is the rating of one of the first `n` domains whose open count passes the minimum. */
  lemma {:induction false} ScoredFromMembers(hist: seq<HistoryEntry>, boost: Boost, minOpen: Option<int>, t: Table<int>, n: nat)
    requires t.Valid() && n <= |t.keys|
    ensures forall e :: e in ScoredFrom(hist, boost, minOpen, t, n) ==>
      e.domain in t.keys[..n] && Passes(minOpen, t.rows[e.domain]) && e == Rate(hist, boost, e.domain, t.rows[e.domain])
  {
    if n > 0 {
      ScoredFromMembers(hist, boost, minOpen, t, n - 1);
      assert t.keys[..n] == t.keys[..n - 1] + [t.keys[n - 1]];
    }
  }

  /** Every one of the first `n` domains whose open count passes the minimum is scored. */
  lemma {:induction false} ScoredFromComplete(hist: seq<HistoryEntry>, boost: Boost, minOpen: Option<int>, t: Table<int>, n: nat)
    requires t.Valid() && n <= |t.keys|
    ensures forall j :: 0 <= j < n && Passes(minOpen, t.rows[t.keys[j]]) ==>
      Rate(hist, boost, t.keys[j], t.rows[t.keys[j]]) in ScoredFrom(hist, boost, minOpen, t, n)
  {
    if n > 0 {
      ScoredFromComplete(hist, boost, minOpen, t, n - 1);
    }
  }

  /** No domain is scored twice. */
  lemma {:induction false} ScoredFromDistinct(hist: seq<HistoryEntry>, boost: Boost, minOpen: Option<int>, t: Table<int>, n: nat)
    requires t.Valid() && n <= |t.keys|
    ensures DistinctKeys(ScoredFrom(hist, boost, minOpen, t, n), ScoredDomain)
  {
    if n > 0 {
      ScoredFromDistinct(hist, boost, minOpen, t, n - 1);
      ScoredFromMembers(hist, boost, minOpen, t, n - 1);
      var prior := ScoredFrom(hist, boost, minOpen, t, n - 1);
      var d := t.keys[n - 1];
      forall e | e in prior
        ensures e.domain != d
      {
        var j :| 0 <= j < n - 1 && t.keys[..n - 1][j] == e.domain;
        assert t.keys[j] != t.keys[n - 1];
      }
    }
  }

  function ScoredDomain(s: Scored): string {
    s.domain
  }

  lemma ScoredFromStep(hist: seq<HistoryEntry>, boost: Boost, minOpen: Option<int>, t: Table<int>, i: nat)
    requires t.Valid() && i < |t.keys|
    ensures ScoredFrom(hist, boost, minOpen, t, i + 1) ==
      var d := t.keys[i];
      if Passes(minOpen, t.rows[d]) then ScoredFrom(hist, boost, minOpen, t, i) + [Rate(hist, boost, d, t.rows[d])]
      else ScoredFrom(hist, boost, minOpen, t, i)
  {
  }

  /** The loop filling `scored`, in the order of the table's keys. */
  method ScoreDomains(hist: seq<HistoryEntry>, boost: Boost, minOpen: Option<int>, openByDomain: Table<int>)
    returns (scored: seq<Scored>)
    requires openByDomain.Valid()
    ensures scored == ScoredFrom(hist, boost, minOpen, openByDomain, |openByDomain.keys|)
  {
    scored := [];
    var i := 0;
    while i < |openByDomain.keys|
      invariant 0 <= i <= |openByDomain.keys|
      invariant scored == ScoredFrom(hist, boost, minOpen, openByDomain, i)
    {
      ScoredFromStep(hist, boost, minOpen, openByDomain, i);
      var domain := openByDomain.keys[i];
      var openCount := openByDomain.rows[domain];
      if !(minOpen.Some? && openCount < minOpen.value) {
        var h := FindEntry(hist, domain);
        var recencyBoost := if h.Some? then boost(h.value.lastClosedAt) else 0.2;
        var freq := if h.Some? then h.value.count else 1;
        var score := openCount as real * (1.0 + freq as real * 0.5) * (0.5 + recencyBoost);
        var item := Scored(domain, openCount, freq, if h.Some? then h.value.lastClosedAt else 0, score);
        assert item == Rate(hist, boost, domain, openCount);
        scored := scored + [item];
      }
      i := i + 1;
    }
  }

  // ---------------------------------------------------------------- the result

  /** The comparator `(a, b) => b.score - a.score`: higher scores first. */
  predicate ScoreLe(a: Scored, b: Scored) {
    b.score - a.score <= 0.0
  }

  lemma ScoreLeIsTotalPreorder()
    ensures TotalPreorder(ScoreLe)
  {
  }

  const MaxItems: nat := 10

  /** The ten best scored domains, highest score first. */
  function Top(scored: seq<Scored>): (r: seq<Scored>)
    ensures |r| <= MaxItems
  {
    Take(SortBy(scored, ScoreLe), MaxItems)
  }

  /** `{ kind: "domain", ... }` for each kept domain. */
  function Items(top: seq<Scored>): (r: seq<Suggestion>)
    ensures |r| == |top|
    ensures forall i :: 0 <= i < |top| ==>
      r[i] == DomainItem(top[i].domain, top[i].openCount, top[i].freq, top[i].lastClosedAt)
  {
    seq(|top|, i requires 0 <= i < |top| => DomainItem(top[i].domain, top[i].openCount, top[i].freq, top[i].lastClosedAt))
  }

  /** `got[pc.history]` when history is tracked, otherwise nothing. */
  function HistoryUsed(cfg: Settings, store: Store): seq<HistoryEntry> {
    if Flag(cfg, "trackHistory") then store.history else []
  }

  /** The inactive count: 0 unless the inactive suggestion is enabled. */
  function InactiveUsed(cfg: Settings, tabs: seq<Tab>, now: int): nat {
    if Flag(cfg, "enableInactiveSuggestion") then InactiveCount(tabs, ThresholdMs(cfg), now) else 0
  }

  /** The scored list for the given settings, history and tabs. */
  function ScoredFor(parse: Parser, cfg: Settings, store: Store, tabs: seq<Tab>, boost: Boost): seq<Scored> {
    var t := OpenTable(parse, tabs);
    ScoredFrom(HistoryUsed(cfg, store), boost, NumberSetting(cfg, "suggestMinOpenTabsPerDomain"), t, |t.keys|)
  }

  /** What `pcGetSuggestions()` returns. */
  function Suggest(parse: Parser, store: Store, tabs: seq<Tab>, now: int, boost: Boost): seq<Suggestion> {
    var cfg := GetSettings(store.settings);
    if !Flag(cfg, "enableSuggestions") then []
    else
      var inactive := InactiveUsed(cfg, tabs, now);
      (if inactive != 0 then [Inactive(inactive)] else []) + Items(Top(ScoredFor(parse, cfg, store, tabs, boost)))
  }

  /** `pcGetSuggestions`, with storage, the tab query, the clock and the boost made explicit. */
  method GetSuggestions(parse: Parser, store: Store, tabs: seq<Tab>, now: int, boost: Boost)
    returns (suggestions: seq<Suggestion>)
    ensures suggestions == Suggest(parse, store, tabs, now, boost)
  {
    var cfg := GetSettings(store.settings);
    if !Flag(cfg, "enableSuggestions") {
      return [];
    }
    var hist := HistoryUsed(cfg, store);
    var openByDomain := CountOpenTabs(parse, tabs);
    var inactiveCount := InactiveUsed(cfg, tabs, now);
    var scored := ScoreDomains(hist, boost, NumberSetting(cfg, "suggestMinOpenTabsPerDomain"), openByDomain);
    var top := Items(Top(scored));
    suggestions := if inactiveCount != 0 then [Inactive(inactiveCount)] + top else top;
  }

  /** The domain items of a result: everything after the inactive item, if there is one. */
  function DomainItems(out: seq<Suggestion>): seq<Suggestion> {
    if out != [] && out[0].Inactive? then out[1..] else out
  }

  /** With suggestions switched off the result is empty. */
  lemma SuggestOff(parse: Parser, store: Store, tabs: seq<Tab>, now: int, boost: Boost)
    requires !Flag(GetSettings(store.settings), "enableSuggestions")
    ensures Suggest(parse, store, tabs, now, boost) == []
  {
  }

  /**
   * Otherwise the result starts with an inactive item exactly when the
   * inactive suggestion is enabled and some tab looks inactive (its count is
   * the number of such tabs), and at most ten domain items follow.
   */
  lemma SuggestShape(parse: Parser, store: Store, tabs: seq<Tab>, now: int, boost: Boost)
    requires Flag(GetSettings(store.settings), "enableSuggestions")
    ensures var cfg := GetSettings(store.settings);
      var out := Suggest(parse, store, tabs, now, boost);
      && (out != [] && out[0].Inactive? <==>
            Flag(cfg, "enableInactiveSuggestion")
            && exists i :: 0 <= i < |tabs| && TabLooksInactive(tabs[i], ThresholdMs(cfg), now))
      && (out != [] && out[0].Inactive? ==> out[0].inactiveCount == InactiveCount(tabs, ThresholdMs(cfg), now))
      && (var n := |ScoredFor(parse, cfg, store, tabs, boost)|; |DomainItems(out)| == if n < MaxItems then n else MaxItems)
      && forall i :: 0 <= i < |DomainItems(out)| ==> DomainItems(out)[i].DomainItem?
  {
    var cfg := GetSettings(store.settings);
    InactiveCountPositive(tabs, ThresholdMs(cfg), now);
    var inactive := InactiveUsed(cfg, tabs, now);
    var items := Items(Top(ScoredFor(parse, cfg, store, tabs, boost)));
    TopLength(ScoredFor(parse, cfg, store, tabs, boost));
    var out := Suggest(parse, store, tabs, now, boost);
    if inactive != 0 {
      assert out == [Inactive(inactive)] + items;
      assert DomainItems(out) == items;
    } else {
      assert out == items;
    }
  }

  /** `slice(0, 10)` keeps ten entries, or all of them when there are fewer. */
  lemma TopLength(scored: seq<Scored>)
    ensures |Top(scored)| == if |scored| < MaxItems then |scored| else MaxItems
  {
  }

  /** The ten best are the highest scores of the scored list, distinct by domain. */
  lemma TopFacts(scored: seq<Scored>)
    requires DistinctKeys(scored, ScoredDomain)
    ensures SortedBy(Top(scored), ScoreLe)
    ensures DistinctKeys(Top(scored), ScoredDomain)
    ensures forall e :: e in Top(scored) ==> e in scored
    ensures forall x :: x in scored && x !in Top(scored) ==> forall e :: e in Top(scored) ==> x.score <= e.score
  {
    var sorted := SortBy(scored, ScoreLe);
    ScoreLeIsTotalPreorder();
    SortBySorted(scored, ScoreLe);
    PermutationKeepsDistinctKeys(scored, sorted, ScoredDomain);
    forall e | e in Top(scored)
      ensures e in scored
    {
      assert e in multiset(sorted);
    }
    forall x | x in scored && x !in Top(scored)
      ensures forall e :: e in Top(scored) ==> x.score <= e.score
    {
      assert x in multiset(sorted);
      PrefixBeforeRest(sorted, ScoreLe, |Top(scored)|, x);
    }
  }

  /**
   * Every scored domain is non-empty, has as many open tabs as non-private
   * tabs show it, at least the minimum, and is rated from the history; each
   * domain is scored at most once.
   */
  lemma ScoredForFacts(parse: Parser, cfg: Settings, store: Store, tabs: seq<Tab>, boost: Boost)
    ensures var scored := ScoredFor(parse, cfg, store, tabs, boost);
      && DistinctKeys(scored, ScoredDomain)
      && forall e :: e in scored ==>
        && e.domain != ""
        && e.openCount == CountOpen(parse, tabs, e.domain) > 0
        && Passes(NumberSetting(cfg, "suggestMinOpenTabsPerDomain"), e.openCount)
        && e == Rate(HistoryUsed(cfg, store), boost, e.domain, e.openCount)
  {
    var t := OpenTable(parse, tabs);
    var hist := HistoryUsed(cfg, store);
    var minOpen := NumberSetting(cfg, "suggestMinOpenTabsPerDomain");
    ScoredFromMembers(hist, boost, minOpen, t, |t.keys|);
    ScoredFromDistinct(hist, boost, minOpen, t, |t.keys|);
    OpenTableNoEmpty(parse, tabs);
    forall e | e in ScoredFrom(hist, boost, minOpen, t, |t.keys|)
      ensures e.domain != "" && e.openCount == CountOpen(parse, tabs, e.domain) > 0
    {
      assert t.keys[..|t.keys|] == t.keys;
      OpenTableCounts(parse, tabs, e.domain);
    }
  }

  /** A domain that passes the minimum and has an open tab is scored. */
  lemma ScoredForComplete(parse: Parser, cfg: Settings, store: Store, tabs: seq<Tab>, boost: Boost, d: string)
    requires d != "" && CountOpen(parse, tabs, d) > 0
    requires Passes(NumberSetting(cfg, "suggestMinOpenTabsPerDomain"), CountOpen(parse, tabs, d))
    ensures Rate(HistoryUsed(cfg, store), boost, d, CountOpen(parse, tabs, d)) in ScoredFor(parse, cfg, store, tabs, boost)
  {
    var t := OpenTable(parse, tabs);
    OpenTableCounts(parse, tabs, d);
    var j :| 0 <= j < |t.keys| && t.keys[j] == d;
    ScoredFromComplete(HistoryUsed(cfg, store), boost, NumberSetting(cfg, "suggestMinOpenTabsPerDomain"), t, |t.keys|);
  }

  /** The domain items are the ten best scored domains, in order. */
  lemma SuggestDomainItems(parse: Parser, store: Store, tabs: seq<Tab>, now: int, boost: Boost)
    requires Flag(GetSettings(store.settings), "enableSuggestions")
    ensures var cfg := GetSettings(store.settings);
      DomainItems(Suggest(parse, store, tabs, now, boost)) == Items(Top(ScoredFor(parse, cfg, store, tabs, boost)))
  {
    var cfg := GetSettings(store.settings);
    var items := Items(Top(ScoredFor(parse, cfg, store, tabs, boost)));
    var out := Suggest(parse, store, tabs, now, boost);
    if InactiveUsed(cfg, tabs, now) != 0 {
      assert out == [Inactive(InactiveUsed(cfg, tabs, now))] + items;
    } else {
      assert out == items;
    }
  }

  /**
   * Each domain item names a non-empty domain with as many open tabs as
   * non-private tabs show that domain, at least the minimum; its frequency
   * and last closing come from the first history entry of the domain (1 and
   * 0 without one); and no domain appears twice.
   */
  lemma SuggestItems(parse: Parser, store: Store, tabs: seq<Tab>, now: int, boost: Boost)
    requires Flag(GetSettings(store.settings), "enableSuggestions")
    ensures var cfg := GetSettings(store.settings);
      var items := DomainItems(Suggest(parse, store, tabs, now, boost));
      && (forall i :: 0 <= i < |items| ==>
            && items[i].DomainItem?
            && items[i].domain != ""
            && items[i].openCount == CountOpen(parse, tabs, items[i].domain) > 0
            && Passes(NumberSetting(cfg, "suggestMinOpenTabsPerDomain"), items[i].openCount)
            && var r := Rate(HistoryUsed(cfg, store), boost, items[i].domain, items[i].openCount);
               items[i].freq == r.freq && items[i].lastClosedAt == r.lastClosedAt)
      && (forall i, j :: 0 <= i < j < |items| ==> items[i].domain != items[j].domain)
  {
    var cfg := GetSettings(store.settings);
    var scored := ScoredFor(parse, cfg, store, tabs, boost);
    var top := Top(scored);
    SuggestDomainItems(parse, store, tabs, now, boost);
    ScoredForFacts(parse, cfg, store, tabs, boost);
    TopFacts(scored);
    forall i | 0 <= i < |top|
      ensures top[i] in scored
    {
      assert top[i] in top;
    }
    forall i, j | 0 <= i < j < |top|
      ensures top[i].domain != top[j].domain
    {
      assert ScoredDomain(top[i]) != ScoredDomain(top[j]);
    }
  }

  /** Re-rating a domain item gives back the scored entry it was made from. */
  lemma ItemsRated(parse: Parser, store: Store, tabs: seq<Tab>, now: int, boost: Boost)
    requires Flag(GetSettings(store.settings), "enableSuggestions")
    ensures var cfg := GetSettings(store.settings);
      var top := Top(ScoredFor(parse, cfg, store, tabs, boost));
      var items := DomainItems(Suggest(parse, store, tabs, now, boost));
      && |items| == |top|
      && forall i :: 0 <= i < |items| ==>
        items[i].DomainItem? && Rate(HistoryUsed(cfg, store), boost, items[i].domain, items[i].openCount) == top[i]
  {
    var cfg := GetSettings(store.settings);
    var scored := ScoredFor(parse, cfg, store, tabs, boost);
    var top := Top(scored);
    SuggestDomainItems(parse, store, tabs, now, boost);
    ScoredForFacts(parse, cfg, store, tabs, boost);
    TopFacts(scored);
    forall i | 0 <= i < |top|
      ensures top[i] in scored
    {
      assert top[i] in top;
    }
  }

  /** The domain items are ordered by score, highest first. */
  lemma SuggestOrdered(parse: Parser, store: Store, tabs: seq<Tab>, now: int, boost: Boost)
    requires Flag(GetSettings(store.settings), "enableSuggestions")
    ensures var cfg := GetSettings(store.settings);
      var hist := HistoryUsed(cfg, store);
      var items := DomainItems(Suggest(parse, store, tabs, now, boost));
      forall i, j :: 0 <= i < j < |items| ==>
        Rate(hist, boost, items[j].domain, items[j].openCount).score
          <= Rate(hist, boost, items[i].domain, items[i].openCount).score
  {
    var cfg := GetSettings(store.settings);
    var scored := ScoredFor(parse, cfg, store, tabs, boost);
    ItemsRated(parse, store, tabs, now, boost);
    ScoredForFacts(parse, cfg, store, tabs, boost);
    TopFacts(scored);
  }

  /**
   * A domain with an open tab that passes the minimum but is left out scores
   * no higher than any domain kept.
   */
  lemma SuggestKeepsBest(parse: Parser, store: Store, tabs: seq<Tab>, now: int, boost: Boost, d: string)
    requires Flag(GetSettings(store.settings), "enableSuggestions")
    requires d != "" && CountOpen(parse, tabs, d) > 0
    requires Passes(NumberSetting(GetSettings(store.settings), "suggestMinOpenTabsPerDomain"), CountOpen(parse, tabs, d))
    requires forall i :: 0 <= i < |DomainItems(Suggest(parse, store, tabs, now, boost))| ==>
      DomainItems(Suggest(parse, store, tabs, now, boost))[i].domain != d
    ensures var cfg := GetSettings(store.settings);
      var hist := HistoryUsed(cfg, store);
      var items := DomainItems(Suggest(parse, store, tabs, now, boost));
      forall i :: 0 <= i < |items| ==>
        Rate(hist, boost, d, CountOpen(parse, tabs, d)).score <= Rate(hist, boost, items[i].domain, items[i].openCount).score
  {
    var cfg := GetSettings(store.settings);
    var hist := HistoryUsed(cfg, store);
    var scored := ScoredFor(parse, cfg, store, tabs, boost);
    var top := Top(scored);
    var items := DomainItems(Suggest(parse, store, tabs, now, boost));
    ItemsRated(parse, store, tabs, now, boost);
    ScoredForFacts(parse, cfg, store, tabs, boost);
    TopFacts(scored);
    var x := Rate(hist, boost, d, CountOpen(parse, tabs, d));
    ScoredForComplete(parse, cfg, store, tabs, boost, d);
    forall k | 0 <= k < |top|
      ensures top[k] != x
    {
      assert items[k].domain != d;
    }
  }
}
