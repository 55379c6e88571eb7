/**
 * The three ways of closing tabs in src/shared/background.js:350-494: by
 * keyword (`closeByKeyword`), by inactivity (`closeInactiveTabs`) and by
 * duplicate URL (`closeDuplicateTabs`). Each walks the tab list once,
 * collects the ids to close, the distinct domains closed and a snapshot of
 * each closed tab, removes the tabs and reports the count to the statistics.
 */
module Closing {
  import opened Wrappers
  import opened Seqs
  import opened Text
  import opened Settings
  import opened Storage
  import opened Urls
  import opened Tabs
  import Stats

  /**
   * `{ closedCount, closedDomains, closedTabs }`, with `toClose` (the ids
   * passed to `tabs.remove`) in place of its length `closedCount`.
   */
  datatype CloseResult = CloseResult(toClose: seq<Option<int>>, closedDomains: seq<string>, closedTabs: seq<Snapshot>)

  const Nothing := CloseResult([], [], [])

  /** What the tab list turns into once the tabs in it are closed: one push into each array. */
  function Collect(parse: Parser, r: CloseResult, tab: Tab): CloseResult {
    var d := DomainFromUrl(parse, tab.url);
    var domains := if d.Some? && d.value != "" && d.value !in r.closedDomains then r.closedDomains + [d.value] else r.closedDomains;
    var snaps := match SerializeTab(tab) case Some(s) => r.closedTabs + [s] case None => r.closedTabs;
    CloseResult(r.toClose + [tab.id], domains, snaps)
  }

  /** The result of closing the tabs of `chosen`, in order. */
  function Gather(parse: Parser, chosen: seq<Tab>): CloseResult {
    if chosen == [] then Nothing else Collect(parse, Gather(parse, chosen[..|chosen| - 1]), chosen[|chosen| - 1])
  }

  /** The snapshots of the tabs that have a URL, in order. */
  function Snapshots(tabs: seq<Tab>): seq<Snapshot> {
    if tabs == [] then []
    else Snapshots(tabs[..|tabs| - 1]) + match SerializeTab(tabs[|tabs| - 1]) case Some(s) => [s] case None => []
  }

  /** The domain of `tab` when it is a non-empty one. */
  predicate ClosesDomain(parse: Parser, tab: Tab, d: string) {
    d != "" && DomainFromUrl(parse, tab.url) == Some(d)
  }

  /** The report lists one id per closed tab, in order, and one snapshot per closed tab that has a URL. */
  lemma {:induction false} GatherShape(parse: Parser, chosen: seq<Tab>)
    ensures |Gather(parse, chosen).toClose| == |chosen|
    ensures forall i :: 0 <= i < |chosen| ==> Gather(parse, chosen).toClose[i] == chosen[i].id
    ensures Gather(parse, chosen).closedTabs == Snapshots(chosen)
  {
    if chosen != [] {
      GatherShape(parse, chosen[..|chosen| - 1]);
    }
  }

  /** One closed tab adds its domain to the report unless it is empty or already there. */
  lemma CollectDomains(parse: Parser, r: CloseResult, tab: Tab)
    ensures NoDup(r.closedDomains) ==> NoDup(Collect(parse, r, tab).closedDomains)
    ensures forall d :: d in Collect(parse, r, tab).closedDomains <==> d in r.closedDomains || ClosesDomain(parse, tab, d)
  {
  }

  /** Some tab of `chosen` has the non-empty domain `d`. */
  predicate AnyClosesDomain(parse: Parser, chosen: seq<Tab>, d: string) {
    exists i :: 0 <= i < |chosen| && ClosesDomain(parse, chosen[i], d)
  }

  lemma AnyClosesDomainStep(parse: Parser, chosen: seq<Tab>, d: string)
    requires chosen != []
    ensures AnyClosesDomain(parse, chosen, d)
      <==> AnyClosesDomain(parse, chosen[..|chosen| - 1], d) || ClosesDomain(parse, chosen[|chosen| - 1], d)
  {
    var n := |chosen| - 1;
    var init := chosen[..n];
    assert AnyClosesDomain(parse, init, d) ==> AnyClosesDomain(parse, chosen, d) by {
      if AnyClosesDomain(parse, init, d) {
        var i :| 0 <= i < |init| && ClosesDomain(parse, init[i], d);
        assert chosen[i] == init[i];
      }
    }
    assert ClosesDomain(parse, chosen[n], d) ==> AnyClosesDomain(parse, chosen, d);
    assert AnyClosesDomain(parse, chosen, d) ==> AnyClosesDomain(parse, init, d) || ClosesDomain(parse, chosen[n], d) by {
      if AnyClosesDomain(parse, chosen, d) {
        var i :| 0 <= i < |chosen| && ClosesDomain(parse, chosen[i], d);
        if i < n {
          assert init[i] == chosen[i];
        }
      }
    }
  }

  /** Each non-empty domain of a closed tab is reported exactly once, and no other. */
  lemma {:induction false} GatherDomains(parse: Parser, chosen: seq<Tab>)
    ensures NoDup(Gather(parse, chosen).closedDomains)
    ensures forall d :: d in Gather(parse, chosen).closedDomains <==> AnyClosesDomain(parse, chosen, d)
  {
    if chosen != [] {
      var init := chosen[..|chosen| - 1];
      GatherDomains(parse, init);
      CollectDomains(parse, Gather(parse, init), chosen[|chosen| - 1]);
      forall d
        ensures d in Gather(parse, chosen).closedDomains <==> AnyClosesDomain(parse, chosen, d)
      {
        AnyClosesDomainStep(parse, chosen, d);
      }
    }
  }

  lemma GatherStep(parse: Parser, chosen: seq<Tab>, tab: Tab)
    ensures Gather(parse, chosen + [tab]) == Collect(parse, Gather(parse, chosen), tab)
  {
    assert (chosen + [tab])[..|chosen|] == chosen;
  }

  // ---------------------------------------------------------------- selection by a criterion

  /** Which tabs a walk closes. */
  datatype Criterion =
    | DomainIs(wanted: string)
    | TextHas(keyword: string)
    | InactiveFor(thresholdMs: int, now: int)

  predicate Selected(parse: Parser, c: Criterion, tab: Tab) {
    match c
    case DomainIs(wanted) => !tab.incognito && DomainFromUrl(parse, tab.url) == Some(wanted)
    case TextHas(kw) =>
      !tab.incognito
      && ((tab.title != "" && ContainsIgnoringCase(tab.title, kw)) || (tab.url != "" && ContainsIgnoringCase(tab.url, kw)))
    case InactiveFor(ms, now) => TabLooksInactive(tab, ms, now)
  }

  /** The tabs meeting the criterion, in order. */
  function Chosen(parse: Parser, tabs: seq<Tab>, c: Criterion): (r: seq<Tab>)
    ensures |r| <= |tabs|
  {
    if tabs == [] then []
    else
      var prior := Chosen(parse, tabs[..|tabs| - 1], c);
      if Selected(parse, c, tabs[|tabs| - 1]) then prior + [tabs[|tabs| - 1]] else prior
  }

  /** Exactly the tabs that meet the criterion are chosen. */
  lemma {:induction false} ChosenExactly(parse: Parser, tabs: seq<Tab>, c: Criterion)
    ensures forall t :: t in Chosen(parse, tabs, c) <==> t in tabs && Selected(parse, c, t)
  {
    if tabs != [] {
      ChosenExactly(parse, tabs[..|tabs| - 1], c);
      assert tabs == tabs[..|tabs| - 1] + [tabs[|tabs| - 1]];
    }
  }

  /**
   * Each selected tab is chosen as often as it occurs, and no other tab is:
   * `closedCount` is the number of selected tabs.
   */
  lemma ChosenCounts(parse: Parser, tabs: seq<Tab>, c: Criterion)
    ensures forall t :: multiset(Chosen(parse, tabs, c))[t] == if Selected(parse, c, t) then multiset(tabs)[t] else 0
  {
    forall t {
      ChosenCount(parse, tabs, c, t);
    }
  }

  lemma {:induction false} ChosenCount(parse: Parser, tabs: seq<Tab>, c: Criterion, t: Tab)
    ensures multiset(Chosen(parse, tabs, c))[t] == if Selected(parse, c, t) then multiset(tabs)[t] else 0
  {
    if tabs != [] {
      var prior, last := tabs[..|tabs| - 1], tabs[|tabs| - 1];
      ChosenCount(parse, prior, c, t);
      assert tabs == prior + [last];
      assert multiset(tabs) == multiset(prior) + multiset{last};
      if Selected(parse, c, last) {
        assert Chosen(parse, tabs, c) == Chosen(parse, prior, c) + [last];
        assert multiset(Chosen(parse, tabs, c)) == multiset(Chosen(parse, prior, c)) + multiset{last};
      } else {
        assert Chosen(parse, tabs, c) == Chosen(parse, prior, c);
      }
    }
  }

  lemma ChosenStep(parse: Parser, tabs: seq<Tab>, c: Criterion, i: nat)
    requires i < |tabs|
    ensures Chosen(parse, tabs[..i + 1], c) ==
      if Selected(parse, c, tabs[i]) then Chosen(parse, tabs[..i], c) + [tabs[i]] else Chosen(parse, tabs[..i], c)
  {
    assert tabs[..i + 1][..i] == tabs[..i];
  }

  lemma ChosenSnoc(parse: Parser, tabs: seq<Tab>, t: Tab, c: Criterion)
    ensures Chosen(parse, tabs + [t], c) ==
      if Selected(parse, c, t) then Chosen(parse, tabs, c) + [t] else Chosen(parse, tabs, c)
  {
    assert (tabs + [t])[..|tabs|] == tabs;
  }

  /** The walk of `closeByKeyword` and `closeInactiveTabs`: every tab meeting the criterion is collected. */
  method CloseWhere(parse: Parser, tabs: seq<Tab>, c: Criterion) returns (r: CloseResult)
    ensures r == Gather(parse, Chosen(parse, tabs, c))
  {
    var toClose: seq<Option<int>> := [];
    var closedDomains: seq<string> := [];
    var closedTabs: seq<Snapshot> := [];
    var i := 0;
    while i < |tabs|
      invariant 0 <= i <= |tabs|
      invariant CloseResult(toClose, closedDomains, closedTabs) == Gather(parse, Chosen(parse, tabs[..i], c))
    {
      ChosenStep(parse, tabs, c, i);
      var t := tabs[i];
      if Selected(parse, c, t) {
        GatherStep(parse, Chosen(parse, tabs[..i], c), t);
        toClose := toClose + [t.id];
        var d := DomainFromUrl(parse, t.url);
        if d.Some? && d.value != "" && d.value !in closedDomains {
          closedDomains := closedDomains + [d.value];
        }
        var snapshot := SerializeTab(t);
        if snapshot.Some? {
          closedTabs := closedTabs + [snapshot.value];
        }
      }
      i := i + 1;
    }
    assert tabs[..i] == tabs;
    r := CloseResult(toClose, closedDomains, closedTabs);
  }

  /** After a non-empty close the count goes to `pcStatsEat({ count })`, with no domains. */
  function AfterClose(store: Store, r: CloseResult, now: int): Store {
    if |r.toClose| != 0 then Stats.Eaten(store, |r.toClose|, [], now) else store
  }

  /** Closing changes only the statistics: the total grows by the count when statistics are tracked. */
  lemma AfterCloseCounts(store: Store, r: CloseResult, now: int)
    ensures AfterClose(store, r, now).settings == store.settings
    ensures AfterClose(store, r, now).history == store.history
    ensures |r.toClose| == 0 || !Flag(GetSettings(store.settings), "trackStats") ==> AfterClose(store, r, now) == store
    ensures |r.toClose| != 0 && Flag(GetSettings(store.settings), "trackStats") ==>
      AfterClose(store, r, now).stats.Some?
      && AfterClose(store, r, now).stats.value.totalTabsEaten
         == store.stats.GetOr(Stats.Fresh(now)).totalTabsEaten + |r.toClose|
  {
    if |r.toClose| != 0 && Flag(GetSettings(store.settings), "trackStats") {
      Stats.EatenRecord(store, |r.toClose|, [], now);
    }
  }

  // ---------------------------------------------------------------- closeByKeyword

  /**
   * The criterion of a keyword once trimmed: a keyword with a "." names a
   * domain (one leading "www." removed, lower-cased); any other keyword is
   * searched for in titles and URLs.
   */
  function KeywordCriterion(keyword: string): (c: Criterion)
    ensures !c.InactiveFor?
    ensures c.DomainIs? <==> HasDot(Trim(keyword))
    ensures c.DomainIs? ==> NoUpper(c.wanted)
    ensures c.TextHas? ==> !HasDot(c.keyword) && c.keyword == Trim(keyword)
  {
    var kw := Trim(keyword);
    if HasDot(kw) then
      LowerIsLower(StripWww(kw));
      DomainIs(Lower(StripWww(kw)))
    else TextHas(kw)
  }

  /** What `closeByKeyword(keyword)` closes and reports; an empty keyword closes nothing. */
  function KeywordClose(parse: Parser, tabs: seq<Tab>, keyword: string): CloseResult {
    if keyword == "" then Nothing else Gather(parse, Chosen(parse, tabs, KeywordCriterion(keyword)))
  }

  /** `closeByKeyword`, with the tab query, the removal and the statistics made explicit. */
  method CloseByKeyword(parse: Parser, store: Store, tabs: seq<Tab>, keyword: string, now: int)
    returns (r: CloseResult, next: Store)
    ensures r == KeywordClose(parse, tabs, keyword)
    ensures next == AfterClose(store, r, now)
  {
    if keyword == "" {
      return Nothing, store;
    }
    var kw := Trim(keyword);
    var c;
    if HasDot(kw) {
      var wanted := Lower(StripWww(kw));
      c := DomainIs(wanted);
    } else {
      c := TextHas(kw);
    }
    r := CloseWhere(parse, tabs, c);
    next := store;
    if |r.toClose| != 0 {
      next := Stats.StatsEat(store, |r.toClose|, [], now);
    }
  }

  /**
   * A keyword with a "." closes exactly the non-private tabs whose domain is
   * the keyword's; any other non-empty keyword exactly the non-private tabs
   * whose title or URL contains it, ignoring case.
   */
  lemma KeywordSelection(parse: Parser, tabs: seq<Tab>, keyword: string, t: Tab)
    requires keyword != "" && t in tabs
    ensures var kw := Trim(keyword);
      var closed := t in Chosen(parse, tabs, KeywordCriterion(keyword));
      && (HasDot(kw) ==> (closed <==> !t.incognito && DomainFromUrl(parse, t.url) == Some(Lower(StripWww(kw)))))
      && (!HasDot(kw) ==> (closed <==> (!t.incognito
            && ((t.title != "" && ContainsIgnoringCase(t.title, kw)) || (t.url != "" && ContainsIgnoringCase(t.url, kw))))))
  {
    ChosenExactly(parse, tabs, KeywordCriterion(keyword));
  }

  /**
   * A keyword made only of white space trims to "" and then matches every
   * non-private tab that has a title or a URL.
   */
  lemma BlankKeywordMatchesAll(parse: Parser, tabs: seq<Tab>, keyword: string, t: Tab)
    requires forall k :: 0 <= k < |keyword| ==> IsSpace(keyword[k])
    requires t in tabs && !t.incognito && (t.title != "" || t.url != "")
    ensures t in Chosen(parse, tabs, KeywordCriterion(keyword))
  {
    BlankTrimsToEmpty(keyword);
    EmptyNeedleMatches(t.title);
    EmptyNeedleMatches(t.url);
    ChosenExactly(parse, tabs, KeywordCriterion(keyword));
  }

  /**
   * Closing "a.com" among two tabs on https://a.com (ids 1 and 2) and a
   * pinned tab on https://b.com (id 3) closes ids 1 and 2 and reports the
   * one domain "a.com".
   */
  lemma KeywordExample(parse: Parser, a: Tab, b: Tab, c: Tab)
    requires parse("https://a.com") == Some(Url("a.com", "https://a.com/", None))
    requires parse("https://b.com") == Some(Url("b.com", "https://b.com/", None))
    requires a == Tab(Some(1), "https://a.com", "", "", false, false, false, false, false, 0, None, None)
    requires b == Tab(Some(2), "https://a.com", "", "", false, false, false, false, false, 0, None, None)
    requires c == Tab(Some(3), "https://b.com", "", "", false, true, false, false, false, 0, None, None)
    ensures KeywordClose(parse, [a, b, c], "a.com").toClose == [Some(1), Some(2)]
    ensures KeywordClose(parse, [a, b, c], "a.com").closedDomains == ["a.com"]
  {
    assert "a.com"[1] == '.';
    assert "a.com"[0] != "www."[0];
    PlainDomainKeyword("a.com");
    ExampleChosen(parse, a, b, c);
    SimpleDomain(parse, "https://a.com", "a.com", "https://a.com/");
    assert [a][..0] == [];
    assert Gather(parse, [a]).closedDomains == ["a.com"];
    GatherStep(parse, [a], b);
    GatherShape(parse, [a, b]);
  }

  lemma ExampleChosen(parse: Parser, a: Tab, b: Tab, c: Tab)
    requires parse("https://a.com") == Some(Url("a.com", "https://a.com/", None))
    requires parse("https://b.com") == Some(Url("b.com", "https://b.com/", None))
    requires a.url == "https://a.com" && b.url == "https://a.com" && c.url == "https://b.com"
    requires !a.incognito && !b.incognito
    ensures Chosen(parse, [a, b, c], DomainIs("a.com")) == [a, b]
  {
    SimpleDomain(parse, "https://a.com", "a.com", "https://a.com/");
    SimpleDomain(parse, "https://b.com", "b.com", "https://b.com/");
    var crit := DomainIs("a.com");
    assert Selected(parse, crit, a) && Selected(parse, crit, b) && !Selected(parse, crit, c);
    assert Chosen(parse, [a], crit) == [a];
    assert [a, b] == [a] + [b];
    ChosenSnoc(parse, [a], b, crit);
    assert [a, b, c] == [a, b] + [c];
    ChosenSnoc(parse, [a, b], c, crit);
  }

  /**
   * A keyword with a "." and no upper-case letter, white space at its ends or
   * leading "www." names itself as the domain.
   */
  lemma PlainDomainKeyword(kw: string)
    requires kw != [] && !IsSpace(kw[0]) && !IsSpace(kw[|kw| - 1])
    requires HasDot(kw) && !StartsWithWww(kw)
    requires forall i :: 0 <= i < |kw| ==> !('A' <= kw[i] <= 'Z')
    ensures KeywordCriterion(kw) == DomainIs(kw)
  {
    TrimUnchanged(kw);
    LowerNoUpper(kw);
  }

  /** A host name in lower case without "www." is its own domain. */
  lemma SimpleDomain(parse: Parser, url: string, host: string, serialized: string)
    requires host == "a.com" || host == "b.com"
    requires parse(url) == Some(Url(host, serialized, None))
    ensures DomainFromUrl(parse, url) == Some(host)
  {
    assert host[0] != "www."[0];
    LowerNoUpper(host);
  }

  // ---------------------------------------------------------------- closeInactiveTabs

  /** What `closeInactiveTabs()` closes: the tabs that look inactive against the background threshold. */
  function InactiveClose(parse: Parser, store: Store, tabs: seq<Tab>, now: int): CloseResult {
    Gather(parse, Chosen(parse, tabs, InactiveFor(ThresholdMs(NormalizeSettings(store.settings)), now)))
  }

  /** `closeInactiveTabs`, with the settings, the clock, the tab query and the statistics made explicit. */
  method CloseInactiveTabs(parse: Parser, store: Store, tabs: seq<Tab>, now: int) returns (r: CloseResult, next: Store)
    ensures r == InactiveClose(parse, store, tabs, now)
    ensures next == AfterClose(store, r, now)
  {
    var settings := NormalizeSettings(store.settings);
    var thresholdMs := ThresholdMs(settings);
    r := CloseWhere(parse, tabs, InactiveFor(thresholdMs, now));
    next := store;
    if |r.toClose| != 0 {
      next := Stats.StatsEat(store, |r.toClose|, [], now);
    }
  }

  /**
   * A tab is closed exactly when it looks inactive for the threshold of the
   * background settings: `max(1, minutes or 30)` minutes, 120 by default.
   */
  lemma InactiveSelection(parse: Parser, store: Store, tabs: seq<Tab>, now: int, t: Tab)
    requires t in tabs
    ensures t in Chosen(parse, tabs, InactiveFor(ThresholdMs(NormalizeSettings(store.settings)), now))
      <==> TabLooksInactive(t, ThresholdMinutes(NormalizeSettings(store.settings)) * 60000, now)
    ensures "inactiveThresholdMinutes" !in store.settings ==> ThresholdMs(NormalizeSettings(store.settings)) == 120 * 60000
  {
    ChosenExactly(parse, tabs, InactiveFor(ThresholdMs(NormalizeSettings(store.settings)), now));
    if "inactiveThresholdMinutes" !in store.settings {
      assert NormalizeSettings(store.settings)["inactiveThresholdMinutes"] == Num(120);
    }
  }

  // ---------------------------------------------------------------- closeDuplicateTabs

  /** `tab.url || tab.pendingUrl || ""`. */
  function DedupUrl(tab: Tab): string {
    if tab.url != "" then tab.url else tab.pendingUrl
  }

  /** The duplicate key of a tab that takes part: not private, not pinned, and a non-empty key. */
  function KeyOf(parse: Parser, tab: Tab): (k: Option<string>)
    ensures k.Some? ==> !tab.incognito && !tab.pinned && k.value != ""
    ensures k.Some? ==> NormalizeUrlForDedup(parse, DedupUrl(tab)) == k
    ensures (!tab.incognito && !tab.pinned && NormalizeUrlForDedup(parse, DedupUrl(tab)).Some?
      && NormalizeUrlForDedup(parse, DedupUrl(tab)).value != "") ==> k == NormalizeUrlForDedup(parse, DedupUrl(tab))
  {
    if tab.incognito || tab.pinned then None
    else match NormalizeUrlForDedup(parse, DedupUrl(tab))
      case None => None
      case Some(k) => if k == "" then None else Some(k)
  }

  /** The walk of `closeDuplicateTabs`: the tabs closed so far and the keys seen so far. */
  datatype Walk = Walk(closed: seq<Tab>, seen: set<string>)

  function Dedup(parse: Parser, tabs: seq<Tab>): Walk {
    if tabs == [] then Walk([], {})
    else
      var w := Dedup(parse, tabs[..|tabs| - 1]);
      var t := tabs[|tabs| - 1];
      match KeyOf(parse, t)
      case None => w
      case Some(k) => if k in w.seen then Walk(w.closed + [t], w.seen) else Walk(w.closed, w.seen + {k})
  }

  /** The keys of the tabs that take part. */
  function KeySet(parse: Parser, tabs: seq<Tab>): set<string> {
    if tabs == [] then {}
    else KeySet(parse, tabs[..|tabs| - 1]) + match KeyOf(parse, tabs[|tabs| - 1]) case Some(k) => {k} case None => {}
  }

  /** The number of tabs that take part. */
  function Eligible(parse: Parser, tabs: seq<Tab>): (n: nat)
    ensures n <= |tabs|
  {
    if tabs == [] then 0 else Eligible(parse, tabs[..|tabs| - 1]) + (if KeyOf(parse, tabs[|tabs| - 1]).Some? then 1 else 0)
  }

  /**
   * The keys seen are exactly the keys of the tabs that take part, and each
   * of those tabs is either the first with its key (kept) or closed: the
   * closed tabs and the distinct keys add up to the tabs that take part.
   * No private or pinned tab, and no tab without a key, is closed.
   */
  lemma {:induction false} DedupFacts(parse: Parser, tabs: seq<Tab>)
    ensures Dedup(parse, tabs).seen == KeySet(parse, tabs)
    ensures |Dedup(parse, tabs).closed| + |KeySet(parse, tabs)| == Eligible(parse, tabs)
    ensures forall t :: t in Dedup(parse, tabs).closed ==> t in tabs && KeyOf(parse, t).Some?
  {
    if tabs != [] {
      DedupFacts(parse, tabs[..|tabs| - 1]);
      var w := Dedup(parse, tabs[..|tabs| - 1]);
      match KeyOf(parse, tabs[|tabs| - 1])
      case None =>
      case Some(k) =>
        if k !in w.seen {
          assert |w.seen + {k}| == |w.seen| + 1;
        }
    }
  }

  lemma DedupSnoc(parse: Parser, tabs: seq<Tab>, t: Tab)
    ensures Dedup(parse, tabs + [t]) ==
      match KeyOf(parse, t)
      case None => Dedup(parse, tabs)
      case Some(k) =>
        if k in Dedup(parse, tabs).seen then Walk(Dedup(parse, tabs).closed + [t], Dedup(parse, tabs).seen)
        else Walk(Dedup(parse, tabs).closed, Dedup(parse, tabs).seen + {k})
  {
    assert (tabs + [t])[..|tabs|] == tabs;
  }

  /** A tab whose key an earlier tab already had is closed; the first tab with a key is kept. */
  lemma DedupStep(parse: Parser, tabs: seq<Tab>, i: nat)
    requires i < |tabs|
    ensures KeyOf(parse, tabs[i]).Some? && KeyOf(parse, tabs[i]).value in KeySet(parse, tabs[..i]) ==>
      Dedup(parse, tabs[..i + 1]).closed == Dedup(parse, tabs[..i]).closed + [tabs[i]]
    ensures !(KeyOf(parse, tabs[i]).Some? && KeyOf(parse, tabs[i]).value in KeySet(parse, tabs[..i])) ==>
      Dedup(parse, tabs[..i + 1]).closed == Dedup(parse, tabs[..i]).closed
  {
    assert tabs[..i + 1][..i] == tabs[..i];
    DedupFacts(parse, tabs[..i]);
  }

  function DedupClose(parse: Parser, tabs: seq<Tab>): CloseResult {
    Gather(parse, Dedup(parse, tabs).closed)
  }

  /** `closeDuplicateTabs`, with the tab query, the removal and the statistics made explicit. */
  method CloseDuplicateTabs(parse: Parser, store: Store, tabs: seq<Tab>, now: int) returns (r: CloseResult, next: Store)
    ensures r == DedupClose(parse, tabs)
    ensures next == AfterClose(store, r, now)
  {
    var seen: set<string> := {};
    var toClose: seq<Option<int>> := [];
    var closedDomains: seq<string> := [];
    var closedTabs: seq<Snapshot> := [];
    var i := 0;
    while i < |tabs|
      invariant 0 <= i <= |tabs|
      invariant seen == Dedup(parse, tabs[..i]).seen
      invariant CloseResult(toClose, closedDomains, closedTabs) == Gather(parse, Dedup(parse, tabs[..i]).closed)
    {
      assert tabs[..i + 1][..i] == tabs[..i];
      var tab := tabs[i];
      if !(tab.incognito || tab.pinned) {
        var key := NormalizeUrlForDedup(parse, DedupUrl(tab));
        if key.Some? && key.value != "" {
          if key.value in seen {
            GatherStep(parse, Dedup(parse, tabs[..i]).closed, tab);
            toClose := toClose + [tab.id];
            var d := DomainFromUrl(parse, tab.url);
            if d.Some? && d.value != "" && d.value !in closedDomains {
              closedDomains := closedDomains + [d.value];
            }
            var snapshot := SerializeTab(tab);
            if snapshot.Some? {
              closedTabs := closedTabs + [snapshot.value];
            }
          } else {
            seen := seen + {key.value};
          }
        }
      }
      i := i + 1;
    }
    assert tabs[..i] == tabs;
    r := CloseResult(toClose, closedDomains, closedTabs);
    next := store;
    if |r.toClose| != 0 {
      next := Stats.StatsEat(store, |r.toClose|, [], now);
    }
  }

  /**
   * Of https://x.com/#a, https://x.com/#b and https://y.com only the second
   * is closed: it differs from the first only in its fragment.
   */
  lemma DedupExample(parse: Parser, a: Tab, b: Tab, c: Tab)
    requires parse("https://x.com/#a") == Some(Url("x.com", "https://x.com/", Some("a")))
    requires parse("https://x.com/#b") == Some(Url("x.com", "https://x.com/", Some("b")))
    requires parse("https://y.com") == Some(Url("y.com", "https://y.com/", None))
    requires a == Tab(Some(1), "https://x.com/#a", "", "", false, false, false, false, false, 0, None, None)
    requires b == Tab(Some(2), "https://x.com/#b", "", "", false, false, false, false, false, 0, None, None)
    requires c == Tab(Some(3), "https://y.com", "", "", false, false, false, false, false, 0, None, None)
    ensures Dedup(parse, [a, b, c]).closed == [b]
    ensures DedupClose(parse, [a, b, c]).toClose == [Some(2)]
  {
    var x := "https://x.com/";
    var y := "https://y.com/";
    assert x != y by {
      assert x[8] != y[8];
    }
    assert KeyOf(parse, a) == Some(x);
    assert KeyOf(parse, b) == Some(x);
    assert KeyOf(parse, c) == Some(y);
    assert Dedup(parse, [a]) == Walk([], {x});
    assert [a, b] == [a] + [b];
    DedupSnoc(parse, [a], b);
    assert Dedup(parse, [a, b]) == Walk([b], {x});
    assert [a, b, c] == [a, b] + [c];
    DedupSnoc(parse, [a, b], c);
    assert Dedup(parse, [a, b, c]).closed == [b];
    GatherShape(parse, [b]);
  }
}
