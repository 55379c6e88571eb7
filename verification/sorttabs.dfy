/**
 * `sortTabsByOpenCount` (src/shared/background.js:586-636): the tabs of the
 * current window, in index order, are counted per domain (pinned tabs
 * included); the unpinned ones are sorted by how many tabs their domain has,
 * resolvable domains before unresolvable ones, then by domain, then by their
 * original index, and moved one by one behind the pinned tabs.
 *
 * `String.prototype.localeCompare` is the parameter `collate`, and the host's
 * `tabs.move` an oracle `ok(i)`: whether moving the `i`-th sorted tab succeeds.
 */
module SortTabs {
  import opened Wrappers
  import opened Seqs
  import opened Sorting
  import opened Urls
  import opened Tabs

  /** `(a.index || 0) - (b.index || 0)`: the window order, a missing index counting as 0. */
  predicate PositionLe(a: Tab, b: Tab) {
    a.index.GetOr(0) - b.index.GetOr(0) <= 0
  }

  lemma PositionLeIsTotalPreorder()
    ensures TotalPreorder(PositionLe)
  {
  }

  /** `domainFromUrl(tab.url) || ""`. */
  function DomainKey(parse: Parser, tab: Tab): string {
    DomainFromUrl(parse, tab.url).GetOr("")
  }

  /** `{ tabId, domain, originalIndex }`, a missing index counting as `Number.MAX_SAFE_INTEGER`. */
  datatype Movable = Movable(tabId: Option<int>, domain: string, originalIndex: int)

  const MaxSafeInteger := 9007199254740991

  /** `domainCounts.get(d) || 0`. */
  function CountIn(counts: map<string, int>, d: string): int {
    if d in counts then counts[d] else 0
  }

  /** What the first loop builds: `domainCounts`, `movable` and `pinnedCount`. */
  datatype Split = Split(counts: map<string, int>, movable: seq<Movable>, pinnedCount: nat)

  function SplitStep(parse: Parser, sp: Split, tab: Tab): Split {
    var domain := DomainKey(parse, tab);
    var counts := sp.counts[domain := CountIn(sp.counts, domain) + 1];
    if tab.pinned then Split(counts, sp.movable, sp.pinnedCount + 1)
    else Split(counts, sp.movable + [Movable(tab.id, domain, tab.index.GetOr(MaxSafeInteger))], sp.pinnedCount)
  }

  function SplitOf(parse: Parser, tabs: seq<Tab>): Split {
    if tabs == [] then Split(map[], [], 0) else SplitStep(parse, SplitOf(parse, tabs[..|tabs| - 1]), tabs[|tabs| - 1])
  }

  lemma SplitOfStep(parse: Parser, tabs: seq<Tab>, i: nat)
    requires i < |tabs|
    ensures SplitOf(parse, tabs[..i + 1]) == SplitStep(parse, SplitOf(parse, tabs[..i]), tabs[i])
  {
    assert tabs[..i + 1][..i] == tabs[..i];
  }

  /** The domain of every tab, in order. */
  function DomainKeys(parse: Parser, tabs: seq<Tab>): (r: seq<string>)
    ensures |r| == |tabs| && forall i :: 0 <= i < |tabs| ==> r[i] == DomainKey(parse, tabs[i])
  {
    seq(|tabs|, i requires 0 <= i < |tabs| => DomainKey(parse, tabs[i]))
  }

  /** The number of pinned tabs. */
  function Pinned(tabs: seq<Tab>): (n: nat)
    ensures n <= |tabs|
  {
    if tabs == [] then 0 else Pinned(tabs[..|tabs| - 1]) + if tabs[|tabs| - 1].pinned then 1 else 0
  }

  /**
   * Every tab of the window, pinned or not, counts towards its domain; the
   * pinned ones are counted in `pinnedCount`, and each other one becomes a
   * movable entry, in order, with its id, its domain and its index.
   */
  lemma {:induction false} SplitFacts(parse: Parser, tabs: seq<Tab>)
    ensures forall d :: CountIn(SplitOf(parse, tabs).counts, d) == Occurrences(DomainKeys(parse, tabs), d)
    ensures SplitOf(parse, tabs).pinnedCount == Pinned(tabs)
    ensures |SplitOf(parse, tabs).movable| + Pinned(tabs) == |tabs|
  {
    if tabs != [] {
      var n := |tabs| - 1;
      SplitFacts(parse, tabs[..n]);
      assert DomainKeys(parse, tabs)[..n] == DomainKeys(parse, tabs[..n]);
    }
  }

  /** Each movable entry stands for an unpinned tab, in window order. */
  lemma {:induction false} MovableFromUnpinned(parse: Parser, tabs: seq<Tab>)
    ensures forall m :: m in SplitOf(parse, tabs).movable ==>
      exists t :: t in tabs && !t.pinned && m == Movable(t.id, DomainKey(parse, t), t.index.GetOr(MaxSafeInteger))
  {
    if tabs != [] {
      var n := |tabs| - 1;
      MovableFromUnpinned(parse, tabs[..n]);
      forall m | m in SplitOf(parse, tabs).movable
        ensures exists t :: t in tabs && !t.pinned && m == Movable(t.id, DomainKey(parse, t), t.index.GetOr(MaxSafeInteger))
      {
        if m in SplitOf(parse, tabs[..n]).movable {
          var t :| t in tabs[..n] && !t.pinned && m == Movable(t.id, DomainKey(parse, t), t.index.GetOr(MaxSafeInteger));
          assert t in tabs;
        }
      }
    }
  }

  /** The partitioning loop over the tabs in window order. */
  method Partition(parse: Parser, ordered: seq<Tab>) returns (sp: Split)
    ensures sp == SplitOf(parse, ordered)
  {
    var domainCounts: map<string, int> := map[];
    var movable: seq<Movable> := [];
    var pinnedCount := 0;
    var i := 0;
    while i < |ordered|
      invariant 0 <= i <= |ordered|
      invariant Split(domainCounts, movable, pinnedCount) == SplitOf(parse, ordered[..i])
    {
      SplitOfStep(parse, ordered, i);
      var tab := ordered[i];
      var domain := DomainKey(parse, tab);
      domainCounts := domainCounts[domain := CountIn(domainCounts, domain) + 1];
      if tab.pinned {
        pinnedCount := pinnedCount + 1;
      } else {
        movable := movable + [Movable(tab.id, domain, tab.index.GetOr(MaxSafeInteger))];
      }
      i := i + 1;
    }
    assert ordered[..i] == ordered;
    sp := Split(domainCounts, movable, pinnedCount);
  }

  // ---------------------------------------------------------------- the comparator

  /**
   * `localeCompare` behaves as a comparator: swapping the arguments flips the
   * sign, and "not after" and "same place" are transitive.
   */
  ghost predicate Collation(collate: (string, string) -> int) {
    && (forall a, b :: collate(a, b) < 0 <==> collate(b, a) > 0)
    && (forall a, b, c :: collate(a, b) <= 0 && collate(b, c) <= 0 ==> collate(a, c) <= 0)
    && (forall a, b, c :: collate(a, b) == 0 && collate(b, c) == 0 ==> collate(a, c) == 0)
  }

  /**
   * The four-key comparator, as "a may stay before b": more tabs on the
   * domain first; then a resolvable domain before an empty one; then the
   * collation order of the domains; then the original index.
   */
  predicate MoveLe(counts: map<string, int>, collate: (string, string) -> int, a: Movable, b: Movable) {
    var countDiff := CountIn(counts, b.domain) - CountIn(counts, a.domain);
    if countDiff != 0 then countDiff < 0
    else if a.domain == "" && b.domain != "" then false
    else if a.domain != "" && b.domain == "" then true
    else if collate(a.domain, b.domain) != 0 then collate(a.domain, b.domain) < 0
    else a.originalIndex - b.originalIndex <= 0
  }

  /** With a consistent collation the comparator is a total preorder, so the sort orders by it. */
  lemma MoveLeIsTotalPreorder(counts: map<string, int>, collate: (string, string) -> int)
    requires Collation(collate)
    ensures TotalPreorder((a, b) => MoveLe(counts, collate, a, b))
  {
    var le := (a, b) => MoveLe(counts, collate, a, b);
    forall a, b
      ensures le(a, b) || le(b, a)
    {
      assert collate(a.domain, b.domain) < 0 <==> collate(b.domain, a.domain) > 0;
      assert collate(b.domain, a.domain) < 0 <==> collate(a.domain, b.domain) > 0;
    }
    forall a, b, c | le(a, b) && le(b, c)
      ensures le(a, c)
    {
      MoveLeTransitive(counts, collate, a, b, c);
    }
  }

  lemma MoveLeTransitive(counts: map<string, int>, collate: (string, string) -> int, a: Movable, b: Movable, c: Movable)
    requires Collation(collate)
    requires MoveLe(counts, collate, a, b) && MoveLe(counts, collate, b, c)
    ensures MoveLe(counts, collate, a, c)
  {
    var x, y, z := a.domain, b.domain, c.domain;
    assert collate(x, y) < 0 <==> collate(y, x) > 0;
    assert collate(y, z) < 0 <==> collate(z, y) > 0;
    assert collate(x, z) < 0 <==> collate(z, x) > 0;
    assert collate(y, x) < 0 <==> collate(x, y) > 0;
    assert collate(z, y) < 0 <==> collate(y, z) > 0;
    assert collate(z, x) < 0 <==> collate(x, z) > 0;
  }

  /** The movable tabs in the order they are moved. */
  function SortedMovable(counts: map<string, int>, collate: (string, string) -> int, movable: seq<Movable>): seq<Movable> {
    SortBy(movable, (a, b) => MoveLe(counts, collate, a, b))
  }

  /**
   * The moved order is a reordering of the movable tabs in which a domain
   * with more tabs never follows one with fewer, and among domains with as
   * many tabs an empty domain never precedes a resolvable one; domains of the
   * same kind follow the collation, and tabs of one domain (or of collating
   * domains) keep the order of their original indices.
   */
  lemma SortedMovableOrder(counts: map<string, int>, collate: (string, string) -> int, movable: seq<Movable>)
    requires Collation(collate)
    ensures multiset(SortedMovable(counts, collate, movable)) == multiset(movable)
    ensures var s := SortedMovable(counts, collate, movable);
      forall i, j :: 0 <= i < j < |s| ==>
        && CountIn(counts, s[i].domain) >= CountIn(counts, s[j].domain)
        && (CountIn(counts, s[i].domain) == CountIn(counts, s[j].domain) && s[j].domain != "" ==> s[i].domain != "")
    ensures var s := SortedMovable(counts, collate, movable);
      forall i, j :: (0 <= i < j < |s| && CountIn(counts, s[i].domain) == CountIn(counts, s[j].domain)
        && (s[i].domain == "") == (s[j].domain == "")) ==>
        && collate(s[i].domain, s[j].domain) <= 0
        && (collate(s[i].domain, s[j].domain) == 0 ==> s[i].originalIndex <= s[j].originalIndex)
  {
    MoveLeIsTotalPreorder(counts, collate);
    SortBySorted(movable, (a, b) => MoveLe(counts, collate, a, b));
    var s := SortedMovable(counts, collate, movable);
    MoveLeCountKeys(counts, collate, s);
    MoveLeTieKeys(counts, collate, s);
  }

  /** In a sequence ordered by the comparator, counts never increase and "" never precedes a domain of equal count. */
  lemma MoveLeCountKeys(counts: map<string, int>, collate: (string, string) -> int, s: seq<Movable>)
    requires SortedBy(s, (a, b) => MoveLe(counts, collate, a, b))
    ensures forall i, j :: 0 <= i < j < |s| ==>
      && CountIn(counts, s[i].domain) >= CountIn(counts, s[j].domain)
      && (CountIn(counts, s[i].domain) == CountIn(counts, s[j].domain) && s[j].domain != "" ==> s[i].domain != "")
  {
    forall i, j | 0 <= i < j < |s|
      ensures CountIn(counts, s[i].domain) >= CountIn(counts, s[j].domain)
      ensures CountIn(counts, s[i].domain) == CountIn(counts, s[j].domain) && s[j].domain != "" ==> s[i].domain != ""
    {
      assert MoveLe(counts, collate, s[i], s[j]);
    }
  }

  /** In a sequence ordered by the comparator, ties on count and kind follow the collation, then the original index. */
  lemma MoveLeTieKeys(counts: map<string, int>, collate: (string, string) -> int, s: seq<Movable>)
    requires SortedBy(s, (a, b) => MoveLe(counts, collate, a, b))
    ensures forall i, j :: (0 <= i < j < |s| && CountIn(counts, s[i].domain) == CountIn(counts, s[j].domain)
      && (s[i].domain == "") == (s[j].domain == "")) ==>
      && collate(s[i].domain, s[j].domain) <= 0
      && (collate(s[i].domain, s[j].domain) == 0 ==> s[i].originalIndex <= s[j].originalIndex)
  {
    forall i, j | (0 <= i < j < |s| && CountIn(counts, s[i].domain) == CountIn(counts, s[j].domain)
      && (s[i].domain == "") == (s[j].domain == ""))
      ensures collate(s[i].domain, s[j].domain) <= 0
      ensures collate(s[i].domain, s[j].domain) == 0 ==> s[i].originalIndex <= s[j].originalIndex
    {
      assert MoveLe(counts, collate, s[i], s[j]);
    }
  }

  // ---------------------------------------------------------------- moving

  /** A `tabs.move(tabId, { index })` call. */
  datatype Move = Move(tabId: int, index: int)

  /** The moves made and `sortedCount`. */
  datatype SortOutcome = SortOutcome(moves: seq<Move>, sortedCount: nat)

  /** Moving the `i`-th sorted tab to `pinnedCount + i`, skipping those without a numeric id. */
  function Moves(sorted: seq<Movable>, pinnedCount: nat, ok: nat -> bool): (o: SortOutcome)
    ensures o.sortedCount <= |o.moves| <= |sorted|
  {
    if sorted == [] then SortOutcome([], 0)
    else
      var n := |sorted| - 1;
      var o := Moves(sorted[..n], pinnedCount, ok);
      match sorted[n].tabId
      case None => o
      case Some(id) => SortOutcome(o.moves + [Move(id, pinnedCount + n)], o.sortedCount + if ok(n) then 1 else 0)
  }

  lemma MovesStep(sorted: seq<Movable>, pinnedCount: nat, ok: nat -> bool, i: nat)
    requires i < |sorted|
    ensures Moves(sorted[..i + 1], pinnedCount, ok) ==
      match sorted[i].tabId
      case None => Moves(sorted[..i], pinnedCount, ok)
      case Some(id) =>
        SortOutcome(Moves(sorted[..i], pinnedCount, ok).moves + [Move(id, pinnedCount + i)],
          Moves(sorted[..i], pinnedCount, ok).sortedCount + if ok(i) then 1 else 0)
  {
    assert sorted[..i + 1][..i] == sorted[..i];
  }

  /** Every sorted tab with a numeric id is moved to its place behind the pinned tabs. */
  lemma {:induction false} MovesCover(sorted: seq<Movable>, pinnedCount: nat, ok: nat -> bool)
    ensures forall i :: 0 <= i < |sorted| && sorted[i].tabId.Some? ==>
      Move(sorted[i].tabId.value, pinnedCount + i) in Moves(sorted, pinnedCount, ok).moves
  {
    if sorted != [] {
      var n := |sorted| - 1;
      MovesCover(sorted[..n], pinnedCount, ok);
      forall i | 0 <= i < n && sorted[i].tabId.Some?
        ensures Move(sorted[i].tabId.value, pinnedCount + i) in Moves(sorted, pinnedCount, ok).moves
      {
        assert sorted[..n][i] == sorted[i];
      }
    }
  }

  /** The moves fit the sorted order: see `TargetsFit`. */
  lemma {:induction false} MovesTargets(sorted: seq<Movable>, pinnedCount: nat, ok: nat -> bool)
    ensures TargetsFit(Moves(sorted, pinnedCount, ok).moves, sorted, pinnedCount)
  {
    if sorted != [] {
      var n := |sorted| - 1;
      var prefix := sorted[..n];
      MovesTargets(prefix, pinnedCount, ok);
      var ms := Moves(prefix, pinnedCount, ok).moves;
      TargetsFitExtend(ms, sorted, pinnedCount);
      match sorted[n].tabId
      case None =>
      case Some(id) =>
        assert Moves(sorted, pinnedCount, ok).moves == ms + [Move(id, pinnedCount + n)];
        TargetsFitSnoc(ms, sorted, pinnedCount, id);
    }
  }

  /** Moves that fit a prefix of the sorted list fit the whole list. */
  lemma TargetsFitExtend(ms: seq<Move>, sorted: seq<Movable>, pinnedCount: nat)
    requires sorted != []
    requires TargetsFit(ms, sorted[..|sorted| - 1], pinnedCount)
    ensures TargetsFit(ms, sorted, pinnedCount)
    ensures forall k :: 0 <= k < |ms| ==> ms[k].index < pinnedCount + |sorted| - 1
  {
    var prefix := sorted[..|sorted| - 1];
    forall k | 0 <= k < |ms|
      ensures sorted[ms[k].index - pinnedCount] == prefix[ms[k].index - pinnedCount]
    {
    }
  }

  /** Moving the last sorted tab to the last place keeps the moves fitting. */
  lemma TargetsFitSnoc(ms: seq<Move>, sorted: seq<Movable>, pinnedCount: nat, id: int)
    requires sorted != [] && sorted[|sorted| - 1].tabId == Some(id)
    requires TargetsFit(ms, sorted, pinnedCount)
    requires forall k :: 0 <= k < |ms| ==> ms[k].index < pinnedCount + |sorted| - 1
    ensures TargetsFit(ms + [Move(id, pinnedCount + |sorted| - 1)], sorted, pinnedCount)
  {
    var ms' := ms + [Move(id, pinnedCount + |sorted| - 1)];
    forall k | 0 <= k < |ms|
      ensures ms'[k] == ms[k]
    {
    }
  }

  /**
   * Every move targets an index in `[pinnedCount, pinnedCount + |sorted|)`,
   * so no pinned tab is displaced; targets strictly increase, so no two
   * moves share one; each move carries the id of the tab sorted to that place.
   */
  predicate TargetsFit(ms: seq<Move>, sorted: seq<Movable>, pinnedCount: nat) {
    && (forall k :: 0 <= k < |ms| ==> pinnedCount <= ms[k].index < pinnedCount + |sorted|)
    && (forall k :: 0 <= k < |ms| ==> sorted[ms[k].index - pinnedCount].tabId == Some(ms[k].tabId))
    && (forall k, l :: 0 <= k < l < |ms| ==> ms[k].index < ms[l].index)
  }

  /** `sortedCount` counts the tabs with a numeric id whose move succeeded. */
  lemma {:induction false} MovesCount(sorted: seq<Movable>, pinnedCount: nat, ok: nat -> bool)
    ensures Moves(sorted, pinnedCount, ok).sortedCount ==
      |set i | 0 <= i < |sorted| && sorted[i].tabId.Some? && ok(i)|
  {
    if sorted != [] {
      var n := |sorted| - 1;
      MovesCount(sorted[..n], pinnedCount, ok);
      var before := set i | 0 <= i < n && sorted[..n][i].tabId.Some? && ok(i);
      var all := set i | 0 <= i < |sorted| && sorted[i].tabId.Some? && ok(i);
      var after := if sorted[n].tabId.Some? && ok(n) then before + {n} else before;
      forall i
        ensures i in all <==> i in after
      {
        if 0 <= i < n {
          assert sorted[..n][i] == sorted[i];
        }
      }
      assert all == after;
    }
  }

  /** The moving loop. */
  method MoveAll(sorted: seq<Movable>, pinnedCount: nat, ok: nat -> bool) returns (o: SortOutcome)
    ensures o == Moves(sorted, pinnedCount, ok)
  {
    var moves: seq<Move> := [];
    var moved := 0;
    var i := 0;
    while i < |sorted|
      invariant 0 <= i <= |sorted|
      invariant SortOutcome(moves, moved) == Moves(sorted[..i], pinnedCount, ok)
    {
      MovesStep(sorted, pinnedCount, ok, i);
      var targetIndex := pinnedCount + i;
      var tabId := sorted[i].tabId;
      if tabId.Some? {
        moves := moves + [Move(tabId.value, targetIndex)];
        if ok(i) {
          moved := moved + 1;
        }
      }
      i := i + 1;
    }
    assert sorted[..i] == sorted;
    o := SortOutcome(moves, moved);
  }

  /** What `sortTabsByOpenCount()` does with the tabs of the current window. */
  function SortResult(parse: Parser, tabs: seq<Tab>, collate: (string, string) -> int, ok: nat -> bool): SortOutcome {
    if |tabs| <= 1 then SortOutcome([], 0)
    else
      var sp := SplitOf(parse, SortBy(tabs, PositionLe));
      if |sp.movable| <= 1 then SortOutcome([], 0)
      else Moves(SortedMovable(sp.counts, collate, sp.movable), sp.pinnedCount, ok)
  }

  /** `sortTabsByOpenCount`, with the tab query, `localeCompare` and the moves made explicit. */
  method SortTabsByOpenCount(parse: Parser, tabs: seq<Tab>, collate: (string, string) -> int, ok: nat -> bool)
    returns (o: SortOutcome)
    ensures o == SortResult(parse, tabs, collate, ok)
  {
    if |tabs| <= 1 {
      return SortOutcome([], 0);
    }
    var ordered := SortBy(tabs, PositionLe);
    var sp := Partition(parse, ordered);
    if |sp.movable| <= 1 {
      return SortOutcome([], 0);
    }
    var sorted := SortedMovable(sp.counts, collate, sp.movable);
    o := MoveAll(sorted, sp.pinnedCount, ok);
  }

  /** A window with at most one tab, or at most one unpinned tab, is left alone. */
  lemma SortResultNothingToDo(parse: Parser, tabs: seq<Tab>, collate: (string, string) -> int, ok: nat -> bool)
    requires |tabs| <= 1 || Pinned(tabs) + 1 >= |tabs|
    ensures SortResult(parse, tabs, collate, ok) == SortOutcome([], 0)
  {
    PinnedSortBy(tabs, PositionLe);
    SplitFacts(parse, SortBy(tabs, PositionLe));
  }

  /**
   * Every move lands behind the pinned tabs, on a distinct index among the
   * places of the unpinned tabs, and `sortedCount` is at most the number of
   * unpinned tabs.
   */
  lemma SortResultMoves(parse: Parser, tabs: seq<Tab>, collate: (string, string) -> int, ok: nat -> bool)
    ensures var ms := SortResult(parse, tabs, collate, ok).moves;
      && (forall k :: 0 <= k < |ms| ==> Pinned(tabs) <= ms[k].index < |tabs|)
      && (forall k, l :: 0 <= k < l < |ms| ==> ms[k].index < ms[l].index)
    ensures SortResult(parse, tabs, collate, ok).sortedCount <= |tabs| - Pinned(tabs)
  {
    var ordered := SortBy(tabs, PositionLe);
    PinnedSortBy(tabs, PositionLe);
    SplitFacts(parse, ordered);
    var sp := SplitOf(parse, ordered);
    if |tabs| > 1 && |sp.movable| > 1 {
      var sorted := SortedMovable(sp.counts, collate, sp.movable);
      MovesTargets(sorted, sp.pinnedCount, ok);
    }
  }

  /** The movable tabs of the window in the order they are moved. */
  function MoveOrder(parse: Parser, tabs: seq<Tab>, collate: (string, string) -> int): seq<Movable> {
    var sp := SplitOf(parse, SortBy(tabs, PositionLe));
    SortedMovable(sp.counts, collate, sp.movable)
  }

  /**
   * When the window is sorted, every movable tab with a numeric id is moved
   * to the pinned count plus its place in the sorted order.
   */
  lemma SortResultCovers(parse: Parser, tabs: seq<Tab>, collate: (string, string) -> int, ok: nat -> bool)
    ensures var sorted := MoveOrder(parse, tabs, collate);
      var ms := SortResult(parse, tabs, collate, ok).moves;
      |tabs| > 1 && |sorted| > 1 ==>
        forall i :: 0 <= i < |sorted| && sorted[i].tabId.Some? ==>
          exists k :: 0 <= k < |ms| && ms[k] == Move(sorted[i].tabId.value, Pinned(tabs) + i)
  {
    var sorted := MoveOrder(parse, tabs, collate);
    if |tabs| > 1 && |sorted| > 1 {
      SortResultIsMoves(parse, tabs, collate, ok);
      var o := SortResult(parse, tabs, collate, ok);
      forall i | 0 <= i < |sorted| && sorted[i].tabId.Some?
        ensures exists k :: 0 <= k < |o.moves| && o.moves[k] == Move(sorted[i].tabId.value, Pinned(tabs) + i)
      {
        var k := MoveIndex(o, sorted, Pinned(tabs), ok, i);
      }
    }
  }

  /** The place in the moves list of the move of the `i`-th sorted tab. */
  lemma MoveIndex(o: SortOutcome, sorted: seq<Movable>, pinnedCount: nat, ok: nat -> bool, i: nat) returns (k: nat)
    requires o == Moves(sorted, pinnedCount, ok)
    requires i < |sorted| && sorted[i].tabId.Some?
    ensures k < |o.moves| && o.moves[k] == Move(sorted[i].tabId.value, pinnedCount + i)
  {
    MovesCover(sorted, pinnedCount, ok);
    k :| 0 <= k < |o.moves| && o.moves[k] == Move(sorted[i].tabId.value, pinnedCount + i);
  }

  lemma SortResultIsMoves(parse: Parser, tabs: seq<Tab>, collate: (string, string) -> int, ok: nat -> bool)
    requires |tabs| > 1 && |MoveOrder(parse, tabs, collate)| > 1
    ensures SortResult(parse, tabs, collate, ok) == Moves(MoveOrder(parse, tabs, collate), Pinned(tabs), ok)
  {
    OrderedPinned(parse, tabs);
  }

  /** The pinned count of the ordered window is the number of pinned tabs. */
  lemma OrderedPinned(parse: Parser, tabs: seq<Tab>)
    ensures SplitOf(parse, SortBy(tabs, PositionLe)).pinnedCount == Pinned(tabs)
  {
    PinnedSortBy(tabs, PositionLe);
    SplitFacts(parse, SortBy(tabs, PositionLe));
  }

  lemma {:induction false} PinnedConcat(a: seq<Tab>, b: seq<Tab>)
    ensures Pinned(a + b) == Pinned(a) + Pinned(b)
  {
    if b != [] {
      var n := |b| - 1;
      PinnedConcat(a, b[..n]);
      assert (a + b)[..|a + b| - 1] == a + b[..n];
      assert (a + b)[|a + b| - 1] == b[n];
    } else {
      assert a + b == a;
    }
  }

  lemma {:induction false} PinnedInsert(x: Tab, s: seq<Tab>, le: (Tab, Tab) -> bool)
    ensures Pinned(Insert(x, s, le)) == Pinned(s) + if x.pinned then 1 else 0
  {
    PinnedConcat([x], s);
    if s != [] && !le(x, s[0]) {
      PinnedInsert(x, s[1..], le);
      PinnedConcat([s[0]], Insert(x, s[1..], le));
      PinnedConcat([s[0]], s[1..]);
      assert s == [s[0]] + s[1..];
    }
  }

  /** Sorting the tabs keeps the number of pinned ones. */
  lemma {:induction false} PinnedSortBy(s: seq<Tab>, le: (Tab, Tab) -> bool)
    ensures Pinned(SortBy(s, le)) == Pinned(s)
  {
    if s != [] {
      PinnedSortBy(s[1..], le);
      PinnedInsert(s[0], SortBy(s[1..], le), le);
      PinnedConcat([s[0]], s[1..]);
      assert s == [s[0]] + s[1..];
    }
  }
}
