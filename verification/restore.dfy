/**
 * `restoreTabs` (src/shared/background.js:496-584): the snapshots handed
 * back by the user interface are cleaned, put in window-then-index order,
 * given an active flag each (the first active tab of each known window, and
 * one more active tab overall), and created one by one; a failed create that
 * named a window is tried once more without window and index.
 *
 * The host's `tabs.create` is an oracle `ok(i, retry)`: whether the create for
 * the `i`-th tab in creation order succeeds on its first attempt
 * (`retry == false`) or on its second one.
 */
module Restore {
  import opened Wrappers
  import opened Sorting
  import opened Tabs

  // ---------------------------------------------------------------- cleaning and order

  /**
   * The entries of the message's `tabs` array that can be restored, in order:
   * `None` stands for an entry that is not an object, and an empty `url` for
   * one that is missing, not a string or empty.
   */
  function Clean(input: seq<Option<Snapshot>>): (r: seq<Snapshot>)
    ensures |r| <= |input|
    ensures forall s :: s in r <==> Some(s) in input && s.url != ""
  {
    if input == [] then []
    else
      var prior := Clean(input[..|input| - 1]);
      var last := input[|input| - 1];
      assert input == input[..|input| - 1] + [last];
      if last.Some? && last.value.url != "" then prior + [last.value] else prior
  }

  /** `Number.MAX_SAFE_INTEGER`, the place of a missing window or index. */
  const MaxSafeInteger := 9007199254740991

  function WindowKey(s: Snapshot): int {
    s.windowId.GetOr(MaxSafeInteger)
  }

  function IndexKey(s: Snapshot): int {
    s.index.GetOr(MaxSafeInteger)
  }

  /** The comparator: by window, then by index, a missing one counting as `MaxSafeInteger`. */
  predicate RestoreLe(a: Snapshot, b: Snapshot) {
    if WindowKey(a) != WindowKey(b) then WindowKey(a) - WindowKey(b) <= 0 else IndexKey(a) - IndexKey(b) <= 0
  }

  lemma RestoreLeIsTotalPreorder()
    ensures TotalPreorder(RestoreLe)
  {
    forall a, b, c | RestoreLe(a, b) && RestoreLe(b, c)
      ensures RestoreLe(a, c)
    {
    }
  }

  /** The creation order: the cleaned snapshots sorted stably by window, then index. */
  function Ordered(input: seq<Option<Snapshot>>): seq<Snapshot> {
    SortBy(Clean(input), RestoreLe)
  }

  /**
   * Exactly the restorable entries are created, each as often as it occurs,
   * in ascending window order and, within a window, ascending index order;
   * snapshots without a window come last.
   */
  lemma OrderedFacts(input: seq<Option<Snapshot>>)
    ensures multiset(Ordered(input)) == multiset(Clean(input))
    ensures forall s :: s in Ordered(input) <==> Some(s) in input && s.url != ""
    ensures forall i, j :: 0 <= i < j < |Ordered(input)| ==>
      var a := Ordered(input)[i];
      var b := Ordered(input)[j];
      WindowKey(a) < WindowKey(b) || (WindowKey(a) == WindowKey(b) && IndexKey(a) <= IndexKey(b))
  {
    RestoreLeIsTotalPreorder();
    SortBySorted(Clean(input), RestoreLe);
    forall s
      ensures s in Ordered(input) <==> s in Clean(input)
    {
      assert s in Ordered(input) <==> s in multiset(Ordered(input));
    }
  }

  /** Each restorable snapshot is kept as often as it occurs, and nothing else is. */
  lemma {:induction false} CleanCounts(input: seq<Option<Snapshot>>)
    ensures forall s :: multiset(Clean(input))[s] == if s.url != "" then multiset(input)[Some(s)] else 0
  {
    if input != [] {
      CleanCounts(input[..|input| - 1]);
      assert input == input[..|input| - 1] + [input[|input| - 1]];
    }
  }

  /**
   * Snapshots with the same window and index keys are created in the order
   * in which they were given; this decides which of them takes the fallback
   * activation.
   */
  lemma OrderedStable(input: seq<Option<Snapshot>>, z: Snapshot)
    ensures Equivalents(Ordered(input), RestoreLe, z) == Equivalents(Clean(input), RestoreLe, z)
    ensures forall s :: RestoreLe(s, z) && RestoreLe(z, s) <==> WindowKey(s) == WindowKey(z) && IndexKey(s) == IndexKey(z)
  {
    RestoreLeIsTotalPreorder();
    SortByStable(Clean(input), RestoreLe, z);
  }

  // ---------------------------------------------------------------- activation

  /** How a tab comes to be created active, if it does. */
  datatype Activation = Stays | WindowFirst | Fallback

  /** `activatedWindows` and `activatedFallback`. */
  datatype Marks = Marks(windows: set<int>, fallbackUsed: bool)

  function Activate(m: Marks, s: Snapshot): (a: Activation)
    ensures a != Stays ==> s.active
    ensures a == WindowFirst <==> s.active && s.windowId.Some? && s.windowId.value !in m.windows
    ensures a == Fallback <==>
      s.active && !(s.windowId.Some? && s.windowId.value !in m.windows) && !m.fallbackUsed
  {
    if !s.active then Stays
    else if s.windowId.Some? && s.windowId.value !in m.windows then WindowFirst
    else if !m.fallbackUsed then Fallback
    else Stays
  }

  function Mark(m: Marks, s: Snapshot): Marks {
    match Activate(m, s)
    case WindowFirst => m.(windows := m.windows + {s.windowId.value})
    case Fallback => m.(fallbackUsed := true)
    case Stays => m
  }

  /** The marks once the tabs of `tabs` are created. */
  function MarksAfter(tabs: seq<Snapshot>): Marks {
    if tabs == [] then Marks({}, false) else Mark(MarksAfter(tabs[..|tabs| - 1]), tabs[|tabs| - 1])
  }

  /** How the `i`-th tab in creation order is activated. */
  function ActivationAt(tabs: seq<Snapshot>, i: nat): Activation
    requires i < |tabs|
  {
    Activate(MarksAfter(tabs[..i]), tabs[i])
  }

  /** The properties of a first attempt: `chrome.tabs.create`'s `url`, `active`, `windowId`, `index`, `pinned`. */
  datatype CreateProps = CreateProps(url: string, active: bool, windowId: Option<int>, index: Option<int>, pinned: bool)

  /** The first attempt for each tab in creation order. */
  function Plan(tabs: seq<Snapshot>): (r: seq<CreateProps>)
    ensures |r| == |tabs|
    ensures forall i :: 0 <= i < |tabs| ==>
      && r[i].url == tabs[i].url && r[i].pinned == tabs[i].pinned && r[i].windowId == tabs[i].windowId
      && r[i].index.Some? == tabs[i].index.Some?
      && (r[i].index.Some? ==> r[i].index.value == if tabs[i].index.value < 0 then 0 else tabs[i].index.value)
      && (r[i].active <==> ActivationAt(tabs, i) != Stays)
      && (r[i].active ==> tabs[i].active)
  {
    seq(|tabs|, i requires 0 <= i < |tabs| =>
      var s := tabs[i];
      CreateProps(s.url, ActivationAt(tabs, i) != Stays, s.windowId,
        match s.index case Some(x) => Some(if x < 0 then 0 else x) case None => None,
        s.pinned))
  }

  lemma MarksAfterStep(tabs: seq<Snapshot>, i: nat)
    requires i < |tabs|
    ensures MarksAfter(tabs[..i + 1]) == Mark(MarksAfter(tabs[..i]), tabs[i])
  {
    assert tabs[..i + 1][..i] == tabs[..i];
  }

  /** A window is marked exactly when an active-flagged tab in it has been created. */
  lemma {:induction false} MarksWindows(tabs: seq<Snapshot>)
    ensures forall w :: w in MarksAfter(tabs).windows <==>
      exists j :: 0 <= j < |tabs| && tabs[j].active && tabs[j].windowId == Some(w)
  {
    if tabs != [] {
      var init := tabs[..|tabs| - 1];
      MarksWindows(init);
      forall w
        ensures w in MarksAfter(tabs).windows <==> exists j :: 0 <= j < |tabs| && tabs[j].active && tabs[j].windowId == Some(w)
      {
        if exists j :: 0 <= j < |init| && init[j].active && init[j].windowId == Some(w) {
          var j :| 0 <= j < |init| && init[j].active && init[j].windowId == Some(w);
          assert tabs[j] == init[j];
        }
        if exists j :: 0 <= j < |tabs| && tabs[j].active && tabs[j].windowId == Some(w) {
          var j :| 0 <= j < |tabs| && tabs[j].active && tabs[j].windowId == Some(w);
          if j < |init| {
            assert init[j] == tabs[j];
          }
        }
      }
    }
  }

  /** A window is marked before the `i`-th tab exactly when an earlier active-flagged tab names it. */
  lemma MarkedBefore(tabs: seq<Snapshot>, i: nat, w: int)
    requires i <= |tabs|
    ensures w in MarksAfter(tabs[..i]).windows <==> exists j :: 0 <= j < i && tabs[j].active && tabs[j].windowId == Some(w)
  {
    MarksWindows(tabs[..i]);
    forall j | 0 <= j < i
      ensures tabs[..i][j] == tabs[j]
    {
    }
    if exists j :: 0 <= j < i && tabs[j].active && tabs[j].windowId == Some(w) {
      var j :| 0 <= j < i && tabs[j].active && tabs[j].windowId == Some(w);
      assert tabs[..i][j] == tabs[j];
    }
  }

  lemma ActivationAtPrefix(tabs: seq<Snapshot>, n: nat, i: nat)
    requires i < n <= |tabs|
    ensures ActivationAt(tabs[..n], i) == ActivationAt(tabs, i)
  {
    assert tabs[..n][..i] == tabs[..i];
  }

  /** The fallback is marked exactly when some tab created so far took it. */
  lemma {:induction false} MarksFallback(tabs: seq<Snapshot>)
    ensures MarksAfter(tabs).fallbackUsed <==> exists j :: 0 <= j < |tabs| && ActivationAt(tabs, j) == Fallback
  {
    if tabs != [] {
      var init := tabs[..|tabs| - 1];
      MarksFallback(init);
      assert tabs[..|init|] == init;
      assert ActivationAt(tabs, |init|) == Activate(MarksAfter(init), tabs[|init|]);
      if exists j :: 0 <= j < |init| && ActivationAt(init, j) == Fallback {
        var j :| 0 <= j < |init| && ActivationAt(init, j) == Fallback;
        ActivationAtPrefix(tabs, |init|, j);
      }
      if exists j :: 0 <= j < |tabs| && ActivationAt(tabs, j) == Fallback {
        var j :| 0 <= j < |tabs| && ActivationAt(tabs, j) == Fallback;
        if j < |init| {
          ActivationAtPrefix(tabs, |init|, j);
        }
      }
    }
  }

  /** The first active-flagged tab of each known window is created active. */
  lemma FirstOfWindowActive(tabs: seq<Snapshot>, i: nat, w: int)
    requires i < |tabs| && tabs[i].active && tabs[i].windowId == Some(w)
    requires forall j :: 0 <= j < i ==> !(tabs[j].active && tabs[j].windowId == Some(w))
    ensures ActivationAt(tabs, i) == WindowFirst
    ensures Plan(tabs)[i].active
  {
    MarkedBefore(tabs, i, w);
  }

  /** Two tabs activated as the first of their window are in different windows. */
  lemma OneFirstPerWindow(tabs: seq<Snapshot>, i: nat, j: nat)
    requires i < j < |tabs|
    requires ActivationAt(tabs, i) == WindowFirst && ActivationAt(tabs, j) == WindowFirst
    ensures tabs[i].windowId != tabs[j].windowId
  {
    var w := tabs[i].windowId.value;
    MarkedBefore(tabs, j, w);
    assert tabs[i].active && tabs[i].windowId == Some(w);
  }

  /** At most one tab takes the fallback. */
  lemma OneFallback(tabs: seq<Snapshot>, i: nat, j: nat)
    requires i < j < |tabs|
    ensures !(ActivationAt(tabs, i) == Fallback && ActivationAt(tabs, j) == Fallback)
  {
    MarksFallback(tabs[..j]);
    ActivationAtPrefix(tabs, j, i);
  }

  /**
   * A tab is activated as the first of its window exactly when it is
   * active-flagged, names a window, and no earlier active-flagged tab names
   * the same window.
   */
  lemma WindowFirstExactly(tabs: seq<Snapshot>, i: nat)
    requires i < |tabs|
    ensures ActivationAt(tabs, i) == WindowFirst <==>
      tabs[i].active && tabs[i].windowId.Some?
      && forall j :: 0 <= j < i ==> !(tabs[j].active && tabs[j].windowId == tabs[i].windowId)
  {
    if tabs[i].windowId.Some? {
      MarkedBefore(tabs, i, tabs[i].windowId.value);
    }
  }

  /** Once a tab has taken the fallback, a later tab is created active only as the first of its window. */
  lemma AfterFallbackInactive(tabs: seq<Snapshot>, i: nat, j: nat)
    requires j < i < |tabs| && ActivationAt(tabs, j) == Fallback
    ensures Plan(tabs)[i].active ==> ActivationAt(tabs, i) == WindowFirst
  {
    MarksFallback(tabs[..i]);
    ActivationAtPrefix(tabs, i, j);
  }

  /**
   * Two active-flagged snapshots of window 1 are both created active: the
   * second takes the fallback, so one window can get two active tabs.
   */
  lemma TwoActiveInOneWindow(a: Snapshot, b: Snapshot)
    requires a.active && b.active && a.windowId == Some(1) && b.windowId == Some(1)
    ensures ActivationAt([a, b], 0) == WindowFirst && ActivationAt([a, b], 1) == Fallback
    ensures Plan([a, b])[0].active && Plan([a, b])[1].active
  {
    assert [a, b][..0] == [] && [a, b][..1] == [a];
    assert MarksAfter([a]) == Marks({1}, false);
  }

  // ---------------------------------------------------------------- creating

  /** What the restore reports: the create calls made, in order, and `restoredCount`. */
  datatype Outcome = Outcome(calls: seq<CreateProps>, restoredCount: nat)

  /** The second attempt: url, pinned and the computed active flag, without window and index. */
  function Retry(p: CreateProps): CreateProps {
    CreateProps(p.url, p.active, None, None, p.pinned)
  }

  /** Whether the `i`-th create, with first attempt `p`, ends with a tab. */
  predicate Succeeded(ok: (nat, bool) -> bool, i: nat, p: CreateProps) {
    ok(i, false) || (p.windowId.Some? && ok(i, true))
  }

  /** The calls made for the `i`-th tab: the first attempt, and the retry when it failed and named a window. */
  function CallsFor(ok: (nat, bool) -> bool, i: nat, p: CreateProps): seq<CreateProps> {
    if !ok(i, false) && p.windowId.Some? then [p, Retry(p)] else [p]
  }

  /** Creating the tabs of `plan` in order; a failure never stops the later ones. */
  function Run(plan: seq<CreateProps>, ok: (nat, bool) -> bool): (o: Outcome)
    ensures o.restoredCount <= |plan| <= |o.calls|
  {
    if plan == [] then Outcome([], 0)
    else
      var n := |plan| - 1;
      var o := Run(plan[..n], ok);
      Outcome(o.calls + CallsFor(ok, n, plan[n]), o.restoredCount + if Succeeded(ok, n, plan[n]) then 1 else 0)
  }

  lemma RunStep(plan: seq<CreateProps>, ok: (nat, bool) -> bool, i: nat)
    requires i < |plan|
    ensures Run(plan[..i + 1], ok) ==
      Outcome(Run(plan[..i], ok).calls + CallsFor(ok, i, plan[i]),
        Run(plan[..i], ok).restoredCount + if Succeeded(ok, i, plan[i]) then 1 else 0)
  {
    assert plan[..i + 1][..i] == plan[..i];
  }

  /** The tabs whose create succeeded, first or second attempt. */
  function Successes(plan: seq<CreateProps>, ok: (nat, bool) -> bool): set<nat> {
    set i | 0 <= i < |plan| && Succeeded(ok, i, plan[i])
  }

  /** `restoredCount` is the number of tabs whose create succeeded, on the first attempt or the retry. */
  lemma {:induction false} RunCountsSuccesses(plan: seq<CreateProps>, ok: (nat, bool) -> bool)
    ensures Run(plan, ok).restoredCount == |Successes(plan, ok)|
  {
    if plan != [] {
      var n := |plan| - 1;
      RunCountsSuccesses(plan[..n], ok);
      var before := Successes(plan[..n], ok);
      var after := if Succeeded(ok, n, plan[n]) then before + {n} else before;
      forall i
        ensures i in Successes(plan, ok) <==> i in after
      {
        if 0 <= i < n {
          assert plan[..n][i] == plan[i];
        }
      }
      assert Successes(plan, ok) == after;
    }
  }

  /** With every first attempt succeeding, each tab is created once, as planned, and all are restored. */
  lemma {:induction false} RunAllSucceed(plan: seq<CreateProps>, ok: (nat, bool) -> bool)
    requires forall i :: 0 <= i < |plan| ==> ok(i, false)
    ensures Run(plan, ok) == Outcome(plan, |plan|)
  {
    if plan != [] {
      var n := |plan| - 1;
      RunAllSucceed(plan[..n], ok);
      assert plan == plan[..n] + [plan[n]];
    }
  }

  /** A plan that names no window is never retried: one call per tab. */
  lemma {:induction false} RunNoWindowNoRetry(plan: seq<CreateProps>, ok: (nat, bool) -> bool)
    requires forall i :: 0 <= i < |plan| ==> plan[i].windowId.None?
    ensures Run(plan, ok).calls == plan
  {
    if plan != [] {
      var n := |plan| - 1;
      RunNoWindowNoRetry(plan[..n], ok);
      assert plan == plan[..n] + [plan[n]];
    }
  }

  /** What `restoreTabs(tabs)` reports. */
  function Restored(input: seq<Option<Snapshot>>, ok: (nat, bool) -> bool): Outcome {
    if Clean(input) == [] then Outcome([], 0) else Run(Plan(Ordered(input)), ok)
  }

  /** The activation of one tab: whether it is created active, and the marks after it. */
  method ActivateNext(windows: set<int>, fallbackUsed: bool, tab: Snapshot)
    returns (active: bool, windows': set<int>, fallbackUsed': bool)
    ensures active <==> Activate(Marks(windows, fallbackUsed), tab) != Stays
    ensures Marks(windows', fallbackUsed') == Mark(Marks(windows, fallbackUsed), tab)
  {
    active, windows', fallbackUsed' := false, windows, fallbackUsed;
    if tab.active {
      if tab.windowId.Some? && tab.windowId.value !in windows {
        active := true;
        windows' := windows + {tab.windowId.value};
      } else if !fallbackUsed {
        active := true;
        fallbackUsed' := true;
      }
    }
  }

  /** One `tabs.create`, and its retry without window and index when it fails and named a window. */
  method CreateWithRetry(ok: (nat, bool) -> bool, i: nat, opts: CreateProps) returns (made: seq<CreateProps>, succeeded: bool)
    ensures made == CallsFor(ok, i, opts)
    ensures succeeded == Succeeded(ok, i, opts)
  {
    made := [opts];
    succeeded := ok(i, false);
    if !succeeded && opts.windowId.Some? {
      made := made + [Retry(opts)];
      succeeded := ok(i, true);
    }
  }

  /** The create loop, in creation order, keeping the marks and the count. */
  method CreateAll(ordered: seq<Snapshot>, ok: (nat, bool) -> bool) returns (o: Outcome)
    ensures o == Run(Plan(ordered), ok)
  {
    var activatedWindows: set<int> := {};
    var activatedFallback := false;
    var restored := 0;
    var calls: seq<CreateProps> := [];
    ghost var plan := Plan(ordered);
    var i := 0;
    while i < |ordered|
      invariant 0 <= i <= |ordered|
      invariant Marks(activatedWindows, activatedFallback) == MarksAfter(ordered[..i])
      invariant Outcome(calls, restored) == Run(plan[..i], ok)
    {
      MarksAfterStep(ordered, i);
      RunStep(plan, ok, i);
      var tab := ordered[i];
      var active;
      active, activatedWindows, activatedFallback := ActivateNext(activatedWindows, activatedFallback, tab);
      var opts := CreateProps(tab.url, active, tab.windowId,
        match tab.index case Some(x) => Some(if x < 0 then 0 else x) case None => None,
        tab.pinned);
      assert opts == plan[i];
      var made, succeeded := CreateWithRetry(ok, i, opts);
      calls := calls + made;
      if succeeded {
        restored := restored + 1;
      }
      i := i + 1;
    }
    assert plan[..i] == plan;
    o := Outcome(calls, restored);
  }

  /** `restoreTabs`, with the host's create calls made explicit. */
  method RestoreTabs(input: seq<Option<Snapshot>>, ok: (nat, bool) -> bool) returns (o: Outcome)
    ensures o == Restored(input, ok)
  {
    if |input| == 0 {
      return Outcome([], 0);
    }
    var cleaned := Clean(input);
    if |cleaned| == 0 {
      return Outcome([], 0);
    }
    var ordered := SortBy(cleaned, RestoreLe);
    o := CreateAll(ordered, ok);
  }

  /**
   * Nothing restorable gives `restoredCount` 0 and no call; otherwise at most
   * every restorable snapshot is restored, and all of them when every first
   * attempt succeeds.
   */
  lemma RestoredCounts(input: seq<Option<Snapshot>>, ok: (nat, bool) -> bool)
    ensures Clean(input) == [] ==> Restored(input, ok) == Outcome([], 0)
    ensures Restored(input, ok).restoredCount <= |Clean(input)|
    ensures (forall i :: 0 <= i < |Clean(input)| ==> ok(i, false)) ==>
      Restored(input, ok).restoredCount == |Clean(input)|
  {
    if Clean(input) != [] && forall i :: 0 <= i < |Clean(input)| ==> ok(i, false) {
      RunAllSucceed(Plan(Ordered(input)), ok);
    }
  }
}
