/**
 * The settings record stored under "pc.settings": a flat object whose values
 * are booleans, numbers or strings, always read merged over a table of
 * defaults (`{ ...DEFAULTS, ...stored }`). The two background scripts carry
 * different default tables.
 */
module Settings {
  import opened Wrappers

  datatype Value = Bool(b: bool) | Num(n: int) | Text(s: string)

  /** A settings object: key to value; a missing key reads as `undefined`. */
  type Settings = map<string, Value>

  /** JavaScript truthiness. */
  predicate Truthy(v: Value) {
    match v
    case Bool(b) => b
    case Num(n) => n != 0
    case Text(s) => s != ""
  }

  /** `Number(v)`, with `None` for NaN; a string is read as NaN. */
  function NumberOf(v: Value): Option<int> {
    match v
    case Bool(b) => Some(if b then 1 else 0)
    case Num(n) => Some(n)
    case Text(_) => None
  }

  /** `cfg[k]`. */
  function Get(s: Settings, k: string): Option<Value> {
    if k in s then Some(s[k]) else None
  }

  /** `if (cfg[k])`. */
  predicate Flag(s: Settings, k: string) {
    k in s && Truthy(s[k])
  }

  /** `Number(cfg[k])`, `None` for NaN (an absent key reads as `undefined`, which is NaN). */
  function NumberSetting(s: Settings, k: string): Option<int> {
    if k in s then NumberOf(s[k]) else None
  }

  /** The defaults of src/shared/background.js:3-11. */
  const BackgroundDefaults: Settings := map[
    "enableInactiveSuggestion" := Bool(true),
    "inactiveThresholdMinutes" := Num(120),
    "suggestMinOpenTabsPerDomain" := Num(1),
    "decayDays" := Num(14),
    "maxHistory" := Num(100000),
    "showQuickActions" := Bool(true),
    "theme" := Text("light")
  ]

  /** The defaults of src/shared/background.suggestions.js:10-21. */
  const Defaults: Settings := map[
    "enableSuggestions" := Bool(true),
    "enableInactiveSuggestion" := Bool(true),
    "inactiveThresholdMinutes" := Num(60),
    "suggestMinOpenTabsPerDomain" := Num(1),
    "decayDays" := Num(14),
    "maxHistory" := Num(200),
    "trackHistory" := Bool(true),
    "trackStats" := Bool(true),
    "theme" := Text("auto"),
    "showTabsEatenInHeader" := Bool(true)
  ]

  /**
   * `normalizeSettings` (src/shared/background.js:13-17): the stored record over
   * the background defaults, with "enableSuggestions" deleted.
   */
  function NormalizeSettings(raw: Settings): (r: Settings)
    ensures "enableSuggestions" !in r
    ensures forall k :: k != "enableSuggestions" ==> (k in r <==> k in raw || k in BackgroundDefaults)
    ensures forall k :: k in r ==> r[k] == if k in raw then raw[k] else BackgroundDefaults[k]
  {
    (BackgroundDefaults + raw) - {"enableSuggestions"}
  }

  /**
   * `getSettings` (src/shared/background.suggestions.js:36-39): every key of the
   * stored record overrides the default of that key; the other defaults stay.
   */
  function GetSettings(stored: Settings): (r: Settings)
    ensures forall k :: k in r <==> k in stored || k in Defaults
    ensures forall k :: k in stored ==> r[k] == stored[k]
    ensures forall k :: k in Defaults && k !in stored ==> r[k] == Defaults[k]
  {
    Defaults + stored
  }

  /**
   * `updateSettings` (src/shared/background.suggestions.js:40-44): the record
   * written back is the merged settings overridden key by key by the patch.
   */
  function UpdateSettings(stored: Settings, patch: Settings): (next: Settings)
    ensures forall k :: k in patch ==> k in next && next[k] == patch[k]
    ensures forall k :: k !in patch ==> Get(next, k) == Get(GetSettings(stored), k)
  {
    GetSettings(stored) + patch
  }

  /** Reading the settings back after an update gives exactly the record written. */
  lemma ReadAfterUpdate(stored: Settings, patch: Settings)
    ensures GetSettings(UpdateSettings(stored, patch)) == UpdateSettings(stored, patch)
  {
  }

  /** An empty patch leaves every setting reading as it did. */
  lemma EmptyPatchKeepsSettings(stored: Settings)
    ensures GetSettings(UpdateSettings(stored, map[])) == GetSettings(stored)
  {
  }

  /**
   * `Math.max(1, Number(v) || 30)`: minutes of idleness before a tab counts as
   * inactive; 30 when the setting is 0 or not a number, at least 1.
   */
  function ThresholdMinutes(s: Settings): (m: int)
    ensures m >= 1
    ensures NumberSetting(s, "inactiveThresholdMinutes") in {None, Some(0)} ==> m == 30
    ensures forall n :: NumberSetting(s, "inactiveThresholdMinutes") == Some(n) && n != 0 ==>
      m == if n < 1 then 1 else n
  {
    match NumberSetting(s, "inactiveThresholdMinutes")
    case Some(n) => if n == 0 then 30 else if n < 1 then 1 else n
    case None => 30
  }

  /** `thresholdMinutes * 60000`: the same threshold in milliseconds. */
  function ThresholdMs(s: Settings): (ms: int)
    ensures ms >= 60000
  {
    ThresholdMinutes(s) * 60000
  }

  /**
   * With nothing stored, closing inactive tabs waits 120 minutes while the
   * suggestion engine counts a tab inactive after 60: the two default tables differ.
   */
  lemma DefaultThresholds()
    ensures ThresholdMs(NormalizeSettings(map[])) == 120 * 60000
    ensures ThresholdMs(GetSettings(map[])) == 60 * 60000
  {
    assert NormalizeSettings(map[])["inactiveThresholdMinutes"] == Num(120);
    assert GetSettings(map[])["inactiveThresholdMinutes"] == Num(60);
  }
}
