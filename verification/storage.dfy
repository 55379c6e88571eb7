/**
 * The three records the background scripts keep in the host's key-value
 * storage, as one value that operations take and return: "pc.settings",
 * "pc.history" (an absent list reads as empty) and "pc.stats" (absent until
 * first written).
 */
module Storage {
  import opened Wrappers
  import opened Settings

  /** Closings of one domain: how many, and when the last one was. */
  datatype HistoryEntry = HistoryEntry(domain: string, count: int, lastClosedAt: int)

  /** Tabs eaten on one domain. */
  datatype DomainCount = DomainCount(domain: string, count: int)

  datatype StatsRecord = StatsRecord(totalTabsEaten: int, byDomain: seq<DomainCount>, startedAt: int)

  datatype Store = Store(settings: Settings, history: seq<HistoryEntry>, stats: Option<StatsRecord>)
}
