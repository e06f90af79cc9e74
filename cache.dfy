/** ResultsCache of scraper.py, in memory: company name to the emails found
    and the time they were found. Loading and saving the JSON file are not
    part of this model. */
module Cache {
  import opened Wrappers

  const MillisPerDay: int := 86_400_000

  /** The default `expire_days`. */
  const DefaultExpireDays: int := 7

  datatype Entry = Entry(emails: seq<string>, timestamp: int)

  /** An entry is usable while less than `expireDays` days have passed since it was written. */
  predicate Fresh(e: Entry, now: int, expireDays: int) {
    now - e.timestamp < expireDays * MillisPerDay
  }

  /** `get` on a snapshot of the store. */
  function Lookup(entries: map<string, Entry>, company: string, now: int, expireDays: int): Option<seq<string>> {
    if company in entries && Fresh(entries[company], now, expireDays) then Some(entries[company].emails)
    else None
  }

  /** A `set` followed by a `get` at the same time returns what was set,
      as long as entries live for some positive number of days. */
  lemma SetThenGet(entries: map<string, Entry>, company: string, emails: seq<string>, now: int, expireDays: int)
    requires expireDays > 0
    ensures Lookup(entries[company := Entry(emails, now)], company, now, expireDays) == Some(emails)
  {
  }

  /** A `set` leaves every other company's answer as it was. */
  lemma SetKeepsOthers(entries: map<string, Entry>, company: string, emails: seq<string>, stamp: int,
                       other: string, now: int, expireDays: int)
    requires other != company
    ensures Lookup(entries[company := Entry(emails, stamp)], other, now, expireDays)
         == Lookup(entries, other, now, expireDays)
  {
  }

  /** Once an entry has expired it stays expired; before that it was fresh. */
  lemma ExpiryIsPermanent(entries: map<string, Entry>, company: string, t1: int, t2: int, expireDays: int)
    requires t1 <= t2
    ensures Lookup(entries, company, t1, expireDays).None? ==> Lookup(entries, company, t2, expireDays).None?
    ensures Lookup(entries, company, t2, expireDays).Some? ==> Lookup(entries, company, t1, expireDays).Some?
  {
  }

  /** An entry `expireDays` days old or older is treated as absent. */
  lemma OldEntryIsAbsent(entries: map<string, Entry>, company: string, now: int, expireDays: int)
    requires company in entries
    requires now >= entries[company].timestamp + expireDays * MillisPerDay
    ensures Lookup(entries, company, now, expireDays) == None
  {
  }

  class ResultsCache {
    const expireDays: int
    var entries: map<string, Entry>

    /** `loaded` is what `_load_cache` read (empty when the file was missing or corrupt). */
    constructor (loaded: map<string, Entry>, expireDays: int)
      ensures entries == loaded && this.expireDays == expireDays
    {
      entries := loaded;
      this.expireDays := expireDays;
    }

    function Get(company: string, now: int): Option<seq<string>>
      reads this
    {
      Lookup(entries, company, now, expireDays)
    }

    /** `set`: overwrite this company's entry, stamped with the current time. */
    method Set(company: string, emails: seq<string>, now: int)
      modifies this
      ensures entries == old(entries)[company := Entry(emails, now)]
    {
      entries := entries[company := Entry(emails, now)];
    }
  }
}
