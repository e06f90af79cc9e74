/** scrape_companies of scraper.py: one result row per company, from the
    cache, from the website's pages, or a status message. */
module Pipeline {
  import opened Wrappers
  import opened Text
  import opened Urls
  import opened Emails
  import opened Time
  import opened RateLimit
  import opened Cache
  import opened Resolver
  import opened Crawler

  /** How a company's row came about. */
  datatype Outcome =
    | Cached(emails: seq<string>)
    | NoWebsite
    | NotFound
    | Failed(message: string)
    | Scraped(emails: seq<string>)

  datatype Row = Row(company: string, outcome: Outcome)

  const NoWebsiteCell: string := "No website found"
  const NotFoundCell: string := "Not found"
  const ErrorPrefix: string := "Error: "

  /** The 'Emails' column of a row. */
  function Cell(o: Outcome): string {
    match o
    case Cached(emails) => Join(emails, ", ")
    case NoWebsite => NoWebsiteCell
    case NotFound => NotFoundCell
    case Failed(message) => ErrorPrefix + message
    case Scraped(emails) => Join(emails, ", ")
  }

  /** The outcome for a company that missed the cache: decided by the website
      search, the domain lookup and the addresses the site yields. */
  ghost predicate Explains(o: Outcome, company: string, search: string -> Option<string>, verify: string -> bool,
                           fetch: string -> Option<Page>, findAll: string -> seq<string>) {
    match FindWebsiteUrl(company, search, verify)
    case None => o == NoWebsite
    case Some(url) =>
      if DomainOf(url).None? then o == Failed(IndexErrorMessage)
      else if SiteEmails(url, fetch, findAll) == {} then o == NotFound
      else
        && o.Scraped?
        && |o.emails| > 0
        && NoDuplicates(o.emails)
        && (forall e :: e in o.emails <==> e in SiteEmails(url, fetch, findAll))
  }

  /** The domain whose requests the crawl of a company's site waits on: that
      of the website found for it, when there is one and it has a domain. */
  ghost function SiteDomain(company: string, search: string -> Option<string>, verify: string -> bool): Option<string> {
    match FindWebsiteUrl(company, search, verify)
    case None => None
    case Some(url) => DomainOf(url)
  }

  /** The domains in an optional domain. */
  function DomainsOf(d: Option<string>): (ds: set<string>)
    ensures d.None? <==> ds == {}
    ensures forall x :: x in ds <==> d == Some(x)
  {
    match d
    case None => {}
    case Some(x) => {x}
  }

  /** The two rate-limiter maps agree on every domain outside `ds`. */
  ghost predicate SameOutside(m1: map<string, int>, m2: map<string, int>, ds: set<string>) {
    forall d | d !in ds :: (d in m1 <==> d in m2) && (d in m1 ==> m1[d] == m2[d])
  }

  /** Agreement outside `ds1`, then outside `ds2`, is agreement outside both. */
  lemma SameOutsideTrans(m1: map<string, int>, m2: map<string, int>, m3: map<string, int>,
                         ds1: set<string>, ds2: set<string>)
    requires SameOutside(m1, m2, ds1) && SameOutside(m2, m3, ds2)
    ensures SameOutside(m1, m3, ds1 + ds2)
  {
    forall d | d !in ds1 + ds2
      ensures (d in m1 <==> d in m3) && (d in m1 ==> m1[d] == m3[d])
    {
      assert d !in ds1 && d !in ds2;
    }
  }

  /** The body of the loop for one company. `trace` is what the crawl of its
      site did, if it was crawled. */
  method ProcessCompany(company: string, cache: ResultsCache, search: string -> Option<string>, verify: string -> bool,
                        fetch: string -> Option<Page>, findAll: string -> seq<string>,
                        limiter: RateLimiter, clock: Clock) returns (outcome: Outcome, ghost trace: seq<Event>)
    modifies cache, limiter, clock
    ensures clock.now >= old(clock.now)
    ensures var hit := old(cache.Get(company, clock.now));
      hit.Some? && |hit.value| > 0 ==>
        && outcome == Cached(hit.value) && cache.entries == old(cache.entries)
        && trace == [] && limiter.lastRequest == old(limiter.lastRequest) && clock.now == old(clock.now)
    ensures SiteDomain(company, search, verify).None? ==>
      trace == [] && limiter.lastRequest == old(limiter.lastRequest)
    ensures var hit := old(cache.Get(company, clock.now));
      !(hit.Some? && |hit.value| > 0) && SiteDomain(company, search, verify).Some? ==>
        var url := FindWebsiteUrl(company, search, verify).value;
        var domain := SiteDomain(company, search, verify).value;
        && Paced(trace, domain, SitePages(url), limiter.delay, old(limiter.Last(domain)))
        && limiter.lastRequest == old(limiter.lastRequest)[domain := LastRelease(trace, old(limiter.Last(domain)))]
    ensures SameOutside(old(limiter.lastRequest), limiter.lastRequest, DomainsOf(SiteDomain(company, search, verify)))
    ensures var hit := old(cache.Get(company, clock.now));
      !(hit.Some? && |hit.value| > 0) ==> !outcome.Cached? && Explains(outcome, company, search, verify, fetch, findAll)
    ensures outcome.Scraped? ==>
      && |outcome.emails| > 0
      && company in cache.entries
      && cache.entries == old(cache.entries)[company := Entry(outcome.emails, clock.now)]
    ensures !outcome.Scraped? ==> cache.entries == old(cache.entries)
  {
    var cached := cache.Get(company, clock.now);
    if cached.Some? && |cached.value| > 0 {
      return Cached(cached.value), [];
    }
    var url := FindWebsiteUrl(company, search, verify);
    clock.Elapse();
    if url.None? {
      return NoWebsite, [];
    }
    var result;
    result, trace := ScrapeSite(url.value, fetch, findAll, limiter, clock);
    match result
    case Err(message) =>
      outcome := Failed(message);
    case Ok(emails) =>
      if |emails| > 0 {
        assert emails[0] in SiteEmails(url.value, fetch, findAll);
        outcome := Scraped(emails);
        cache.Set(company, emails, clock.now);
      } else {
        assert forall e :: e !in SiteEmails(url.value, fetch, findAll);
        outcome := NotFound;
      }
  }

  /** The cache content after `rows`, replayed from the loaded content. Row
      `k` ran from time `times[k]` to time `times[k + 1]`; a scraped row wrote
      its emails stamped with the time its step ended. */
  ghost function StoreAfter(rows: seq<Row>, times: seq<int>, loaded: map<string, Entry>): map<string, Entry>
    requires |times| == |rows| + 1
    decreases |rows|
  {
    if rows == [] then loaded
    else
      var n := |rows| - 1;
      var prev := StoreAfter(rows[..n], times[..n + 1], loaded);
      match rows[n].outcome
      case Scraped(emails) => prev[rows[n].company := Entry(emails, times[n + 1])]
      case _ => prev
  }

  /** Row `i` is company `i`'s, and it is what the loop body gives for the
      cache as replayed before it, looked up at `times[i]`: the non-empty fresh
      entry if there is one, and otherwise what the site gave. */
  ghost predicate RowFits(rows: seq<Row>, times: seq<int>, i: nat, companies: seq<string>, loaded: map<string, Entry>,
                          expireDays: int, search: string -> Option<string>, verify: string -> bool,
                          fetch: string -> Option<Page>, findAll: string -> seq<string>)
    requires i < |rows| && |times| == |rows| + 1 && i < |companies|
  {
    && rows[i].company == companies[i]
    && (var hit := Lookup(StoreAfter(rows[..i], times[..i + 1], loaded), companies[i], times[i], expireDays);
        if hit.Some? && |hit.value| > 0 then rows[i].outcome == Cached(hit.value)
        else !rows[i].outcome.Cached? && Explains(rows[i].outcome, companies[i], search, verify, fetch, findAll))
  }

  /** The clock readings never go back. */
  ghost predicate Ascending(times: seq<int>) {
    forall i, j | 0 <= i <= j < |times| :: times[i] <= times[j]
  }

  /** Row `k` is a scrape of company `c`. */
  ghost predicate ScrapedAt(rows: seq<Row>, k: nat, c: string)
    requires k < |rows|
  {
    rows[k].company == c && rows[k].outcome.Scraped?
  }

  /** Replaying one more row writes its result, if it scraped something. */
  lemma StoreAfterStep(rows: seq<Row>, times: seq<int>, loaded: map<string, Entry>, r: Row, now: int)
    requires |times| == |rows| + 1
    ensures StoreAfter(rows + [r], times + [now], loaded)
         == if r.outcome.Scraped? then StoreAfter(rows, times, loaded)[r.company := Entry(r.outcome.emails, now)]
            else StoreAfter(rows, times, loaded)
  {
    assert (rows + [r])[..|rows|] == rows;
    assert (times + [now])[..|rows| + 1] == times;
  }

  /** One company's step keeps the run fitting: `before`/`after` are the cache
      around the call that processes the next company, which ends at time
      `nowAfter`, and the step facts are what that call promises. */
  lemma RunStep(rows: seq<Row>, times: seq<int>, companies: seq<string>, loaded: map<string, Entry>,
                before: map<string, Entry>, after: map<string, Entry>, outcome: Outcome, nowAfter: int,
                expireDays: int, search: string -> Option<string>, verify: string -> bool,
                fetch: string -> Option<Page>, findAll: string -> seq<string>)
    requires |rows| < |companies| && |times| == |rows| + 1
    requires forall j | 0 <= j < |rows| :: RowFits(rows, times, j, companies, loaded, expireDays, search, verify, fetch, findAll)
    requires Ascending(times) && times[|rows|] <= nowAfter
    requires before == StoreAfter(rows, times, loaded)
    requires var hit := Lookup(before, companies[|rows|], times[|rows|], expireDays);
      hit.Some? && |hit.value| > 0 ==> outcome == Cached(hit.value)
    requires var hit := Lookup(before, companies[|rows|], times[|rows|], expireDays);
      !(hit.Some? && |hit.value| > 0) ==>
        !outcome.Cached? && Explains(outcome, companies[|rows|], search, verify, fetch, findAll)
    requires outcome.Scraped? ==> after == before[companies[|rows|] := Entry(outcome.emails, nowAfter)]
    requires !outcome.Scraped? ==> after == before
    ensures var grown := rows + [Row(companies[|rows|], outcome)];
      && (forall j | 0 <= j < |grown| ::
            RowFits(grown, times + [nowAfter], j, companies, loaded, expireDays, search, verify, fetch, findAll))
      && after == StoreAfter(grown, times + [nowAfter], loaded)
      && Ascending(times + [nowAfter])
  {
    var grown := rows + [Row(companies[|rows|], outcome)];
    var later := times + [nowAfter];
    forall j | 0 <= j < |grown|
      ensures RowFits(grown, later, j, companies, loaded, expireDays, search, verify, fetch, findAll)
    {
      assert grown[..j] == rows[..j] && later[..j + 1] == times[..j + 1];
      if j < |rows| {
        assert RowFits(rows, times, j, companies, loaded, expireDays, search, verify, fetch, findAll);
        assert grown[j] == rows[j] && later[j] == times[j];
      } else {
        assert rows[..j] == rows && times[..j + 1] == times;
      }
    }
    StoreAfterStep(rows, times, loaded, Row(companies[|rows|], outcome), nowAfter);
    forall i, j | 0 <= i <= j < |later| ensures later[i] <= later[j] {
      if j < |times| {
        assert later[i] == times[i] && later[j] == times[j];
      } else if i < |times| {
        assert later[i] == times[i] && times[i] <= times[|rows|];
      }
    }
  }

  /** A company no row scraped keeps its loaded entry, or its absence. */
  lemma {:induction false} ReplayUntouched(rows: seq<Row>, times: seq<int>, loaded: map<string, Entry>, c: string)
    requires |times| == |rows| + 1
    requires forall k | 0 <= k < |rows| :: !ScrapedAt(rows, k, c)
    ensures c in StoreAfter(rows, times, loaded) <==> c in loaded
    ensures c in loaded ==> StoreAfter(rows, times, loaded)[c] == loaded[c]
    decreases |rows|
  {
    if rows != [] {
      var n := |rows| - 1;
      forall k | 0 <= k < n ensures !ScrapedAt(rows[..n], k, c) {
        assert rows[..n][k] == rows[k] && !ScrapedAt(rows, k, c);
      }
      assert !ScrapedAt(rows, n, c);
      ReplayUntouched(rows[..n], times[..n + 1], loaded, c);
    }
  }

  /** The cache holds the latest scrape of each company, stamped with the
      time that row's step ended. */
  lemma {:induction false} ReplayLatest(rows: seq<Row>, times: seq<int>, loaded: map<string, Entry>, k: nat)
    requires |times| == |rows| + 1 && k < |rows| && rows[k].outcome.Scraped?
    requires forall l | k < l < |rows| :: !ScrapedAt(rows, l, rows[k].company)
    ensures rows[k].company in StoreAfter(rows, times, loaded)
    ensures StoreAfter(rows, times, loaded)[rows[k].company] == Entry(rows[k].outcome.emails, times[k + 1])
    decreases |rows|
  {
    var n := |rows| - 1;
    if k < n {
      assert !ScrapedAt(rows, n, rows[k].company);
      forall l | k < l < n ensures !ScrapedAt(rows[..n], l, rows[k].company) {
        assert rows[..n][l] == rows[l] && !ScrapedAt(rows, l, rows[k].company);
      }
      assert rows[..n][k] == rows[k] && times[..n + 1][k + 1] == times[k + 1];
      ReplayLatest(rows[..n], times[..n + 1], loaded, k);
    }
  }

  /** Every cache entry is the loaded one or the result of some scraped row,
      stamped with the time that row's step ended; every loaded key stays. */
  lemma {:induction false} ReplayAccounted(rows: seq<Row>, times: seq<int>, loaded: map<string, Entry>, c: string)
    requires |times| == |rows| + 1
    ensures c in loaded ==> c in StoreAfter(rows, times, loaded)
    ensures c in StoreAfter(rows, times, loaded) ==>
      || (c in loaded && StoreAfter(rows, times, loaded)[c] == loaded[c])
      || exists k | 0 <= k < |rows| ::
           && rows[k] == Row(c, Scraped(StoreAfter(rows, times, loaded)[c].emails))
           && StoreAfter(rows, times, loaded)[c].timestamp == times[k + 1]
    decreases |rows|
  {
    if rows != [] {
      var n := |rows| - 1;
      var prev := StoreAfter(rows[..n], times[..n + 1], loaded);
      ReplayAccounted(rows[..n], times[..n + 1], loaded, c);
      var store := StoreAfter(rows, times, loaded);
      if c in store && !ScrapedAt(rows, n, c) && !(c in loaded && store[c] == loaded[c]) {
        assert store[c] == prev[c];
        var k :| 0 <= k < n && rows[..n][k] == Row(c, Scraped(prev[c].emails)) && prev[c].timestamp == times[..n + 1][k + 1];
        assert rows[k] == rows[..n][k] && times[k + 1] == times[..n + 1][k + 1];
      }
    }
  }

  /** The latest scrape of `c` among the first `i` rows, given one at `k`. */
  lemma LatestScrape(rows: seq<Row>, i: nat, c: string, k: nat) returns (l: nat)
    requires k < i <= |rows| && ScrapedAt(rows, k, c)
    ensures k <= l < i && ScrapedAt(rows, l, c)
    ensures forall m | l < m < i :: !ScrapedAt(rows, m, c)
  {
    l := k;
    while exists m | l < m < i :: ScrapedAt(rows, m, c)
      invariant k <= l < i && ScrapedAt(rows, l, c)
      decreases i - l
    {
      var later :| l < later < i && ScrapedAt(rows, later, c);
      l := later;
    }
  }

  /** A cached row holds a non-empty list that was fresh when the row was
      looked up: the loaded entry, when no earlier row scraped the company,
      or the latest earlier scrape, stamped with the end of its step. */
  lemma CachedRowSource(rows: seq<Row>, times: seq<int>, i: nat, companies: seq<string>, loaded: map<string, Entry>,
                        expireDays: int, search: string -> Option<string>, verify: string -> bool,
                        fetch: string -> Option<Page>, findAll: string -> seq<string>)
    requires i < |rows| && |times| == |rows| + 1 && i < |companies|
    requires RowFits(rows, times, i, companies, loaded, expireDays, search, verify, fetch, findAll)
    requires rows[i].outcome.Cached?
    ensures var c, emails := companies[i], rows[i].outcome.emails;
      && |emails| > 0
      && (|| ((forall k | 0 <= k < i :: !ScrapedAt(rows, k, c))
              && c in loaded && emails == loaded[c].emails && Fresh(loaded[c], times[i], expireDays))
          || exists k | 0 <= k < i ::
               && rows[k] == Row(c, Scraped(emails))
               && (forall l | k < l < i :: !ScrapedAt(rows, l, c))
               && Fresh(Entry(emails, times[k + 1]), times[i], expireDays))
  {
    var c := companies[i];
    var prefix, stamps := rows[..i], times[..i + 1];
    var store := StoreAfter(prefix, stamps, loaded);
    assert c in store && Fresh(store[c], times[i], expireDays) && rows[i].outcome.emails == store[c].emails;
    if exists k | 0 <= k < i :: ScrapedAt(rows, k, c) {
      var some :| 0 <= some < i && ScrapedAt(rows, some, c);
      var k := LatestScrape(rows, i, c, some);
      assert prefix[k] == rows[k] && stamps[k + 1] == times[k + 1];
      forall l | k < l < |prefix| ensures !ScrapedAt(prefix, l, c) {
        assert prefix[l] == rows[l] && !ScrapedAt(rows, l, c);
      }
      ReplayLatest(prefix, stamps, loaded, k);
    } else {
      forall l | 0 <= l < |prefix| ensures !ScrapedAt(prefix, l, c) {
        assert prefix[l] == rows[l] && !ScrapedAt(rows, l, c);
      }
      ReplayUntouched(prefix, stamps, loaded, c);
    }
  }

  /** A company met for the first time whose loaded entry is non-empty and
      fresh when its row is looked up is answered from the cache. */
  lemma FirstHit(rows: seq<Row>, times: seq<int>, i: nat, companies: seq<string>, loaded: map<string, Entry>,
                 expireDays: int, search: string -> Option<string>, verify: string -> bool,
                 fetch: string -> Option<Page>, findAll: string -> seq<string>)
    requires i < |rows| && |times| == |rows| + 1 && i < |companies|
    requires forall j | 0 <= j <= i :: RowFits(rows, times, j, companies, loaded, expireDays, search, verify, fetch, findAll)
    requires companies[i] !in companies[..i]
    requires companies[i] in loaded && |loaded[companies[i]].emails| > 0
    requires Fresh(loaded[companies[i]], times[i], expireDays)
    ensures rows[i].outcome == Cached(loaded[companies[i]].emails)
  {
    var c := companies[i];
    var prefix := rows[..i];
    forall k | 0 <= k < |prefix| ensures !ScrapedAt(prefix, k, c) {
      assert prefix[k] == rows[k];
      assert RowFits(rows, times, k, companies, loaded, expireDays, search, verify, fetch, findAll);
      assert companies[..i][k] == companies[k];
    }
    ReplayUntouched(prefix, times[..i + 1], loaded, c);
    assert RowFits(rows, times, i, companies, loaded, expireDays, search, verify, fetch, findAll);
  }

  /** With no positive time-to-live, a company already scraped in this run is
      never answered from the entry that scrape wrote: it is processed again. */
  lemma NoRunHitWithoutTTL(rows: seq<Row>, times: seq<int>, i: nat, k: nat, companies: seq<string>,
                           loaded: map<string, Entry>, expireDays: int,
                           search: string -> Option<string>, verify: string -> bool,
                           fetch: string -> Option<Page>, findAll: string -> seq<string>)
    requires i < |rows| && |times| == |rows| + 1 && i < |companies|
    requires RowFits(rows, times, i, companies, loaded, expireDays, search, verify, fetch, findAll)
    requires Ascending(times) && expireDays <= 0
    requires k < i && ScrapedAt(rows, k, companies[i])
    ensures !rows[i].outcome.Cached?
  {
    var c := companies[i];
    var l := LatestScrape(rows, i, c, k);
    var prefix, stamps := rows[..i], times[..i + 1];
    assert prefix[l] == rows[l] && stamps[l + 1] == times[l + 1];
    forall m | l < m < |prefix| ensures !ScrapedAt(prefix, m, c) {
      assert prefix[m] == rows[m] && !ScrapedAt(rows, m, c);
    }
    ReplayLatest(prefix, stamps, loaded, l);
    assert times[l + 1] <= times[i];
  }

  /** Every entry of the final cache is the loaded one, or a non-empty result
      some row scraped, stamped within the run. */
  lemma StampsWithinRun(rows: seq<Row>, times: seq<int>, companies: seq<string>, loaded: map<string, Entry>,
                        expireDays: int, search: string -> Option<string>, verify: string -> bool,
                        fetch: string -> Option<Page>, findAll: string -> seq<string>, c: string)
    requires |times| == |rows| + 1 && |rows| <= |companies| && Ascending(times)
    requires forall j | 0 <= j < |rows| :: RowFits(rows, times, j, companies, loaded, expireDays, search, verify, fetch, findAll)
    requires c in StoreAfter(rows, times, loaded)
    ensures var e := StoreAfter(rows, times, loaded)[c];
      || (c in loaded && e == loaded[c])
      || (&& |e.emails| > 0
          && times[0] <= e.timestamp <= times[|rows|]
          && exists k | 0 <= k < |rows| :: rows[k] == Row(c, Scraped(e.emails)))
  {
    var e := StoreAfter(rows, times, loaded)[c];
    ReplayAccounted(rows, times, loaded, c);
    if !(c in loaded && e == loaded[c]) {
      var k :| 0 <= k < |rows| && rows[k] == Row(c, Scraped(e.emails)) && e.timestamp == times[k + 1];
      assert RowFits(rows, times, k, companies, loaded, expireDays, search, verify, fetch, findAll);
      assert times[0] <= times[k + 1] <= times[|rows|];
    }
  }

  /** The domains `dom` gives the companies that have one. */
  ghost function Domains(companies: seq<string>, dom: string -> Option<string>): set<string> {
    if companies == [] then {}
    else
      var n := |companies| - 1;
      Domains(companies[..n], dom) + DomainsOf(dom(companies[n]))
  }

  /** A domain is among `Domains` exactly when `dom` gives it to one of the
      companies. */
  lemma {:induction false} DomainsMembers(companies: seq<string>, d: string, dom: string -> Option<string>)
    ensures d in Domains(companies, dom) <==> exists k | 0 <= k < |companies| :: dom(companies[k]) == Some(d)
  {
    if companies != [] {
      var n := |companies| - 1;
      var init := companies[..n];
      DomainsMembers(init, d, dom);
      if d in Domains(init, dom) {
        var k :| 0 <= k < |init| && dom(init[k]) == Some(d);
        assert companies[k] == init[k];
      } else if d !in DomainsOf(dom(companies[n])) {
        forall k | 0 <= k < |companies| ensures dom(companies[k]) != Some(d) {
          if k < n {
            assert init[k] == companies[k];
          }
        }
      }
    }
  }

  /** The domains the crawls of `companies` may wait on. */
  ghost function SiteDomains(companies: seq<string>, search: string -> Option<string>, verify: string -> bool): set<string> {
    Domains(companies, c => SiteDomain(c, search, verify))
  }

  /** The rate limiter keeps agreeing with its start outside the domains of
      the companies processed so far. */
  lemma LimiterStep(m0: map<string, int>, m1: map<string, int>, m2: map<string, int>, companies: seq<string>, i: nat,
                    search: string -> Option<string>, verify: string -> bool)
    requires i < |companies|
    requires SameOutside(m0, m1, SiteDomains(companies[..i], search, verify))
    requires SameOutside(m1, m2, DomainsOf(SiteDomain(companies[i], search, verify)))
    ensures SameOutside(m0, m2, SiteDomains(companies[..i + 1], search, verify))
  {
    assert companies[..i + 1][..i] == companies[..i];
    assert SiteDomains(companies[..i + 1], search, verify)
        == SiteDomains(companies[..i], search, verify) + DomainsOf(SiteDomain(companies[i], search, verify));
    SameOutsideTrans(m0, m1, m2, SiteDomains(companies[..i], search, verify), DomainsOf(SiteDomain(companies[i], search, verify)));
  }

  /** scrape_companies over an already loaded company list. `loaded` is the
      cache file's content; `store` is the cache content at the end. Row `i`
      was processed from time `times[i]` to time `times[i + 1]`. */
  method ScrapeCompanies(companies: seq<string>, loaded: map<string, Entry>, expireDays: int,
                         search: string -> Option<string>, verify: string -> bool,
                         fetch: string -> Option<Page>, findAll: string -> seq<string>,
                         limiter: RateLimiter, clock: Clock)
    returns (table: Option<seq<Row>>, store: map<string, Entry>, ghost times: seq<int>)
    modifies limiter, clock
    ensures companies == [] ==> table == None && store == loaded && clock.now == old(clock.now)
    ensures companies != [] ==> table.Some? && |table.value| == |companies|
    ensures |times| == |companies| + 1 && Ascending(times)
    ensures times[0] == old(clock.now) && times[|companies|] == clock.now
    ensures table.Some? ==> forall i | 0 <= i < |companies| ::
      RowFits(table.value, times, i, companies, loaded, expireDays, search, verify, fetch, findAll)
    ensures table.Some? ==> store == StoreAfter(table.value, times, loaded)
    ensures SameOutside(old(limiter.lastRequest), limiter.lastRequest, SiteDomains(companies, search, verify))
  {
    if companies == [] {
      return None, loaded, [clock.now];
    }
    var cache := new ResultsCache(loaded, expireDays);
    var rows: seq<Row> := [];
    times := [clock.now];
    var i := 0;
    while i < |companies|
      invariant 0 <= i <= |companies| && |rows| == i && |times| == i + 1
      invariant Ascending(times) && times[0] == old(clock.now) && times[i] == clock.now
      invariant forall j | 0 <= j < i :: RowFits(rows, times, j, companies, loaded, expireDays, search, verify, fetch, findAll)
      invariant cache.entries == StoreAfter(rows, times, loaded)
      invariant cache.expireDays == expireDays
      invariant SameOutside(old(limiter.lastRequest), limiter.lastRequest, SiteDomains(companies[..i], search, verify))
    {
      var company := companies[i];
      ghost var before := cache.entries;
      ghost var limiterBefore := limiter.lastRequest;
      var outcome;
      ghost var trace;
      outcome, trace := ProcessCompany(company, cache, search, verify, fetch, findAll, limiter, clock);
      RunStep(rows, times, companies, loaded, before, cache.entries, outcome, clock.now, expireDays,
              search, verify, fetch, findAll);
      LimiterStep(old(limiter.lastRequest), limiterBefore, limiter.lastRequest, companies, i, search, verify);
      rows := rows + [Row(company, outcome)];
      times := times + [clock.now];
      i := i + 1;
    }
    assert companies[..i] == companies;
    return Some(rows), cache.entries, times;
  }

  /** A scraped cell is lower-case, so it never reads as one of the status
      messages or as an error. */
  lemma ScrapedCellIsPlain(o: Outcome, company: string, search: string -> Option<string>, verify: string -> bool,
                           fetch: string -> Option<Page>, findAll: string -> seq<string>)
    requires FindAllSound(findAll)
    requires o.Scraped? && Explains(o, company, search, verify, fetch, findAll)
    ensures NoUpper(Cell(o))
    ensures Cell(o) != NoWebsiteCell && Cell(o) != NotFoundCell && !(ErrorPrefix <= Cell(o))
  {
    var url := FindWebsiteUrl(company, search, verify).value;
    SiteEmailsShape(url, fetch, findAll);
    assert forall k | 0 <= k < |o.emails| :: o.emails[k] in SiteEmails(url, fetch, findAll);
    JoinNoUpper(o.emails, ", ");
    var cell := Cell(o);
    if |cell| > 0 {
      assert !IsUpper(cell[0]);
    }
  }

  /** A list without duplicates holding exactly one value is that value alone. */
  lemma OnlyElement(s: seq<string>, x: string)
    requires NoDuplicates(s)
    requires forall e :: e in s <==> e == x
    ensures s == [x]
  {
    assert x in s;
    assert s[0] in s && s[|s| - 1] in s;
  }

  /** Only the homepage of the one-company run yields anything. */
  lemma SinglePageYield(url: string, e: string, addr: string, fetch: string -> Option<Page>, findAll: string -> seq<string>)
    requires PageEmails(fetch(url), findAll) == {addr}
    requires forall k | 0 <= k < 6 :: PageEmails(fetch(ContactPages(url)[k]), findAll) == {}
    ensures e in GatheredEmails(SitePages(url), fetch, findAll) <==> e == addr
  {
    var pages := SitePages(url);
    GatheredUnion(pages, fetch, findAll, e);
    forall k | 1 <= k < 7 ensures PageEmails(fetch(pages[k]), findAll) == {} {
      assert pages[k] == ContactPages(url)[k - 1];
    }
    assert PageEmails(fetch(pages[0]), findAll) == {addr};
  }

  /** The site of the one-company run yields the one address. */
  lemma SingleSiteEmails(site: string, addr: string, text: string,
                         fetch: string -> Option<Page>, findAll: string -> seq<string>)
    requires '/' !in site
    requires fetch("https://" + site) == Some(Page(["mailto:" + addr], text))
    requires findAll(Lower(text)) == []
    requires forall k | 0 <= k < 6 :: PageEmails(fetch(ContactPages("https://" + site)[k]), findAll) == {}
    requires '?' !in addr && ':' !in addr && NoUpper(addr)
    requires EmailRegexMatch(addr) && ValidateEmail(addr)
    ensures DomainOf("https://" + site) == Some(site)
    ensures SiteEmails("https://" + site, fetch, findAll) == {addr}
  {
    var url := "https://" + site;
    DomainOfHttpsHost(site);
    BareMailtoPage(addr, text, findAll);
    var gathered := GatheredEmails(SitePages(url), fetch, findAll);
    forall e ensures e in gathered <==> e == addr {
      SinglePageYield(url, e, addr, fetch, findAll);
    }
    assert gathered == {addr};
    ValidSingleton(addr);
  }

  /** validate_email keeps an address it accepts. */
  lemma ValidSingleton(e: string)
    requires ValidateEmail(e)
    ensures ValidEmails({e}) == {e}
  {
  }

  /** The outcome the one-company run explains is the scrape of that address. */
  lemma SingleCompanyOutcome(o: Outcome, company: string, site: string, addr: string, text: string,
                             search: string -> Option<string>, verify: string -> bool,
                             fetch: string -> Option<Page>, findAll: string -> seq<string>)
    requires search(Query(company)) == Some(site)
    requires !("http" <= site) && '/' !in site
    requires verify("https://" + site)
    requires fetch("https://" + site) == Some(Page(["mailto:" + addr], text))
    requires findAll(Lower(text)) == []
    requires forall k | 0 <= k < 6 :: PageEmails(fetch(ContactPages("https://" + site)[k]), findAll) == {}
    requires '?' !in addr && ':' !in addr && NoUpper(addr)
    requires EmailRegexMatch(addr) && ValidateEmail(addr)
    requires Explains(o, company, search, verify, fetch, findAll)
    ensures o == Scraped([addr])
  {
    var url := "https://" + site;
    assert FindWebsiteUrl(company, search, verify) == Some(url);
    SingleSiteEmails(site, addr, text, fetch, findAll);
    assert addr in SiteEmails(url, fetch, findAll);
    OnlyElement(o.emails, addr);
  }

  /** A one-company run, for any company: the search finds a bare
      host, the HEAD check passes, the homepage has one `mailto:` anchor and no
      address in its text, and no contact page yields anything. With an empty
      cache the run reports that one address and caches it, stamped with the
      time the company's step ended. */
  method SingleCompanyRun(company: string, site: string, addr: string, text: string,
                          search: string -> Option<string>, verify: string -> bool,
                          fetch: string -> Option<Page>, findAll: string -> seq<string>)
    returns (table: Option<seq<Row>>, store: map<string, Entry>)
    requires search(Query(company)) == Some(site)
    requires !("http" <= site) && '/' !in site
    requires verify("https://" + site)
    requires fetch("https://" + site) == Some(Page(["mailto:" + addr], text))
    requires findAll(Lower(text)) == []
    requires forall k | 0 <= k < 6 :: PageEmails(fetch(ContactPages("https://" + site)[k]), findAll) == {}
    requires '?' !in addr && ':' !in addr && NoUpper(addr)
    requires EmailRegexMatch(addr) && ValidateEmail(addr)
    ensures table == Some([Row(company, Scraped([addr]))])
    ensures store.Keys == {company} && store[company].emails == [addr] && store[company].timestamp >= 0
  {
    var limiter := new RateLimiter(DefaultDelay);
    var clock := new Clock(0);
    ghost var times;
    table, store, times := ScrapeCompanies([company], map[], DefaultExpireDays, search, verify, fetch, findAll, limiter, clock);
    assert RowFits(table.value, times, 0, [company], map[], DefaultExpireDays, search, verify, fetch, findAll);
    SingleRunTable(company, site, addr, text, search, verify, fetch, findAll, table.value, times, store);
  }

  /** What a one-company run with an empty cache leaves, given what the run
      promises about its rows and its store. */
  lemma SingleRunTable(company: string, site: string, addr: string, text: string,
                       search: string -> Option<string>, verify: string -> bool,
                       fetch: string -> Option<Page>, findAll: string -> seq<string>,
                       rows: seq<Row>, times: seq<int>, store: map<string, Entry>)
    requires search(Query(company)) == Some(site)
    requires !("http" <= site) && '/' !in site
    requires verify("https://" + site)
    requires fetch("https://" + site) == Some(Page(["mailto:" + addr], text))
    requires findAll(Lower(text)) == []
    requires forall k | 0 <= k < 6 :: PageEmails(fetch(ContactPages("https://" + site)[k]), findAll) == {}
    requires '?' !in addr && ':' !in addr && NoUpper(addr)
    requires EmailRegexMatch(addr) && ValidateEmail(addr)
    requires |rows| == 1 && |times| == 2
    requires RowFits(rows, times, 0, [company], map[], DefaultExpireDays, search, verify, fetch, findAll)
    requires store == StoreAfter(rows, times, map[])
    ensures rows == [Row(company, Scraped([addr]))]
    ensures store == map[company := Entry([addr], times[1])]
  {
    assert rows[..0] == [] && times[..1] == [times[0]];
    SingleCompanyOutcome(rows[0].outcome, company, site, addr, text, search, verify, fetch, findAll);
    assert rows == [rows[0]];
    assert rows[..0] == [] && times[..1] == [times[0]];
  }
}
