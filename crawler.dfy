/** scrape_site of scraper.py: the homepage and the six contact pages of one
    site, each fetched after waiting on the rate limiter for the site's domain,
    with the addresses gathered into a set and filtered by validate_email. */
module Crawler {
  import opened Wrappers
  import opened Text
  import opened Urls
  import opened Emails
  import opened Time
  import opened RateLimit

  /** The message of the IndexError raised by `url.split('/')[2]`. */
  const IndexErrorMessage: string := "list index out of range"

  /** The pages scrape_site fetches, in order. */
  function SitePages(url: string): (pages: seq<string>)
    ensures |pages| == 7
    ensures pages[0] == url && pages[1..] == ContactPages(url)
  {
    [url] + ContactPages(url)
  }

  /** What `found` gives for each page, together, in crawl order. */
  function UnionOver(pages: seq<string>, found: string -> set<string>): set<string> {
    if pages == [] then {}
    else UnionOver(pages[..|pages| - 1], found) + found(pages[|pages| - 1])
  }

  /** The addresses the pages yield, before filtering. */
  function GatheredEmails(pages: seq<string>, fetch: string -> Option<Page>, findAll: string -> seq<string>): set<string> {
    UnionOver(pages, url => PageEmails(fetch(url), findAll))
  }

  /** The comprehension that keeps what validate_email accepts. */
  function ValidEmails(emails: set<string>): set<string> {
    set e | e in emails && ValidateEmail(e)
  }

  /** The addresses scrape_site reports for a site. */
  function SiteEmails(url: string, fetch: string -> Option<Page>, findAll: string -> seq<string>): set<string> {
    ValidEmails(GatheredEmails(SitePages(url), fetch, findAll))
  }

  predicate NoDuplicates(s: seq<string>) {
    forall i, j | 0 <= i < j < |s| :: s[i] != s[j]
  }

  /** An address belongs to the gathered set exactly when one of the pages
      yields it: a page that fails contributes nothing and takes nothing away
      from the others. */
  lemma {:induction false} GatheredUnion(pages: seq<string>, fetch: string -> Option<Page>, findAll: string -> seq<string>, e: string)
    ensures e in GatheredEmails(pages, fetch, findAll) <==>
      exists k | 0 <= k < |pages| :: e in PageEmails(fetch(pages[k]), findAll)
  {
    var found := url => PageEmails(fetch(url), findAll);
    UnionOverMember(pages, found, e);
    assert forall k | 0 <= k < |pages| :: found(pages[k]) == PageEmails(fetch(pages[k]), findAll);
  }

  lemma {:induction false} UnionOverMember(pages: seq<string>, found: string -> set<string>, e: string)
    ensures e in UnionOver(pages, found) <==> exists k | 0 <= k < |pages| :: e in found(pages[k])
  {
    if pages != [] {
      var init, n := pages[..|pages| - 1], |pages| - 1;
      UnionOverMember(init, found, e);
      if e in UnionOver(init, found) {
        var k :| 0 <= k < |init| && e in found(init[k]);
        assert pages[k] == init[k];
      } else if e !in found(pages[n]) {
        forall k | 0 <= k < |pages| ensures e !in found(pages[k]) {
          if k < n {
            assert init[k] == pages[k];
          }
        }
      }
    }
  }

  /** Every address scrape_site reports is lower-case and passes validate_email. */
  lemma {:induction false} GatheredNoUpper(pages: seq<string>, fetch: string -> Option<Page>, findAll: string -> seq<string>)
    requires FindAllSound(findAll)
    ensures forall e | e in GatheredEmails(pages, fetch, findAll) :: NoUpper(e)
  {
    if pages != [] {
      GatheredNoUpper(pages[..|pages| - 1], fetch, findAll);
      PageEmailsShape(fetch(pages[|pages| - 1]), findAll);
    }
  }

  lemma SiteEmailsShape(url: string, fetch: string -> Option<Page>, findAll: string -> seq<string>)
    requires FindAllSound(findAll)
    ensures forall e | e in SiteEmails(url, fetch, findAll) :: NoUpper(e) && ValidateEmail(e)
  {
    GatheredNoUpper(SitePages(url), fetch, findAll);
  }

  /** What a crawl does, step by step, for the proofs about pacing. */
  datatype Event = Wait(domain: string, arrival: int, release: int) | Fetch(url: string)

  /** The release time of the last wait in `trace`, or `init` if there is none. */
  ghost function LastRelease(trace: seq<Event>, init: int): int {
    if trace == [] then init
    else if trace[|trace| - 1].Wait? then trace[|trace| - 1].release
    else LastRelease(trace[..|trace| - 1], init)
  }

  /** `trace` fetches `urls` in order, each right after a wait on `domain` that
      the rate limiter released `delay` after the previous release (the first
      after `init`, the domain's last request before the crawl). */
  ghost predicate Paced(trace: seq<Event>, domain: string, urls: seq<string>, delay: nat, init: int) {
    if urls == [] then trace == []
    else
      var n := |trace|;
      && n >= 2
      && Paced(trace[..n - 2], domain, urls[..|urls| - 1], delay, init)
      && trace[n - 2].Wait?
      && trace[n - 2].domain == domain
      && trace[n - 2].release == Release(trace[n - 2].arrival, LastRelease(trace[..n - 2], init), delay)
      && trace[n - 1] == Fetch(urls[|urls| - 1])
  }

  /** A paced trace has one wait and one fetch per URL, in that order. */
  lemma {:induction false} PacedShape(trace: seq<Event>, domain: string, urls: seq<string>, delay: nat, init: int, k: nat)
    requires Paced(trace, domain, urls, delay, init)
    requires k < |urls|
    ensures |trace| == 2 * |urls|
    ensures trace[2 * k].Wait? && trace[2 * k].domain == domain
    ensures trace[2 * k + 1] == Fetch(urls[k])
  {
    var n := |trace|;
    if k < |urls| - 1 {
      PacedShape(trace[..n - 2], domain, urls[..|urls| - 1], delay, init, k);
    } else if |urls| > 1 {
      PacedShape(trace[..n - 2], domain, urls[..|urls| - 1], delay, init, 0);
    } else {
      assert trace[..n - 2] == [];
    }
  }

  /** The last release dominates every release in the trace and `init`. */
  lemma {:induction false} LastReleaseIsLatest(trace: seq<Event>, domain: string, urls: seq<string>, delay: nat, init: int)
    requires Paced(trace, domain, urls, delay, init)
    ensures LastRelease(trace, init) >= init
    ensures forall i | 0 <= i < |trace| && trace[i].Wait? :: LastRelease(trace, init) >= trace[i].release
  {
    if urls != [] {
      var n := |trace|;
      var prefix := trace[..n - 2];
      LastReleaseIsLatest(prefix, domain, urls[..|urls| - 1], delay, init);
      assert trace[..n - 1][..n - 2] == prefix;
      assert LastRelease(trace, init) == trace[n - 2].release;
      forall i | 0 <= i < n && trace[i].Wait? ensures LastRelease(trace, init) >= trace[i].release {
        if i < n - 2 {
          assert prefix[i] == trace[i];
        }
      }
    }
  }

  /** Any two waits of a paced trace release at least `delay` apart, and the
      first releases at least `delay` after the domain's previous request. */
  lemma {:induction false} PacedSpacing(trace: seq<Event>, domain: string, urls: seq<string>, delay: nat, init: int)
    requires Paced(trace, domain, urls, delay, init)
    ensures forall i | 0 <= i < |trace| && trace[i].Wait? :: trace[i].release >= init + delay
    ensures forall i, j | 0 <= i < j < |trace| && trace[i].Wait? && trace[j].Wait? ::
      trace[j].release >= trace[i].release + delay
  {
    if urls != [] {
      var n := |trace|;
      var prefix := trace[..n - 2];
      PacedSpacing(prefix, domain, urls[..|urls| - 1], delay, init);
      LastReleaseIsLatest(prefix, domain, urls[..|urls| - 1], delay, init);
      forall i | 0 <= i < n && trace[i].Wait? ensures trace[i].release >= init + delay {
        if i < n - 2 {
          assert prefix[i] == trace[i];
        }
      }
      forall i, j | 0 <= i < j < n && trace[i].Wait? && trace[j].Wait?
        ensures trace[j].release >= trace[i].release + delay
      {
        if j < n - 2 {
          assert prefix[i] == trace[i] && prefix[j] == trace[j];
        } else {
          assert j == n - 2;
          assert prefix[i] == trace[i];
        }
      }
    }
  }

  /** The list built from the set: every valid address once, in whatever
      order the set is iterated. */
  method KeepValid(emails: set<string>) returns (valid: seq<string>)
    ensures NoDuplicates(valid)
    ensures forall e :: e in valid <==> e in ValidEmails(emails)
  {
    var rest := emails;
    valid := [];
    while rest != {}
      invariant rest <= emails
      invariant NoDuplicates(valid)
      invariant forall e | e in valid :: e !in rest
      invariant forall e :: e in valid <==> e in ValidEmails(emails - rest)
      decreases |rest|
    {
      var e :| e in rest;
      if ValidateEmail(e) {
        valid := valid + [e];
      }
      rest := rest - {e};
    }
  }

  /** The rate-limited wait before a fetch, with the trace growing by the wait
      and the fetch of `url` that follows it. */
  method PacedWait(url: string, domain: string, limiter: RateLimiter, clock: Clock,
                   ghost before: seq<Event>, ghost done: seq<string>, ghost init: int)
    returns (ghost after: seq<Event>)
    requires Paced(before, domain, done, limiter.delay, init)
    requires limiter.Last(domain) == LastRelease(before, init)
    modifies limiter, clock
    ensures Paced(after, domain, done + [url], limiter.delay, init)
    ensures limiter.lastRequest == old(limiter.lastRequest)[domain := LastRelease(after, init)]
    ensures clock.now >= old(clock.now)
  {
    ghost var arrival := clock.now;
    var release := limiter.Wait(domain, clock);
    ghost var wait := Wait(domain, arrival, release);
    PacedStep(before, domain, done, url, limiter.delay, init, wait);
    after := before + [wait, Fetch(url)];
  }

  /** One step of the crawl: wait on the domain, then scrape the page. The
      ghost arguments are the trace so far and the pages it fetched. */
  method Visit(url: string, domain: string, fetch: string -> Option<Page>, findAll: string -> seq<string>,
               limiter: RateLimiter, clock: Clock, ghost before: seq<Event>, ghost done: seq<string>, ghost init: int)
    returns (emails: set<string>, ghost after: seq<Event>)
    requires Paced(before, domain, done, limiter.delay, init)
    requires limiter.Last(domain) == LastRelease(before, init)
    modifies limiter, clock
    ensures emails == PageEmails(fetch(url), findAll)
    ensures Paced(after, domain, done + [url], limiter.delay, init)
    ensures limiter.lastRequest == old(limiter.lastRequest)[domain := LastRelease(after, init)]
    ensures clock.now >= old(clock.now)
  {
    after := PacedWait(url, domain, limiter, clock, before, done, init);
    emails := ScrapeEmails(url, fetch, findAll);
    clock.Elapse();
  }

  /** The trace grows by one paced visit. */
  lemma PacedStep(trace: seq<Event>, domain: string, urls: seq<string>, url: string, delay: nat, init: int, wait: Event)
    requires Paced(trace, domain, urls, delay, init)
    requires wait.Wait? && wait.domain == domain
    requires wait.release == Release(wait.arrival, LastRelease(trace, init), delay)
    ensures Paced(trace + [wait, Fetch(url)], domain, urls + [url], delay, init)
    ensures LastRelease(trace + [wait, Fetch(url)], init) == wait.release
  {
    var t := trace + [wait, Fetch(url)];
    var n := |t|;
    assert t[..n - 2] == trace;
    assert t[n - 2] == wait && t[n - 1] == Fetch(url);
    var us := urls + [url];
    assert us[..|us| - 1] == urls && us[|us| - 1] == url;
    var front := t[..n - 1];
    assert front[|front| - 1] == wait;
    assert LastRelease(t, init) == LastRelease(front, init);
  }

  /** Gathering one more page adds that page's addresses. */
  lemma GatherAppend(done: seq<string>, url: string, fetch: string -> Option<Page>, findAll: string -> seq<string>)
    ensures GatheredEmails(done + [url], fetch, findAll)
         == GatheredEmails(done, fetch, findAll) + PageEmails(fetch(url), findAll)
  {
    assert (done + [url])[..|done|] == done;
  }

  /** The pages visited grow by the next contact page. */
  lemma VisitedStep(url: string, contacts: seq<string>, i: nat)
    requires i < |contacts|
    ensures [url] + contacts[..i + 1] == [url] + contacts[..i] + [contacts[i]]
  {
    assert contacts[..i + 1] == contacts[..i] + [contacts[i]];
  }

  /** A second update of the same key replaces the first. */
  lemma UpdateTwice(m: map<string, int>, k: string, a: int, b: int)
    ensures m[k := a][k := b] == m[k := b]
  {
  }

  /** The loop of scrape_site over the contact pages, after the homepage. */
  method VisitContacts(url: string, contacts: seq<string>, domain: string,
                       fetch: string -> Option<Page>, findAll: string -> seq<string>,
                       limiter: RateLimiter, clock: Clock, homepage: set<string>, ghost first: seq<Event>, ghost init: int)
    returns (emails: set<string>, ghost trace: seq<Event>)
    requires homepage == GatheredEmails([url], fetch, findAll)
    requires Paced(first, domain, [url], limiter.delay, init)
    requires domain in limiter.lastRequest && limiter.lastRequest[domain] == LastRelease(first, init)
    modifies limiter, clock
    ensures emails == GatheredEmails([url] + contacts, fetch, findAll)
    ensures Paced(trace, domain, [url] + contacts, limiter.delay, init)
    ensures limiter.lastRequest == old(limiter.lastRequest)[domain := LastRelease(trace, init)]
    ensures clock.now >= old(clock.now)
  {
    ghost var done := [url];
    emails := homepage;
    trace := first;
    var i := 0;
    while i < |contacts|
      invariant 0 <= i <= |contacts|
      invariant done == [url] + contacts[..i]
      invariant emails == GatheredEmails(done, fetch, findAll)
      invariant Paced(trace, domain, done, limiter.delay, init)
      invariant limiter.lastRequest == old(limiter.lastRequest)[domain := LastRelease(trace, init)]
      invariant clock.now >= old(clock.now)
    {
      var pageUrl := contacts[i];
      var found;
      ghost var prior := trace;
      found, trace := Visit(pageUrl, domain, fetch, findAll, limiter, clock, trace, done, init);
      GatherAppend(done, pageUrl, fetch, findAll);
      VisitedStep(url, contacts, i);
      UpdateTwice(old(limiter.lastRequest), domain, LastRelease(prior, init), LastRelease(trace, init));
      done := done + [pageUrl];
      if found != {} {
        emails := emails + found;
      }
      i := i + 1;
    }
    assert contacts[..i] == contacts;
  }

  /** scrape_site. A URL with fewer than two slashes makes the domain lookup
      raise, before any request; otherwise all seven pages are visited. */
  method ScrapeSite(url: string, fetch: string -> Option<Page>, findAll: string -> seq<string>,
                    limiter: RateLimiter, clock: Clock) returns (result: Result<seq<string>>, ghost trace: seq<Event>)
    modifies limiter, clock
    ensures DomainOf(url).None? ==>
      && result == Err(IndexErrorMessage)
      && trace == []
      && limiter.lastRequest == old(limiter.lastRequest)
      && clock.now == old(clock.now)
    ensures DomainOf(url).Some? ==>
      var domain := DomainOf(url).value;
      && result.Ok?
      && NoDuplicates(result.value)
      && (forall e :: e in result.value <==> e in SiteEmails(url, fetch, findAll))
      && Paced(trace, domain, SitePages(url), limiter.delay, old(limiter.Last(domain)))
      && limiter.lastRequest == old(limiter.lastRequest)[domain := LastRelease(trace, old(limiter.Last(domain)))]
    ensures clock.now >= old(clock.now)
  {
    var d := DomainOf(url);
    if d.None? {
      return Err(IndexErrorMessage), [];
    }
    var domain := d.value;
    ghost var init := limiter.Last(domain);
    var emails: set<string> := {};
    var homepage;
    ghost var first;
    homepage, first := Visit(url, domain, fetch, findAll, limiter, clock, [], [], init);
    GatherAppend([], url, fetch, findAll);
    assert [] + [url] == [url];
    if homepage != {} {
      emails := emails + homepage;
    }
    var contacts := ContactPages(url);
    emails, trace := VisitContacts(url, contacts, domain, fetch, findAll, limiter, clock, emails, first, init);
    var valid := KeepValid(emails);
    return Ok(valid), trace;
  }
}
