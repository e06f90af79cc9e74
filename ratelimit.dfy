/** RateLimiter of scraper.py: a per-domain minimum spacing of requests. */
module RateLimit {
  import opened Time

  /** The delay of the module-level limiter, in milliseconds: the source
      computes 0.1 / requests_per_second seconds with requests_per_second = 0.5. */
  const DefaultDelay: nat := 200

  /** When wait lets a request for a domain go: at once, or once `delay` has
      passed since the domain's previous request, whichever is later. */
  function Release(now: int, last: int, delay: nat): (r: int)
    ensures r >= now && r >= last + delay
    ensures r == now || r == last + delay
  {
    var waitTime := last + delay - now;
    if waitTime > 0 then now + waitTime else now
  }

  /** Two waits in a row on one domain are at least `delay` apart, whatever
      the clock reads at the second. */
  lemma ConsecutiveWaits(now1: int, now2: int, last: int, delay: nat)
    ensures Release(now2, Release(now1, last, delay), delay) >= Release(now1, last, delay) + delay
  {
  }

  class RateLimiter {
    const delay: nat
    /** `last_request`: the release time of the latest request per domain. */
    var lastRequest: map<string, int>

    constructor (delay: nat)
      ensures this.delay == delay && lastRequest == map[]
    {
      this.delay := delay;
      lastRequest := map[];
    }

    /** `last_request[domain]` of the defaultdict: 0 for a domain never seen. */
    function Last(domain: string): int
      reads this
    {
      if domain in lastRequest then lastRequest[domain] else 0
    }

    /** wait: sleep until the release time, then record the clock for this
        domain only. */
    method Wait(domain: string, clock: Clock) returns (release: int)
      modifies this, clock
      ensures release == Release(old(clock.now), old(Last(domain)), delay)
      ensures release >= old(clock.now) && release >= old(Last(domain)) + delay
      ensures clock.now == release
      ensures lastRequest == old(lastRequest)[domain := release]
      ensures forall other | other != domain :: Last(other) == old(Last(other))
    {
      release := Release(clock.now, Last(domain), delay);
      clock.SleepUntil(release);
      lastRequest := lastRequest[domain := clock.now];
    }
  }
}
