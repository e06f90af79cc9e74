# Company email scraper, modelled in Dafny

`scraper.py` reads a list of company names. For each company it works in four steps:

1. It looks the company up in a JSON results cache with a time-to-live.
2. If the cache has nothing fresh, it finds the company's website through a web search, then checks the site with a HEAD request.
3. It crawls the homepage and six fixed contact pages. Every request is spaced by a per-domain rate limiter.
4. It keeps the addresses that pass a deny-list filter, writes one result row, and caches any non-empty result.

This project models that core. Time, HTTP, HTML parsing and the search API are inputs:

- The clock is an integer number of milliseconds, held by the class `Time.Clock`. A network call advances it by an unknown amount.
- `fetch: string -> Option<Page>` gives a page's anchor hrefs and visible text. `None` is a request or parse failure, which `scrape_emails` swallows.
- `findAll: string -> seq<string>` stands for `EMAIL_REGEX.findall`. The model assumes only that each result is a substring of the text it scanned (`Emails.FindAllSound`).
- `search: string -> Option<string>` gives the first search result's link, or `None` when the call raised or returned nothing.
- `verify: string -> bool` stands for `verify_url`.

Modules, one per file:

| file | module | what it holds |
|---|---|---|
| `wrappers.dfy` | `Wrappers` | `Option` and `Result` |
| `text.dfy` | `Text` | the Python string operations used: `lower()` (ASCII letters only), `in`, `split`, `join`, one-character `replace`, one-character `rstrip` |
| `urls.dfy` | `Urls` | `get_possible_urls`, `get_contact_pages`, the `https://` prefixing, the domain extraction |
| `emails.dfy` | `Emails` | `validate_email`, `EMAIL_REGEX.match`, mailto token parsing, `scrape_emails` |
| `time.dfy` | `Time` | the clock |
| `ratelimit.dfy` | `RateLimit` | `RateLimiter` |
| `cache.dfy` | `Cache` | `ResultsCache`, in memory |
| `resolver.dfy` | `Resolver` | `get_company_url`, `find_website_url` |
| `crawler.dfy` | `Crawler` | `scrape_site` |
| `pipeline.dfy` | `Pipeline` | `scrape_companies` |

The crawl has a ghost trace of `Wait(domain, arrival, release)` and `Fetch(url)` events. The predicate `Crawler.Paced` says that every fetch comes right after a wait on the site's domain, and that each wait is released by the rate limiter's rule. `Pipeline.RowFits` says how each result row came about, from the oracles and the loaded cache.

## Model

| member | source | states |
|---|---|---|
| Text.Lower | scraper.py:158 | lower-casing keeps the length, maps each character pointwise, and leaves no upper-case ASCII letter |
| Text.LowerIdempotent | scraper.py:183 | lower-casing twice is the same as lower-casing once |
| Text.Find | scraper.py:185 | the index returned is an occurrence of the pattern with none earlier; `None` means the pattern occurs nowhere |
| Text.ContainsIff | scraper.py:185 | Python's `p in s` holds exactly when `p` starts at some index of `s` |
| Text.Split | scraper.py:159 | `split` gives at least one piece, and no piece contains the separator |
| Text.JoinSplit | scraper.py:159 | joining the pieces of a split with the separator gives back the original string |
| Text.SplitNoUpper | scraper.py:159 | the pieces of a lower-case string are lower-case |
| Text.SplitCount | scraper.py:206 | splitting at one character gives one piece more than the number of times that character occurs |
| Text.JoinNoUpper | scraper.py:270-271 | joining lower-case strings with ", " gives a lower-case string |
| Text.ReplaceCharAppend | scraper.py:77-81 | `replace` of one character distributes over concatenation |
| Text.ReplaceCharAbsent | scraper.py:91 | replacing a character that does not occur changes nothing |
| Text.RStrip | scraper.py:193 | `rstrip('/')` returns a prefix; what it removed is all slashes; the result does not end in a slash |
| Text.RStripUnique | scraper.py:193 | that prefix is the only one with those three properties |
| Text.RStripTrailing | scraper.py:193-198 | one more trailing slash makes no difference, and stripping twice is stripping once |
| Urls.ScrubIsSquashed | scraper.py:76-81 | the five chained replacements act character by character: space, apostrophe, comma and period vanish, and `&` becomes "and" |
| Urls.NameBase | scraper.py:76-81 | the base name of the URL guesses; specified by Urls.ScrubIsSquashed and Urls.NameBaseClean |
| Urls.NameBaseClean | scraper.py:76-81 | the base equals that character-wise rewriting of the lower-cased name; it is lower-case and has no space, `'`, `&`, `,` or `.` |
| Urls.NameBaseHasNoSpace | scraper.py:76-77 | the base has no space left |
| Urls.PossibleUrls | scraper.py:74-92 | there are ten candidates, all starting with `https://`; entries 9 and 10 equal entry 2 |
| Urls.PossibleUrlsDistinct | scraper.py:82-90 | the first eight candidates are pairwise different |
| Urls.SpacedNameVariants | scraper.py:91 | for a name with a space, entries 9 and 10 as written repeat entry 2; the intended hyphen and underscore variants differ from entry 2 and from each other |
| Urls.UnspacedNameVariants | scraper.py:91 | for a name without spaces, the intended list and the list as written agree |
| Urls.ContactPages | scraper.py:190-199 | there are six URLs; entry k is the base with trailing slashes stripped, followed by the k-th of `/contact`, `/contact-us`, `/about`, `/about-us`, `/support`, `/help` |
| Urls.ContactPagesStem | scraper.py:192-199 | each contact URL is a stem plus a suffix; the stem is a prefix of the base, only slashes follow it in the base, and it never ends in a slash |
| Urls.ContactPagesTrailingSlash | scraper.py:193-198 | a base URL with or without trailing slashes gives the same contact pages |
| Urls.EnsureScheme | scraper.py:114-115 | the result starts with "http"; a link that already does is kept; any other link gets `https://` in front |
| Urls.EnsureSchemeIdempotent | scraper.py:114-115 | prefixing twice is prefixing once, and the result is never empty |
| Urls.DomainOf | scraper.py:206 | the domain, when the URL has one, contains no slash |
| Urls.DomainOfNone | scraper.py:206 | `url.split('/')[2]` raises the IndexError exactly when the URL has fewer than two slashes |
| Urls.DomainOfHost | scraper.py:206 | for `scheme://host` followed by nothing or by a path starting with `/`, the domain is the host |
| Urls.DomainOfHttpsHost | scraper.py:206 | a bare host the resolver prefixed with `https://` comes back as the domain |
| Emails.ValidateEmail | scraper.py:177-188 | `validate_email`; specified by Emails.ValidateEmailSpec and Emails.ValidateEmailCaseInsensitive |
| Emails.ValidateEmailSpec | scraper.py:177-188 | an address is rejected exactly when `noreply@`, `no-reply@` or `donotreply@` occurs somewhere in its lower-cased form |
| Emails.ValidateEmailCaseInsensitive | scraper.py:183-188 | the verdict is the same for an address and its lower-cased form, and for any two addresses that lower-case alike |
| Emails.ValidateEmailRejectsNoReply | scraper.py:179-186 | "noreply@example.com" is rejected |
| Emails.ValidateEmailRejectsMixedCase | scraper.py:183-186 | "NoReply@Example.com" is rejected |
| Emails.ValidateEmailAcceptsPlain | scraper.py:185-188 | "jane@example.com" is accepted |
| Emails.EmailRegexMatch | scraper.py:160 | `EMAIL_REGEX.match`, on ASCII; specified by Emails.MatchIgnoresTail and Emails.SimpleAddressMatches |
| Emails.MatchIgnoresTail | scraper.py:160 | `EMAIL_REGEX.match` only anchors at the start: a matching token still matches when any text follows that does not start with a word character |
| Emails.EmailRegexTrailingJunk | scraper.py:160 | "bob@foo.com>junk" matches |
| Emails.EmailRegexExample | scraper.py:21 | "bob@foo.com" matches the pattern |
| Emails.SimpleAddressMatches | scraper.py:21 | an alphanumeric local part, `@`, an alphanumeric host, `.` and at least two lower-case letters always match |
| Emails.MailtoToken | scraper.py:158-159 | a token exists exactly when the lower-cased href contains "mailto:"; a token has no `?`, no upper-case letter and no "mailto:" |
| Emails.SelectedLinkHasToken | scraper.py:156-159 | every anchor the `a[href^="mailto:"]` selector picks yields a token, so the per-link `except` cannot fire on the split |
| Emails.MailtoTokenOfLink | scraper.py:158-159 | `mailto:ADDR?QUERY` yields exactly ADDR when ADDR is lower-case and has no `?` or `:` |
| Emails.MailtoTokenOfBareLink | scraper.py:158-159 | `mailto:ADDR` yields exactly ADDR under the same conditions |
| Emails.MailtoTokenOfAnyLink | scraper.py:158-159 | for any ADDR without `?` or `:`, in any case, `mailto:ADDR?QUERY` and `mailto:ADDR` both yield ADDR lower-cased |
| Emails.LinkEmails | scraper.py:156-163 | what one anchor contributes: a selected `mailto:` link's token when it matches; specified by Emails.SelectedLinkHasToken and Emails.MailtoPageExample |
| Emails.MailtoEmails | scraper.py:156-163 | the union over the anchors; specified by Emails.ScrapeEmails, whose loop computes it |
| Emails.PageEmails | scraper.py:148-175 | the set `scrape_emails` returns for a page; specified by Emails.PageEmailsShape and Emails.ScrapeEmails |
| Emails.ScrapeEmails | scraper.py:148-175 | the mailto loop and the text scan give exactly the page's extracted set; a failed fetch gives the empty set |
| Emails.PageEmailsShape | scraper.py:156-170 | every address from a page is lower-case; those from links also have no `?` and match the pattern |
| Emails.MailtoPageExample | scraper.py:156-163 | `<a href="mailto:bob@foo.com?subject=hi">` yields exactly bob@foo.com when the text holds no address |
| Emails.BareMailtoPage | scraper.py:156-170 | a page whose only anchor is `mailto:ADDR`, with no address in its text, yields exactly ADDR |
| Emails.ValidateEmailWithoutY | scraper.py:177-188 | every deny-list pattern contains a `y`, so a lower-case address without one passes `validate_email` |
| Emails.PlainAddressQualifies | scraper.py:177-188 | an address of lower-case letters and digits other than `y`, shaped local@host.tld with a letter-only tld of two or more, has no `?` or `:`, is lower-case, matches the pattern and passes `validate_email` |
| Emails.ExampleAddressQualifies | scraper.py:177-188 | hello@acme.com meets the conditions of the bare-link lemma and passes `validate_email` |
| Time.Clock.SleepUntil | scraper.py:37-38 | sleeping until a time already past does nothing; otherwise the clock reads that time afterwards |
| RateLimit.Release | scraper.py:35-39 | the release time is no earlier than the arrival, and no earlier than the last request plus the delay; it is one of the two |
| RateLimit.ConsecutiveWaits | scraper.py:34-39 | two waits in a row on one domain release at least `delay` apart, whenever the second one arrives |
| RateLimit.RateLimiter.constructor | scraper.py:30-32 | a new limiter has the given delay and has seen no domain |
| RateLimit.RateLimiter.Last | scraper.py:32-36 | `last_request[domain]` with the defaultdict's 0; specified by RateLimit.RateLimiter.Wait |
| RateLimit.RateLimiter.Wait | scraper.py:34-39 | the release follows `Release` from the clock and the domain's last request (0 for a new domain); the clock reads the release afterwards; only this domain's entry changes, and it becomes the release |
| Cache.Fresh | scraper.py:59 | the TTL test; specified by Cache.ExpiryIsPermanent and Cache.OldEntryIsAbsent |
| Cache.Lookup | scraper.py:56-61 | `get` on a snapshot of the cache; specified by Cache.SetThenGet, Cache.SetKeepsOthers and Cache.ExpiryIsPermanent |
| Cache.SetThenGet | scraper.py:56-67 | a `set` followed by a `get` at the same time returns what was set, when `expire_days > 0` |
| Cache.SetKeepsOthers | scraper.py:63-67 | a `set` leaves every other company's `get` unchanged |
| Cache.ExpiryIsPermanent | scraper.py:59 | once an entry has expired it stays expired; an entry fresh now was fresh before |
| Cache.OldEntryIsAbsent | scraper.py:59-61 | an entry `expire_days` days old or older reads as absent |
| Cache.ResultsCache.constructor | scraper.py:44-47 | the cache starts with the loaded content and the given expiry |
| Cache.ResultsCache.Get | scraper.py:56-61 | `get` at the current time: `Cache.Lookup` on the cache's entries; specified as that function is |
| Cache.ResultsCache.Set | scraper.py:63-67 | only this company's entry changes; it becomes the emails, stamped with the current time |
| Resolver.Query | scraper.py:107 | the search query "NAME official website"; used by Resolver.CompanyUrl |
| Resolver.CompanyUrl | scraper.py:102-120 | a URL exists exactly when the search for "NAME official website" returned a link; the URL is that link when it starts with "http", and the link with `https://` in front otherwise |
| Resolver.FindWebsiteUrl | scraper.py:122-127 | the website is the search result with its scheme added, and only when `verify` accepts it; otherwise there is none |
| Crawler.SitePages | scraper.py:209-213 | the crawl visits seven pages: the homepage first, then the six contact pages in order |
| Crawler.GatheredUnion | scraper.py:209-218 | an address is gathered exactly when some one of the seven pages yields it, so a failing page takes nothing away from the others |
| Crawler.GatheredNoUpper | scraper.py:209-218 | every gathered address is lower-case |
| Crawler.ValidEmails | scraper.py:223 | the addresses that pass `validate_email`; specified by Crawler.KeepValid |
| Crawler.SiteEmails | scraper.py:209-223 | the valid addresses of the seven pages; specified by Crawler.SiteEmailsShape and Crawler.ScrapeSite |
| Crawler.SiteEmailsShape | scraper.py:223 | every address a site reports is lower-case and passes `validate_email` |
| Crawler.PacedShape | scraper.py:207-216 | a paced trace has two events per page: for page k, a wait on the site's domain and then the fetch of page k |
| Crawler.LastReleaseIsLatest | scraper.py:207-216 | the latest release is no earlier than any release in the trace, nor than the domain's previous request |
| Crawler.PacedSpacing | scraper.py:207-216 | any two waits of a crawl release at least `delay` apart; the first releases at least `delay` after the domain's previous request |
| Crawler.KeepValid | scraper.py:223 | the list built from the set holds each address that passes `validate_email`, once each, and nothing else |
| Crawler.PacedWait | scraper.py:207-215 | the wait before a fetch keeps the trace paced with one more page; the domain's limiter entry becomes the latest release and no other entry changes; the clock does not go back |
| Crawler.Visit | scraper.py:214-218 | one step of the crawl: one paced wait on the domain, then exactly the page's extracted set; only the domain's limiter entry changes |
| Crawler.VisitContacts | scraper.py:213-221 | the contact loop fetches the six pages in order after the homepage; the gathered set is the union over all seven pages; the trace stays paced |
| Crawler.ScrapeSite | scraper.py:201-224 | with no domain, the result is the IndexError, with no request made and nothing changed. Otherwise the list has no duplicates and holds exactly the valid addresses of the seven pages; every fetch follows a paced wait on the domain; only the domain's limiter entry changes |
| Pipeline.Cell | scraper.py:255-280 | the "Emails" column of a row; specified by Pipeline.ScrapedCellIsPlain |
| Pipeline.ProcessCompany | scraper.py:251-276 | a non-empty fresh cache hit is returned as is: the cache, the rate limiter and the clock are left unchanged. Otherwise the outcome follows from the search, the verification, the domain and the site's addresses. The rate limiter changes only for the site's domain, by a paced crawl of its seven pages. The cache is written only for a non-empty scrape, only for this company, stamped with the time after the crawl |
| Pipeline.RunStep | scraper.py:251-281 | one company's step keeps the run exact: every row still fits the cache as replayed before it, the new cache is the replay with the new row, and the clock readings stay in order |
| Pipeline.ReplayUntouched | scraper.py:249-272 | a company no row scraped keeps its loaded entry, or its absence |
| Pipeline.ReplayLatest | scraper.py:269-272 | the cache holds the latest scrape of each company, stamped with the time that company's step ended |
| Pipeline.ReplayAccounted | scraper.py:269-272 | every loaded key stays; every entry is the loaded one or the result of some scraped row, stamped with the end of that row's step |
| Pipeline.CachedRowSource | scraper.py:252-256 | a cached row holds a non-empty list, fresh at the time of its lookup: the loaded entry when no earlier row scraped the company, or else the latest earlier scrape with its stamp |
| Pipeline.FirstHit | scraper.py:252-256 | a company met for the first time, whose loaded entry is non-empty and fresh at its lookup, is answered from the cache |
| Pipeline.NoRunHitWithoutTTL | scraper.py:252-256 | with `expire_days` of zero or less, a company scraped earlier in the run is never answered from that scrape's entry |
| Pipeline.StampsWithinRun | scraper.py:63-67 | every final entry is the loaded one, or a non-empty scraped result stamped between the run's start and end |
| Pipeline.DomainsMembers | scraper.py:206-207 | a domain is in the set of crawled domains exactly when the site found for one of the companies has it |
| Pipeline.ScrapeCompanies | scraper.py:236-283 | see the paragraph after this table |
| Pipeline.ScrapedCellIsPlain | scraper.py:268-276 | a scraped cell is lower-case, so it can never read as "No website found", "Not found" or "Error: …" |
| Pipeline.SingleCompanyOutcome | scraper.py:251-276 | in a one-company run (a bare host found and verified, one `mailto:` link on the homepage, no address elsewhere) the outcome is the scrape of exactly that address |
| Pipeline.SingleRunTable | scraper.py:236-283 | what a one-company run from an empty cache promises forces the single row `Scraped([addr])` and a cache holding only that company with `[addr]`, stamped with the end of its step |
| Pipeline.SingleCompanyRun | scraper.py:236-283 | in a one-company run (as above) from an empty cache, the table is the single row `Scraped([addr])`, and the cache holds exactly that company with `[addr]` |

What `Pipeline.ScrapeCompanies` states:

- An empty company list gives `None` and touches nothing.
- Otherwise there is exactly one row per company, in input order.
- It also returns the ghost clock readings `times`: row `i` was processed from `times[i]` to `times[i + 1]`. The readings never go back, the first is the clock at the start and the last the clock at the end.
- `Pipeline.StoreAfter` replays the cache from the loaded content: each scraped row writes its list, stamped with the time its step ended, as `cache.set` stamps with the current time.
- Each row fits exactly (`Pipeline.RowFits`). The lookup of its company in the replayed cache at `times[i]` decides the row. A fresh non-empty entry gives a `Cached` row with that list. Otherwise the row is explained by `Pipeline.Explains`: no website; `Error: list index out of range`; not found (no valid address on the site); or a non-empty, duplicate-free list of exactly the site's valid addresses.
- The final cache is the replay of all the rows.
- The lemmas after it draw the consequences: where a cached row's list came from and that it was fresh (`Pipeline.CachedRowSource`), first hits (`Pipeline.FirstHit`), no hit on a same-run entry without a positive TTL (`Pipeline.NoRunHitWithoutTTL`), the latest scrape is what the cache holds (`Pipeline.ReplayLatest`), and every entry is accounted for and stamped within the run (`Pipeline.ReplayAccounted`, `Pipeline.StampsWithinRun`).
- The rate limiter's record changes only for domains of the websites found for the companies (`Pipeline.SiteDomains`); every other domain keeps its entry, or its absence.

## Left out

- HTTP, the `Retry`/`HTTPAdapter` session with its backoff and status list, the timeouts and the headers are not modelled. A page fetch is the oracle `fetch`, and `verify_url` is the oracle `verify`.
- The Google Custom Search call is the oracle `search`. Only the query string and the `https://` prefixing are modelled.
- BeautifulSoup parsing, `soup.select` and `get_text` are not modelled. A page is given as its hrefs and its text. The anchors are taken in document order. The model keeps only those whose href starts with "mailto:", as the selector does.
- `EMAIL_REGEX.findall` over the page text is the oracle `findAll`. It is assumed to return only substrings of the text. What the regex finds in a given text is not computed, so no address is derived from page text on concrete input.
- `EMAIL_REGEX.match` is modelled on ASCII only. `\w` and `\b` use the ASCII word characters, and `lower()` maps only ASCII letters, whereas Python maps all of Unicode.
- Float time, `time.sleep`, `time.time`, `datetime` and `isoformat` are replaced by an integer clock in milliseconds. The limiter's delay is a given number of milliseconds. The default of 200 comes from 0.1 s / 0.5 requests per second. Cache timestamps are clock values, and the TTL is `expire_days` × 86 400 000.
- Time.Clock.SleepUntil: sets the clock to exactly the requested time. `time.sleep` can oversleep, and `wait` records `time.time()` after the sleep, which can be later than the computed release; the model records the release itself.
- `_load_cache`, `_save_cache` and `load_companies` do file I/O and are not modelled. The loaded cache and the company list are inputs, and the final cache content is an output.
- Pipeline.ScrapeCompanies: does not model a failing `_save_cache` inside `cache.set`. In the source that failure is caught after the row was appended, so the company gets a second, `Error:` row.
- The environment check at start-up, `create_session`, `get_proxy`, `print` logging and the `pandas` DataFrame are not modelled. The table is a sequence of rows, and `Pipeline.Cell` renders a row's "Emails" column.
- Pipeline.ProcessCompany: models no exception other than the domain IndexError. The oracles never raise, because the source catches everything inside `get_company_url`, `verify_url` and `scrape_emails`. Two more can be raised in the loop body and end in an `Error:` row. `cache.get` raises on a stored entry whose timestamp is not an ISO date (`datetime.fromisoformat`) or that lacks a key. The loaded cache is a typed map of well-formed entries, so that error path is left out. `cache.set` can raise from `_save_cache`, as the Pipeline.ScrapeCompanies line above says.
- Crawler.ScrapeSite: does not fix the order of the returned list. The source builds the list by iterating a set, so its order is arbitrary; the model picks elements one at a time.
- Pipeline.ScrapeCompanies: bounds the rate-limiter changes by the domains of all the companies' websites, including companies answered from the cache, whose sites are not crawled. The per-company bound, and the paced trace of each crawl, are in Pipeline.ProcessCompany.

Behaviour of the code as written that the model keeps:

- The mailto token is checked with `match`, which anchors at the start only. It is not a full match, so "bob@foo.com>junk" is kept whole (`Emails.EmailRegexTrailingJunk`).
- The top-level-domain class is `[A-Z|a-z]`. It also admits a literal `|`.
- A cached empty list counts as a miss, because the source tests `if cached_emails:`.
- When the domain lookup raises, the error row reads "Error: list index out of range".
- The limiter's delay is 0.1 / requests_per_second seconds.

## Findings

| source | as written | input that shows it | evidently intended | confidence | as-written member | corrected member |
|---|---|---|---|---|---|---|
| scraper.py:91 | the hyphen and underscore variants are built from `base`, whose spaces were already removed at scraper.py:77, so both repeat entry 2 | the name "Acme Co" gives "https://acmeco.com" three times | "https://acme-co.com" and "https://acme_co.com", made from the name's words | medium, not executed | Urls.PossibleUrls | Urls.SpacedNameVariants |

`Urls.IntendedPossibleUrls` builds the corrected list. `Urls.SpacedNameVariants` proves two things for every name with a space: the list as written repeats entry 2, and the intended entries differ from entry 2 and from each other. `Urls.UnspacedNameVariants` proves that the two lists agree for a name without spaces. `get_possible_urls` is not called anywhere else in the source, so no other member depends on it.
