/** Website discovery of scraper.py: get_company_url and find_website_url, with
    the Google Custom Search call and the HEAD request given as functions. */
module Resolver {
  import opened Wrappers
  import opened Urls

  /** The query get_company_url sends. */
  function Query(company: string): string {
    company + " official website"
  }

  /** get_company_url. `search` gives the first result's link, or None when the
      call raised or returned no items. */
  function CompanyUrl(company: string, search: string -> Option<string>): (url: Option<string>)
    ensures url.Some? <==> search(Query(company)).Some?
    ensures url.Some? ==> "http" <= url.value
    ensures url.Some? ==> url.value == EnsureScheme(search(Query(company)).value)
    ensures url.Some? && "http" <= search(Query(company)).value ==> url.value == search(Query(company)).value
    ensures url.Some? && !("http" <= search(Query(company)).value) ==>
      url.value == "https://" + search(Query(company)).value
  {
    match search(Query(company))
    case None => None
    case Some(link) => Some(EnsureScheme(link))
  }

  /** find_website_url. `verify` is verify_url: a HEAD request answered with 200. */
  function FindWebsiteUrl(company: string, search: string -> Option<string>, verify: string -> bool): (url: Option<string>)
    ensures url.Some? ==> "http" <= url.value && verify(url.value)
    ensures url.Some? <==> search(Query(company)).Some? && verify(CompanyUrl(company, search).value)
    ensures url.Some? ==> url == CompanyUrl(company, search)
  {
    var candidate := CompanyUrl(company, search);
    if candidate.Some? && |candidate.value| > 0 && verify(candidate.value) then candidate else None
  }
}
