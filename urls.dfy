/** The URL helpers of scraper.py: candidate URLs from a company name
    (get_possible_urls), contact-page URLs (get_contact_pages), the scheme
    prefixing of get_company_url and the host extraction of scrape_site. */
module Urls {
  import opened Wrappers
  import opened Text

  /** Characters get_possible_urls removes (or, for `&`, rewrites to "and"). */
  predicate IsScrubbed(c: char) {
    c == ' ' || c == '\'' || c == '&' || c == ',' || c == '.'
  }

  /** A candidate-URL base: lower-case and free of the scrubbed characters. */
  predicate Clean(b: string) {
    NoUpper(b) && forall k | 0 <= k < |b| :: !IsScrubbed(b[k])
  }

  /** The five replace() calls of get_possible_urls, in the source's order. */
  function Scrub(s: string): string {
    ReplaceChar(ReplaceChar(ReplaceChar(ReplaceChar(ReplaceChar(
      s, ' ', ""), '\'', ""), '&', "and"), ',', ""), '.', "")
  }

  /** The `base` of get_possible_urls. */
  function NameBase(name: string): string {
    Scrub(Lower(name))
  }

  /** Reference definition: what a single character of the lower-cased name becomes. */
  function SquashChar(c: char): string {
    if c == '&' then "and" else if IsScrubbed(c) then "" else [c]
  }

  function Squashed(s: string): string {
    if s == [] then [] else SquashChar(s[0]) + Squashed(s[1..])
  }

  lemma ReplaceCharSingle(x: char, c: char, r: string)
    ensures ReplaceChar([x], c, r) == if x == c then r else [x]
  {
    assert [x][1..] == [];
    assert ReplaceChar([x], c, r) == (if x == c then r else [x]) + ReplaceChar([], c, r);
  }

  lemma ScrubChar(x: char)
    ensures Scrub([x]) == SquashChar(x)
  {
    ReplaceCharSingle(x, ' ', "");
    var s1 := ReplaceChar([x], ' ', "");
    if x == ' ' {
      assert s1 == [];
    } else {
      ReplaceCharSingle(x, '\'', "");
      if x == '\'' {
      } else {
        ReplaceCharSingle(x, '&', "and");
        if x == '&' {
          ReplaceCharAbsent("and", ',', "");
          ReplaceCharAbsent("and", '.', "");
        } else {
          ReplaceCharSingle(x, ',', "");
          ReplaceCharSingle(x, '.', "");
        }
      }
    }
  }

  lemma ScrubAppend(a: string, b: string)
    ensures Scrub(a + b) == Scrub(a) + Scrub(b)
  {
    ReplaceCharAppend(a, b, ' ', "");
    var a1, b1 := ReplaceChar(a, ' ', ""), ReplaceChar(b, ' ', "");
    ReplaceCharAppend(a1, b1, '\'', "");
    var a2, b2 := ReplaceChar(a1, '\'', ""), ReplaceChar(b1, '\'', "");
    ReplaceCharAppend(a2, b2, '&', "and");
    var a3, b3 := ReplaceChar(a2, '&', "and"), ReplaceChar(b2, '&', "and");
    ReplaceCharAppend(a3, b3, ',', "");
    var a4, b4 := ReplaceChar(a3, ',', ""), ReplaceChar(b3, ',', "");
    ReplaceCharAppend(a4, b4, '.', "");
  }

  /** The five sequential replacements act character by character, as SquashChar says. */
  lemma {:induction false} ScrubIsSquashed(s: string)
    ensures Scrub(s) == Squashed(s)
  {
    if s != [] {
      assert s == [s[0]] + s[1..];
      ScrubAppend([s[0]], s[1..]);
      ScrubChar(s[0]);
      ScrubIsSquashed(s[1..]);
    }
  }

  lemma CleanAppend(a: string, b: string)
    requires Clean(a) && Clean(b)
    ensures Clean(a + b)
  {
    forall k | 0 <= k < |a + b| ensures !IsUpper((a + b)[k]) && !IsScrubbed((a + b)[k]) {
      if k < |a| {
        assert (a + b)[k] == a[k];
      } else {
        assert (a + b)[k] == b[k - |a|];
      }
    }
  }

  lemma {:induction false} SquashedClean(s: string)
    requires NoUpper(s)
    ensures Clean(Squashed(s))
  {
    if s != [] {
      assert NoUpper(s[1..]);
      SquashedClean(s[1..]);
      CleanAppend(SquashChar(s[0]), Squashed(s[1..]));
    }
  }

  /** The base is lower-case and contains no space, apostrophe, ampersand,
      comma or period, and it is the lower-cased name with spaces, apostrophes,
      commas and periods dropped and each `&` spelled "and". */
  lemma NameBaseClean(name: string)
    ensures NameBase(name) == Squashed(Lower(name))
    ensures Clean(NameBase(name))
  {
    ScrubIsSquashed(Lower(name));
    SquashedClean(Lower(name));
  }

  lemma NameBaseHasNoSpace(name: string)
    ensures ' ' !in NameBase(name)
  {
    var base := NameBase(name);
    NameBaseClean(name);
    forall k | 0 <= k < |base| ensures base[k] != ' ' {
      assert !IsScrubbed(base[k]);
    }
  }

  /** get_possible_urls: ten candidates; the last two are built with a space
      replaced by '-' and '_', but the base has no spaces left, so both equal
      the second candidate. */
  function PossibleUrls(name: string): (urls: seq<string>)
    ensures |urls| == 10
    ensures urls[8] == urls[1] && urls[9] == urls[1]
    ensures forall k | 0 <= k < 10 :: "https://" <= urls[k]
  {
    var base := NameBase(name);
    NameBaseHasNoSpace(name);
    ReplaceCharAbsent(base, ' ', "-");
    ReplaceCharAbsent(base, ' ', "_");
    [ "https://www." + base + ".com",
      "https://" + base + ".com",
      "https://www." + base + ".org",
      "https://" + base + ".org",
      "https://www." + base + ".net",
      "https://" + base + ".net",
      "https://www." + base + ".co",
      "https://" + base + ".co" ]
    + [ "https://" + ReplaceChar(base, ' ', "-") + ".com",
        "https://" + ReplaceChar(base, ' ', "_") + ".com" ]
  }

  /** The first eight candidates are pairwise different, so the list holds
      exactly eight distinct URLs. */
  lemma PossibleUrlsDistinct(name: string)
    ensures forall i, j | 0 <= i < j < 8 :: PossibleUrls(name)[i] != PossibleUrls(name)[j]
  {
    var u := PossibleUrls(name);
    var n := |NameBase(name)|;
    assert |u[0]| == n + 16 && |u[2]| == n + 16 && |u[4]| == n + 16;
    assert |u[1]| == n + 12 && |u[3]| == n + 12 && |u[5]| == n + 12;
    assert |u[6]| == n + 15 && |u[7]| == n + 11;
    assert u[0][n + 15] == 'm' && u[2][n + 15] == 'g' && u[4][n + 15] == 't';
    assert u[1][n + 11] == 'm' && u[3][n + 11] == 'g' && u[5][n + 11] == 't';
  }

  /** Reference reading of the last two candidates as evidently intended: the
      name's words joined by `sep` rather than run together. */
  function SquashedWith(s: string, sep: string): string {
    if s == [] then [] else (if s[0] == ' ' then sep else SquashChar(s[0])) + SquashedWith(s[1..], sep)
  }

  /** get_possible_urls with the hyphen and underscore variants built from the
      words of the name. */
  function IntendedPossibleUrls(name: string): (urls: seq<string>)
    ensures |urls| == 10
    ensures urls[..8] == PossibleUrls(name)[..8]
  {
    PossibleUrls(name)[..8]
    + [ "https://" + SquashedWith(Lower(name), "-") + ".com",
        "https://" + SquashedWith(Lower(name), "_") + ".com" ]
  }

  lemma {:induction false} SquashedWithLonger(s: string, sep: string)
    requires |sep| > 0
    ensures |SquashedWith(s, sep)| >= |Squashed(s)|
    ensures ' ' in s ==> |SquashedWith(s, sep)| > |Squashed(s)|
  {
    if s != [] {
      SquashedWithLonger(s[1..], sep);
      if s[0] != ' ' {
        assert ' ' in s ==> ' ' in s[1..];
      }
    }
  }

  lemma {:induction false} SquashedWithNoSpace(s: string, sep: string)
    requires ' ' !in s
    ensures SquashedWith(s, sep) == Squashed(s)
  {
    if s != [] {
      SquashedWithNoSpace(s[1..], sep);
    }
  }

  lemma {:induction false} SquashedWithSeparatorsDiffer(s: string)
    requires ' ' in s
    ensures SquashedWith(s, "-") != SquashedWith(s, "_")
  {
    var x, y := SquashedWith(s, "-"), SquashedWith(s, "_");
    if s[0] == ' ' {
      assert x[0] == '-' && y[0] == '_';
    } else {
      assert ' ' in s[1..];
      SquashedWithSeparatorsDiffer(s[1..]);
      var h := SquashChar(s[0]);
      assert x[|h|..] == SquashedWith(s[1..], "-");
      assert y[|h|..] == SquashedWith(s[1..], "_");
    }
  }

  /** Wrapping two different hosts the same way gives two different URLs. */
  lemma DotComDiffer(a: string, b: string)
    requires a != b
    ensures "https://" + a + ".com" != "https://" + b + ".com"
  {
    var x, y := "https://" + a + ".com", "https://" + b + ".com";
    if |a| == |b| {
      assert x[8..8 + |a|] == a && y[8..8 + |b|] == b;
    }
  }

  /** What the code loses: for a name with a space, entries 9 and 10 as written
      repeat entry 2, while the intended entries differ from entry 2 and from
      each other. */
  lemma SpacedNameVariants(name: string)
    requires ' ' in name
    ensures PossibleUrls(name)[8] == PossibleUrls(name)[1] && PossibleUrls(name)[9] == PossibleUrls(name)[1]
    ensures IntendedPossibleUrls(name)[8] != PossibleUrls(name)[8]
    ensures IntendedPossibleUrls(name)[8] != IntendedPossibleUrls(name)[1]
    ensures IntendedPossibleUrls(name)[9] != IntendedPossibleUrls(name)[1]
    ensures IntendedPossibleUrls(name)[8] != IntendedPossibleUrls(name)[9]
  {
    var l := Lower(name);
    var k :| 0 <= k < |name| && name[k] == ' ';
    assert l[k] == ' ';
    NameBaseClean(name);
    SquashedWithLonger(l, "-");
    SquashedWithLonger(l, "_");
    SquashedWithSeparatorsDiffer(l);
    var u := PossibleUrls(name);
    var v := IntendedPossibleUrls(name);
    assert u[1] == "https://" + Squashed(l) + ".com";
    assert v[1] == u[1];
    DotComDiffer(SquashedWith(l, "-"), Squashed(l));
    DotComDiffer(SquashedWith(l, "_"), Squashed(l));
    DotComDiffer(SquashedWith(l, "-"), SquashedWith(l, "_"));
  }

  /** For a name without spaces the intended list is the list as written. */
  lemma UnspacedNameVariants(name: string)
    requires ' ' !in name
    ensures IntendedPossibleUrls(name) == PossibleUrls(name)
  {
    var l := Lower(name);
    assert ' ' !in l by {
      forall k | 0 <= k < |l| ensures l[k] != ' ' {
        assert name[k] != ' ';
      }
    }
    NameBaseClean(name);
    SquashedWithNoSpace(l, "-");
    SquashedWithNoSpace(l, "_");
    var u := PossibleUrls(name);
    assert u == u[..8] + [u[8], u[9]];
  }

  /** The six suffixes get_contact_pages appends, in order. */
  const ContactSuffixes: seq<string> :=
    ["/contact", "/contact-us", "/about", "/about-us", "/support", "/help"]

  /** get_contact_pages. */
  function ContactPages(baseUrl: string): (pages: seq<string>)
    ensures |pages| == |ContactSuffixes|
    ensures forall k | 0 <= k < |pages| :: pages[k] == RStrip(baseUrl, '/') + ContactSuffixes[k]
  {
    var stem := RStrip(baseUrl, '/');
    [stem + "/contact", stem + "/contact-us", stem + "/about",
     stem + "/about-us", stem + "/support", stem + "/help"]
  }

  /** Every contact page is the base URL with its trailing slashes removed,
      followed by one suffix: the stem is a prefix of the base, what the base
      has beyond it is all slashes, and the stem never ends in a slash. */
  lemma ContactPagesStem(baseUrl: string, k: nat)
    requires k < 6
    ensures exists stem ::
      && ContactPages(baseUrl)[k] == stem + ContactSuffixes[k]
      && stem <= baseUrl
      && (forall i | |stem| <= i < |baseUrl| :: baseUrl[i] == '/')
      && (stem == [] || stem[|stem| - 1] != '/')
  {
    var stem := RStrip(baseUrl, '/');
    assert ContactPages(baseUrl)[k] == stem + ContactSuffixes[k];
  }

  /** A trailing slash on the base URL makes no difference. */
  lemma ContactPagesTrailingSlash(baseUrl: string)
    ensures ContactPages(baseUrl + "/") == ContactPages(baseUrl)
    ensures ContactPages(RStrip(baseUrl, '/')) == ContactPages(baseUrl)
  {
    RStripTrailing(baseUrl, '/');
  }

  /** The scheme prefixing of get_company_url: a link that does not start with
      "http" gets "https://" in front. */
  function EnsureScheme(link: string): (url: string)
    ensures "http" <= url
    ensures "http" <= link ==> url == link
    ensures !("http" <= link) ==> url == "https://" + link
  {
    if "http" <= link then link else "https://" + link
  }

  /** Prefixing twice is prefixing once, and the result is never empty. */
  lemma EnsureSchemeIdempotent(link: string)
    ensures EnsureScheme(EnsureScheme(link)) == EnsureScheme(link)
    ensures |EnsureScheme(link)| > 0
  {
  }

  /** `url.split('/')[2]`, with the IndexError of a URL that has fewer than two
      slashes as None. */
  function DomainOf(url: string): (d: Option<string>)
    ensures d.Some? ==> '/' !in d.value
  {
    var parts := Split(url, "/");
    if |parts| > 2 then
      ContainsChar(parts[2], '/');
      Some(parts[2])
    else None
  }

  /** `url.split('/')[2]` fails exactly when the URL has fewer than two slashes. */
  lemma DomainOfNone(url: string)
    ensures DomainOf(url).None? <==> CountChar(url, '/') < 2
  {
    SplitCount(url, '/');
  }

  /** The host piece of a split: what comes before the next slash. */
  lemma HostPiece(host: string, tail: string)
    requires '/' !in host
    requires tail == [] || tail[0] == '/'
    ensures Split(host + tail, "/")[0] == host
  {
    if tail == [] {
      assert host + tail == host;
      FindCharAbsent(host, '/');
    } else {
      assert host + tail == host + "/" + tail[1..];
      SplitAtFirst(host, '/', tail[1..]);
    }
  }

  /** Splitting scheme://rest at slashes gives the scheme, an empty piece and
      the pieces of the rest. */
  lemma SplitSchemeHost(scheme: string, rest: string)
    requires '/' !in scheme
    ensures Split(scheme + "//" + rest, "/") == [scheme, []] + Split(rest, "/")
  {
    var r1 := [] + ['/'] + rest;
    assert scheme + "//" + rest == scheme + ['/'] + r1;
    SplitAtFirst(scheme, '/', r1);
    SplitAtFirst([], '/', rest);
  }

  /** For a URL of the form scheme://host/path the domain is the host. */
  lemma DomainOfHost(scheme: string, host: string, tail: string)
    requires '/' !in scheme && '/' !in host
    requires tail == [] || tail[0] == '/'
    ensures DomainOf(scheme + "//" + host + tail) == Some(host)
  {
    var rest := host + tail;
    assert scheme + "//" + host + tail == scheme + "//" + rest;
    SplitSchemeHost(scheme, rest);
    HostPiece(host, tail);
  }

  /** The bare host the resolver prefixes with "https://" is the domain. */
  lemma DomainOfHttpsHost(host: string)
    requires '/' !in host
    ensures DomainOf("https://" + host) == Some(host)
  {
    DomainOfHost("https:", host, []);
    assert "https:" + "//" == "https://";
    assert "https://" + host == "https:" + "//" + host + [];
  }
}
