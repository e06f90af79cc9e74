/** Email extraction and filtering of scraper.py: validate_email, the mailto
    token parsing of scrape_emails, EMAIL_REGEX.match on that token, and the
    per-page extraction with the HTML parser and EMAIL_REGEX.findall as inputs. */
module Emails {
  import opened Wrappers
  import opened Text

  /** The deny-list of validate_email. */
  const InvalidPatterns: seq<string> := ["noreply@", "no-reply@", "donotreply@"]

  /** validate_email: no deny-listed pattern occurs in the lower-cased address. */
  function ValidateEmail(email: string): bool {
    var e := Lower(email);
    !(Contains(e, InvalidPatterns[0]) || Contains(e, InvalidPatterns[1]) || Contains(e, InvalidPatterns[2]))
  }

  /** An address is rejected exactly when one of the patterns starts at some
      index of its lower-cased form. */
  lemma ValidateEmailSpec(email: string)
    ensures !ValidateEmail(email) <==>
      exists k, j | 0 <= k < |InvalidPatterns| && 0 <= j <= |email| ::
        OccursAt(Lower(email), InvalidPatterns[k], j)
  {
    var e := Lower(email);
    forall k | 0 <= k < |InvalidPatterns|
      ensures Contains(e, InvalidPatterns[k]) <==>
        exists j | 0 <= j <= |email| :: OccursAt(e, InvalidPatterns[k], j)
    {
      ContainsIff(e, InvalidPatterns[k]);
    }
  }

  /** The check ignores case: an address and its lower-cased form, or any two
      addresses that lower-case alike, are judged the same. */
  lemma ValidateEmailCaseInsensitive(a: string, b: string)
    ensures ValidateEmail(Lower(a)) == ValidateEmail(a)
    ensures Lower(a) == Lower(b) ==> ValidateEmail(a) == ValidateEmail(b)
  {
    LowerIdempotent(a);
  }

  // Three concrete addresses: a no-reply address in lower case and in mixed
  // case, and an ordinary one. Each string is passed as a parameter fixed by
  // `requires`, which keeps the verifier from evaluating the recursive
  // definitions on the literal all the way down.

  lemma ValidateEmailRejectsNoReply(e: string)
    requires e == "noreply@example.com"
    ensures !ValidateEmail(e)
  {
    LowerOfNoUpper(e);
    assert OccursAt(e, InvalidPatterns[0], 0);
  }

  lemma ValidateEmailRejectsMixedCase(e: string)
    requires e == "NoReply@Example.com"
    ensures !ValidateEmail(e)
  {
    var l := Lower(e);
    assert l[..8] == InvalidPatterns[0];
    assert OccursAt(l, InvalidPatterns[0], 0);
  }

  lemma ValidateEmailAcceptsPlain(e: string)
    requires e == "jane@example.com"
    ensures ValidateEmail(e)
  {
    LowerOfNoUpper(e);
    MissingCharNotContained(e, InvalidPatterns[0], 'y');
    MissingCharNotContained(e, InvalidPatterns[1], 'y');
    MissingCharNotContained(e, InvalidPatterns[2], 'y');
  }

  // ---- EMAIL_REGEX = \b[A-Za-z0-9._%+-]+@[A-Za-z0-9.-]+\.[A-Z|a-z]{2,}\b ----

  /** `\w` restricted to ASCII. */
  predicate IsWordChar(c: char) {
    'a' <= c <= 'z' || 'A' <= c <= 'Z' || '0' <= c <= '9' || c == '_'
  }

  predicate IsAlnum(c: char) {
    'a' <= c <= 'z' || 'A' <= c <= 'Z' || '0' <= c <= '9'
  }

  /** `[A-Za-z0-9._%+-]` */
  predicate IsLocalChar(c: char) {
    IsAlnum(c) || c == '.' || c == '_' || c == '%' || c == '+' || c == '-'
  }

  /** `[A-Za-z0-9.-]` */
  predicate IsDomainChar(c: char) {
    IsAlnum(c) || c == '.' || c == '-'
  }

  /** `[A-Z|a-z]`: the class contains a literal `|`. */
  predicate IsTldChar(c: char) {
    'A' <= c <= 'Z' || c == '|' || 'a' <= c <= 'z'
  }

  /** `\b` at position `i` of `s`. */
  predicate Boundary(s: string, i: int)
    requires 0 <= i <= |s|
  {
    (i > 0 && IsWordChar(s[i - 1])) != (i < |s| && IsWordChar(s[i]))
  }

  /** One way the pattern can match a prefix of `s`: the local part is
      `s[..at]`, `s[at]` is the `@`, the domain is `s[at+1..dot]`, `s[dot]` is
      the last `.`, and the top-level part `s[dot+1..end]` is followed by a
      word boundary. */
  predicate MatchSplit(s: string, at: int, dot: int, end: int)
    requires 0 <= at < dot < end <= |s|
  {
    && Boundary(s, 0)
    && 1 <= at && (forall k | 0 <= k < at :: IsLocalChar(s[k])) && s[at] == '@'
    && at + 1 < dot && (forall k | at < k < dot :: IsDomainChar(s[k])) && s[dot] == '.'
    && dot + 3 <= end && (forall k | dot < k < end :: IsTldChar(s[k]))
    && Boundary(s, end)
  }

  /** `EMAIL_REGEX.match(s)` succeeds: some split of a PREFIX of `s` fits the
      pattern (re.match anchors at the start only). */
  predicate EmailRegexMatch(s: string) {
    exists at, dot, end | 0 <= at < |s| && at < dot < |s| && dot < end <= |s| ::
      MatchSplit(s, at, dot, end)
  }

  /** Text after the match is ignored as long as it does not start with a word
      character: the match is not a full match. */
  lemma MatchIgnoresTail(s: string, tail: string)
    requires EmailRegexMatch(s)
    requires tail == [] || !IsWordChar(tail[0])
    ensures EmailRegexMatch(s + tail)
  {
    var at, dot, end :| 0 <= at < |s| && at < dot < |s| && dot < end <= |s| && MatchSplit(s, at, dot, end);
    var t := s + tail;
    assert forall k | 0 <= k < |s| :: t[k] == s[k];
    assert MatchSplit(t, at, dot, end);
  }

  lemma EmailRegexExample(s: string)
    requires s == "bob@foo.com"
    ensures EmailRegexMatch(s)
  {
    assert MatchSplit(s, 3, 7, 11);
  }

  /** An address made of an alphanumeric local part, an alphanumeric host and
      a top-level part of at least two lower-case letters matches. */
  lemma SimpleAddressMatches(local: string, host: string, tld: string)
    requires |local| >= 1 && |host| >= 1 && |tld| >= 2
    requires forall k | 0 <= k < |local| :: IsAlnum(local[k])
    requires forall k | 0 <= k < |host| :: IsAlnum(host[k])
    requires forall k | 0 <= k < |tld| :: 'a' <= tld[k] <= 'z'
    ensures EmailRegexMatch(local + "@" + host + "." + tld)
  {
    var s := local + "@" + host + "." + tld;
    var at, dot := |local|, |local| + 1 + |host|;
    assert forall k | 0 <= k < at :: s[k] == local[k];
    assert forall k | at < k < dot :: s[k] == host[k - at - 1];
    assert forall k | dot < k < |s| :: s[k] == tld[k - dot - 1];
    assert MatchSplit(s, at, dot, |s|);
  }

  /** A token with trailing junk after a non-word character still matches. */
  lemma EmailRegexTrailingJunk(s: string)
    requires s == "bob@foo.com>junk"
    ensures EmailRegexMatch(s)
  {
    EmailRegexExample(s[..11]);
    MatchIgnoresTail(s[..11], s[11..]);
    assert s == s[..11] + s[11..];
  }

  // ---- mailto links ----

  /** The token parsing of scrape_emails:
      `href.lower().split('mailto:')[1].split('?')[0]`, with the IndexError
      (no "mailto:" at all) as None. */
  function MailtoToken(href: string): (token: Option<string>)
    ensures token.Some? <==> Contains(Lower(href), "mailto:")
    ensures token.Some? ==>
      '?' !in token.value && NoUpper(token.value) && !Contains(token.value, "mailto:")
  {
    var parts := Split(Lower(href), "mailto:");
    if |parts| < 2 then None
    else
      SplitNoUpper(Lower(href), "mailto:");
      SplitNoUpper(parts[1], "?");
      var t := Split(parts[1], "?")[0];
      ContainsChar(t, '?');
      SplitHead(parts[1], "?");
      NotContainedPrefix(parts[1], t, "mailto:");
      Some(t)
  }

  /** A prefix of a string that lacks `p` lacks it too. */
  lemma NotContainedPrefix(s: string, t: string, p: string)
    requires t <= s && !Contains(s, p)
    ensures !Contains(t, p)
  {
    forall j | 0 <= j <= |t| ensures !OccursAt(t, p, j) {
      assert t[j..] <= s[j..];
      assert !OccursAt(s, p, j);
    }
  }

  /** Every anchor the selector `a[href^="mailto:"]` picks yields a token, so the
      source's per-link `except` never fires. */
  lemma SelectedLinkHasToken(href: string)
    requires "mailto:" <= href
    ensures MailtoToken(href).Some?
  {
    assert href == "mailto:" + href[7..];
    LowerAppend("mailto:", href[7..]);
    LowerOfNoUpper("mailto:");
    assert OccursAt(Lower(href), "mailto:", 0);
  }

  lemma LowerMailtoLink(addr: string, query: string)
    requires NoUpper(addr)
    ensures Lower("mailto:" + addr + "?" + query) == "mailto:" + (addr + "?" + Lower(query))
  {
    var a := "mailto:" + addr + "?";
    forall k | 0 <= k < |a| ensures !IsUpper(a[k]) {
      if 7 <= k < 7 + |addr| {
        assert a[k] == addr[k - 7];
      }
    }
    LowerAppend(a, query);
    LowerOfNoUpper(a);
    var lq := Lower(query);
    assert a + lq == "mailto:" + (addr + "?" + lq);
  }

  /** A string that starts with the separator splits into an empty piece first. */
  lemma SplitLeadingSep(w: string, sep: string)
    requires |sep| > 0
    ensures Split(sep + w, sep) == [[]] + Split(w, sep)
  {
    var l := sep + w;
    assert OccursAt(l, sep, 0);
    assert l[..0] == [] && l[|sep|..] == w;
  }

  /** "mailto:" cannot start inside ADDR or straddle the `?` after it. */
  lemma NoMailtoBeforeQuery(addr: string, rest: string)
    requires '?' !in addr && ':' !in addr
    ensures forall j | 0 <= j <= |addr| :: !OccursAt(addr + "?" + rest, "mailto:", j)
  {
    var w := addr + "?" + rest;
    forall j | 0 <= j <= |addr| ensures !OccursAt(w, "mailto:", j) {
      if j + 7 <= |addr| {
        assert w[j..][6] == addr[j + 6];
      } else if j + 7 <= |w| {
        assert w[j..][|addr| - j] == '?';
      }
    }
  }

  /** The piece before the next "mailto:" still starts with ADDR and the `?`. */
  lemma PieceKeepsAddr(addr: string, rest: string)
    requires '?' !in addr && ':' !in addr
    ensures Split(Split(addr + "?" + rest, "mailto:")[0], "?")[0] == addr
  {
    var w := addr + "?" + rest;
    NoMailtoBeforeQuery(addr, rest);
    SplitHead(w, "mailto:");
    var piece := Split(w, "mailto:")[0];
    assert w[..|addr| + 1] == addr + "?";
    assert |piece| > |addr| && piece[..|addr| + 1] == addr + "?";
    var more := piece[|addr| + 1..];
    assert piece == addr + "?" + more;
    SplitAtFirst(addr, '?', more);
  }

  /** `mailto:ADDR?QUERY` yields exactly ADDR when ADDR is lower-case and has
      no `?` and no `:`; the query string is dropped. */
  lemma MailtoTokenOfLink(addr: string, query: string)
    requires '?' !in addr && ':' !in addr && NoUpper(addr)
    ensures MailtoToken("mailto:" + addr + "?" + query) == Some(addr)
  {
    var w := addr + "?" + Lower(query);
    LowerMailtoLink(addr, query);
    SplitLeadingSep(w, "mailto:");
    PieceKeepsAddr(addr, Lower(query));
    var parts := Split("mailto:" + w, "mailto:");
    assert parts[1] == Split(w, "mailto:")[0];
  }

  /** A bare `mailto:ADDR` link yields ADDR under the same conditions. */
  lemma MailtoTokenOfBareLink(addr: string)
    requires '?' !in addr && ':' !in addr && NoUpper(addr)
    ensures MailtoToken("mailto:" + addr) == Some(addr)
  {
    LowerAppend("mailto:", addr);
    LowerOfNoUpper("mailto:");
    LowerOfNoUpper(addr);
    SplitLeadingSep(addr, "mailto:");
    MissingCharNotContained(addr, "mailto:", ':');
    FindCharAbsent(addr, '?');
  }

  /** The token depends only on the lower-cased href. */
  lemma MailtoTokenOfLower(href: string)
    ensures MailtoToken(Lower(href)) == MailtoToken(href)
  {
    LowerIdempotent(href);
  }

  /** Lower-casing keeps a string free of `?` and `:`. */
  lemma LowerKeepsPunctuation(addr: string)
    requires '?' !in addr && ':' !in addr
    ensures '?' !in Lower(addr) && ':' !in Lower(addr)
  {
    var l := Lower(addr);
    forall k | 0 <= k < |l| ensures l[k] != '?' && l[k] != ':' {
      assert l[k] == LowerChar(addr[k]);
    }
  }

  /** For any address without `?` or `:`, `mailto:ADDR?QUERY` and `mailto:ADDR`
      yield ADDR lower-cased, as the href is lower-cased before it is split. */
  lemma MailtoTokenOfAnyLink(addr: string, query: string)
    requires '?' !in addr && ':' !in addr
    ensures MailtoToken("mailto:" + addr + "?" + query) == Some(Lower(addr))
    ensures MailtoToken("mailto:" + addr) == Some(Lower(addr))
  {
    var l := Lower(addr);
    LowerKeepsPunctuation(addr);
    var q := "?" + query;
    LowerAppend("mailto:" + addr, q);
    LowerAppend("mailto:", addr);
    LowerOfNoUpper("mailto:");
    LowerAppend("?", query);
    LowerOfNoUpper("?");
    assert "mailto:" + addr + "?" + query == ("mailto:" + addr) + q;
    assert Lower("mailto:" + addr + "?" + query) == "mailto:" + l + "?" + Lower(query);
    MailtoTokenOfLower("mailto:" + addr + "?" + query);
    MailtoTokenOfLink(l, Lower(query));
    MailtoTokenOfLower("mailto:" + addr);
    MailtoTokenOfBareLink(l);
  }

  // ---- one page ----

  /** What the HTML parser yields for one page: the href of every `<a>`
      element that has one, in document order, and the page's visible text. */
  datatype Page = Page(hrefs: seq<string>, text: string)

  /** What one anchor contributes: only anchors whose href starts with
      "mailto:" are selected, and their token is kept when it matches. */
  function LinkEmails(href: string): set<string> {
    if "mailto:" <= href then
      match MailtoToken(href)
      case Some(t) => if EmailRegexMatch(t) then {t} else {}
      case None => {}
    else {}
  }

  /** The addresses the mailto loop collects from the first anchors. */
  function MailtoEmails(hrefs: seq<string>): set<string> {
    if hrefs == [] then {}
    else MailtoEmails(hrefs[..|hrefs| - 1]) + LinkEmails(hrefs[|hrefs| - 1])
  }

  /** EMAIL_REGEX.findall is an input; the model only relies on its reporting
      pieces of the text it was given. */
  ghost predicate FindAllSound(findAll: string -> seq<string>) {
    forall t, k | 0 <= k < |findAll(t)| :: Contains(t, findAll(t)[k])
  }

  /** What scrape_emails returns for a page (as a set; the list the source
      builds from a set has no meaningful order), or nothing when fetching or
      parsing raised. */
  function PageEmails(page: Option<Page>, findAll: string -> seq<string>): set<string> {
    match page
    case None => {}
    case Some(p) => MailtoEmails(p.hrefs) + (set m | m in findAll(Lower(p.text)))
  }

  /** The mailto loop's step: one more anchor adds what it contributes. */
  lemma MailtoEmailsStep(hrefs: seq<string>, i: nat)
    requires i < |hrefs|
    ensures MailtoEmails(hrefs[..i + 1]) == MailtoEmails(hrefs[..i]) + LinkEmails(hrefs[i])
  {
    assert hrefs[..i + 1][..i] == hrefs[..i];
  }

  /** scrape_emails: the mailto loop over the anchors, then the text scan. */
  method ScrapeEmails(url: string, fetch: string -> Option<Page>, findAll: string -> seq<string>)
    returns (emails: set<string>)
    ensures emails == PageEmails(fetch(url), findAll)
  {
    var response := fetch(url);
    if response.None? {
      return {};
    }
    var page := response.value;
    emails := {};
    var i := 0;
    while i < |page.hrefs|
      invariant 0 <= i <= |page.hrefs|
      invariant emails == MailtoEmails(page.hrefs[..i])
    {
      var href := page.hrefs[i];
      MailtoEmailsStep(page.hrefs, i);
      if "mailto:" <= href {
        var token := MailtoToken(href);
        if token.Some? && EmailRegexMatch(token.value) {
          assert LinkEmails(href) == {token.value};
          emails := emails + {token.value};
        } else {
          assert LinkEmails(href) == {};
        }
      } else {
        assert LinkEmails(href) == {};
      }
      i := i + 1;
    }
    assert page.hrefs[..i] == page.hrefs;
    var found := findAll(Lower(page.text));
    emails := emails + set m | m in found;
  }

  /** A piece of a string without upper-case letters has none. */
  lemma ContainedNoUpper(t: string, m: string)
    requires Contains(t, m) && NoUpper(t)
    ensures NoUpper(m)
  {
    var i := Find(t, m).value;
    forall k | 0 <= k < |m| ensures !IsUpper(m[k]) {
      assert m[k] == t[i + k];
    }
  }

  lemma {:induction false} MailtoEmailsShape(hrefs: seq<string>)
    ensures forall e | e in MailtoEmails(hrefs) ::
      NoUpper(e) && '?' !in e && EmailRegexMatch(e)
  {
    if hrefs != [] {
      MailtoEmailsShape(hrefs[..|hrefs| - 1]);
    }
  }

  /** Every address a page yields is lower-case; those from links also have no
      query part and match the pattern. */
  lemma PageEmailsShape(page: Option<Page>, findAll: string -> seq<string>)
    requires FindAllSound(findAll)
    ensures forall e | e in PageEmails(page, findAll) :: NoUpper(e)
    ensures page.Some? ==> forall e | e in MailtoEmails(page.value.hrefs) ::
      '?' !in e && EmailRegexMatch(e)
  {
    if page.Some? {
      var p := page.value;
      MailtoEmailsShape(p.hrefs);
      var found := findAll(Lower(p.text));
      forall e | e in found ensures NoUpper(e) {
        var k :| 0 <= k < |found| && found[k] == e;
        ContainedNoUpper(Lower(p.text), e);
      }
    }
  }

  /** A contact page whose only anchor is `<a href="mailto:bob@foo.com?subject=hi">`
      yields bob@foo.com and nothing else when the text scan finds nothing. */
  lemma MailtoPageExample(addr: string, query: string, text: string, findAll: string -> seq<string>)
    requires addr == "bob@foo.com" && query == "subject=hi"
    requires findAll(Lower(text)) == []
    ensures PageEmails(Some(Page(["mailto:" + addr + "?" + query], text)), findAll) == {addr}
  {
    var href := "mailto:" + addr + "?" + query;
    MailtoTokenOfLink(addr, query);
    EmailRegexExample(addr);
    assert "mailto:" <= href;
    SingleLinkPage(href, addr, text, findAll);
  }

  /** A page whose only anchor is `mailto:ADDR` and whose text holds no
      address yields ADDR alone. */
  lemma BareMailtoPage(addr: string, text: string, findAll: string -> seq<string>)
    requires '?' !in addr && ':' !in addr && NoUpper(addr) && EmailRegexMatch(addr)
    requires findAll(Lower(text)) == []
    ensures PageEmails(Some(Page(["mailto:" + addr], text)), findAll) == {addr}
  {
    var href := "mailto:" + addr;
    MailtoTokenOfBareLink(addr);
    assert "mailto:" <= href;
    SingleLinkPage(href, addr, text, findAll);
  }

  /** A page with one selected anchor whose token matches, and no address in
      its text, yields that token alone. */
  lemma SingleLinkPage(href: string, token: string, text: string, findAll: string -> seq<string>)
    requires "mailto:" <= href && MailtoToken(href) == Some(token) && EmailRegexMatch(token)
    requires findAll(Lower(text)) == []
    ensures PageEmails(Some(Page([href], text)), findAll) == {token}
  {
    assert [href][..0] == [];
    assert MailtoEmails([href]) == LinkEmails(href);
  }

  /** A lower-case letter other than `y`, or a digit. */
  predicate IsPlainChar(c: char) {
    ('a' <= c <= 'z' || '0' <= c <= '9') && c != 'y'
  }

  /** An address `local@host.tld` made of lower-case letters and digits, with
      no `y` and a top-level part of at least two letters, meets every
      condition of the bare-link lemma and passes validate_email. */
  lemma PlainAddressQualifies(local: string, host: string, tld: string)
    requires |local| >= 1 && |host| >= 1 && |tld| >= 2
    requires forall k | 0 <= k < |local| :: IsPlainChar(local[k])
    requires forall k | 0 <= k < |host| :: IsPlainChar(host[k])
    requires forall k | 0 <= k < |tld| :: IsPlainChar(tld[k]) && 'a' <= tld[k]
    ensures var addr := local + "@" + host + "." + tld;
      && '?' !in addr && ':' !in addr && 'y' !in addr && NoUpper(addr)
      && EmailRegexMatch(addr) && ValidateEmail(addr)
  {
    var addr := local + "@" + host + "." + tld;
    var at, dot := |local|, |local| + 1 + |host|;
    forall k | 0 <= k < |addr| ensures addr[k] != '?' && addr[k] != ':' && addr[k] != 'y' && !IsUpper(addr[k]) {
      if k < at {
        assert addr[k] == local[k];
      } else if at < k < dot {
        assert addr[k] == host[k - at - 1];
      } else if dot < k {
        assert addr[k] == tld[k - dot - 1];
      }
    }
    SimpleAddressMatches(local, host, tld);
    ValidateEmailWithoutY(addr);
  }

  /** hello@acme.com, the address of a typical contact page, qualifies. */
  lemma ExampleAddressQualifies(local: string, host: string, tld: string)
    requires local == "hello" && host == "acme" && tld == "com"
    ensures var addr := local + "@" + host + "." + tld;
      && '?' !in addr && ':' !in addr && NoUpper(addr)
      && EmailRegexMatch(addr) && ValidateEmail(addr)
  {
    PlainAddressQualifies(local, host, tld);
  }

  /** Every pattern of the deny-list contains a `y`: a lower-case address
      without one passes. */
  lemma ValidateEmailWithoutY(e: string)
    requires NoUpper(e) && 'y' !in e
    ensures ValidateEmail(e)
  {
    LowerOfNoUpper(e);
    MissingCharNotContained(e, InvalidPatterns[0], 'y');
    MissingCharNotContained(e, InvalidPatterns[1], 'y');
    MissingCharNotContained(e, InvalidPatterns[2], 'y');
  }
}
