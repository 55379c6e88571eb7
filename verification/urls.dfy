/**
 * The two URL-derived keys of the background scripts: the canonical domain of
 * a URL (`domainFromUrl`) and the duplicate-detection key (`normalizeUrlForDedup`).
 * Parsing itself (the `URL` constructor of the WHATWG URL Standard) is a
 * parameter: a parser maps a string to the parsed URL, or to `None` where the
 * constructor throws.
 */
module Urls {
  import opened Wrappers
  import opened Text

  /**
   * A parsed URL: its host name, its serialization without the fragment, and
   * its fragment (`None` when the URL has none; the text after "#" otherwise).
   */
  datatype Url = Url(hostname: string, serialized: string, fragment: Option<string>)

  /** `url.toString()`: the serialization, with "#" and the fragment when there is one. */
  function Href(u: Url): string {
    match u.fragment
    case None => u.serialized
    case Some(f) => u.serialized + "#" + f
  }

  type Parser = string -> Option<Url>

  /**
   * `domainFromUrl` (src/shared/background.js:55-61, src/shared/background.suggestions.js:24-30):
   * the host name without one leading "www.", lower-cased; `None` where parsing fails.
   */
  function DomainFromUrl(parse: Parser, url: string): (d: Option<string>)
    ensures d.None? <==> parse(url).None?
    ensures d.Some? ==> Lower(d.value) == d.value
    ensures d.Some? ==>
      var host := parse(url).value.hostname;
      if StartsWithWww(host) then Lower(host) == "www." + d.value else Lower(host) == d.value
  {
    match parse(url)
    case None => None
    case Some(u) =>
      var d := Lower(StripWww(u.hostname));
      LowerIdempotent(StripWww(u.hostname));
      assert StartsWithWww(u.hostname) ==> Lower(u.hostname) == Lower("www.") + d;
      Some(d)
  }

  /** Two host names that differ only by one leading "www." give the same domain. */
  lemma WwwVariantsAgree(parse: Parser, a: string, b: string)
    requires parse(a).Some? && parse(b).Some?
    requires parse(a).value.hostname == "www." + parse(b).value.hostname
    requires !StartsWithWww(parse(b).value.hostname)
    ensures DomainFromUrl(parse, a) == DomainFromUrl(parse, b)
  {
    assert StartsWithWww(parse(a).value.hostname);
  }

  /** Only one "www." is removed: "www.www.a.com" and "www.a.com" give different domains. */
  lemma OnlyOneWwwRemoved(parse: Parser, a: string, b: string)
    requires parse(a) == Some(Url("www.www.a.com", "https://www.www.a.com/", None))
    requires parse(b) == Some(Url("www.a.com", "https://www.a.com/", None))
    ensures DomainFromUrl(parse, a) == Some("www.a.com")
    ensures DomainFromUrl(parse, b) == Some("a.com")
  {
    assert StartsWithWww("www.www.a.com");
    assert StripWww("www.www.a.com") == "www.a.com";
    assert StartsWithWww("www.a.com");
    assert StripWww("www.a.com") == "a.com";
    LowerNoUpper("www.a.com");
    LowerNoUpper("a.com");
  }

  /**
   * `normalizeUrlForDedup` (src/shared/background.js:446-454): the URL with its
   * fragment cleared (`u.hash = ""`), serialized again; `None` where parsing fails.
   */
  function NormalizeUrlForDedup(parse: Parser, url: string): (key: Option<string>)
    ensures key.None? <==> parse(url).None?
    ensures key.Some? ==> key.value == parse(url).value.serialized
    ensures key.Some? && parse(url).value.fragment.None? ==> key.value == Href(parse(url).value)
  {
    match parse(url)
    case None => None
    case Some(u) => Some(Href(u.(fragment := None)))
  }

  /** Two URLs get the same key exactly when they are the same apart from the fragment. */
  lemma DedupKeyIgnoresFragment(parse: Parser, a: string, b: string)
    requires parse(a).Some? && parse(b).Some?
    ensures NormalizeUrlForDedup(parse, a) == NormalizeUrlForDedup(parse, b)
      <==> parse(a).value.serialized == parse(b).value.serialized
  {
  }
}
