/** The article page (`render_page`): a fixed HTML template filled with the
    canonical URL, the escaped title, description and tags, the tag chips,
    the trusted body HTML and the footer year. The year is an input (the
    source reads the clock). */
module Render {
  import opened Options
  import opened Text
  import opened Html

  /** The site name the template appends to every page title. */
  const SiteNameSuffix: string := " \U{2022} Jainam Mehta"

  /** The document up to the title element: the doctype, the `html` and
      `head` openings and the charset line, each tag written as `<` and the
      rest so that the tags it opens can be read off. */
  const PageOpen: string :=
    DoctypeTag + HtmlTag + HeadTag + Indent + MetaTag + Indent

  const DoctypeTag: string := "<" + DoctypeRest
  const HtmlTag: string := "<" + HtmlRest
  const HeadTag: string := "<" + HeadRest0
  const MetaTag: string := "<" + MetaRest
  const Indent: string := "  "

  const DoctypeRest: string := "!doctype html>\n"
  const HtmlRest: string := "html lang=\"en\">\n"
  const HeadRest0: string := "head>\n"
  const MetaRest: string := "meta charset=\"utf-8\">\n"

  const TitleOpen: string := "<title>"
  const TitleClose: string := "</title>"

  const SpanOpen: string := "<span class=\"tag\">"
  const SpanClose: string := "</span>"

  /** `site_url.rstrip('/')`. */
  function SiteRoot(siteUrl: string): string {
    StripTrailing(siteUrl, '/')
  }

  /** The path part every post URL ends with. */
  function PostPath(slug: string): string {
    "/blog/" + slug + ".html"
  }

  /** The canonical URL of a post: the site URL without its trailing
      slashes, then `/blog/<slug>.html`. */
  function CanonicalUrl(siteUrl: string, slug: string): (u: string)
    ensures |u| >= |PostPath(slug)|
    ensures u[|u| - |PostPath(slug)|..] == PostPath(slug)
    ensures var root := u[..|u| - |PostPath(slug)|];
      && |root| <= |siteUrl| && root == siteUrl[..|root|]
      && (forall i :: |root| <= i < |siteUrl| ==> siteUrl[i] == '/')
      && (root == [] || root[|root| - 1] != '/')
  {
    var root := SiteRoot(siteUrl);
    var u := root + PostPath(slug);
    assert u[..|u| - |PostPath(slug)|] == root;
    u
  }

  /** A trailing slash on the configured site URL makes no difference. */
  lemma CanonicalIgnoresTrailingSlash(siteUrl: string, slug: string)
    ensures CanonicalUrl(siteUrl + "/", slug) == CanonicalUrl(siteUrl, slug)
  {
    var s := siteUrl + "/";
    assert s[..|s| - 1] == siteUrl;
  }

  /** One tag chip. */
  function TagSpan(tag: string): string {
    SpanOpen + Escape(tag) + SpanClose
  }

  /** `"".join(f'<span class="tag">{html.escape(t)}</span>' for t in tags)`. */
  function TagSpans(tags: seq<string>): string {
    if tags == [] then "" else TagSpan(tags[0]) + TagSpans(tags[1..])
  }

  /** Reads tag chips back: a run of `<span class="tag">TEXT</span>`
      elements, each TEXT decoded; `None` when the text is not such a run. */
  function ParseTagSpans(s: string): Option<seq<string>>
    decreases |s|
  {
    if s == [] then Some([])
    else if !StartsWith(s, SpanOpen) then None
    else
      var rest := s[|SpanOpen|..];
      var k := IndexOfChar(rest, '<');
      if !StartsWith(rest[k..], SpanClose) then None
      else
        match ParseTagSpans(rest[k + |SpanClose|..])
        case None => None
        case Some(more) => Some([Unescape(rest[..k])] + more)
  }

  /** The chips hold one span per tag, in the tags' order, each showing its
      tag's text. */
  lemma {:induction false} ParseTagSpansRoundTrip(tags: seq<string>)
    ensures ParseTagSpans(TagSpans(tags)) == Some(tags)
    decreases |tags|
  {
    if tags != [] {
      ParseTagSpansRoundTrip(tags[1..]);
      ParseOneSpan(tags[0], TagSpans(tags[1..]));
      assert [tags[0]] + tags[1..] == tags;
    }
  }

  /** Reading one chip off the front of a run of chips. */
  lemma ParseOneSpan(tag: string, more: string)
    ensures ParseTagSpans(TagSpan(tag) + more) ==
      match ParseTagSpans(more)
      case None => None
      case Some(ts) => Some([tag] + ts)
  {
    var e := Escape(tag);
    assert '<' !in e by {
      forall i | 0 <= i < |e| ensures e[i] != '<' { }
    }
    assert TagSpan(tag) + more == SpanOpen + (e + SpanClose + more);
    ParseSpanOf(e, more);
    UnescapeEscape(tag);
  }

  /** A chip whose text has no `<` is read up to its closing tag. */
  lemma ParseSpanOf(e: string, more: string)
    requires '<' !in e
    ensures ParseTagSpans(SpanOpen + (e + SpanClose + more)) ==
      match ParseTagSpans(more)
      case None => None
      case Some(ts) => Some([Unescape(e)] + ts)
  {
    var rest := e + SpanClose + more;
    var s := SpanOpen + rest;
    StartsWithPrefix(SpanOpen, rest);
    assert s[|SpanOpen|..] == rest;
    CloseAfter(e, more);
  }

  /** The first `<` after a chip's text starts its closing tag. */
  lemma CloseAfter(e: string, more: string)
    requires '<' !in e
    ensures var rest := e + SpanClose + more;
      && IndexOfChar(rest, '<') == |e|
      && StartsWith(rest[|e|..], SpanClose)
      && rest[|e| + |SpanClose|..] == more
      && rest[..|e|] == e
  {
    var tail := "/span>" + more;
    var rest := e + SpanClose + more;
    assert rest == e + ['<'] + tail;
    IndexOfCharAfter(e, '<', tail);
    assert rest[|e|..] == SpanClose + more;
    StartsWithPrefix(SpanClose, more);
  }

  /** `<head>` from the title element on. */
  function HeadRest(title: string, description: string, tags: seq<string>, canonical: string): string {
    HeadBeforeLink(title, description, tags) + CanonicalLink(canonical) + HeadAfterLink(title, description, canonical)
  }

  function HeadBeforeLink(title: string, description: string, tags: seq<string>): string {
    TitleElement(title) + HeadMeta(description, tags)
  }

  /** The title element: the escaped title followed by the site name. */
  function TitleElement(title: string): string {
    TitleOpen + Escape(title) + SiteNameSuffix + TitleClose
  }

  function HeadMeta(description: string, tags: seq<string>): string {
    ViewportMeta + DescriptionMeta(description) + KeywordsMeta(tags)
  }

  const ViewportMeta: string :=
    "\n" +
    "  <meta name=\"viewport\" content=\"width=device-width, initial-scale=1\">\n"

  /** The keywords line: the tags joined by `, ` and escaped. */
  function KeywordsMeta(tags: seq<string>): string {
    "  <meta name=\"keywords\" content=\"" + Escape(Join(", ", tags)) + "\">\n"
  }

  /** The description's meta line, the description escaped. */
  function DescriptionMeta(description: string): string {
    "  <meta name=\"description\" content=\"" + Escape(description) + "\">\n"
  }

  function CanonicalLink(canonical: string): string {
    "  <link rel=\"canonical\" href=\"" + canonical + "\">"
  }

  function HeadAfterLink(title: string, description: string, canonical: string): string {
    "\n" +
    "  <link rel=\"stylesheet\" href=\"/blog/styles.css\">\n" +
    "  <meta property=\"og:title\" content=\"" + Escape(title) + "\">\n" +
    "  <meta property=\"og:description\" content=\"" + Escape(description) + "\">\n" +
    "  <meta property=\"og:type\" content=\"article\">\n" +
    "  <meta property=\"og:url\" content=\"" + canonical + "\">\n" +
    "</head>\n"
  }

  /** The page header with the title, description and tag chips. */
  function Header(title: string, description: string, tags: seq<string>): string {
    HeaderBeforeChips(title, description) + Chips(tags) + HeaderAfterChips()
  }

  function HeaderBeforeChips(title: string, description: string): string {
    HeaderTop(title) + DescriptionLine(description)
  }

  /** The body's opening, the navigation and the heading with the title. */
  function HeaderTop(title: string): string {
    "<body>\n" +
    "  <header class=\"container\">\n" +
    "    <nav><a href=\"/\">\U{2190} Home</a> \U{b7} <a href=\"/blog/\">Blog</a></nav>\n" +
    "    <h1>" + Escape(title) + "</h1>\n"
  }

  /** The paragraph under the heading, the description escaped. */
  function DescriptionLine(description: string): string {
    "    <p class=\"desc\">" + Escape(description) + "</p>\n"
  }

  /** The line holding the tag chips. */
  function Chips(tags: seq<string>): string {
    "    " + TagSpans(tags) + "\n"
  }

  function HeaderAfterChips(): string {
    "    <hr>\n" + "  </header>\n"
  }

  /** The article body, inserted as it is, and the footer. */
  function MainAndFooter(bodyHtml: string, year: nat): string {
    "  <main class=\"container\">\n" + BodyLine(bodyHtml) + Footer(year)
  }

  /** The line holding the trusted body HTML, not escaped. */
  function BodyLine(bodyHtml: string): string {
    "    " + bodyHtml + "\n"
  }

  function Footer(year: nat): string {
    "  </main>\n" +
    "  <footer class=\"container\">\n" +
    "    <hr>\n" +
    "    <p>\U{a9} " + Decimal(year) + " Jainam Mehta</p>\n" +
    "  </footer>\n" +
    "</body>\n" +
    "</html>\n"
  }

  /** `render_page(site_url, slug, title, description, tags, body_html)`
      with the footer year `year`. */
  function RenderPage(siteUrl: string, slug: string, title: string, description: string,
                      tags: seq<string>, bodyHtml: string, year: nat): (page: string)
    ensures Occurs(page, CanonicalLink(CanonicalUrl(siteUrl, slug)))
    ensures Occurs(page, Chips(tags))
    ensures Occurs(page, BodyLine(bodyHtml))
    ensures Occurs(page, DescriptionMeta(description))
    ensures Occurs(page, DescriptionLine(description))
  {
    var canonical := CanonicalUrl(siteUrl, slug);
    var head := HeadRest(title, description, tags, canonical);
    var header := Header(title, description, tags);
    var tail := MainAndFooter(bodyHtml, year);
    HeadHasLink(title, description, tags, canonical);
    HeaderHasChips(title, description, tags);
    TailHasBody(bodyHtml, year);
    PagePieces(head, header, tail, CanonicalLink(canonical), Chips(tags), BodyLine(bodyHtml));
    HeadHasDescription(title, description, tags, canonical);
    HeaderHasDescription(title, description, tags);
    DescriptionPieces(head, header, tail, DescriptionMeta(description), DescriptionLine(description));
    PageOpen + head + header + tail
  }

  /** The description's two lines keep their places once the page is
      assembled. */
  lemma DescriptionPieces(head: string, header: string, tail: string, meta: string, desc: string)
    requires Occurs(head, meta) && Occurs(header, desc)
    ensures Occurs(PageOpen + head + header + tail, meta)
    ensures Occurs(PageOpen + head + header + tail, desc)
  {
    var p := PageOpen;
    OccursWithin(p, head, header + tail, meta);
    assert p + head + (header + tail) == p + head + header + tail;
    OccursWithin(p + head, header, tail, desc);
  }

  lemma HeadHasDescription(title: string, description: string, tags: seq<string>, canonical: string)
    ensures Occurs(HeadRest(title, description, tags, canonical), DescriptionMeta(description))
  {
    var rest := KeywordsMeta(tags) + CanonicalLink(canonical) + HeadAfterLink(title, description, canonical);
    HeadGroups(TitleElement(title), ViewportMeta, DescriptionMeta(description), KeywordsMeta(tags),
      CanonicalLink(canonical), HeadAfterLink(title, description, canonical));
    OccursInMiddle(TitleElement(title) + ViewportMeta, DescriptionMeta(description), rest);
  }

  lemma HeaderHasDescription(title: string, description: string, tags: seq<string>)
    ensures Occurs(Header(title, description, tags), DescriptionLine(description))
  {
    HeaderGroups(HeaderTop(title), DescriptionLine(description), Chips(tags), HeaderAfterChips());
    OccursInMiddle(HeaderTop(title), DescriptionLine(description), Chips(tags) + HeaderAfterChips());
  }

  lemma HeadGroups(t: string, v: string, d: string, k: string, l: string, h: string)
    ensures t + (v + d + k) + l + h == (t + v) + d + (k + l + h)
  {
  }

  lemma HeaderGroups(p: string, d: string, c: string, a: string)
    ensures (p + d) + c + a == p + d + (c + a)
  {
  }

  /** Each part of the page keeps its pieces once the page is assembled. */
  lemma PagePieces(head: string, header: string, tail: string, link: string, chips: string, body: string)
    requires Occurs(head, link) && Occurs(header, chips) && Occurs(tail, body)
    ensures Occurs(PageOpen + head + header + tail, link)
    ensures Occurs(PageOpen + head + header + tail, chips)
    ensures Occurs(PageOpen + head + header + tail, body)
  {
    var p := PageOpen;
    OccursWithin(p, head, header + tail, link);
    assert p + head + (header + tail) == p + head + header + tail;
    OccursWithin(p + head, header, tail, chips);
    OccursWithin(p + head + header, tail, [], body);
    assert p + head + header + tail + [] == p + head + header + tail;
  }

  lemma HeadHasLink(title: string, description: string, tags: seq<string>, canonical: string)
    ensures Occurs(HeadRest(title, description, tags, canonical), CanonicalLink(canonical))
  {
    OccursInMiddle(HeadBeforeLink(title, description, tags), CanonicalLink(canonical), HeadAfterLink(title, description, canonical));
  }

  lemma HeaderHasChips(title: string, description: string, tags: seq<string>)
    ensures Occurs(Header(title, description, tags), Chips(tags))
  {
    OccursInMiddle(HeaderBeforeChips(title, description), Chips(tags), HeaderAfterChips());
  }

  lemma TailHasBody(bodyHtml: string, year: nat)
    ensures Occurs(MainAndFooter(bodyHtml, year), BodyLine(bodyHtml))
  {
    OccursInMiddle("  <main class=\"container\">\n", BodyLine(bodyHtml), Footer(year));
  }

  /** Everything after the title element. */
  function AfterTitle(siteUrl: string, slug: string, title: string, description: string,
                      tags: seq<string>, bodyHtml: string, year: nat): string {
    var canonical := CanonicalUrl(siteUrl, slug);
    HeadMeta(description, tags) + CanonicalLink(canonical) + HeadAfterLink(title, description, canonical) +
    Header(title, description, tags) + MainAndFooter(bodyHtml, year)
  }

  /** The page opens with the fixed preamble and then the title element. */
  lemma RenderPageLayout(siteUrl: string, slug: string, title: string, description: string,
                         tags: seq<string>, bodyHtml: string, year: nat)
    ensures RenderPage(siteUrl, slug, title, description, tags, bodyHtml, year) ==
      PageOpen + TitleOpen + (Escape(title) + SiteNameSuffix) + TitleClose +
      AfterTitle(siteUrl, slug, title, description, tags, bodyHtml, year)
  {
    var canonical := CanonicalUrl(siteUrl, slug);
    PageUnfold(siteUrl, slug, title, description, tags, bodyHtml, year);
    HeadRestLayout(title, description, tags, canonical);
    AfterTitleUnfold(siteUrl, slug, title, description, tags, bodyHtml, year);
    Regroup(PageOpen, TitleOpen, Escape(title), SiteNameSuffix, TitleClose, HeadMeta(description, tags),
      CanonicalLink(canonical), HeadAfterLink(title, description, canonical),
      Header(title, description, tags), MainAndFooter(bodyHtml, year));
  }

  lemma PageUnfold(siteUrl: string, slug: string, title: string, description: string,
                   tags: seq<string>, bodyHtml: string, year: nat)
    ensures RenderPage(siteUrl, slug, title, description, tags, bodyHtml, year) ==
      PageOpen + HeadRest(title, description, tags, CanonicalUrl(siteUrl, slug)) +
      Header(title, description, tags) + MainAndFooter(bodyHtml, year)
  {
  }

  lemma AfterTitleUnfold(siteUrl: string, slug: string, title: string, description: string,
                         tags: seq<string>, bodyHtml: string, year: nat)
    ensures var canonical := CanonicalUrl(siteUrl, slug);
      AfterTitle(siteUrl, slug, title, description, tags, bodyHtml, year) ==
      HeadMeta(description, tags) + CanonicalLink(canonical) + HeadAfterLink(title, description, canonical) +
      Header(title, description, tags) + MainAndFooter(bodyHtml, year)
  {
  }

  lemma HeadRestLayout(title: string, description: string, tags: seq<string>, canonical: string)
    ensures HeadRest(title, description, tags, canonical) ==
      (TitleOpen + Escape(title) + SiteNameSuffix + TitleClose) + HeadMeta(description, tags) +
      CanonicalLink(canonical) + HeadAfterLink(title, description, canonical)
  {
  }

  lemma Regroup(p: string, o: string, e: string, n: string, c: string, m: string, l: string, h: string, hd: string, tl: string)
    ensures p + ((o + e + n + c) + m + l + h) + hd + tl == p + o + (e + n) + c + (m + l + h + hd + tl)
  {
  }
}
