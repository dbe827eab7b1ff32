/** One run of the publisher (`main` and `write_placeholder`): choose a safe
    topic, turn the generated article (or, when generation fails, a
    placeholder) into a page under a fresh slug, then record the post in the
    blog index, the sitemap, the homepage and the run log. The file system
    is a value: the listing of the blog directory, the texts of the pages the
    run edits, the sitemap tree and the log. */
module Publish {
  import opened Options
  import Text
  import Html
  import Topic
  import Draft
  import Slug
  import Render
  import Titles
  import Home
  import IndexPage
  import Sitemap
  import Dates
  import RunLog

  const PlaceholderTitle: string := "Publishing temporarily unavailable"
  const PlaceholderDescription: string := "Automated publishing is temporarily unavailable."
  const PlaceholderSlug: string := "publishing-temporarily-unavailable"

  /** What the run reads and writes. `posts` is the listing of the blog
      directory's `*.html` files, newest first, each with its text as the
      rebuild reads it; `home` is `None` when the homepage does not exist.
      The blog index and the homepage are their texts as `read_text`
      decodes them, with universal newlines. */
  datatype Site = Site(
    posts: seq<Home.PostFile>,
    blogIndex: string,
    sitemap: Sitemap.SitemapFile,
    home: Option<string>,
    log: RunLog.Log)

  /** The two clocks the run reads: the machine's local date (index link,
      run log, footer year) and the UTC instant in minutes since 1970 (the
      sitemap's India date). */
  datatype Clock = Clock(localToday: Dates.Date, utcMinutes: nat)

  /** The post a run publishes: its final slug and its article. */
  datatype Article = Article(slug: string, draft: Draft.Draft)

  /** The names of the files in the blog directory, without `.html`. */
  function Bases(posts: seq<Home.PostFile>): set<string> {
    set f | f in posts :: f.base
  }

  /** The page written for an article. */
  function Page(a: Article, siteUrl: string, year: nat): string {
    Render.RenderPage(siteUrl, a.slug, a.draft.title, a.draft.description, a.draft.tags, a.draft.htmlBody, year)
  }

  /** The article of the run: the normalised generated article under its
      suggested slug (else its title's), or, when generation failed, the
      placeholder. Either way the slug is made unique in the blog
      directory. */
  function Compose(generated: Option<Draft.RawDraft>, slugify: string -> string,
                   placeholderBody: string, taken: set<string>): (a: Article)
    ensures a.slug !in taken
    ensures Draft.WellFormed(a.draft)
    ensures generated.None? ==>
      && a.draft.title == PlaceholderTitle
      && a.draft.description == PlaceholderDescription
      && a.draft.tags == []
      && a.draft.htmlBody == placeholderBody
    ensures generated.Some? ==> a.draft.title == Text.Strip(generated.value.title.GetOr(""))
    ensures generated.Some? ==> a.draft.htmlBody == generated.value.htmlBody.GetOr("")
    ensures generated.Some? ==> a.draft == Draft.Normalize(generated.value, slugify)
    ensures a.slug == Slug.UniqueSlug(slugify(BaseSlug(generated, slugify)), taken)
  {
    var slug := Slug.UniqueSlug(slugify(BaseSlug(generated, slugify)), taken);
    match generated
    case None =>
      assert Text.IsStripped(PlaceholderTitle);
      Article(slug, Draft.Draft(PlaceholderTitle, PlaceholderSlug, PlaceholderDescription, [], placeholderBody))
    case Some(raw) =>
      Article(slug, Draft.Normalize(raw, slugify))
  }

  /** The name handed to `ensure_unique_slug`, which slugifies it again: the
      placeholder's fixed slug, or the normalised slug, else the slugified
      title when that slug is empty. */
  function BaseSlug(generated: Option<Draft.RawDraft>, slugify: string -> string): string {
    match generated
    case None => PlaceholderSlug
    case Some(raw) =>
      var d := Draft.Normalize(raw, slugify);
      if d.slug != "" then d.slug else slugify(d.title)
  }

  /** A generated article without a slug, whose title the slug library
      reduces to nothing, is published under the empty slug, in the file
      `blog/.html`; the homepage then links it as `/blog/.html.html`, a file
      that does not exist. */
  lemma EmptySlugBrokenLink(raw: Draft.RawDraft, slugify: string -> string, placeholderBody: string,
                            taken: set<string>, page: string)
    requires raw.slug.GetOr("") == "" && slugify(Text.Strip(raw.title.GetOr(""))) == ""
    requires slugify("") == "" && "" !in taken
    ensures var a := Compose(Some(raw), slugify, placeholderBody, taken);
      var f := Home.PostFile(a.slug, Some(page));
      && a.slug == ""
      && Home.FileName(f) == ".html"
      && Home.Href(Home.Entry(f)) == "/blog/" + Home.FileName(f) + ".html"
      && Home.Href(Home.Entry(f)) != "/blog/" + Home.FileName(f)
  {
    EmptyBaseSlug(raw, slugify);
    var a := Compose(Some(raw), slugify, placeholderBody, taken);
    assert a.slug == "";
    Home.EmptyBaseLink(Some(page));
  }

  lemma EmptyBaseSlug(raw: Draft.RawDraft, slugify: string -> string)
    requires raw.slug.GetOr("") == "" && slugify(Text.Strip(raw.title.GetOr(""))) == ""
    ensures BaseSlug(Some(raw), slugify) == ""
  {
    var d := Draft.Normalize(raw, slugify);
    assert d.slug == "" && d.title == Text.Strip(raw.title.GetOr(""));
  }


  /** Everything after the page is rendered: write it (its text is `page`),
      link it from the blog index, list it in the sitemap, rebuild the
      homepage, log it. */
  function Record(site: Site, a: Article, page: string, siteUrl: string, clock: Clock): (r: Site)
    ensures |r.posts| == |site.posts| + 1
    ensures r.posts[0] == Home.PostFile(a.slug, Some(Text.Newlines(page))) && r.posts[1..] == site.posts
    ensures r.home.Some? <==> site.home.Some?
  {
    var today := Dates.IsoFormat(clock.localToday);
    var posts := [Home.PostFile(a.slug, Some(Text.Newlines(page)))] + site.posts;
    Site(
      posts,
      IndexPage.PrependLink(site.blogIndex, a.slug, a.draft.title, today),
      Sitemap.Parsed(Sitemap.UpdateSitemap(site.sitemap, siteUrl, a.slug, Dates.TodayIso(clock.utcMinutes))),
      match site.home
        case None => None
        case Some(h) => Some(Home.RebuildHome(h, posts, Home.DefaultMaxItems)),
      RunLog.RecordPublished(site.log, today, a.slug))
  }

  /** The article a run publishes for the chosen topic `picked`. */
  function RunArticle(taken: set<string>, picked: string, generate: string -> Option<Draft.RawDraft>,
                      slugify: string -> string, placeholderBody: string): (a: Article)
    ensures a.slug !in taken
    ensures Draft.WellFormed(a.draft)
  {
    Compose(generate(Topic.ChooseTopic(picked)), slugify, placeholderBody, taken)
  }

  /** `main()`: `picked` is the topic `pick_topic` chose, `generate` the
      language-model call (`None` when it fails), `slugify` the slug
      library, `placeholderBody` the placeholder's body with its time
      stamp. */
  function Run(site: Site, picked: string, generate: string -> Option<Draft.RawDraft>,
               slugify: string -> string, placeholderBody: string, siteUrl: string,
               clock: Clock): (r: (Article, Site))
    ensures r.0 == RunArticle(Bases(site.posts), picked, generate, slugify, placeholderBody)
    ensures r.0.slug !in Bases(site.posts)
  {
    var a := RunArticle(Bases(site.posts), picked, generate, slugify, placeholderBody);
    (a, Record(site, a, Page(a, siteUrl, clock.localToday.year), siteUrl, clock))
  }

  /** The generator is only ever asked for a topic the filter lets through,
      and for the chosen topic itself when it is clean. */
  lemma RunAsksForSafeTopic(taken: set<string>, picked: string, generate: string -> Option<Draft.RawDraft>,
                            slugify: string -> string, placeholderBody: string)
    ensures exists topic ::
      && !Topic.Blocked(topic)
      && (!Topic.Blocked(picked) ==> topic == picked)
      && RunArticle(taken, picked, generate, slugify, placeholderBody) ==
           Compose(generate(topic), slugify, placeholderBody, taken)
  {
    var topic := Topic.ChooseTopic(picked);
    assert RunArticle(taken, picked, generate, slugify, placeholderBody) ==
      Compose(generate(topic), slugify, placeholderBody, taken);
  }

  /** The new page heads the listing, under a name no file had. */
  lemma RecordWritesPage(site: Site, a: Article, page: string, siteUrl: string, clock: Clock)
    requires a.slug !in Bases(site.posts)
    ensures var r := Record(site, a, page, siteUrl, clock);
      && r.posts[0] == Home.PostFile(a.slug, Some(Text.Newlines(page)))
      && r.posts[1..] == site.posts
      && Bases(r.posts) == Bases(site.posts) + {a.slug}
      && |Bases(r.posts)| == |Bases(site.posts)| + 1
  {
    var r := Record(site, a, page, siteUrl, clock);
    var f := Home.PostFile(a.slug, Some(Text.Newlines(page)));
    assert ([f] + site.posts)[1..] == site.posts;
    forall s | s in Bases(site.posts) ensures s in Bases(r.posts) {
      var g :| g in site.posts && g.base == s;
      assert g in r.posts;
    }
    assert f in r.posts;
  }

  /** The blog index gains the link right after its list opening, and
      nothing else; without the opening it is left alone. */
  lemma RecordLinksIndex(site: Site, a: Article, page: string, siteUrl: string, clock: Clock)
    ensures var r := Record(site, a, page, siteUrl, clock);
      var link := IndexPage.IndexLink(a.slug, a.draft.title, Dates.IsoFormat(clock.localToday));
      match IndexPage.InsertionPoint(site.blogIndex)
      case None => r.blogIndex == site.blogIndex
      case Some(e) => e <= |site.blogIndex| && r.blogIndex == site.blogIndex[..e] + link + site.blogIndex[e..]
  {
    var link := IndexPage.IndexLink(a.slug, a.draft.title, Dates.IsoFormat(clock.localToday));
    var t := IndexPage.InsertAfterFirst(site.blogIndex, link);
    match IndexPage.InsertionPoint(site.blogIndex)
    case None =>
    case Some(e) =>
      IndexPage.InsertionOnlyAddsLink(site.blogIndex, link);
      assert t == t[..e] + t[e..e + |link|] + t[e + |link|..];
  }

  /** The sitemap lists the post, dated with India's date at the instant of
      the run. */
  lemma RecordListsInSitemap(site: Site, a: Article, page: string, siteUrl: string, clock: Clock)
    requires Text.IsStripped(Render.CanonicalUrl(siteUrl, a.slug))
    ensures var r := Record(site, a, page, siteUrl, clock);
      var e := Sitemap.FindEntry(r.sitemap.root.children, Render.CanonicalUrl(siteUrl, a.slug));
      e.Some? && Sitemap.TextOf(e.value, Sitemap.LastmodTag) == Some(Some(Dates.TodayIso(clock.utcMinutes)))
  {
    var today := Dates.TodayIso(clock.utcMinutes);
    Sitemap.UpsertRecordsToday(Sitemap.StartingRoot(site.sitemap, siteUrl, today), Render.CanonicalUrl(siteUrl, a.slug), today);
  }

  /** The log records the slug under the local date and keeps everything it
      recorded before. */
  lemma RecordLogsSlug(site: Site, a: Article, page: string, siteUrl: string, clock: Clock)
    ensures var r := Record(site, a, page, siteUrl, clock);
      && RunLog.Recorded(r.log) == RunLog.Recorded(site.log) + {a.slug}
      && var today := Dates.IsoFormat(clock.localToday);
         today in r.log && r.log[today][|r.log[today]| - 1] == a.slug
  {
    RunLog.RecordAddsSlug(site.log, Dates.IsoFormat(clock.localToday), a.slug);
  }

  /** After a run the homepage's region lists the new post first and the
      rest of the homepage is as it was. The post is listed under its file's
      stem, which is `.html` for the empty slug, and under the title read
      back from its page, which is the title still HTML-escaped
      (`PageTitleReadable`); the list item escapes it a second time. */
  lemma RecordHeadsHome(site: Site, a: Article, page: string, siteUrl: string, clock: Clock)
    requires site.home.Some? && Home.Split(site.home.value).Some?
    requires a.slug != "index"
    requires Titles.AsWrittenTitle(Text.Newlines(page)) == Some(Html.Escape(a.draft.title))
    requires var posts := [Home.PostFile(a.slug, Some(Text.Newlines(page)))] + site.posts;
      !Text.Occurs(Home.ListHtml(Home.Latest(posts, Home.DefaultMaxItems)), Home.EndMarker)
    ensures var r := Record(site, a, page, siteUrl, clock);
      var parts := Home.Split(site.home.value).value;
      && r.home.Some?
      && Home.Split(r.home.value).Some?
      && Home.Split(r.home.value).value.0 == parts.0
      && Home.Split(r.home.value).value.2 == parts.2
      && var shown := Home.Latest(r.posts, Home.DefaultMaxItems);
         && Home.Split(r.home.value).value.1 == Home.ListHtml(shown)
         && |shown| > 0 && shown[0] == Home.Post(if a.slug == "" then ".html" else a.slug, Html.Escape(a.draft.title))
  {
    var f := Home.PostFile(a.slug, Some(Text.Newlines(page)));
    var posts := [f] + site.posts;
    Home.RebuildHomeShowsLatest(site.home.value, posts, Home.DefaultMaxItems);
    Home.NewestPostFirst(f, site.posts, Home.DefaultMaxItems);
    Home.EntryOfReadTitle(a.slug, Text.Newlines(page), Html.Escape(a.draft.title));
  }

  /** The page a run writes gives back the article's title, HTML-escaped as
      the page holds it, when the title has no surrounding whitespace and no
      bullet `•` (the mark of the site name the rebuild cuts
      out). */
  lemma PageTitleReadable(a: Article, siteUrl: string, year: nat)
    requires Text.IsStripped(a.draft.title) && '\U{2022}' !in a.draft.title
    ensures Titles.AsWrittenTitle(Page(a, siteUrl, year)) == Some(Html.Escape(a.draft.title))
  {
    Titles.AsWrittenTitleOfRenderedPage(siteUrl, a.slug, a.draft.title, a.draft.description, a.draft.tags, a.draft.htmlBody, year);
  }

  /** The placeholder's title can always be read back from its page. */
  lemma PlaceholderTitleReadable()
    ensures Text.IsStripped(PlaceholderTitle) && '\U{2022}' !in PlaceholderTitle
  {
    assert PlaceholderTitle[0] == 'P' && PlaceholderTitle[|PlaceholderTitle| - 1] == 'e';
  }
}
