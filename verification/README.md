# Daily HTML publisher, modelled in Dafny

This project models the decision logic of `scripts/daily_html_publisher.py`. That script is a daily job that publishes one blog post for a static site. On each run it:

1. picks a topic and replaces it with a fixed safe topic when the topic mentions a banned keyword;
2. asks a language model for an article, or falls back to a placeholder post when generation fails;
3. normalises the article's fields;
4. gives the post a slug that no file in the blog directory uses;
5. renders the page from a fixed HTML template;
6. then records the post in four places:
   - a link right after the `<ul id="posts">` opening of the blog index;
   - an entry, dated with India's date, in the XML sitemap;
   - the "latest posts" region between two comment markers on the homepage, with each title read back from its page's `<title>`, still HTML-escaped, as the code reads it;
   - today's list in the run log.

Files and the clock are values here. The model receives as inputs:

- the listing of the blog directory, newest first, with each file's text as `read_text` decodes it (universal newlines);
- the texts of the blog index and the homepage, decoded the same way;
- the parsed sitemap tree, or the fact that it is missing or does not parse;
- the run log;
- the local date and the UTC instant.

The modules follow the script's functions:

| module | file | models |
|---|---|---|
| `Options` | options.dfy | optional values (missing keys, failed reads, no match) |
| `Text` | text.dfy | `str.strip`, ASCII `lower`, universal-newline decoding, substring and case-insensitive search, the lazy `open.*?close` search, `", ".join`, decimal numerals |
| `Html` | html.dfy | `html.escape` and the decoding that inverts it |
| `Topic` | topic.dfy | `blocked` and the fallback topic of `main` |
| `Draft` | draft.dfy | the normalisation at the end of `generate_article` |
| `Slug` | slug.dfy | `ensure_unique_slug` |
| `Render` | render.dfy | `render_page` |
| `Titles` | titles.dfy | reading a title back from a page, as the homepage rebuild does |
| `IndexPage` | index_page.dfy | `prepend_link_to_index` |
| `Home` | home.dfy | `rebuild_home_latest`, in its second definition, which is the one in force |
| `Dates` | dates.dfy | `date.isoformat()` and `today_iso` |
| `Sitemap` | sitemap.dfy | `update_sitemap` on the element tree |
| `RunLog` | runlog.dfy | the `published` map of the memory file and the append in `main` |
| `Publish` | publish.dfy | `write_placeholder` and the flow of `main` |

When the sitemap file exists but does not parse, the code starts from an empty `urlset` and seeds nothing (`Sitemap.UnparsableSitemap`).

## Model

| member | source | states |
|---|---|---|
| Topic.Blocked | scripts/daily_html_publisher.py:98-100 | a topic is blocked exactly when one of the four banned keywords occurs in its lower-cased text |
| Topic.ChooseTopic | scripts/daily_html_publisher.py:447-450 | the run continues with a topic that is not blocked; a clean topic is kept as picked, and a blocked one is replaced by the fallback topic |
| Topic.FallbackNotBlocked | scripts/daily_html_publisher.py:450 | the fallback topic passes the keyword filter itself |
| Topic.FindDecidesAll | scripts/daily_html_publisher.py:100 | the left-to-right substring search finds a keyword exactly when it occurs somewhere in the text |
| Draft.Normalize | scripts/daily_html_publisher.py:198-202 | title stripped (empty when missing); slug slugified from the suggested slug, or from the title when that is empty or missing; description is the stripped description cut to its first 150 characters; tags are the stripped tags, at most eight, in order; body passed through; the result is well formed |
| Draft.NormalizeSettles | scripts/daily_html_publisher.py:198-202 | normalising an already normalised article keeps title, tags and body; the description changes only by losing whitespace that the 150-character cut left at its end, and not at all when no cut happened; a non-empty slug is only slugified again |
| Draft.NormalizeTags | scripts/daily_html_publisher.py:201 | `min(8, n)` tags, each the stripped tag at the same position, each without surrounding whitespace |
| Draft.Clip | scripts/daily_html_publisher.py:200 | `s[:n]`: a prefix of `s` of length `min(n, len(s))` |
| Text.Strip | scripts/daily_html_publisher.py:198 | the result has no whitespace at either end and is no longer than the input |
| Text.StripTrailing | scripts/daily_html_publisher.py:206 | `rstrip('/')`: a prefix of the input, followed in it only by slashes, not itself ending in a slash |
| Text.Lower | scripts/daily_html_publisher.py:99 | same length, each character lower-cased in place |
| Text.LazySpan | scripts/daily_html_publisher.py:397 | the leftmost opening that some closing follows, with the nearest closing after it; `None` exactly when no opening is followed by a closing |
| Text.RemoveAll | scripts/daily_html_publisher.py:398 | removing occurrences never lengthens the text |
| Text.Newlines | scripts/daily_html_publisher.py:396 | universal newlines: the result holds no carriage return, is no longer than the input, and equals it when the input holds none |
| Text.NewlinesOfCrLf | scripts/daily_html_publisher.py:396 | a `\r\n` pair becomes one line break |
| Text.StripOfPadded | scripts/daily_html_publisher.py:198 | `strip()` returns exactly the core of any text that is whitespace, a core with no whitespace at either end, and whitespace |
| Text.StripIdempotent | scripts/daily_html_publisher.py:198 | stripping twice is stripping once |
| Text.StripPads | scripts/daily_html_publisher.py:198 | `strip()` removes whitespace from the two ends only |
| Slug.UniqueSlug | scripts/daily_html_publisher.py:114-121 | the slug names no existing post; it is the base itself when the base is free, and otherwise `base-i` for an `i >= 2` below which every suffixed name is taken |
| Slug.EnsureUniqueSlug | scripts/daily_html_publisher.py:114-121 | the probing loop returns the base when it is free; otherwise it returns `base-i`, where every `base-j` with `2 <= j < i` is taken; the result equals the functional definition |
| Slug.FreeIndexUnique | scripts/daily_html_publisher.py:118-121 | the suffix chosen is the least `i >= 2` whose name is free |
| Slug.CandidateInjective | scripts/daily_html_publisher.py:121 | different suffix numbers give different names |
| Slug.CandidateIsNotBase | scripts/daily_html_publisher.py:121 | a suffixed name never equals its base |
| Slug.RepeatedAllocation | scripts/daily_html_publisher.py:114-121 | if nothing in the directory looks like the base or a suffixed form, `n` successive publications under one base get the base, then `base-2`, `base-3`, ... in order |
| Html.Escape | scripts/daily_html_publisher.py:212-228 | escaped text has no `<`, `>`, `"` or `'` and is at least as long as the input; text without special characters is unchanged |
| Html.UnescapeEscape | scripts/daily_html_publisher.py:212-228 | decoding the five entities gives back the escaped text exactly |
| Html.EscapeInjective | scripts/daily_html_publisher.py:212-228 | distinct texts never escape to the same text |
| Html.EscapeAppend | scripts/daily_html_publisher.py:212-228 | escaping distributes over concatenation |
| Html.EscapeKeepsStripped | scripts/daily_html_publisher.py:212 | escaping a text with no surrounding whitespace adds none |
| Render.CanonicalUrl | scripts/daily_html_publisher.py:206 | the URL ends in `/blog/<slug>.html` and starts with the site URL; what is cut off the site URL is trailing slashes only, and the kept part does not end in a slash |
| Render.CanonicalIgnoresTrailingSlash | scripts/daily_html_publisher.py:206 | a trailing slash on the site URL does not change the canonical URL |
| Render.RenderPage | scripts/daily_html_publisher.py:205-240 | the page holds the canonical link, the description's meta line and `desc` paragraph with the description escaped, the line of tag chips, and the body HTML verbatim on its own line |
| Render.ParseTagSpansRoundTrip | scripts/daily_html_publisher.py:228 | the tag chips read back as the tags, in order |
| Titles.TitleText | scripts/daily_html_publisher.py:397 | the lazy search finds nothing exactly when no `</title>` follows an opening `<title>`, ignoring case |
| Titles.TitleTextOfRenderedPage | scripts/daily_html_publisher.py:212 | on every rendered page the search finds the escaped title followed by the site name |
| Titles.AsWrittenTitleOfRenderedPage | scripts/daily_html_publisher.py:397-398 | the rebuild as written reads back the title still HTML-escaped |
| Titles.AsWrittenTitleCounterexample | scripts/daily_html_publisher.py:398 | a post titled `R&D` is read back as `R&amp;D`, while the corrected reading gives `R&D` |
| Titles.ReadTitleOfRenderedPage | scripts/daily_html_publisher.py:397-398 | with the escapes decoded, the title of every rendered page reads back as the title it was rendered with |
| Titles.AsWrittenTitle | scripts/daily_html_publisher.py:397-398 | a title is read exactly when the page has a title element; what is read has no surrounding whitespace |
| Titles.ReadTitle | scripts/daily_html_publisher.py:398 | the corrected reading finds a title exactly when the page has a title element |
| Titles.SiteNameRemoved | scripts/daily_html_publisher.py:398 | removing the site name and stripping leaves exactly the escaped title |
| IndexPage.InsertAfterFirst | scripts/daily_html_publisher.py:309 | without a `<ul id="posts">` (in any case) the page is unchanged; otherwise the link goes right after the first one |
| IndexPage.PrependLink | scripts/daily_html_publisher.py:306-310 | without the list opening the index is unchanged; otherwise the link is inserted right after the first one, and the next run inserts at the same point |
| IndexPage.InsertionOnlyAddsLink | scripts/daily_html_publisher.py:306-310 | the text before and after the insertion point is unchanged, and the link sits between them |
| IndexPage.InsertionKeepsPoint | scripts/daily_html_publisher.py:309 | after an insertion the list opening is found where it was |
| IndexPage.NewestFirst | scripts/daily_html_publisher.py:306-310 | two successive runs leave the newer link above the older one, both right after the list opening |
| Home.SkippedIsIndex | scripts/daily_html_publisher.py:392-394 | among `*.html` files, only `index.html` is passed over |
| Home.EntryTitle | scripts/daily_html_publisher.py:395-401 | an entry shows the title read from its page as written, still HTML-escaped; pathlib's stem of the file's name when the file cannot be read or holds no title element |
| Home.EntryOfRenderedPost | scripts/daily_html_publisher.py:395-399 | as written, a rendered post is listed under its title HTML-escaped, and under its slug, or `.html` when the slug is empty |
| Home.DoubleEscapedItem | scripts/daily_html_publisher.py:398-406 | a post titled `R&D` gets the list item text `R&amp;amp;D` |
| Home.CorrectedEntry | scripts/daily_html_publisher.py:395-401 | the corrected entry shows the decoded title read from the page, or the name without `.html` when there is none, and links the name without `.html` |
| Home.CorrectedEntryOfRenderedPost | scripts/daily_html_publisher.py:395-398 | read the corrected way, a rendered post is listed under the title it was published with |
| Home.Stem | scripts/daily_html_publisher.py:399 | pathlib's `stem`: a prefix of the name, which is the whole name or stops at a dot that is neither the first nor the last character and after which no dot follows |
| Home.HtmlStem | scripts/daily_html_publisher.py:399 | the stem of `base.html` is `base`, except that the stem of `.html` is `.html` |
| Home.EntryLinksFile | scripts/daily_html_publisher.py:399-406 | as written, an entry's link names its own file exactly when the file's name is more than `.html` |
| Home.EmptyBaseLink | scripts/daily_html_publisher.py:399-406 | the file `.html` is linked as its name with `.html` added again, which is not its name |
| Home.CorrectedEntryLinksFile | scripts/daily_html_publisher.py:399-406 | read the corrected way, every entry links to its own file |
| Home.LatestSkipsIndex | scripts/daily_html_publisher.py:392-403 | no selected entry is the blog index |
| Home.Eligible | scripts/daily_html_publisher.py:392-394 | the listing without the passed-over files, never longer |
| Home.Cap | scripts/daily_html_publisher.py:402-403 | the number of posts taken is `max_items`, but at least one, because the limit is checked only after a post is appended |
| Home.Latest | scripts/daily_html_publisher.py:391-403 | the first `Cap(max_items)` eligible files in listing order, each with its entry |
| Home.SelectLatest | scripts/daily_html_publisher.py:391-403 | the loop with its early `break` selects exactly `Latest`, at most `max_items` posts when that is positive, none of them the blog index |
| Home.ItemsOf | scripts/daily_html_publisher.py:405-407 | one list item per post, in order |
| Home.ListHtmlIsLines | scripts/daily_html_publisher.py:405-407 | the joined list is a line break and an item per post, then the closing indentation |
| Home.LinesShowEveryPost | scripts/daily_html_publisher.py:405-407 | every selected post's item appears in the written list |
| Home.Split | scripts/daily_html_publisher.py:412-413 | when the region exists, the homepage is the text before it, the start marker, the inner text, the end marker and the rest; no start marker occurs earlier, and no end marker occurs before the one that closes the region; there is no region exactly when no end marker follows any start marker |
| Home.ReplaceRegion | scripts/daily_html_publisher.py:412-415 | without a region the homepage is unchanged; otherwise only the text between the first start marker and the next end marker is replaced |
| Home.SplitReplaceRegion | scripts/daily_html_publisher.py:412-415 | after the replacement the region holds the new list, and the text around it is as before |
| Home.ReplaceRegionTwice | scripts/daily_html_publisher.py:412-415 | replacing the region twice is replacing it once with the second list |
| Home.RebuildHome | scripts/daily_html_publisher.py:384-416 | a homepage without the region is left unchanged; otherwise the region between the markers holds the list of the latest posts and the text around it is kept |
| Home.RebuildHomeIdempotent | scripts/daily_html_publisher.py:384-416 | a second rebuild over the same files changes nothing |
| Home.RebuildHomeShowsLatest | scripts/daily_html_publisher.py:384-416 | after a rebuild the region lists the latest posts, and everything outside it is kept |
| Home.NewestPostFirst | scripts/daily_html_publisher.py:392-399 | a newly written post heads the list |
| Dates.DateOfDay | scripts/daily_html_publisher.py:327-328 | the calendar date of a day count is a valid Gregorian date with that day count |
| Dates.DateOfDayNumber | scripts/daily_html_publisher.py:327-328 | every valid date since 1970 is the date of its own day count |
| Dates.IstDateFollowsUtc | scripts/daily_html_publisher.py:325-328 | India's date is the UTC date before 18:30 UTC and the next day from then on |
| Dates.IsoFormat | scripts/daily_html_publisher.py:328 | at least ten characters, all digits or dashes |
| Dates.ParseIsoFormat | scripts/daily_html_publisher.py:328 | `YYYY-MM-DD` reads back as the date it was written from |
| Dates.IsoFormatInjective | scripts/daily_html_publisher.py:328 | distinct dates are written differently |
| Dates.TodayIso | scripts/daily_html_publisher.py:325-328 | the text reads back as India's date at the given instant |
| Sitemap.StartingRoot | scripts/daily_html_publisher.py:345-359 | a missing file starts as a `urlset` seeded with the homepage entry, an unparsable one as an empty `urlset`, a parsed one as it is |
| Sitemap.UpdateSitemap | scripts/daily_html_publisher.py:330-382 | the root keeps its tag (a new root is a `urlset`), and afterwards the post's location is listed, dated today |
| Sitemap.FirstSitemap | scripts/daily_html_publisher.py:352-373 | a first run writes the homepage entry (priority 1.0), then the post's (priority 0.7), both dated today |
| Sitemap.UnparsableSitemap | scripts/daily_html_publisher.py:349-351 | an unparsable sitemap is replaced by one holding only the post's entry |
| Sitemap.HomeIsNotPost | scripts/daily_html_publisher.py:357-365 | the seeded homepage entry never matches a post's location |
| Sitemap.Touch | scripts/daily_html_publisher.py:361-378 | an update happens exactly when an entry for the location exists at some depth |
| Sitemap.TouchKeepsHeads | scripts/daily_html_publisher.py:374-378 | re-dating an entry leaves every tag and text of the top-level elements as they were |
| Sitemap.TouchFindsUpdated | scripts/daily_html_publisher.py:361-378 | after the update, the entry found first for the location is the old one with today's date |
| Sitemap.TouchAppend | scripts/daily_html_publisher.py:363-367 | elements before the first matching entry are skipped and kept |
| Sitemap.TouchIdempotent | scripts/daily_html_publisher.py:361-378 | re-dating twice on one day is re-dating once |
| Sitemap.SetLastmod | scripts/daily_html_publisher.py:375-378 | the entry gets today's `lastmod`: the first `lastmod` child gets the date as its text, or a new `lastmod` child is appended when there is none; every other child (location, priority, further `lastmod`s) is kept in place, as are the entry's own tag and text |
| Sitemap.SetLastmodIdempotent | scripts/daily_html_publisher.py:375-378 | setting the date twice is setting it once |
| Sitemap.Upsert | scripts/daily_html_publisher.py:361-378 | a location not yet listed gets a new entry at the end; a listed one keeps its place, and the top level is otherwise unchanged |
| Sitemap.UpsertOnlyDatesFound | scripts/daily_html_publisher.py:361-378 | when the entry for the location is a child of the root, the update dates that entry and leaves every other child of the root as it was |
| Sitemap.UpsertRecordsToday | scripts/daily_html_publisher.py:361-378 | afterwards the location is listed, dated today |
| Sitemap.UpsertIdempotent | scripts/daily_html_publisher.py:361-378 | a second update on the same day changes nothing |
| RunLog.RecordPublished | scripts/daily_html_publisher.py:462-465 | the slug is appended to today's list, which is created when missing; other days are untouched |
| RunLog.RecordOnlyAppends | scripts/daily_html_publisher.py:462-465 | every day's earlier list is a prefix of its new one |
| RunLog.RecordAddsSlug | scripts/daily_html_publisher.py:490-493 | the log records exactly the slugs it recorded before, plus the new one |
| Publish.Compose | scripts/daily_html_publisher.py:419-471 | the published article has a slug no file uses and is well formed; on generation failure it is the placeholder (its title, description, no tags, the given body); otherwise it is the normalised article; either way the slug is the unique form of the slugified base: the placeholder's fixed slug, or the normalised slug, else the slugified title |
| Publish.RunArticle | scripts/daily_html_publisher.py:470-471 | the article of a run has a fresh slug and a well-formed draft |
| Publish.RunAsksForSafeTopic | scripts/daily_html_publisher.py:447-454 | the generator is asked only for a topic the filter lets through, and for the picked topic when that is clean |
| Publish.Record | scripts/daily_html_publisher.py:474-494 | the new page heads the listing, with the text the rebuild reads back (universal newlines), and the listing otherwise stays as it was; a homepage exists afterwards exactly when it did before |
| Publish.Run | scripts/daily_html_publisher.py:437-496 | the run publishes the article of the chosen topic under a slug no file had |
| Publish.EmptySlugBrokenLink | scripts/daily_html_publisher.py:114-116 | an article without a slug whose title slugifies to nothing is published as `blog/.html`, and the homepage links it as `/blog/.html.html` |
| Publish.RecordWritesPage | scripts/daily_html_publisher.py:474-482 | the new page is written under a name no file had, and the listing otherwise stays as it was |
| Publish.RecordLinksIndex | scripts/daily_html_publisher.py:485 | the blog index gains exactly the new link after its list opening, or is left alone when that opening is missing |
| Publish.RecordListsInSitemap | scripts/daily_html_publisher.py:486 | the sitemap lists the post, dated with India's date at the run's instant |
| Publish.RecordLogsSlug | scripts/daily_html_publisher.py:489-494 | the log records the slug last under the local date, and keeps every slug it held |
| Publish.RecordHeadsHome | scripts/daily_html_publisher.py:487 | the homepage region lists the new post first, under its file's stem (its slug, or `.html` for the empty slug) and its title HTML-escaped (which the list item escapes again), and the homepage outside the region is unchanged |
| Publish.PageTitleReadable | scripts/daily_html_publisher.py:474-481 | the page a run writes reads back the article's title HTML-escaped, when the title has no surrounding whitespace and no `•` |
| Publish.PlaceholderTitleReadable | scripts/daily_html_publisher.py:419 | the placeholder title meets the conditions under which a title reads back from its page |

## Left out

- Text.RemoveAll: states only that removal never lengthens the text; like `str.replace`, one pass can leave a new occurrence where two pieces meet, so the result is not claimed free of the pattern.
- The language-model client is not modelled: the provider choice, the JSON-repair fallbacks and the retry policy. The generator is a parameter returning `None` when it fails.
- `pick_topic` is not modelled, because it depends on date-seeded pseudo-randomness. The topic it picks is an input.
- `slugify` comes from an external library. It is a parameter.
- File reads and writes are not modelled: directory creation, `ensure_blog_index`, `ensure_styles`, `load_memory`/`save_memory`, and the ordering of the listing by modification time. Their effects are the inputs and outputs of the model.
- The XML parse and the pretty printer are not modelled: ElementTree and minidom are foreign code. The sitemap is an element tree, and serialisation is not modelled.
- The wall clocks (local date, UTC instant, placeholder time stamp) are inputs.
- Documents are the texts as `read_text` decodes them, with universal newlines. The homepage and the blog index are written back from that text, so a file stored with `\r\n` line endings is written back with `\n` throughout (lines 310 and 416); the model's "unchanged outside the region" and "unchanged outside the insertion point" are about the decoded text. A page is listed with `Text.Newlines` applied, so a title holding `\r` reads back with `\n` and `Publish.RecordHeadsHome`'s title premise fails for it.
- Publish.Record: one local date stands for the three `date.today()` calls of a run (the footer year at line 236, the index link at line 308, the run log at line 490), so a run that crosses midnight, which can date them differently, is not modelled.
- Draft.Normalize: every field of the generated object is taken to be missing or a string (a list of strings for the tags). JSON `null` and other JSON types are not modelled: a `null` title raises at line 198, so the retries fail and the placeholder is published; a `null` body renders the text `None` (lines 202 and 232); a string in place of the tag list is iterated character by character (line 201).
- The first definition of `rebuild_home_latest` (lines 242-275) is not modelled: Python replaces it with the second definition before anything calls it.
- The module-level call after `main()` (line 500) is not modelled: it names `blog_dir`, a variable local to `main`, so it can only raise `NameError`. The model ends with `main`.
- Console output and logging are not modelled.
- Text.Lower: lower-cases ASCII letters only, while `str.lower` folds all of Unicode. The banned keywords are ASCII, so only non-ASCII letters whose lower case is ASCII could differ.
- IndexPage.InsertAfterFirst: the link is inserted as plain text. Python's `re.sub` expands backslash escapes in the replacement, so a title containing a backslash is not modelled faithfully.
- Home.ReplaceRegion: same as the index: the list is inserted as plain text, without `re.sub`'s template expansion of backslashes in titles.
- Home.EntryTitle: a file that cannot be read is given (text `None`) rather than decoded with `errors="ignore"`.
- Publish.RecordHeadsHome: requires a slug other than `index`. In the source this holds because `ensure_blog_index` (line 443) creates `blog/index.html` (the default `BLOG_INDEX`, line 34) before the slug is chosen, so `ensure_unique_slug` never returns `index`; the model does not carry the index file in the listing as a precondition.
- Publish.RecordHeadsHome: requires that the new page reads back the article's title HTML-escaped. `Publish.PageTitleReadable` shows this for a title without surrounding whitespace and without the bullet `•`. Normalisation only strips the title, so a generated title containing `•` is not covered; the rebuild's removal of the site name could cut into such a title. It also requires that the written list contains no end marker, which escaping guarantees only for the titles. No single lemma covers `Run`; each part of `Record` has its own.
- Publish.RunArticle: states only the freshness of the slug and the well-formedness of the draft. It returns `Publish.Compose` of the generated article, whose contract states the slug's derivation and the article's fields.
- Sitemap.Upsert: for an existing entry that is a child of the root, `Sitemap.UpsertOnlyDatesFound` states that every other child is kept. For an entry nested deeper (a `url` inside another element, which `findall(".//url")` also finds), only the top-level heads and the found entry are stated; the sitemaps protocol puts every `url` directly under `urlset`.
- Dates.ParseIsoFormat: requires month and day below 100, so that both are written with exactly two digits, as they are for every valid date.
- Filesystem write failures are not modelled. They abort the script, and the model has no I/O.

## Findings

| source | as written | input that shows it | evidently intended | confidence | as-written member | corrected member |
|---|---|---|---|---|---|---|
| scripts/daily_html_publisher.py:399 | the homepage rebuild lists each file under pathlib's `p.stem` and links it as stem plus `.html` (line 406); the stem of the file `.html` is `.html` | a generated article with no slug and a title that slugifies to nothing (for instance `!!!`) gets the slug `""` (lines 114-116), is written to `blog/.html`, and is linked from the homepage as `/blog/.html.html`, which does not exist | every homepage entry links to its own file | not executed | Publish.EmptySlugBrokenLink | Home.CorrectedEntryLinksFile |
| scripts/daily_html_publisher.py:398 | the homepage rebuild reads the `<title>` text, which `render_page` wrote HTML-escaped, and escapes it again at line 406 | a post titled `R&D` is read as `R&amp;D` and shown on the homepage as `R&amp;amp;D`, i.e. the reader sees `R&amp;D` | the homepage shows the title the post was published under | not executed | Home.DoubleEscapedItem | Home.CorrectedEntryOfRenderedPost |

The homepage model (`Home.RebuildHome`, `Publish.RecordHeadsHome`) follows the code as written. The corrected reading (`Home.CorrectedEntry`) links the file's name without `.html` and decodes the escapes of the title (`Titles.ReadTitle`), and `Titles.ReadTitleOfRenderedPage` proves it gives back the published title.
