/** The normalisation the generator applies to the article fields the model
    returns, before anything is rendered: stripped title, slug from the
    suggested slug or else the title, description cut to 150 characters,
    stripped tags capped at eight, body passed through. */
module Draft {
  import opened Options
  import opened Text

  const MaxTags: nat := 8
  const MaxDescription: nat := 150

  /** The decoded JSON object of an article as the model returned it; a
      field the model left out (or set to an empty value where the code
      falls back with `or`) is `None`. */
  datatype RawDraft = RawDraft(
    title: Option<string>,
    slug: Option<string>,
    description: Option<string>,
    tags: Option<seq<string>>,
    htmlBody: Option<string>)

  /** An article ready to render. */
  datatype Draft = Draft(
    title: string,
    slug: string,
    description: string,
    tags: seq<string>,
    htmlBody: string)

  function Min(a: nat, b: nat): nat {
    if a < b then a else b
  }

  /** The invariants every draft handed to the renderer keeps: a stripped
      title, at most 150 description characters, at most eight stripped tags. */
  ghost predicate WellFormed(d: Draft) {
    && IsStripped(d.title)
    && |d.description| <= MaxDescription
    && |d.tags| <= MaxTags
    && forall i :: 0 <= i < |d.tags| ==> IsStripped(d.tags[i])
  }

  /** `[t.strip() for t in tags][:MAX_TAGS]`. */
  function NormalizeTags(tags: seq<string>): (r: seq<string>)
    ensures |r| == Min(MaxTags, |tags|) && |r| <= MaxTags
    ensures forall i :: 0 <= i < |r| ==> r[i] == Strip(tags[i]) && IsStripped(r[i])
  {
    var n := Min(MaxTags, |tags|);
    seq(n, i requires 0 <= i < n => Strip(tags[i]))
  }

  /** The normalisation block of `generate_article`; `slugify` is the
      external slug library, taken as a parameter. */
  function Normalize(raw: RawDraft, slugify: string -> string): (d: Draft)
    ensures d.title == Strip(raw.title.GetOr(""))
    ensures d.slug == slugify(if raw.slug.GetOr("") != "" then raw.slug.GetOr("") else d.title)
    ensures |d.description| == Min(MaxDescription, |Strip(raw.description.GetOr(""))|)
    ensures d.description == Strip(raw.description.GetOr(""))[..|d.description|]
    ensures |d.tags| == Min(MaxTags, |raw.tags.GetOr([])|)
    ensures forall i :: 0 <= i < |d.tags| ==> d.tags[i] == Strip(raw.tags.GetOr([])[i])
    ensures d.htmlBody == raw.htmlBody.GetOr("")
    ensures WellFormed(d)
  {
    var title := Strip(raw.title.GetOr(""));
    var slugSource := if raw.slug.GetOr("") != "" then raw.slug.GetOr("") else title;
    var tags := NormalizeTags(raw.tags.GetOr([]));
    var description := Clip(Strip(raw.description.GetOr("")), MaxDescription);
    assert forall i :: 0 <= i < |tags| ==> IsStripped(tags[i]);
    Draft(title, slugify(slugSource), description, tags, raw.htmlBody.GetOr(""))
  }

  /** `s[:n]`: the first `n` characters, or all of `s` when it is shorter. */
  function Clip(s: string, n: nat): (r: string)
    ensures |r| == Min(n, |s|) && |r| <= n
    ensures r == s[..|r|]
  {
    if |s| <= n then s else s[..n]
  }

  /** A draft read back as the model's answer. */
  function AsRaw(d: Draft): RawDraft {
    RawDraft(Some(d.title), Some(d.slug), Some(d.description), Some(d.tags), Some(d.htmlBody))
  }

  /** Normalising a normalised draft again changes nothing but, at most, the
      end of a description that the 150-character cut left ending in
      whitespace, and the slug, which is passed through the slug library
      once more. */
  lemma NormalizeSettles(raw: RawDraft, slugify: string -> string)
    ensures var d := Normalize(raw, slugify);
      var e := Normalize(AsRaw(d), slugify);
      && e.title == d.title
      && (d.slug != "" ==> e.slug == slugify(d.slug))
      && e.description == Strip(d.description)
      && (|Strip(raw.description.GetOr(""))| <= MaxDescription ==> e.description == d.description)
      && e.tags == d.tags
      && e.htmlBody == d.htmlBody
  {
    StripIdempotent(raw.title.GetOr(""));
    TagsSettle(raw.tags.GetOr([]));
    DescriptionSettles(raw.description.GetOr(""));
  }

  lemma TagsSettle(tags: seq<string>)
    ensures NormalizeTags(NormalizeTags(tags)) == NormalizeTags(tags)
  {
    var t := NormalizeTags(tags);
    forall i | 0 <= i < |t| ensures NormalizeTags(t)[i] == t[i] {
      StrippedIsFixed(t[i]);
    }
  }

  lemma DescriptionSettles(s: string)
    ensures var c := Clip(Strip(s), MaxDescription);
      && Clip(Strip(c), MaxDescription) == Strip(c)
      && (|Strip(s)| <= MaxDescription ==> Strip(c) == c)
  {
    var c := Clip(Strip(s), MaxDescription);
    StripPads(c);
    var a, b :| AllSpace(a) && AllSpace(b) && c == a + Strip(c) + b;
    if |Strip(s)| <= MaxDescription {
      StripIdempotent(s);
    }
  }
}
