/** The field normalisation of `components/ArticleCard.tsx`: how a remote row
    or a local mock row becomes the cover, summary, tag, reading time and link
    target a card shows. The code mixes `??` (skips only null/undefined) and
    `||` (skips every falsy value, including ""), and the model keeps the two
    apart. */
module ArticleCard {
  import opened Options
  import opened JsText

  /** An `id` is a string or a number. */
  datatype IdValue = IdText(text: string) | IdNumber(n: int)

  /** The card's input. Remote rows carry `excerpt`, `cover_url` and `tags`;
      local rows carry `summary`, `coverUrl` and `tag`. */
  datatype CardInput = CardInput(
    id: Option<IdValue>,
    slug: Option<string>,
    title: Option<string>,
    excerpt: Option<string>,
    summary: Option<string>,
    content: Option<string>,
    remoteCover: Option<string>,
    localCover: Option<string>,
    tags: Option<seq<string>>,
    tag: Option<string>,
    readMins: Option<int>)

  /** What the card shows and where it links. */
  datatype Card = Card(
    title: string,
    accessibilityLabel: string,
    cover: Option<string>,
    summary: string,
    tag: string,
    mins: int,
    href: Option<string>)

  const WordsPerMinute: nat := 220
  const DefaultTag: string := "Noticias"
  const DefaultLabel: string := "Artículo"
  const ArticlePath: string := "/article/"
  /** The estimate for a card without content. */
  const NoContentMins: int := 2

  /** JavaScript truthiness of an optional string. */
  predicate Truthy(s: Option<string>) {
    s.Some? && s.value != ""
  }

  /* ---------- reading time ---------- */

  /** `Math.round(n / d)`: the nearest integer, a half rounded up. */
  function RoundDiv(n: nat, d: nat): (r: nat)
    requires d > 0
    ensures 2 * n < (2 * r + 1) * d
    ensures (2 * r - 1) * d <= 2 * n
  {
    var r := (2 * n + d) / (2 * d);
    assert 2 * d * r <= 2 * n + d < 2 * d * r + 2 * d;
    r
  }

  /** `content.trim().split(/\s+/).length`: the number of words, except
      that blank content still counts as one. */
  function WordCount(content: string): (n: nat)
    ensures n >= 1
    ensures n == if AllWhite(content) then 1 else WordStarts(content)
  {
    SplitWhiteTrimCount(content);
    |SplitWhite(Trim(content))|
  }

  /** `estimateReadMins`: 2 for missing or empty content, otherwise the word
      count over 220 rounded to the nearest minute, but at least 1. */
  function EstimateReadMins(content: Option<string>): (r: int)
    ensures r >= 1
    ensures !Truthy(content) ==> r == NoContentMins
    ensures Truthy(content) ==>
              var w := WordCount(content.value);
              && 2 * w < (2 * r + 1) * WordsPerMinute
              && (r > 1 ==> (2 * r - 1) * WordsPerMinute <= 2 * w)
  {
    if !Truthy(content) then NoContentMins
    else
      var m := RoundDiv(WordCount(content.value), WordsPerMinute);
      if m > 1 then m else 1
  }

  /** Content made only of white space is truthy, trims to "", and "" splits
      into one piece, so it estimates 1 minute rather than the 2 of no content. */
  lemma BlankContentIsOneMinute(s: string)
    requires s != [] && AllWhite(s)
    ensures WordCount(s) == 1
    ensures EstimateReadMins(Some(s)) == 1
  {
    SplitWhiteOfBlank(s);
  }

  /** Fewer than 330 words read in one minute. */
  lemma ShortContentIsOneMinute(s: string)
    requires s != [] && WordCount(s) < 330
    ensures EstimateReadMins(Some(s)) == 1
  {
  }

  /* ---------- fields ---------- */

  /** `cover_url ?? coverUrl ?? null`: an empty remote cover is kept. */
  function CoverOf(a: CardInput): (r: Option<string>)
    ensures a.remoteCover.Some? ==> r == a.remoteCover
    ensures a.remoteCover.None? ==> r == a.localCover
  {
    a.remoteCover.Or(a.localCover)
  }

  /** `excerpt ?? summary ?? ""`: an empty excerpt is kept. */
  function SummaryOf(a: CardInput): (r: string)
    ensures a.excerpt.Some? ==> r == a.excerpt.value
    ensures a.excerpt.None? && a.summary.Some? ==> r == a.summary.value
    ensures a.excerpt.None? && a.summary.None? ==> r == ""
  {
    a.excerpt.Or(a.summary).OrElse("")
  }

  /** `(Array.isArray(tags) && tags[0]) || tag || "Noticias"`: empty strings
      fall through, so the tag is never empty. */
  function TagOf(a: CardInput): (r: string)
    ensures r != ""
    ensures a.tags.Some? && |a.tags.value| > 0 && a.tags.value[0] != "" ==> r == a.tags.value[0]
    ensures !(a.tags.Some? && |a.tags.value| > 0 && a.tags.value[0] != "") && Truthy(a.tag) ==> r == a.tag.value
    ensures !(a.tags.Some? && |a.tags.value| > 0 && a.tags.value[0] != "") && !Truthy(a.tag) ==> r == DefaultTag
  {
    if a.tags.Some? && |a.tags.value| > 0 && a.tags.value[0] != "" then a.tags.value[0]
    else if Truthy(a.tag) then a.tag.value
    else DefaultTag
  }

  /** `readMins ?? estimateReadMins(content)`: a stated 0 is kept. */
  function MinsOf(a: CardInput): (r: int)
    ensures a.readMins.Some? ==> r == a.readMins.value
    ensures a.readMins.None? ==> r >= 1 && r == EstimateReadMins(a.content)
  {
    a.readMins.OrElse(EstimateReadMins(a.content))
  }

  /** `String(id)`. */
  function IdString(id: IdValue): (r: string)
    ensures id.IdNumber? ==> r != []
  {
    match id
    case IdText(t) => t
    case IdNumber(n) => IntToString(n)
  }

  /** `(id != null ? String(id) : null) || (slug ? String(slug) : null)`:
      the route segment, never empty; a numeric id always yields one. */
  function IdOrSlug(a: CardInput): (r: Option<string>)
    ensures r.Some? ==> r.value != ""
    ensures a.id.Some? && IdString(a.id.value) != "" ==> r == Some(IdString(a.id.value))
    ensures !(a.id.Some? && IdString(a.id.value) != "") && Truthy(a.slug) ==> r == a.slug
    ensures r.None? <==> (a.id.None? || a.id.value == IdText("")) && !Truthy(a.slug)
  {
    if a.id.Some? && IdString(a.id.value) != "" then Some(IdString(a.id.value))
    else if Truthy(a.slug) then a.slug
    else None
  }

  /** The link target: "/article/" followed by the route segment, absent
      when there is none. */
  function Href(a: CardInput): (r: Option<string>)
    ensures r.Some? <==> IdOrSlug(a).Some?
    ensures r.Some? ==> ArticlePath <= r.value && |r.value| > |ArticlePath|
  {
    match IdOrSlug(a)
    case Some(seg) => Some(ArticlePath + seg)
    case None => None
  }

  /** The route `/article/[idOrSlug]` reads back the segment the card linked. */
  lemma HrefRoundTrip(a: CardInput)
    requires Href(a).Some?
    ensures Href(a).value[|ArticlePath|..] == IdOrSlug(a).value
  {
  }

  /** The whole card. */
  function Normalize(a: CardInput): (c: Card)
    ensures c.tag != ""
    ensures a.readMins.None? ==> c.mins >= 1
    ensures c.href.Some? ==> ArticlePath <= c.href.value
    ensures c.title == a.title.OrElse("") && c.accessibilityLabel == a.title.OrElse(DefaultLabel)
  {
    Card(a.title.OrElse(""), a.title.OrElse(DefaultLabel), CoverOf(a), SummaryOf(a),
         TagOf(a), MinsOf(a), Href(a))
  }

  /** `??` and `||` disagree on the empty string: an empty excerpt is shown as
      an empty summary, while an empty first tag falls back. */
  lemma NullishVersusFalsy(a: CardInput)
    requires a.excerpt == Some("") && a.summary == Some("local")
    requires a.tags == Some([""]) && a.tag == Some("Salud")
    ensures Normalize(a).summary == ""
    ensures Normalize(a).tag == "Salud"
  {
  }
}
