/** The home screen of `app/index.tsx`: the search-and-tag filter
    `filteredFrom`, the tag catalogue, the featured article, and the filter
    bar's state transitions. */
module FeedScreen {
  import opened Options
  import opened Seqs
  import opened JsText

  /** The screen's article shape. */
  datatype FeedArticle = FeedArticle(
    id: string,
    slug: string,
    title: string,
    summary: string,
    tag: string,
    image: Option<string>)

  /* ---------- filteredFrom ---------- */

  /** `q.trim().toLowerCase()`. */
  function NormalizeQuery(q: string): string {
    Lower(Trim(q))
  }

  /** `matchesText`, for the normalized query `k`. */
  predicate MatchesText(a: FeedArticle, k: string) {
    k == [] || Includes(Lower(a.title), k) || Includes(Lower(a.summary), k) || Includes(Lower(a.tag), k)
  }

  /** `matchesTag`: `!tag` holds for `null` and also for the empty string. */
  predicate MatchesTag(a: FeedArticle, tag: Option<string>) {
    tag.None? || tag.value == [] || a.tag == tag.value
  }

  /** The callback `filteredFrom` hands to `list.filter`. */
  function Keep(q: string, tag: Option<string>): FeedArticle -> bool {
    (a: FeedArticle) => MatchesText(a, NormalizeQuery(q)) && MatchesTag(a, tag)
  }

  /** `filteredFrom(list, q, tag)`: the articles passing both clauses, in list order. */
  function FilteredFrom(list: seq<FeedArticle>, q: string, tag: Option<string>): (r: seq<FeedArticle>)
    ensures IsSubseq(r, list)
    ensures forall a :: a in r <==> a in list && MatchesText(a, NormalizeQuery(q)) && MatchesTag(a, tag)
  {
    FilterIsSubseq(list, Keep(q, tag));
    Filter(list, Keep(q, tag))
  }

  /** Every copy of a kept article is kept, no copy of a dropped one. */
  lemma FilteredFromCount(list: seq<FeedArticle>, q: string, tag: Option<string>, a: FeedArticle)
    ensures multiset(FilteredFrom(list, q, tag))[a] ==
            if MatchesText(a, NormalizeQuery(q)) && MatchesTag(a, tag) then multiset(list)[a] else 0
  {
    FilterCount(list, Keep(q, tag), a);
  }

  /** A blank query with no tag selected shows the whole list. */
  lemma FilteredFromNoFilter(list: seq<FeedArticle>, q: string, tag: Option<string>)
    requires AllWhite(q)
    requires tag.None? || tag == Some("")
    ensures FilteredFrom(list, q, tag) == list
  {
    TrimEmpty(q);
    FilterAll(list, Keep(q, tag));
  }

  /** The text clause is a substring test against title, summary or tag. */
  lemma MatchesTextSpec(a: FeedArticle, k: string)
    ensures MatchesText(a, k) <==>
              || k == []
              || (exists i :: OccursAt(Lower(a.title), k, i))
              || (exists i :: OccursAt(Lower(a.summary), k, i))
              || (exists i :: OccursAt(Lower(a.tag), k, i))
  {
    IncludesSpec(Lower(a.title), k);
    IncludesSpec(Lower(a.summary), k);
    IncludesSpec(Lower(a.tag), k);
  }

  /** A selected non-empty tag filters by exact, case-sensitive equality. */
  lemma TagFilterExact(list: seq<FeedArticle>, t: string, a: FeedArticle)
    requires t != []
    ensures a in FilteredFrom(list, "", Some(t)) <==> a in list && a.tag == t
  {
    assert Trim("") == "";
  }

  /** Filtering the filtered list again changes nothing. */
  lemma FilteredFromIdempotent(list: seq<FeedArticle>, q: string, tag: Option<string>)
    ensures FilteredFrom(FilteredFrom(list, q, tag), q, tag) == FilteredFrom(list, q, tag)
  {
    FilterIdempotent(list, Keep(q, tag));
  }

  /* ---------- featured ---------- */

  /** `debouncedQ || selectedTag`. */
  predicate FilterActive(dq: string, tag: Option<string>) {
    dq != [] || (tag.Some? && tag.value != [])
  }

  /** The featured article: the head of the filtered list when a filter is on,
      of the whole list otherwise. */
  function Featured(list: seq<FeedArticle>, dq: string, tag: Option<string>): (r: Option<FeedArticle>)
    ensures r.Some? ==> r.value in list
    ensures r.None? ==> FilteredFrom(list, dq, tag) == []
  {
    var base := if FilterActive(dq, tag) then FilteredFrom(list, dq, tag) else list;
    if |base| > 0 then Some(base[0])
    else
      assert !FilterActive(dq, tag) ==> FilteredFrom(list, dq, tag) == [] by {
        if !FilterActive(dq, tag) {
          FilteredFromNoFilter(list, dq, tag);
        }
      }
      None
  }

  function Head<T>(s: seq<T>): Option<T> {
    if |s| > 0 then Some(s[0]) else None
  }

  /** The featured article is always the first visible one. */
  lemma FeaturedIsFirstFiltered(list: seq<FeedArticle>, dq: string, tag: Option<string>)
    ensures Featured(list, dq, tag) == Head(FilteredFrom(list, dq, tag))
  {
    if !FilterActive(dq, tag) {
      FilteredFromNoFilter(list, dq, tag);
    }
  }

  /** With no filter on, the featured article is the first of the list. */
  lemma FeaturedUnfiltered(list: seq<FeedArticle>, tag: Option<string>)
    requires tag.None? || tag == Some("")
    ensures Featured(list, "", tag) == Head(list)
  {
  }

  /* ---------- tag catalogue ---------- */

  /** `A.map(a => a.tag)`. */
  function TagsOf(list: seq<FeedArticle>): (r: seq<string>)
    ensures |r| == |list|
    ensures forall i :: 0 <= i < |list| ==> r[i] == list[i].tag
  {
    seq(|list|, i requires 0 <= i < |list| => list[i].tag)
  }

  /** `Array.from(new Set(A.map(a => a.tag))).sort(localeCompare)`; `le`
      stands for the locale comparator read as "may come first". */
  function Catalogue(list: seq<FeedArticle>, le: (string, string) -> bool): (r: seq<string>)
    ensures forall t :: t in r <==> exists a :: a in list && a.tag == t
    ensures Distinct(r)
  {
    var u := Dedup(TagsOf(list));
    SortByMembers(u, le);
    SortByDistinct(u, le);
    forall t ensures t in TagsOf(list) <==> exists a :: a in list && a.tag == t {
      if t in TagsOf(list) {
        var i :| 0 <= i < |list| && TagsOf(list)[i] == t;
        assert list[i] in list;
      }
    }
    SortBy(u, le)
  }

  /** Under a total preorder the catalogue is in comparator order. */
  lemma CatalogueSorted(list: seq<FeedArticle>, le: (string, string) -> bool)
    requires TotalPreorder(le)
    ensures Sorted(Catalogue(list, le), le)
  {
    SortBySorted(Dedup(TagsOf(list)), le);
  }

  /** Tags the comparator ties (such as "salud" and "Salud" at base
      sensitivity) appear in the order they were first seen. */
  lemma CatalogueTiesKeepFirstSeenOrder(list: seq<FeedArticle>, le: (string, string) -> bool, p: string -> bool)
    requires forall x, y :: p(x) && p(y) ==> le(x, y)
    ensures Filter(Catalogue(list, le), p) == Filter(Dedup(TagsOf(list)), p)
    ensures IsSubseq(Dedup(TagsOf(list)), TagsOf(list))
    ensures Sorted(Filter(Catalogue(list, le), p), FirstSeenBefore(TagsOf(list)))
  {
    var u := Dedup(TagsOf(list));
    SortByStable(u, le, p);
    DedupIsSubseq(TagsOf(list));
    DedupFirstSeenOrder(TagsOf(list));
    FilterSorted(u, p, FirstSeenBefore(TagsOf(list)));
  }

  /* ---------- filter bar ---------- */

  /** The screen's filter state: the raw query `q`, its committed value
      `debouncedQ`, and `selectedTag`. */
  datatype Ui = Ui(q: string, debouncedQ: string, selectedTag: Option<string>)

  const InitialUi: Ui := Ui("", "", None)

  datatype UiAction =
    | Typed(text: string)
    | DebounceElapsed
    | PressedHoy
    | PressedTag(t: string)
    | ClearedFilters

  function UiStep(u: Ui, a: UiAction): (r: Ui)
    ensures a.Typed? ==> r.q == a.text && r.debouncedQ == u.debouncedQ && r.selectedTag == u.selectedTag
    ensures a.PressedTag? ==> (r.selectedTag == Some(a.t) <==> u.selectedTag != Some(a.t))
    ensures a.PressedTag? ==> (r.selectedTag.None? <==> u.selectedTag == Some(a.t))
    ensures a.PressedTag? ==> r.q == u.q && r.debouncedQ == u.debouncedQ
    ensures a.PressedHoy? ==> r.selectedTag.None? && r.q == u.q && r.debouncedQ == u.debouncedQ
    ensures a.ClearedFilters? ==> r.q == "" && r.selectedTag.None? && r.debouncedQ == u.debouncedQ
    ensures a.DebounceElapsed? ==> r.debouncedQ == NormalizeQuery(u.q) && r.selectedTag == u.selectedTag && r.q == u.q
  {
    match a
    case Typed(text) => u.(q := text)
    case DebounceElapsed => u.(debouncedQ := NormalizeQuery(u.q))
    case PressedHoy => u.(selectedTag := None)
    case PressedTag(t) => u.(selectedTag := if u.selectedTag == Some(t) then None else Some(t))
    case ClearedFilters => u.(q := "", selectedTag := None)
  }

  /** The list the screen shows. */
  function Visible(list: seq<FeedArticle>, u: Ui): seq<FeedArticle> {
    FilteredFrom(list, u.debouncedQ, u.selectedTag)
  }

  /** Pressing the same chip twice restores the selection, when it was either
      nothing or that chip. */
  lemma TagToggleTwice(u: Ui, t: string)
    requires u.selectedTag.None? || u.selectedTag == Some(t)
    ensures UiStep(UiStep(u, PressedTag(t)), PressedTag(t)) == u
  {
  }

  /** Once the timer fires, the committed query filters exactly as the typed one. */
  lemma CommittedQueryFiltersLikeTyped(list: seq<FeedArticle>, u: Ui)
    ensures Visible(list, UiStep(u, DebounceElapsed)) == FilteredFrom(list, u.q, u.selectedTag)
  {
    NormalizeIdempotent(u.q);
  }

  /** Clearing the filters and letting the timer fire shows everything, with
      the first article featured. */
  lemma ClearFiltersShowsAll(list: seq<FeedArticle>, u: Ui)
    ensures var r := UiStep(UiStep(u, ClearedFilters), DebounceElapsed);
      Visible(list, r) == list && Featured(list, r.debouncedQ, r.selectedTag) == Head(list)
  {
    var r := UiStep(UiStep(u, ClearedFilters), DebounceElapsed);
    assert r.debouncedQ == NormalizeQuery("");
    EmptyQueryNormalizesToEmpty();
    FilteredFromNoFilter(list, "", None);
    FeaturedUnfiltered(list, None);
  }

  lemma EmptyQueryNormalizesToEmpty()
    ensures NormalizeQuery("") == ""
  {
    assert Trim("") == "";
  }
}
