# guacamaya-app core, modelled in Dafny

This project models the behaviour of the Guacamaya news app: a React Native
reader of articles that arrive from a remote `articles` table or from a local
mock list. It models four pieces.

- **The article store** (`src/hooks/useArticles.ts`). This is a pure state
  machine over `articles`, `loading`, `errorMsg` and the `mountedRef` flag.
  - A fetch starts, then settles with rows or with an error.
  - The realtime INSERT, UPDATE and DELETE handlers upsert or remove rows.
  - Every list the store holds is sorted by `sortByDateDesc`: newest date
    first, dateless rows last.
- **The home screen filter** (`app/index.tsx`). This covers `filteredFrom`
  (a trimmed, lower-cased substring query plus an exact tag), the
  de-duplicated and sorted tag catalogue, the featured article, and the
  filter bar's transitions: typing, the debounce commit, the tag chips,
  "Hoy" and "Limpiar filtros".
- **The card normaliser** (`components/ArticleCard.tsx`). This is how a
  remote or local row becomes the cover, summary, tag, reading time and link
  target of a card. The model keeps JavaScript's `??` (which skips only
  null/undefined) apart from `||` (which skips every falsy value, "" too).
- **The demo authentication** (`src/lib/auth.ts`). This is a single storage
  key holding the signed-in user or nothing.

Modules:

| file | module | contents |
|---|---|---|
| `options.dfy` | `Options` | `Option`, with `??` as `OrElse`/`Or` |
| `seqs.dfy` | `Seqs` | `filter`, de-duplication through a `Set`, the stable `sort` (an insertion sort, as `Array.prototype.sort` has been stable since ES2019), sortedness and subsequences |
| `js_text.dfy` | `JsText` | `trim`, `toLowerCase`, `includes`, `split(/\s+/)`, `split('@')[0]`, `String(n)` |
| `use_articles.dfy` | `UseArticles` | the article store |
| `feed_screen.dfy` | `FeedScreen` | the home screen |
| `article_card.dfy` | `ArticleCard` | the card normaliser |
| `auth.dfy` | `Auth` | the auth slot |
| `fixtures.dfy` | `Fixtures` | the two mock articles of `data/articles.ts`, pushed through the filter and the card |

Modelling choices:

- A JavaScript comparator `cmp` is read by the sort as the relation
  `cmp(a, b) <= 0`: "`a` may stay ahead of `b`".
- `localeCompare` is a parameter `le`, required to be a total preorder
  where a property needs it.
- A parsed date is an `int` timestamp; `None` stands for a null or empty date.

Three behaviours of the code that are easy to miss:

- At the start of a fetch, `setLoading(true)` and `setErrorMsg(null)` run
  whether or not the screen is still mounted. Only the settlement is guarded
  (`StartFetch`, `FinishFetch`).
- Content made only of white space is truthy, so it does not get the
  2-minute default. It trims to "", which splits into one piece, so it
  estimates 1 minute (`BlankContentIsOneMinute`).
- A selected tag "" counts as no tag, because the code tests `!tag`
  (`MatchesTag`).

## Model

| member | source | states |
|---|---|---|
| Options.Option.Or | components/ArticleCard.tsx:34 | `x ?? y` with `y` optional is `x` when present and `y` otherwise; absent exactly when both are |
| Options.Option.OrElse | components/ArticleCard.tsx:37-40 | `x ?? d` is `x`'s value when present and `d` otherwise |
| UseArticles.IsPublished | src/hooks/useArticles.ts:82 | `row?.status === "published"`; no contract of its own, OnInsert, OnUpdate and StepInv state what the handlers do with it |
| UseArticles.OtherId | src/hooks/useArticles.ts:99 | the callback `a => a.id !== id`; no contract of its own, RemoveId states what filtering with it keeps |
| UseArticles.HasId | src/hooks/useArticles.ts:84 | `prev.some(a => a.id === row.id)`; no contract of its own, body is "some entry of the list has the id", and Upsert states how it picks replace or prepend |
| UseArticles.CompareByDateDesc | src/hooks/useArticles.ts:25-33 | `sortByDateDesc`; no contract of its own, its meaning is stated by CompareByDateDescSpec and PrecedesMeaning |
| UseArticles.CompareByDateDescSpec | src/hooks/useArticles.ts:25-33 | the comparator is antisymmetric in sign; two dateless rows tie; a dated row goes before a dateless one; between dated rows the later date goes first, and equal dates tie |
| UseArticles.PrecedesMeaning | src/hooks/useArticles.ts:25-33 | `a` may precede `b` exactly when `b` is dateless or both are dated and `a`'s date is not earlier |
| UseArticles.PrecedesTotalPreorder | src/hooks/useArticles.ts:25-33 | the relation the sort derives from the comparator is total and transitive |
| UseArticles.SortArticles | src/hooks/useArticles.ts:58 | the sorted list is a permutation of the input (same multiset) and is sorted newest first |
| UseArticles.SortedMeaning | src/hooks/useArticles.ts:28-32 | in a sorted list no dated row follows a dateless one, and dated rows appear in non-increasing date order |
| UseArticles.SortArticlesStable | src/hooks/useArticles.ts:58 | rows with the same date keep their input order (stability) |
| UseArticles.SortArticlesOfSorted | src/hooks/useArticles.ts:58 | sorting an already sorted list returns it unchanged |
| UseArticles.ReplaceById | src/hooks/useArticles.ts:85 | `prev.map`: same length, each entry with the row's id replaced by the row, every other entry kept in place |
| UseArticles.Edited | src/hooks/useArticles.ts:84-85 | the list before sorting; no contract of its own, Upsert states what the sort keeps of it |
| UseArticles.Upsert | src/hooks/useArticles.ts:84-86 | the result holds the row and exactly the old entries with other ids; it is sorted; it grows by one only when the id was absent; among rows of one date it keeps the order of the edited list, so a new row goes ahead of the rows dated like it and a replaced row keeps its place |
| UseArticles.RemoveId | src/hooks/useArticles.ts:99 | removes exactly the entries with the id, keeps every copy of each other entry, in order (a subsequence), is the identity when the id is absent, and keeps a sorted list sorted |
| UseArticles.OnInsert | src/hooks/useArticles.ts:80-88 | a non-published INSERT leaves the list unchanged; a published one upserts |
| UseArticles.OnUpdate | src/hooks/useArticles.ts:94-106 | a non-published UPDATE removes every entry with that id and keeps every copy of the rest, in order; a published one upserts as INSERT does |
| UseArticles.OnDelete | src/hooks/useArticles.ts:111-114 | DELETE leaves no entry with the id and keeps every copy of each other entry, in their order |
| UseArticles.ApplyEvent | src/hooks/useArticles.ts:77-115 | dispatches each realtime event to its handler; no contract of its own, ApplyEventIdempotent, ApplyEventDistinctIds and StepInv state its properties |
| UseArticles.UpsertIdempotent | src/hooks/useArticles.ts:83-86 | upserting the same row twice gives the list of upserting it once |
| UseArticles.ApplyEventIdempotent | src/hooks/useArticles.ts:80-114 | applying any realtime event twice gives the list of applying it once |
| UseArticles.DeleteUndoesInsert | src/hooks/useArticles.ts:80-114 | on a sorted list without the row's id, DELETE of that id after INSERT of the row restores the list |
| UseArticles.UpsertDistinctIds | src/hooks/useArticles.ts:84-86 | an upsert keeps ids unique |
| UseArticles.ApplyEventDistinctIds | src/hooks/useArticles.ts:80-114 | every realtime event keeps ids unique |
| UseArticles.StartFetch | src/hooks/useArticles.ts:42-43 | a fetch sets `loading` and clears `errorMsg`, leaving the list and the mounted flag alone |
| UseArticles.FinishFetch | src/hooks/useArticles.ts:54-64 | when unmounted nothing changes; otherwise `loading` ends; rows (null read as `[]`) become a sorted permutation of the list; a failure keeps the list and sets the message or "Error cargando artículos" |
| UseArticles.FetchOutcome | src/hooks/useArticles.ts:41-65 | an uninterrupted fetch on a mounted screen ends not loading, with no error and the sorted rows, or with the old list and an error |
| UseArticles.Step | src/hooks/useArticles.ts:35-122 | only teardown clears the mounted flag; realtime events touch neither `loading` nor `errorMsg` |
| UseArticles.UnmountedFetchIsInert | src/hooks/useArticles.ts:56-63 | from any state, after teardown a fetch settlement changes neither the list, the error nor `loading` |
| UseArticles.Initial | src/hooks/useArticles.ts:36-39 | the initial `[]`, `true`, `null` and mounted flag; no contract of its own, InitialInv states the invariant it meets |
| UseArticles.InitialInv | src/hooks/useArticles.ts:36-39 | the initial state satisfies the store invariant |
| UseArticles.StepInv | src/hooks/useArticles.ts:41-116 | every step keeps the list sorted, published-only and free of duplicate ids, given rows as the published-only query with a unique key returns them |
| FeedScreen.Keep | app/index.tsx:183-190 | the `list.filter` callback; no contract of its own, body is the text clause on the normalised query and the tag clause |
| FeedScreen.FilteredFrom | app/index.tsx:181-190 | the result is an order-preserving subsequence of the list, and an article is in it exactly when it passes the text and the tag clause |
| FeedScreen.FilteredFromCount | app/index.tsx:183-190 | a kept article keeps all its copies, a dropped one none |
| FeedScreen.FilteredFromNoFilter | app/index.tsx:182-188 | a query that is blank after trimming with no tag (or "") returns the list unchanged |
| FeedScreen.NormalizeQuery | app/index.tsx:182 | `q.trim().toLowerCase()`; no contract of its own, NormalizeIdempotent, LowerTrim and EmptyQueryNormalizesToEmpty state its properties |
| FeedScreen.MatchesText | app/index.tsx:184-187 | the text clause; no contract of its own, MatchesTextSpec states its meaning |
| FeedScreen.MatchesTag | app/index.tsx:188 | the tag clause, `!tag` or `a.tag === tag`; no contract of its own, TagFilterExact and FilteredFromNoFilter state its meaning |
| FeedScreen.MatchesTextSpec | app/index.tsx:182-187 | the text clause holds exactly when the query is empty or occurs at some position of the lower-cased title, summary or tag |
| FeedScreen.TagFilterExact | app/index.tsx:188 | a selected non-empty tag keeps exactly the articles whose tag equals it, case-sensitively |
| FeedScreen.FilteredFromIdempotent | app/index.tsx:181-190 | filtering the filtered list again changes nothing |
| FeedScreen.FilterActive | app/index.tsx:63 | whether `debouncedQ` or `selectedTag` is truthy; no contract of its own, FeaturedIsFirstFiltered and FeaturedUnfiltered state how it picks the list |
| FeedScreen.Featured | app/index.tsx:62-65 | the featured article is in the list; there is none only when nothing passes the filter |
| FeedScreen.Head | app/index.tsx:64 | `base.length ? base[0] : null`; no contract of its own, FeaturedIsFirstFiltered and FeaturedUnfiltered state what it picks |
| FeedScreen.FeaturedIsFirstFiltered | app/index.tsx:62-65 | the featured article is the first of the filtered list, whether a filter is active or not |
| FeedScreen.FeaturedUnfiltered | app/index.tsx:63-64 | with no filter the featured article is the first of the list |
| FeedScreen.TagsOf | app/index.tsx:57 | `A.map(a => a.tag)`: one tag per article, in list order |
| FeedScreen.Catalogue | app/index.tsx:56-59 | the catalogue holds every article's tag, nothing else, and each once |
| FeedScreen.CatalogueSorted | app/index.tsx:58 | under a total preorder the catalogue is in comparator order |
| FeedScreen.CatalogueTiesKeepFirstSeenOrder | app/index.tsx:57-58 | among tags the comparator ties, the catalogue keeps the de-duplicated order, which is the order in which the tags first appear in the article list |
| FeedScreen.InitialUi | app/index.tsx:42-45 | the initial `q`, `debouncedQ` and `selectedTag` ("", "", null); no contract of its own |
| FeedScreen.Visible | app/index.tsx:67-70 | the `filtered` memo; no contract of its own, body is the filter of the list by the committed query and the tag, and CommittedQueryFiltersLikeTyped and ClearFiltersShowsAll state its properties |
| FeedScreen.UiStep | app/index.tsx:42-145 | typing changes only the raw query; a chip press selects its tag unless it was selected, then clears it, and touches neither query; "Hoy" clears only the tag; clearing sets the raw query to "" and the tag to none; the debounce commits the trimmed lower-cased query (line 51) and changes nothing else |
| FeedScreen.TagToggleTwice | app/index.tsx:138 | pressing the same chip twice restores the selection |
| FeedScreen.CommittedQueryFiltersLikeTyped | app/index.tsx:50-70 | once committed, the stored query filters exactly as the typed text would |
| FeedScreen.ClearFiltersShowsAll | app/index.tsx:79-82 | after clearing and the debounce, the whole list is visible and its first article featured |
| FeedScreen.EmptyQueryNormalizesToEmpty | app/index.tsx:182 | the empty query normalises to the empty query |
| ArticleCard.RoundDiv | components/ArticleCard.tsx:29 | the result is the nearest integer to `n / d`, a half rounded up |
| ArticleCard.WordCount | components/ArticleCard.tsx:28 | the piece count is 1 for blank content and otherwise the number of positions where a word starts |
| ArticleCard.EstimateReadMins | components/ArticleCard.tsx:26-30 | 2 for missing or empty content; otherwise the word count over 220 rounded to nearest, but at least 1 |
| ArticleCard.BlankContentIsOneMinute | components/ArticleCard.tsx:27-29 | non-empty content of white space only counts one word and estimates 1 minute |
| ArticleCard.ShortContentIsOneMinute | components/ArticleCard.tsx:29 | content under 330 words estimates 1 minute |
| ArticleCard.CoverOf | components/ArticleCard.tsx:34 | the remote cover when present (even ""), otherwise the local one |
| ArticleCard.SummaryOf | components/ArticleCard.tsx:37-40 | the excerpt when present (even ""), else the summary, else "" |
| ArticleCard.TagOf | components/ArticleCard.tsx:43-46 | the first tag when truthy, else the loose tag when truthy, else "Noticias"; never empty |
| ArticleCard.MinsOf | components/ArticleCard.tsx:49-51 | the stated minutes when present (even 0), else exactly the estimate from the content, which is at least 1 |
| ArticleCard.IdString | components/ArticleCard.tsx:55 | a numeric id always renders to a non-empty string |
| ArticleCard.IdOrSlug | components/ArticleCard.tsx:54-56 | the id's string when non-empty, else the slug when truthy; absent exactly when neither exists; never "" |
| ArticleCard.Href | components/ArticleCard.tsx:59 | a link exists exactly when a route segment does, and starts with "/article/" |
| ArticleCard.HrefRoundTrip | components/ArticleCard.tsx:59 | the text after "/article/" is the route segment |
| ArticleCard.Normalize | components/ArticleCard.tsx:33-66 | the card's tag is never empty, estimated minutes are at least 1, a link starts with "/article/", the label falls back to "Artículo" |
| ArticleCard.NullishVersusFalsy | components/ArticleCard.tsx:37-46 | an empty excerpt is kept as the summary while an empty first tag falls through to the loose tag |
| Auth.NameFromEmail | src/lib/auth.ts:6 | the name is the prefix of the email before its first '@', or the whole email |
| Auth.FullName | src/lib/auth.ts:10 | the full name has no white space at either end |
| Auth.SignIn | src/lib/auth.ts:4-7 | sign-in stores the email and the part before the first '@' |
| Auth.SignUp | src/lib/auth.ts:9-11 | sign-up stores the email and the trimmed full name |
| Auth.SignOut | src/lib/auth.ts:13-15 | sign-out empties the slot |
| Auth.WritesOverwrite | src/lib/auth.ts:2-10 | sign-in and sign-up do not depend on what the single key held |
| Auth.GetUser | src/lib/auth.ts:17-19 | `getUser`; no contract of its own, ReadAfterWrite states what it returns after each write |
| Auth.ReadAfterWrite | src/lib/auth.ts:13-19 | reading after sign-out gives nothing; after a write, exactly the stored record |
| Auth.SignUpEmptyLastName | src/lib/auth.ts:10 | an empty last name gives the trimmed first name |
| Auth.SignUpJoinsNames | src/lib/auth.ts:10 | names without outer white space are joined by exactly one space |
| JsText.TrimStart | app/index.tsx:182 | removes the longest all-white prefix and nothing more |
| JsText.TrimEnd | app/index.tsx:182 | removes the longest all-white suffix and nothing more |
| JsText.Trim | app/index.tsx:182 | the trimmed query starts and ends with non-white characters |
| JsText.TrimIsSlice | app/index.tsx:182 | the trimmed text is a slice of the input with only white space around it |
| JsText.TrimIdempotent | app/index.tsx:182 | trimming twice is trimming once |
| JsText.TrimEmpty | app/index.tsx:182 | a string trims to "" exactly when it is all white space |
| JsText.Lower | app/index.tsx:184-186 | lower-casing keeps the length, turns each ASCII capital into its small letter and keeps every other character |
| JsText.TrimAppendWhite | src/lib/auth.ts:10 | a trailing white-space character does not change the trim |
| JsText.LowerTrim | app/index.tsx:182 | lower-casing commutes with trimming |
| JsText.NormalizeIdempotent | app/index.tsx:51 | normalising a normalised query changes nothing |
| JsText.Includes | app/index.tsx:187 | `String.prototype.includes`; no contract of its own, IncludesSpec states its meaning |
| JsText.IncludesSpec | app/index.tsx:187 | `includes` holds exactly when the needle occurs at some position |
| JsText.SplitWhite | components/ArticleCard.tsx:28 | the split has at least one piece and no piece contains white space |
| JsText.SplitWhiteWords | components/ArticleCard.tsx:28 | a trimmed non-empty text splits into non-empty words |
| JsText.SplitWhiteOfBlank | components/ArticleCard.tsx:28 | blank text, once trimmed, splits into the one piece "" |
| JsText.SplitWhiteCount | components/ArticleCard.tsx:28 | a text with no white space at either end splits into one piece per word start |
| JsText.WordStartsTrim | components/ArticleCard.tsx:28 | trimming removes no word start |
| JsText.SplitWhiteTrimCount | components/ArticleCard.tsx:28 | `trim().split(/\s+/).length` is 1 for blank text and the number of word starts otherwise |
| JsText.BeforeFirst | src/lib/auth.ts:6 | the result is a prefix without the separator, followed in the input by the separator when shorter |
| JsText.NatToStringRoundTrip | components/ArticleCard.tsx:55 | the decimal digits of a number read back as that number |
| JsText.IntToString | components/ArticleCard.tsx:55 | the rendering is non-empty and starts with '-' exactly for negatives |
| Seqs.Filter | app/index.tsx:183 | the filter keeps exactly the elements passing the predicate |
| Seqs.FilterIsSubseq | app/index.tsx:183 | the filter result is an order-preserving subsequence |
| Seqs.FilterCount | app/index.tsx:183 | the filter keeps every copy of a kept value and none of a dropped one |
| Seqs.Dedup | app/index.tsx:57 | de-duplication keeps every value once and nothing else |
| Seqs.DedupIsSubseq | app/index.tsx:57 | the de-duplicated list is an order-preserving subsequence of the input |
| Seqs.DedupFirstIndex | app/index.tsx:57 | of two de-duplicated values, the earlier one first occurs earlier in the input |
| Seqs.DedupFirstSeenOrder | app/index.tsx:57 | the de-duplicated list is ordered by first occurrence in the input |
| Seqs.FilterFirstIndex | app/index.tsx:57 | two values a filter keeps first occur in the same order before and after filtering |
| Seqs.SortBy | src/hooks/useArticles.ts:58 | the sort is a permutation of its input |
| Seqs.SortBySorted | src/hooks/useArticles.ts:58 | under a total preorder the sort's output is sorted |
| Seqs.SortByStable | src/hooks/useArticles.ts:58 | elements the relation ties keep their relative order |
| Seqs.SortByOfSorted | src/hooks/useArticles.ts:58 | a sorted input comes out unchanged |
| Seqs.SortByDistinctKeys | src/hooks/useArticles.ts:58 | sorting keeps keys distinct |
| Seqs.SortByDistinct | app/index.tsx:57-58 | sorting a duplicate-free list (the de-duplicated tags) keeps it duplicate-free |
| Fixtures.TagScenario | data/articles.ts:13-36 | selecting "Servicios" with no query shows only the first mock article |
| Fixtures.SaludIsNormal | data/articles.ts:28 | the query "salud" is already trimmed and lower-case |
| Fixtures.HealthTitleMentionsSalud | data/articles.ts:28 | the lower-cased title of the second mock article contains "salud" |
| Fixtures.FeaturedScenario | data/articles.ts:13-36 | with no filter the first mock article is featured |
| Fixtures.CatalogueScenario | data/articles.ts:13-36 | the mock tags give the chips "Comunidad", "Servicios" |
| Fixtures.CardScenario | data/articles.ts:14-24 | the first mock row's card shows "Servicios", 5 minutes, its summary and local cover, and links to "/article/1" |

## Left out

- The Supabase query, the channel subscription and `removeChannel`
  (src/hooks/useArticles.ts:45-52, 75-116, 120) are I/O. Their results enter
  the model as `FetchResult` values and `Event`s.
- `Date.parse` is not modelled. A date is already an integer timestamp, and
  an unparsable (NaN) date is not represented.
- `localeCompare(..., "es", {sensitivity: "base"})` is the parameter `le`.
  Properties that need an order require `le` to be a total preorder.
- JsText.Lower: maps only the ASCII letters. Unicode case mapping (such as
  "Í" to "í") is not modelled.
- The 220 ms debounce timer, the simulated refresh delay and the splash
  timings are left out. The model keeps only the commit of the query when
  the timer fires (`DebounceElapsed`).
- UseArticles.Step: `Unmounted` is final. A re-run of the effect on the same
  hook instance (src/hooks/useArticles.ts:68 sets the flag again) is not
  modelled, and with it the case where a late settlement of an earlier fetch
  is applied after the re-run.
- The race between the initial fetch and realtime events is left out. Each
  step is applied atomically, in some order.
- The layout-only files are left out: the splash screens, auth form
  components, search bar, list, profile screen and `app/_layout.tsx`.
- The sign-in and sign-up form guards of the screens are left out. `signIn`
  and `signUp` accept any strings, as the library functions do.
- AsyncStorage and JSON are a perfect single slot. A write followed by a read
  returns the record written.
- The scenario "query `salud` keeps only article 2" is proved only for its
  positive half (`HealthTitleMentionsSalud`). Showing that the first article
  does not contain "salud" takes a character-by-character search the
  verifier does not finish. The same goes for "query `salud` with tag
  `Servicios` shows nothing".
- FeedScreen.FilteredFrom: the `?.toLowerCase?.() ?? ""` guards for a
  missing title, summary or tag are not modelled. The screen's article type
  declares them as strings.
- ArticleCard.IdString: numeric ids are integers. Fractional and NaN ids
  (rendered by JavaScript as "1.5" or "NaN") are not modelled.
- The fallback feed of `app/(tabs)/index.tsx` and the article route
  `app/article/[idOrSlug].tsx` are outside this model; only the link the card
  builds is.
- JavaScript exceptions thrown from the rendered fields are not modelled.
- ArticleCard.IdString: `String(n)` of an integer id of 10^21 or more gives
  exponent notation ("1e+21"); the model writes out every digit.
- ArticleCard.MinsOf: `readMins` is a JavaScript number and may be
  fractional; the model takes it as an integer.
