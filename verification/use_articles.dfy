/** The article store of `src/hooks/useArticles.ts` as a pure state machine:
    the fetch transitions, the realtime INSERT/UPDATE/DELETE handlers, the
    date comparator they sort with, and the `mounted` guard. */
module UseArticles {
  import opened Options
  import opened Seqs

  /** A row of the remote `articles` table. `date` is the timestamp the ISO
      string parses to; `None` stands for a null, absent or empty date.
      `remoteCover` is the `cover_url` column. */
  datatype Article = Article(
    id: string,
    title: string,
    excerpt: Option<string>,
    content: Option<string>,
    author: Option<string>,
    date: Option<int>,
    remoteCover: Option<string>,
    tags: Option<seq<string>>,
    status: Option<string>)

  const Published: string := "published"
  const DefaultError: string := "Error cargando artículos"

  predicate IsPublished(a: Article) {
    a.status == Some(Published)
  }

  function IdOf(a: Article): string {
    a.id
  }

  /** The filter callback `a => a.id !== id`. */
  function OtherId(id: string): Article -> bool {
    (a: Article) => a.id != id
  }

  /** Selects the rows dated exactly `d`. */
  function SameDate(d: Option<int>): Article -> bool {
    (a: Article) => a.date == d
  }

  /* ---------- ordering ---------- */

  /** `sortByDateDesc`: negative when `a` goes first, positive when `b` does. */
  function CompareByDateDesc(a: Article, b: Article): int {
    if a.date.None? && b.date.None? then 0
    else if a.date.None? then 1
    else if b.date.None? then -1
    else b.date.value - a.date.value
  }

  /** How `Array.prototype.sort` reads the comparator: `a` may stay ahead of `b`. */
  predicate Precedes(a: Article, b: Article) {
    CompareByDateDesc(a, b) <= 0
  }

  /** The comparator is consistent: swapping the arguments flips the sign, two
      dateless rows tie, a dated row goes before a dateless one, and between
      dated rows the later date goes first. */
  lemma CompareByDateDescSpec(a: Article, b: Article)
    ensures CompareByDateDesc(a, b) == -CompareByDateDesc(b, a)
    ensures a.date.None? && b.date.None? ==> CompareByDateDesc(a, b) == 0
    ensures a.date.Some? && b.date.None? ==> CompareByDateDesc(a, b) < 0
    ensures a.date.Some? && b.date.Some? ==>
              (CompareByDateDesc(a, b) < 0 <==> a.date.value > b.date.value)
              && (CompareByDateDesc(a, b) == 0 <==> a.date.value == b.date.value)
  {
  }

  /** "Newest first, dateless last", stated without the comparator. */
  lemma PrecedesMeaning(a: Article, b: Article)
    ensures Precedes(a, b) <==> b.date.None? || (a.date.Some? && a.date.value >= b.date.value)
  {
  }

  /** The comparator induces a total preorder, so the sort is well defined. */
  lemma PrecedesTotalPreorder()
    ensures TotalPreorder(Precedes)
  {
  }

  /** `[...list].sort(sortByDateDesc)`. */
  function SortArticles(s: seq<Article>): (r: seq<Article>)
    ensures Sorted(r, Precedes)
    ensures multiset(r) == multiset(s)
    ensures forall a :: a in r <==> a in s
  {
    PrecedesTotalPreorder();
    SortBySorted(s, Precedes);
    SortByMembers(s, Precedes);
    SortBy(s, Precedes)
  }

  /** A sorted list has, for every pair in order, the later-or-equal date
      first, and no dated row after a dateless one. */
  lemma SortedMeaning(s: seq<Article>)
    requires Sorted(s, Precedes)
    ensures forall i, j :: 0 <= i < j < |s| && s[i].date.None? ==> s[j].date.None?
    ensures forall i, j :: 0 <= i < j < |s| && s[i].date.Some? && s[j].date.Some? ==>
              s[i].date.value >= s[j].date.value
  {
    forall i, j | 0 <= i < j < |s| ensures Precedes(s[i], s[j]) {
    }
  }

  /** Rows with the same date keep the order they arrived in. */
  lemma SortArticlesStable(s: seq<Article>, d: Option<int>)
    ensures Filter(SortArticles(s), SameDate(d)) == Filter(s, SameDate(d))
  {
    SortByStable(s, Precedes, SameDate(d));
  }

  /** An already sorted list is left as it is. */
  lemma SortArticlesOfSorted(s: seq<Article>)
    requires Sorted(s, Precedes)
    ensures SortArticles(s) == s
  {
    SortByOfSorted(s, Precedes);
  }

  /* ---------- list edits ---------- */

  /** `prev.some(a => a.id === id)`. */
  predicate HasId(s: seq<Article>, id: string) {
    exists a :: a in s && a.id == id
  }

  /** `prev.map(a => a.id === row.id ? row : a)`. */
  function ReplaceById(s: seq<Article>, row: Article): (r: seq<Article>)
    ensures |r| == |s|
    ensures forall i :: 0 <= i < |s| ==> r[i] == if s[i].id == row.id then row else s[i]
  {
    seq(|s|, i requires 0 <= i < |s| => if s[i].id == row.id then row else s[i])
  }

  /** `exists ? prev.map(...) : [row, ...prev]`: the list before sorting. */
  function Edited(prev: seq<Article>, row: Article): seq<Article> {
    if HasId(prev, row.id) then ReplaceById(prev, row) else [row] + prev
  }

  /** The upsert shared by the INSERT and UPDATE handlers: replace the entries
      with `row`'s id, or put `row` in front when there are none, then sort.
      Among rows of one date the order is that of the edited list, so a new
      row goes ahead of the rows dated like it and a replaced row keeps its
      place among them. */
  function Upsert(prev: seq<Article>, row: Article): (r: seq<Article>)
    ensures forall a :: a in r <==> a == row || (a in prev && a.id != row.id)
    ensures Sorted(r, Precedes)
    ensures |r| == if HasId(prev, row.id) then |prev| else |prev| + 1
    ensures forall d :: Filter(r, SameDate(d)) == Filter(Edited(prev, row), SameDate(d))
  {
    var next := Edited(prev, row);
    forall d ensures Filter(SortArticles(next), SameDate(d)) == Filter(next, SameDate(d)) {
      SortArticlesStable(next, d);
    }
    if HasId(prev, row.id) then
      var a :| a in prev && a.id == row.id;
      var k :| 0 <= k < |prev| && prev[k] == a;
      assert next[k] == row;
      SortArticles(next)
    else
      SortArticles(next)
  }

  /** `prev.filter(a => a.id !== id)`: drops exactly the entries with `id`,
      keeps the others in their order. */
  function RemoveId(prev: seq<Article>, id: string): (r: seq<Article>)
    ensures forall a :: a in r <==> a in prev && a.id != id
    ensures IsSubseq(r, prev)
    ensures !HasId(prev, id) ==> r == prev
    ensures Sorted(prev, Precedes) ==> Sorted(r, Precedes)
    ensures forall a :: multiset(r)[a] == if a.id != id then multiset(prev)[a] else 0
  {
    forall a ensures multiset(Filter(prev, OtherId(id)))[a] == if a.id != id then multiset(prev)[a] else 0 {
      FilterCount(prev, OtherId(id), a);
    }
    FilterIsSubseq(prev, OtherId(id));
    FilterSorted(prev, OtherId(id), Precedes);
    if !HasId(prev, id) then
      FilterAll(prev, OtherId(id));
      Filter(prev, OtherId(id))
    else
      Filter(prev, OtherId(id))
  }

  /* ---------- realtime handlers ---------- */

  datatype Event = Insert(row: Article) | Update(row: Article) | Delete(id: string)

  /** The INSERT handler: only published rows enter the list. */
  function OnInsert(prev: seq<Article>, row: Article): (r: seq<Article>)
    ensures !IsPublished(row) ==> r == prev
    ensures IsPublished(row) ==> r == Upsert(prev, row)
  {
    if IsPublished(row) then Upsert(prev, row) else prev
  }

  /** The UPDATE handler: a row that stopped being published leaves the list,
      a published one is upserted. */
  function OnUpdate(prev: seq<Article>, row: Article): (r: seq<Article>)
    ensures !IsPublished(row) ==> !HasId(r, row.id) && IsSubseq(r, prev)
    ensures !IsPublished(row) ==> forall a :: a in r <==> a in prev && a.id != row.id
    ensures !IsPublished(row) ==>
      forall a :: multiset(r)[a] == if a.id != row.id then multiset(prev)[a] else 0
    ensures IsPublished(row) ==> r == Upsert(prev, row)
  {
    if !IsPublished(row) then RemoveId(prev, row.id) else Upsert(prev, row)
  }

  /** The DELETE handler. */
  function OnDelete(prev: seq<Article>, id: string): (r: seq<Article>)
    ensures !HasId(r, id)
    ensures forall a :: a in r <==> a in prev && a.id != id
    ensures forall a :: multiset(r)[a] == if a.id != id then multiset(prev)[a] else 0
    ensures IsSubseq(r, prev)
  {
    RemoveId(prev, id)
  }

  function ApplyEvent(prev: seq<Article>, e: Event): seq<Article> {
    match e
    case Insert(row) => OnInsert(prev, row)
    case Update(row) => OnUpdate(prev, row)
    case Delete(id) => OnDelete(prev, id)
  }

  /** Applying the same published row twice is applying it once. */
  lemma UpsertIdempotent(prev: seq<Article>, row: Article)
    ensures Upsert(Upsert(prev, row), row) == Upsert(prev, row)
  {
    var once := Upsert(prev, row);
    assert row in once;
    assert HasId(once, row.id);
    var next := ReplaceById(once, row);
    assert next == once;
    SortArticlesOfSorted(once);
  }

  /** Every realtime event is idempotent. */
  lemma ApplyEventIdempotent(prev: seq<Article>, e: Event)
    ensures ApplyEvent(ApplyEvent(prev, e), e) == ApplyEvent(prev, e)
  {
    match e
    case Insert(row) =>
      if IsPublished(row) {
        UpsertIdempotent(prev, row);
      }
    case Update(row) =>
      if IsPublished(row) {
        UpsertIdempotent(prev, row);
      }
    case Delete(id) =>
  }

  /** Deleting a freshly inserted row restores the sorted list it was inserted into. */
  lemma DeleteUndoesInsert(prev: seq<Article>, row: Article)
    requires Sorted(prev, Precedes)
    requires !HasId(prev, row.id)
    ensures OnDelete(OnInsert(prev, row), row.id) == prev
  {
    if IsPublished(row) {
      var s := [row] + prev;
      assert s[0] == row && s[1..] == prev;
      SortArticlesOfSorted(prev);
      calc {
        OnInsert(prev, row);
        Upsert(prev, row);
        SortArticles(s);
        SortBy(s, Precedes);
        InsertBy(row, SortBy(prev, Precedes), Precedes);
        InsertBy(row, prev, Precedes);
      }
      FilterInsertByDropped(row, prev, Precedes, OtherId(row.id));
      calc {
        OnDelete(OnInsert(prev, row), row.id);
        Filter(InsertBy(row, prev, Precedes), OtherId(row.id));
        Filter(prev, OtherId(row.id));
        RemoveId(prev, row.id);
        prev;
      }
    }
  }

  /** Upserts keep ids unique. */
  lemma UpsertDistinctIds(prev: seq<Article>, row: Article)
    requires DistinctKeys(prev, IdOf)
    ensures DistinctKeys(Upsert(prev, row), IdOf)
  {
    var next := Edited(prev, row);
    if !HasId(prev, row.id) {
      forall i, j | 0 <= i < j < |next| ensures IdOf(next[i]) != IdOf(next[j]) {
        if i == 0 {
          assert next[j] == prev[j - 1];
        } else {
          assert next[i] == prev[i - 1] && next[j] == prev[j - 1];
        }
      }
    }
    SortByDistinctKeys(next, Precedes, IdOf);
  }

  /** The list stays free of duplicate ids under every event. */
  lemma ApplyEventDistinctIds(prev: seq<Article>, e: Event)
    requires DistinctKeys(prev, IdOf)
    ensures DistinctKeys(ApplyEvent(prev, e), IdOf)
  {
    match e
    case Insert(row) =>
      if IsPublished(row) {
        UpsertDistinctIds(prev, row);
      }
    case Update(row) =>
      if IsPublished(row) {
        UpsertDistinctIds(prev, row);
      } else {
        FilterDistinctKeys(prev, OtherId(row.id), IdOf);
      }
    case Delete(id) =>
      FilterDistinctKeys(prev, OtherId(id), IdOf);
  }

  /* ---------- the hook's state ---------- */

  /** The hook's state: `articles`, `loading`, `errorMsg`, and the flag
      `mountedRef.current`. */
  datatype Store = Store(articles: seq<Article>, loading: bool, errorMsg: Option<string>, mounted: bool)

  /** The state of a freshly mounted screen. */
  const Initial: Store := Store([], true, None, true)

  /** What the backend query settles with: `data` (possibly null), or an error
      whose `message` may be missing. */
  datatype FetchResult = Rows(data: Option<seq<Article>>) | Failed(message: Option<string>)

  /** The start of `fetchArticles`: `setLoading(true)` and `setErrorMsg(null)`,
      issued whether or not the screen is still mounted. */
  function StartFetch(s: Store): (r: Store)
    ensures r.loading && r.errorMsg.None?
    ensures r.articles == s.articles && r.mounted == s.mounted
  {
    s.(loading := true, errorMsg := None)
  }

  /** The settlement of `fetchArticles`, every state change behind the
      `mountedRef` guard. */
  function FinishFetch(s: Store, res: FetchResult): (r: Store)
    ensures !s.mounted ==> r == s
    ensures s.mounted ==> !r.loading && r.mounted
    ensures s.mounted && res.Rows? ==>
              && Sorted(r.articles, Precedes)
              && multiset(r.articles) == multiset(res.data.OrElse([]))
              && r.errorMsg == s.errorMsg
    ensures s.mounted && res.Failed? ==>
              && r.articles == s.articles
              && r.errorMsg == Some(res.message.OrElse(DefaultError))
  {
    if !s.mounted then s
    else match res
      case Rows(data) => s.(articles := SortArticles(data.OrElse([])), loading := false)
      case Failed(message) => s.(errorMsg := Some(message.OrElse(DefaultError)), loading := false)
  }

  /** A whole `fetchArticles` run with nothing interleaved. */
  lemma FetchOutcome(s: Store, res: FetchResult)
    requires s.mounted
    ensures var r := FinishFetch(StartFetch(s), res);
      && !r.loading
      && (res.Rows? ==> r.errorMsg.None? && r.articles == SortArticles(res.data.OrElse([])))
      && (res.Failed? ==> r.articles == s.articles && r.errorMsg.Some?)
  {
  }

  datatype Action =
    | FetchStarted
    | FetchSettled(result: FetchResult)
    | Realtime(event: Event)
    | Unmounted

  /** One state change of the hook. The realtime handlers are not guarded by
      the flag: after teardown the channel is removed and delivers nothing. */
  function Step(s: Store, a: Action): (r: Store)
    ensures r.mounted == (s.mounted && !a.Unmounted?)
    ensures a.Realtime? ==> r.loading == s.loading && r.errorMsg == s.errorMsg
  {
    match a
    case FetchStarted => StartFetch(s)
    case FetchSettled(res) => FinishFetch(s, res)
    case Realtime(e) => s.(articles := ApplyEvent(s.articles, e))
    case Unmounted => s.(mounted := false)
  }

  /** After teardown no fetch settlement changes anything. */
  lemma UnmountedFetchIsInert(s: Store, res: FetchResult)
    ensures var u := Step(s, Unmounted); Step(u, FetchSettled(res)) == u
  {
  }

  /** What the store keeps true: the list is sorted, holds published rows only,
      and no id twice. */
  predicate Inv(s: Store) {
    && Sorted(s.articles, Precedes)
    && DistinctKeys(s.articles, IdOf)
    && forall a :: a in s.articles ==> IsPublished(a)
  }

  /** Rows the backend may send: the query filters on the published status and
      the table's key makes ids unique. */
  predicate WellFormed(a: Action) {
    a.FetchSettled? && a.result.Rows? ==>
      var rows := a.result.data.OrElse([]);
      DistinctKeys(rows, IdOf) && forall x :: x in rows ==> IsPublished(x)
  }

  lemma InitialInv()
    ensures Inv(Initial)
  {
  }

  /** Every step keeps the invariant. */
  lemma StepInv(s: Store, a: Action)
    requires Inv(s) && WellFormed(a)
    ensures Inv(Step(s, a))
  {
    match a
    case FetchStarted =>
    case FetchSettled(res) =>
      if s.mounted && res.Rows? {
        var rows := res.data.OrElse([]);
        SortByDistinctKeys(rows, Precedes, IdOf);
        forall x | x in SortArticles(rows) ensures IsPublished(x) {
          assert x in multiset(SortArticles(rows));
        }
      }
    case Realtime(e) =>
      ApplyEventDistinctIds(s.articles, e);
    case Unmounted =>
  }
}
