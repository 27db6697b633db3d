/** The pagination and filter arithmetic of the post and essay listings. The
    collection handed in is already in the requested sort order; the sort
    itself is the database's. */
module Listing {
  import opened Wrappers
  import opened Store

  const DefaultLimit := 20

  /** `parseInt(q) || d`: an absent or unparseable parameter (None) and the
      value 0 both fall back to the default. */
  function ParamOr(q: Option<int>, d: int): (r: int)
    ensures q.Some? && q.value != 0 ==> r == q.value
    ensures q.None? || q.value == 0 ==> r == d
  {
    if q.Some? && q.value != 0 then q.value else d
  }

  /** `(page - 1) * limit`. */
  function Skip(page: int, limit: int): int {
    (page - 1) * limit
  }

  /** `Math.ceil(total / limit)` for a non-zero divisor. */
  function CeilDiv(total: int, limit: int): (r: int)
    requires limit != 0
    ensures limit > 0 ==> (r - 1) * limit < total <= r * limit
    ensures limit < 0 ==> r * limit <= total < (r - 1) * limit
  {
    if limit > 0 then -((-total) / limit) else -(total / (-limit))
  }

  /** `category && category !== 'All'`: the category filter applies only to a
      non-empty value other than 'All'. */
  predicate FilterApplies(q: Option<string>) {
    q.Some? && q.value != "" && q.value != "All"
  }

  predicate Matches(q: Option<string>, value: string) {
    FilterApplies(q) ==> value == q.value
  }

  /** The documents a filter selects, in collection order. */
  function Select(items: seq<ContentItem>, keep: ContentItem -> bool): (r: seq<ContentItem>)
    ensures |r| <= |items|
    ensures forall p :: p in r <==> p in items && keep(p)
  {
    if items == [] then []
    else if keep(items[0]) then [items[0]] + Select(items[1..], keep)
    else Select(items[1..], keep)
  }

  /** The filter keeps collection order: selecting from two runs of documents
      gives the selection from the first run, then that from the second. */
  lemma {:induction false} SelectAppend(a: seq<ContentItem>, b: seq<ContentItem>, keep: ContentItem -> bool)
    ensures Select(a + b, keep) == Select(a, keep) + Select(b, keep)
  {
    if a == [] {
      assert a + b == b;
    } else {
      assert (a + b)[0] == a[0];
      assert (a + b)[1..] == a[1..] + b;
      SelectAppend(a[1..], b, keep);
    }
  }

  /** A single document is selected exactly when the filter keeps it. */
  lemma SelectOne(p: ContentItem, keep: ContentItem -> bool)
    ensures Select([p], keep) == if keep(p) then [p] else []
  {
    assert [p][1..] == [];
  }

  /** `.skip(skip).limit(limit)` on the selected documents. */
  function Window(s: seq<ContentItem>, skip: nat, limit: nat): (r: seq<ContentItem>)
    ensures |r| <= limit
    ensures r == s[(if skip <= |s| then skip else |s|)..(if skip + limit <= |s| then skip + limit else |s|)]
  {
    var lo := if skip <= |s| then skip else |s|;
    var hi := if skip + limit <= |s| then skip + limit else |s|;
    s[lo..hi]
  }

  datatype Page = Page(items: seq<ContentItem>, currentPage: int, totalPages: int, total: nat)

  function Abs(n: int): nat { if n < 0 then -n else n }

  /** One page of the selected documents: `currentPage`, `totalPages` and
      `total` as the handler reports them. A negative skip is refused by the
      database (a server error); a negative limit returns at most as many
      documents as its magnitude. */
  function Paginate(selected: seq<ContentItem>, pageQ: Option<int>, limitQ: Option<int>): (r: Result<Page, Status>)
    ensures var page := ParamOr(pageQ, 1);
            var limit := ParamOr(limitQ, DefaultLimit);
            && limit != 0 && page != 0
            && (r.Failure? <==> Skip(page, limit) < 0)
            && (r.Success? ==>
                  && r.value.total == |selected|
                  && r.value.currentPage == page
                  && r.value.items == Window(selected, Skip(page, limit), Abs(limit))
                  && r.value.totalPages == CeilDiv(|selected|, limit)
                  && (limit > 0 ==> (r.value.totalPages - 1) * limit < |selected| <= r.value.totalPages * limit))
  {
    var page := ParamOr(pageQ, 1);
    var limit := ParamOr(limitQ, DefaultLimit);
    var skip := Skip(page, limit);
    if skip < 0 then Failure(ServerError)
    else Success(Page(Window(selected, skip, Abs(limit)), page, CeilDiv(|selected|, limit), |selected|))
  }

  function Min(a: int, b: int): int { if a <= b then a else b }

  /** Pages 1 to n, one after the other. */
  function PagesUpTo(s: seq<ContentItem>, limit: nat, n: nat): seq<ContentItem>
    requires limit > 0
  {
    if n == 0 then [] else PagesUpTo(s, limit, n - 1) + Window(s, (n - 1) * limit, limit)
  }

  lemma {:induction false} PagesUpToPrefix(s: seq<ContentItem>, limit: nat, n: nat)
    requires limit > 0
    ensures n * limit >= 0 && PagesUpTo(s, limit, n) == s[..Min(n * limit, |s|)]
  {
    if n > 0 {
      PagesUpToPrefix(s, limit, n - 1);
      assert (n - 1) * limit + limit == n * limit;
    }
  }

  /** With a positive limit the pages 1 to `totalPages` tile the selection:
      read in order they give every selected document once, in order, and
      every later page is empty. */
  lemma MulMonotone(a: int, b: int, c: int)
    requires a <= b && c >= 0
    ensures a * c <= b * c
  {
    assert b * c - a * c == (b - a) * c;
  }

  lemma CeilDivNonNegative(total: nat, limit: int)
    requires limit > 0
    ensures CeilDiv(total, limit) >= 0 && total <= CeilDiv(total, limit) * limit
  {
    var n := CeilDiv(total, limit);
    if n < 0 {
      MulMonotone(n, -1, limit);
    }
  }

  /** With a positive limit the pages 1 to `totalPages` tile the selection:
      read in order they give every selected document once, in order. */
  lemma PagesTile(s: seq<ContentItem>, limit: int)
    requires limit > 0
    ensures CeilDiv(|s|, limit) >= 0 && PagesUpTo(s, limit, CeilDiv(|s|, limit)) == s
  {
    var n := CeilDiv(|s|, limit);
    CeilDivNonNegative(|s|, limit);
    PagesUpToPrefix(s, limit, n);
    assert Min(n * limit, |s|) == |s|;
    assert s[..|s|] == s;
  }

  /** Every page after `totalPages` is empty. */
  lemma PagesPastLastEmpty(s: seq<ContentItem>, limit: int, later: int)
    requires limit > 0 && later > CeilDiv(|s|, limit)
    ensures Skip(later, limit) >= |s| && Window(s, Skip(later, limit), limit) == []
  {
    var n := CeilDiv(|s|, limit);
    CeilDivNonNegative(|s|, limit);
    MulMonotone(n, later - 1, limit);
  }

  function PostFilter(categoryQ: Option<string>): ContentItem -> bool {
    (p: ContentItem) => Matches(categoryQ, p.category)
  }

  /** `GET /posts`: the category filter, then the page. */
  function ListPosts(sorted: seq<ContentItem>, pageQ: Option<int>, limitQ: Option<int>, categoryQ: Option<string>): (r: Result<Page, Status>)
    ensures r.Success? ==> forall p :: p in r.value.items ==> p in sorted && Matches(categoryQ, p.category)
    ensures r.Success? ==> r.value.total == |Select(sorted, PostFilter(categoryQ))|
    ensures r == Paginate(Select(sorted, PostFilter(categoryQ)), pageQ, limitQ)
    ensures !FilterApplies(categoryQ) ==> r == Paginate(sorted, pageQ, limitQ)
  {
    var selected := Select(sorted, PostFilter(categoryQ));
    var r := Paginate(selected, pageQ, limitQ);
    assert r.Success? ==> forall p :: p in r.value.items ==> p in selected;
    if !FilterApplies(categoryQ) then
      SelectAll(sorted, PostFilter(categoryQ));
      r
    else
      r
  }

  /** A filter that keeps everything selects the whole collection. */
  lemma {:induction false} SelectAll(items: seq<ContentItem>, keep: ContentItem -> bool)
    requires forall p :: keep(p)
    ensures Select(items, keep) == items
  {
    if items != [] {
      SelectAll(items[1..], keep);
    }
  }

  /** The essays `GET /essays` lists: published, and of the queried
      category and type. */
  predicate EssayListed(categoryQ: Option<string>, typeQ: Option<string>, p: ContentItem) {
    p.published && Matches(categoryQ, p.category) && Matches(typeQ, p.kind)
  }

  function EssayFilter(categoryQ: Option<string>, typeQ: Option<string>): ContentItem -> bool {
    (p: ContentItem) => EssayListed(categoryQ, typeQ, p)
  }

  /** `GET /essays`: only published essays, then the category and type
      filters, each skipped when absent or 'All', then the page. */
  function ListEssays(sorted: seq<ContentItem>, pageQ: Option<int>, limitQ: Option<int>, categoryQ: Option<string>, typeQ: Option<string>): (r: Result<Page, Status>)
    ensures r.Success? ==> forall p :: p in r.value.items ==> p in sorted && EssayListed(categoryQ, typeQ, p)
    ensures r.Success? ==> r.value.total == |Select(sorted, EssayFilter(categoryQ, typeQ))|
    ensures r == Paginate(Select(sorted, EssayFilter(categoryQ, typeQ)), pageQ, limitQ)
  {
    var selected := Select(sorted, EssayFilter(categoryQ, typeQ));
    var r := Paginate(selected, pageQ, limitQ);
    assert r.Success? ==> forall p :: p in r.value.items ==> p in selected;
    r
  }
}
