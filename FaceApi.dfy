/**
 * The parts of FaceApiRepository that are not HTTP plumbing: the query
 * parameters of POST /face/detections, the empty page returned for 404,
 * the offset-paging loop of getAllDetectionsInWindow, and the URL that
 * downloadStorageObject derives for a stored image.
 *
 * The face API itself is a function from a query to a reply.
 */
module FaceApi {
  import opened Wrappers
  import opened JavaStrings
  import opened Decimal
  import opened Dto

  const DefaultLimit: int := 500
  const DefaultSortOrder: string := "asc"

  /** The arguments of getDetectionsFiltered. */
  datatype DetectionsQuery = DetectionsQuery(
    listId: Option<int>,
    analyticsIds: Option<seq<int>>,
    startMillis: Option<int>,
    endMillis: Option<int>,
    limit: Option<int>,
    offset: Option<int>,
    sortOrder: Option<string>)

  /** What the detections endpoint answers: 404, another client or server error, or a body. */
  datatype PageReply = NotFound | HttpError | Page(body: Option<DetectionsResponse>)

  /** The remote face API as seen by the modelled code: POST /face/detections,
      GET /face/lists?limit=n, GET /face/list_items for a list id with the
      fixed arguments every modelled caller passes (offset 0, limit 1000, by name),
      and GET /face/reports/presence for a list id and an end time. */
  datatype Remote = Remote(
    detections: DetectionsQuery -> PageReply,
    faceLists: int -> Reply<FaceListsResponse>,
    listItems: Option<int> -> Reply<ListItemsResponse>,
    presence: (int, int) -> Reply<string>)

  // ---------------------------------------------------------------------------
  // Query parameters

  /** The query parameters getDetectionsFiltered may send. */
  datatype ParamName = Limit | SortOrder | Offset | StartDate | EndDate | ListIdParam | AnalyticsIds

  /** A parameter's name in the query string. */
  function Wire(n: ParamName): string {
    match n
    case Limit => "limit"
    case SortOrder => "sort_order"
    case Offset => "offset"
    case StartDate => "start_date"
    case EndDate => "end_date"
    case ListIdParam => "list_id"
    case AnalyticsIds => "analytics_ids"
  }

  /** A query parameter and its value. */
  type Param = (ParamName, string)

  function Names(ps: seq<Param>): (r: seq<ParamName>)
    ensures |r| == |ps| && forall i | 0 <= i < |ps| :: r[i] == ps[i].0
  {
    seq(|ps|, i requires 0 <= i < |ps| => ps[i].0)
  }

  /** The analytics ids in the swagger style "[2,3]". */
  function EncodeIds(ids: seq<int>): (s: string)
    ensures |s| >= 2 && s[0] == '[' && s[|s| - 1] == ']'
  {
    "[" + Join(IdTexts(ids), ",") + "]"
  }

  function IdTexts(ids: seq<int>): (r: seq<string>)
    ensures |r| == |ids|
    ensures forall i | 0 <= i < |ids| :: r[i] == LongToString(ids[i])
  {
    seq(|ids|, i requires 0 <= i < |ids| => LongToString(ids[i]))
  }

  /** Reads back "[a,b,...]" as a list of ids; None for anything else. */
  function DecodeIds(s: string): Option<seq<int>> {
    if |s| < 2 || s[0] != '[' || s[|s| - 1] != ']' then None
    else ParseAll(SplitAll(s[1..|s| - 1], ','))
  }

  function ParseAll(parts: seq<string>): Option<seq<int>> {
    if parts == [] then Some([])
    else
      match (ParseDecimal(parts[0]), ParseAll(parts[1..]))
      case (Some(v), Some(rest)) => Some([v] + rest)
      case _ => None
  }

  lemma {:induction false} ParseAllIdTexts(ids: seq<int>)
    ensures ParseAll(IdTexts(ids)) == Some(ids)
    decreases |ids|
  {
    if ids != [] {
      ParseDecimalOfLongToString(ids[0]);
      assert IdTexts(ids)[1..] == IdTexts(ids[1..]);
      ParseAllIdTexts(ids[1..]);
      assert [ids[0]] + ids[1..] == ids;
    }
  }

  lemma NoCommaInLongToString(n: int)
    ensures ',' !in LongToString(n)
  {
    var s := LongToString(n);
    if n < 0 {
      assert s == "-" + NatToString(-n);
    }
  }

  /** The analytics_ids text reads back as the ids it was made from. */
  lemma DecodeEncodeIds(ids: seq<int>)
    requires ids != []
    ensures DecodeIds(EncodeIds(ids)) == Some(ids)
  {
    var texts := IdTexts(ids);
    var s := EncodeIds(ids);
    assert s[1..|s| - 1] == Join(texts, ",");
    forall i | 0 <= i < |texts| ensures ',' !in texts[i] {
      NoCommaInLongToString(ids[i]);
    }
    SplitAllJoin(texts, ',');
    ParseAllIdTexts(ids);
  }

  /** The query string of getDetectionsFiltered: limit (500 when null) and sort_order
      ("asc" when null) always, offset, start_date, end_date and list_id only when set,
      analytics_ids only for a non-empty list. */
  function QueryParams(q: DetectionsQuery): (ps: seq<Param>)
    ensures Names(ps) == OptionalNames(q)
  {
    var fixed := [(Limit, LongToString(q.limit.GetOr(DefaultLimit))), (SortOrder, q.sortOrder.GetOr(DefaultSortOrder))];
    var o1, o2, o3, o4 := Opt(Offset, q.offset), Opt(StartDate, q.startMillis), Opt(EndDate, q.endMillis),
      Opt(ListIdParam, q.listId);
    var a := AnalyticsParam(q.analyticsIds);
    NamesAppend(fixed, o1);
    NamesAppend(fixed + o1, o2);
    NamesAppend(fixed + o1 + o2, o3);
    NamesAppend(fixed + o1 + o2 + o3, o4);
    NamesAppend(fixed + o1 + o2 + o3 + o4, a);
    fixed + o1 + o2 + o3 + o4 + a
  }

  /** One name when the parameter is sent, none otherwise. */
  function NameIf(name: ParamName, sent: bool): (r: seq<ParamName>)
    ensures forall n :: n in r <==> sent && n == name
  {
    if sent then [name] else []
  }

  function HasIds(ids: Option<seq<int>>): bool {
    ids.Some? && ids.value != []
  }

  /** The parameter names in the order they are added to the query string. */
  function OptionalNames(q: DetectionsQuery): seq<ParamName> {
    [Limit, SortOrder] + NameIf(Offset, q.offset.Some?) + NameIf(StartDate, q.startMillis.Some?)
    + NameIf(EndDate, q.endMillis.Some?) + NameIf(ListIdParam, q.listId.Some?)
    + NameIf(AnalyticsIds, HasIds(q.analyticsIds))
  }

  function Opt(name: ParamName, v: Option<int>): (ps: seq<Param>)
    ensures Names(ps) == NameIf(name, v.Some?)
  {
    if v.Some? then [(name, LongToString(v.value))] else []
  }

  function AnalyticsParam(ids: Option<seq<int>>): (ps: seq<Param>)
    ensures Names(ps) == NameIf(AnalyticsIds, HasIds(ids))
    ensures ps != [] ==> ps == [(AnalyticsIds, EncodeIds(ids.value))]
  {
    if HasIds(ids) then [(AnalyticsIds, EncodeIds(ids.value))] else []
  }

  lemma NamesAppend(a: seq<Param>, b: seq<Param>)
    ensures Names(a + b) == Names(a) + Names(b)
  {
  }

  /** limit and sort_order always lead the query string; offset, start_date, end_date
      and list_id are present exactly when set, analytics_ids exactly for a non-empty list. */
  lemma QueryParamsPresence(q: DetectionsQuery)
    ensures Names(QueryParams(q))[..2] == [Limit, SortOrder]
    ensures (Offset in Names(QueryParams(q))) <==> q.offset.Some?
    ensures (StartDate in Names(QueryParams(q))) <==> q.startMillis.Some?
    ensures (EndDate in Names(QueryParams(q))) <==> q.endMillis.Some?
    ensures (ListIdParam in Names(QueryParams(q))) <==> q.listId.Some?
    ensures (AnalyticsIds in Names(QueryParams(q))) <==> q.analyticsIds.Some? && q.analyticsIds.value != []
  {
    OptionalNamesPresence(q);
  }

  lemma OptionalNamesPresence(q: DetectionsQuery)
    ensures OptionalNames(q)[..2] == [Limit, SortOrder]
    ensures (Offset in OptionalNames(q)) <==> q.offset.Some?
    ensures (StartDate in OptionalNames(q)) <==> q.startMillis.Some?
    ensures (EndDate in OptionalNames(q)) <==> q.endMillis.Some?
    ensures (ListIdParam in OptionalNames(q)) <==> q.listId.Some?
    ensures (AnalyticsIds in OptionalNames(q)) <==> HasIds(q.analyticsIds)
  {
    assert OptionalNames(q)[..2] == [Limit, SortOrder];
    OptionalNameIn(q, Offset);
    OptionalNameIn(q, StartDate);
    OptionalNameIn(q, EndDate);
    OptionalNameIn(q, ListIdParam);
    OptionalNameIn(q, AnalyticsIds);
  }

  /** A name other than limit and sort_order is sent exactly when its value is. */
  lemma OptionalNameIn(q: DetectionsQuery, n: ParamName)
    ensures n in OptionalNames(q) <==>
      (|| n == Limit || n == SortOrder
       || (n == Offset && q.offset.Some?) || (n == StartDate && q.startMillis.Some?)
       || (n == EndDate && q.endMillis.Some?) || (n == ListIdParam && q.listId.Some?)
       || (n == AnalyticsIds && HasIds(q.analyticsIds)))
  {
    var t0 := [Limit, SortOrder];
    var t1 := t0 + NameIf(Offset, q.offset.Some?);
    var t2 := t1 + NameIf(StartDate, q.startMillis.Some?);
    var t3 := t2 + NameIf(EndDate, q.endMillis.Some?);
    var t4 := t3 + NameIf(ListIdParam, q.listId.Some?);
    var t5 := t4 + NameIf(AnalyticsIds, HasIds(q.analyticsIds));
    assert OptionalNames(q) == t5;
    assert n in t0 <==> n == Limit || n == SortOrder;
    assert n in t1 <==> n in t0 || n in NameIf(Offset, q.offset.Some?);
    assert n in t2 <==> n in t1 || n in NameIf(StartDate, q.startMillis.Some?);
    assert n in t3 <==> n in t2 || n in NameIf(EndDate, q.endMillis.Some?);
    assert n in t4 <==> n in t3 || n in NameIf(ListIdParam, q.listId.Some?);
    assert n in t5 <==> n in t4 || n in NameIf(AnalyticsIds, HasIds(q.analyticsIds));
  }

  /** The values sent: limit is the given limit or 500, sort_order the given order
      or "asc", both leading; every set number is sent as its decimal text under its
      own name, and each of those texts reads back as the number. */
  lemma QueryParamValues(q: DetectionsQuery)
    ensures |QueryParams(q)| >= 2
    ensures QueryParams(q)[0] == (Limit, LongToString(if q.limit.Some? then q.limit.value else 500))
    ensures ParseDecimal(QueryParams(q)[0].1) == Some(if q.limit.Some? then q.limit.value else 500)
    ensures QueryParams(q)[1] == (SortOrder, if q.sortOrder.Some? then q.sortOrder.value else "asc")
    ensures q.offset.Some? ==> (Offset, LongToString(q.offset.value)) in QueryParams(q)
    ensures q.startMillis.Some? ==> (StartDate, LongToString(q.startMillis.value)) in QueryParams(q)
    ensures q.endMillis.Some? ==> (EndDate, LongToString(q.endMillis.value)) in QueryParams(q)
    ensures q.listId.Some? ==> (ListIdParam, LongToString(q.listId.value)) in QueryParams(q)
  {
    var ps := QueryParams(q);
    var fixed := [(Limit, LongToString(q.limit.GetOr(DefaultLimit))), (SortOrder, q.sortOrder.GetOr(DefaultSortOrder))];
    var o1, o2, o3, o4 := Opt(Offset, q.offset), Opt(StartDate, q.startMillis), Opt(EndDate, q.endMillis),
      Opt(ListIdParam, q.listId);
    assert ps == fixed + o1 + o2 + o3 + o4 + AnalyticsParam(q.analyticsIds);
    assert ps[0] == fixed[0] && ps[1] == fixed[1];
    ParseDecimalOfLongToString(q.limit.GetOr(DefaultLimit));
    assert forall p | p in o1 + o2 + o3 + o4 :: p in ps;
  }

  /** The analytics_ids value that is sent reads back as the query's id list. */
  lemma AnalyticsIdsSent(q: DetectionsQuery)
    requires q.analyticsIds.Some? && q.analyticsIds.value != []
    ensures exists i | 0 <= i < |QueryParams(q)| ::
      QueryParams(q)[i].0 == AnalyticsIds && DecodeIds(QueryParams(q)[i].1) == q.analyticsIds
  {
    var ps := QueryParams(q);
    DecodeEncodeIds(q.analyticsIds.value);
    var fixed := [(Limit, LongToString(q.limit.GetOr(DefaultLimit))), (SortOrder, q.sortOrder.GetOr(DefaultSortOrder))];
    var front := fixed + Opt(Offset, q.offset) + Opt(StartDate, q.startMillis) + Opt(EndDate, q.endMillis)
      + Opt(ListIdParam, q.listId);
    assert ps == front + [(AnalyticsIds, EncodeIds(q.analyticsIds.value))];
    assert ps[|ps| - 1] == (AnalyticsIds, EncodeIds(q.analyticsIds.value));
  }

  // ---------------------------------------------------------------------------
  // One page

  /** emptyDetections(): the page returned for a 404. */
  function EmptyDetections(): DetectionsResponse {
    DetectionsResponse(Some([]), Some(0), Some(0), Some("ok"))
  }

  /** getDetectionsFiltered: the body as returned (possibly null), the empty page on 404,
      and an exception for any other error. */
  function GetDetectionsFiltered(api: Remote, q: DetectionsQuery): (r: Result<Option<DetectionsResponse>>)
    ensures api.detections(q) == NotFound ==>
      r.Success? && r.value.Some? && r.value.value.data == Some([]) && r.value.value.total == Some(0)
      && r.value.value.pages == Some(0) && r.value.value.status == Some("ok")
    ensures api.detections(q) == HttpError <==> r.Failure?
    ensures api.detections(q).Page? ==> r == Success(api.detections(q).body)
  {
    match api.detections(q)
    case NotFound => Success(Some(EmptyDetections()))
    case HttpError => Failure(RemoteFailure)
    case Page(body) => Success(body)
  }

  // ---------------------------------------------------------------------------
  // Paging

  /** The request getAllDetectionsInWindow makes for one page. */
  function PageQuery(listId: Option<int>, analyticsIds: Option<seq<int>>, startMillis: Option<int>,
                     endMillis: Option<int>, pageLimit: int, offset: int): DetectionsQuery
  {
    DetectionsQuery(listId, analyticsIds, startMillis, endMillis, Some(pageLimit), Some(offset), Some("asc"))
  }

  /** The data of a page, a null page or null data counting as empty. */
  function PageData(page: Option<DetectionsResponse>): (d: seq<Option<Detection>>)
    ensures page.None? || page.value.data.None? ==> d == []
  {
    if page.Some? && page.value.data.Some? then page.value.data.value else []
  }

  /** The outcome of fetching page number k (offset k * pageLimit). */
  function PageAt(api: Remote, base: DetectionsQuery, pageLimit: int, k: nat): Result<seq<Option<Detection>>> {
    match GetDetectionsFiltered(api, PageQuery(base.listId, base.analyticsIds, base.startMillis, base.endMillis,
                                               pageLimit, k * pageLimit))
    case Success(page) => Success(PageData(page))
    case Failure(e) => Failure(e)
  }

  /** Page k ends the loop: it throws or holds fewer than pageLimit detections. */
  predicate Stops(api: Remote, base: DetectionsQuery, pageLimit: int, k: nat) {
    PageAt(api, base, pageLimit, k).Failure? || |PageAt(api, base, pageLimit, k).value| < pageLimit
  }

  /** What fetching pages k, k+1, ... gives, given that page `last` stops the loop:
      the pages' data concatenated in order, or the first exception. */
  function FetchFrom(api: Remote, base: DetectionsQuery, pageLimit: int, k: nat, last: nat): Result<seq<Option<Detection>>>
    requires k <= last && Stops(api, base, pageLimit, last)
    decreases last - k
  {
    match PageAt(api, base, pageLimit, k)
    case Failure(e) => Failure(e)
    case Success(d) =>
      if |d| < pageLimit then Success(d)
      else
        match FetchFrom(api, base, pageLimit, k + 1, last)
        case Success(rest) => Success(d + rest)
        case Failure(e) => Failure(e)
  }

  /** The page the loop stops at: the first page from k on that stops it. */
  function StopPage(api: Remote, base: DetectionsQuery, pageLimit: int, k: nat, last: nat): (n: nat)
    requires k <= last && Stops(api, base, pageLimit, last)
    ensures k <= n <= last && Stops(api, base, pageLimit, n)
    ensures forall j | k <= j < n :: !Stops(api, base, pageLimit, j)
    decreases last - k
  {
    if Stops(api, base, pageLimit, k) then k else StopPage(api, base, pageLimit, k + 1, last)
  }

  /** The data before a fetch's outcome prepended to it. */
  function Prepend(before: seq<Option<Detection>>, r: Result<seq<Option<Detection>>>): Result<seq<Option<Detection>>> {
    match r
    case Success(rest) => Success(before + rest)
    case Failure(e) => Failure(e)
  }

  lemma PrependEmpty(r: Result<seq<Option<Detection>>>)
    ensures Prepend([], r) == r
  {
    if r.Success? {
      assert [] + r.value == r.value;
    }
  }

  lemma PrependTwice(a: seq<Option<Detection>>, b: seq<Option<Detection>>, r: Result<seq<Option<Detection>>>)
    ensures Prepend(a, Prepend(b, r)) == Prepend(a + b, r)
  {
    if r.Success? {
      assert a + (b + r.value) == (a + b) + r.value;
    }
  }

  /** getAllDetectionsInWindow: requests offsets 0, pageLimit, 2 * pageLimit, ... in turn,
      appends each page's data, and stops after the first page holding fewer than
      pageLimit detections; an exception from a page ends it. `pages` is the
      number of requests made. */
  method GetAllDetectionsInWindow(api: Remote, listId: Option<int>, analyticsIds: Option<seq<int>>,
                                  startMillis: Option<int>, endMillis: Option<int>, pageLimit: int,
                                  ghost last: nat)
    returns (r: Result<seq<Option<Detection>>>, ghost pages: nat)
    requires pageLimit > 0
    requires Stops(api, DetectionsQuery(listId, analyticsIds, startMillis, endMillis, None, None, None), pageLimit, last)
    ensures r == FetchFrom(api, DetectionsQuery(listId, analyticsIds, startMillis, endMillis, None, None, None), pageLimit, 0, last)
    ensures pages == StopPage(api, DetectionsQuery(listId, analyticsIds, startMillis, endMillis, None, None, None), pageLimit, 0, last) + 1
  {
    ghost var base := DetectionsQuery(listId, analyticsIds, startMillis, endMillis, None, None, None);
    ghost var stop := StopPage(api, base, pageLimit, 0, last);
    var all: seq<Option<Detection>> := [];
    var offset := 0;
    ghost var k: nat := 0;
    PrependEmpty(FetchFrom(api, base, pageLimit, 0, last));
    while true
      invariant k <= stop && offset == k * pageLimit
      invariant FetchFrom(api, base, pageLimit, 0, last) == Prepend(all, FetchFrom(api, base, pageLimit, k, last))
      decreases last - k
    {
      var page := GetDetectionsFiltered(api, PageQuery(listId, analyticsIds, startMillis, endMillis, pageLimit, offset));
      assert PageQuery(listId, analyticsIds, startMillis, endMillis, pageLimit, offset)
        == PageQuery(base.listId, base.analyticsIds, base.startMillis, base.endMillis, pageLimit, k * pageLimit);
      if page.Failure? {
        assert Stops(api, base, pageLimit, k);
        assert k == stop;
        return Failure(page.error), k + 1;
      }
      var data := PageData(page.value);
      assert PageAt(api, base, pageLimit, k) == Success(data);
      if |data| < pageLimit {
        assert Stops(api, base, pageLimit, k);
        assert k == stop;
        assert FetchFrom(api, base, pageLimit, k, last) == Success(data);
        all := all + data;
        return Success(all), k + 1;
      }
      assert !Stops(api, base, pageLimit, k);
      assert k < stop;
      assert FetchFrom(api, base, pageLimit, k, last) == Prepend(data, FetchFrom(api, base, pageLimit, k + 1, last));
      PrependTwice(all, data, FetchFrom(api, base, pageLimit, k + 1, last));
      all := all + data;
      offset := offset + pageLimit;
      k := k + 1;
    }
  }

  /** Some page stops the loop, so getAllDetectionsInWindow returns. */
  ghost predicate PagingEnds(api: Remote, base: DetectionsQuery, pageLimit: int) {
    exists last: nat :: Stops(api, base, pageLimit, last)
  }

  /** Only the first stopping page matters: any later stopping page gives the same result. */
  lemma {:induction false} FetchFromIndependent(api: Remote, base: DetectionsQuery, pageLimit: int,
                                                k: nat, last1: nat, last2: nat)
    requires k <= last1 && Stops(api, base, pageLimit, last1)
    requires k <= last2 && Stops(api, base, pageLimit, last2)
    ensures FetchFrom(api, base, pageLimit, k, last1) == FetchFrom(api, base, pageLimit, k, last2)
    decreases last1 - k
  {
    if !Stops(api, base, pageLimit, k) {
      FetchFromIndependent(api, base, pageLimit, k + 1, last1, last2);
    }
  }

  /** What getAllDetectionsInWindow returns for the window `base`, when it returns. */
  ghost function AllDetections(api: Remote, base: DetectionsQuery, pageLimit: int): Result<seq<Option<Detection>>>
    requires PagingEnds(api, base, pageLimit)
  {
    var last: nat :| Stops(api, base, pageLimit, last);
    FetchFrom(api, base, pageLimit, 0, last)
  }

  lemma AllDetectionsAt(api: Remote, base: DetectionsQuery, pageLimit: int, last: nat)
    requires Stops(api, base, pageLimit, last)
    ensures PagingEnds(api, base, pageLimit)
    ensures AllDetections(api, base, pageLimit) == FetchFrom(api, base, pageLimit, 0, last)
  {
    var l :| Stops(api, base, pageLimit, l) && AllDetections(api, base, pageLimit) == FetchFrom(api, base, pageLimit, 0, l);
    FetchFromIndependent(api, base, pageLimit, 0, l, last);
  }

  /** The window query getAllDetectionsInWindow builds its pages from. */
  function WindowQuery(listId: Option<int>, analyticsIds: Option<seq<int>>, startMillis: Option<int>,
                       endMillis: Option<int>): DetectionsQuery
  {
    DetectionsQuery(listId, analyticsIds, startMillis, endMillis, None, None, None)
  }

  /** A server holding `items` that answers offset o with the slice items[o..o+limit]. */
  ghost predicate ServesSlices(api: Remote, base: DetectionsQuery, pageLimit: int, items: seq<Option<Detection>>) {
    pageLimit > 0 &&
    forall k: nat | k * pageLimit <= |items| ::
      PageAt(api, base, pageLimit, k) == Success(items[k * pageLimit..Min(|items|, k * pageLimit + pageLimit)])
  }

  function Min(a: int, b: int): int {
    if a < b then a else b
  }

  /** Against a server that slices N items into pages, the loop makes N / pageLimit + 1
      requests and returns every item once, in order. */
  lemma SlicedFetch(api: Remote, base: DetectionsQuery, pageLimit: int, items: seq<Option<Detection>>)
    requires ServesSlices(api, base, pageLimit, items)
    ensures Stops(api, base, pageLimit, |items| / pageLimit)
    ensures StopPage(api, base, pageLimit, 0, |items| / pageLimit) + 1 == |items| / pageLimit + 1
    ensures FetchFrom(api, base, pageLimit, 0, |items| / pageLimit) == Success(items)
  {
    var n := |items| / pageLimit;
    DivBounds(|items|, pageLimit);
    SlicedFetchFrom(api, base, pageLimit, items, n, 0);
    assert items[0 * pageLimit..] == items;
  }

  /** x / m pages of m elements fit in x, one more does not. */
  lemma DivBounds(x: nat, m: int)
    requires m > 0
    ensures (x / m) * m <= x < (x / m) * m + m
  {
  }

  lemma {:induction false} SlicedFetchFrom(api: Remote, base: DetectionsQuery, pageLimit: int,
                                           items: seq<Option<Detection>>, n: nat, k: nat)
    requires ServesSlices(api, base, pageLimit, items)
    requires n * pageLimit <= |items| < n * pageLimit + pageLimit
    requires k <= n
    ensures Stops(api, base, pageLimit, n)
    ensures StopPage(api, base, pageLimit, k, n) == n
    ensures FetchFrom(api, base, pageLimit, k, n) == Success(items[k * pageLimit..])
    decreases n - k
  {
    SlicedLastPage(api, base, pageLimit, items, n);
    if k < n {
      var d := SlicedFullPage(api, base, pageLimit, items, n, k);
      SlicedFetchFrom(api, base, pageLimit, items, n, k + 1);
      MulSucc(k, pageLimit);
      SlicedStep(api, base, pageLimit, items, n, k, d);
    }
  }

  /** One full page before the rest of the slices. */
  lemma SlicedStep(api: Remote, base: DetectionsQuery, pageLimit: int,
                   items: seq<Option<Detection>>, n: nat, k: nat, d: seq<Option<Detection>>)
    requires k < n && Stops(api, base, pageLimit, n)
    requires pageLimit > 0 && 0 <= k * pageLimit && k * pageLimit + pageLimit <= |items|
    requires d == items[k * pageLimit..k * pageLimit + pageLimit] && |d| == pageLimit
    requires PageAt(api, base, pageLimit, k) == Success(d)
    requires FetchFrom(api, base, pageLimit, k + 1, n) == Success(items[k * pageLimit + pageLimit..])
    ensures FetchFrom(api, base, pageLimit, k, n) == Success(items[k * pageLimit..])
  {
    var rest := items[k * pageLimit + pageLimit..];
    assert FetchFrom(api, base, pageLimit, k, n) == Success(d + rest);
    assert items[k * pageLimit..] == d + rest;
  }

  /** Page n of the slices is the short remainder, so the loop stops there. */
  lemma SlicedLastPage(api: Remote, base: DetectionsQuery, pageLimit: int, items: seq<Option<Detection>>, n: nat)
    requires ServesSlices(api, base, pageLimit, items)
    requires n * pageLimit <= |items| < n * pageLimit + pageLimit
    ensures PageAt(api, base, pageLimit, n) == Success(items[n * pageLimit..])
    ensures Stops(api, base, pageLimit, n)
    ensures StopPage(api, base, pageLimit, n, n) == n
    ensures FetchFrom(api, base, pageLimit, n, n) == Success(items[n * pageLimit..])
  {
    assert PageAt(api, base, pageLimit, n) == Success(items[n * pageLimit..Min(|items|, n * pageLimit + pageLimit)]);
    assert Min(|items|, n * pageLimit + pageLimit) == |items|;
    assert items[n * pageLimit..|items|] == items[n * pageLimit..];
  }

  /** A page before page n of the slices is full, so the loop goes on past it. */
  lemma SlicedFullPage(api: Remote, base: DetectionsQuery, pageLimit: int, items: seq<Option<Detection>>, n: nat, k: nat)
    returns (d: seq<Option<Detection>>)
    requires ServesSlices(api, base, pageLimit, items)
    requires n * pageLimit <= |items| && k < n
    ensures k * pageLimit + pageLimit <= |items|
    ensures d == items[k * pageLimit..k * pageLimit + pageLimit] && |d| == pageLimit
    ensures PageAt(api, base, pageLimit, k) == Success(d)
    ensures !Stops(api, base, pageLimit, k)
  {
    MulMono(k + 1, n, pageLimit);
    MulSucc(k, pageLimit);
    d := items[k * pageLimit..k * pageLimit + pageLimit];
    assert PageAt(api, base, pageLimit, k) == Success(items[k * pageLimit..Min(|items|, k * pageLimit + pageLimit)]);
  }

  lemma MulSucc(a: nat, c: int)
    ensures (a + 1) * c == a * c + c
  {
  }

  lemma MulMono(a: nat, b: nat, c: nat)
    requires a <= b
    ensures a * c <= b * c
  {
  }

  /** downloadPresenceCsv: the body decoded as text, "" for an empty body; a failed call throws. */
  function PresenceCsv(api: Remote, listId: int, exactMillis: int): (r: Result<string>)
    ensures api.presence(listId, exactMillis).Thrown? <==> r.Failure?
    ensures api.presence(listId, exactMillis) == Body(None) ==> r == Success("")
  {
    match api.presence(listId, exactMillis)
    case Thrown => Failure(RemoteFailure)
    case Body(None) => Success("")
    case Body(Some(text)) => Success(text)
  }

  // ---------------------------------------------------------------------------
  // Storage URL

  /** baseUrl.replaceFirst("/api/?$", ""): a trailing "/api" or "/api/" removed. */
  function StripApiSuffix(base: string): (r: string)
    ensures r == base || r + "/api" == base || r + "/api/" == base
  {
    if EndsWith(base, "/api") then base[..|base| - 4]
    else if EndsWith(base, "/api/") then base[..|base| - 5]
    else base
  }

  /** A character that ends the authority of a URL. */
  predicate EndsAuthority(c: char) {
    c == '/' || c == '?' || c == '#'
  }

  /** A character that ends the path of a URL: the start of a query or a fragment. */
  predicate EndsPath(c: char) {
    c == '?' || c == '#'
  }

  /** The first index from `from` on whose character ends the authority, or |s|. */
  function AuthorityEnd(s: string, from: nat): (i: nat)
    requires from <= |s|
    ensures from <= i <= |s|
    ensures forall k | from <= k < i :: !EndsAuthority(s[k])
    ensures i < |s| ==> EndsAuthority(s[i])
    decreases |s| - from
  {
    if from == |s| || EndsAuthority(s[from]) then from else AuthorityEnd(s, from + 1)
  }

  /** The first index from `from` on whose character ends the path, or |s|. */
  function PathEnd(s: string, from: nat): (i: nat)
    requires from <= |s|
    ensures from <= i <= |s|
    ensures forall k | from <= k < i :: !EndsPath(s[k])
    ensures i < |s| ==> EndsPath(s[i])
    decreases |s| - from
  {
    if from == |s| || EndsPath(s[from]) then from else PathEnd(s, from + 1)
  }

  /** An http(s) URL as UriComponentsBuilder.fromHttpUrl splits it: the scheme with
      "//" and the authority, the path, and the query or fragment that follows. */
  datatype HttpUrl = HttpUrl(origin: string, path: string, tail: string)

  /** The length of "http://" or "https://" at the start of `s`, matched ignoring
      case, or 0 when the text starts with neither. */
  function SchemeLength(s: string): (n: nat)
    ensures n == 0 || n == 7 || n == 8
    ensures n <= |s|
    ensures n == 0 <==> !(StartsWith(ToLower(s), "http://") || StartsWith(ToLower(s), "https://"))
    ensures n == 7 ==> ToLower(s[..n]) == "http://"
    ensures n == 8 ==> ToLower(s[..n]) == "https://"
  {
    LowerPrefix(s, 7);
    LowerPrefix(s, 8);
    if |s| >= 7 && ToLower(s[..7]) == "http://" then 7
    else if |s| >= 8 && ToLower(s[..8]) == "https://" then 8
    else 0
  }

  /** Lower-casing a prefix is the prefix of the lower-cased text. */
  lemma LowerPrefix(s: string, n: nat)
    ensures n <= |s| ==> ToLower(s)[..n] == ToLower(s[..n])
  {
  }

  /** fromHttpUrl: the scheme is matched ignoring case and written lower-cased; the
      authority runs to the first '/', '?' or '#', the path to the first '?' or '#'.
      None stands for the IllegalArgumentException of a text that is not an http or
      https URL with a host. */
  function ParseHttpUrl(s: string): (r: Option<HttpUrl>)
    ensures r.Some? ==> StartsWith(r.value.origin, "http://") || StartsWith(r.value.origin, "https://")
    ensures r.Some? ==> |r.value.origin| <= |s| && s[|r.value.origin|..] == r.value.path + r.value.tail
    ensures r.Some? ==> r.value.path == [] || r.value.path[0] == '/'
    ensures r.Some? ==> '?' !in r.value.path && '#' !in r.value.path
    ensures r.Some? ==> r.value.tail == [] || EndsPath(r.value.tail[0])
    ensures !(StartsWith(ToLower(s), "http://") || StartsWith(ToLower(s), "https://")) ==> r.None?
  {
    var n := SchemeLength(s);
    if n == 0 then None
    else
      var a := AuthorityEnd(s, n);
      if a == n then None
      else
        var p := PathEnd(s, a);
        var u := HttpUrl(ToLower(s[..n]) + s[n..a], s[a..p], s[p..]);
        ParsedParts(s, n, a, p, u);
        Some(u)
  }

  /** The three parts fromHttpUrl cuts from a text whose scheme ends at `n`, whose
      authority ends at `a` and whose path ends at `p`. */
  lemma ParsedParts(s: string, n: nat, a: nat, p: nat, u: HttpUrl)
    requires n <= a <= |s| && (ToLower(s[..n]) == "http://" || ToLower(s[..n]) == "https://")
    requires a < |s| ==> EndsAuthority(s[a])
    requires p == PathEnd(s, a)
    requires u == HttpUrl(ToLower(s[..n]) + s[n..a], s[a..p], s[p..])
    ensures StartsWith(u.origin, "http://") || StartsWith(u.origin, "https://")
    ensures |u.origin| <= |s| && s[|u.origin|..] == u.path + u.tail
    ensures u.path == [] || u.path[0] == '/'
    ensures '?' !in u.path && '#' !in u.path
    ensures u.tail == [] || EndsPath(u.tail[0])
  {
    OriginScheme(ToLower(s[..n]), s[n..a]);
    PathCut(s, a, p);
    assert |u.origin| == a;
    assert s[a..] == s[a..p] + s[p..];
  }

  /** An origin made of a scheme and an authority starts with the scheme. */
  lemma OriginScheme(scheme: string, authority: string)
    requires scheme == "http://" || scheme == "https://"
    ensures StartsWith(scheme + authority, "http://") || StartsWith(scheme + authority, "https://")
  {
    assert (scheme + authority)[..|scheme|] == scheme;
  }

  /** The path cut between the authority's end `a` and the path's end `p`. */
  lemma PathCut(s: string, a: nat, p: nat)
    requires a <= |s| && (a < |s| ==> EndsAuthority(s[a]))
    requires p == PathEnd(s, a)
    ensures s[a..p] == [] || s[a..p][0] == '/'
    ensures '?' !in s[a..p] && '#' !in s[a..p]
    ensures s[p..] == [] || EndsPath(s[p..][0])
  {
    if p > a {
      assert s[a..p][0] == s[a];
    }
    forall k | 0 <= k < p - a
      ensures s[a..p][k] != '?' && s[a..p][k] != '#'
    {
      assert s[a..p][k] == s[a + k];
    }
  }

  /** No two slashes in a row. */
  predicate NoDoubleSlash(s: string) {
    forall i | 0 <= i < |s| - 1 :: !(s[i] == '/' && s[i + 1] == '/')
  }

  /** The characters of `s` other than '/'. */
  function Unslashed(s: string): (r: string)
  {
    if s == [] then [] else (if s[0] == '/' then [] else [s[0]]) + Unslashed(s[1..])
  }

  lemma {:induction false} UnslashedAppend(a: string, b: string)
    ensures Unslashed(a + b) == Unslashed(a) + Unslashed(b)
    decreases |a|
  {
    if a == [] {
      assert a + b == b;
    } else {
      assert (a + b)[0] == a[0];
      assert (a + b)[1..] == a[1..] + b;
      UnslashedAppend(a[1..], b);
    }
  }

  /** A text without slashes is its own unslashed form. */
  lemma {:induction false} UnslashedClean(s: string)
    requires '/' !in s
    ensures Unslashed(s) == s
    decreases |s|
  {
    if s != [] {
      assert forall k | 0 <= k < |s[1..]| :: s[1..][k] == s[k + 1];
      UnslashedClean(s[1..]);
      assert s == [s[0]] + s[1..];
    }
  }

  /** Spring's path sanitising when the URI is built: every run of slashes becomes one. */
  function CollapseSlashes(p: string): (r: string)
    ensures NoDoubleSlash(r)
    ensures |r| <= |p|
    ensures p != [] ==> r != [] && r[0] == p[0]
    ensures Unslashed(r) == Unslashed(p)
  {
    if |p| < 2 then p
    else if p[0] == '/' && p[1] == '/' then CollapseSlashes(p[1..])
    else
      var t := CollapseSlashes(p[1..]);
      assert Unslashed([p[0]] + t) == (if p[0] == '/' then [] else [p[0]]) + Unslashed(t) by {
        assert ([p[0]] + t)[1..] == t;
      }
      [p[0]] + t
  }

  /** A path without doubled slashes is left as it is. */
  lemma {:induction false} CollapseKeepsSingleSlashes(p: string)
    requires NoDoubleSlash(p)
    ensures CollapseSlashes(p) == p
    decreases |p|
  {
    if |p| >= 2 {
      assert NoDoubleSlash(p[1..]) by {
        forall i | 0 <= i < |p[1..]| - 1 ensures !(p[1..][i] == '/' && p[1..][i + 1] == '/') {
          assert p[1..][i] == p[i + 1] && p[1..][i + 1] == p[i + 2];
        }
      }
      CollapseKeepsSingleSlashes(p[1..]);
      assert !(p[0] == '/' && p[1] == '/');
      assert p == [p[0]] + p[1..];
    }
  }

  /** Collapsing twice is collapsing once. */
  lemma CollapseIdempotent(p: string)
    ensures CollapseSlashes(CollapseSlashes(p)) == CollapseSlashes(p)
  {
    CollapseKeepsSingleSlashes(CollapseSlashes(p));
  }

  /** The relative part of a storage path: one leading slash removed. */
  function RelativePath(p: string): (rel: string)
    ensures rel == p || "/" + rel == p
    ensures |p| > 0 && p[0] == '/' ==> "/" + rel == p
  {
    if StartsWith(p, "/") then
      assert p == "/" + p[1..];
      p[1..]
    else p
  }

  /** The directory the platform serves stored objects from. */
  const StorageDir: string := "storage"

  /** The path of the built URL: the base path, "/storage/" and the relative path
      (which UriComponentsBuilder.path skips when it has no text), slashes collapsed. */
  function StoragePath(basePath: string, rel: string): (r: string)
    requires basePath == [] || basePath[0] == '/'
    ensures r != [] && r[0] == '/' && NoDoubleSlash(r)
    ensures HasText(Some(rel)) ==> Unslashed(r) == Unslashed(basePath) + StorageDir + Unslashed(rel)
    ensures !HasText(Some(rel)) ==> Unslashed(r) == Unslashed(basePath) + StorageDir
  {
    var relPart := if HasText(Some(rel)) then rel else "";
    RawStoragePath(basePath, StorageDir, relPart);
    assert Unslashed("") == "";
    CollapseSlashes(basePath + ("/" + StorageDir + "/" + relPart))
  }

  /** The path before sanitising starts with '/' and holds the characters of the base
      path, of the directory and of the relative path. */
  lemma RawStoragePath(basePath: string, dir: string, relPart: string)
    requires basePath == [] || basePath[0] == '/'
    requires dir == StorageDir
    ensures var raw := basePath + ("/" + dir + "/" + relPart);
      raw != [] && raw[0] == '/' && Unslashed(raw) == Unslashed(basePath) + dir + Unslashed(relPart)
  {
    var raw := basePath + ("/" + dir + "/" + relPart);
    if basePath != [] {
      assert raw[0] == basePath[0];
    }
    assert '/' !in dir;
    UnslashedSegment(basePath, dir, relPart);
  }

  /** A slash-free segment between two slashes keeps only its own characters. */
  lemma UnslashedSegment(a: string, d: string, b: string)
    requires '/' !in d
    ensures Unslashed(a + ("/" + d + "/" + b)) == Unslashed(a) + d + Unslashed(b)
  {
    UnslashedAppend(a, "/" + d + "/" + b);
    UnslashedAppend("/" + d + "/", b);
    UnslashedBetweenSlashes(d);
  }

  lemma UnslashedBetweenSlashes(d: string)
    requires '/' !in d
    ensures Unslashed("/" + d + "/") == d
  {
    UnslashedAppend("/" + d, "/");
    UnslashedAppend("/", d);
    UnslashedClean(d);
    UnslashedSlash();
  }

  lemma UnslashedSlash()
    ensures Unslashed("/") == []
  {
    assert "/"[1..] == [];
  }

  /** A path downloadStorageObject uses as it is. */
  predicate IsAbsolute(p: string) {
    StartsWith(p, "http://") || StartsWith(p, "https://")
  }

  /** The URL downloadStorageObject fetches: Success(None) when it returns empty
      bytes without a request (a null or blank path); the exception of
      UriComponentsBuilder.fromHttpUrl for a base that is not an http URL. */
  function StorageUrl(baseUrl: string, imagePath: Option<string>): (url: Result<Option<string>>)
    ensures url == Success(None) <==> NullOrBlank(imagePath)
    ensures !NullOrBlank(imagePath) && IsAbsolute(imagePath.value) ==> url == Success(Some(imagePath.value))
    ensures !NullOrBlank(imagePath) && !IsAbsolute(imagePath.value) ==>
      (url.Failure? <==> ParseHttpUrl(StripApiSuffix(baseUrl)).None?)
    ensures url.Failure? ==> url.error.IllegalArgument?
  {
    if NullOrBlank(imagePath) then Success(None)
    else
      var p := imagePath.value;
      if IsAbsolute(p) then Success(Some(p))
      else
        var base := StripApiSuffix(baseUrl);
        match ParseHttpUrl(base)
        case None => Failure(IllegalArgument("[" + base + "] is not a valid HTTP URL"))
        case Some(u) => Success(Some(u.origin + StoragePath(u.path, RelativePath(p)) + u.tail))
  }

  /** A relative path is fetched from the base's origin under "/storage/": the URL keeps
      the origin and the query of the base, and its path has exactly one slash wherever
      the base path, "storage" and the relative path put one or more, and no other
      characters. */
  lemma StorageUrlShape(baseUrl: string, imagePath: string)
    requires !IsBlank(imagePath) && !IsAbsolute(imagePath)
    requires ParseHttpUrl(StripApiSuffix(baseUrl)).Some?
    ensures var u := ParseHttpUrl(StripApiSuffix(baseUrl)).value;
      var rel := RelativePath(imagePath);
      StorageUrl(baseUrl, Some(imagePath)).Success? && StorageUrl(baseUrl, Some(imagePath)).value.Some? &&
      var w := StorageUrl(baseUrl, Some(imagePath)).value.value;
      && StartsWith(w, u.origin) && EndsWith(w, u.tail) && |u.origin| + |u.tail| < |w|
      && var built := w[|u.origin|..|w| - |u.tail|];
         && built[0] == '/' && NoDoubleSlash(built)
         && Unslashed(built) == Unslashed(u.path) + StorageDir + (if HasText(Some(rel)) then Unslashed(rel) else "")
  {
    var u := ParseHttpUrl(StripApiSuffix(baseUrl)).value;
    StorageUrlOf(baseUrl, imagePath, u);
    var path := StoragePath(u.path, RelativePath(imagePath));
    assert StorageUrl(baseUrl, Some(imagePath)) == Success(Some(u.origin + path + u.tail));
    SplitThree(u.origin, path, u.tail);
  }

  /** The parts of a three-part concatenation are found again by position. */
  lemma SplitThree(o: string, m: string, t: string)
    ensures var w := o + m + t;
      StartsWith(w, o) && EndsWith(w, t) && |o| + |t| <= |w| && w[|o|..|w| - |t|] == m
  {
    var w := o + m + t;
    assert w[..|o|] == o;
    assert w[|w| - |t|..] == t;
    assert w[|o|..|w| - |t|] == m;
  }

  /** Dropping one slash of a doubled pair does not change the collapsed path. */
  lemma {:induction false} CollapseDropsSlash(p: string, i: nat)
    requires i + 1 < |p| && p[i] == '/' && p[i + 1] == '/'
    ensures CollapseSlashes(p) == CollapseSlashes(p[..i] + p[i + 1..])
    decreases i
  {
    var q := p[..i] + p[i + 1..];
    if i == 0 {
      assert q == p[1..];
    } else {
      assert |q| == |p| - 1 >= 2;
      assert q[0] == p[0];
      assert q[1] == p[1] by {
        if i == 1 {
          assert q[1] == p[2];
        }
      }
      assert q[1..] == p[1..][..i - 1] + p[1..][i..];
      CollapseDropsSlash(p[1..], i - 1);
    }
  }

  /** fromHttpUrl on an http URL with a host and a path but no query or fragment. */
  lemma ParseHostAndPath(host: string, path: string)
    requires host != [] && forall k | 0 <= k < |host| :: !EndsAuthority(host[k])
    requires (path == [] || path[0] == '/') && forall k | 0 <= k < |path| :: !EndsPath(path[k])
    ensures ParseHttpUrl("http://" + host + path) == Some(HttpUrl("http://" + host, path, ""))
  {
    var s := "http://" + host + path;
    var a := 7 + |host|;
    HttpScheme(s);
    HostAuthority(host, path);
    PlainPath(host, path);
    assert s[..7] == "http://";
    assert s[7..a] == host;
    assert s[a..|s|] == path;
    assert s[|s|..] == [];
  }

  /** A text starting with "http://" has a scheme of seven characters. */
  lemma HttpScheme(s: string)
    requires |s| >= 7 && s[..7] == "http://"
    ensures SchemeLength(s) == 7 && ToLower(s[..7]) == "http://"
  {
    LowerHttp();
  }

  /** The authority of "http://" + host + path is the host. */
  lemma HostAuthority(host: string, path: string)
    requires host != [] && forall k | 0 <= k < |host| :: !EndsAuthority(host[k])
    requires path == [] || path[0] == '/'
    ensures AuthorityEnd("http://" + host + path, 7) == 7 + |host|
  {
    var s := "http://" + host + path;
    var a := 7 + |host|;
    forall k | 7 <= k < a ensures !EndsAuthority(s[k]) {
      assert s[k] == host[k - 7];
    }
    if path != [] {
      assert s[a] == path[0];
    }
    AuthorityEndAt(s, 7, a);
  }

  /** A path without '?' or '#' runs to the end of the text. */
  lemma PlainPath(host: string, path: string)
    requires forall k | 0 <= k < |path| :: !EndsPath(path[k])
    ensures PathEnd("http://" + host + path, 7 + |host|) == |"http://" + host + path|
  {
    var s := "http://" + host + path;
    var a := 7 + |host|;
    forall k | a <= k < |s| ensures !EndsPath(s[k]) {
      assert s[k] == path[k - a];
    }
    PathEndAt(s, a);
  }

  lemma LowerHttp()
    ensures ToLower("http://") == "http://"
  {
  }

  /** The authority scan stops at the first authority-ending character. */
  lemma {:induction false} AuthorityEndAt(s: string, from: nat, i: nat)
    requires from <= i <= |s|
    requires forall k | from <= k < i :: !EndsAuthority(s[k])
    requires i < |s| ==> EndsAuthority(s[i])
    ensures AuthorityEnd(s, from) == i
    decreases i - from
  {
    if from < i {
      AuthorityEndAt(s, from + 1, i);
    }
  }

  /** The path scan runs to the end of a text without a query or fragment. */
  lemma {:induction false} PathEndAt(s: string, from: nat)
    requires from <= |s|
    requires forall k | from <= k < |s| :: !EndsPath(s[k])
    ensures PathEnd(s, from) == |s|
    decreases |s| - from
  {
    if from < |s| {
      PathEndAt(s, from + 1);
    }
  }

  /** How StorageUrl assembles the URL of a relative path once the base is parsed. */
  lemma StorageUrlOf(baseUrl: string, imagePath: string, u: HttpUrl)
    requires !IsBlank(imagePath) && !IsAbsolute(imagePath)
    requires ParseHttpUrl(StripApiSuffix(baseUrl)) == Some(u)
    ensures u.path == [] || u.path[0] == '/'
    ensures StorageUrl(baseUrl, Some(imagePath)) == Success(Some(u.origin + StoragePath(u.path, RelativePath(imagePath)) + u.tail))
  {
  }

  /** A host name: not empty, and no character of it ends the authority. */
  predicate IsHost(h: string) {
    h != [] && forall k | 0 <= k < |h| :: !EndsAuthority(h[k])
  }

  /** A relative object name: it has text, does not start with a slash and has no
      doubled slash. */
  predicate IsObjectName(p: string) {
    p != [] && p[0] != '/' && !IsWhitespace(p[0]) && NoDoubleSlash(p)
  }

  /** Two texts without doubled slashes that do not meet in two slashes. */
  lemma NoDoubleSlashAppend(a: string, b: string)
    requires NoDoubleSlash(a) && NoDoubleSlash(b)
    requires a != [] && b != [] ==> !(a[|a| - 1] == '/' && b[0] == '/')
    ensures NoDoubleSlash(a + b)
  {
    var w := a + b;
    forall i | 0 <= i < |w| - 1 ensures !(w[i] == '/' && w[i + 1] == '/') {
      if i + 1 < |a| {
        assert w[i] == a[i] && w[i + 1] == a[i + 1];
      } else if i >= |a| {
        assert w[i] == b[i - |a|] && w[i + 1] == b[i + 1 - |a|];
      } else {
        assert w[i] == a[|a| - 1] && w[i + 1] == b[0];
      }
    }
  }

  /** "/storage/" followed by an object name is a path without doubled slashes. */
  lemma StorageOfObjectName(p: string)
    requires IsObjectName(p)
    ensures NoDoubleSlash("/" + StorageDir + "/" + p)
  {
    assert NoDoubleSlash("/" + StorageDir + "/");
    NoDoubleSlashAppend("/" + StorageDir + "/", p);
  }

  /** A path whose first character is a slash, or any character other than 'h', is
      not an absolute http URL. */
  lemma NotAbsolute(p: string)
    requires p != [] && p[0] != 'h'
    ensures !IsAbsolute(p)
  {
    assert "http://"[0] == 'h' && "https://"[0] == 'h';
  }

  /** Regrouping the parts of a built URL whose tail is empty. */
  lemma JoinUrl(o: string, a: string, b: string, c: string, d: string)
    ensures o + (a + b + c + d) + "" == o + a + b + c + d
  {
  }

  /** Regrouping the parts of a built URL whose last slash came with the name. */
  lemma JoinSlashUrl(o: string, d: string, p: string)
    ensures o + ("/" + d + ("/" + p)) + "" == o + "/" + d + "/" + p
  {
  }

  /** Regrouping the parts of a built URL under a directory, with an empty tail. */
  lemma JoinDirUrl(o: string, dir: string, d: string, p: string)
    ensures o + ("/" + dir + ("/" + d + "/" + p)) + "" == o + "/" + dir + "/" + d + "/" + p
  {
  }

  /** A base http://host/api loses its "/api" and parses into the origin alone. */
  lemma ApiBase(h: string)
    requires IsHost(h)
    ensures StripApiSuffix("http://" + h + "/api") == "http://" + h
    ensures ParseHttpUrl("http://" + h) == Some(HttpUrl("http://" + h, "", ""))
  {
    var base := "http://" + h + "/api";
    assert base[|base| - 4..] == "/api";
    assert base[..|base| - 4] == "http://" + h;
    ParseHostAndPath(h, "");
    assert "http://" + h + "" == "http://" + h;
  }

  /** Under an empty base path the object name follows "/storage/". */
  lemma StoragePathOfName(p: string)
    requires IsObjectName(p)
    ensures StoragePath("", p) == "/" + StorageDir + "/" + p
  {
    assert HasText(Some(p)) by {
      assert !IsWhitespace(p[0]);
    }
    assert "" + ("/" + StorageDir + "/" + p) == "/" + StorageDir + "/" + p;
    StorageOfObjectName(p);
    CollapseKeepsSingleSlashes("/" + StorageDir + "/" + p);
  }

  /** A slash inserted before a leading slash disappears in sanitising. */
  lemma CollapseExtraSlash(a: string, b: string)
    requires b != [] && b[0] == '/'
    ensures CollapseSlashes(a + "/" + b) == CollapseSlashes(a + b)
  {
    var w := a + "/" + b;
    assert w[|a|] == '/' && w[|a| + 1] == '/';
    CollapseDropsSlash(w, |a|);
    assert w[..|a|] == a;
    assert w[|a| + 1..] == b;
  }

  /** Sanitising the join of a clean path ending in a slash and a clean path starting
      with one keeps one of the two slashes. */
  lemma CollapseJoin(a: string, b: string)
    requires NoDoubleSlash(a) && NoDoubleSlash(b)
    requires a != [] && a[|a| - 1] != '/' && b != [] && b[0] == '/'
    ensures CollapseSlashes(a + "/" + b) == a + b
  {
    NoDoubleSlashAppend(a, b);
    CollapseKeepsSingleSlashes(a + b);
    CollapseExtraSlash(a, b);
  }

  /** A leading slash left on the relative part is merged into the one after "storage". */
  lemma StoragePathOfSlashName(p: string)
    requires IsObjectName(p)
    ensures StoragePath("", "/" + p) == "/" + StorageDir + ("/" + p)
  {
    assert HasText(Some("/" + p)) by {
      assert !IsWhitespace(("/" + p)[1]);
    }
    assert NoDoubleSlash("/" + p) by {
      NoDoubleSlashAppend("/", p);
    }
    CollapseJoin("/" + StorageDir, "/" + p);
    assert "" + ("/" + StorageDir + "/" + ("/" + p)) == "/" + StorageDir + "/" + ("/" + p);
  }

  /** A base path "/dir/" keeps one slash before "storage". */
  lemma StoragePathUnderDir(dir: string, p: string)
    requires IsObjectName(p) && dir != [] && forall k | 0 <= k < |dir| :: dir[k] != '/'
    ensures StoragePath("/" + dir + "/", p) == "/" + dir + ("/" + StorageDir + "/" + p)
  {
    var a := "/" + dir;
    var b := "/" + StorageDir + "/" + p;
    assert HasText(Some(p)) by {
      assert !IsWhitespace(p[0]);
    }
    assert NoDoubleSlash(a) by {
      forall i | 0 <= i < |a| - 1 ensures a[i + 1] == dir[i] {
      }
    }
    assert a[|a| - 1] == dir[|dir| - 1];
    StorageOfObjectName(p);
    CollapseJoin(a, b);
    assert "/" + dir + "/" + b == a + "/" + b;
  }

  /** An object name after one slash is a relative path that is not blank. */
  lemma SlashedName(p: string)
    requires IsObjectName(p)
    ensures !IsBlank("/" + p) && !IsAbsolute("/" + p) && RelativePath("/" + p) == p
  {
    assert !IsWhitespace(("/" + p)[1]);
    NotAbsolute("/" + p);
  }

  /** An object name after two slashes is a relative path that is not blank. */
  lemma DoubleSlashedName(p: string)
    requires IsObjectName(p)
    ensures !IsBlank("//" + p) && !IsAbsolute("//" + p) && RelativePath("//" + p) == "/" + p
  {
    assert !IsWhitespace(("//" + p)[2]);
    NotAbsolute("//" + p);
    assert ("//" + p)[1..] == "/" + p;
  }

  /** The base http://host/api and the path /name: the object is fetched from
      http://host/storage/name. */
  lemma StorageUrlUnderApi(h: string, p: string)
    requires IsHost(h) && IsObjectName(p)
    ensures StorageUrl("http://" + h + "/api", Some("/" + p)) == Success(Some("http://" + h + "/" + StorageDir + "/" + p))
  {
    ApiBase(h);
    SlashedName(p);
    StorageUrlOf("http://" + h + "/api", "/" + p, HttpUrl("http://" + h, "", ""));
    StoragePathOfName(p);
    JoinUrl("http://" + h, "/", StorageDir, "/", p);
  }

  /** The path //name, two leading slashes: Spring's sanitising keeps one, so the object
      is still fetched from http://host/storage/name. */
  lemma StorageUrlDoubleSlash(h: string, p: string)
    requires IsHost(h) && IsObjectName(p)
    ensures StorageUrl("http://" + h + "/api", Some("//" + p)) == Success(Some("http://" + h + "/" + StorageDir + "/" + p))
  {
    ApiBase(h);
    DoubleSlashedName(p);
    StorageUrlOf("http://" + h + "/api", "//" + p, HttpUrl("http://" + h, "", ""));
    StoragePathOfSlashName(p);
    JoinSlashUrl("http://" + h, StorageDir, p);
  }

  /** The base http://host/dir/ parses with the path "/dir/" when dir is not "api". */
  lemma DirBase(h: string, dir: string)
    requires IsHost(h) && dir != [] && dir != "api"
    requires forall k | 0 <= k < |dir| :: dir[k] != '/' && !EndsPath(dir[k])
    ensures StripApiSuffix("http://" + h + "/" + dir + "/") == "http://" + h + "/" + dir + "/"
    ensures ParseHttpUrl("http://" + h + "/" + dir + "/") == Some(HttpUrl("http://" + h, "/" + dir + "/", ""))
  {
    var bp := "/" + dir + "/";
    var base := "http://" + h + bp;
    assert base == "http://" + h + "/" + dir + "/";
    assert !EndsWith(base, "/api") by {
      assert base[|base| - 1] == '/';
    }
    assert !EndsWith(base, "/api/") by {
      if EndsWith(base, "/api/") {
        DirBeforeApi("http://" + h, dir);
      }
    }
    forall k | 0 <= k < |bp| ensures !EndsPath(bp[k]) {
      if 0 < k < |bp| - 1 {
        assert bp[k] == dir[k - 1];
      }
    }
    ParseHostAndPath(h, bp);
  }

  /** A text ending in "/dir/" ends with "/api/" only when dir is "api", for a dir
      without slashes. */
  lemma DirBeforeApi(o: string, dir: string)
    requires forall k | 0 <= k < |dir| :: dir[k] != '/'
    requires EndsWith(o + "/" + dir + "/", "/api/")
    ensures dir == "api"
  {
    var base := o + "/" + dir + "/";
    var t := base[|base| - 5..];
    assert t == "/api/";
    assert base[|o|] == '/';
    TailChar(base, |o| - (|base| - 5));
    TailChar(base, 0);
    ApiLetters(3 - |dir|);
    DirChar(o, dir, |dir| - 4);
    assert |dir| == 3;
    assert dir == t[1..4];
  }

  /** Only the first and the last character of "/api/" are slashes. */
  lemma ApiLetters(j: int)
    ensures 0 < j < 4 ==> "/api/"[j] != '/'
  {
  }

  /** The characters of the last five of a text. */
  lemma TailChar(s: string, j: int)
    ensures |s| >= 5 && 0 <= j < 5 ==> s[|s| - 5 + j] == s[|s| - 5..][j]
  {
  }

  /** The characters of the directory in a text ending in "/dir/". */
  lemma DirChar(o: string, dir: string, j: int)
    ensures 0 <= j < |dir| ==> (o + "/" + dir + "/")[|o| + 1 + j] == dir[j]
  {
  }

  /** A base with a trailing slash, http://host/dir/, and the path name: the object is
      fetched from http://host/dir/storage/name, with one slash before "storage". */
  lemma StorageUrlTrailingSlash(h: string, dir: string, p: string)
    requires IsHost(h) && IsObjectName(p) && !IsAbsolute(p)
    requires dir != [] && dir != "api" && forall k | 0 <= k < |dir| :: dir[k] != '/' && !EndsPath(dir[k])
    ensures StorageUrl("http://" + h + "/" + dir + "/", Some(p)) == Success(Some("http://" + h + "/" + dir + "/" + StorageDir + "/" + p))
  {
    DirBase(h, dir);
    assert !IsBlank(p) by {
      assert !IsWhitespace(p[0]);
    }
    assert RelativePath(p) == p;
    StorageUrlOf("http://" + h + "/" + dir + "/", p, HttpUrl("http://" + h, "/" + dir + "/", ""));
    StoragePathUnderDir(dir, p);
    JoinDirUrl("http://" + h, dir, StorageDir, p);
  }

  /** A base that is not an http URL makes fromHttpUrl throw. */
  lemma StorageUrlBadBase()
    ensures StorageUrl("h/api", Some("p")).Failure?
  {
    assert !IsWhitespace("p"[0]);
    NotAbsolute("p");
    assert StripApiSuffix("h/api") == "h" by {
      assert "h/api"[1..] == "/api";
    }
  }
}
