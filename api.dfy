/**
  The client library: the User record, the parameters of a user query, and
  `buildQueryParams`, which turns those parameters into the query string's
  name/value pairs.
 */
module Api {
  import opened Optional
  import opened JsString
  import opened JsNumber
  import SearchParams

  datatype Role = Admin | Editor | Viewer

  datatype Status = Active | Inactive

  /** A user record; every field is required. */
  datatype User = User(id: int, name: string, email: string, role: Role, status: Status, createdAt: string)

  /** The text of a role, as stored. */
  function RoleName(r: Role): string
  {
    match r
    case Admin => "Admin"
    case Editor => "Editor"
    case Viewer => "Viewer"
  }

  /** The text of a status, as stored. */
  function StatusName(s: Status): string
  {
    match s
    case Active => "Active"
    case Inactive => "Inactive"
  }

  datatype SortOrder = Asc | Desc

  function OrderName(o: SortOrder): string
  {
    match o
    case Asc => "asc"
    case Desc => "desc"
  }

  /** The parameters of a user query; each may be left undefined. */
  datatype FetchUsersParams = FetchUsersParams(
    pageIndex: Option<int>,
    pageSize: Option<int>,
    sortBy: Option<string>,
    sortOrder: Option<SortOrder>,
    search: Option<string>)

  /** The names the client may send, in the order it sends them. */
  const QueryNames: seq<string> := ["search", "pageIndex", "pageSize", "sortBy", "sortOrder"]

  /** The position of a name among QueryNames; 5 for any other name. */
  function NameRank(name: string): (k: nat)
    ensures k <= 5
  {
    if name == "search" then 0
    else if name == "pageIndex" then 1
    else if name == "pageSize" then 2
    else if name == "sortBy" then 3
    else if name == "sortOrder" then 4
    else 5
  }

  /** The rank of a name is its index in QueryNames, and 5 exactly for the names not in it. */
  lemma NameRankIndex(name: string)
    ensures NameRank(name) < 5 <==> name in QueryNames
    ensures NameRank(name) < 5 ==> QueryNames[NameRank(name)] == name
  {
  }

  /** Whether the client sends the page position: only when both numbers are defined. */
  predicate SendsPage(p: FetchUsersParams)
  {
    p.pageIndex.Some? && p.pageSize.Some?
  }

  /** The pairs for the search text: present when it is truthy. */
  function SearchPart(p: FetchUsersParams): seq<SearchParams.Pair>
  {
    if Truthy(p.search) then [("search", p.search.value)] else []
  }

  /** The pairs for the page position: both numbers or neither. */
  function PagePart(p: FetchUsersParams): seq<SearchParams.Pair>
  {
    if SendsPage(p)
    then [("pageIndex", IntToString(p.pageIndex.value)), ("pageSize", IntToString(p.pageSize.value))]
    else []
  }

  /** The pairs for the sort: the field and the order, which defaults to "asc". */
  function SortPart(p: FetchUsersParams): seq<SearchParams.Pair>
  {
    if Truthy(p.sortBy)
    then [("sortBy", p.sortBy.value), ("sortOrder", OrderName(p.sortOrder.GetOr(Asc)))]
    else []
  }

  /** The pairs `buildQueryParams` produces, in order. */
  function QueryPairs(p: FetchUsersParams): seq<SearchParams.Pair>
  {
    SearchPart(p) + PagePart(p) + SortPart(p)
  }

  /** Looking a name up in QueryPairs looks it up in the three parts in turn. */
  lemma QueryPairsGet(p: FetchUsersParams, name: string)
    ensures SearchParams.Get(QueryPairs(p), name)
         == if SearchParams.Get(SearchPart(p), name).Some? then SearchParams.Get(SearchPart(p), name)
            else if SearchParams.Get(PagePart(p), name).Some? then SearchParams.Get(PagePart(p), name)
            else SearchParams.Get(SortPart(p), name)
  {
    SearchParams.GetAppend(SearchPart(p) + PagePart(p), SortPart(p), name);
    SearchParams.GetAppend(SearchPart(p), PagePart(p), name);
  }

  /** Looking a name up in each of the three parts. */
  lemma PartsGet(p: FetchUsersParams, name: string)
    ensures SearchParams.Get(SearchPart(p), name)
         == if Truthy(p.search) && name == "search" then p.search else None
    ensures SearchParams.Get(PagePart(p), name)
         == if SendsPage(p) && name == "pageIndex" then Some(IntToString(p.pageIndex.value))
            else if SendsPage(p) && name == "pageSize" then Some(IntToString(p.pageSize.value))
            else None
    ensures SearchParams.Get(SortPart(p), name)
         == if Truthy(p.sortBy) && name == "sortBy" then p.sortBy
            else if Truthy(p.sortBy) && name == "sortOrder" then Some(OrderName(p.sortOrder.GetOr(Asc)))
            else None
  {
    SearchParams.GetShort("search", p.search.GetOr(""), "", "", name);
    if SendsPage(p) {
      SearchParams.GetShort("pageIndex", IntToString(p.pageIndex.value), "pageSize", IntToString(p.pageSize.value), name);
    }
    if Truthy(p.sortBy) {
      SearchParams.GetShort("sortBy", p.sortBy.value, "sortOrder", OrderName(p.sortOrder.GetOr(Asc)), name);
    }
  }

  /** The search text is sent exactly when it is a non-empty string, and unchanged. */
  lemma QueryPairsSearch(p: FetchUsersParams)
    ensures SearchParams.Get(QueryPairs(p), "search") == if Truthy(p.search) then p.search else None
  {
    QueryPairsGet(p, "search");
    PartsGet(p, "search");
  }

  /** pageIndex and pageSize are sent together, exactly when both are defined, as decimal text. */
  lemma QueryPairsPage(p: FetchUsersParams)
    ensures SearchParams.Get(QueryPairs(p), "pageIndex")
         == if SendsPage(p) then Some(IntToString(p.pageIndex.value)) else None
    ensures SearchParams.Get(QueryPairs(p), "pageSize")
         == if SendsPage(p) then Some(IntToString(p.pageSize.value)) else None
  {
    QueryPairsGet(p, "pageIndex");
    PartsGet(p, "pageIndex");
    QueryPairsGet(p, "pageSize");
    PartsGet(p, "pageSize");
  }

  /** sortBy is sent when it is non-empty, and sortOrder with it, "asc" when the order is undefined. */
  lemma QueryPairsSort(p: FetchUsersParams)
    ensures SearchParams.Get(QueryPairs(p), "sortBy") == if Truthy(p.sortBy) then p.sortBy else None
    ensures SearchParams.Get(QueryPairs(p), "sortOrder")
         == if Truthy(p.sortBy) then Some(OrderName(p.sortOrder.GetOr(Asc))) else None
  {
    QueryPairsGet(p, "sortBy");
    PartsGet(p, "sortBy");
    QueryPairsGet(p, "sortOrder");
    PartsGet(p, "sortOrder");
  }

  /** Only the five query names are sent, each at most once, in the order of QueryNames. */
  lemma QueryPairsNames(p: FetchUsersParams)
    ensures var q := QueryPairs(p);
      && (forall i :: 0 <= i < |q| ==> q[i].0 in QueryNames)
      && (forall i, j :: 0 <= i < j < |q| ==> NameRank(q[i].0) < NameRank(q[j].0))
  {
    var q := QueryPairs(p);
    forall i | 0 <= i < |q|
      ensures q[i].0 in QueryNames
    {
      NameRankIndex(q[i].0);
    }
  }

  /** Every pair of the list has a name ranked below k. */
  predicate RankedBelow(list: seq<SearchParams.Pair>, k: nat)
  {
    forall i :: 0 <= i < |list| ==> NameRank(list[i].0) < k
  }

  /** Setting a name ranked above everything present appends it. */
  lemma SetAppendsRanked(list: seq<SearchParams.Pair>, name: string, value: string)
    requires RankedBelow(list, NameRank(name))
    ensures SearchParams.SetValue(list, name, value) == list + [(name, value)]
    ensures RankedBelow(list + [(name, value)], NameRank(name) + 1)
  {
    SearchParams.GetAbsent(list, name);
    SearchParams.SetValueAppends(list, name, value);
  }

  /** Setting the search text on no pairs gives the search part. */
  lemma SearchStep(p: FetchUsersParams)
    requires Truthy(p.search)
    ensures SearchParams.SetValue([], "search", p.search.value) == SearchPart(p)
  {
  }

  /** Setting pageIndex and then pageSize after the search part appends the page part. */
  lemma PageStep(p: FetchUsersParams)
    requires SendsPage(p)
    ensures var first := SearchParams.SetValue(SearchPart(p), "pageIndex", IntToString(p.pageIndex.value));
      SearchParams.SetValue(first, "pageSize", IntToString(p.pageSize.value)) == SearchPart(p) + PagePart(p)
  {
    var index, size := IntToString(p.pageIndex.value), IntToString(p.pageSize.value);
    assert RankedBelow(SearchPart(p), 1);
    SetAppendsRanked(SearchPart(p), "pageIndex", index);
    SetAppendsRanked(SearchPart(p) + [("pageIndex", index)], "pageSize", size);
  }

  /** Setting sortBy and then sortOrder after the search and page parts appends the sort part. */
  lemma SortStep(p: FetchUsersParams)
    requires Truthy(p.sortBy)
    ensures var before := SearchPart(p) + PagePart(p);
      var first := SearchParams.SetValue(before, "sortBy", p.sortBy.value);
      SearchParams.SetValue(first, "sortOrder", OrderName(p.sortOrder.GetOr(Asc))) == QueryPairs(p)
  {
    var before := SearchPart(p) + PagePart(p);
    var order := OrderName(p.sortOrder.GetOr(Asc));
    assert RankedBelow(before, 3);
    SetAppendsRanked(before, "sortBy", p.sortBy.value);
    SetAppendsRanked(before + [("sortBy", p.sortBy.value)], "sortOrder", order);
  }

  /**
    `buildQueryParams`: a fresh URLSearchParams that each defined parameter
    sets in turn; the result is its list of pairs.
   */
  method BuildQueryParams(params: FetchUsersParams) returns (pairs: seq<SearchParams.Pair>)
    ensures pairs == QueryPairs(params)
  {
    var query := new SearchParams.URLSearchParams();

    if Truthy(params.search) {
      query.Set("search", params.search.value);
      SearchStep(params);
    }
    assert query.list == SearchPart(params);

    if params.pageIndex.Some? && params.pageSize.Some? {
      query.Set("pageIndex", IntToString(params.pageIndex.value));
      query.Set("pageSize", IntToString(params.pageSize.value));
      PageStep(params);
    }
    assert query.list == SearchPart(params) + PagePart(params);

    if Truthy(params.sortBy) {
      query.Set("sortBy", params.sortBy.value);
      query.Set("sortOrder", OrderName(params.sortOrder.GetOr(Asc)));
      SortStep(params);
    }

    pairs := query.list;
  }
}
