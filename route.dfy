/**
  The user query handler, `GET` on /api/users: it reads the query parameters,
  keeps the users whose name or email contains the search text, sorts them
  in place by one field when asked, counts them, and returns one page of them
  together with that count.
 */
module UsersRoute {
  import opened Optional
  import opened JsString
  import opened JsNumber
  import opened JsArray
  import opened Api
  import opened UserSort
  import SearchParams

  /** The query parameters after defaulting and parsing. */
  datatype Request = Request(
    search: string,           // lower-cased; "" when absent
    sortBy: Option<string>,   // None when absent
    sortOrder: string,        // "asc" when absent
    pageIndex: Num,
    pageSize: Num)

  /** The response body: one page of users and the number of users that matched. */
  datatype Response = Response(data: seq<User>, total: int)

  /**
    The parameters read from the query string: the search text lower-cased,
    an absent sort order taken as "asc", and an absent or empty page index
    or page size taken as "0" or "10" before parseInt.
   */
  function ParseRequest(params: seq<SearchParams.Pair>): (r: Request)
    ensures forall i :: 0 <= i < |r.search| ==> !IsUpper(r.search[i])
    ensures SearchParams.Get(params, "search").None? ==> r.search == ""
    ensures SearchParams.Get(params, "sortOrder").None? ==> r.sortOrder == "asc"
    ensures !Truthy(SearchParams.Get(params, "pageIndex")) ==> r.pageIndex == Int(0)
    ensures !Truthy(SearchParams.Get(params, "pageSize")) ==> r.pageSize == Int(10)
  {
    ParseIntDefaults();
    var search := SearchParams.Get(params, "search");
    Request(
      if search.Some? then ToLowerCase(search.value) else "",
      SearchParams.Get(params, "sortBy"),
      SearchParams.Get(params, "sortOrder").GetOr("asc"),
      ParseInt(OrElse(SearchParams.Get(params, "pageIndex"), "0")),
      ParseInt(OrElse(SearchParams.Get(params, "pageSize"), "10")))
  }

  /** The filter's test: the lower-cased name or the lower-cased email contains the search text. */
  predicate Matches(u: User, search: string)
  {
    Includes(ToLowerCase(u.name), search) || Includes(ToLowerCase(u.email), search)
  }

  /** `users.filter(...)`: the users that match, in their original order. */
  function FilterUsers(users: seq<User>, search: string): seq<User>
  {
    if users == [] then []
    else
      var last := users[|users| - 1];
      FilterUsers(users[..|users| - 1], search) + (if Matches(last, search) then [last] else [])
  }

  /** `filteredUsers` after the filter step: the loaded users themselves when the search text is empty. */
  function Filtered(users: seq<User>, search: string): seq<User>
  {
    if search != "" then FilterUsers(users, search) else users
  }

  /** The positions of the users that match. */
  function MatchingIndices(users: seq<User>, search: string): set<int>
  {
    set i | 0 <= i < |users| && Matches(users[i], search)
  }

  /** `r` is `s` with some elements deleted: the elements of `r` appear in `s` in the same order. */
  predicate IsSubsequence(r: seq<User>, s: seq<User>)
  {
    if r == [] then true
    else if s == [] then false
    else (r[|r| - 1] == s[|s| - 1] && IsSubsequence(r[..|r| - 1], s[..|s| - 1]))
         || IsSubsequence(r, s[..|s| - 1])
  }

  /** A user is kept exactly when it is one of the users and it matches. */
  lemma {:induction false} FilterMembership(users: seq<User>, search: string, u: User)
    ensures u in FilterUsers(users, search) <==> u in users && Matches(u, search)
  {
    if users != [] {
      var front := users[..|users| - 1];
      FilterMembership(front, search, u);
      assert users == front + [users[|users| - 1]];
    }
  }

  /** The kept users stay in their original relative order. */
  lemma {:induction false} FilterKeepsOrder(users: seq<User>, search: string)
    ensures IsSubsequence(FilterUsers(users, search), users)
  {
    if users != [] {
      var front := users[..|users| - 1];
      var kept := FilterUsers(users, search);
      FilterKeepsOrder(front, search);
      if Matches(users[|users| - 1], search) {
        assert kept[..|kept| - 1] == FilterUsers(front, search);
      } else if kept != [] {
        assert kept == FilterUsers(front, search);
      }
    }
  }

  /** The matching positions of a longer list: those of its front, and the last one if it matches. */
  lemma MatchingIndicesSnoc(users: seq<User>, search: string)
    requires users != []
    ensures var n := |users|;
      MatchingIndices(users, search)
      == MatchingIndices(users[..n - 1], search) + (if Matches(users[n - 1], search) then {n - 1} else {})
  {
    var n := |users|;
    var front := users[..n - 1];
    forall i | 0 <= i < n - 1
      ensures Matches(users[i], search) == Matches(front[i], search)
    {
      assert front[i] == users[i];
    }
  }

  /** The filter keeps as many users as there are positions that match. */
  lemma {:induction false} FilterCount(users: seq<User>, search: string)
    ensures |FilterUsers(users, search)| == |MatchingIndices(users, search)|
  {
    if users != [] {
      var n := |users|;
      var front := users[..n - 1];
      FilterCount(front, search);
      MatchingIndicesSnoc(users, search);
      assert n - 1 !in MatchingIndices(front, search);
    }
  }

  /** An empty search text matches every user, so the filter would keep them all in order. */
  lemma {:induction false} EmptySearchKeepsAll(users: seq<User>)
    ensures FilterUsers(users, "") == users
  {
    if users != [] {
      EmptySearchKeepsAll(users[..|users| - 1]);
      assert users == users[..|users| - 1] + [users[|users| - 1]];
    }
  }

  /** The users in the order the handler leaves them: filtered, then sorted when sortBy is a non-empty string. */
  function Arrange(users: seq<User>, req: Request): seq<User>
  {
    var filtered := Filtered(users, req.search);
    if Truthy(req.sortBy) then SortUsers(filtered, req.sortBy.value, req.sortOrder) else filtered
  }

  /** The response to a request over the loaded users. */
  function Respond(users: seq<User>, req: Request): Response
  {
    var list := Arrange(users, req);
    var start := Mul(req.pageIndex, req.pageSize);
    Response(Slice(list, start, Add(start, req.pageSize)), |list|)
  }

  /** `users.filter(...)`: a new array holding the users that match. */
  method FilterArray(users: array<User>, search: string) returns (kept: array<User>)
    ensures fresh(kept)
    ensures kept[..] == FilterUsers(users[..], search)
  {
    var matching := FilterUsers(users[..], search);
    kept := new User[|matching|](i requires 0 <= i < |matching| => matching[i]);
    assert kept[..] == matching;
  }

  /**
    `GET`: the handler over the loaded users. With an empty search text
    `filteredUsers` is the loaded array itself, so the sort reorders it.
   */
  method Get(users: array<User>, params: seq<SearchParams.Pair>) returns (res: Response)
    modifies users
    ensures res == Respond(old(users[..]), ParseRequest(params))
    ensures var req := ParseRequest(params);
      users[..] == if req.search == "" && Truthy(req.sortBy)
                   then SortUsers(old(users[..]), req.sortBy.value, req.sortOrder)
                   else old(users[..])
  {
    var req := ParseRequest(params);
    ghost var loaded := users[..];

    var filteredUsers := users;
    if req.search != "" {
      filteredUsers := FilterArray(users, req.search);
    }
    assert filteredUsers[..] == Filtered(loaded, req.search);

    if Truthy(req.sortBy) {
      SortInPlace(filteredUsers, req.sortBy.value, req.sortOrder);
    }
    ghost var arranged := Arrange(loaded, req);
    assert filteredUsers[..] == arranged;

    var total := filteredUsers.Length;

    var start := Mul(req.pageIndex, req.pageSize);
    var paginatedUsers := Slice(filteredUsers[..], start, Add(start, req.pageSize));

    res := Response(paginatedUsers, total);
  }

  /** `total` counts the loaded users that match the search text, whatever the page asked for. */
  lemma TotalIsMatchCount(users: seq<User>, req: Request)
    ensures Respond(users, req).total == |MatchingIndices(users, req.search)|
  {
    var filtered := Filtered(users, req.search);
    if Truthy(req.sortBy) {
      SortUsersPermutes(filtered, req.sortBy.value, req.sortOrder);
    }
    if req.search == "" {
      EmptySearchKeepsAll(users);
    }
    FilterCount(users, req.search);
  }

  /** The sorted list is a permutation of the filtered users, and without sortBy it is the filtered users. */
  lemma ArrangePermutes(users: seq<User>, req: Request)
    ensures multiset(Arrange(users, req)) == multiset(Filtered(users, req.search))
    ensures !Truthy(req.sortBy) ==> Arrange(users, req) == Filtered(users, req.search)
  {
    if Truthy(req.sortBy) {
      SortUsersPermutes(Filtered(users, req.search), req.sortBy.value, req.sortOrder);
    }
  }

  /**
    For a page index of at least 0 and a page size of at least 1, the page is
    the run of the sorted list that starts at `pageIndex * pageSize`, at most
    `pageSize` long, and empty once that start is at or past `total`.
   */
  lemma PageWindow(users: seq<User>, req: Request, pageIndex: int, pageSize: int)
    requires req.pageIndex == Int(pageIndex) && req.pageSize == Int(pageSize)
    requires pageIndex >= 0 && pageSize >= 1
    ensures pageIndex * pageSize >= 0
    ensures var r := Respond(users, req);
      var start := pageIndex * pageSize;
      && (start >= r.total ==> r.data == [])
      && (start < r.total ==> r.data == Arrange(users, req)[start..if start + pageSize < r.total then start + pageSize else r.total])
      && |r.data| == if start >= r.total then 0 else if pageSize < r.total - start then pageSize else r.total - start
  {
    ProductNonNegative(pageIndex, pageSize);
    PageAt(users, req, pageIndex * pageSize, pageSize);
  }

  lemma ProductNonNegative(a: int, b: int)
    requires a >= 0 && b >= 0
    ensures a * b >= 0
  {
  }

  /** The page for a start position that the page index and size give as an integer. */
  lemma PageAt(users: seq<User>, req: Request, start: int, pageSize: int)
    requires Mul(req.pageIndex, req.pageSize) == Int(start) && req.pageSize == Int(pageSize)
    requires start >= 0 && pageSize >= 1
    ensures var r := Respond(users, req);
      && (start >= r.total ==> r.data == [])
      && (start < r.total ==> r.data == Arrange(users, req)[start..if start + pageSize < r.total then start + pageSize else r.total])
      && |r.data| == if start >= r.total then 0 else if pageSize < r.total - start then pageSize else r.total - start
  {
    var list := Arrange(users, req);
    assert Add(Int(start), req.pageSize) == Int(start + pageSize);
    assert Respond(users, req) == Response(Slice(list, Int(start), Int(start + pageSize)), |list|);
    SliceWindow(list, start, pageSize);
  }

  /** A page index or page size that parseInt reads as NaN gives an empty page. */
  lemma NonNumericPageIsEmpty(users: seq<User>, req: Request)
    requires req.pageIndex == NaN || req.pageSize == NaN
    ensures Respond(users, req).data == []
  {
  }

  /**
    The handler reads back what the client library sends: the search text
    (lower-cased), the sort field, the sort order ("asc" when the client left
    it out), and the page index and size, or their defaults 0 and 10 when the
    client did not send both.
   */
  lemma RequestRoundTrip(p: FetchUsersParams)
    ensures var r := ParseRequest(QueryPairs(p));
      && r.search == (if Truthy(p.search) then ToLowerCase(p.search.value) else "")
      && r.sortBy == (if Truthy(p.sortBy) then p.sortBy else None)
      && r.sortOrder == (if Truthy(p.sortBy) then OrderName(p.sortOrder.GetOr(Asc)) else "asc")
      && r.pageIndex == Int(if SendsPage(p) then p.pageIndex.value else 0)
      && r.pageSize == Int(if SendsPage(p) then p.pageSize.value else 10)
  {
    QueryPairsSearch(p);
    QueryPairsPage(p);
    QueryPairsSort(p);
    ParseIntDefaults();
    if SendsPage(p) {
      ParseIntOfIntToString(p.pageIndex.value);
      ParseIntOfIntToString(p.pageSize.value);
    }
  }
}
