/**
  The mock back end of `hooks/useApi.ts`: an in-memory table of users that `fetchUsers` searches,
  sorts and pages, and that `updateUser` and `deleteUser` change in place.
*/
module Api {
  import opened Wrappers
  import opened Text
  import opened GridTypes
  import opened GridHelpers
  import opened IntMath

  /** The request: `filters` is part of the type but `fetchUsers` never reads it, so it is not modelled. */
  datatype PaginationParams = PaginationParams(
    page: int,
    pageSize: int,
    sortBy: Option<string>,
    sortOrder: Option<Direction>,
    search: Option<string>)

  /** The response; `totalPages` is `None` where `Math.ceil(total / pageSize)` is not a finite number (`pageSize` of 0). */
  datatype ApiResponse = ApiResponse(
    data: seq<User>,
    total: int,
    page: int,
    pageSize: int,
    totalPages: Option<int>)

  /** `Math.ceil(total / pageSize)` for a nonzero divisor, of either sign. */
  function CeilQuotient(total: int, pageSize: int): (r: Option<int>)
    ensures pageSize == 0 <==> r.None?
    ensures pageSize > 0 ==> r == Some(CeilDiv(total, pageSize))
    ensures pageSize != 0 ==> Abs(pageSize) * r.value - Abs(pageSize) < Sign(pageSize) * total <= Abs(pageSize) * r.value
  {
    if pageSize == 0 then None
    else if pageSize > 0 then
      CeilDivBounds(total, pageSize);
      Some(CeilDiv(total, pageSize))
    else
      CeilDivBounds(-total, -pageSize);
      Some(CeilDiv(-total, -pageSize))
  }

  function Abs(n: int): nat {
    if n < 0 then -n else n
  }

  function Sign(n: int): int {
    if n < 0 then -1 else 1
  }

  /** `if (params.search)`: only a present, non-empty query triggers the search pass. */
  predicate Searching(params: PaginationParams) {
    params.search.Some? && params.search.value != ""
  }

  /** `if (params.sortBy && params.sortOrder)`: an empty field name does not sort. */
  predicate Sorting(params: PaginationParams) {
    params.sortBy.Some? && params.sortBy.value != "" && params.sortOrder.Some?
  }

  /** The rows after the search and sort steps of `fetchUsers`, before paging. */
  function Ordered(users: seq<User>, params: PaginationParams): seq<User> {
    var searched := if Searching(params) then Survivors(users, [], params.search.value) else users;
    if Sorting(params) then SortData(searched, [SortKey(params.sortBy.value, params.sortOrder.value)]) else searched
  }

  /** The response `fetchUsers` resolves to. */
  function Fetch(users: seq<User>, params: PaginationParams): ApiResponse {
    var rows := Ordered(users, params);
    ApiResponse(PaginateData(rows, params.page, params.pageSize), |rows|, params.page, params.pageSize,
                CeilQuotient(|rows|, params.pageSize))
  }

  /**
    `mockUsers.findIndex((user) => user.id === Number.parseInt(id))`: the first user with the parsed
    id; a string that does not parse (`NaN`) matches nobody.
  */
  function FindUser(users: seq<User>, key: Option<int>): (r: Option<nat>)
    ensures r.Some? ==> key.Some? && r.value < |users| && users[r.value].id == key.value
    ensures r.Some? ==> forall j | 0 <= j < r.value :: users[j].id != key.value
    ensures r.None? ==> key.None? || forall j | 0 <= j < |users| :: users[j].id != key.value
    decreases |users|
  {
    if key.None? || users == [] then None
    else if users[0].id == key.value then Some(0)
    else match FindUser(users[1..], key)
      case None => None
      case Some(i) => Some(i + 1)
  }

  const NotFound := "User not found"

  /** The module-level `mockUsers` array. */
  class MockApi {
    var users: seq<User>

    /** `generateMockUsers(1000)` is not modelled: the table starts from the given rows. */
    constructor(initial: seq<User>)
      ensures users == initial
    {
      users := initial;
    }

    /** `fetchUsers`: works on a copy of the table, which it never changes. */
    method FetchUsers(params: PaginationParams) returns (resp: ApiResponse)
      ensures resp == Fetch(users, params)
    {
      var rows := users;
      if Searching(params) {
        rows := FilterData(rows, [], params.search.value);
      }
      if Sorting(params) {
        rows := SortData(rows, [SortKey(params.sortBy.value, params.sortOrder.value)]);
      }
      var total := |rows|;
      resp := ApiResponse(PaginateData(rows, params.page, params.pageSize), total, params.page, params.pageSize,
                          CeilQuotient(total, params.pageSize));
    }

    /** `updateUser`: merges the patch into the first user with the parsed id, or fails with "User not found". */
    method UpdateUser(id: string, patch: UserPatch) returns (r: Result<User>)
      modifies this
      ensures match FindUser(old(users), ParseInt(id))
              case None => r == Err(NotFound) && users == old(users)
              case Some(i) => users == old(users)[i := Merge(old(users)[i], patch)] && r == Ok(users[i])
    {
      var index := FindUser(users, ParseInt(id));
      if index.None? {
        return Err(NotFound);
      }
      var i := index.value;
      users := users[i := Merge(users[i], patch)];
      r := Ok(users[i]);
    }

    /** `deleteUser`: splices out the first user with the parsed id, or fails with "User not found". */
    method DeleteUser(id: string) returns (r: Outcome)
      modifies this
      ensures match FindUser(old(users), ParseInt(id))
              case None => r == Fail(NotFound) && users == old(users)
              case Some(i) => users == old(users)[..i] + old(users)[i + 1..] && r == Pass
    {
      var index := FindUser(users, ParseInt(id));
      if index.None? {
        return Fail(NotFound);
      }
      var i := index.value;
      users := users[..i] + users[i + 1..];
      r := Pass;
    }
  }

  // ===========================================================================
  // Properties
  // ===========================================================================

  /** The rows matching the search, before sorting. */
  function Matching(users: seq<User>, params: PaginationParams): seq<User> {
    if Searching(params) then Survivors(users, [], params.search.value) else users
  }

  /**
    The sort step rearranges the matching rows and, on any field but the optional `avatar`, puts
    them in order of that key with ties kept in table order.
  */
  lemma OrderedSpec(users: seq<User>, params: PaginationParams)
    ensures multiset(Ordered(users, params)) == multiset(Matching(users, params))
    ensures !Sorting(params) ==> Ordered(users, params) == Matching(users, params)
    ensures Sorting(params) && params.sortBy.value != "avatar" ==>
              var model := [SortKey(params.sortBy.value, params.sortOrder.value)];
              && Sorted(Ordered(users, params), model)
              && forall k :: Ties(Ordered(users, params), k, model) == Ties(Matching(users, params), k, model)
  {
    if Sorting(params) {
      var model := [SortKey(params.sortBy.value, params.sortOrder.value)];
      SortDataSpec(Matching(users, params), model);
      if params.sortBy.value != "avatar" {
        assert KeysConsistent(model);
      }
    }
  }

  /**
    `total` counts the rows matching the search, in any order, and `data` is the page of the sorted
    rows: for a page from 1 on and a nonnegative page size, the window at `(page - 1) * pageSize`
    of at most `pageSize` rows; page and page size are echoed.
  */
  lemma FetchSpec(users: seq<User>, params: PaginationParams)
    ensures var resp := Fetch(users, params);
            var rows := Ordered(users, params);
            && multiset(rows) == multiset(Matching(users, params))
            && resp.total == |Matching(users, params)|
            && resp.page == params.page && resp.pageSize == params.pageSize
            && resp.totalPages == CeilQuotient(resp.total, params.pageSize)
            && (params.page >= 1 && params.pageSize >= 0 ==>
                  var start := (params.page - 1) * params.pageSize;
                  && |resp.data| <= params.pageSize
                  && (start < |rows| ==> resp.data == rows[start..Min(params.page * params.pageSize, |rows|)])
                  && (start >= |rows| ==> resp.data == []))
  {
    OrderedSpec(users, params);
    var rows := Ordered(users, params);
    assert |rows| == |multiset(rows)| == |Matching(users, params)|;
    if params.page >= 1 && params.pageSize >= 0 {
      PaginateWindow(rows, params.page, params.pageSize);
    }
  }

  /** Every row of a response is a table row that matches the search. */
  lemma FetchRowsMatch(users: seq<User>, params: PaginationParams, x: User)
    requires x in Fetch(users, params).data
    ensures x in users
    ensures Searching(params) ==> SearchHit(x, params.search.value)
  {
    var matching := Matching(users, params);
    var rows := Ordered(users, params);
    OrderedSpec(users, params);
    SliceMembers(rows, (params.page - 1) * params.pageSize, params.page * params.pageSize);
    assert x in rows;
    assert x in multiset(matching);
    if Searching(params) {
      SurvivorsMembers(users, [], params.search.value, x);
    }
  }

  /** An update that keeps the id leaves the user findable at the same place; every other user is untouched. */
  lemma UpdateKeepsPlace(users: seq<User>, key: int, patch: UserPatch)
    requires FindUser(users, Some(key)).Some?
    requires patch.id.None? || patch.id == Some(key)
    ensures var i := FindUser(users, Some(key)).value;
            FindUser(users[i := Merge(users[i], patch)], Some(key)) == Some(i)
  {
    var i := FindUser(users, Some(key)).value;
    var updated := users[i := Merge(users[i], patch)];
    FindFirst(updated, key, i);
  }

  /** A user at `i` whose predecessors all have other ids is what `findIndex` returns. */
  lemma {:induction false} FindFirst(users: seq<User>, key: int, i: nat)
    requires i < |users| && users[i].id == key
    requires forall j | 0 <= j < i :: users[j].id != key
    ensures FindUser(users, Some(key)) == Some(i)
    decreases i
  {
    if i > 0 {
      FindFirst(users[1..], key, i - 1);
    }
  }

  predicate DistinctIds(users: seq<User>) {
    forall i, j | 0 <= i < j < |users| :: users[i].id != users[j].id
  }

  /**
    Deleting removes one row and keeps the rest in order; when ids are distinct the deleted id can
    no longer be found, so a second delete of the same id fails.
  */
  lemma DeleteRemovesUser(users: seq<User>, key: int)
    requires FindUser(users, Some(key)).Some?
    ensures var i := FindUser(users, Some(key)).value;
            var rest := users[..i] + users[i + 1..];
            && |rest| == |users| - 1
            && multiset(rest) + multiset{users[i]} == multiset(users)
            && (DistinctIds(users) ==> FindUser(rest, Some(key)).None?)
  {
    var i := FindUser(users, Some(key)).value;
    var rest := users[..i] + users[i + 1..];
    assert users == users[..i] + [users[i]] + users[i + 1..];
  }
}
