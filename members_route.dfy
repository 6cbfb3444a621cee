/** `GET /api/members` of the Next.js variant: a page of five members ordered
    by creation time, projected to id, name, email and creation time, with the
    page metadata. */
module MembersRoute {
  import opened Common
  import opened Schema

  /** `limit`: members per page. */
  const PageSize: nat := 5
  const ServerErrorMessage := "Server error occurred."

  /** One entry of `users`: the projection leaves the password (and every
      other column) out. */
  datatype UserItem = UserItem(id: string, name: Option<string>, email: string, createdAt: int)

  datatype Pagination = Pagination(
    currentPage: int,
    totalPages: nat,
    totalUsers: nat,
    hasNext: bool,
    hasPrev: bool)

  datatype ListResponse =
    | Listed(users: seq<UserItem>, pagination: Pagination)
    | ServerError(error: string)

  function Project(row: MemberRow): UserItem {
    UserItem(row.id, row.name, row.email, row.createdAt)
  }

  function Min(a: int, b: int): int {
    if a <= b then a else b
  }

  predicate SortedByCreatedAt(s: seq<MemberRow>) {
    forall i, j :: 0 <= i < j < |s| ==> s[i].createdAt <= s[j].createdAt
  }

  /** Places `x` after every element created no later than it. The result
      starts with `x` or with the first element of `s`. */
  function InsertByCreatedAt(x: MemberRow, s: seq<MemberRow>): (r: seq<MemberRow>)
    requires SortedByCreatedAt(s)
    ensures SortedByCreatedAt(r)
    ensures multiset(r) == multiset(s) + multiset{x}
    ensures |r| == |s| + 1
    ensures r[0] == x || (s != [] && r[0] == s[0])
  {
    if s == [] then [x]
    else if x.createdAt < s[0].createdAt then
      PrependSorted(x, s);
      [x] + s
    else
      var rest := InsertByCreatedAt(x, s[1..]);
      assert s == [s[0]] + s[1..];
      PrependSorted(s[0], rest);
      [s[0]] + rest
  }

  /** A row created no later than the first row of a sorted sequence can go
      in front of it. */
  lemma PrependSorted(h: MemberRow, s: seq<MemberRow>)
    requires SortedByCreatedAt(s)
    requires s != [] ==> h.createdAt <= s[0].createdAt
    ensures SortedByCreatedAt([h] + s)
  {
    var r := [h] + s;
    forall i, j | 0 <= i < j < |r| ensures r[i].createdAt <= r[j].createdAt {
      assert r[j] == s[j - 1];
      if i > 0 { assert r[i] == s[i - 1]; }
    }
  }

  /** `orderBy(member.createdAt)`: the rows sorted by creation time. Rows
      created at the same instant keep their storage order here; the
      database leaves their order open. */
  function OrderByCreatedAt(rows: seq<MemberRow>): (s: seq<MemberRow>)
    ensures SortedByCreatedAt(s)
    ensures multiset(s) == multiset(rows)
    ensures |s| == |rows|
  {
    if rows == [] then []
    else
      var n := |rows| - 1;
      assert rows == rows[..n] + [rows[n]];
      InsertByCreatedAt(rows[n], OrderByCreatedAt(rows[..n]))
  }

  /** The handler for a parsed `page`. A page below 1 makes the offset
      negative, which the database rejects, so the request fails like any
      other query error; `fault` says whether the database cannot be
      reached. */
  function Get(rows: seq<MemberRow>, page: int, fault: bool): (r: ListResponse)
    ensures page < 1 || fault ==> r == ServerError(ServerErrorMessage)
    ensures page >= 1 && !fault ==> r.Listed?
    ensures r.Listed? ==>
              && r.pagination.currentPage == page
              && r.pagination.totalUsers == |rows|
              && r.pagination.totalPages * PageSize >= |rows|
              && (r.pagination.totalPages == 0 || (r.pagination.totalPages - 1) * PageSize < |rows|)
    ensures r.Listed? ==> (r.pagination.hasNext <==> page * PageSize < |rows|)
    ensures r.Listed? ==> (r.pagination.hasPrev <==> (page - 1) * PageSize > 0)
    ensures r.Listed? ==> |r.users| <= PageSize
    ensures r.Listed? ==> (r.users != [] <==> page <= r.pagination.totalPages)
    ensures r.Listed? ==>
              |r.users| == (if (page - 1) * PageSize >= |rows| then 0 else Min(PageSize, |rows| - (page - 1) * PageSize))
    ensures r.Listed? ==>
              forall k :: 0 <= k < |r.users| ==>
                (page - 1) * PageSize + k < |rows| &&
                r.users[k] == Project(OrderByCreatedAt(rows)[(page - 1) * PageSize + k])
  {
    if page < 1 || fault then ServerError(ServerErrorMessage)
    else
      var offset := (page - 1) * PageSize;
      var totalUsers := |rows|;
      var totalPages := CeilDiv(totalUsers, PageSize);
      var ordered := OrderByCreatedAt(rows);
      var lo := Min(offset, totalUsers);
      var hi := Min(offset + PageSize, totalUsers);
      var users := seq(hi - lo, k requires 0 <= k < hi - lo => Project(ordered[lo + k]));
      Listed(users, Pagination(page, totalPages, totalUsers, page < totalPages, page > 1))
  }

  /** Every member is listed: the member at position `j` of the creation
      order is entry `j % 5` of page `j / 5 + 1`. */
  lemma EveryMemberOnItsPage(rows: seq<MemberRow>, j: nat)
    requires j < |rows|
    ensures var r := Get(rows, j / PageSize + 1, false);
            && r.Listed?
            && j % PageSize < |r.users|
            && r.users[j % PageSize] == Project(OrderByCreatedAt(rows)[j])
  {
    var page := j / PageSize + 1;
    var offset := PagePosition(j);
    var r := Get(rows, page, false);
    assert offset + j % PageSize == j;
  }

  /** Where page `j / 5 + 1` starts: at `j` minus its remainder. */
  lemma PagePosition(j: nat) returns (offset: int)
    ensures offset == (j / PageSize + 1 - 1) * PageSize
    ensures 0 <= offset <= j && j == offset + j % PageSize && j % PageSize < PageSize
  {
    offset := (j / PageSize + 1 - 1) * PageSize;
    assert offset == (j / PageSize) * PageSize;
  }

  /** Twelve members: page 1 is full with a next page and no previous one;
      page 3 holds the remaining two, with a previous page and no next one. */
  lemma TwelveMembers(rows: seq<MemberRow>)
    requires |rows| == 12
    ensures var p1 := Get(rows, 1, false);
            p1.Listed? && |p1.users| == 5 && p1.pagination.totalPages == 3
            && p1.pagination.hasNext && !p1.pagination.hasPrev
    ensures var p3 := Get(rows, 3, false);
            p3.Listed? && |p3.users| == 2 && p3.pagination.totalPages == 3
            && !p3.pagination.hasNext && p3.pagination.hasPrev
  {
  }
}
