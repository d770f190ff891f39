/**
 The paginated, sorted and filtered user listing. The query descriptors
 (sort, filter) are kept as data; the two repository calls are parameters
 of the operation.
 */
module UsersService {
  import opened Options
  import opened Accounts
  import opened TextSplit

  const Ascending: int := 1
  const Descending: int := -1

  /** The `$options` value of every search filter: case-insensitive matching. */
  const CaseInsensitive: string := "i"

  datatype UserField = Email | Name

  /** A sort descriptor `{<field>: <order>}`. */
  datatype SortSpec = SortSpec(field: UserField, order: int)

  /**
   A filter descriptor: `{}` matches everything, or
   `{<field>: {$regex: <pattern>, $options: <options>}}`; a missing pattern
   is the `undefined` JavaScript puts there when the search has no `':'`.
   */
  datatype Filter = MatchAll | Regex(field: UserField, pattern: Option<string>, options: string)

  /** The arguments handed to the paginated repository query. */
  datatype Query = Query(skip: int, limit: int, sortBy: SortSpec, filterBy: Filter)

  /** The public projection of a user. */
  datatype UserView = UserView(id: string, name: string, email: string)

  datatype Page = Page(
    pageNumber: int,
    pageSize: int,
    count: nat,
    totalPages: nat,
    hasPreviousPage: bool,
    hasNextPage: bool,
    data: seq<UserView>)

  /** The field a sort or search keyword names, if any. */
  function FieldNamed(word: string): (f: Option<UserField>)
    ensures f == Some(Email) <==> word == "email"
    ensures f == Some(Name) <==> word == "name"
  {
    if word == "email" then Some(Email)
    else if word == "name" then Some(Name)
    else None
  }

  /** The order keyword: `desc` is descending; `asc`, anything else or nothing is ascending. */
  function SortOrder(word: Option<string>): (order: int)
    ensures order == Ascending || order == Descending
    ensures order == Descending <==> word == Some("desc")
  {
    if word == Some("asc") then Ascending
    else if word == Some("desc") then Descending
    else Ascending
  }

  /** Reads `<field>:<order>`; an unknown field falls back to email ascending, ignoring the order. */
  function ParseSort(sort: string): (s: SortSpec)
    ensures s.order == Ascending || s.order == Descending
  {
    var parts := Split(sort, ':');
    var order := SortOrder(Part(parts, 1));
    match FieldNamed(parts[0])
    case Some(f) => SortSpec(f, order)
    case None => SortSpec(Email, Ascending)
  }

  /** Reads `<field>:<pattern>`; an unknown field gives the empty filter. */
  function ParseSearch(search: string): (f: Filter)
    ensures f.Regex? ==> f.options == CaseInsensitive
  {
    var parts := Split(search, ':');
    match FieldNamed(parts[0])
    case Some(field) => Regex(field, Part(parts, 1), CaseInsensitive)
    case None => MatchAll
  }

  /** How many records the pages before `pageNumber` hold. */
  function Skip(pageNumber: int, pageSize: int): (r: int)
    ensures r + pageSize == pageNumber * pageSize
    ensures pageNumber >= 1 && pageSize >= 0 ==> r >= 0
  {
    (pageNumber - 1) * pageSize
  }

  /** The repository query for one page. */
  function PlanQuery(pageNumber: int, pageSize: int, sort: string, search: string): (q: Query)
    ensures q.limit == pageSize
    ensures q.skip + q.limit == pageNumber * pageSize
    ensures q.sortBy == ParseSort(sort) && q.filterBy == ParseSearch(search)
  {
    Query(Skip(pageNumber, pageSize), pageSize, ParseSort(sort), ParseSearch(search))
  }

  /** The least number of pages of size `b` that hold `a` records. */
  function CeilDiv(a: nat, b: int): (r: nat)
    requires b >= 1
    ensures (r - 1) * b < a <= r * b
  {
    var q := (a + b - 1) / b;
    assert q * b + (a + b - 1) % b == a + b - 1;
    q
  }

  /** The `{id, name, email}` projection of a user. */
  function View(u: User): UserView
  {
    UserView(u.id, u.name, u.email)
  }

  /** Projects each user to `{id, name, email}`, keeping the order. */
  method ProjectUsers(users: seq<User>) returns (data: seq<UserView>)
    ensures |data| == |users|
    ensures forall i :: 0 <= i < |users| ==> data[i] == View(users[i])
  {
    data := [];
    var i := 0;
    while i < |users|
      invariant 0 <= i <= |users|
      invariant |data| == i
      invariant forall j :: 0 <= j < i ==> data[j] == View(users[j])
    {
      data := data + [View(users[i])];
      i := i + 1;
    }
  }

  lemma MulMonotone(x: int, y: int, s: int)
    requires x <= y && s >= 0
    ensures x * s <= y * s
  {
  }

  /** There is a page after `pageNumber` exactly when some record lies beyond its window. */
  lemma HasNextPageIffRecordsBeyond(pageNumber: int, pageSize: int, totalUsers: nat)
    requires pageSize >= 1
    ensures pageNumber < CeilDiv(totalUsers, pageSize) <==> Skip(pageNumber, pageSize) + pageSize < totalUsers
  {
    var c: int := CeilDiv(totalUsers, pageSize);
    assert Skip(pageNumber, pageSize) + pageSize == pageNumber * pageSize;
    if pageNumber < c {
      MulMonotone(pageNumber, c - 1, pageSize);
    } else {
      MulMonotone(c, pageNumber, pageSize);
    }
  }

  /** There is a page before `pageNumber` exactly when its window does not start at the first record. */
  lemma HasPreviousPageIffSkips(pageNumber: int, pageSize: int)
    requires pageSize >= 1
    ensures pageNumber > 1 <==> Skip(pageNumber, pageSize) > 0
  {
    if pageNumber > 1 {
      MulMonotone(1, pageNumber - 1, pageSize);
    } else {
      MulMonotone(pageNumber - 1, 0, pageSize);
    }
  }

  /**
   One page of the listing. `countUsers` and `paginatedUsers` stand for the
   repository; the result is `None` when the repository returns no list.
   */
  method GetPaginatedUsers(
    pageNumber: int, pageSize: int, sort: string, search: string,
    countUsers: Filter -> nat, paginatedUsers: Query -> Option<seq<User>>)
    returns (page: Option<Page>)
    requires pageSize >= 1
    ensures
      var q := PlanQuery(pageNumber, pageSize, sort, search);
      var total := countUsers(q.filterBy);
      && (page.None? <==> paginatedUsers(q).None?)
      && (page.Some? ==>
            var users := paginatedUsers(q).value;
            var p := page.value;
            && p.pageNumber == (if pageNumber == 0 then 1 else pageNumber)
            && p.pageSize == pageSize
            && p.count == |users| == |p.data|
            && (forall i :: 0 <= i < |users| ==> p.data[i] == View(users[i]))
            && (p.totalPages - 1) * pageSize < total <= p.totalPages * pageSize
            && (p.hasPreviousPage <==> pageNumber > 1)
            && (p.hasPreviousPage <==> q.skip > 0)
            && (p.hasNextPage <==> pageNumber < p.totalPages)
            && (p.hasNextPage <==> q.skip + q.limit < total))
  {
    var q := PlanQuery(pageNumber, pageSize, sort, search);
    var totalUsers := countUsers(q.filterBy);
    var totalPages := CeilDiv(totalUsers, pageSize);
    var users := paginatedUsers(q);
    if users.None? {
      return None;
    }
    var data := ProjectUsers(users.value);
    HasNextPageIffRecordsBeyond(pageNumber, pageSize, totalUsers);
    HasPreviousPageIffSkips(pageNumber, pageSize);
    page := Some(Page(
      if pageNumber == 0 then 1 else pageNumber,
      pageSize,
      |users.value|,
      totalPages,
      pageNumber > 1,
      pageNumber < totalPages,
      data));
  }

  /** A sort text naming a field, then an order keyword, selects that field and order (`desc` descending, else ascending). */
  lemma SortByNamedField(f: string, o: string, tail: string)
    requires FieldNamed(f).Some?
    requires ':' !in o
    requires tail == [] || tail[0] == ':'
    ensures ParseSort(f + [':'] + o + tail) == SortSpec(FieldNamed(f).value, if o == "desc" then Descending else Ascending)
  {
    SecondSegment(f, o, tail);
  }

  /** A sort text that is just a field name sorts on that field ascending. */
  lemma SortByFieldAlone(f: string)
    requires FieldNamed(f).Some?
    ensures ParseSort(f) == SortSpec(FieldNamed(f).value, Ascending)
  {
    SplitNoSeparator(f, ':');
  }

  /** A sort text whose first segment is not a field name sorts on email ascending, whatever follows. */
  lemma SortByUnknownField(f: string, tail: string)
    requires ':' !in f
    requires FieldNamed(f).None?
    requires tail == [] || tail[0] == ':'
    ensures ParseSort(f + tail) == SortSpec(Email, Ascending)
  {
    FirstSegment(f, tail);
  }

  /** A search text naming a field, then a pattern, is a case-insensitive pattern filter on that field. */
  lemma SearchByNamedField(f: string, pattern: string, tail: string)
    requires FieldNamed(f).Some?
    requires ':' !in pattern
    requires tail == [] || tail[0] == ':'
    ensures ParseSearch(f + [':'] + pattern + tail) == Regex(FieldNamed(f).value, Some(pattern), CaseInsensitive)
  {
    SecondSegment(f, pattern, tail);
  }

  /** A search text that is just a field name gives a filter on that field with no pattern. */
  lemma SearchByFieldAlone(f: string)
    requires FieldNamed(f).Some?
    ensures ParseSearch(f) == Regex(FieldNamed(f).value, None, CaseInsensitive)
  {
    SplitNoSeparator(f, ':');
  }

  /** A search text whose first segment is not a field name filters nothing. */
  lemma SearchByUnknownField(f: string, tail: string)
    requires ':' !in f
    requires FieldNamed(f).None?
    requires tail == [] || tail[0] == ':'
    ensures ParseSearch(f + tail) == MatchAll
  {
    FirstSegment(f, tail);
  }

  /** The first piece of `f + tail` is `f` when `tail` is empty or starts with the separator. */
  lemma FirstSegment(f: string, tail: string)
    requires ':' !in f
    requires tail == [] || tail[0] == ':'
    ensures Split(f + tail, ':')[0] == f
  {
    if tail == [] {
      assert f + tail == f;
      SplitNoSeparator(f, ':');
    } else {
      assert f + tail == f + [':'] + tail[1..];
      SplitAtFirst(f, tail[1..], ':');
    }
  }

  /** The first two pieces of `f:s + tail` are `f` and `s`. */
  lemma SecondSegment(f: string, s: string, tail: string)
    requires FieldNamed(f).Some?
    requires ':' !in s
    requires tail == [] || tail[0] == ':'
    ensures Split(f + [':'] + s + tail, ':')[0] == f
    ensures Part(Split(f + [':'] + s + tail, ':'), 1) == Some(s)
  {
    assert ':' !in f;
    assert f + [':'] + s + tail == f + [':'] + (s + tail);
    SplitAtFirst(f, s + tail, ':');
    FirstSegment(s, tail);
  }
}
