/** The Authors table and the read-only queries of AuthorsService:
    `findOne` and `findAll`, plus the records that `create` and `update`
    build before saving them. */
module Authors {
  import opened Common
  import opened Matching
  import opened Paging

  /** A row of the Authors table. `createdAt` and `updatedAt` are readings
      of the store's save counter. */
  datatype Author = Author(
    id: Id,
    firstName: string,
    lastName: string,
    bio: Option<string>,
    birthDate: Option<Date>,
    createdAt: nat,
    updatedAt: nat)

  datatype CreateAuthorDto = CreateAuthorDto(
    firstName: string,
    lastName: string,
    bio: Option<string>,
    birthDate: Option<Date>)

  /** A patch: only the fields that are present are assigned. */
  datatype UpdateAuthorDto = UpdateAuthorDto(
    firstName: Option<string>,
    lastName: Option<string>,
    bio: Option<string>,
    birthDate: Option<Date>)

  datatype QueryAuthorDto = QueryAuthorDto(
    page: Option<Positive>,
    limit: Option<Positive>,
    firstName: Option<string>,
    lastName: Option<string>)

  /** Every row is stored under its own id. */
  ghost predicate Keyed(authors: map<Id, Author>) {
    forall k :: k in authors ==> authors[k].id == k
  }

  /** No two rows were created at the same moment. */
  ghost predicate DistinctCreation(authors: map<Id, Author>) {
    forall k, l :: k in authors && l in authors && k != l ==> authors[k].createdAt != authors[l].createdAt
  }

  /** The table as the store keeps it when its save counter reads `clock`. */
  ghost predicate Stored(authors: map<Id, Author>, clock: nat) {
    && Keyed(authors)
    && DistinctCreation(authors)
    && (forall k :: k in authors ==> authors[k].createdAt <= authors[k].updatedAt < clock)
  }

  /** `repository.create(dto)` saved at time `now` under the generated `id`. */
  function Build(id: Id, dto: CreateAuthorDto, now: nat): Author {
    Author(id, dto.firstName, dto.lastName, dto.bio, dto.birthDate, now, now)
  }

  /** `Object.assign(author, patch)` saved at time `now`. */
  function Merge(a: Author, patch: UpdateAuthorDto, now: nat): Author {
    a.(firstName := patch.firstName.GetOr(a.firstName),
       lastName := patch.lastName.GetOr(a.lastName),
       bio := if patch.bio.Some? then patch.bio else a.bio,
       birthDate := if patch.birthDate.Some? then patch.birthDate else a.birthDate,
       updatedAt := now)
  }

  /** `findOne(id)`: the author stored under `id`, or NotFound. */
  function FindOne(authors: map<Id, Author>, id: Id): (r: Result<Author>)
    requires Keyed(authors)
    ensures r.Err? <==> id !in authors
    ensures r.Err? ==> r.error == NotFound
    ensures r.Ok? ==> r.value.id == id && r.value in authors.Values
  {
    if id in authors then Ok(authors[id]) else Err(NotFound)
  }

  /** The `where` object of `findAll`: each name filter that is given and
      non-empty must occur in that name, ignoring case. */
  predicate Matches(a: Author, q: QueryAuthorDto) {
    TextFilter(q.firstName, a.firstName) && TextFilter(q.lastName, a.lastName)
  }

  ghost function MatchingIds(authors: map<Id, Author>, q: QueryAuthorDto): set<Id> {
    set k | k in authors && Matches(authors[k], q)
  }

  /** The matching authors created after time `t`. */
  ghost function NewerMatches(authors: map<Id, Author>, q: QueryAuthorDto, t: nat): set<Id> {
    set k | k in authors && Matches(authors[k], q) && authors[k].createdAt > t
  }

  ghost function Created(authors: map<Id, Author>): map<Id, nat> {
    map k | k in authors :: authors[k].createdAt
  }

  lemma CreatedIsDistinct(authors: map<Id, Author>, keys: set<Id>)
    requires DistinctCreation(authors) && keys <= authors.Keys
    ensures keys <= Created(authors).Keys && DistinctStamps(Created(authors), keys)
  {
  }

  /** The records behind a page of keys inherit its order and ranks. */
  lemma PageRecords(authors: map<Id, Author>, q: QueryAuthorDto, ids: seq<Id>, data: seq<Author>, skip: nat)
    requires Keyed(authors)
    requires forall i :: 0 <= i < |ids| ==> ids[i] in MatchingIds(authors, q)
    requires forall i :: 0 <= i < |ids| ==> |Newer(Created(authors), MatchingIds(authors, q), ids[i])| == skip + i
    requires NewestFirst(Created(authors), ids)
    requires |data| == |ids| && forall i :: 0 <= i < |ids| ==> data[i] == authors[ids[i]]
    ensures forall i :: 0 <= i < |data| ==>
      data[i].id in authors && authors[data[i].id] == data[i] && Matches(data[i], q)
    ensures forall i :: 0 <= i < |data| ==> |NewerMatches(authors, q, data[i].createdAt)| == skip + i
    ensures forall i, j :: 0 <= i < j < |data| ==> data[i].createdAt > data[j].createdAt
  {
    forall i | 0 <= i < |data|
      ensures |NewerMatches(authors, q, data[i].createdAt)| == skip + i
    {
      assert Newer(Created(authors), MatchingIds(authors, q), ids[i]) == NewerMatches(authors, q, data[i].createdAt);
    }
  }

  /** `findAll(query)`: page and limit default to 1 and 10; `total` counts
      every matching author; `data` holds at most `limit` matching authors,
      newest first, the i-th of them having exactly `(page - 1) * limit + i`
      newer matches, so the first `(page - 1) * limit` matches are skipped. */
  ghost function FindAll(authors: map<Id, Author>, q: QueryAuthorDto): (r: Page<Author>)
    requires Keyed(authors) && DistinctCreation(authors)
    ensures r.page == q.page.GetOr(DefaultPage) && r.limit == q.limit.GetOr(DefaultLimit)
    ensures r.total == |MatchingIds(authors, q)|
    ensures |r.data| == Min(r.limit, Max(0, r.total - Skip(r.page, r.limit)))
    ensures forall i :: 0 <= i < |r.data| ==>
      r.data[i].id in authors && authors[r.data[i].id] == r.data[i] && Matches(r.data[i], q)
    ensures forall i :: 0 <= i < |r.data| ==>
      |NewerMatches(authors, q, r.data[i].createdAt)| == Skip(r.page, r.limit) + i
    ensures forall i, j :: 0 <= i < j < |r.data| ==> r.data[i].createdAt > r.data[j].createdAt
  {
    var page := q.page.GetOr(DefaultPage);
    var limit := q.limit.GetOr(DefaultLimit);
    var keys := MatchingIds(authors, q);
    CreatedIsDistinct(authors, keys);
    var ids := PageOf(Created(authors), keys, page, limit);
    var data := seq(|ids|, i requires 0 <= i < |ids| => authors[ids[i]]);
    PageRecords(authors, q, ids, data, Skip(page, limit));
    Page(data, |keys|, page, limit)
  }
}
