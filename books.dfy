/** The books table and the read-only queries of BooksService: `findOne`
    and `findAll`, the lookups its checks rely on, and the records that
    `create` and `update` build before saving them. */
module Books {
  import opened Common
  import opened Matching
  import opened Paging

  /** A row of the books table. `createdAt` and `updatedAt` are readings of
      the store's save counter. */
  datatype Book = Book(
    id: Id,
    title: string,
    isbn: string,
    publishedDate: Option<Date>,
    genre: Option<string>,
    authorId: Id,
    createdAt: nat,
    updatedAt: nat)

  datatype CreateBookDto = CreateBookDto(
    title: string,
    isbn: string,
    publishedDate: Option<Date>,
    genre: Option<string>,
    authorId: Id)

  /** A patch: only the fields that are present are assigned. */
  datatype UpdateBookDto = UpdateBookDto(
    title: Option<string>,
    isbn: Option<string>,
    publishedDate: Option<Date>,
    genre: Option<string>,
    authorId: Option<Id>)

  datatype QueryBookDto = QueryBookDto(
    page: Option<Positive>,
    limit: Option<Positive>,
    title: Option<string>,
    isbn: Option<string>,
    authorId: Option<Id>)

  /** What request validation guarantees of a patch: an ISBN, when given,
      is a valid ISBN and so not empty. */
  predicate ValidPatch(patch: UpdateBookDto) {
    patch.isbn.Some? ==> patch.isbn.value != []
  }

  /** Every row is stored under its own id. */
  ghost predicate Keyed(books: map<Id, Book>) {
    forall k :: k in books ==> books[k].id == k
  }

  /** No two rows were created at the same moment. */
  ghost predicate DistinctCreation(books: map<Id, Book>) {
    forall k, l :: k in books && l in books && k != l ==> books[k].createdAt != books[l].createdAt
  }

  /** The table as the store keeps it when its save counter reads `clock`. */
  ghost predicate Stored(books: map<Id, Book>, clock: nat) {
    && Keyed(books)
    && DistinctCreation(books)
    && (forall k :: k in books ==> books[k].createdAt <= books[k].updatedAt < clock)
  }

  /** `repository.create(dto)` saved at time `now` under the generated `id`. */
  function Build(id: Id, dto: CreateBookDto, now: nat): Book {
    Book(id, dto.title, dto.isbn, dto.publishedDate, dto.genre, dto.authorId, now, now)
  }

  /** `Object.assign(book, patch)` saved at time `now`. */
  function Merge(b: Book, patch: UpdateBookDto, now: nat): Book {
    b.(title := patch.title.GetOr(b.title),
       isbn := patch.isbn.GetOr(b.isbn),
       publishedDate := if patch.publishedDate.Some? then patch.publishedDate else b.publishedDate,
       genre := if patch.genre.Some? then patch.genre else b.genre,
       authorId := patch.authorId.GetOr(b.authorId),
       updatedAt := now)
  }

  /** `findOne({ where: { isbn } })` finds a row. */
  predicate IsbnTaken(books: map<Id, Book>, isbn: string) {
    exists k :: k in books && books[k].isbn == isbn
  }

  /** The guard of the ISBN re-check in `update`: an ISBN is given, is not
      empty, and differs from the book's current one. */
  predicate ChangesIsbn(b: Book, patch: UpdateBookDto) {
    patch.isbn.Some? && patch.isbn.value != [] && patch.isbn.value != b.isbn
  }

  /** The `books` relation of an author: the books whose `authorId` names it. */
  function BooksOf(books: map<Id, Book>, authorId: Id): set<Id> {
    set k | k in books && books[k].authorId == authorId
  }

  /** `findOne(id)`: the book stored under `id`, or NotFound. */
  function FindOne(books: map<Id, Book>, id: Id): (r: Result<Book>)
    requires Keyed(books)
    ensures r.Err? <==> id !in books
    ensures r.Err? ==> r.error == NotFound
    ensures r.Ok? ==> r.value.id == id && r.value in books.Values
  {
    if id in books then Ok(books[id]) else Err(NotFound)
  }

  /** The `where` object of `findAll`: title and ISBN filters that are given
      and non-empty must occur in the field, ignoring case; an author filter
      that is given must equal the book's author. */
  predicate Matches(b: Book, q: QueryBookDto) {
    && TextFilter(q.title, b.title)
    && TextFilter(q.isbn, b.isbn)
    && (q.authorId.Some? ==> b.authorId == q.authorId.value)
  }

  ghost function MatchingIds(books: map<Id, Book>, q: QueryBookDto): set<Id> {
    set k | k in books && Matches(books[k], q)
  }

  /** The matching books created after time `t`. */
  ghost function NewerMatches(books: map<Id, Book>, q: QueryBookDto, t: nat): set<Id> {
    set k | k in books && Matches(books[k], q) && books[k].createdAt > t
  }

  ghost function Created(books: map<Id, Book>): map<Id, nat> {
    map k | k in books :: books[k].createdAt
  }

  lemma CreatedIsDistinct(books: map<Id, Book>, keys: set<Id>)
    requires DistinctCreation(books) && keys <= books.Keys
    ensures keys <= Created(books).Keys && DistinctStamps(Created(books), keys)
  {
  }

  /** The records behind a page of keys inherit its order and ranks. */
  lemma PageRecords(books: map<Id, Book>, q: QueryBookDto, ids: seq<Id>, data: seq<Book>, skip: nat)
    requires Keyed(books)
    requires forall i :: 0 <= i < |ids| ==> ids[i] in MatchingIds(books, q)
    requires forall i :: 0 <= i < |ids| ==> |Newer(Created(books), MatchingIds(books, q), ids[i])| == skip + i
    requires NewestFirst(Created(books), ids)
    requires |data| == |ids| && forall i :: 0 <= i < |ids| ==> data[i] == books[ids[i]]
    ensures forall i :: 0 <= i < |data| ==>
      data[i].id in books && books[data[i].id] == data[i] && Matches(data[i], q)
    ensures forall i :: 0 <= i < |data| ==> |NewerMatches(books, q, data[i].createdAt)| == skip + i
    ensures forall i, j :: 0 <= i < j < |data| ==> data[i].createdAt > data[j].createdAt
  {
    forall i | 0 <= i < |data|
      ensures |NewerMatches(books, q, data[i].createdAt)| == skip + i
    {
      assert Newer(Created(books), MatchingIds(books, q), ids[i]) == NewerMatches(books, q, data[i].createdAt);
    }
  }

  /** `findAll(query)`: page and limit default to 1 and 10; `total` counts
      every matching book; `data` holds at most `limit` matching books,
      newest first, the i-th of them having exactly `(page - 1) * limit + i`
      newer matches, so the first `(page - 1) * limit` matches are skipped. */
  ghost function FindAll(books: map<Id, Book>, q: QueryBookDto): (r: Page<Book>)
    requires Keyed(books) && DistinctCreation(books)
    ensures r.page == q.page.GetOr(DefaultPage) && r.limit == q.limit.GetOr(DefaultLimit)
    ensures r.total == |MatchingIds(books, q)|
    ensures |r.data| == Min(r.limit, Max(0, r.total - Skip(r.page, r.limit)))
    ensures forall i :: 0 <= i < |r.data| ==>
      r.data[i].id in books && books[r.data[i].id] == r.data[i] && Matches(r.data[i], q)
    ensures forall i :: 0 <= i < |r.data| ==>
      |NewerMatches(books, q, r.data[i].createdAt)| == Skip(r.page, r.limit) + i
    ensures forall i, j :: 0 <= i < j < |r.data| ==> r.data[i].createdAt > r.data[j].createdAt
  {
    var page := q.page.GetOr(DefaultPage);
    var limit := q.limit.GetOr(DefaultLimit);
    var keys := MatchingIds(books, q);
    CreatedIsDistinct(books, keys);
    var ids := PageOf(Created(books), keys, page, limit);
    var data := seq(|ids|, i requires 0 <= i < |ids| => books[ids[i]]);
    PageRecords(books, q, ids, data, Skip(page, limit));
    Page(data, |keys|, page, limit)
  }
}
