/** The mutating operations of AuthorsService and BooksService, over one
    in-memory store that stands for the two repositories. Each operation is
    one atomic check-then-act step; a failed check raises its error and
    leaves the store as it was. */
module Services {
  import opened Common
  import Authors
  import Books

  /** Every book names an author that exists: the foreign key
      `books.authorId -> Authors.id`. */
  ghost predicate AuthorsExist(authors: map<Id, Authors.Author>, books: map<Id, Books.Book>) {
    forall k :: k in books ==> books[k].authorId in authors
  }

  /** No two books share an ISBN: the unique constraint on `books.isbn`. */
  ghost predicate UniqueIsbns(books: map<Id, Books.Book>) {
    forall k, l :: k in books && l in books && k != l ==> books[k].isbn != books[l].isbn
  }

  class Catalog {
    /** The Authors table, by id. */
    var authors: map<Id, Authors.Author>
    /** The books table, by id. */
    var books: map<Id, Books.Book>
    /** The save counter standing for the timestamp columns: each save
        reads it and advances it. */
    var clock: nat

    ghost predicate Valid()
      reads this
    {
      && Authors.Stored(authors, clock)
      && Books.Stored(books, clock)
      && AuthorsExist(authors, books)
      && UniqueIsbns(books)
    }

    constructor ()
      ensures Valid()
      ensures authors == map[] && books == map[] && clock == 0
    {
      authors, books, clock := map[], map[], 0;
    }

    /** AuthorsService.create: store one new author built from the request,
        under the freshly generated `id`, and return it. */
    method CreateAuthor(dto: Authors.CreateAuthorDto, id: Id) returns (a: Authors.Author)
      requires Valid()
      requires id !in authors
      modifies this
      ensures Valid()
      ensures a == Authors.Build(id, dto, old(clock))
      ensures authors == old(authors)[id := a] && books == old(books) && clock == old(clock) + 1
      ensures Authors.FindOne(authors, id) == Ok(a)
      ensures forall k :: k in old(authors) ==> old(authors)[k].createdAt < a.createdAt
    {
      a := Authors.Build(id, dto, clock);
      authors := authors[id := a];
      clock := clock + 1;
    }

    /** AuthorsService.update: NotFound for an unknown id; otherwise the
        fields present in the patch are assigned, and nothing else changes. */
    method UpdateAuthor(id: Id, patch: Authors.UpdateAuthorDto) returns (r: Result<Authors.Author>)
      requires Valid()
      modifies this
      ensures Valid()
      ensures id !in old(authors) ==> r == Err(NotFound)
      ensures r.Err? ==> authors == old(authors) && books == old(books) && clock == old(clock)
      ensures id in old(authors) ==>
        && r == Ok(Authors.Merge(old(authors)[id], patch, old(clock)))
        && authors == old(authors)[id := r.value]
        && books == old(books)
        && clock == old(clock) + 1
    {
      var found := Authors.FindOne(authors, id);
      if found.Err? {
        return Err(found.error);
      }
      var updated := Authors.Merge(found.value, patch, clock);
      authors := authors[id := updated];
      clock := clock + 1;
      r := Ok(updated);
    }

    /** AuthorsService.remove: NotFound for an unknown id, Conflict while
        any book references the author; otherwise the author is deleted. */
    method RemoveAuthor(id: Id) returns (r: Outcome)
      requires Valid()
      modifies this
      ensures Valid()
      ensures id !in old(authors) ==> r == Fail(NotFound)
      ensures id in old(authors) && Books.BooksOf(old(books), id) != {} ==> r == Fail(Conflict)
      ensures r == Done <==> id in old(authors) && Books.BooksOf(old(books), id) == {}
      ensures r.Fail? ==> authors == old(authors) && books == old(books) && clock == old(clock)
      ensures r == Done ==> authors == old(authors) - {id} && books == old(books) && clock == old(clock)
    {
      if id !in authors {
        return Fail(NotFound);
      }
      if Books.BooksOf(books, id) != {} {
        return Fail(Conflict);
      }
      forall k | k in books ensures books[k].authorId != id {
        assert k !in Books.BooksOf(books, id);
      }
      authors := authors - {id};
      r := Done;
    }

    /** BooksService.create: BadRequest when the author does not exist,
        checked first; then Conflict when some book already has the ISBN;
        otherwise one new book is stored under the fresh `id`. */
    method CreateBook(dto: Books.CreateBookDto, id: Id) returns (r: Result<Books.Book>)
      requires Valid()
      requires id !in books
      modifies this
      ensures Valid()
      ensures dto.authorId !in old(authors) ==> r == Err(BadRequest)
      ensures dto.authorId in old(authors) && Books.IsbnTaken(old(books), dto.isbn) ==> r == Err(Conflict)
      ensures r.Ok? <==> dto.authorId in old(authors) && !Books.IsbnTaken(old(books), dto.isbn)
      ensures r.Err? ==> authors == old(authors) && books == old(books) && clock == old(clock)
      ensures r.Ok? ==>
        && r.value == Books.Build(id, dto, old(clock))
        && books == old(books)[id := r.value]
        && authors == old(authors)
        && clock == old(clock) + 1
    {
      var author := Authors.FindOne(authors, dto.authorId);
      if author.Err? {
        return Err(BadRequest);
      }
      if Books.IsbnTaken(books, dto.isbn) {
        return Err(Conflict);
      }
      var book := Books.Build(id, dto, clock);
      books := books[id := book];
      clock := clock + 1;
      r := Ok(book);
    }

    /** BooksService.update: NotFound first; then, if an author is given,
        BadRequest when it does not exist; then, if a different non-empty
        ISBN is given, Conflict when some book holds it; otherwise the
        fields present in the patch are assigned. */
    method UpdateBook(id: Id, patch: Books.UpdateBookDto) returns (r: Result<Books.Book>)
      requires Valid()
      requires Books.ValidPatch(patch)
      modifies this
      ensures Valid()
      ensures id !in old(books) ==> r == Err(NotFound)
      ensures id in old(books) && patch.authorId.Some? && patch.authorId.value !in old(authors) ==>
        r == Err(BadRequest)
      ensures
        && id in old(books)
        && (patch.authorId.Some? ==> patch.authorId.value in old(authors))
        && Books.ChangesIsbn(old(books)[id], patch)
        && Books.IsbnTaken(old(books), patch.isbn.value)
        ==> r == Err(Conflict)
      ensures id in old(books) && patch.isbn == Some(old(books)[id].isbn) ==> r != Err(Conflict)
      ensures r.Ok? <==>
        && id in old(books)
        && (patch.authorId.Some? ==> patch.authorId.value in old(authors))
        && !(Books.ChangesIsbn(old(books)[id], patch) && Books.IsbnTaken(old(books), patch.isbn.value))
      ensures r.Err? ==> authors == old(authors) && books == old(books) && clock == old(clock)
      ensures r.Ok? ==>
        && r.value == Books.Merge(old(books)[id], patch, old(clock))
        && books == old(books)[id := r.value]
        && authors == old(authors)
        && clock == old(clock) + 1
    {
      var found := Books.FindOne(books, id);
      if found.Err? {
        return Err(found.error);
      }
      var book := found.value;
      if patch.authorId.Some? {
        var author := Authors.FindOne(authors, patch.authorId.value);
        if author.Err? {
          return Err(BadRequest);
        }
      }
      if Books.ChangesIsbn(book, patch) && Books.IsbnTaken(books, patch.isbn.value) {
        return Err(Conflict);
      }
      var updated := Books.Merge(book, patch, clock);
      books := books[id := updated];
      clock := clock + 1;
      r := Ok(updated);
    }

    /** BooksService.remove: NotFound for an unknown id; otherwise the book
        is deleted, with no dependency check. */
    method RemoveBook(id: Id) returns (r: Outcome)
      requires Valid()
      modifies this
      ensures Valid()
      ensures id !in old(books) ==> r == Fail(NotFound)
      ensures r.Fail? ==> authors == old(authors) && books == old(books) && clock == old(clock)
      ensures id in old(books) ==>
        r == Done && books == old(books) - {id} && authors == old(authors) && clock == old(clock)
    {
      var found := Books.FindOne(books, id);
      if found.Err? {
        return Fail(found.error);
      }
      books := books - {id};
      r := Done;
    }
  }
}
