/** Client runs of the services on an empty store, following the
    expectations of the unit tests of AuthorsService and of the
    end-to-end test of the authors endpoints. Each run's postcondition is
    proved from the operations' contracts alone. */
module Scenarios {
  import opened Common
  import opened Authors
  import opened Books
  import opened Services

  /** Create an author, read it back, patch its bio, read it again, and
      look up an id that was never created. */
  method AuthorLifecycle(id: Id, unknown: Id, dto: CreateAuthorDto, bio: string)
    returns (created: Author, fetched: Result<Author>, patched: Result<Author>,
             refetched: Result<Author>, missing: Result<Author>)
    requires unknown != id
    ensures created.id == id && created.firstName == dto.firstName && created.lastName == dto.lastName
    ensures fetched == Ok(created)
    ensures patched.Ok? && refetched == patched
    ensures refetched.Ok? && refetched.value.bio == Some(bio)
    ensures refetched.Ok? && refetched.value.id == id && refetched.value.firstName == dto.firstName
    ensures refetched.Ok? && refetched.value.lastName == dto.lastName && refetched.value.birthDate == dto.birthDate
    ensures missing == Err(NotFound)
  {
    var c := new Catalog();
    created := c.CreateAuthor(dto, id);
    fetched := Authors.FindOne(c.authors, id);
    patched := c.UpdateAuthor(id, UpdateAuthorDto(None, None, Some(bio), None));
    refetched := Authors.FindOne(c.authors, id);
    missing := Authors.FindOne(c.authors, unknown);
  }

  /** An author with a book cannot be removed, and the refusal keeps both;
      once the book is removed the author can be, and a second removal
      finds nothing. */
  method RemoveAuthorWithBook(authorId: Id, bookId: Id, author: CreateAuthorDto, book: CreateBookDto)
    returns (refused: Outcome, kept: bool, bookRemoved: Outcome, removed: Outcome, again: Outcome)
    requires book.authorId == authorId
    ensures refused == Fail(Conflict)
    ensures kept
    ensures bookRemoved == Done && removed == Done
    ensures again == Fail(NotFound)
  {
    var c := new Catalog();
    var _ := c.CreateAuthor(author, authorId);
    var created := c.CreateBook(book, bookId);
    assert bookId in Books.BooksOf(c.books, authorId);
    refused := c.RemoveAuthor(authorId);
    kept := authorId in c.authors && bookId in c.books;
    bookRemoved := c.RemoveBook(bookId);
    assert Books.BooksOf(c.books, authorId) == {};
    removed := c.RemoveAuthor(authorId);
    again := c.RemoveAuthor(authorId);
  }

  /** Two books with one ISBN: the second is refused and exactly one book
      holds the ISBN afterwards. A book that names no author is refused
      before its ISBN is looked at. */
  method DuplicateIsbn(authorId: Id, first: Id, second: Id, third: Id, author: CreateAuthorDto,
                       one: CreateBookDto, two: CreateBookDto, orphan: CreateBookDto)
    returns (r1: Result<Book>, r2: Result<Book>, r3: Result<Book>, holders: set<Id>)
    requires first != second && third != first
    requires one.authorId == authorId && two.authorId == authorId && two.isbn == one.isbn
    requires orphan.authorId != authorId && orphan.isbn == one.isbn
    ensures r1.Ok? && r2 == Err(Conflict) && r3 == Err(BadRequest)
    ensures holders == {first}
  {
    var c := new Catalog();
    var _ := c.CreateAuthor(author, authorId);
    r1 := c.CreateBook(one, first);
    assert c.books[first].isbn == one.isbn;
    r2 := c.CreateBook(two, second);
    r3 := c.CreateBook(orphan, third);
    holders := set k | k in c.books && c.books[k].isbn == one.isbn;
  }
}
