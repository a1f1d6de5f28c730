# Library catalog services: referential integrity and ISBN uniqueness

This project models the two services of a small REST catalog of authors and
books. `AuthorsService` creates, lists, reads, patches and removes
authors. It refuses to remove an author while any book still refers to it.
`BooksService` does the same for books. It refuses a book whose `authorId`
names no author, and it refuses an ISBN that another book already holds.

The two TypeORM repositories become one class, `Services.Catalog`. It holds
the Authors table and the books table as maps from id to row. It also holds
a save counter that stands for the `createdAt`/`updatedAt` timestamp
columns. Every mutating operation is a method of that class. Each method
keeps the store invariant `Valid()`:

- every book's `authorId` names a stored author (the foreign key);
- no two books share an ISBN (the unique column);
- every row is stored under its own id;
- no two rows of a table were created at the same tick.

The read-only queries `findOne` and `findAll` are functions over the maps:
`Authors.FindOne`, `Authors.FindAll`, `Books.FindOne` and `Books.FindAll`.
`findAll` is specified by rank. Entry `i` of the returned page is the
matching record that has exactly `(page - 1) * limit + i` newer matches.
`total` counts every match, and the page holds `min(limit, total - skip)`
records. `Paging.NewestFirstUnique` shows that this newest-first order is
the only one possible, so the page is fully determined.

Files:

- `common.dfy`: ids, `Option`, the error kinds and results.
- `matching.dfy`: `ILIKE '%x%'` as a case-insensitive substring test.
- `paging.dfy`: newest-first ordering, skip/take, and ranks.
- `authors.dfy`, `books.dfy`: rows, request objects, `findOne`, `findAll`.
- `services.dfy`: the store class and its mutating operations.
- `scenarios.dfy`: client runs that follow the unit and end-to-end tests.

The errors keep the source's names. A foreign key that names no author
raises `BadRequest`, because that is the exception the code throws.

## Model

| member | source | states |
|---|---|---|
| `Matching.ContainsIffOccurs` | src/books/books.service.ts:53-58 | the left-to-right substring search succeeds exactly when the pattern occurs at some position of the text |
| `Matching.ContainsIgnoreCaseIffWindow` | src/authors/authors.service.ts:32-37 | `ILIKE '%x%'` holds exactly when some window of the column equals `x` up to letter case |
| `Matching.TextFilter` | src/authors/authors.service.ts:32-37 | a name/title/ISBN filter that is absent or empty (falsy) admits every row; a non-empty one admits exactly the rows whose field contains it, ignoring case |
| `Matching.TextFilterIgnoresCase` | src/books/books.service.ts:53-58 | a filter and its lower-cased spelling select the same rows |
| `Paging.SortNewestFirst` | src/authors/authors.service.ts:43 | `order: { createdAt: 'DESC' }` lists every matching row exactly once, strictly newest first |
| `Paging.NewestFirstUnique` | src/books/books.service.ts:67 | two newest-first listings of the same rows are equal, so the ordering of a page is fully determined |
| `Paging.RankIsPosition` | src/authors/authors.service.ts:39-44 | in the newest-first listing, the row at position `j` has exactly `j` newer rows |
| `Paging.Window` | src/authors/authors.service.ts:29-42 | `skip`/`take` yields `min(take, length - skip)` elements, the `i`-th being element `skip + i` |
| `Paging.PageOf` | src/books/books.service.ts:49-67 | one page of the ordered matches: at most `limit` keys, newest first, the `i`-th having exactly `(page - 1) * limit + i` newer matches |
| `Authors.FindOne` | src/authors/authors.service.ts:49-69 | NotFound exactly when no author has the id; otherwise the stored author with that id |
| `Authors.FindAll` | src/authors/authors.service.ts:25-47 | page defaults to 1 and limit to 10 and both are echoed; `total` is the number of matches; `data` holds `min(limit, total - (page-1)*limit)` matching stored authors, strictly newest first, the `i`-th having `(page-1)*limit + i` newer matches |
| `Books.FindOne` | src/books/books.service.ts:82-102 | NotFound exactly when no book has the id; otherwise the stored book with that id |
| `Books.FindAll` | src/books/books.service.ts:46-80 | as for authors, where title and ISBN filters match by case-insensitive substring and an `authorId` filter by equality |
| `Services.Catalog.CreateAuthor` | src/authors/authors.service.ts:20-23 | exactly one author is added, built from the request under the new id and newer than every other; it is returned, `findOne` then yields it, and books are untouched; the invariants hold |
| `Services.Catalog.UpdateAuthor` | src/authors/authors.service.ts:71-75 | NotFound with no change for an unknown id; otherwise only the patched fields of that author change (plus `updatedAt`), all other rows stay; the invariants hold |
| `Services.Catalog.RemoveAuthor` | src/authors/authors.service.ts:77-94 | NotFound for an unknown id, Conflict while any book refers to the author, both with no change; otherwise exactly that author is deleted and every book still names an existing author |
| `Services.Catalog.CreateBook` | src/books/books.service.ts:23-44 | BadRequest when the author is missing, checked before the ISBN; Conflict when the ISBN is taken; no change on either; otherwise exactly one book built from the request is added, keeping the foreign key and ISBN uniqueness |
| `Services.Catalog.UpdateBook` | src/books/books.service.ts:104-131 | NotFound, then BadRequest for a given missing author, then Conflict only for a different ISBN that another book holds; resubmitting the current ISBN never conflicts; failures change nothing; success changes only the patched fields of that book and keeps both invariants |
| `Services.Catalog.RemoveBook` | src/books/books.service.ts:133-141 | NotFound with no change for an unknown id; otherwise exactly that book is deleted, with no dependency check |
| `Scenarios.AuthorLifecycle` | test/authors.e2e-spec.ts:35-104 | a created author reads back with its fields; after patching `bio` the read shows the new bio and the other fields unchanged; an unknown id is NotFound |
| `Scenarios.RemoveAuthorWithBook` | src/authors/authors.service.spec.ts:139-161 | removing an author with a book is a Conflict that keeps both rows; after the book is removed the author can be removed; removing again is NotFound |
| `Scenarios.DuplicateIsbn` | src/books/books.service.ts:23-44 | a second book with the same ISBN is a Conflict and exactly one book holds the ISBN; a book naming no author is a BadRequest even when its ISBN is taken |

## Left out

- Relation loading and field projections (`relations`, `select`) in `findOne` and `findAll` are not modelled. They only shape what is returned. `RemoveAuthor` uses the author's `books` relation as `Books.BooksOf`.
- The DTO validation decorators (`IsISBN`, `IsUUID`, `IsDateString`, `IsNotEmpty`) run before the services and are not modelled. The model takes their guarantees as given. Ids are opaque values that are always present, so the code's truthiness test on `authorId` is a presence test. Dates are kept as the request's strings.
- The author DTO files and the query DTO files are not part of this model. Their fields come from the entity and the tests. `page` and `limit`, when given, are taken as positive integers.
- `Services.Catalog.UpdateBook` requires a present ISBN to be non-empty, as `IsISBN` guarantees. The code skips the uniqueness re-check for an empty ISBN and would then store it unchecked.
- An explicit JSON `null` in a patch is not modelled. `Object.assign` would copy it, and the database's NOT NULL constraints would then decide. Patch fields are either absent or hold a value.
- With a changed `authorId`, the ORM also receives the loaded `author` relation on `save`. How it resolves the two is not modelled; the model stores the patched column.
- `ILIKE` wildcards typed by the user (`%`, `_`) are taken literally. Case folding covers ASCII letters only, not the database's collation.
- UUID generation becomes a fresh-id parameter of the create methods. The timestamp columns become a save counter, so no two rows of a table share `createdAt`.
- `Authors.FindAll` and `Books.FindAll` are ghost functions. They specify the database's ordering by picking the newest remaining row; they are not an executable sort.
- Error message texts are not modelled; only the error kind is.
- The check-then-insert race between concurrent requests, and async scheduling, are not modelled. Each operation is atomic.
- The second null check in `BooksService.remove` is not modelled. It cannot fire, because `findOne` has already thrown NotFound.
- Module wiring, configuration and connection settings are not modelled. These are `app.module.ts`, `app.service.ts`, `config/app.config.ts` and `ormconfig.js`.
