# Library catalogue: the Author–Book consistency layer

This project models the core of a small library catalogue service with two
entities, `Author` and `Book`. An author has an id, a name and a `books`
collection. A book has an id, a title, an isbn and one author. The model
covers the service layer and the store it runs on:

- `LibraryService` holds every author and book operation. Each operation is
  all-or-nothing. Each failed lookup by id raises the one not-found exception.
- `AuthorService` is the older author service. It reports a missing author with
  a plain runtime error and reads an author's books through the author's
  `books` collection.
- `BookRepository` holds the derived and JPQL queries. They are modelled as
  filters over the book table.
- The `Author` and `Book` mappings constrain the stored state:
  - name and title are non-null;
  - isbn is unique;
  - `author_id` is a foreign key;
  - `books` is the inverse side of `Book.author`;
  - deleting an author cascades to its books, and removing a book from an
    author's `books` collection deletes that book (orphan removal).

The repositories are one `Store` object, a Dafny `class`. It holds:

- the author table `map<AuthorId, Author>`;
- the book table `map<BookId, Book>`;
- each author's `books` collection, as `map<AuthorId, set<BookId>>`;
- the two IDENTITY counters that hand out new ids.

`Store.Valid()` is the class invariant. It says that:

- every row is stored under its own id;
- every stored book's author id is a stored author;
- no two books share a non-null isbn;
- the `books` collections are exactly the inverse of `Book.author`;
- every id is below its counter.

Every mutating method of both services is proved to keep `Valid()`. Each one
states its whole new state in terms of the old one. Each failure leaves the
store unchanged. The read operations are functions. The queries and the
string matching they use are pure functions, with lemmas that relate them to
each other.

Files:

- `wrappers.dfy`: `Option` and `Result`.
- `text.dfy`: ASCII case folding, substring search and SQL `LIKE` matching.
- `entities.dfy`: the two records, the request shapes, the error kinds and
  the store constraints.
- `book_repository.dfy`: the queries.
- `store.dfy`: the `Store` class and the cascade.
- `library.dfy`: `LibraryService`.
- `authors.dfy`: `AuthorService`, and how it agrees with `LibraryService`.
- `scenarios.dfy`: the seed data and the behaviour the service tests describe,
  proved from the contracts alone.

The `name` column is only `nullable = false`
(src/main/java/org/example/model/Author.java:22-23), and the integration test
at src/test/java/org/example/controller/AuthorControllerIT.java:116-129 expects
an author with the empty name to be accepted, so the model allows `""`.

## Model

| member | source | states |
|---|---|---|
| `Text.Lower` | src/main/java/org/example/repository/BookRepository.java:18-19 | case folding keeps the length and folds every character on its own |
| `Text.CaseVariantsFoldAlike` | src/main/java/org/example/repository/BookRepository.java:18-19 | two strings that differ only in letter case fold to the same string |
| `Text.ContainsItself` | src/main/java/org/example/repository/BookRepository.java:15-19 | every string contains itself as a substring |
| `Text.LikePercentMatchesAll` | src/main/java/org/example/repository/BookRepository.java:38 | the LIKE pattern `%` matches every string |
| `Text.LikePrefix` | src/main/java/org/example/repository/BookRepository.java:38 | without wildcards, the pattern `k%` matches exactly the strings that start with `k` |
| `Text.LikeLeadingPercent` | src/main/java/org/example/repository/BookRepository.java:38 | a leading `%` lets the rest of a pattern match at any offset |
| `Text.LikeInfixIsContains` | src/main/java/org/example/repository/BookRepository.java:38 | for a keyword without `%` or `_`, `LIKE '%k%'` holds exactly when the string contains `k` |
| `Text.UnderscoreKeywordOvermatches` | src/main/java/org/example/repository/BookRepository.java:38 | `"abc" LIKE '%a_c%'` holds although `"abc"` does not contain `"a_c"` |
| `BookRepository.FindByTitle` | src/main/java/org/example/repository/BookRepository.java:16 | `findByTitle(t)`: the sub-table of stored books whose title is exactly `t` |
| `BookRepository.FindByTitleContainingIgnoreCase` | src/main/java/org/example/repository/BookRepository.java:19 | `findByTitleContainingIgnoreCase(t)`: the sub-table of stored books whose title contains `t`, ignoring letter case |
| `BookRepository.ExistsByIsbn` | src/main/java/org/example/repository/BookRepository.java:42 | `existsByIsbn(i)` holds exactly when some stored book holds isbn `i`, that is, when `i` is not free for a new book |
| `BookRepository.FindByIsbn` | src/main/java/org/example/repository/BookRepository.java:22 | `findByIsbn(i)` is present exactly when `existsByIsbn(i)`, and then it is a stored book with isbn `i` |
| `BookRepository.FindByAuthorId` | src/main/java/org/example/repository/BookRepository.java:25 | `findByAuthorId(a)`: the sub-table of stored books whose author id is `a` |
| `BookRepository.CountByAuthorId` | src/main/java/org/example/repository/BookRepository.java:45 | `countByAuthorId(a)` is at most the number of stored books, and it is 0 exactly when no stored book has author id `a` |
| `BookRepository.FindByAuthorName` | src/main/java/org/example/repository/BookRepository.java:28 | `findByAuthorName(n)`: the sub-table of stored books whose author is stored and named exactly `n` |
| `BookRepository.FindByAuthorNameContainingIgnoreCase` | src/main/java/org/example/repository/BookRepository.java:31 | `findByAuthorNameContainingIgnoreCase(n)`: the sub-table of stored books whose stored author's name contains `n`, ignoring letter case |
| `BookRepository.FindBooksByAuthorName` | src/main/java/org/example/repository/BookRepository.java:34-35 | the JPQL inner join: the sub-table of stored books that join a stored author named `n` |
| `BookRepository.FindByTitleOrAuthorNameContaining` | src/main/java/org/example/repository/BookRepository.java:37-39 | the query as written: the sub-table of stored books with a stored author whose lower-cased title or author name matches `LOWER(CONCAT('%', k, '%'))` under `LIKE`, with `%` and `_` in `k` acting as wildcards |
| `BookRepository.FindByTitleOrAuthorNameContainingLiterally` | src/main/java/org/example/repository/BookRepository.java:37-39 | the corrected query: the sub-table of stored books with a stored author whose title or author name contains `k` literally, ignoring letter case |
| `BookRepository.CountMatchesFind` | src/main/java/org/example/repository/BookRepository.java:44-45 | `countByAuthorId(a)` is the number of books `findByAuthorId(a)` returns |
| `BookRepository.FindByIsbnFindsTheHolder` | src/main/java/org/example/repository/BookRepository.java:21-22 | with the unique isbn column, `findByIsbn` returns the one book holding the isbn, every holder is that book, and `existsByIsbn` (line 42) is true exactly when `findByIsbn` is present |
| `BookRepository.ExactTitleWithinIgnoreCase` | src/main/java/org/example/repository/BookRepository.java:15-19 | every result of `findByTitle(t)` is a result of `findByTitleContainingIgnoreCase(t)` |
| `BookRepository.TitleSearchIgnoresKeywordCase` | src/main/java/org/example/repository/BookRepository.java:18-19 | `findByTitleContainingIgnoreCase` returns the same books for every case variant of its keyword |
| `BookRepository.JoinQueryMatchesDerivedQuery` | src/main/java/org/example/repository/BookRepository.java:27-35 | the JPQL `findBooksByAuthorName(n)` returns the same books as the derived `findByAuthorName(n)` |
| `BookRepository.LiteralKeywordSearchIsUnion` | src/main/java/org/example/repository/BookRepository.java:37-39 | when every book's author is stored, the literal keyword search is the union of the ignore-case searches on title and on author name (line 31) |
| `BookRepository.FoldedInfixPattern` | src/main/java/org/example/repository/BookRepository.java:38 | lower-casing `CONCAT('%', k, '%')` adds no wildcard and gives the pattern of the lower-cased keyword |
| `BookRepository.KeywordSearchWithoutWildcards` | src/main/java/org/example/repository/BookRepository.java:37-39 | for a keyword without `%` or `_`, the query as written returns exactly the books of the literal search |
| `BookRepository.UnderscoreKeywordFindsNonMatchingBook` | src/main/java/org/example/repository/BookRepository.java:37-39 | with keyword `a_c`, the query as written returns a book titled `abc` by author `x`, and the literal search does not |
| `Store.Cascade` | src/main/java/org/example/model/Author.java:25 | the book table once author `a` is deleted with `cascade = ALL`: the sub-table of the books whose author is not `a` |
| `Entities.Consistent` | src/main/java/org/example/model/Book.java:15-28 | the mapping constraints of both entities: every row is stored under its id, the `author_id` foreign key holds, isbn is unique, and each `books` collection is the inverse of `Book.author` (Author.java:25) |
| `Store.Store.Valid` | src/main/java/org/example/model/Author.java:18-27 | the store's invariant: `Consistent` holds, and every stored id is below its IDENTITY counter |
| `Store.CascadeRemovesExactlyTheAuthorsBooks` | src/main/java/org/example/model/Author.java:25 | the cascade for author `a` keeps only books of other authors, keeps each of them unchanged, removes exactly `findByAuthorId(a)`, and shrinks the table by `countByAuthorId(a)` |
| `Store.CascadeKeepsOtherAuthorsBooks` | src/main/java/org/example/model/Author.java:25 | the cascade for author `a` leaves every other author's books as they were |
| `Store.InsertAuthorKeepsConsistent` | src/main/java/org/example/model/Author.java:18-27 | a new author under an unused id, with an empty `books` collection, keeps the store consistent |
| `Store.RenameAuthorKeepsConsistent` | src/main/java/org/example/model/Author.java:22-23 | renaming a stored author keeps the store consistent |
| `Store.CascadeKeepsConsistent` | src/main/java/org/example/model/Author.java:25 | deleting an author together with its books keeps the store consistent: no book is left without its author |
| `Store.InsertBookKeepsConsistent` | src/main/java/org/example/model/Book.java:22-28 | a new book of a stored author with an unused isbn, added to that author's collection, keeps the store consistent |
| `Store.ReplaceBookKeepsConsistent` | src/main/java/org/example/model/Book.java:22-28 | overwriting a book, possibly moving it to another stored author's collection, keeps the store consistent when no other book holds its isbn |
| `Store.RemoveBookKeepsConsistent` | src/main/java/org/example/model/Author.java:25-27 | deleting a book and taking it out of its author's collection keeps the store consistent |
| `Store.Store.constructor` | src/main/java/org/example/model/Author.java:18-20 | an empty store is valid, and both IDENTITY counters start at 1 |
| `Store.Store.SaveAuthor` | src/main/java/org/example/model/Author.java:18-23 | an id that names a stored author updates that row's name; otherwise a row is inserted under a fresh id with an empty collection; books never change |
| `Store.Store.DeleteAuthor` | src/main/java/org/example/model/Author.java:25 | deleting an author also deletes all of its books (cascade ALL) and its collection |
| `Store.Store.InsertBook` | src/main/java/org/example/model/Book.java:15-28 | a new book gets a fresh id, is stored, and joins its author's collection; authors do not change |
| `Store.Store.UpdateBook` | src/main/java/org/example/model/Book.java:22-28 | an overwritten book moves from its old author's collection to its new one's |
| `Store.Store.DeleteBook` | src/main/java/org/example/model/Author.java:25-27 | a deleted book leaves the table and its author's collection |
| `Store.Store.RemoveFromAuthorBooks` | src/main/java/org/example/model/Author.java:25 | orphan removal: taking a book out of its author's `books` collection deletes the book; any other book is left alone |
| `Library.LibraryService.GetAllAuthors` | src/main/java/org/example/service/LibraryService.java:22-25 | the result holds exactly the stored authors |
| `Library.LibraryService.GetAuthorById` | src/main/java/org/example/service/LibraryService.java:27-31 | returns the stored author iff the id is in the author table, otherwise not-found for that author id |
| `Library.LibraryService.CreateAuthor` | src/main/java/org/example/service/LibraryService.java:33-36 | saves one author with the given name and leaves the book table alone; an id naming a stored author renames that row and keeps its books; any other call inserts a new row under an unused id with no books; `getAuthorById` of the returned id gives that author back |
| `Library.LibraryService.UpdateAuthor` | src/main/java/org/example/service/LibraryService.java:38-43 | for a stored id only that author's name changes: id, books and other authors are kept; a missing id is not-found and changes nothing |
| `Library.LibraryService.DeleteAuthor` | src/main/java/org/example/service/LibraryService.java:45-49 | for a stored id the author and, by cascade, exactly its books go; other authors' book lists are unchanged; afterwards listing its books is not-found; a missing id is not-found and changes nothing |
| `Library.LibraryService.GetAllBooks` | src/main/java/org/example/service/LibraryService.java:52-55 | the result holds exactly the stored books |
| `Library.LibraryService.GetBookById` | src/main/java/org/example/service/LibraryService.java:57-61 | returns the stored book iff the id is in the book table, otherwise not-found for that book id |
| `Library.LibraryService.CreateBook` | src/main/java/org/example/service/LibraryService.java:63-69 | an author id that is not stored is not-found and nothing changes; otherwise exactly one new book is stored, the author table is unchanged, and the new book's author is the stored author with that id |
| `Library.LibraryService.UpdateBook` | src/main/java/org/example/service/LibraryService.java:71-84 | title and isbn are always overwritten; the author is replaced only by a supplied non-null author id, and only by a stored author; a missing book or a missing new author is not-found and nothing changes |
| `Library.LibraryService.DeleteBook` | src/main/java/org/example/service/LibraryService.java:86-90 | for a stored id exactly that book goes and authors stay; a missing id is not-found and changes nothing |
| `Library.LibraryService.GetBooksByAuthorId` | src/main/java/org/example/service/LibraryService.java:93-99 | not-found iff the author is not stored; otherwise the books whose author is that author, possibly none, which are exactly the author's `books` collection and number `countByAuthorId` |
| `Library.LibraryService.GetAuthorOfBook` | src/main/java/org/example/service/LibraryService.java:101-105 | not-found iff the book is not stored; otherwise the stored author the book refers to, which has the book in its collection |
| `Authors.AuthorService.FindAllAuthors` | src/main/java/org/example/service/AuthorService.java:19-22 | the result holds exactly the stored authors |
| `Authors.AuthorService.FindAuthorById` | src/main/java/org/example/service/AuthorService.java:24-27 | present iff the id is stored, with that author; it never fails |
| `Authors.AuthorService.SaveAuthor` | src/main/java/org/example/service/AuthorService.java:29-32 | adds or overwrites exactly one author row and leaves the book table unchanged; an id naming a stored author renames that row and keeps its books; any other call inserts a new row under the next IDENTITY value with no books; the saved author is found again by its id |
| `Authors.AuthorService.UpdateAuthor` | src/main/java/org/example/service/AuthorService.java:34-40 | for a stored id only the name changes; a missing id raises the runtime error "Author not found" and changes nothing |
| `Authors.AuthorService.DeleteAuthor` | src/main/java/org/example/service/AuthorService.java:42-45 | a stored author is deleted with all its books; for a missing id nothing changes, and the call succeeds or raises a runtime error |
| `Authors.AuthorService.FindBooksByAuthorId` | src/main/java/org/example/service/AuthorService.java:47-52 | a missing author is the runtime error; otherwise the author's `books` collection, which holds exactly the books whose author is that author |
| `Authors.BooksOfAuthorAgree` | src/main/java/org/example/service/AuthorService.java:47-52 | over one store, `AuthorService.findBooksByAuthorId` and `LibraryService.getBooksByAuthorId` fail for the same ids and otherwise return the same books |
| `Authors.AuthorLookupsAgree` | src/main/java/org/example/service/AuthorService.java:24-27 | `findAuthorById` is present exactly when `getAuthorById` succeeds, with the same author |
| `Scenarios.SeedLibrary` | src/main/java/org/example/config/DataLoader.java:16-31 | after the seed data, Rowling's book has Rowling as its author and is among her books, and King is stored with no books |
| `Scenarios.CreateThenGet` | src/main/java/org/example/service/LibraryService.java:33-36 | a created author is found again under its new id with the name it was given |
| `Scenarios.DeleteAuthorTwice` | src/main/java/org/example/service/LibraryService.java:45-49 | deleting an author a second time is not-found, and so is listing its books |
| `Scenarios.UpdateBookKeepsAuthor` | src/main/java/org/example/service/LibraryService.java:77-81 | an update with a null author, or an author without an id, succeeds and keeps the book's author |
| `Scenarios.UpdateBookToMissingAuthor` | src/main/java/org/example/service/LibraryService.java:77-80 | moving a stored book to an author id that is not stored is not-found for that author, whatever the isbn, and the book is unchanged |

## Findings

| source | as written | input that shows it | evidently intended | confidence | as-written member | corrected member |
|---|---|---|---|---|---|---|
| src/main/java/org/example/repository/BookRepository.java:38 | the keyword is put into the LIKE pattern `CONCAT('%', :keyword, '%')` without escaping, so `_` and `%` in the keyword act as wildcards | keyword `a_c` with one book titled `abc` whose author is `x`: the book is returned, although neither its title nor its author's name contains `a_c` | the keyword matched literally as a substring, as the derived `Containing` queries beside it match | medium; not executed | `BookRepository.FindByTitleOrAuthorNameContaining` (shown by `BookRepository.UnderscoreKeywordFindsNonMatchingBook`) | `BookRepository.FindByTitleOrAuthorNameContainingLiterally` (proved by `BookRepository.LiteralKeywordSearchIsUnion`) |

## Left out

- Authors.AuthorService.DeleteAuthor: for a missing id the contract says only that nothing changes and that the call succeeds or raises a runtime error. `deleteById` on a missing id throws in some versions of the repository library and is a no-op in others, and the repository implementation is not part of this model.
- Library.LibraryService.CreateBook: requires an author with a non-null id. The source dereferences `book.getAuthor().getId()`, and a null author or id ends in a null dereference or an illegal-argument error, not in not-found.
- Library.LibraryService.CreateBook and Library.LibraryService.UpdateBook: a duplicate non-null isbn makes the database reject the save. The model requires a free isbn only when the save is reached, that is, when every author lookup succeeds. It states this as a precondition, not as an error value.
- Library.LibraryService.UpdateBook: the source sets title and isbn on the loaded entity before it resolves the new author, and the transaction rollback undoes this on failure. The model writes nothing until every lookup has succeeded, which has the same visible effect.
- Library.LibraryService.CreateBook: an id carried by the incoming book is ignored, and the book is always inserted as new.
- Save of an author that carries an existing id: the ORM merges a detached entity whose `books` collection is empty. With orphan removal this may delete that author's books. The model keeps them.
- Null names and titles: `name` and `title` are `string` in the model, so a null value cannot be passed. In the source, `createAuthor`, `updateAuthor`, `createBook` and `updateBook` pass such a value on to `save`, and the `nullable = false` columns (Author.java:22, Book.java:19) make the database reject it.
- Id types: `AuthorId` and `BookId` are naturals, so the model has no negative and no null id. In the source, a negative id passed to a lookup is simply not found, and `findById(null)` ends in an illegal-argument error.
- Ids are Java `Long` values assigned by IDENTITY columns. The model uses unbounded naturals from a counter that starts at 1 and never decreases, so 64-bit overflow is not modelled.
- Query results are Java lists with no `ORDER BY`. The model returns the set of matching rows as a sub-table keyed by id, so order and duplicates are not modelled. The `books` collection, an ordered list, is modelled as a set.
- Case folding is ASCII only. The database's and Java's Unicode lower-casing of accented letters, such as the Hungarian letters in the seed titles, is not modelled.
- The escape character that some databases apply by default in `LIKE` is not modelled. Only `%` and `_` are special.
- Entity equality: `Book` equality in the source ignores the author. Model values compare all their fields. `Author` values carry no `books`, so their equality matches the source's.
- Lazy and eager fetching, transaction proxies, JSON back and managed references, and the HTTP controllers (`AuthorController`, `Main`) are framework wiring and are not modelled. `DataLoader` appears only as the `Scenarios.SeedLibrary` scenario.
- Concurrency: the lost-update race between two requests and the store's isolation level are not modelled. Every operation runs alone.
- The messages of the not-found exceptions are represented by the table kind and the missing id. The message text is not modelled.
- `AuthorRepository`, `ResourceNotFoundException`, `BookService` and `BookController` are not part of this model.
