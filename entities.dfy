/**
 * The two entities of the catalogue, `Author` and `Book`, and the constraints
 * their mappings put on the stored tables: non-null name and title, a unique
 * isbn column, the `author_id` foreign key of a book, and the author's `books`
 * collection as the inverse side of that key.
 */
module Entities {
  import opened Wrappers

  /** Identities assigned by the store (IDENTITY columns). */
  type AuthorId = nat
  type BookId = nat

  /**
   * A stored author: its id and its non-null name (the empty name is allowed).
   * The `books` collection is kept by the store beside the table, so value
   * equality on `Author` compares id and name only, as the entity's does.
   */
  datatype Author = Author(id: AuthorId, name: string)

  /** A stored book: non-null title, nullable isbn, and the id of its one author. */
  datatype Book = Book(id: BookId, title: string, isbn: Option<string>, authorId: AuthorId)

  /** The author reference carried by an incoming book: null, an author without an id, or an id. */
  datatype AuthorRef = NoAuthor | AuthorRef(id: Option<AuthorId>)

  /** An incoming book (request body): what a caller supplies to create or update a book. */
  datatype BookDetails = BookDetails(title: string, isbn: Option<string>, author: AuthorRef)

  /** An incoming author: a name, and an id when the caller supplies one. */
  datatype AuthorDetails = AuthorDetails(id: Option<AuthorId>, name: string)

  /** Which table a lookup missed. */
  datatype Kind = AuthorKind | BookKind

  /**
   * The exceptions of the services: the not-found exception, raised with the
   * table and the id that was missing, and a plain runtime error with a message.
   */
  datatype Error = NotFound(kind: Kind, id: nat) | Failure(message: string)

  type AuthorTable = map<AuthorId, Author>
  type BookTable = map<BookId, Book>

  /** The author id an incoming reference names, if it names one. */
  function SuppliedAuthorId(ref: AuthorRef): Option<AuthorId> {
    match ref
    case NoAuthor => None
    case AuthorRef(id) => id
  }

  /** Every row is stored under its own id. */
  ghost predicate KeysAreIds(authors: AuthorTable, books: BookTable) {
    && (forall a :: a in authors ==> authors[a].id == a)
    && (forall k :: k in books ==> books[k].id == k)
  }

  /** The `author_id` foreign key: every stored book names a stored author. */
  ghost predicate RefIntegrity(authors: AuthorTable, books: BookTable) {
    forall k :: k in books ==> books[k].authorId in authors
  }

  /** The unique isbn column: no two stored books share a non-null isbn. */
  ghost predicate IsbnUnique(books: BookTable) {
    forall j, k :: j in books && k in books && j != k && books[j].isbn.Some? ==> books[j].isbn != books[k].isbn
  }

  /** No stored book holds the (non-null) isbn. */
  ghost predicate IsbnUnused(books: BookTable, isbn: Option<string>) {
    isbn.Some? ==> forall k :: k in books ==> books[k].isbn != isbn
  }

  /** No stored book other than `id` holds the (non-null) isbn. */
  ghost predicate IsbnFreeFor(books: BookTable, isbn: Option<string>, id: BookId) {
    isbn.Some? ==> forall k :: k in books && k != id ==> books[k].isbn != isbn
  }

  /**
   * `authorBooks[a]` is the `books` collection of author `a`, mapped by
   * `Book.author`: book `k` is in it exactly when `k` is stored with author `a`.
   */
  ghost predicate InverseOf(authorBooks: map<AuthorId, set<BookId>>, authors: AuthorTable, books: BookTable) {
    && authorBooks.Keys == authors.Keys
    && (forall a, k :: a in authorBooks && k in authorBooks[a] ==> k in books && books[k].authorId == a)
    && (forall k :: k in books ==> books[k].authorId in authorBooks && k in authorBooks[books[k].authorId])
  }

  /** Everything the mappings of the two entities demand of the stored state. */
  ghost predicate Consistent(authors: AuthorTable, books: BookTable, authorBooks: map<AuthorId, set<BookId>>) {
    && KeysAreIds(authors, books)
    && RefIntegrity(authors, books)
    && IsbnUnique(books)
    && InverseOf(authorBooks, authors, books)
  }
}
