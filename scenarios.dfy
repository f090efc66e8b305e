/**
 * Client scenarios: what a caller can conclude from the service contracts
 * alone, for the seed data and for the behaviour the service tests describe.
 */
module Scenarios {
  import opened Wrappers
  import opened Entities
  import opened Store
  import opened Library

  /**
   * The seed data: J.K. Rowling, her book, then Stephen King. Afterwards the
   * book's author is Rowling, the book is among her books, and King is stored
   * with no books.
   */
  method SeedLibrary() returns (library: LibraryService, rowling: Author, book: Book, king: Author)
    ensures library.store.Valid()
    ensures rowling.name == "J.K. Rowling"
    ensures book.title == "Harry Potter és a bölcsek köve" && book.isbn == Some("963-8386-87-0")
    ensures library.GetAuthorOfBook(book.id) == Ok(rowling)
    ensures library.GetBooksByAuthorId(rowling.id).Ok? && book.id in library.GetBooksByAuthorId(rowling.id).value
    ensures king.name == "Stephen King" && king.id != rowling.id
    ensures library.GetAuthorById(king.id) == Ok(king)
    ensures library.GetBooksByAuthorId(king.id) == Ok(map[])
  {
    var store := new Store();
    library := new LibraryService(store);
    rowling := library.CreateAuthor(AuthorDetails(None, "J.K. Rowling"));
    var created := library.CreateBook(BookDetails("Harry Potter és a bölcsek köve", Some("963-8386-87-0"), AuthorRef(Some(rowling.id))));
    book := created.value;
    king := library.CreateAuthor(AuthorDetails(None, "Stephen King"));
  }

  /** A created author is found again under the id it was given, with its name. */
  method CreateThenGet(library: LibraryService, name: string) returns (a: Author)
    requires library.store.Valid()
    modifies library.store
    ensures library.GetAuthorById(a.id) == Ok(Author(a.id, name))
  {
    a := library.CreateAuthor(AuthorDetails(None, name));
  }

  /**
   * Deleting an author twice fails the second time with not-found, and the
   * author's books can no longer be listed.
   */
  method DeleteAuthorTwice(library: LibraryService, id: AuthorId) returns (first: Result<(), Error>, second: Result<(), Error>)
    requires library.store.Valid()
    modifies library.store
    ensures second == Err(NotFound(AuthorKind, id))
    ensures library.GetBooksByAuthorId(id) == Err(NotFound(AuthorKind, id))
  {
    first := library.DeleteAuthor(id);
    second := library.DeleteAuthor(id);
  }

  /** Updating a book with no author, or with an author without an id, keeps the book's author. */
  method UpdateBookKeepsAuthor(library: LibraryService, id: BookId, title: string, isbn: Option<string>, withEmptyAuthor: bool)
    returns (r: Result<Book, Error>)
    requires library.store.Valid() && id in library.store.books
    requires IsbnFreeFor(library.store.books, isbn, id)
    modifies library.store
    ensures library.store.Valid()
    ensures r.Ok? && r.value.title == title && r.value.isbn == isbn
    ensures r.value.authorId == old(library.store.books)[id].authorId
    ensures library.GetAuthorOfBook(id) == old(library.GetAuthorOfBook(id))
  {
    var ref := if withEmptyAuthor then AuthorRef(None) else NoAuthor;
    r := library.UpdateBook(id, BookDetails(title, isbn, ref));
  }

  /**
   * Moving a stored book to an author id that is not stored is not-found
   * whatever isbn the details carry, even one another book holds: the author
   * lookup fails before anything is saved.
   */
  method UpdateBookToMissingAuthor(library: LibraryService, id: BookId, title: string, isbn: Option<string>, missing: AuthorId)
    returns (r: Result<Book, Error>)
    requires library.store.Valid() && id in library.store.books && missing !in library.store.authors
    modifies library.store
    ensures r == Err(NotFound(AuthorKind, missing))
    ensures library.GetBookById(id) == old(library.GetBookById(id))
  {
    r := library.UpdateBook(id, BookDetails(title, isbn, AuthorRef(Some(missing))));
  }
}
