/**
 * The library service: every author and book operation, run over one store.
 * Each operation is one transaction: when it fails, the store is as it was.
 * Every failed lookup by id raises the single not-found exception.
 */
module Library {
  import opened Wrappers
  import opened Entities
  import opened BookRepository
  import opened Store

  class LibraryService {
    /** The author and book repositories, as one store. */
    const store: Store

    constructor (store: Store)
      ensures this.store == store
    {
      this.store := store;
    }

    /** `getAllAuthors`: every stored author. */
    function GetAllAuthors(): (r: set<Author>)
      requires store.Valid()
      reads store
      ensures forall a :: a in r <==> a.id in store.authors && store.authors[a.id] == a
    {
      store.authors.Values
    }

    /** `getAuthorById`: the stored author, or not-found. */
    function GetAuthorById(id: AuthorId): (r: Result<Author, Error>)
      reads store
      ensures r.Ok? <==> id in store.authors
      ensures r.Ok? ==> r.value == store.authors[id]
      ensures r.Err? ==> r.error == NotFound(AuthorKind, id)
    {
      if id in store.authors then Ok(store.authors[id]) else Err(NotFound(AuthorKind, id))
    }

    /** `createAuthor`: the author is saved unconditionally; no check on its name. */
    method CreateAuthor(author: AuthorDetails) returns (a: Author)
      requires store.Valid()
      modifies store
      ensures store.Valid()
      ensures a.name == author.name && GetAuthorById(a.id) == Ok(a)
      ensures store.authors == old(store.authors)[a.id := a] && store.books == old(store.books)
      ensures store.nextBookId == old(store.nextBookId)
      ensures author.id.Some? && author.id.value in old(store.authors) ==>
                a.id == author.id.value && store.authorBooks == old(store.authorBooks) && store.nextAuthorId == old(store.nextAuthorId)
      ensures !(author.id.Some? && author.id.value in old(store.authors)) ==>
                && a.id !in old(store.authors) && store.authorBooks == old(store.authorBooks)[a.id := {}]
                && a.id == old(store.nextAuthorId) && store.nextAuthorId == old(store.nextAuthorId) + 1
    {
      a := store.SaveAuthor(author);
    }

    /** `updateAuthor`: only the name of a stored author changes. */
    method UpdateAuthor(id: AuthorId, authorDetails: AuthorDetails) returns (r: Result<Author, Error>)
      requires store.Valid()
      modifies store
      ensures store.Valid()
      ensures id !in old(store.authors) ==> r == Err(NotFound(AuthorKind, id)) && unchanged(store)
      ensures id in old(store.authors) ==>
                && r == Ok(Author(id, authorDetails.name))
                && store.authors == old(store.authors)[id := Author(id, authorDetails.name)]
                && store.books == old(store.books) && store.authorBooks == old(store.authorBooks)
                && store.nextAuthorId == old(store.nextAuthorId) && store.nextBookId == old(store.nextBookId)
    {
      var found := GetAuthorById(id);
      if found.Err? {
        return Err(found.error);
      }
      var a := store.SaveAuthor(AuthorDetails(Some(id), authorDetails.name));
      r := Ok(a);
    }

    /**
     * `deleteAuthor`: a stored author is deleted and, by cascade, every book of
     * it; a missing id is not-found, so deleting twice fails the second time.
     */
    method DeleteAuthor(id: AuthorId) returns (r: Result<(), Error>)
      requires store.Valid()
      modifies store
      ensures store.Valid()
      ensures id !in old(store.authors) ==> r == Err(NotFound(AuthorKind, id)) && unchanged(store)
      ensures id in old(store.authors) ==>
                && r == Ok(())
                && store.authors == old(store.authors) - {id}
                && store.books == Cascade(old(store.books), id)
                && |store.books| == |old(store.books)| - CountByAuthorId(old(store.books), id)
                && store.nextAuthorId == old(store.nextAuthorId) && store.nextBookId == old(store.nextBookId)
      ensures r.Ok? ==> GetBooksByAuthorId(id) == Err(NotFound(AuthorKind, id))
      ensures forall k :: k in store.books ==> store.books[k].authorId != id
      ensures forall a :: a != id ==> GetBooksByAuthorId(a) == old(GetBooksByAuthorId(a))
    {
      var found := GetAuthorById(id);
      if found.Err? {
        return Err(found.error);
      }
      CascadeRemovesExactlyTheAuthorsBooks(store.books, id);
      forall a | a != id
        ensures FindByAuthorId(Cascade(store.books, id), a) == FindByAuthorId(store.books, a)
      {
        CascadeKeepsOtherAuthorsBooks(store.books, id, a);
      }
      store.DeleteAuthor(id);
      r := Ok(());
    }

    /** `getAllBooks`: every stored book. */
    function GetAllBooks(): (r: set<Book>)
      requires store.Valid()
      reads store
      ensures forall b :: b in r <==> b.id in store.books && store.books[b.id] == b
    {
      store.books.Values
    }

    /** `getBookById`: the stored book, or not-found. */
    function GetBookById(id: BookId): (r: Result<Book, Error>)
      reads store
      ensures r.Ok? <==> id in store.books
      ensures r.Ok? ==> r.value == store.books[id]
      ensures r.Err? ==> r.error == NotFound(BookKind, id)
    {
      if id in store.books then Ok(store.books[id]) else Err(NotFound(BookKind, id))
    }

    /**
     * `createBook`: the book is saved only when its author id names a stored
     * author, and then it is linked to that author. The caller must supply an
     * author with an id, and an isbn no stored book holds.
     */
    method CreateBook(book: BookDetails) returns (r: Result<Book, Error>)
      requires store.Valid()
      requires SuppliedAuthorId(book.author).Some?
      requires SuppliedAuthorId(book.author).value in store.authors ==> IsbnUnused(store.books, book.isbn)
      modifies store
      ensures store.Valid()
      ensures var a := SuppliedAuthorId(book.author).value;
              a !in old(store.authors) ==> r == Err(NotFound(AuthorKind, a)) && unchanged(store)
      ensures var a := SuppliedAuthorId(book.author).value;
              a in old(store.authors) ==>
                && r.Ok? && r.value == Book(r.value.id, book.title, book.isbn, a)
                && r.value.id !in old(store.books)
                && store.books == old(store.books)[r.value.id := r.value]
                && |store.books| == |old(store.books)| + 1
                && store.authors == old(store.authors)
                && r.value.id == old(store.nextBookId)
                && store.nextAuthorId == old(store.nextAuthorId) && store.nextBookId == old(store.nextBookId) + 1
                && GetAuthorOfBook(r.value.id) == Ok(old(store.authors)[a])
    {
      var a := SuppliedAuthorId(book.author).value;
      var author := GetAuthorById(a);
      if author.Err? {
        return Err(author.error);
      }
      var b := store.InsertBook(book.title, book.isbn, author.value.id);
      r := Ok(b);
    }

    /**
     * `updateBook`: title and isbn are always overwritten; the author is
     * replaced only when the details carry an author with an id, and then only
     * by a stored author. A missing book or a missing new author is not-found.
     */
    method UpdateBook(id: BookId, bookDetails: BookDetails) returns (r: Result<Book, Error>)
      requires store.Valid()
      requires var supplied := SuppliedAuthorId(bookDetails.author);
               id in store.books && (supplied.None? || supplied.value in store.authors) ==>
                 IsbnFreeFor(store.books, bookDetails.isbn, id)
      modifies store
      ensures store.Valid()
      ensures r.Err? ==> unchanged(store)
      ensures id !in old(store.books) ==> r == Err(NotFound(BookKind, id))
      ensures var supplied := SuppliedAuthorId(bookDetails.author);
              id in old(store.books) && supplied.Some? && supplied.value !in old(store.authors) ==>
                r == Err(NotFound(AuthorKind, supplied.value))
      ensures var supplied := SuppliedAuthorId(bookDetails.author);
              id in old(store.books) && (supplied.None? || supplied.value in old(store.authors)) ==>
                && r == Ok(Book(id, bookDetails.title, bookDetails.isbn,
                                if supplied.Some? then supplied.value else old(store.books)[id].authorId))
                && store.books == old(store.books)[id := r.value]
                && store.authors == old(store.authors)
                && store.nextAuthorId == old(store.nextAuthorId) && store.nextBookId == old(store.nextBookId)
    {
      var found := GetBookById(id);
      if found.Err? {
        return Err(found.error);
      }
      var book := found.value.(title := bookDetails.title, isbn := bookDetails.isbn);
      var supplied := SuppliedAuthorId(bookDetails.author);
      if supplied.Some? {
        var author := GetAuthorById(supplied.value);
        if author.Err? {
          return Err(author.error);
        }
        book := book.(authorId := author.value.id);
      }
      store.UpdateBook(book);
      r := Ok(book);
    }

    /** `deleteBook`: exactly that book goes; no cascade. */
    method DeleteBook(id: BookId) returns (r: Result<(), Error>)
      requires store.Valid()
      modifies store
      ensures store.Valid()
      ensures id !in old(store.books) ==> r == Err(NotFound(BookKind, id)) && unchanged(store)
      ensures id in old(store.books) ==>
                && r == Ok(())
                && store.books == old(store.books) - {id}
                && |store.books| == |old(store.books)| - 1
                && store.authors == old(store.authors)
                && store.nextAuthorId == old(store.nextAuthorId) && store.nextBookId == old(store.nextBookId)
    {
      var found := GetBookById(id);
      if found.Err? {
        return Err(found.error);
      }
      store.DeleteBook(id);
      r := Ok(());
    }

    /**
     * `getBooksByAuthorId`: not-found when the author is not stored, otherwise
     * the (possibly empty) table of its books: the author's `books` collection.
     */
    function GetBooksByAuthorId(authorId: AuthorId): (r: Result<BookTable, Error>)
      reads store
      ensures r.Ok? <==> authorId in store.authors
      ensures r.Err? ==> r.error == NotFound(AuthorKind, authorId)
      ensures r.Ok? ==> SubTable(r.value, store.books) && forall k :: k in r.value ==> r.value[k].authorId == authorId
      ensures r.Ok? ==> |r.value| == CountByAuthorId(store.books, authorId)
      ensures store.Valid() && r.Ok? ==> r.value.Keys == store.authorBooks[authorId]
    {
      CountMatchesFind(store.books, authorId);
      if authorId !in store.authors then Err(NotFound(AuthorKind, authorId))
      else Ok(FindByAuthorId(store.books, authorId))
    }

    /** `getAuthorOfBook`: the author the stored book refers to, or not-found for the book. */
    function GetAuthorOfBook(bookId: BookId): (r: Result<Author, Error>)
      requires store.Valid()
      reads store
      ensures r.Ok? <==> bookId in store.books
      ensures r.Err? ==> r.error == NotFound(BookKind, bookId)
      ensures r.Ok? ==> && r.value.id == store.books[bookId].authorId
                        && GetAuthorById(r.value.id) == Ok(r.value)
                        && bookId in store.authorBooks[r.value.id]
    {
      var book :- GetBookById(bookId);
      Ok(store.authors[book.authorId])
    }
  }
}
