/**
 * The older author service over the same store. It reports a missing author
 * with a plain runtime error rather than the not-found exception, and reads an
 * author's books through the author's `books` collection.
 */
module Authors {
  import opened Wrappers
  import opened Entities
  import opened BookRepository
  import opened Store
  import opened Library

  /** The message of the runtime error raised for a missing author. */
  const AuthorNotFound := "Author not found"

  class AuthorService {
    /** The author repository, with the collections it loads, as one store. */
    const store: Store

    constructor (store: Store)
      ensures this.store == store
    {
      this.store := store;
    }

    /** `findAllAuthors`: every stored author. */
    function FindAllAuthors(): (r: set<Author>)
      requires store.Valid()
      reads store
      ensures forall a :: a in r <==> a.id in store.authors && store.authors[a.id] == a
    {
      store.authors.Values
    }

    /** `findAuthorById`: the stored author if there is one; it never fails. */
    function FindAuthorById(id: AuthorId): (r: Option<Author>)
      reads store
      ensures r.Some? <==> id in store.authors
      ensures r.Some? ==> r.value == store.authors[id]
    {
      if id in store.authors then Some(store.authors[id]) else None
    }

    /** `saveAuthor`: one author row is added, or overwritten when the id names a stored author; books stay. */
    method SaveAuthor(author: AuthorDetails) returns (a: Author)
      requires store.Valid()
      modifies store
      ensures store.Valid()
      ensures a.name == author.name && FindAuthorById(a.id) == Some(a)
      ensures store.authors == old(store.authors)[a.id := a]
      ensures store.books == old(store.books) && store.nextBookId == old(store.nextBookId)
      ensures author.id.Some? && author.id.value in old(store.authors) ==>
                a.id == author.id.value && store.authorBooks == old(store.authorBooks) && store.nextAuthorId == old(store.nextAuthorId)
      ensures !(author.id.Some? && author.id.value in old(store.authors)) ==>
                && a.id !in old(store.authors) && store.authorBooks == old(store.authorBooks)[a.id := {}]
                && a.id == old(store.nextAuthorId) && store.nextAuthorId == old(store.nextAuthorId) + 1
    {
      a := store.SaveAuthor(author);
    }

    /** `updateAuthor`: only the name of a stored author changes; a missing id is a runtime error. */
    method UpdateAuthor(id: AuthorId, authorDetails: AuthorDetails) returns (r: Result<Author, Error>)
      requires store.Valid()
      modifies store
      ensures store.Valid()
      ensures id !in old(store.authors) ==> r == Err(Failure(AuthorNotFound)) && unchanged(store)
      ensures id in old(store.authors) ==>
                && r == Ok(Author(id, authorDetails.name))
                && store.authors == old(store.authors)[id := Author(id, authorDetails.name)]
                && store.books == old(store.books) && store.authorBooks == old(store.authorBooks)
                && store.nextAuthorId == old(store.nextAuthorId) && store.nextBookId == old(store.nextBookId)
    {
      var found := FindAuthorById(id);
      if found.None? {
        return Err(Failure(AuthorNotFound));
      }
      var a := store.SaveAuthor(AuthorDetails(Some(id), authorDetails.name));
      r := Ok(a);
    }

    /**
     * `deleteAuthor`: a plain delete by id. A stored author goes with all its
     * books. For a missing id the outcome is the repository's: nothing changes,
     * and the call either succeeds or raises a runtime error.
     */
    method DeleteAuthor(id: AuthorId) returns (r: Result<(), Error>)
      requires store.Valid()
      modifies store
      ensures store.Valid()
      ensures id in old(store.authors) ==>
                && r == Ok(())
                && store.authors == old(store.authors) - {id}
                && store.books == Cascade(old(store.books), id)
                && store.nextAuthorId == old(store.nextAuthorId) && store.nextBookId == old(store.nextBookId)
      ensures id !in old(store.authors) ==> unchanged(store) && (r.Ok? || r.error.Failure?)
    {
      if id in store.authors {
        store.DeleteAuthor(id);
        r := Ok(());
      } else {
        r := Err(Failure("No entity with the given id exists"));
      }
    }

    /** `findBooksByAuthorId`: the `books` collection of a stored author; a missing author is a runtime error. */
    function FindBooksByAuthorId(authorId: AuthorId): (r: Result<BookTable, Error>)
      requires store.Valid()
      reads store
      ensures r.Ok? <==> authorId in store.authors
      ensures r.Err? ==> r.error == Failure(AuthorNotFound)
      ensures r.Ok? ==> SubTable(r.value, store.books)
      ensures r.Ok? ==> forall k :: k in r.value <==> k in store.books && store.books[k].authorId == authorId
    {
      if authorId !in store.authors then Err(Failure(AuthorNotFound))
      else Ok(map k | k in store.authorBooks[authorId] :: store.books[k])
    }
  }

  /**
   * Over one store, the author's `books` collection and the library service's
   * `findByAuthorId` query give the same books, and both fail for the same ids.
   */
  lemma BooksOfAuthorAgree(library: LibraryService, legacy: AuthorService, authorId: AuthorId)
    requires library.store == legacy.store && legacy.store.Valid()
    ensures legacy.FindBooksByAuthorId(authorId).Ok? == library.GetBooksByAuthorId(authorId).Ok?
    ensures legacy.FindBooksByAuthorId(authorId).Ok? ==>
              legacy.FindBooksByAuthorId(authorId).value == library.GetBooksByAuthorId(authorId).value
  {
    if authorId in legacy.store.authors {
      var mine, theirs := legacy.FindBooksByAuthorId(authorId).value, library.GetBooksByAuthorId(authorId).value;
      assert mine.Keys == theirs.Keys;
    }
  }

  /** Both services see the same authors, and find the same author for every id. */
  lemma AuthorLookupsAgree(library: LibraryService, legacy: AuthorService, id: AuthorId)
    requires library.store == legacy.store
    ensures legacy.FindAuthorById(id).Some? == library.GetAuthorById(id).Ok?
    ensures legacy.FindAuthorById(id).Some? ==> legacy.FindAuthorById(id).value == library.GetAuthorById(id).value
  {
  }
}
