/**
 * The persistent store behind the two repositories: the author table, the
 * book table, each author's `books` collection (the inverse side of
 * `Book.author`) and the IDENTITY counters that hand out new ids. Its methods
 * are the repository operations the services call: save (insert or update),
 * delete, and the cascade and orphan removal that the `books` mapping
 * (`cascade = ALL, orphanRemoval = true`) attaches to them.
 */
module Store {
  import opened Wrappers
  import opened Entities
  import opened BookRepository

  /** The book table once author `a` is deleted with cascade: only the books of other authors remain. */
  function Cascade(books: BookTable, a: AuthorId): (r: BookTable)
    ensures SubTable(r, books)
    ensures forall k :: k in r ==> r[k].authorId != a
  {
    map k | k in books && books[k].authorId != a :: books[k]
  }

  /** The inverse collections once book `k` moves from author `from` to author `to`. */
  function Relink(authorBooks: map<AuthorId, set<BookId>>, k: BookId, from: AuthorId, to: AuthorId): map<AuthorId, set<BookId>>
    requires from in authorBooks && to in authorBooks
  {
    var detached := authorBooks[from := authorBooks[from] - {k}];
    detached[to := detached[to] + {k}]
  }

  /** The cascade removes exactly the books `findByAuthorId(a)` returns and keeps every other row. */
  lemma CascadeRemovesExactlyTheAuthorsBooks(books: BookTable, a: AuthorId)
    ensures forall k :: k in Cascade(books, a) ==> books[k].authorId != a
    ensures SubTable(Cascade(books, a), books)
    ensures Cascade(books, a).Keys + FindByAuthorId(books, a).Keys == books.Keys
    ensures |Cascade(books, a)| == |books| - CountByAuthorId(books, a)
  {
    var kept, gone := Cascade(books, a).Keys, FindByAuthorId(books, a).Keys;
    assert kept !! gone;
    assert kept + gone == books.Keys;
    assert |kept + gone| == |kept| + |gone|;
    CountMatchesFind(books, a);
    assert |Cascade(books, a)| == |kept|;
    assert |FindByAuthorId(books, a)| == |gone|;
  }

  /** The cascade for author `a` leaves the books of every other author as they were. */
  lemma CascadeKeepsOtherAuthorsBooks(books: BookTable, a: AuthorId, other: AuthorId)
    requires other != a
    ensures FindByAuthorId(Cascade(books, a), other) == FindByAuthorId(books, other)
  {
  }

  /** Inserting a fresh author with an empty `books` collection keeps the store consistent. */
  lemma InsertAuthorKeepsConsistent(authors: AuthorTable, books: BookTable, authorBooks: map<AuthorId, set<BookId>>, a: Author)
    requires Consistent(authors, books, authorBooks)
    requires a.id !in authors
    ensures Consistent(authors[a.id := a], books, authorBooks[a.id := {}])
  {
  }

  /** Renaming a stored author keeps the store consistent. */
  lemma RenameAuthorKeepsConsistent(authors: AuthorTable, books: BookTable, authorBooks: map<AuthorId, set<BookId>>, id: AuthorId, name: string)
    requires Consistent(authors, books, authorBooks)
    requires id in authors
    ensures Consistent(authors[id := Author(id, name)], books, authorBooks)
  {
  }

  /** Deleting a stored author together with its books keeps the store consistent. */
  lemma CascadeKeepsConsistent(authors: AuthorTable, books: BookTable, authorBooks: map<AuthorId, set<BookId>>, a: AuthorId)
    requires Consistent(authors, books, authorBooks)
    requires a in authors
    ensures Consistent(authors - {a}, Cascade(books, a), authorBooks - {a})
  {
  }

  /** Inserting a book of a stored author, with an unused isbn, keeps the store consistent. */
  lemma InsertBookKeepsConsistent(authors: AuthorTable, books: BookTable, authorBooks: map<AuthorId, set<BookId>>, b: Book)
    requires Consistent(authors, books, authorBooks)
    requires b.id !in books && b.authorId in authors && IsbnUnused(books, b.isbn)
    ensures Consistent(authors, books[b.id := b], authorBooks[b.authorId := authorBooks[b.authorId] + {b.id}])
  {
  }

  /** Overwriting a stored book, possibly with another stored author, keeps the store consistent. */
  lemma ReplaceBookKeepsConsistent(authors: AuthorTable, books: BookTable, authorBooks: map<AuthorId, set<BookId>>, b: Book)
    requires Consistent(authors, books, authorBooks)
    requires b.id in books && b.authorId in authors && IsbnFreeFor(books, b.isbn, b.id)
    ensures Consistent(authors, books[b.id := b], Relink(authorBooks, b.id, books[b.id].authorId, b.authorId))
  {
    var from := books[b.id].authorId;
    var books', authorBooks' := books[b.id := b], Relink(authorBooks, b.id, from, b.authorId);
    forall a, k | a in authorBooks' && k in authorBooks'[a]
      ensures k in books' && books'[k].authorId == a
    {
      if k != b.id {
        assert k in authorBooks[a];
      }
    }
  }

  /** Deleting a stored book keeps the store consistent. */
  lemma RemoveBookKeepsConsistent(authors: AuthorTable, books: BookTable, authorBooks: map<AuthorId, set<BookId>>, k: BookId)
    requires Consistent(authors, books, authorBooks)
    requires k in books
    ensures Consistent(authors, books - {k}, authorBooks[books[k].authorId := authorBooks[books[k].authorId] - {k}])
  {
  }

  class Store {
    var authors: AuthorTable
    var books: BookTable
    /** The `books` collection of each stored author. */
    var authorBooks: map<AuthorId, set<BookId>>
    /** The next value of each IDENTITY column. */
    var nextAuthorId: AuthorId
    var nextBookId: BookId

    /** The mapping constraints hold, and no stored id has reached its counter. */
    ghost predicate Valid()
      reads this
    {
      && Consistent(authors, books, authorBooks)
      && (forall a :: a in authors ==> a < nextAuthorId)
      && (forall k :: k in books ==> k < nextBookId)
    }

    /** An empty store; IDENTITY columns start at 1. */
    constructor ()
      ensures Valid()
      ensures authors == map[] && books == map[] && authorBooks == map[]
      ensures nextAuthorId == 1 && nextBookId == 1
    {
      authors, books, authorBooks := map[], map[], map[];
      nextAuthorId, nextBookId := 1, 1;
    }

    /**
     * `save` of an author: an incoming id that names a stored author updates
     * that row's name; otherwise a new row is inserted under a fresh id.
     */
    method SaveAuthor(details: AuthorDetails) returns (a: Author)
      requires Valid()
      modifies this
      ensures Valid()
      ensures a.name == details.name
      ensures books == old(books) && nextBookId == old(nextBookId)
      ensures authors == old(authors)[a.id := a]
      ensures details.id.Some? && details.id.value in old(authors) ==>
                a.id == details.id.value && authorBooks == old(authorBooks) && nextAuthorId == old(nextAuthorId)
      ensures !(details.id.Some? && details.id.value in old(authors)) ==>
                && a.id == old(nextAuthorId) && a.id !in old(authors)
                && authorBooks == old(authorBooks)[a.id := {}] && nextAuthorId == old(nextAuthorId) + 1
    {
      if details.id.Some? && details.id.value in authors {
        a := Author(details.id.value, details.name);
        RenameAuthorKeepsConsistent(authors, books, authorBooks, a.id, a.name);
        authors := authors[a.id := a];
      } else {
        a := Author(nextAuthorId, details.name);
        InsertAuthorKeepsConsistent(authors, books, authorBooks, a);
        authors := authors[a.id := a];
        authorBooks := authorBooks[a.id := {}];
        nextAuthorId := nextAuthorId + 1;
      }
    }

    /** `delete` of a stored author: the cascade deletes every book of that author with it. */
    method DeleteAuthor(id: AuthorId)
      requires Valid()
      requires id in authors
      modifies this
      ensures Valid()
      ensures authors == old(authors) - {id}
      ensures books == Cascade(old(books), id)
      ensures authorBooks == old(authorBooks) - {id}
      ensures nextAuthorId == old(nextAuthorId) && nextBookId == old(nextBookId)
    {
      CascadeKeepsConsistent(authors, books, authorBooks, id);
      authors := authors - {id};
      books := Cascade(books, id);
      authorBooks := authorBooks - {id};
    }

    /** `save` of a new book of a stored author: a row under a fresh id, added to the author's collection. */
    method InsertBook(title: string, isbn: Option<string>, authorId: AuthorId) returns (b: Book)
      requires Valid()
      requires authorId in authors && IsbnUnused(books, isbn)
      modifies this
      ensures Valid()
      ensures b == Book(old(nextBookId), title, isbn, authorId) && b.id !in old(books)
      ensures books == old(books)[b.id := b]
      ensures authorBooks == old(authorBooks)[authorId := old(authorBooks)[authorId] + {b.id}]
      ensures authors == old(authors) && nextAuthorId == old(nextAuthorId) && nextBookId == old(nextBookId) + 1
    {
      b := Book(nextBookId, title, isbn, authorId);
      InsertBookKeepsConsistent(authors, books, authorBooks, b);
      books := books[b.id := b];
      authorBooks := authorBooks[authorId := authorBooks[authorId] + {b.id}];
      nextBookId := nextBookId + 1;
    }

    /** `save` of a stored book: its row is overwritten and it moves to its (new) author's collection. */
    method UpdateBook(b: Book)
      requires Valid()
      requires b.id in books && b.authorId in authors && IsbnFreeFor(books, b.isbn, b.id)
      modifies this
      ensures Valid()
      ensures books == old(books)[b.id := b]
      ensures authorBooks == Relink(old(authorBooks), b.id, old(books)[b.id].authorId, b.authorId)
      ensures authors == old(authors) && nextAuthorId == old(nextAuthorId) && nextBookId == old(nextBookId)
    {
      ReplaceBookKeepsConsistent(authors, books, authorBooks, b);
      authorBooks := Relink(authorBooks, b.id, books[b.id].authorId, b.authorId);
      books := books[b.id := b];
    }

    /** `delete` of a stored book: its row goes, and so does its place in its author's collection. */
    method DeleteBook(id: BookId)
      requires Valid()
      requires id in books
      modifies this
      ensures Valid()
      ensures books == old(books) - {id}
      ensures authorBooks == old(authorBooks)[old(books)[id].authorId := old(authorBooks)[old(books)[id].authorId] - {id}]
      ensures authors == old(authors) && nextAuthorId == old(nextAuthorId) && nextBookId == old(nextBookId)
    {
      var a := books[id].authorId;
      RemoveBookKeepsConsistent(authors, books, authorBooks, id);
      authorBooks := authorBooks[a := authorBooks[a] - {id}];
      books := books - {id};
    }

    /**
     * Orphan removal: taking book `id` out of the `books` collection of author
     * `a` deletes the book. A book that is not in that collection is left alone.
     */
    method RemoveFromAuthorBooks(a: AuthorId, id: BookId)
      requires Valid()
      requires a in authors
      modifies this
      ensures Valid()
      ensures id in old(authorBooks)[a] ==> books == old(books) - {id} && authorBooks == old(authorBooks)[a := old(authorBooks)[a] - {id}]
      ensures id !in old(authorBooks)[a] ==> books == old(books) && authorBooks == old(authorBooks)
      ensures authors == old(authors) && nextAuthorId == old(nextAuthorId) && nextBookId == old(nextBookId)
    {
      if id in authorBooks[a] {
        DeleteBook(id);
      }
    }
  }
}
