/**
 * The derived and hand-written queries of the book repository, as filters over
 * the book table. A query that returns a list returns here the sub-table of
 * the matching books (the query has no ORDER BY, so its order is left open).
 * Queries that go through `b.author` join the author table: a book whose
 * author row is missing takes no part in them.
 */
module BookRepository {
  import opened Wrappers
  import opened Text
  import opened Entities

  /** The author of `b` is stored and `name` is its name. */
  predicate AuthorNamed(authors: AuthorTable, b: Book, name: string) {
    b.authorId in authors && authors[b.authorId].name == name
  }

  /** The author of `b` is stored and its name contains `k`, ignoring case. */
  predicate AuthorNameContainsIgnoreCase(authors: AuthorTable, b: Book, k: string) {
    b.authorId in authors && ContainsIgnoreCase(authors[b.authorId].name, k)
  }

  /** `findByTitle`: exact title match. */
  function FindByTitle(books: BookTable, title: string): (r: BookTable)
    ensures SubTable(r, books)
  {
    map k | k in books && books[k].title == title :: books[k]
  }

  /** `findByTitleContainingIgnoreCase`: the title contains `title`, ignoring case. */
  function FindByTitleContainingIgnoreCase(books: BookTable, title: string): (r: BookTable)
    ensures SubTable(r, books)
  {
    map k | k in books && ContainsIgnoreCase(books[k].title, title) :: books[k]
  }

  /** `existsByIsbn`: some stored book holds the isbn, so the isbn is not free for a new book. */
  predicate ExistsByIsbn(books: BookTable, isbn: string)
    ensures ExistsByIsbn(books, isbn) <==> !IsbnUnused(books, Some(isbn))
  {
    exists k :: k in books && books[k].isbn == Some(isbn)
  }

  /** `findByIsbn`: the one book with that isbn, if any; the isbn column is unique. */
  function FindByIsbn(books: BookTable, isbn: string): (r: Option<Book>)
    requires IsbnUnique(books)
    ensures r.Some? <==> ExistsByIsbn(books, isbn)
    ensures r.Some? ==> r.value in books.Values && r.value.isbn == Some(isbn)
  {
    if ExistsByIsbn(books, isbn) then
      var k :| k in books && books[k].isbn == Some(isbn);
      Some(books[k])
    else
      None
  }

  /** `findByAuthorId`: the books whose author id is `authorId`. */
  function FindByAuthorId(books: BookTable, authorId: AuthorId): (r: BookTable)
    ensures SubTable(r, books)
  {
    map k | k in books && books[k].authorId == authorId :: books[k]
  }

  /** `countByAuthorId`: how many stored books have author id `authorId`. */
  function CountByAuthorId(books: BookTable, authorId: AuthorId): (r: nat)
    ensures r <= |books|
    ensures r == 0 <==> forall k :: k in books ==> books[k].authorId != authorId
  {
    var counted := set k | k in books && books[k].authorId == authorId;
    SubsetNoLarger(counted, books.Keys);
    assert (forall k :: k in books ==> books[k].authorId != authorId) ==> counted == {};
    assert forall k :: k in books && books[k].authorId == authorId ==> k in counted && |counted| != 0;
    |counted|
  }

  /** A subset has no more elements than the set it is taken from. */
  lemma {:induction false} SubsetNoLarger(s: set<BookId>, t: set<BookId>)
    requires s <= t
    ensures |s| <= |t|
    decreases t
  {
    if s != {} {
      var x :| x in s;
      SubsetNoLarger(s - {x}, t - {x});
    }
  }

  /** `findByAuthorName`: the property path `author.name` equals `name`. */
  function FindByAuthorName(authors: AuthorTable, books: BookTable, name: string): (r: BookTable)
    ensures SubTable(r, books) && forall k :: k in r ==> r[k].authorId in authors
  {
    map k | k in books && AuthorNamed(authors, books[k], name) :: books[k]
  }

  /** `findByAuthorNameContainingIgnoreCase`. */
  function FindByAuthorNameContainingIgnoreCase(authors: AuthorTable, books: BookTable, name: string): (r: BookTable)
    ensures SubTable(r, books) && forall k :: k in r ==> r[k].authorId in authors
  {
    map k | k in books && AuthorNameContainsIgnoreCase(authors, books[k], name) :: books[k]
  }

  /**
   * `findBooksByAuthorName`, the JPQL `SELECT b FROM Book b WHERE b.author.name = :authorName`:
   * an inner join of the book table with the author table.
   */
  function FindBooksByAuthorName(authors: AuthorTable, books: BookTable, name: string): (r: BookTable)
    ensures SubTable(r, books) && forall k :: k in r ==> r[k].authorId in authors
  {
    map k | k in books && (exists a :: a in authors && books[k].authorId == a && authors[a].name == name) :: books[k]
  }

  /**
   * `findByTitleOrAuthorNameContaining` as written: the JPQL joins the author
   * and compares `LOWER(b.title)` and `LOWER(b.author.name)` with the pattern
   * `LOWER(CONCAT('%', :keyword, '%'))` using `LIKE`, so '%' and '_' in the
   * keyword are wildcards.
   */
  function FindByTitleOrAuthorNameContaining(authors: AuthorTable, books: BookTable, keyword: string): (r: BookTable)
    ensures SubTable(r, books) && forall k :: k in r ==> r[k].authorId in authors
  {
    map k | k in books && books[k].authorId in authors
                       && (|| Like(Lower(books[k].title), Lower(InfixPattern(keyword)))
                           || Like(Lower(authors[books[k].authorId].name), Lower(InfixPattern(keyword))))
          :: books[k]
  }

  /**
   * `findByTitleOrAuthorNameContaining` as its name and the derived queries
   * beside it intend: the keyword is matched literally, as a substring.
   */
  function FindByTitleOrAuthorNameContainingLiterally(authors: AuthorTable, books: BookTable, keyword: string): (r: BookTable)
    ensures SubTable(r, books) && forall k :: k in r ==> r[k].authorId in authors
    ensures forall k :: k in r ==> ContainsIgnoreCase(r[k].title, keyword) || ContainsIgnoreCase(authors[r[k].authorId].name, keyword)
  {
    map k | k in books && books[k].authorId in authors
                       && (|| ContainsIgnoreCase(books[k].title, keyword)
                           || ContainsIgnoreCase(authors[books[k].authorId].name, keyword))
          :: books[k]
  }

  /** Every row of `r` is a row of `t`. */
  predicate SubTable(r: BookTable, t: BookTable) {
    forall k :: k in r ==> k in t && r[k] == t[k]
  }

  /** `countByAuthorId` counts exactly the books `findByAuthorId` returns. */
  lemma CountMatchesFind(books: BookTable, authorId: AuthorId)
    ensures CountByAuthorId(books, authorId) == |FindByAuthorId(books, authorId)|
  {
    var found := FindByAuthorId(books, authorId);
    assert found.Keys == set k | k in books && books[k].authorId == authorId;
    assert |found| == |found.Keys|;
  }

  /**
   * With the unique isbn column, `findByIsbn` finds the one book holding the
   * isbn, and `existsByIsbn` is true exactly when it finds one.
   */
  lemma FindByIsbnFindsTheHolder(books: BookTable, isbn: string)
    requires IsbnUnique(books)
    ensures ExistsByIsbn(books, isbn) <==> FindByIsbn(books, isbn).Some?
    ensures FindByIsbn(books, isbn).Some? ==>
              FindByIsbn(books, isbn).value in books.Values && FindByIsbn(books, isbn).value.isbn == Some(isbn)
    ensures forall k :: k in books && books[k].isbn == Some(isbn) ==> FindByIsbn(books, isbn) == Some(books[k])
  {
    if ExistsByIsbn(books, isbn) {
      var k :| k in books && books[k].isbn == Some(isbn);
      assert FindByIsbn(books, isbn) == Some(books[k]);
    }
  }

  /** An exact title match is also a case-insensitive substring match. */
  lemma ExactTitleWithinIgnoreCase(books: BookTable, title: string)
    ensures SubTable(FindByTitle(books, title), FindByTitleContainingIgnoreCase(books, title))
  {
    ContainsItself(Lower(title));
  }

  /** The case-insensitive title search gives the same books for every case variant of the keyword. */
  lemma TitleSearchIgnoresKeywordCase(books: BookTable, title: string, variant: string)
    requires CaseVariant(title, variant)
    ensures FindByTitleContainingIgnoreCase(books, title) == FindByTitleContainingIgnoreCase(books, variant)
  {
    CaseVariantsFoldAlike(title, variant);
  }

  /** The JPQL join `b.author.name = :authorName` selects the same books as the derived `findByAuthorName`. */
  lemma JoinQueryMatchesDerivedQuery(authors: AuthorTable, books: BookTable, name: string)
    ensures FindBooksByAuthorName(authors, books, name) == FindByAuthorName(authors, books, name)
  {
    forall k | k in books && AuthorNamed(authors, books[k], name)
      ensures exists a :: a in authors && books[k].authorId == a && authors[a].name == name
    {
      var a := books[k].authorId;
      assert a in authors && authors[a].name == name;
    }
  }

  /**
   * When every book's author is stored, the literal keyword search is the
   * union of the two case-insensitive searches, on title and on author name.
   */
  lemma LiteralKeywordSearchIsUnion(authors: AuthorTable, books: BookTable, keyword: string)
    requires RefIntegrity(authors, books)
    ensures FindByTitleOrAuthorNameContainingLiterally(authors, books, keyword)
         == FindByTitleContainingIgnoreCase(books, keyword) + FindByAuthorNameContainingIgnoreCase(authors, books, keyword)
  {
  }

  /** Folding a keyword without wildcards neither adds a wildcard nor disturbs the pattern. */
  lemma FoldedInfixPattern(keyword: string)
    requires NoWildcards(keyword)
    ensures NoWildcards(Lower(keyword))
    ensures Lower(InfixPattern(keyword)) == InfixPattern(Lower(keyword))
  {
    var p, q := Lower(InfixPattern(keyword)), InfixPattern(Lower(keyword));
    assert |p| == |q|;
    forall i | 0 <= i < |p|
      ensures p[i] == q[i]
    {
      if 0 < i < |p| - 1 {
        assert InfixPattern(keyword)[i] == keyword[i - 1];
      }
    }
  }

  /** The as-written query agrees with the literal search whenever the keyword has no wildcard. */
  lemma KeywordSearchWithoutWildcards(authors: AuthorTable, books: BookTable, keyword: string)
    requires NoWildcards(keyword)
    ensures FindByTitleOrAuthorNameContaining(authors, books, keyword)
         == FindByTitleOrAuthorNameContainingLiterally(authors, books, keyword)
  {
    FoldedInfixPattern(keyword);
    var k := Lower(keyword);
    forall s: string
      ensures Like(Lower(s), Lower(InfixPattern(keyword))) <==> ContainsIgnoreCase(s, keyword)
    {
      LikeInfixIsContains(Lower(s), k);
    }
  }

  /**
   * The as-written query returns a book whose title does not contain the
   * keyword "a_c", because '_' matches any character; the literal search does not.
   */
  lemma UnderscoreKeywordFindsNonMatchingBook()
    ensures var authors := map[1 := Author(1, "x")];
            var books := map[1 := Book(1, "abc", None, 1)];
            && 1 in FindByTitleOrAuthorNameContaining(authors, books, "a_c")
            && 1 !in FindByTitleOrAuthorNameContainingLiterally(authors, books, "a_c")
  {
    var authors := map[1 := Author(1, "x")];
    var books := map[1 := Book(1, "abc", None, 1)];
    assert Lower("abc") == "abc";
    assert Lower("x") == "x";
    assert Lower("a_c") == "a_c";
    assert Lower(InfixPattern("a_c")) == InfixPattern("a_c");
    UnderscoreKeywordOvermatches();
    assert !Contains("x", "a_c");
  }
}
