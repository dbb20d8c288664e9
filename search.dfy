/** Catalogue search: a case-insensitive substring match on title or
    author, a plain substring match on the ISBN. */
module Search {
  import opened Wrappers
  import opened Text
  import opened Store

  datatype SearchField = ByTitle | ByAuthor | ByIsbn

  /** The search types the service recognises; anything else is unknown. */
  function ParseSearchType(t: string): (f: Option<SearchField>)
    ensures f == Some(ByTitle) <==> t == "title"
    ensures f == Some(ByAuthor) <==> t == "author"
    ensures f == Some(ByIsbn) <==> t == "isbn"
  {
    if t == "title" then Some(ByTitle)
    else if t == "author" then Some(ByAuthor)
    else if t == "isbn" then Some(ByIsbn)
    else None
  }

  /** Whether a book matches an already stripped and lowered term. The ISBN
      is compared as stored, without lowering. */
  predicate Matches(b: Book, f: SearchField, term: string) {
    match f
    case ByTitle => Contains(Lower(b.title), term)
    case ByAuthor => Contains(Lower(b.author), term)
    case ByIsbn => Contains(b.isbn, term)
  }

  /** The books of `books` that match, in catalogue order. */
  function Filter(books: seq<Book>, f: SearchField, term: string): (r: seq<Book>)
    ensures |r| <= |books|
    ensures forall b :: b in r <==> b in books && Matches(b, f, term)
  {
    if books == [] then []
    else (if Matches(books[0], f, term) then [books[0]] else []) + Filter(books[1..], f, term)
  }

  /** The filter keeps catalogue order: filtering a catalogue in two parts
      gives the first part's matches followed by the second part's. */
  lemma {:induction false} FilterAppend(a: seq<Book>, b: seq<Book>, f: SearchField, term: string)
    ensures Filter(a + b, f, term) == Filter(a, f, term) + Filter(b, f, term)
  {
    if a == [] {
      assert a + b == b;
    } else {
      assert (a + b)[1..] == a[1..] + b;
      FilterAppend(a[1..], b, f, term);
    }
  }

  /** `search_books_in_catalog(term, type)` over the catalogue `books`. */
  function SearchCatalog(books: seq<Book>, term: string, searchType: string): (r: seq<Book>)
    ensures AllSpace(term) ==> r == []
    ensures ParseSearchType(searchType).None? ==> r == []
    ensures !AllSpace(term) && ParseSearchType(searchType).Some? ==>
      forall b :: b in r <==> b in books && Matches(b, ParseSearchType(searchType).value, Lower(Strip(term)))
  {
    if term == [] || Strip(term) == [] then []
    else
      var needle := Lower(Strip(term));
      match ParseSearchType(searchType)
      case Some(f) => Filter(books, f, needle)
      case None => []
  }

  /** Searching is insensitive to the case of the term: a term and its
      lower-case form find the same books. */
  lemma SearchIgnoresTermCase(books: seq<Book>, term: string, searchType: string)
    ensures SearchCatalog(books, Lower(term), searchType) == SearchCatalog(books, term, searchType)
  {
    StripLowerCommute(term);
    LowerIdempotent(Strip(term));
  }

  /** Leading and trailing whitespace around the term is ignored. */
  lemma SearchIgnoresPadding(books: seq<Book>, term: string, searchType: string)
    ensures SearchCatalog(books, " " + term + " ", searchType) == SearchCatalog(books, term, searchType)
  {
    StripPadded(term);
  }
}
