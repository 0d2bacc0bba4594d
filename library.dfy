/** The lending library service over its store.  The two document
    collections are the fields `books` (isbn to record) and `patrons`
    (patron id to checked-out isbns).  AddBook and CheckoutBook update them
    in one atomic step and Clear empties the books; FindBooks only reads
    `books` and ReturnBook touches neither.  Every method except Clear is
    proved equal to the function that specifies it in Catalog or
    Circulation; Clear states its new state directly. */
module LendingLibrary {
  import opened Domain
  import opened Words
  import opened Catalog
  import opened Circulation

  class Library {
    var books: map<string, Book>
    var patrons: map<string, set<string>>

    /** The store these fields hold. */
    function State(): Store
      reads this
    {
      Store(books, patrons)
    }

    ghost predicate Valid()
      reads this
    {
      Inv(State())
    }

    /** A library over the store its collections already hold. */
    constructor (s: Store)
      requires Inv(s)
      ensures State() == s
      ensures Valid()
    {
      books := s.books;
      patrons := s.patrons;
    }

    /** Empties the book collection; patrons' records are kept. */
    method Clear()
      modifies this
      ensures books == map[] && patrons == old(patrons)
      ensures Valid()
    {
      books := map[];
    }

    /** Adds one or more copies of the validated book. */
    method AddBook(validated: Result<Book>) returns (r: Result<Book>)
      requires Valid() && ValidatorContract(validated)
      modifies this
      ensures (r, State()) == AddBookStep(old(State()), validated)
      ensures Valid()
    {
      if validated.Err? {
        return validated;
      }
      var newBook := validated.value;
      if newBook.isbn in books {
        var existing := books[newBook.isbn];
        var conflict := CompareBook(existing, newBook);
        if conflict.Some? {
          return ConflictError(conflict.value);
        }
        books := books[newBook.isbn := existing.(nCopies := existing.nCopies + Increment(newBook))];
        r := Ok(existing);
      } else {
        books := books[newBook.isbn := newBook];
        r := Ok(newBook);
      }
    }

    /** Searches the catalog.  `query` is the store's text search over this
        library's books: for the search words it answers every stored book
        that `matches` them, once each, sorted by title. */
    method FindBooks(search: Value, index: NumArg, count: NumArg,
                     matches: (seq<string>, Book) -> bool, query: seq<string> -> seq<Book>)
      returns (r: Result<seq<Book>>)
      requires search.Str? ==> SearchAnswer(books, ExtractWords(search.s), matches, query(ExtractWords(search.s)))
      ensures r == FindBooksResult(search, index, count, query)
      ensures r.Ok? ==>
        && SortedByTitle(r.value)
        && |r.value| <= ArgValue(count, DEFAULT_COUNT).value
        && (forall i | 0 <= i < |r.value| ::
              r.value[i].isbn in books && books[r.value[i].isbn] == r.value[i]
              && matches(ExtractWords(search.s), r.value[i]))
        && (forall i, j | 0 <= i < j < |r.value| :: r.value[i].isbn != r.value[j].isbn)
    {
      FindBooksReturnsMatches(books, matches, search, index, count, query);
      if Falsy(search) {
        return Err(Missing, "Search field is missing", Some("search"));
      }
      if !search.Str? {
        return Err(BadType, "Search field is not a string", Some("search"));
      }
      var words := ExtractWords(search.s);
      if |words| == 0 {
        return Err(BadReq, "No valid words in search", Some("search"));
      }
      var i := ArgValue(index, 0);
      var c := ArgValue(count, DEFAULT_COUNT);
      if i.None? || i.value < 0 {
        return Err(BadType, "Invalid index value", Some("index"));
      }
      if c.None? || c.value <= 0 {
        return Err(BadType, "Invalid count value", Some("count"));
      }
      var results := query(words);
      r := Ok(Page(results, i.value, c.value));
    }

    /** Checks book `isbn` out to patron `patronId`. */
    method CheckoutBook(patronId: Value, isbn: Value) returns (r: Result<()>)
      requires Valid()
      modifies this
      ensures (r, State()) == CheckoutStep(old(State()), patronId, isbn)
      ensures Valid()
    {
      if Absent(patronId) {
        return Err(Missing, "Missing patronId", Some("patronId"));
      }
      if Absent(isbn) {
        return Err(Missing, "Missing isbn", Some("isbn"));
      }
      if !patronId.Str? {
        return Err(BadType, "patronId is not a string", Some("patronId"));
      }
      if !isbn.Str? {
        return Err(BadType, "isbn is not a string", Some("isbn"));
      }
      if isbn.s !in books {
        return Err(BadReq, "Book not found. Bad book.", Some("isbn"));
      }
      var book := books[isbn.s];
      if book.nCopies <= 0 {
        return Err(BadReq, "No copies are available for checkout", Some("isbn"));
      }
      var checkedOutBooks := if patronId.s in patrons then patrons[patronId.s] else {};
      if patronId.s in checkedOutBooks {
        return Err(BadReq, "This book has already been checked out by the patron", Some("isbn"));
      }
      books := books[isbn.s := book.(nCopies := book.nCopies - 1)];
      patrons := patrons[patronId.s := checkedOutBooks + {isbn.s}];
      r := Ok(());
    }

    /** The unfinished return: always an error, nothing changes. */
    method ReturnBook(patronId: Value, isbn: Value) returns (r: Result<()>)
      ensures (r, State()) == ReturnStep(State(), patronId, isbn)
    {
      r := Err(Unknown, "TODO", None);
    }
  }
}
