/** The catalog rules of the lending library: the conflict comparator, adding
    books with copy-count merging, and the paginated title search.  addBook
    is a function from the store before to its result and the store after;
    the search is a function of the request and the store's search answer.
    The class in LendingLibrary is proved against both. */
module Catalog {
  import opened Domain
  import opened Words

  /** The result-page size used when a search gives no count. */
  const DEFAULT_COUNT: int := 5

  /** The fields compared when a book is added under an isbn already stored. */
  datatype Field = Title | Authors | Pages | Year | Publisher

  /** The order in which fields are compared: the first conflict is reported. */
  function Rank(f: Field): nat {
    match f
    case Title => 0
    case Authors => 1
    case Pages => 2
    case Year => 3
    case Publisher => 4
  }

  function FieldName(f: Field): string {
    match f
    case Title => "title"
    case Authors => "authors"
    case Pages => "pages"
    case Year => "year"
    case Publisher => "publisher"
  }

  /** The test applied to each stored author: the incoming author at the same
      index is missing or different. */
  predicate AuthorMismatch(stored: seq<string>, incoming: seq<string>, i: nat)
    requires i < |stored|
  {
    i >= |incoming| || stored[i] != incoming[i]
  }

  /** Some stored author fails the test.  The incoming list is only read at
      the stored list's indices, so extra trailing incoming authors are no
      conflict: the lists differ exactly when the stored one is not a prefix
      of the incoming one. */
  function AuthorsDiffer(stored: seq<string>, incoming: seq<string>): (r: bool)
    ensures r <==> exists i: nat | i < |stored| :: AuthorMismatch(stored, incoming, i)
    ensures r <==> !(|stored| <= |incoming| && incoming[..|stored|] == stored)
  {
    if stored == [] then false
    else if incoming == [] || stored[0] != incoming[0] then
      assert AuthorMismatch(stored, incoming, 0);
      true
    else
      var r := AuthorsDiffer(stored[1..], incoming[1..]);
      assert forall i: nat | 1 <= i < |stored| ::
        AuthorMismatch(stored, incoming, i) == AuthorMismatch(stored[1..], incoming[1..], i - 1);
      assert r ==>
        var j: nat :| j < |stored[1..]| && AuthorMismatch(stored[1..], incoming[1..], j);
        AuthorMismatch(stored, incoming, j + 1);
      assert |stored| <= |incoming| ==>
        (incoming[..|stored|] == stored <==> incoming[1..][..|stored[1..]|] == stored[1..]);
      r
  }

  /** Whether `stored` and `incoming` disagree on field `f`. */
  predicate Differs(f: Field, stored: Book, incoming: Book) {
    match f
    case Title => stored.title != incoming.title
    case Authors => AuthorsDiffer(stored.authors, incoming.authors)
    case Pages => stored.pages != incoming.pages
    case Year => stored.year != incoming.year
    case Publisher => stored.publisher != incoming.publisher
  }

  /** The first field, in the order title, authors, pages, year, publisher,
      on which the stored and the incoming book disagree; None when they
      agree on all of them (isbn and nCopies are not compared). */
  function CompareBook(stored: Book, incoming: Book): (r: Option<Field>)
    ensures r.None? ==> forall f: Field :: !Differs(f, stored, incoming)
    ensures r.Some? ==> Differs(r.value, stored, incoming)
    ensures r.Some? ==> forall f: Field :: Rank(f) < Rank(r.value) ==> !Differs(f, stored, incoming)
  {
    if stored.title != incoming.title then Some(Title)
    else if AuthorsDiffer(stored.authors, incoming.authors) then Some(Authors)
    else if stored.pages != incoming.pages then Some(Pages)
    else if stored.year != incoming.year then Some(Year)
    else if stored.publisher != incoming.publisher then Some(Publisher)
    else None
  }

  /** A book never conflicts with a copy of itself, whatever the copy counts. */
  lemma CompareBookSelf(b: Book, n: int)
    ensures CompareBook(b, b.(nCopies := n)) == None
  {
    assert b.authors[..|b.authors|] == b.authors;
  }

  /** Extra trailing authors in the incoming book are no conflict ... */
  lemma CompareBookExtraAuthors(stored: Book, extra: seq<string>)
    ensures CompareBook(stored, stored.(authors := stored.authors + extra)) == None
  {
    var incoming := stored.authors + extra;
    assert incoming[..|stored.authors|] == stored.authors;
  }

  /** ... but a missing one is. */
  lemma CompareBookFewerAuthors(stored: Book, incoming: Book)
    requires incoming.title == stored.title
    requires |incoming.authors| < |stored.authors|
    ensures CompareBook(stored, incoming) == Some(Authors)
  {
  }

  /** The copies an add contributes: `nCopies || 1`. */
  function Increment(b: Book): (n: int)
    ensures b.nCopies == 0 ==> n == 1
    ensures b.nCopies != 0 ==> n == b.nCopies
  {
    if b.nCopies == 0 then 1 else b.nCopies
  }

  /** What the model assumes of a book the validator accepts: a positive
      copy count.  A book accepted without a count is not represented. */
  predicate ValidatorContract(validated: Result<Book>) {
    validated.Ok? ==> validated.value.nCopies > 0
  }

  function ConflictError(f: Field): Result<Book> {
    Err(BadReq, "Book conflict in field: " + FieldName(f), None)
  }

  /** addBook on the validator's verdict: a validation error is returned as
      is; a book that conflicts with the stored one under its isbn is
      refused naming the first conflicting field; a consistent one adds its
      copies to the stored record and returns the record as it was; a new
      isbn is inserted and returned.  Only the one record changes. */
  function AddBookStep(s: Store, validated: Result<Book>): (out: (Result<Book>, Store))
    ensures out.0.Err? ==> out.1 == s
    ensures validated.Err? ==> out.0 == validated
    ensures out.1.patrons == s.patrons
    ensures validated.Ok? ==>
      var b := validated.value;
      (out.0.Err? <==> b.isbn in s.books && CompareBook(s.books[b.isbn], b).Some?)
      && (out.0.Err? ==> out.0 == ConflictError(CompareBook(s.books[b.isbn], b).value))
    ensures out.0.Ok? ==>
      var b := validated.value;
      && out.1.books.Keys == s.books.Keys + {b.isbn}
      && (forall isbn | isbn in s.books && isbn != b.isbn :: out.1.books[isbn] == s.books[isbn])
      && (b.isbn in s.books ==>
            out.0.value == s.books[b.isbn]
            && out.1.books[b.isbn] == s.books[b.isbn].(nCopies := s.books[b.isbn].nCopies + Increment(b)))
      && (b.isbn !in s.books ==> out.0.value == b && out.1.books[b.isbn] == b)
    ensures Inv(s) && ValidatorContract(validated) ==> Inv(out.1)
  {
    match validated
    case Err(_, _, _) => (validated, s)
    case Ok(b) =>
      if b.isbn in s.books then
        var existing := s.books[b.isbn];
        match CompareBook(existing, b)
        case Some(f) => (ConflictError(f), s)
        case None =>
          (Ok(existing), s.(books := s.books[b.isbn := existing.(nCopies := existing.nCopies + Increment(b))]))
      else
        (Ok(b), s.(books := s.books[b.isbn := b]))
  }

  /** Adding the same book twice to a store that lacks it keeps one record
      holding the sum of both copy counts. */
  lemma AddBookTwiceSumsCopies(s: Store, b: Book)
    requires b.isbn !in s.books && b.nCopies > 0
    ensures
      var (r1, s1) := AddBookStep(s, Ok(b));
      var (r2, s2) := AddBookStep(s1, Ok(b));
      r1 == Ok(b) && r2 == Ok(b)
      && s2.books.Keys == s.books.Keys + {b.isbn}
      && s2.books[b.isbn] == b.(nCopies := 2 * b.nCopies)
  {
    CompareBookSelf(b, b.nCopies);
  }

  /** Re-adding an isbn under a different title is refused naming "title",
      and nothing changes. */
  lemma AddBookTitleConflict(s: Store, b: Book)
    requires b.isbn in s.books && s.books[b.isbn].title != b.title
    ensures AddBookStep(s, Ok(b)) == (Err(BadReq, "Book conflict in field: title", None), s)
  {
    assert "Book conflict in field: " + FieldName(Title) == "Book conflict in field: title";
  }

  /** Lexicographic order on titles, character by character. */
  predicate LexLe(a: string, b: string) {
    a == [] || (b != [] && (a[0] < b[0] || (a[0] == b[0] && LexLe(a[1..], b[1..]))))
  }

  predicate SortedByTitle(bs: seq<Book>) {
    forall i, j | 0 <= i < j < |bs| :: LexLe(bs[i].title, bs[j].title)
  }

  /** What the store's text search answers for `words`: every stored book that
      `matches` the words, each once, as stored, in ascending title order.
      The text-matching rule itself (word stemming, which fields) belongs to
      the store and is the abstract relation `matches`. */
  predicate SearchAnswer(books: map<string, Book>, words: seq<string>,
                         matches: (seq<string>, Book) -> bool, found: seq<Book>)
  {
    && SortedByTitle(found)
    && (forall i | 0 <= i < |found| ::
          found[i].isbn in books && books[found[i].isbn] == found[i] && matches(words, found[i]))
    && (forall i, j | 0 <= i < j < |found| :: found[i].isbn != found[j].isbn)
    && (forall isbn | isbn in books && matches(words, books[isbn]) :: books[isbn] in found)
  }

  /** `found.slice(index, index + count)` for a non-negative index and a positive count. */
  function Page(found: seq<Book>, index: nat, count: nat): (page: seq<Book>)
    ensures |page| <= count
    ensures index >= |found| ==> page == []
    ensures index < |found| ==> |page| == if index + count <= |found| then count else |found| - index
    ensures forall i | 0 <= i < |page| :: index + i < |found| && page[i] == found[index + i]
    ensures SortedByTitle(found) ==> SortedByTitle(page)
  {
    if index >= |found| then []
    else if index + count <= |found| then found[index..index + count]
    else found[index..]
  }

  /** The integer a numeric request field stands for, `default` when omitted. */
  function ArgValue(a: NumArg, default: int): (v: Option<int>)
    ensures a.Omitted? ==> v == Some(default)
    ensures a.IntArg? ==> v == Some(a.n)
    ensures a.NotANumber? <==> v.None?
  {
    match a
    case Omitted => Some(default)
    case IntArg(n) => Some(n)
    case NotANumber => None
  }

  /** findBooks: validate search, index and count in that order, then take the
      page [index, index + count) of the store's title-sorted answer to the
      search words.  `query` is the store's text search. */
  function FindBooksResult(search: Value, index: NumArg, count: NumArg,
                           query: seq<string> -> seq<Book>): (r: Result<seq<Book>>)
    ensures Falsy(search) ==> r == Err(Missing, "Search field is missing", Some("search"))
    ensures !Falsy(search) && !search.Str? ==> r == Err(BadType, "Search field is not a string", Some("search"))
    ensures search.Str? && search.s != "" && ExtractWords(search.s) == [] ==>
      r == Err(BadReq, "No valid words in search", Some("search"))
    ensures search.Str? && ExtractWords(search.s) != [] ==>
      var i := ArgValue(index, 0);
      var c := ArgValue(count, DEFAULT_COUNT);
      && ((i.None? || i.value < 0) ==> r == Err(BadType, "Invalid index value", Some("index")))
      && ((i.Some? && i.value >= 0 && (c.None? || c.value <= 0)) ==>
            r == Err(BadType, "Invalid count value", Some("count")))
    ensures r.Ok? <==>
      search.Str? && ExtractWords(search.s) != []
      && ArgValue(index, 0).Some? && ArgValue(index, 0).value >= 0
      && ArgValue(count, DEFAULT_COUNT).Some? && ArgValue(count, DEFAULT_COUNT).value > 0
    ensures r.Ok? ==>
      var found := query(ExtractWords(search.s));
      var i, c := ArgValue(index, 0).value, ArgValue(count, DEFAULT_COUNT).value;
      && r.value == Page(found, i, c)
      && |r.value| <= c
      && (i >= |found| ==> r.value == [])
      && (SortedByTitle(found) ==> SortedByTitle(r.value))
  {
    if Falsy(search) then Err(Missing, "Search field is missing", Some("search"))
    else if !search.Str? then Err(BadType, "Search field is not a string", Some("search"))
    else
      var words := ExtractWords(search.s);
      if words == [] then Err(BadReq, "No valid words in search", Some("search"))
      else
        var i := ArgValue(index, 0);
        var c := ArgValue(count, DEFAULT_COUNT);
        if i.None? || i.value < 0 then Err(BadType, "Invalid index value", Some("index"))
        else if c.None? || c.value <= 0 then Err(BadType, "Invalid count value", Some("count"))
        else Ok(Page(query(words), i.value, c.value))
  }

  /** When the store's search answers as SearchAnswer says, a successful
      findBooks returns stored books that match every search word, each at
      most once, sorted by title, no more than the count asked for. */
  lemma FindBooksReturnsMatches(books: map<string, Book>, matches: (seq<string>, Book) -> bool,
                                search: Value, index: NumArg, count: NumArg,
                                query: seq<string> -> seq<Book>)
    requires search.Str? ==> SearchAnswer(books, ExtractWords(search.s), matches, query(ExtractWords(search.s)))
    ensures
      var r := FindBooksResult(search, index, count, query);
      r.Ok? ==>
        && SortedByTitle(r.value)
        && |r.value| <= ArgValue(count, DEFAULT_COUNT).value
        && (forall i | 0 <= i < |r.value| ::
              r.value[i].isbn in books && books[r.value[i].isbn] == r.value[i]
              && matches(ExtractWords(search.s), r.value[i]))
        && (forall i, j | 0 <= i < j < |r.value| :: r.value[i].isbn != r.value[j].isbn)
  {
    var r := FindBooksResult(search, index, count, query);
    if r.Ok? {
      var words := ExtractWords(search.s);
      PageOfAnswer(books, words, matches, query(words), ArgValue(index, 0).value, ArgValue(count, DEFAULT_COUNT).value);
    }
  }

  /** A page of a search answer keeps the answer's guarantees. */
  lemma PageOfAnswer(books: map<string, Book>, words: seq<string>, matches: (seq<string>, Book) -> bool,
                     found: seq<Book>, index: nat, count: nat)
    requires SearchAnswer(books, words, matches, found)
    ensures
      var page := Page(found, index, count);
      && SortedByTitle(page)
      && (forall i | 0 <= i < |page| ::
            page[i].isbn in books && books[page[i].isbn] == page[i] && matches(words, page[i]))
      && (forall i, j | 0 <= i < j < |page| :: page[i].isbn != page[j].isbn)
  {
    var page := Page(found, index, count);
    forall i | 0 <= i < |page|
      ensures page[i].isbn in books && books[page[i].isbn] == page[i] && matches(words, page[i])
    {
      assert page[i] == found[index + i];
    }
    forall i, j | 0 <= i < j < |page| ensures page[i].isbn != page[j].isbn {
      assert page[i] == found[index + i] && page[j] == found[index + j];
    }
  }

  /** With twelve matches, index 5 and count 5 give the sixth to tenth. */
  lemma FindBooksSecondPage(search: string, query: seq<string> -> seq<Book>)
    requires ExtractWords(search) != [] && |query(ExtractWords(search))| == 12
    ensures FindBooksResult(Str(search), IntArg(5), IntArg(5), query) == Ok(query(ExtractWords(search))[5..10])
  {
  }

  /** An index past the last match gives an empty page, not an error. */
  lemma FindBooksPastEnd(search: string, index: nat, query: seq<string> -> seq<Book>)
    requires ExtractWords(search) != [] && index >= |query(ExtractWords(search))|
    ensures FindBooksResult(Str(search), IntArg(index), Omitted, query) == Ok([])
  {
  }
}
