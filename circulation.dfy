/** The circulation rules of the lending library: checking a book out to a
    patron, and the unfinished return.  As in Catalog, each operation is a
    function from the store before to its result and the store after. */
module Circulation {
  import opened Domain

  /** The request checks common to checkout, in the library's order: a missing
      patronId, a missing isbn, a non-string patronId, a non-string isbn. */
  function RequestError(patronId: Value, isbn: Value): (e: Option<Result<()>>)
    ensures e.None? <==> patronId.Str? && isbn.Str?
    ensures Absent(patronId) ==> e == Some(Err(Missing, "Missing patronId", Some("patronId")))
    ensures !Absent(patronId) && Absent(isbn) ==> e == Some(Err(Missing, "Missing isbn", Some("isbn")))
    ensures !Absent(patronId) && !Absent(isbn) && !patronId.Str? ==>
      e == Some(Err(BadType, "patronId is not a string", Some("patronId")))
    ensures patronId.Str? && !Absent(isbn) && !isbn.Str? ==>
      e == Some(Err(BadType, "isbn is not a string", Some("isbn")))
  {
    if Absent(patronId) then Some(Err(Missing, "Missing patronId", Some("patronId")))
    else if Absent(isbn) then Some(Err(Missing, "Missing isbn", Some("isbn")))
    else if !patronId.Str? then Some(Err(BadType, "patronId is not a string", Some("patronId")))
    else if !isbn.Str? then Some(Err(BadType, "isbn is not a string", Some("isbn")))
    else None
  }

  /** The store after a successful checkout: one copy fewer of `isbn`, and
      `isbn` added to the patron's set (creating the patron's record). */
  function CheckedOutStore(s: Store, patronId: string, isbn: string): Store
    requires isbn in s.books
  {
    var book := s.books[isbn];
    Store(s.books[isbn := book.(nCopies := book.nCopies - 1)],
          s.patrons[patronId := CheckedOut(s, patronId) + {isbn}])
  }

  /** checkoutBook as the library is written.  Its duplicate-checkout test
      looks for the patron id, not the isbn, in the patron's checked-out set,
      so it fires only when the patron id equals an isbn the patron holds. */
  function CheckoutStep(s: Store, patronId: Value, isbn: Value): (out: (Result<()>, Store))
    ensures out.0.Err? ==> out.1 == s
    ensures RequestError(patronId, isbn).Some? ==> out.0 == RequestError(patronId, isbn).value
    ensures patronId.Str? && isbn.Str? ==>
      var p, i := patronId.s, isbn.s;
      && (i !in s.books ==> out.0 == Err(BadReq, "Book not found. Bad book.", Some("isbn")))
      && (i in s.books && s.books[i].nCopies <= 0 ==>
            out.0 == Err(BadReq, "No copies are available for checkout", Some("isbn")))
      && (i in s.books && s.books[i].nCopies > 0 && p in CheckedOut(s, p) ==>
            out.0 == Err(BadReq, "This book has already been checked out by the patron", Some("isbn")))
    ensures out.0.Ok? <==>
      patronId.Str? && isbn.Str? && isbn.s in s.books && s.books[isbn.s].nCopies > 0
      && patronId.s !in CheckedOut(s, patronId.s)
    ensures out.0.Ok? ==>
      var p, i := patronId.s, isbn.s;
      && out.1.books.Keys == s.books.Keys
      && out.1.books[i] == s.books[i].(nCopies := s.books[i].nCopies - 1)
      && (forall j | j in s.books && j != i :: out.1.books[j] == s.books[j])
      && out.1.patrons.Keys == s.patrons.Keys + {p}
      && out.1.patrons[p] == CheckedOut(s, p) + {i}
      && (forall q | q in s.patrons && q != p :: out.1.patrons[q] == s.patrons[q])
    ensures Inv(s) ==> Inv(out.1)
  {
    match RequestError(patronId, isbn)
    case Some(e) => (e, s)
    case None =>
      var p, i := patronId.s, isbn.s;
      if i !in s.books then (Err(BadReq, "Book not found. Bad book.", Some("isbn")), s)
      else if s.books[i].nCopies <= 0 then (Err(BadReq, "No copies are available for checkout", Some("isbn")), s)
      else if p in CheckedOut(s, p) then
        (Err(BadReq, "This book has already been checked out by the patron", Some("isbn")), s)
      else (Ok(()), CheckedOutStore(s, p, i))
  }

  /** checkoutBook as its documentation describes it: the duplicate test
      looks for the isbn in the patron's set. */
  function CheckoutIntended(s: Store, patronId: Value, isbn: Value): (out: (Result<()>, Store))
    ensures out.0.Err? ==> out.1 == s
    ensures out.0.Ok? <==>
      patronId.Str? && isbn.Str? && isbn.s in s.books && s.books[isbn.s].nCopies > 0
      && isbn.s !in CheckedOut(s, patronId.s)
    ensures out.0.Ok? ==> out.1 == CheckedOutStore(s, patronId.s, isbn.s)
    ensures Inv(s) ==> Inv(out.1)
  {
    match RequestError(patronId, isbn)
    case Some(e) => (e, s)
    case None =>
      var p, i := patronId.s, isbn.s;
      if i !in s.books then (Err(BadReq, "Book not found. Bad book.", Some("isbn")), s)
      else if s.books[i].nCopies <= 0 then (Err(BadReq, "No copies are available for checkout", Some("isbn")), s)
      else if i in CheckedOut(s, p) then
        (Err(BadReq, "This book has already been checked out by the patron", Some("isbn")), s)
      else (Ok(()), CheckedOutStore(s, p, i))
  }

  /** With the intended test, a patron who has just checked a book out cannot
      check it out again: the second call fails BAD_REQ and changes nothing. */
  lemma IntendedRefusesDuplicate(s: Store, patronId: string, isbn: string)
    requires CheckoutIntended(s, Str(patronId), Str(isbn)).0.Ok?
    ensures
      var s1 := CheckoutIntended(s, Str(patronId), Str(isbn)).1;
      var (r2, s2) := CheckoutIntended(s1, Str(patronId), Str(isbn));
      r2.Err? && r2.code == BadReq && s2 == s1
  {
    var s1 := CheckoutIntended(s, Str(patronId), Str(isbn)).1;
    assert isbn in CheckedOut(s1, patronId);
  }

  /** The library as written lets a patron check the same book out twice:
      both calls succeed, two copies go, and the patron's set records the
      isbn once. */
  lemma DuplicateCheckoutAccepted()
    ensures
      var isbn := "123-456-789-0";
      var s0 := Store(map[isbn := Book(isbn, "Dune", ["Frank Herbert"], 412, 1965, "Chilton", 2)], map[]);
      var (r1, s1) := CheckoutStep(s0, Str("p1"), Str(isbn));
      var (r2, s2) := CheckoutStep(s1, Str("p1"), Str(isbn));
      && r1 == Ok(()) && r2 == Ok(())
      && s2.books[isbn].nCopies == 0
      && s2.patrons["p1"] == {isbn}
  {
    var isbn := "123-456-789-0";
    var s0 := Store(map[isbn := Book(isbn, "Dune", ["Frank Herbert"], 412, 1965, "Chilton", 2)], map[]);
    var s1 := CheckoutStep(s0, Str("p1"), Str(isbn)).1;
    assert s1.patrons["p1"] == {isbn};
    assert "p1" !in CheckedOut(s1, "p1");
  }

  /** A book whose last copy is out cannot be checked out, by anyone: the
      copy count never goes below zero. */
  lemma LastCopyGoesOnce(s: Store, p1: string, p2: string, isbn: string)
    requires isbn in s.books && s.books[isbn].nCopies == 1
    requires CheckoutStep(s, Str(p1), Str(isbn)).0.Ok?
    ensures
      var s1 := CheckoutStep(s, Str(p1), Str(isbn)).1;
      var (r2, s2) := CheckoutStep(s1, Str(p2), Str(isbn));
      r2 == Err(BadReq, "No copies are available for checkout", Some("isbn"))
      && s2.books[isbn].nCopies == 0
  {
  }

  /** returnBook is unfinished: it always fails, with no code, and changes nothing. */
  function ReturnStep(s: Store, patronId: Value, isbn: Value): (out: (Result<()>, Store))
    ensures out.0.Err? && out.0.code == Unknown
    ensures out.1 == s
  {
    (Err(Unknown, "TODO", None), s)
  }
}
