/** Shared shapes of the lending library: books, the loosely typed request
    values the operations inspect, the tagged results they return, and the
    abstract store that stands in for the two document collections. */
module Domain {

  datatype Option<T> = None | Some(value: T)

  /** Error codes a failed operation carries.  `Unknown` is the code of an
      error built without one (the unfinished returnBook). */
  datatype ErrCode = Missing | BadType | BadReq | Db | Unknown

  /** Success with a value, or an error with its code, a message and,
      where the library names one, the request field ("widget") at fault. */
  datatype Result<T> = Ok(value: T) | Err(code: ErrCode, message: string, widget: Option<string>)

  /** A book record as the validator produces it and the store keeps it. */
  datatype Book = Book(
    isbn: string,
    title: string,
    authors: seq<string>,
    pages: int,
    year: int,
    publisher: string,
    nCopies: int)

  /** A request field as JavaScript sees it.  Numbers are integers here:
      fractional numbers and NaN are not modelled. */
  datatype Value = Undefined | Null | Bool(b: bool) | Num(n: int) | Str(s: string) | Obj

  /** JavaScript truthiness: `undefined`, `null`, `false`, `0` and `""` are falsy. */
  predicate Falsy(v: Value) {
    v.Undefined? || v.Null? || v == Bool(false) || v == Num(0) || v == Str("")
  }

  /** The `typeof v === 'undefined' || v === null` test. */
  predicate Absent(v: Value) {
    v.Undefined? || v.Null?
  }

  /** An optional numeric request field after `parseInt`: not given, an
      integer, or something that parses to NaN. */
  datatype NumArg = Omitted | IntArg(n: int) | NotANumber

  /** The abstract store: books keyed by isbn, and each patron's set of
      checked-out isbns keyed by patron id. */
  datatype Store = Store(books: map<string, Book>, patrons: map<string, set<string>>)

  /** One record per isbn, filed under its own isbn, and no negative copy count. */
  predicate Inv(s: Store) {
    forall isbn | isbn in s.books :: s.books[isbn].isbn == isbn && s.books[isbn].nCopies >= 0
  }

  /** The isbns a patron has checked out; a patron with no record has none. */
  function CheckedOut(s: Store, patronId: string): set<string> {
    if patronId in s.patrons then s.patrons[patronId] else {}
  }
}
