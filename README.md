# Lending library: business rules, modelled and proved in Dafny

This project models the business-rule layer of a small lending library. The
library keeps a catalog of books keyed by ISBN and records which books each
patron has checked out. It has four operations:

- **addBook** adds a book, or adds copies to a book already stored under the
  same ISBN. A conflicting book is refused, naming the first field that
  differs.
- **findBooks** extracts search words from a request and returns one page of
  the title-sorted matching books.
- **checkoutBook** runs a fixed chain of checks, then takes one copy of the
  book and records the ISBN in the patron's checked-out set.
- **returnBook** is an unfinished stub that always fails.

The document store is replaced by an abstract store:

- `books` maps an ISBN to its `Book` record.
- `patrons` maps a patron id to that patron's set of checked-out ISBNs.

Modules:

- `Domain` holds the shared shapes. These are `Book`, the JavaScript request
  values (`Value`), `NumArg` for the index and count fields, and the tagged
  `Result` (`Ok(v)` or `Err(code, message, widget)`). It also holds the store
  and its invariant: each record is filed under its own ISBN, and no copy count
  is negative.
- `Words` is the search tokenizer.
- `Catalog` holds the comparator, addBook and findBooks. addBook is a pure
  step function from the store before to its result and the store after.
  findBooks is a pure function of the request and the store's search answer.
- `Circulation` holds checkoutBook and returnBook. Each is a step function from
  the store before to its result and the store after.
- `LendingLibrary` holds the class `Library`. Its fields are the two maps.
  `AddBook`, `CheckoutBook` and `Clear` update them in place. `FindBooks`
  reads `books` and changes nothing; `ReturnBook` neither reads nor changes
  them. Each method except `Clear` is proved equal to
  its pure counterpart. `Clear` states its new state directly. `AddBook`,
  `CheckoutBook` and `Clear` keep the store invariant.

External collaborators become parameters:

- **The request validator.** `addBook` receives the validator's verdict, a
  `Result<Book>`. The model assumes that every book the validator accepts
  carries a positive `nCopies` (`ValidatorContract`). The operation's
  documentation only rejects a given count that is not a positive integer and
  says a missing count means 1; it does not say the validator fills that in.
- **The store's text search.** This is the `query` parameter: a function from
  the search words to the sorted matches. `Library.FindBooks` requires that
  this answer satisfies `SearchAnswer` over the library's own books, for an
  abstract `matches` relation. The answer holds every stored matching book,
  each once, as stored, in ascending title order.

## Model

| member | source | states |
|---|---|---|
| Words.ExtractWords | prj2/prj2-sol/src/lib/lending-library.ts:209-211 | every extracted word has at least two characters, all of them word characters (letter, digit, underscore) and none upper-case |
| Words.Tokens | prj2/prj2-sol/src/lib/lending-library.ts:210 | the global `\w{2,}` match: every token has two or more characters, all word characters that occur in the input |
| Words.TokensAreSlices | prj2/prj2-sol/src/lib/lending-library.ts:210 | every token is a contiguous piece of the input |
| Words.RunLength | prj2/prj2-sol/src/lib/lending-library.ts:210 | the greedy `\w` run at the front: all word characters, stopped only by a non-word character or the end |
| Words.LowerCase | prj2/prj2-sol/src/lib/lending-library.ts:210 | `toLowerCase`, character by character, leaves no upper-case letter and keeps the length |
| Words.TokensOfRun | prj2/prj2-sol/src/lib/lending-library.ts:210 | a string made only of word characters gives itself as one token when it has two or more characters, and nothing otherwise |
| Words.TokensSplit | prj2/prj2-sol/src/lib/lending-library.ts:210 | a non-word character separates: the tokens of `a + [c] + b` are the tokens of `a` followed by the tokens of `b` |
| Words.ExtractWordsOfRun | prj2/prj2-sol/src/lib/lending-library.ts:209-211 | a run of word characters yields its lower-cased self when it has two or more characters, otherwise no word |
| Words.ExtractWordsSplit | prj2/prj2-sol/src/lib/lending-library.ts:209-211 | words are found left to right and never span a non-word character |
| Words.ExtractWordsExample | prj2/prj2-sol/src/lib/lending-library.ts:209-211 | "The Cat's Away!" gives ["the", "cat", "away"]: the apostrophe splits the run and the one-letter "s" is dropped |
| Catalog.AuthorsDiffer | prj2/prj2-sol/src/lib/lending-library.ts:203 | some stored author has a different incoming author, or none, at the same index; equivalently, the stored list is not a prefix of the incoming one |
| Catalog.CompareBook | prj2/prj2-sol/src/lib/lending-library.ts:198-207 | the result names a field the books differ on, and every field earlier in the order title, authors, pages, year, publisher agrees; nothing is returned only when all five agree |
| Catalog.CompareBookSelf | prj2/prj2-sol/src/lib/lending-library.ts:201-207 | a book never conflicts with itself, whatever the copy counts |
| Catalog.CompareBookExtraAuthors | prj2/prj2-sol/src/lib/lending-library.ts:203 | extra trailing authors in the incoming book are no conflict |
| Catalog.CompareBookFewerAuthors | prj2/prj2-sol/src/lib/lending-library.ts:203 | an incoming book with fewer authors (and the same title) conflicts on authors |
| Catalog.Increment | prj2/prj2-sol/src/lib/lending-library.ts:63 | `nCopies \|\| 1`: a zero count adds exactly one copy, and any other count is added as is |
| Catalog.AddBookStep | prj2/prj2-sol/src/lib/lending-library.ts:33-69 | a validator error is returned unchanged; a stored book under the isbn that conflicts gives BAD_REQ naming the first conflicting field; every error leaves the store unchanged; success touches only the record under the isbn: on an existing isbn its nCopies grows by the increment and the pre-increment record is returned, otherwise the book is inserted and returned; patrons are never touched; the invariant is kept when the accepted book has a positive count |
| Catalog.AddBookTwiceSumsCopies | prj2/prj2-sol/src/lib/lending-library.ts:33-36 | adding a new book twice leaves one record whose copy count is the sum of both adds |
| Catalog.AddBookTitleConflict | prj2/prj2-sol/src/lib/lending-library.ts:58-62 | re-adding an isbn with another title fails with BAD_REQ "Book conflict in field: title" and changes nothing |
| Catalog.Page | prj2/prj2-sol/src/lib/lending-library.ts:118 | `slice(index, index + count)`: at most count books, the consecutive ones from index on, empty past the end, sorted when the input is |
| Catalog.ArgValue | prj2/prj2-sol/src/lib/lending-library.ts:103-104 | an omitted field takes its default, an integer is itself, and a non-number is NaN |
| Catalog.FindBooksResult | prj2/prj2-sol/src/lib/lending-library.ts:71-123 | errors come in this order: falsy search gives MISSING; non-string search gives BAD_TYPE; no words gives BAD_REQ; a NaN or negative index gives BAD_TYPE; a NaN or non-positive count gives BAD_TYPE (the index defaults to 0 and the count to 5); success happens exactly when all checks pass; on success the result is the page [index, index + count) of the sorted answer, at most count long, empty past the end, and sorted |
| Catalog.PageOfAnswer | prj2/prj2-sol/src/lib/lending-library.ts:113-118 | a page of the store's answer holds only stored books that match, each once, sorted by title |
| Catalog.FindBooksReturnsMatches | prj2/prj2-sol/src/lib/lending-library.ts:71-83 | a successful search returns stored books matching all search words, each at most once, sorted by title, at most count of them |
| Catalog.FindBooksSecondPage | prj2/prj2-sol/src/lib/lending-library.ts:76-80 | with twelve matches, index 5 and count 5 give the sixth to the tenth |
| Catalog.FindBooksPastEnd | prj2/prj2-sol/src/lib/lending-library.ts:83 | an index past the last match gives an empty result, not an error |
| Circulation.RequestError | prj2/prj2-sol/src/lib/lending-library.ts:136-139 | checks run in this order: a missing patronId gives MISSING; a missing isbn gives MISSING; a non-string patronId gives BAD_TYPE; a non-string isbn gives BAD_TYPE; each error names its field; no error exactly when both fields are strings |
| Circulation.CheckoutStep | prj2/prj2-sol/src/lib/lending-library.ts:125-171 | request errors come first, then: an unknown isbn gives BAD_REQ; nCopies <= 0 gives BAD_REQ; the patron's list holding the patron id gives BAD_REQ; every error leaves the store unchanged; success happens exactly when all checks pass; success lowers only that book's nCopies, by exactly one, and adds the isbn to that patron's set only; the invariant (nCopies never negative) is kept |
| Circulation.CheckoutIntended | prj2/prj2-sol/src/lib/lending-library.ts:125-134 | the documented rule: checkout succeeds exactly when the book is known, has a copy, and is not already in the patron's set; errors change nothing; the invariant is kept |
| Circulation.IntendedRefusesDuplicate | prj2/prj2-sol/src/lib/lending-library.ts:133 | under the documented rule, a second checkout of the same book by the same patron fails with BAD_REQ and changes nothing |
| Circulation.DuplicateCheckoutAccepted | prj2/prj2-sol/src/lib/lending-library.ts:155-159 | as written, a patron can check out the same book twice: two copies go and the set records it once |
| Circulation.LastCopyGoesOnce | prj2/prj2-sol/src/lib/lending-library.ts:151-153 | once the last copy is out, the next checkout by anyone fails with BAD_REQ and the count stays 0 |
| Circulation.ReturnStep | prj2/prj2-sol/src/lib/lending-library.ts:182-184 | returnBook always fails, with no error code, and changes nothing |
| LendingLibrary.Library.constructor | prj2/prj2-sol/src/lib/lending-library.ts:19-26 | a new library wraps the store it is given, which may already hold books and patrons |
| LendingLibrary.Library.Clear | prj2/prj2-sol/src/lib/lending-library.ts:28-31 | empties the book collection and keeps the patron records, as the store's clear only deletes books |
| LendingLibrary.Library.AddBook | prj2/prj2-sol/src/lib/lending-library.ts:50-69 | the result and the new store are exactly those of AddBookStep on the old store, and the invariant is kept |
| LendingLibrary.Library.FindBooks | prj2/prj2-sol/src/lib/lending-library.ts:90-123 | returns exactly FindBooksResult and changes nothing; when the store's search answers over this library's books, a success holds only stored books matching the search words, each once, sorted by title, at most count of them |
| LendingLibrary.Library.CheckoutBook | prj2/prj2-sol/src/lib/lending-library.ts:135-171 | the result and the new store are exactly those of CheckoutStep on the old store, and the invariant is kept |
| LendingLibrary.Library.ReturnBook | prj2/prj2-sol/src/lib/lending-library.ts:182-184 | returns ReturnStep's error and changes nothing |

Where the code and its documentation comments disagree, the model follows the code:

- A negative `index` or `count` gives BAD_TYPE (lines 105-109). The comment at lines 85-88 says BAD_REQ.
- A `count` of 0 is refused (line 108). The comment at lines 76-77 allows any non-negative count.
- The page is sliced in process after the whole sorted answer is fetched (lines 113-118). The comment at lines 79-80 asks the database to slice. The resulting page is the same.

## Findings

| source | as written | input that shows it | evidently intended | confidence | as-written member | corrected member |
|---|---|---|---|---|---|---|
| prj2/prj2-sol/src/lib/lending-library.ts:156-159 | the duplicate-checkout test looks for the patron id in the patron's checked-out isbns | patron "p1" checks out isbn "123-456-789-0" (2 copies) twice: both calls succeed, both copies go | look for the requested isbn, so a second checkout of the same book fails BAD_REQ | high, not executed | Circulation.DuplicateCheckoutAccepted | Circulation.IntendedRefusesDuplicate |

`Circulation.CheckoutStep` and `LendingLibrary.Library.CheckoutBook` reproduce the code as written. `Circulation.CheckoutIntended` is the corrected definition. Both keep the store invariant.

## Left out

- Storage failures (the DB error branch at lines 120-122) and the database connection, index creation and close are not modelled. Each operation is one atomic step over the in-memory maps.
- Concurrency is not modelled. This includes the async interleavings and the race between the `nCopies > 0` check and the decrement when two patrons take the last copy at once.
- The validator (`Lib.validate`, in library.js) is not part of this model. addBook takes its verdict as a parameter, so the ISBN format, year range and positive-integer rules are not modelled.
- Catalog.AddBookStep: a validated book without `nCopies` is not modelled, because `Book.nCopies` is always an integer. In the code such a book on a new isbn is inserted as it is (line 66), so the stored record has no count. A later checkout then passes line 151, since `undefined <= 0` is false, and line 165's `$inc: -1` stores -1. The invariant that no copy count is negative therefore holds only under `ValidatorContract`.
- LendingLibrary.Library.AddBook: requires the validator's accepted book to have a positive nCopies (ValidatorContract). The store invariant depends on this.
- Text matching is not modelled: stemming, which fields match, the `$text` query string, and the database's sort collation. The store's search is the `query` parameter, specified by `SearchAnswer` with an abstract `matches` relation and a code-point lexicographic title order.
- `parseInt` corner cases for fractional or partly numeric strings are not modelled. `index` and `count` are omitted, an integer, or NaN.
- Request values use integer numbers only. Fractions and NaN as a request value are not modelled.
- Words.LowerCase: lower-cases ASCII letters only. JavaScript's full Unicode case mapping can turn a few non-ASCII characters into ASCII word characters (the Kelvin sign becomes 'k'), and that is not captured.
- Error messages are kept as plain strings. The exact code of the error built without a code in returnBook comes from a utility module that is not part of this model, so it is modelled as `Unknown`.
- The `_id` field the store adds to records, and the projection that removes it, are not modelled.
- The documented return behaviour (increment nCopies, remove the isbn from the patron's set) is not implemented in the code, so it is not modelled.
- The patron-collection helpers `getCheckedOutBooks` and `addCheckedOutBook` are not defined in the storage class shown. They are modelled as a read of the patron map (an absent patron has an empty set) and a set insertion.
