# Book collection — a Dafny model

This project models the book-collection manager of `library.py`. It has two parts.

- `Book` is a record of title, author, year, genre and page count. The constructor
  checks the five fields in a fixed order and raises `ValueError` with the message
  of the first rule that fails. Two books are equal when their lower-cased title,
  author and genre match and their year and page count match.
- `Library` keeps its books in a list, in insertion order. `add_book` appends a
  book and rejects one that is equal to a book already stored.
  `search_by_title` returns the first book whose title matches, ignoring case.
  `get_books_by_author` returns every book whose author matches, ignoring case.
  `get_books_sorted_by_year` returns a new list, stably sorted by year.
  `__repr__` reports how many books are stored.

Files and modules:

- `wrappers.dfy` (`Wrappers`): `Option`, `Result` and `Outcome`. They stand for
  Python's `None` and for a raised `ValueError`.
- `text.dfy` (`Text`): `str.lower()` and `str.strip()`.
- `books.dfy` (`Books`): the `Book` datatype, the validation rules, the constructor
  and `__eq__`.
- `catalog.dfy` (`Catalog`): the `Library` class, the functions on `seq<Book>`
  that specify its queries, the no-duplicates invariant, and the script at the
  end of `library.py`.

Design of the model:

- `Book` is a datatype. It holds the constructor's arguments. `NewBook`
  returns `Success(book)` or `Failure(ValueError(message))` instead of raising.
- The rule list becomes `Rules`, a sequence of field tags checked in order.
  `ValidateData` walks that list with a loop that stops at the first failing rule,
  as the source's `for` loop with `raise` does.
- `Library` is a class. Its field `books: seq<Book>` is the list `_books`.
  Only `AddBook` reassigns it. `AddBook` scans the list with `Contains`, a loop
  that models `book in self._books`, then appends.
- `Library.Valid()` is the invariant that no two stored books are equal.
  The constructor establishes it and `AddBook` keeps it.
- `search_by_title` is a loop with an early return. It becomes the method
  `SearchByTitle`, proved equal to the function `FindByTitle`.
- The list comprehension and the `sorted(...)` call are pure, so they become
  functions. Being functions, they cannot change `books`.
- `sorted()` is specified by what Python promises: a permutation, sorted by year,
  and stable. `SortByYear` is an insertion sort with all three properties.
  `SortedStableIsSortByYear` proves that only one list has all three, so the
  result does not depend on which stable sort produced it.
- Lowering covers ASCII A–Z and the basic Cyrillic capitals U+0400–U+042F.
  These are the alphabets of the texts in the source. Whitespace is exactly the
  set of code points that Python's `str.isspace` accepts, which is the set
  `str.strip()` removes.
- `Library.Valid()` also holds that every stored book is well formed: a `Book`
  object exists only once its constructor's validation has passed, so `AddBook`
  requires a well-formed book.

## Model

| member | source | states |
|---|---|---|
| Text.Lower | library.py:76-79 | the lowered character has no upper-case letter; a character that is not upper case is left as it is, and an upper-case one is changed |
| Text.LowerStr | library.py:76-79 | `s.lower()` keeps the length and leaves no upper-case letter |
| Text.LowerStrIdempotent | library.py:76-79 | lowering a lowered string changes nothing |
| Text.IsSpace | library.py:36 | the whitespace that `strip()` removes: exactly the code points Python's `str.isspace` accepts |
| Text.LowerInjectiveOnUpper | library.py:76-79 | two different capitals never lower to the same character |
| Text.LowerLatinAlphabet | library.py:76-79 | A–Z lower to a–z, letter for letter |
| Text.LowerCyrillicAlphabetFirstHalf | library.py:76-79 | А–П lower to а–п, letter for letter |
| Text.LowerCyrillicAlphabetSecondHalf | library.py:76-79 | Р–Я lower to р–я, letter for letter |
| Text.LowerCyrillicExtensions | library.py:76-79 | Ѐ–Џ lower to ѐ–џ, letter for letter |
| Text.CaseVariant | library.py:76-79 | two characters are the same letter up to case: equal, or one is the lower-case form of the other |
| Text.LowerCaseVariant | library.py:76-79 | two characters lower to the same character iff they are case variants |
| Text.LowerStrEqIff | library.py:76-79 | two strings are equal once lowered iff they have the same length and the characters at each position are case variants |
| Text.StripStart | library.py:36 | the start of `strip()`: every character before it is whitespace, and the character at it is not |
| Text.StripEnd | library.py:36 | the end of `strip()`: every character from it on is whitespace, and the one just before it is not (unless the slice is empty) |
| Text.Strip | library.py:36 | `s.strip()` is a slice of `s`; everything outside the slice is whitespace, and the slice neither starts nor ends with whitespace |
| Text.StripNonEmptyIff | library.py:36-54 | `bool(s.strip())` holds iff `s` has a character that is not whitespace |
| Books.Message | library.py:34-58 | the message of each rule, verbatim |
| Books.MessageIdentifiesRule | library.py:34-58 | two rules have the same message iff they are the same rule, so the message raised names the failing field |
| Books.Rules | library.py:31-62 | the order in which the five rules are checked: title, author, year, genre, pages |
| Books.Passes | library.py:36-60 | the validator of each field: text non-empty once stripped, year and pages positive |
| Books.FirstFailure | library.py:64-66 | returns no rule iff every rule passes; otherwise returns a failing rule such that every earlier rule passes |
| Books.NoFailureIffWellFormed | library.py:31-66 | validation passes iff title, author and genre each have a non-whitespace character and year > 0 and pages > 0 |
| Books.FailureOrder | library.py:31-66 | the rule reported is the first one in the order title, author, year, genre, pages that fails; later fields are not looked at |
| Books.ValidateData | library.py:22-66 | the loop over the rule list reports exactly the first failing rule, or none |
| Books.NewBook | library.py:7-20 | construction succeeds iff the book is well formed; then the five fields are stored unchanged; otherwise the error is `ValueError` with the message of the first failing rule |
| Books.Key | library.py:76-79 | the tuple `__eq__` compares: lowered title, author and genre, and year and pages as they are |
| Books.Equal | library.py:73-79 | `Book.__eq__` between two books: their keys are equal |
| Books.EqualIff | library.py:73-79 | `__eq__` holds iff title, author and genre are the same length and case variants at every position, and year and pages are equal |
| Books.EqualIsEquivalence | library.py:73-79 | `__eq__` is reflexive, symmetric and transitive |
| Books.EqualIgnoresCaseExample | library.py:73-79 | one example: the script's first book and a copy with its letters in other cases are different values but equal books (the general law is `EqualIff`) |
| Catalog.NoDuplicates | library.py:85-93 | no two stored books are equal under `__eq__`: the invariant that the empty list starts with and `add_book` keeps |
| Catalog.HasEqual | library.py:89 | `book in books`: some stored book is equal to `book` under `__eq__` |
| Catalog.AllWellFormed | library.py:7-20 | every stored book passed the constructor's validation |
| Catalog.AppendKeepsWellFormed | library.py:93 | appending a well-formed book keeps every stored book well formed |
| Catalog.CountIsDistinctKeys | library.py:112-113 | in a list without duplicates, the length equals the number of distinct books up to `__eq__` |
| Catalog.AppendKeepsNoDuplicates | library.py:89-93 | appending a book equal to no stored book keeps the no-duplicates invariant |
| Catalog.TitleMatches | library.py:99 | a book matches a title when their lowered titles are equal |
| Catalog.FindByTitle | library.py:95-101 | returns nothing iff no book's lowered title equals the lowered query; otherwise returns a book whose title matches and before which no title matches |
| Catalog.AuthorMatches | library.py:106 | a book matches an author when their lowered authors are equal |
| Catalog.FilterByAuthor | library.py:103-106 | every book returned has a matching author; each book with a matching author is returned as many times as it is stored |
| Catalog.FilterByAuthorAppend | library.py:105-106 | the filter of a concatenation is the concatenation of the filters, so stored order is kept |
| Catalog.FilterByAuthorSingle | library.py:105-106 | one book is kept iff its author matches |
| Catalog.InsertByYear | library.py:110 | inserting adds exactly one occurrence of the book |
| Catalog.InsertByYearSorted | library.py:110 | inserting into a list sorted by year keeps it sorted |
| Catalog.InsertByYearStable | library.py:110 | inserting keeps, for every year, the order of that year's books as if the book had been put first |
| Catalog.SortByYear | library.py:110 | the result is a permutation of the input, sorted by year, and keeps the input order within each year |
| Catalog.SortedStableUnique | library.py:110 | two lists that are sorted by year and have the same books of each year in the same order are equal |
| Catalog.SortedStableIsSortByYear | library.py:110 | any list that is sorted by year and stable with respect to the input is `SortByYear` of the input |
| Catalog.DuplicateMessage | library.py:90-92 | the message `add_book` raises for a duplicate, with the new book's title |
| Catalog.Library.Valid | library.py:85-93 | the class invariant: no two stored books are equal, and every stored book is well formed |
| Catalog.Library.constructor | library.py:84-85 | a new library is empty and satisfies the invariant |
| Catalog.Library.Count | library.py:112-113 | the count in `__repr__` equals the number of distinct stored books up to `__eq__` |
| Catalog.Library.Contains | library.py:89 | `book in self._books` holds iff some stored book is equal to `book` under `__eq__` |
| Catalog.Library.AddBook | library.py:87-93 | given a well-formed book (every `Book` object is), fails iff an equal book is stored, and then raises the duplicate message and leaves the list unchanged; otherwise appends the book at the end, changes nothing else, and the count grows by one; the no-duplicates invariant is kept |
| Catalog.Library.SearchByTitle | library.py:95-101 | the early-return loop returns exactly what `FindByTitle` specifies: the first match in insertion order, or nothing |
| Catalog.Library.GetBooksByAuthor | library.py:103-106 | returns only stored books with a matching author, each as often as it is stored |
| Catalog.Library.GetBooksSortedByYear | library.py:108-110 | returns a permutation of the stored books, sorted by year and stable; being a function, it leaves the stored list as it is |
| Catalog.Book1 | library.py:118 | the script's first book, of 2001 |
| Catalog.Book2 | library.py:119 | the script's second book, of 1999 |
| Catalog.DriverBooksValid | library.py:118-119 | both books of the script pass validation and are not equal |
| Catalog.DriverSearch | library.py:122 | searching "Название1", and also "название1", returns the first book |
| Catalog.DriverFilter | library.py:123 | the books of "Автор1" are exactly the first book |
| Catalog.DriverSort | library.py:124 | listing by year gives the 1999 book, then the 2001 book |

The methods `Catalog.DriverConstruction`, `Catalog.DriverScenario`,
`Catalog.DriverQueries` and `Catalog.DuplicateScenario` are clients, as in
library.py:116-124. The first replays the script's two `NewBook` calls. The next
two add the two books and run the three queries, checking each result from the
contracts. The last adds a book, then a copy that differs only in letter case,
and checks that the copy is rejected and the list is unchanged.

## Left out

- context_manager.py: file opening, closing and printing are I/O; there is nothing in it to state beyond that plumbing.
- The exact text of `Book.__repr__` and `Library.__repr__` (library.py:68-71, 112-113): only the count is modelled.
- The `isinstance` checks in `_validate_data` and `__eq__` (library.py:65, 74-75): Dafny's static types make them unnecessary, so comparing a book with a non-book is not modelled.
- Full Unicode case mapping: `Lower` covers ASCII and basic Cyrillic only. It also cannot model mappings that change a string's length, as `'İ'.lower()` does.
- The printing in the `__main__` script (library.py:122-124): only the values printed are stated.
- Python's `sorted` algorithm (Timsort): the model uses an insertion sort. `SortedStableIsSortByYear` shows that any stable sort by year gives the same list.
- Mutation of a `Book`'s attributes after construction: Python allows it, and the model treats books as immutable values.
- Object identity: `book in list` also matches by identity (`is`). Because `__eq__` is reflexive, this gives the same answer, so only `__eq__` is modelled.
- Catalog.Library.GetBooksByAuthor: order preservation is proved about `FilterByAuthor` in `FilterByAuthorAppend` rather than as an ensures of this function.
