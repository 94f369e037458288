/**
 * The book collection: an insertion-ordered list of books with no two equal
 * books, a duplicate-rejecting append, a first-match title search, an author
 * filter and a stable listing by year.
 *
 * The queries are specified by functions on `seq<Book>`; the `Library` class
 * holds the list as a field that only `AddBook` reassigns.
 */
module Catalog {
  import opened Wrappers
  import opened Text
  import opened Books

  // ---------------------------------------------------------------------------
  // The no-duplicates invariant and the book count
  // ---------------------------------------------------------------------------

  /** No two stored books are equal under `__eq__`. */
  predicate NoDuplicates(s: seq<Book>) {
    forall i, j :: 0 <= i < j < |s| ==> !Equal(s[i], s[j])
  }

  /** Some stored book is equal to `b`: Python's `b in books`. */
  predicate HasEqual(s: seq<Book>, b: Book) {
    exists i :: 0 <= i < |s| && Equal(s[i], b)
  }

  /** The distinct equality classes (comparison keys) present in `s`. */
  function Keys(s: seq<Book>): (ks: set<(string, string, int, string, int)>)
    ensures forall i :: 0 <= i < |s| ==> Key(s[i]) in ks
    ensures forall k :: k in ks ==> exists i :: 0 <= i < |s| && Key(s[i]) == k
  {
    if s == [] then {}
    else
      var rest := Keys(s[1..]);
      assert forall k :: k in rest ==> exists i :: 1 <= i < |s| && Key(s[i]) == k by {
        forall k | k in rest ensures exists i :: 1 <= i < |s| && Key(s[i]) == k {
          var i :| 0 <= i < |s[1..]| && Key(s[1..][i]) == k;
          assert s[i + 1] == s[1..][i];
        }
      }
      {Key(s[0])} + rest
  }

  /** In a list without duplicates, the count is the number of distinct books
      up to equality: `Library(N books)` counts different books. */
  lemma {:induction false} CountIsDistinctKeys(s: seq<Book>)
    requires NoDuplicates(s)
    ensures |Keys(s)| == |s|
  {
    if s != [] {
      var tail := s[1..];
      assert NoDuplicates(tail) by {
        forall i, j | 0 <= i < j < |tail| ensures !Equal(tail[i], tail[j]) {
          assert tail[i] == s[i + 1] && tail[j] == s[j + 1];
        }
      }
      CountIsDistinctKeys(tail);
      assert Key(s[0]) !in Keys(tail) by {
        forall i | 0 <= i < |tail| ensures Key(tail[i]) != Key(s[0]) {
          assert tail[i] == s[i + 1];
        }
      }
    }
  }

  /** Every stored book passed the constructor's validation. */
  predicate AllWellFormed(s: seq<Book>) {
    forall i :: 0 <= i < |s| ==> WellFormed(s[i])
  }

  /** Appending a well-formed book keeps every stored book well formed. */
  lemma AppendKeepsWellFormed(s: seq<Book>, b: Book)
    requires AllWellFormed(s) && WellFormed(b)
    ensures AllWellFormed(s + [b])
  {
  }

  /** Appending a book that is equal to no stored book keeps the invariant. */
  lemma AppendKeepsNoDuplicates(s: seq<Book>, b: Book)
    requires NoDuplicates(s)
    requires !HasEqual(s, b)
    ensures NoDuplicates(s + [b])
  {
  }

  // ---------------------------------------------------------------------------
  // Title search
  // ---------------------------------------------------------------------------

  /** The comparison `search_by_title` makes. */
  predicate TitleMatches(b: Book, title: string) {
    LowerStr(b.title) == LowerStr(title)
  }

  /** The first book, in list order, whose title matches `title`. */
  function FindByTitle(s: seq<Book>, title: string): (r: Option<Book>)
    ensures r.None? <==> forall i :: 0 <= i < |s| ==> !TitleMatches(s[i], title)
    ensures r.Some? ==> exists i :: 0 <= i < |s| && s[i] == r.value && TitleMatches(s[i], title) &&
                                    forall j :: 0 <= j < i ==> !TitleMatches(s[j], title)
  {
    if s == [] then None
    else if TitleMatches(s[0], title) then Some(s[0])
    else
      var r := FindByTitle(s[1..], title);
      assert r.Some? ==> exists i :: 1 <= i < |s| && s[i] == r.value && TitleMatches(s[i], title) &&
                                     forall j :: 1 <= j < i ==> !TitleMatches(s[j], title);
      r
  }

  // ---------------------------------------------------------------------------
  // Author filter
  // ---------------------------------------------------------------------------

  /** The comparison `get_books_by_author` makes. */
  predicate AuthorMatches(b: Book, author: string) {
    LowerStr(b.author) == LowerStr(author)
  }

  /** The books of `s` whose author matches, in list order. */
  function FilterByAuthor(s: seq<Book>, author: string): (r: seq<Book>)
    ensures |r| <= |s|
    ensures forall b :: b in r ==> AuthorMatches(b, author)
    ensures forall b :: AuthorMatches(b, author) ==> multiset(r)[b] == multiset(s)[b]
  {
    if s == [] then []
    else
      var rest := FilterByAuthor(s[1..], author);
      assert s == [s[0]] + s[1..];
      if AuthorMatches(s[0], author) then [s[0]] + rest else rest
  }

  /** The filter keeps list order: filtering a concatenation concatenates the
      filtered parts, so each kept book stays before every book that followed it. */
  lemma {:induction false} FilterByAuthorAppend(s: seq<Book>, t: seq<Book>, author: string)
    ensures FilterByAuthor(s + t, author) == FilterByAuthor(s, author) + FilterByAuthor(t, author)
  {
    if s == [] {
      assert s + t == t;
    } else {
      assert (s + t)[0] == s[0];
      assert (s + t)[1..] == s[1..] + t;
      FilterByAuthorAppend(s[1..], t, author);
    }
  }

  /** The filter applied to one book keeps it exactly when its author matches. */
  lemma FilterByAuthorSingle(b: Book, author: string)
    ensures FilterByAuthor([b], author) == if AuthorMatches(b, author) then [b] else []
  {
  }

  // ---------------------------------------------------------------------------
  // Stable sort by year
  // ---------------------------------------------------------------------------

  predicate SortedByYear(s: seq<Book>) {
    forall i, j :: 0 <= i < j < |s| ==> s[i].year <= s[j].year
  }

  /** The books of `s` published in year `y`, in list order. */
  function OfYear(s: seq<Book>, y: int): seq<Book>
  {
    if s == [] then []
    else YearPart(s[0], y) + OfYear(s[1..], y)
  }

  lemma {:induction false} OfYearMembers(s: seq<Book>, y: int)
    ensures forall b :: b in OfYear(s, y) ==> b in s && b.year == y
  {
    if s != [] {
      OfYearMembers(s[1..], y);
    }
  }

  /** `[b]` if `b` is of year `y`, else nothing. */
  function YearPart(b: Book, y: int): seq<Book> {
    if b.year == y then [b] else []
  }

  lemma OfYearCons(b: Book, s: seq<Book>, y: int)
    ensures OfYear([b] + s, y) == YearPart(b, y) + OfYear(s, y)
  {
  }

  /** A stable order: within each year, books keep their relative order in `s`. */
  ghost predicate StableWrt(r: seq<Book>, s: seq<Book>) {
    forall y :: OfYear(r, y) == OfYear(s, y)
  }

  /** Puts `x` before the first book of `t` whose year is not earlier than `x`'s. */
  function InsertByYear(x: Book, t: seq<Book>): (r: seq<Book>)
    ensures multiset(r) == multiset(t) + multiset{x}
  {
    if t == [] || x.year <= t[0].year then [x] + t
    else
      var rest := InsertByYear(x, t[1..]);
      assert t == [t[0]] + t[1..];
      [t[0]] + rest
  }

  lemma {:induction false} InsertByYearSorted(x: Book, t: seq<Book>)
    requires SortedByYear(t)
    ensures SortedByYear(InsertByYear(x, t))
  {
    if t != [] && x.year > t[0].year {
      var rest := InsertByYear(x, t[1..]);
      InsertByYearSorted(x, t[1..]);
      var r := [t[0]] + rest;
      forall j | 0 < j < |r| ensures t[0].year <= r[j].year {
        assert r[j] in multiset(rest);
        assert r[j] in multiset(t[1..]) + multiset{x};
      }
    }
  }

  lemma {:induction false} InsertByYearStable(x: Book, t: seq<Book>, y: int)
    ensures OfYear(InsertByYear(x, t), y) == OfYear([x] + t, y)
  {
    if t != [] && x.year > t[0].year {
      var head, tail := t[0], t[1..];
      var rest := InsertByYear(x, tail);
      assert InsertByYear(x, t) == [head] + rest;
      assert t == [head] + tail;
      InsertByYearStable(x, tail, y);
      OfYearCons(head, rest, y);
      OfYearCons(x, tail, y);
      OfYearCons(head, tail, y);
      OfYearCons(x, t, y);
      var ofTail := OfYear(tail, y);
      // head is earlier than x, so at most one of the two is of year y.
      if y == x.year {
        assert YearPart(head, y) == [];
        assert OfYear([head] + rest, y) == OfYear(rest, y);
        assert OfYear(t, y) == ofTail;
      } else {
        assert YearPart(x, y) == [];
        assert OfYear([x] + tail, y) == ofTail;
        assert OfYear([x] + t, y) == OfYear(t, y);
      }
    }
  }

  /** Python's `sorted(books, key=lambda book: book.year)`. */
  function SortByYear(s: seq<Book>): (r: seq<Book>)
    ensures multiset(r) == multiset(s)
    ensures SortedByYear(r)
    ensures StableWrt(r, s)
  {
    if s == [] then []
    else
      var rest := SortByYear(s[1..]);
      var r := InsertByYear(s[0], rest);
      assert s == [s[0]] + s[1..];
      InsertByYearSorted(s[0], rest);
      forall y ensures OfYear(r, y) == OfYear(s, y) {
        InsertByYearStable(s[0], rest, y);
        OfYearCons(s[0], rest, y);
        OfYearCons(s[0], s[1..], y);
      }
      r
  }

  /** A list sorted by year and stable with respect to `s` is unique: whatever
      stable sort produces it, it is `SortByYear(s)`. */
  lemma SortedStableIsSortByYear(s: seq<Book>, r: seq<Book>)
    requires SortedByYear(r) && StableWrt(r, s)
    ensures r == SortByYear(s)
  {
    var q := SortByYear(s);
    SortedStableUnique(r, q);
  }

  /** Two lists sorted by year with the same books of each year in the same order are equal. */
  lemma {:induction false} SortedStableUnique(r: seq<Book>, q: seq<Book>)
    requires SortedByYear(r) && SortedByYear(q) && StableWrt(r, q)
    ensures r == q
    decreases |r|
  {
    if r == [] || q == [] {
      if r != [] {
        OfYearHead(r);
        assert false;
      } else if q != [] {
        OfYearHead(q);
        assert false;
      }
    } else {
      SortedHeadsEqual(r, q);
      SortedStableTails(r, q);
      SortedStableUnique(r[1..], q[1..]);
      assert r == [r[0]] + r[1..] && q == [q[0]] + q[1..];
    }
  }

  /** The first book of each list is the first book of the earliest year, so they agree. */
  lemma SortedHeadsEqual(r: seq<Book>, q: seq<Book>)
    requires r != [] && q != []
    requires SortedByYear(r) && SortedByYear(q) && StableWrt(r, q)
    ensures r[0] == q[0]
  {
    var a, b := r[0], q[0];
    OfYearHead(r);
    OfYearHead(q);
    assert b.year <= a.year by {
      assert OfYear(r, a.year) == OfYear(q, a.year);
      assert a in OfYear(q, a.year);
      OfYearMembers(q, a.year);
      var i :| 0 <= i < |q| && q[i] == a;
    }
    assert a.year <= b.year by {
      assert OfYear(r, b.year) == OfYear(q, b.year);
      assert b in OfYear(r, b.year);
      OfYearMembers(r, b.year);
      var i :| 0 <= i < |r| && r[i] == b;
    }
    assert OfYear(r, a.year)[0] == a && OfYear(q, a.year)[0] == b;
  }

  /** Removing an equal first book from both lists keeps them stable with respect to each other. */
  lemma SortedStableTails(r: seq<Book>, q: seq<Book>)
    requires r != [] && q != [] && r[0] == q[0] && StableWrt(r, q)
    ensures StableWrt(r[1..], q[1..])
  {
    var a := r[0];
    assert r == [a] + r[1..] && q == [a] + q[1..];
    forall y ensures OfYear(r[1..], y) == OfYear(q[1..], y) {
      assert OfYear(r, y) == OfYear(q, y);
      OfYearCons(a, r[1..], y);
      OfYearCons(a, q[1..], y);
      var p := YearPart(a, y);
      assert OfYear(r[1..], y) == (p + OfYear(r[1..], y))[|p|..];
      assert OfYear(q[1..], y) == (p + OfYear(q[1..], y))[|p|..];
    }
  }

  /** The first book of a list heads the books of its year. */
  lemma OfYearHead(s: seq<Book>)
    requires s != []
    ensures OfYear(s, s[0].year) == [s[0]] + OfYear(s[1..], s[0].year)
  {
  }

  // ---------------------------------------------------------------------------
  // The library
  // ---------------------------------------------------------------------------

  /** The message `add_book` raises for a duplicate. */
  function DuplicateMessage(b: Book): string {
    "Книга '" + b.title + "' уже существует в библиотеке"
  }

  class Library {
    /** `_books`, in insertion order. */
    var books: seq<Book>

    /** No two stored books are equal, and each stored book passed the
        constructor's validation (a `Book` object exists only once validated). */
    ghost predicate Valid()
      reads this
    {
      NoDuplicates(books) && AllWellFormed(books)
    }

    /** `Library()`: starts empty. */
    constructor ()
      ensures Valid() && books == []
    {
      books := [];
    }

    /** The number `__repr__` reports: the count of distinct stored books. */
    function Count(): (n: nat)
      reads this
      requires Valid()
      ensures n == |Keys(books)|
    {
      CountIsDistinctKeys(books);
      |books|
    }

    /** `book in self._books`: a linear scan using `__eq__`. */
    method Contains(book: Book) returns (found: bool)
      ensures found <==> HasEqual(books, book)
    {
      for i := 0 to |books|
        invariant forall j :: 0 <= j < i ==> !Equal(books[j], book)
      {
        if Equal(books[i], book) {
          return true;
        }
      }
      return false;
    }

    /** `add_book`: rejects a book equal to a stored one, otherwise appends it. */
    method AddBook(book: Book) returns (r: Outcome<Error>)
      requires Valid() && WellFormed(book)
      modifies this
      ensures Valid()
      ensures r.Fail? <==> HasEqual(old(books), book)
      ensures r.Fail? ==> books == old(books) && r.error == ValueError(DuplicateMessage(book))
      ensures r.Pass? ==> books == old(books) + [book] && Count() == old(Count()) + 1
    {
      var found := Contains(book);
      if found {
        return Fail(ValueError(DuplicateMessage(book)));
      }
      AppendKeepsNoDuplicates(books, book);
      AppendKeepsWellFormed(books, book);
      books := books + [book];
      CountIsDistinctKeys(old(books));
      CountIsDistinctKeys(books);
      return Pass;
    }

    /** `search_by_title`: the first stored book whose title matches, ignoring case. */
    method SearchByTitle(title: string) returns (r: Option<Book>)
      ensures r == FindByTitle(books, title)
    {
      for i := 0 to |books|
        invariant FindByTitle(books, title) == FindByTitle(books[i..], title)
      {
        if TitleMatches(books[i], title) {
          return Some(books[i]);
        }
        assert books[i..][1..] == books[i + 1..];
      }
      return None;
    }

    /** `get_books_by_author`: the stored books whose author matches, ignoring case,
        in insertion order. */
    function GetBooksByAuthor(author: string): (r: seq<Book>)
      reads this
      ensures forall b :: b in r ==> AuthorMatches(b, author)
      ensures forall b :: AuthorMatches(b, author) ==> multiset(r)[b] == multiset(books)[b]
    {
      FilterByAuthor(books, author)
    }

    /** `get_books_sorted_by_year`: a new list in year order, stable, leaving `books` as it is. */
    function GetBooksSortedByYear(): (r: seq<Book>)
      reads this
      ensures multiset(r) == multiset(books)
      ensures SortedByYear(r)
      ensures StableWrt(r, books)
    {
      SortByYear(books)
    }
  }

  // ---------------------------------------------------------------------------
  // The `__main__` scenario
  // ---------------------------------------------------------------------------

  /** The two books of the script: the 2001 book is added first, the 1999 book second. */
  const Book1: Book := Book("Название1", "Автор1", 2001, "Жанр1", 300)
  const Book2: Book := Book("Название2", "Автор2", 1999, "Жанр2", 150)

  /** Both books pass validation and are different books. */
  lemma DriverBooksValid()
    ensures WellFormed(Book1) && WellFormed(Book2) && !Equal(Book1, Book2)
  {
    assert !IsSpace(Book1.title[0]) && !IsSpace(Book1.author[0]) && !IsSpace(Book1.genre[0]);
    assert !IsSpace(Book2.title[0]) && !IsSpace(Book2.author[0]) && !IsSpace(Book2.genre[0]);
  }

  /** Searching the first title finds the first book. */
  lemma DriverSearch()
    ensures FindByTitle([Book1, Book2], "Название1") == Some(Book1)
    ensures FindByTitle([Book1, Book2], "название1") == Some(Book1)
  {
  }

  /** Only the first book is by the first author. */
  lemma DriverFilter()
    ensures FilterByAuthor([Book1, Book2], "Автор1") == [Book1]
  {
    assert LowerStr(Book2.author)[5] == '2' && LowerStr("Автор1")[5] == '1';
    assert [Book1, Book2][1..] == [Book2];
    assert [Book2][1..] == [];
  }

  /** Listing by year puts the 1999 book before the 2001 book. */
  lemma DriverSort()
    ensures SortByYear([Book1, Book2]) == [Book2, Book1]
  {
  }

  /** The script's two constructor calls succeed and give `Book1` and `Book2`. */
  method DriverConstruction() {
    DriverBooksValid();
    var r1 := NewBook("Название1", "Автор1", 2001, "Жанр1", 300);
    var r2 := NewBook("Название2", "Автор2", 1999, "Жанр2", 150);
    assert r1 == Success(Book1) && r2 == Success(Book2);
  }

  /** The script: the two books added, then one query of each kind. */
  method DriverScenario() {
    var library := new Library();
    DriverBooksValid();
    var added1 := library.AddBook(Book1);
    assert added1.Pass?;
    var added2 := library.AddBook(Book2);
    assert added2.Pass? && library.books == [Book1, Book2];
    DriverQueries(library);
  }

  /** The script's three queries, on the library holding the two books. */
  method DriverQueries(library: Library)
    requires library.books == [Book1, Book2]
  {
    var found := library.SearchByTitle("Название1");
    DriverSearch();
    assert found == Some(Book1);
    DriverFilter();
    assert library.GetBooksByAuthor("Автор1") == [Book1];
    DriverSort();
    assert library.GetBooksSortedByYear() == [Book2, Book1];
  }

  /** Re-adding a case variant of a stored book is rejected and changes nothing. */
  method DuplicateScenario() {
    var library := new Library();
    DriverBooksValid();
    var book1 := Book1;
    var added1 := library.AddBook(book1);
    assert added1.Pass? && library.books == [book1];
    var variant := Book("НАЗВАНИЕ1", "АВТОР1", 2001, "жанр1", 300);
    assert !IsSpace(variant.title[0]) && !IsSpace(variant.author[0]) && !IsSpace(variant.genre[0]);
    EqualIgnoresCaseExample();
    var added2 := library.AddBook(variant);
    assert added2 == Fail(ValueError(DuplicateMessage(variant)));
    assert library.books == [book1] && library.Count() == 1;
  }
}
