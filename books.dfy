/**
 * A book record: five fields, validated once when the book is constructed,
 * and compared by value with the three text fields compared case-insensitively.
 */
module Books {
  import opened Wrappers
  import opened Text

  /** The five fields as passed to the constructor. A `Book` value that fails
      validation is never stored by `NewBook`; it only stands for the arguments. */
  datatype Book = Book(title: string, author: string, year: int, genre: string, pages: int)

  /** Python raises `ValueError(message)` for every failure of this core. */
  datatype Error = ValueError(message: string)

  /** The field each validation rule checks. */
  datatype Field = Title | Author | Year | Genre | Pages

  /** The order in which the rules are checked. */
  const Rules: seq<Field> := [Title, Author, Year, Genre, Pages]

  /** The message raised when a field's rule fails (verbatim from the constructor). */
  function Message(f: Field): string {
    match f
    case Title => "название книги должно быть непустой строкой"
    case Author => "автор"
    case Year => "Год не может быть пустым"
    case Genre => "Жанр не может быть пустым"
    case Pages => "Кол-во страниц должно быть больше 0"
  }

  /** The rule for one field: text must be non-empty once stripped, numbers positive. */
  predicate Passes(f: Field, b: Book) {
    match f
    case Title => Strip(b.title) != []
    case Author => Strip(b.author) != []
    case Year => b.year > 0
    case Genre => Strip(b.genre) != []
    case Pages => b.pages > 0
  }

  /** The first rule in `rules` that `b` fails, if any. */
  function FirstFailure(rules: seq<Field>, b: Book): (r: Option<Field>)
    ensures r == None <==> forall k :: 0 <= k < |rules| ==> Passes(rules[k], b)
    ensures r.Some? ==> exists k :: 0 <= k < |rules| && rules[k] == r.value && !Passes(rules[k], b) &&
                                    forall j :: 0 <= j < k ==> Passes(rules[j], b)
  {
    if rules == [] then None
    else if !Passes(rules[0], b) then Some(rules[0])
    else
      var r := FirstFailure(rules[1..], b);
      assert r.Some? ==> exists k :: 1 <= k < |rules| && rules[k] == r.value && !Passes(rules[k], b) &&
                                     forall j :: 1 <= j < k ==> Passes(rules[j], b);
      r
  }

  /** A well-formed book, stated independently of the rule list. */
  predicate WellFormed(b: Book) {
    HasNonSpace(b.title) && HasNonSpace(b.author) && b.year > 0 &&
    HasNonSpace(b.genre) && b.pages > 0
  }

  /** Each rule has its own message, so the message raised names the failing field. */
  lemma MessageIdentifiesRule(f: Field, g: Field)
    ensures Message(f) == Message(g) <==> f == g
  {
  }

  /** Validation fails for no rule exactly when the book is well formed. */
  lemma NoFailureIffWellFormed(b: Book)
    ensures FirstFailure(Rules, b) == None <==> WellFormed(b)
  {
    StripNonEmptyIff(b.title);
    StripNonEmptyIff(b.author);
    StripNonEmptyIff(b.genre);
    assert Rules[0] == Title && Rules[1] == Author && Rules[2] == Year && Rules[3] == Genre && Rules[4] == Pages;
    assert (forall k :: 0 <= k < |Rules| ==> Passes(Rules[k], b)) <==>
      Passes(Title, b) && Passes(Author, b) && Passes(Year, b) && Passes(Genre, b) && Passes(Pages, b);
  }

  /** The reported failure is the first failing field in the order
      title, author, year, genre, pages; later fields are not looked at. */
  lemma FailureOrder(b: Book)
    ensures FirstFailure(Rules, b) ==
      if !HasNonSpace(b.title) then Some(Title)
      else if !HasNonSpace(b.author) then Some(Author)
      else if b.year <= 0 then Some(Year)
      else if !HasNonSpace(b.genre) then Some(Genre)
      else if b.pages <= 0 then Some(Pages)
      else None
  {
    StripNonEmptyIff(b.title);
    StripNonEmptyIff(b.author);
    StripNonEmptyIff(b.genre);
    assert Rules[0] == Title && Rules[1] == Author && Rules[2] == Year && Rules[3] == Genre && Rules[4] == Pages;
    var r := FirstFailure(Rules, b);
    if r.Some? {
      var k :| 0 <= k < |Rules| && Rules[k] == r.value && !Passes(Rules[k], b) &&
               forall j :: 0 <= j < k ==> Passes(Rules[j], b);
      assert k == 0 <==> !Passes(Title, b);
    }
  }

  /** `_validate_data`: walks the rule list and stops at the first failing rule. */
  method ValidateData(title: string, author: string, year: int, genre: string, pages: int)
    returns (failure: Option<Field>)
    ensures failure == FirstFailure(Rules, Book(title, author, year, genre, pages))
  {
    var b := Book(title, author, year, genre, pages);
    for k := 0 to |Rules|
      invariant forall j :: 0 <= j < k ==> Passes(Rules[j], b)
    {
      if !Passes(Rules[k], b) {
        return Some(Rules[k]);
      }
    }
    return None;
  }

  /** `Book(title, author, year, genre, pages)`: validates, then stores the fields
      unchanged; on failure raises the message of the first failing rule. */
  method NewBook(title: string, author: string, year: int, genre: string, pages: int)
    returns (r: Result<Book, Error>)
    ensures r.Success? <==> WellFormed(Book(title, author, year, genre, pages))
    ensures r.Success? ==> r.value == Book(title, author, year, genre, pages)
    ensures r.Failure? ==> FirstFailure(Rules, Book(title, author, year, genre, pages)).Some? &&
                           r.error == ValueError(Message(FirstFailure(Rules, Book(title, author, year, genre, pages)).value))
  {
    var failure := ValidateData(title, author, year, genre, pages);
    NoFailureIffWellFormed(Book(title, author, year, genre, pages));
    if failure.Some? {
      return Failure(ValueError(Message(failure.value)));
    }
    return Success(Book(title, author, year, genre, pages));
  }

  /** The tuple `__eq__` compares: lowered title, author and genre, exact year and pages. */
  function Key(b: Book): (string, string, int, string, int) {
    (LowerStr(b.title), LowerStr(b.author), b.year, LowerStr(b.genre), b.pages)
  }

  /** `Book.__eq__`. */
  predicate Equal(a: Book, b: Book) {
    Key(a) == Key(b)
  }

  /** `__eq__` holds exactly when title, author and genre are the same up to
      letter case, position by position, and year and pages are equal. */
  lemma EqualIff(a: Book, b: Book)
    ensures Equal(a, b) <==>
      SameIgnoringCase(a.title, b.title) && SameIgnoringCase(a.author, b.author) &&
      a.year == b.year && SameIgnoringCase(a.genre, b.genre) && a.pages == b.pages
  {
    LowerStrEqIff(a.title, b.title);
    LowerStrEqIff(a.author, b.author);
    LowerStrEqIff(a.genre, b.genre);
  }

  /** `__eq__` is an equivalence relation. */
  lemma EqualIsEquivalence()
    ensures forall a :: Equal(a, a)
    ensures forall a, b :: Equal(a, b) ==> Equal(b, a)
    ensures forall a, b, c :: Equal(a, b) && Equal(b, c) ==> Equal(a, c)
  {
  }

  /** The script's first book and a copy with its letters in other cases are
      different values but equal books. */
  lemma EqualIgnoresCaseExample()
    ensures var a := Book("Название1", "Автор1", 2001, "Жанр1", 300);
            var b := Book("НАЗВАНИЕ1", "АВТОР1", 2001, "жанр1", 300);
            a != b && Equal(a, b)
  {
    var a := Book("Название1", "Автор1", 2001, "Жанр1", 300);
    var b := Book("НАЗВАНИЕ1", "АВТОР1", 2001, "жанр1", 300);
    assert a.title[1] != b.title[1];
    CaseExampleTitle();
    CaseExampleAuthor();
    CaseExampleGenre();
    EqualIff(a, b);
  }

  lemma CaseExampleTitle()
    ensures SameIgnoringCase("Название1", "НАЗВАНИЕ1")
  {
  }

  lemma CaseExampleAuthor()
    ensures SameIgnoringCase("Автор1", "АВТОР1")
  {
  }

  lemma CaseExampleGenre()
    ensures SameIgnoringCase("Жанр1", "жанр1")
  {
  }
}
