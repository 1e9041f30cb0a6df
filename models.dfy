/**
 * The catalog's domain records (catalog/models.py) and the values derived
 * from them: loan status, whether a copy is overdue, an author's age, the
 * genre preview of a book, the natural orderings, the book-table
 * constraints and the set-null deletion policy. "Today" is a parameter.
 */
module Models {
  import opened Wrappers
  import opened Dates
  import opened Queries

  // Ids are abstract keys assigned by the store.
  type GenreId = nat
  type LanguageId = nat
  type AuthorId = nat
  type BookId = nat
  type InstanceId = nat
  type UserId = nat

  datatype ModelError =
    | MissingData      // a derived value needs a field that is unset
    | ValidationError  // a field or uniqueness constraint is violated

  datatype Genre = Genre(id: GenreId, name: string)

  datatype BookLanguage = BookLanguage(id: LanguageId, name: string)

  datatype Author = Author(
    id: AuthorId,
    firstName: string,
    lastName: string,
    dateOfBirth: Option<ValidDate>,
    dateOfDeath: Option<ValidDate>)

  datatype Book = Book(
    id: BookId,
    title: string,
    author: Option<AuthorId>,
    summary: string,
    isbn: string,
    bookAdded: Option<ValidDate>,
    genres: seq<GenreId>,
    language: Option<LanguageId>)

  // ---------------------------------------------------------------------
  // Loan status

  /** The four loan states; each is stored as one character. */
  datatype Status = Maintenance | OnLoan | Available | Reserved {
    function Code(): char {
      match this
      case Maintenance => 'm'
      case OnLoan => 'o'
      case Available => 'a'
      case Reserved => 'r'
    }

    function Label(): string {
      match this
      case Maintenance => "Maintenance"
      case OnLoan => "On loan"
      case Available => "Available"
      case Reserved => "Reserved"
    }
  }

  /** The declared choices, as (stored code, label) pairs in declaration order. */
  const LoanStatus: seq<(char, string)> :=
    [('m', "Maintenance"), ('o', "On loan"), ('a', "Available"), ('r', "Reserved")]

  /** The status a new copy gets when none is given. */
  const DefaultStatus: Status := Available

  /** Reads a stored status code; None for a code outside the choices. */
  function StatusFromCode(c: char): (r: Option<Status>)
    ensures r.Some? <==> c in {'m', 'o', 'a', 'r'}
    ensures r.Some? ==> r.value.Code() == c
  {
    match c
    case 'm' => Some(Maintenance)
    case 'o' => Some(OnLoan)
    case 'a' => Some(Available)
    case 'r' => Some(Reserved)
    case _ => None
  }

  /** Every status is one of the declared choices and reads back from its code. */
  lemma StatusChoices(s: Status)
    ensures (s.Code(), s.Label()) in LoanStatus
    ensures StatusFromCode(s.Code()) == Some(s)
  {
  }

  /** The choices are exactly the four codes, each naming a distinct status. */
  lemma {:induction false} LoanStatusIsComplete(c: char, text: string)
    ensures (c, text) in LoanStatus <==> exists s: Status :: s.Code() == c && s.Label() == text
  {
    if (c, text) in LoanStatus {
      var s := StatusFromCode(c).value;
      assert s.Code() == c && s.Label() == text;
    }
  }

  datatype BookInstance = BookInstance(
    id: InstanceId,
    borrower: Option<UserId>,
    book: Option<BookId>,
    imprint: Option<string>,
    dueBack: Option<ValidDate>,
    status: Status)

  /** A copy created without a status takes the default, `'a'` (Available). */
  function NewBookInstance(
    id: InstanceId, borrower: Option<UserId>, book: Option<BookId>,
    imprint: Option<string>, dueBack: Option<ValidDate>): (r: BookInstance)
    ensures r.status.Code() == 'a'
    ensures r.id == id && r.borrower == borrower && r.book == book
    ensures r.imprint == imprint && r.dueBack == dueBack
  {
    BookInstance(id, borrower, book, imprint, dueBack, DefaultStatus)
  }

  // ---------------------------------------------------------------------
  // Overdue

  /**
   * A copy is overdue when its due date is set and today is past it, that
   * is, when today's day number exceeds the due date's.
   */
  function IsOverdue(inst: BookInstance, today: ValidDate): (r: bool)
    ensures r <==> inst.dueBack.Some? && DayNumber(inst.dueBack.value) < DayNumber(today)
    ensures inst.dueBack.None? ==> !r
  {
    if inst.dueBack.Some? then
      LessIffDayNumber(inst.dueBack.value, today);
      Less(inst.dueBack.value, today)
    else false
  }

  // ---------------------------------------------------------------------
  // Author age

  /**
   * The author's birthday in the current year: the birth date moved to
   * today's year, or, where that raises (29 February out of a leap year),
   * the first of the following month, which is then always 1 March.
   */
  function BirthdayThisYear(birth: ValidDate, today: ValidDate): (b: ValidDate)
    ensures b.year == today.year
    ensures birth.month == 2 && birth.day == 29 && !IsLeapYear(today.year) ==>
      b == Date(today.year, 3, 1)
    ensures !(birth.month == 2 && birth.day == 29 && !IsLeapYear(today.year)) ==>
      b == Date(today.year, birth.month, birth.day)
  {
    match ReplaceYear(birth, today.year)
    case Some(d) => d
    case None =>
      match Replace(today.year, birth.month + 1, 1)
      case Some(d) => d
      case None => assert false; birth
  }

  /** The author's age in whole years; MissingData when no birth date is recorded. */
  function AuthorAge(a: Author, today: ValidDate): (r: Result<int, ModelError>)
    ensures r.Err? <==> a.dateOfBirth.None?
    ensures r.Err? ==> r.error == MissingData
  {
    match a.dateOfBirth
    case None => Err(MissingData)
    case Some(birth) =>
      var birthday := BirthdayThisYear(birth, today);
      if Less(today, birthday) then Ok(today.year - birth.year - 1)
      else Ok(today.year - birth.year)
  }

  /** `today` falls earlier in its year than the month and day of `birth`. */
  predicate MonthDayBefore(today: Date, birth: Date) {
    today.month < birth.month || (today.month == birth.month && today.day < birth.day)
  }

  /**
   * The age is the year difference, less one while this year's birthday
   * (by month and day) is still ahead; a 29 February birthday is passed
   * on 1 March in a common year.
   */
  lemma AuthorAgeCountsBirthdays(a: Author, today: ValidDate)
    requires a.dateOfBirth.Some?
    ensures AuthorAge(a, today) == Ok(today.year - a.dateOfBirth.value.year -
      (if MonthDayBefore(today, a.dateOfBirth.value) then 1 else 0))
  {
    var birth := a.dateOfBirth.value;
    var birthday := BirthdayThisYear(birth, today);
    if birth.month == 2 && birth.day == 29 && !IsLeapYear(today.year) {
      assert today.month == 2 ==> today.day <= 28;
      assert Less(today, birthday) <==> MonthDayBefore(today, birth);
    }
  }

  /** An author born on or before today has a non-negative age. */
  lemma AuthorAgeNonNegative(a: Author, today: ValidDate)
    requires a.dateOfBirth.Some? && LessEq(a.dateOfBirth.value, today)
    ensures AuthorAge(a, today).Ok? && AuthorAge(a, today).value >= 0
  {
    AuthorAgeCountsBirthdays(a, today);
  }

  // ---------------------------------------------------------------------
  // Genre preview

  /** Python's `sep.join(parts)`. */
  function Join(sep: string, parts: seq<string>): string {
    if |parts| == 0 then ""
    else if |parts| == 1 then parts[0]
    else parts[0] + sep + Join(sep, parts[1..])
  }

  /** Joining one more part appends the separator and the part. */
  lemma {:induction false} JoinSnoc(sep: string, parts: seq<string>, p: string)
    requires parts != []
    ensures Join(sep, parts + [p]) == Join(sep, parts) + sep + p
  {
    if |parts| > 1 {
      assert (parts + [p])[1..] == parts[1..] + [p];
      JoinSnoc(sep, parts[1..], p);
    }
  }

  /** `sep.join` of at most three parts, spelled out. */
  lemma JoinUpToThree(sep: string, parts: seq<string>)
    requires |parts| <= 3
    ensures |parts| == 0 ==> Join(sep, parts) == ""
    ensures |parts| == 1 ==> Join(sep, parts) == parts[0]
    ensures |parts| == 2 ==> Join(sep, parts) == parts[0] + sep + parts[1]
    ensures |parts| == 3 ==> Join(sep, parts) == parts[0] + sep + parts[1] + sep + parts[2]
  {
    if |parts| == 2 {
      assert parts[1..] == [parts[1]];
    } else if |parts| == 3 {
      assert parts[1..][1..] == [parts[2]];
      assert Join(sep, parts[1..]) == parts[1] + sep + parts[2];
    }
  }

  /**
   * The names of the first three of the book's genres, in the order the
   * store lists them, separated by ", ": empty, one name, two names, or
   * exactly the first three.
   */
  function DisplayGenre(genres: seq<Genre>): (r: string)
    ensures |genres| == 0 ==> r == ""
    ensures |genres| == 1 ==> r == genres[0].name
    ensures |genres| == 2 ==> r == genres[0].name + ", " + genres[1].name
    ensures |genres| >= 3 ==> r == genres[0].name + ", " + genres[1].name + ", " + genres[2].name
  {
    var n := if |genres| < 3 then |genres| else 3;
    var names := seq(n, i requires 0 <= i < n => genres[i].name);
    JoinUpToThree(", ", names);
    Join(", ", names)
  }

  // ---------------------------------------------------------------------
  // Natural orderings

  /**
   * The string order the model assumes for names: lexicographic by code
   * point, a prefix first. The database's collation decides the real order.
   */
  predicate StrLe(a: string, b: string) {
    if a == [] then true
    else if b == [] then false
    else if a[0] != b[0] then a[0] < b[0]
    else StrLe(a[1..], b[1..])
  }

  lemma {:induction false} StrLeTotal(a: string, b: string)
    ensures StrLe(a, b) || StrLe(b, a)
  {
    if a != [] && b != [] && a[0] == b[0] {
      StrLeTotal(a[1..], b[1..]);
    }
  }

  lemma {:induction false} StrLeAntisymmetric(a: string, b: string)
    requires StrLe(a, b) && StrLe(b, a)
    ensures a == b
  {
    if a != [] && b != [] {
      StrLeAntisymmetric(a[1..], b[1..]);
      assert a == [a[0]] + a[1..] && b == [b[0]] + b[1..];
    }
  }

  lemma {:induction false} StrLeTransitive(a: string, b: string, c: string)
    requires StrLe(a, b) && StrLe(b, c)
    ensures StrLe(a, c)
  {
    if a != [] && b != [] && c != [] && a[0] == b[0] && b[0] == c[0] {
      StrLeTransitive(a[1..], b[1..], c[1..]);
    }
  }

  /** Authors ordered by last name, then first name. */
  predicate AuthorLe(a: Author, b: Author) {
    if a.lastName != b.lastName then StrLe(a.lastName, b.lastName)
    else StrLe(a.firstName, b.firstName)
  }

  function AuthorOrder(): (Author, Author) -> bool {
    (a, b) => AuthorLe(a, b)
  }

  lemma AuthorOrderIsTotalPreorder()
    ensures TotalPreorder(AuthorOrder())
  {
    forall a: Author, b: Author ensures AuthorLe(a, b) || AuthorLe(b, a) {
      StrLeTotal(a.lastName, b.lastName);
      StrLeTotal(a.firstName, b.firstName);
    }
    forall a: Author, b: Author, c: Author | AuthorLe(a, b) && AuthorLe(b, c)
      ensures AuthorLe(a, c)
    {
      if a.lastName == b.lastName && b.lastName == c.lastName {
        StrLeTransitive(a.firstName, b.firstName, c.firstName);
      } else if a.lastName != b.lastName && b.lastName != c.lastName && a.lastName == c.lastName {
        StrLeAntisymmetric(a.lastName, b.lastName);
      } else if a.lastName != b.lastName && b.lastName != c.lastName {
        StrLeTransitive(a.lastName, b.lastName, c.lastName);
      }
    }
  }

  /**
   * Ascending order of optional due dates. Where an unset date goes is up
   * to the database, so `nullsFirst` says.
   */
  predicate DueBackLe(nullsFirst: bool, a: Option<ValidDate>, b: Option<ValidDate>) {
    match (a, b)
    case (None, None) => true
    case (None, Some(_)) => nullsFirst
    case (Some(_), None) => !nullsFirst
    case (Some(x), Some(y)) => LessEq(x, y)
  }

  /** Copies ordered by due date alone (`order_by('due_back')`). */
  function ByDueBack(nullsFirst: bool): (BookInstance, BookInstance) -> bool {
    (a: BookInstance, b: BookInstance) => DueBackLe(nullsFirst, a.dueBack, b.dueBack)
  }

  /** The default ordering of copies: by due date, then by stored status code. */
  predicate InstanceLe(nullsFirst: bool, a: BookInstance, b: BookInstance) {
    if a.dueBack != b.dueBack then DueBackLe(nullsFirst, a.dueBack, b.dueBack)
    else a.status.Code() <= b.status.Code()
  }

  function DefaultInstanceOrder(nullsFirst: bool): (BookInstance, BookInstance) -> bool {
    (a, b) => InstanceLe(nullsFirst, a, b)
  }

  lemma ByDueBackIsTotalPreorder(nullsFirst: bool)
    ensures TotalPreorder(ByDueBack(nullsFirst))
  {
  }

  lemma DefaultInstanceOrderIsTotalPreorder(nullsFirst: bool)
    ensures TotalPreorder(DefaultInstanceOrder(nullsFirst))
  {
    forall a: BookInstance, b: BookInstance, c: BookInstance
      | InstanceLe(nullsFirst, a, b) && InstanceLe(nullsFirst, b, c)
      ensures InstanceLe(nullsFirst, a, c)
    {
    }
  }

  /** Copies whose due dates are both set appear in ascending date order. */
  predicate DatesAscending(s: seq<BookInstance>) {
    forall i, j :: 0 <= i < j < |s| && s[i].dueBack.Some? && s[j].dueBack.Some? ==>
      LessEq(s[i].dueBack.value, s[j].dueBack.value)
  }

  /** Sorted by due date, wherever unset dates go, means dated copies ascend. */
  lemma DueBackSortedDatesAscending(s: seq<BookInstance>, nullsFirst: bool)
    requires Sorted(s, ByDueBack(nullsFirst))
    ensures DatesAscending(s)
  {
    forall i, j | 0 <= i < j < |s| && s[i].dueBack.Some? && s[j].dueBack.Some?
      ensures LessEq(s[i].dueBack.value, s[j].dueBack.value)
    {
      assert ByDueBack(nullsFirst)(s[i], s[j]);
    }
  }

  /** Copies listed in their default order. */
  function DefaultListing(instances: seq<BookInstance>, nullsFirst: bool): (r: seq<BookInstance>)
    ensures multiset(r) == multiset(instances)
  {
    SortBy(instances, DefaultInstanceOrder(nullsFirst))
  }

  /** The default listing is sorted by due date then status, so by due date alone too. */
  lemma DefaultListingSorted(instances: seq<BookInstance>, nullsFirst: bool)
    ensures Sorted(DefaultListing(instances, nullsFirst), DefaultInstanceOrder(nullsFirst))
    ensures Sorted(DefaultListing(instances, nullsFirst), ByDueBack(nullsFirst))
    ensures DatesAscending(DefaultListing(instances, nullsFirst))
  {
    DefaultInstanceOrderIsTotalPreorder(nullsFirst);
    SortBySorted(instances, DefaultInstanceOrder(nullsFirst));
  }

  // ---------------------------------------------------------------------
  // The book table

  /** An isbn is required and holds at most 13 characters. */
  predicate IsbnAcceptable(isbn: string) {
    1 <= |isbn| <= 13
  }

  /** The constraints the book table keeps: unique ids, acceptable and unique isbns. */
  predicate BooksValid(books: seq<Book>) {
    (forall i :: 0 <= i < |books| ==> IsbnAcceptable(books[i].isbn)) &&
    (forall i, j :: 0 <= i < j < |books| ==> books[i].id != books[j].id) &&
    (forall i, j :: 0 <= i < j < |books| ==> books[i].isbn != books[j].isbn)
  }

  /**
   * Saves `b`, replacing the book with its id or adding it; fails with
   * ValidationError when the isbn is unacceptable or held by another book.
   */
  function SaveBook(books: seq<Book>, b: Book): (r: Result<seq<Book>, ModelError>)
    ensures r.Ok? <==> (IsbnAcceptable(b.isbn) &&
      forall i :: 0 <= i < |books| && books[i].id != b.id ==> books[i].isbn != b.isbn)
    ensures r.Err? ==> r.error == ValidationError
    ensures r.Ok? ==> b in r.value
    ensures r.Ok? ==> forall x :: x in r.value ==> x == b || x in books
    ensures r.Ok? ==> forall x :: x in books && x.id != b.id ==> x in r.value
    ensures r.Ok? && BooksValid(books) ==> BooksValid(r.value)
  {
    if !IsbnAcceptable(b.isbn) then Err(ValidationError)
    else if exists i :: 0 <= i < |books| && books[i].id != b.id && books[i].isbn == b.isbn then
      Err(ValidationError)
    else
      match IndexWhere(books, (x: Book) => x.id == b.id)
      case Some(k) =>
        UpdateMembers(books, k, b);
        Ok(books[k := b])
      case None => Ok(books + [b])
  }

  // ---------------------------------------------------------------------
  // Deletion: references to a deleted record become unset

  /**
   * Deletes an author: it leaves the author table, and every book that
   * referred to it stays, with its author unset and nothing else changed.
   */
  function DeleteAuthor(authors: seq<Author>, books: seq<Book>, id: AuthorId)
    : (r: (seq<Author>, seq<Book>))
    ensures forall x :: x in r.0 <==> x in authors && x.id != id
    ensures |r.1| == |books|
    ensures forall i :: 0 <= i < |books| ==>
      r.1[i].author != Some(id) && r.1[i] == books[i].(author := r.1[i].author)
    ensures forall i :: 0 <= i < |books| && books[i].author == Some(id) ==>
      r.1[i].author == None
    ensures forall i :: 0 <= i < |books| && books[i].author != Some(id) ==> r.1[i] == books[i]
    ensures BooksValid(books) ==> BooksValid(r.1)
  {
    var kept := Filter(authors, (x: Author) => x.id != id);
    FilterMembers(authors, (x: Author) => x.id != id);
    (kept,
     seq(|books|, i requires 0 <= i < |books| =>
       if books[i].author == Some(id) then books[i].(author := None) else books[i]))
  }

  /** Deletes a language: books that used it stay, with language unset. */
  function DeleteLanguage(languages: seq<BookLanguage>, books: seq<Book>, id: LanguageId)
    : (r: (seq<BookLanguage>, seq<Book>))
    ensures forall x :: x in r.0 <==> x in languages && x.id != id
    ensures |r.1| == |books|
    ensures forall i :: 0 <= i < |books| ==>
      r.1[i].language != Some(id) && r.1[i] == books[i].(language := r.1[i].language)
    ensures forall i :: 0 <= i < |books| && books[i].language == Some(id) ==>
      r.1[i].language == None
    ensures forall i :: 0 <= i < |books| && books[i].language != Some(id) ==> r.1[i] == books[i]
    ensures BooksValid(books) ==> BooksValid(r.1)
  {
    var kept := Filter(languages, (x: BookLanguage) => x.id != id);
    FilterMembers(languages, (x: BookLanguage) => x.id != id);
    (kept,
     seq(|books|, i requires 0 <= i < |books| =>
       if books[i].language == Some(id) then books[i].(language := None) else books[i]))
  }

  /** Deletes a book: its copies stay, with book unset. */
  function DeleteBook(books: seq<Book>, instances: seq<BookInstance>, id: BookId)
    : (r: (seq<Book>, seq<BookInstance>))
    ensures forall x :: x in r.0 <==> x in books && x.id != id
    ensures |r.1| == |instances|
    ensures forall i :: 0 <= i < |instances| ==>
      r.1[i].book != Some(id) && r.1[i] == instances[i].(book := r.1[i].book)
    ensures forall i :: 0 <= i < |instances| && instances[i].book == Some(id) ==>
      r.1[i].book == None
    ensures forall i :: 0 <= i < |instances| && instances[i].book != Some(id) ==>
      r.1[i] == instances[i]
  {
    var kept := Filter(books, (x: Book) => x.id != id);
    FilterMembers(books, (x: Book) => x.id != id);
    (kept,
     seq(|instances|, i requires 0 <= i < |instances| =>
       if instances[i].book == Some(id) then instances[i].(book := None) else instances[i]))
  }

  /** Deleting a user leaves the copies it borrowed, with borrower unset. */
  function DeleteUser(instances: seq<BookInstance>, user: UserId): (r: seq<BookInstance>)
    ensures |r| == |instances|
    ensures forall i :: 0 <= i < |instances| ==>
      r[i].borrower != Some(user) && r[i] == instances[i].(borrower := r[i].borrower)
    ensures forall i :: 0 <= i < |instances| && instances[i].borrower == Some(user) ==>
      r[i].borrower == None
    ensures forall i :: 0 <= i < |instances| && instances[i].borrower != Some(user) ==>
      r[i] == instances[i]
  {
    seq(|instances|, i requires 0 <= i < |instances| =>
      if instances[i].borrower == Some(user) then instances[i].(borrower := None) else instances[i])
  }

  /** Deleting a book keeps the book table's constraints. */
  lemma DeleteBookKeepsBooksValid(books: seq<Book>, instances: seq<BookInstance>, id: BookId)
    requires BooksValid(books)
    ensures BooksValid(DeleteBook(books, instances, id).0)
  {
    var keep := (x: Book) => x.id != id;
    var kept := DeleteBook(books, instances, id).0;
    assert kept == Filter(books, keep);
    FilterPairwise(books, keep, (a: Book, b: Book) => a.id != b.id);
    FilterPairwise(books, keep, (a: Book, b: Book) => a.isbn != b.isbn);
    forall i | 0 <= i < |kept| ensures IsbnAcceptable(kept[i].isbn) {
      assert multiset(kept)[kept[i]] > 0;
      assert kept[i] in books;
    }
  }
}
