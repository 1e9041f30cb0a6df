# Library catalog core, modelled in Dafny

This project models the domain core of a small library-catalog web
application (the `catalog` app of a Django project). It covers two parts:

* The records of `catalog/models.py`: genres, book languages, authors,
  books and book copies ("instances"). It also covers the values derived
  from them:
  * the loan status and its default;
  * whether a copy is overdue;
  * an author's age, including its 29 February rule;
  * the three-genre preview of a book;
  * the default orderings;
  * the isbn constraints;
  * the set-null policy on deletion.
* The request handlers of `catalog/views.py`:
  * the list of copies on loan to a user;
  * the list of all copies by due date;
  * the home-page counters and the session visit counter;
  * the librarian's renewal of a copy, including the proposed date three
    weeks ahead.

Modules, one per component:

* `Wrappers` (wrappers.dfy): `Option` and `Result`.
* `Dates` (dates.dfy): dates of the proleptic Gregorian calendar, in
  Python's range of years 1 to 9999. Day numbers give an independent
  reference: date comparison is proved to be day-number comparison, and
  adding days is proved to add to the day number.
* `Queries` (queries.dfy): filtering, lookup of the first match, and an
  insertion sort. The sort is proved to return a sorted permutation.
* `Models` (models.dfy): the records and derived values. They are pure
  functions, with "today" passed in.
* `Views` (views.dfy): the listings and counters as functions. A class
  `Library` holds the tables and the session counter. Its methods `Renew`
  and `Index` change that state in place.

Decisions taken where the code is silent or leaves a choice:

* The isbn is required and holds at most 13 characters (`max_length=13`).
* `author_age`'s fallback runs only when its first `replace` fails, that is,
  for a 29 February birth in a common year. It therefore always builds
  1 March. The December overflow of `month + 1` cannot happen, and
  `BirthdayThisYear` proves its second failure branch dead.
* `order_by('due_back')` leaves the place of unset dates to the database.
  The parameter `nullsFirst` chooses it.
* The login and permission checks return responses (`LoginRedirect`,
  `Forbidden`). They are not preconditions.

## Model

| member | source | states |
|---|---|---|
| `Dates.DaysInMonth` | catalog/models.py:109-111 | a month has 28 to 31 days; February has 29 exactly in leap years (divisible by 4, centuries only when divisible by 400) and 28 otherwise |
| `Dates.ReplaceYear` | catalog/models.py:108-110 | moving a valid date to a year in 1..9999 with `replace(year=y)` fails exactly for 29 February into a common year, and otherwise keeps month and day |
| `Dates.Replace` | catalog/models.py:111 | `replace(year, month, 1)` always succeeds for a year in 1..9999 and a month in 1..12, and fails for month 13 (the overflow of `month + 1` after December) |
| `Dates.LessIffDayNumber` | catalog/models.py:83 | the date comparison used for overdue and birthdays is the comparison of day numbers |
| `Dates.DayNumberInjective` | catalog/views.py:118 | two calendar dates with the same day number are equal |
| `Dates.NextDay` | catalog/views.py:118 | the next day is a calendar date one day number later and strictly after, across month and year ends |
| `Dates.AddDays` | catalog/views.py:118 | adding n days gives a calendar date whose day number is n more, strictly later when n > 0 |
| `Dates.PlusDays` | catalog/views.py:118 | `date + timedelta` succeeds exactly when the day number stays within 9999-12-31, and then adds n to the day number |
| `Dates.PlusDaysUnique` | catalog/views.py:118 | the sum is the unique calendar date with the expected day number, or none past year 9999 |
| `Queries.Filter` | catalog/views.py:63 | a filter keeps each record that satisfies the predicate as often as it occurs, and no other record |
| `Queries.FilterPairwise` | catalog/models.py:61 | filtering keeps table order, so a relation between earlier and later records still holds afterwards |
| `Queries.FilterMembers` | catalog/views.py:63 | a record is in the filtered table exactly when it is in the table and satisfies the predicate |
| `Queries.SortedSelection` | catalog/views.py:63 | filtering then sorting gives exactly the matching records, with their multiplicities, in order |
| `Queries.UpdateMembers` | catalog/models.py:27 | overwriting one record brings in the new one and keeps every record other than the overwritten one |
| `Queries.IndexWhere` | catalog/views.py:101 | the lookup returns the first matching position, or none exactly when no record matches |
| `Queries.Insert` | catalog/views.py:75 | inserting adds exactly the one element |
| `Queries.SortBy` | catalog/views.py:75 | the sorted listing is a permutation of its input |
| `Queries.SortBySorted` | catalog/views.py:75 | for a total preorder, the sorted listing is ordered |
| `Models.StatusFromCode` | catalog/models.py:65-77 | a stored code reads as a status exactly when it is one of `m`, `o`, `a`, `r`, and the status has that code |
| `Models.StatusChoices` | catalog/models.py:65-70 | every status is a declared (code, label) choice and reads back from its code |
| `Models.LoanStatusIsComplete` | catalog/models.py:65-70 | the declared choices are exactly the (code, label) pairs of the four statuses |
| `Models.NewBookInstance` | catalog/models.py:72-78 | a copy created without a status has status `a`, and the given fields |
| `Models.IsOverdue` | catalog/models.py:80-83 | a copy is overdue iff its due date is set and its day number is below today's; never without a due date |
| `Models.BirthdayThisYear` | catalog/models.py:108-111 | this year's birthday is the birth month and day in today's year, or 1 March for 29 February in a common year |
| `Models.AuthorAge` | catalog/models.py:105-115 | the age fails, with MissingData, exactly when no birth date is recorded |
| `Models.AuthorAgeCountsBirthdays` | catalog/models.py:112-115 | the age is the year difference, less one while today's month and day come before the birth's |
| `Models.AuthorAgeNonNegative` | catalog/models.py:106-115 | an author born on or before today has an age of zero or more |
| `Models.JoinSnoc` | catalog/models.py:37 | `Join`, the model of `sep.join`: joining one more name appends the separator and that name |
| `Models.DisplayGenre` | catalog/models.py:36-37 | the preview is empty, the one genre's name, two names, or exactly the names of the first three genres in stored order, separated by ", " |
| `Models.StrLeTotal` | catalog/models.py:102 | any two names are ordered one way or the other in the model's code-point order |
| `Models.StrLeAntisymmetric` | catalog/models.py:102 | names ordered both ways are equal |
| `Models.StrLeTransitive` | catalog/models.py:102 | the name order chains |
| `Models.AuthorOrderIsTotalPreorder` | catalog/models.py:101-102 | `AuthorLe`, authors by last name, then first name, is a total preorder |
| `Models.ByDueBackIsTotalPreorder` | catalog/views.py:63 | ordering copies by due date, with unset dates at one end, is a total preorder |
| `Models.DefaultInstanceOrderIsTotalPreorder` | catalog/models.py:85-86 | `InstanceLe`, copies by due date, then status code, is a total preorder |
| `Models.DueBackSortedDatesAscending` | catalog/views.py:63 | a listing sorted by due date has its dated copies in ascending date order, wherever unset dates go |
| `Models.DefaultListing` | catalog/models.py:85-86 | the default listing is a permutation of the copies |
| `Models.DefaultListingSorted` | catalog/models.py:85-86 | the default listing is ordered by due date and status, so by due date alone too |
| `Models.SaveBook` | catalog/models.py:27 | saving succeeds exactly when the isbn has 1 to 13 characters and no other book holds it; it keeps the table's constraints and changes only the saved book |
| `Models.DeleteAuthor` | catalog/models.py:24 | the author leaves; every book stays, a book that referred to it has its author set to none and nothing else changed, other books are unchanged, and the book constraints hold |
| `Models.DeleteLanguage` | catalog/models.py:33 | the language leaves; every book stays, one that used it has its language set to none and nothing else changed, other books are unchanged |
| `Models.DeleteBook` | catalog/models.py:61 | the book leaves; every copy stays, one of that book has its book set to none and nothing else changed, other copies are unchanged |
| `Models.DeleteBookKeepsBooksValid` | catalog/models.py:61 | the book table keeps unique ids and acceptable, unique isbns after a deletion |
| `Models.DeleteUser` | catalog/models.py:59 | every copy stays; one the deleted user borrowed has its borrower set to none and nothing else changed, other copies are unchanged |
| `Views.LoanedBy` | catalog/views.py:62-63 | the list holds exactly the copies lent to the user and on loan, with their multiplicities, sorted by due date, dated copies ascending |
| `Views.AllBorrowed` | catalog/views.py:74-75 | the list is a permutation of every copy, whatever its status, sorted by due date, dated copies ascending |
| `Views.ListAuthors` | catalog/views.py:78-79 | the author list is a permutation of the authors |
| `Views.ListAuthorsSorted` | catalog/views.py:78-79 | the author list is in last name, first name order |
| `Views.CountWithStatus` | catalog/views.py:19 | a status count never exceeds the number of copies |
| `Views.CountWithStatusIsFilterSize` | catalog/views.py:19 | the count of a status is the size of the table filtered by that status |
| `Views.ProposedRenewalDate` | catalog/views.py:118 | the proposal is 21 days after today by day number, strictly later, and exists exactly when it stays within 9999-12-31 |
| `Views.RenewedToProposedNotOverdue` | catalog/views.py:118 | before year 9999 a proposal exists, and a copy renewed to it is not overdue on any day up to 21 days after today |
| `Views.Library.Index` | catalog/views.py:11-36 | the counts are the table sizes, the available count is the `a` copies and at most all copies; the visit shown is the stored count, or 1 when absent, and the stored count becomes one more |
| `Views.Library.Renew` | catalog/views.py:97-126 | exactly when not logged in it redirects to login, exactly when logged in without permission it is forbidden, exactly when permitted and the id is unknown it is not found; a valid POST redirects and sets the due date of that copy only; an invalid POST, or a GET whose proposal exists, renders the form with the copy (and, for a GET, the proposal); a GET whose proposal passes 9999-12-31 is a server error, as Python's `OverflowError` is; every path but a valid POST leaves the table unchanged |

## Left out

- HTTP requests and responses, templates, `render`, `reverse`, `get_absolute_url`, redirects and pagination are framework plumbing. Each handler's outcome is a datatype value instead.
- The generic list, detail, create, update and delete views (catalog/views.py:39-46, 81-83, 130-161) carry no logic of their own. Book saving and the deletions are modelled as the table operations they rely on. The author list (catalog/views.py:78-79) is modelled by `ListAuthors`.
- `BookDetailView.book_detail_view` and `AuthorDetailView.author_age` are never routed to, so they are left out.
- The renewal form's validation is not part of this model. Its verdict and cleaned date are parameters of `Renew`.
- `date.today()` and the session store are inputs: `today` is a parameter, and the session counter is a field of `Library`.
- Login and permission come in as an `Actor` value for `Renew`. Django's authentication and its permission tables are left out. The login gate of the borrowed-by-user list (catalog/views.py:56) and the `can_mark_returned` gate of the all-copies list (catalog/views.py:66-70) are left to the caller: `LoanedBy` takes the logged-in user, and `AllBorrowed` has no gate.
- Copy ids are abstract natural numbers. UUID generation is left out.
- `__str__` methods are left out, including `str.title()` casing, which depends on Unicode.
- A blank status is left out. The field allows `''` from forms, but the model's status is the closed four-value enumeration.
- Length limits other than the isbn's are left out: title, summary, names and imprint. So are the other required-field checks.
- The database's placement of unset due dates is a parameter. The order of ties, which the database leaves open, is not specified: the model's sort is not proved stable.
- AuthorLe: names are compared by code point (`StrLe`), a prefix first. The database's collation decides the real order and may differ, for instance by ignoring case.
- Two librarians renewing at once are not modelled. The model is sequential.
- The admin module and the generated migration configure display and repeat the models' constraints, so they are left out.
