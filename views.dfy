/**
 * The catalog's request handlers (catalog/views.py) with the web framework
 * taken away: the copy listings, the home-page counters and visit counter,
 * and the librarian's renewal of a copy. Login state, the
 * "can mark returned" permission, the renewal form's verdict and today's
 * date arrive as parameters.
 */
module Views {
  import opened Wrappers
  import opened Dates
  import opened Queries
  import opened Models

  // ---------------------------------------------------------------------
  // Listings

  predicate OnLoanTo(user: UserId, x: BookInstance) {
    x.borrower == Some(user) && x.status == OnLoan
  }

  /**
   * The copies on loan to `user`, ordered by due date: exactly the copies
   * lent to `user` and on loan, each as often as in the table; dated copies
   * come in ascending date order wherever the database puts undated ones.
   */
  function LoanedBy(instances: seq<BookInstance>, user: UserId, nullsFirst: bool)
    : (r: seq<BookInstance>)
    ensures forall x :: (multiset(r)[x] ==
      if OnLoanTo(user, x) then multiset(instances)[x] else 0)
    ensures forall x :: (x in r <==> x in instances && OnLoanTo(user, x))
    ensures Sorted(r, ByDueBack(nullsFirst))
    ensures DatesAscending(r)
  {
    var onLoan := (x: BookInstance) => OnLoanTo(user, x);
    ByDueBackIsTotalPreorder(nullsFirst);
    SortedSelection(instances, onLoan, ByDueBack(nullsFirst));
    var listing := SortBy(Filter(instances, onLoan), ByDueBack(nullsFirst));
    DueBackSortedDatesAscending(listing, nullsFirst);
    listing
  }

  /**
   * Every copy, whatever its status, ordered by due date: a permutation of
   * the whole table, with dated copies in ascending date order.
   */
  function AllBorrowed(instances: seq<BookInstance>, nullsFirst: bool): (r: seq<BookInstance>)
    ensures multiset(r) == multiset(instances)
    ensures Sorted(r, ByDueBack(nullsFirst))
    ensures DatesAscending(r)
  {
    ByDueBackIsTotalPreorder(nullsFirst);
    SortBySorted(instances, ByDueBack(nullsFirst));
    var listing := SortBy(instances, ByDueBack(nullsFirst));
    DueBackSortedDatesAscending(listing, nullsFirst);
    listing
  }

  /** The author list in its natural order, by last name then first name. */
  function ListAuthors(authors: seq<Author>): (r: seq<Author>)
    ensures multiset(r) == multiset(authors)
  {
    SortBy(authors, AuthorOrder())
  }

  lemma ListAuthorsSorted(authors: seq<Author>)
    ensures Sorted(ListAuthors(authors), AuthorOrder())
  {
    AuthorOrderIsTotalPreorder();
    SortBySorted(authors, AuthorOrder());
  }

  // ---------------------------------------------------------------------
  // Home-page counters

  /** The number of copies with status `s`. */
  function CountWithStatus(instances: seq<BookInstance>, s: Status): (n: nat)
    ensures n <= |instances|
  {
    if instances == [] then 0
    else (if instances[0].status == s then 1 else 0) + CountWithStatus(instances[1..], s)
  }

  /** The count is the size of the table filtered by status. */
  lemma {:induction false} CountWithStatusIsFilterSize(instances: seq<BookInstance>, s: Status)
    ensures CountWithStatus(instances, s) == |Filter(instances, (x: BookInstance) => x.status == s)|
  {
    if instances != [] {
      CountWithStatusIsFilterSize(instances[1..], s);
    }
  }

  datatype IndexContext = IndexContext(
    numBooks: nat,
    numInstances: nat,
    numInstancesAvailable: nat,
    numAuthors: nat,
    numVisits: int)

  // ---------------------------------------------------------------------
  // Renewal

  /** A renewal is first proposed three weeks after today. */
  const RenewalWeeks := 3

  /** Today plus three weeks; None where Python's date arithmetic overflows. */
  function ProposedRenewalDate(today: ValidDate): (r: Option<ValidDate>)
    ensures r.Some? <==> DayNumber(today) + 21 <= DayNumber(MaxDate)
    ensures r.Some? ==> DayNumber(r.value) == DayNumber(today) + 21
    ensures r.Some? ==> Less(today, r.value)
  {
    PlusDays(today, 7 * RenewalWeeks)
  }

  /**
   * Before the last year of the calendar a proposal always exists, and a
   * copy renewed to it is not overdue on any day up to three weeks from today.
   */
  lemma RenewedToProposedNotOverdue(inst: BookInstance, today: ValidDate, day: ValidDate)
    requires today.year < MaxYear
    requires DayNumber(day) <= DayNumber(today) + 21
    ensures ProposedRenewalDate(today).Some?
    ensures !IsOverdue(inst.(dueBack := ProposedRenewalDate(today)), day)
  {
    var lastButOne := Date(MaxYear - 1, 12, 31);
    if today != lastButOne {
      DayNumberMonotone(today, lastButOne);
    }
    assert DaysBeforeYear(MaxYear) == DaysBeforeYear(MaxYear - 1) + 365;
    var p := ProposedRenewalDate(today).value;
    LessIffDayNumber(p, day);
  }

  /** Who is asking: nobody logged in, or a user and whether it may mark copies returned. */
  datatype Actor = Anonymous | LoggedIn(user: UserId, canMarkReturned: bool)

  /**
   * A GET shows the form; every method other than POST is handled as a GET.
   * A POST carries the form's verdict and its renewal date.
   */
  datatype RenewRequest = Get | Post(formValid: bool, renewalDate: ValidDate)

  datatype RenewResponse =
    | LoginRedirect                 // not logged in
    | Forbidden                     // lacks the permission (403)
    | NotFound                      // no copy with that id (404)
    | RedirectAllBorrowed           // renewed; back to the list of all copies
    | RenderForm(instance: BookInstance, proposed: Option<ValidDate>)
    | ServerError                   // the proposed date cannot be represented

  predicate InstanceIdsUnique(instances: seq<BookInstance>) {
    forall i, j :: 0 <= i < j < |instances| ==> instances[i].id != instances[j].id
  }

  predicate HasInstance(instances: seq<BookInstance>, pk: InstanceId) {
    exists i :: 0 <= i < |instances| && instances[i].id == pk
  }

  /** The library's tables and the visitor's session counter. */
  class Library {
    var books: seq<Book>
    var authors: seq<Author>
    var instances: seq<BookInstance>
    /** The session's stored visit count, absent before the first visit. */
    var visits: Option<int>

    ghost predicate Valid()
      reads this
    {
      BooksValid(books) && InstanceIdsUnique(instances)
    }

    constructor (books: seq<Book>, authors: seq<Author>, instances: seq<BookInstance>)
      requires BooksValid(books) && InstanceIdsUnique(instances)
      ensures Valid()
      ensures this.books == books && this.authors == authors && this.instances == instances
      ensures visits == None
    {
      this.books := books;
      this.authors := authors;
      this.instances := instances;
      visits := None;
    }

    /**
     * The home page: counts of books, copies, available copies and
     * authors, and the number of this visit (1 on the first); the session
     * then stores one more.
     */
    method Index() returns (ctx: IndexContext)
      requires Valid()
      modifies this`visits
      ensures Valid()
      ensures ctx.numBooks == |books| && ctx.numAuthors == |authors|
      ensures ctx.numInstances == |instances|
      ensures ctx.numInstancesAvailable ==
        |Filter(instances, (x: BookInstance) => x.status == Available)|
      ensures ctx.numInstancesAvailable <= ctx.numInstances
      ensures ctx.numVisits == if old(visits).Some? then old(visits).value else 1
      ensures visits == Some(ctx.numVisits + 1)
    {
      var available := CountWithStatus(instances, Available);
      CountWithStatusIsFilterSize(instances, Available);
      var shown := if visits.Some? then visits.value else 1;
      visits := Some(shown + 1);
      ctx := IndexContext(|books|, |instances|, available, |authors|, shown);
    }

    /**
     * A librarian renews copy `pk`: a valid POST sets its due date to the
     * submitted date and changes nothing else; every other path leaves the
     * table as it was.
     */
    method Renew(actor: Actor, pk: InstanceId, request: RenewRequest, today: ValidDate)
      returns (response: RenewResponse)
      requires Valid()
      modifies this`instances
      ensures Valid()
      ensures response == LoginRedirect <==> actor.Anonymous?
      ensures response == Forbidden <==> actor.LoggedIn? && !actor.canMarkReturned
      ensures response == NotFound <==>
        actor.LoggedIn? && actor.canMarkReturned && !HasInstance(old(instances), pk)
      ensures response == RedirectAllBorrowed <==>
        actor.LoggedIn? && actor.canMarkReturned && HasInstance(old(instances), pk) &&
        request.Post? && request.formValid
      ensures response == RedirectAllBorrowed ==>
        |instances| == |old(instances)| &&
        forall j :: 0 <= j < |instances| ==>
          instances[j] == if old(instances)[j].id == pk
                          then old(instances)[j].(dueBack := Some(request.renewalDate))
                          else old(instances)[j]
      ensures response != RedirectAllBorrowed ==> instances == old(instances)
      ensures response.RenderForm? <==>
        actor.LoggedIn? && actor.canMarkReturned && HasInstance(old(instances), pk) &&
        !(request.Post? && request.formValid) &&
        !(request.Get? && ProposedRenewalDate(today).None?)
      ensures response.RenderForm? ==>
        response.instance in instances && response.instance.id == pk &&
        response.proposed == (if request.Get? then ProposedRenewalDate(today) else None)
      ensures response == ServerError <==>
        actor.LoggedIn? && actor.canMarkReturned && HasInstance(old(instances), pk) &&
        request.Get? && ProposedRenewalDate(today).None?
    {
      if actor.Anonymous? {
        return LoginRedirect;
      }
      if !actor.canMarkReturned {
        return Forbidden;
      }
      var found := IndexWhere(instances, (x: BookInstance) => x.id == pk);
      if found.None? {
        return NotFound;
      }
      var i := found.value;
      var inst := instances[i];
      match request {
        case Post(formValid, renewalDate) =>
          if formValid {
            instances := instances[i := inst.(dueBack := Some(renewalDate))];
            return RedirectAllBorrowed;
          }
          response := RenderForm(inst, None);
        case Get =>
          var proposed := ProposedRenewalDate(today);
          if proposed.None? {
            return ServerError;
          }
          response := RenderForm(inst, proposed);
      }
    }
  }
}
