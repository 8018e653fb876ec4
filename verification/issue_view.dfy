/** The issue screen: the books and members it offers, and the form that calls
    `issueBook` and clears itself after a success. */
module IssueBookView {
  import opened Seqs
  import opened Types
  import opened LibraryContext
  import opened Accounting

  /** `books.filter(book => book.availableCopies > 0)`. */
  function AvailableBooks(books: seq<Book>): (r: seq<Book>)
    ensures Subsequence(r, books)
    ensures forall b :: b in r ==> b in books && b.availableCopies > 0
    ensures forall b :: b in books && b.availableCopies > 0 ==> b in r
    ensures forall b :: b in books ==>
      multiset(r)[b] == if b.availableCopies > 0 then multiset(books)[b] else 0
  {
    FilterMultiset(books, HasCopy);
    Filter(books, HasCopy)
  }

  /** `users.filter(user => user.isActive)`. */
  function ActiveUsers(users: seq<User>): (r: seq<User>)
    ensures Subsequence(r, users)
    ensures forall u :: u in r ==> u in users && u.isActive
    ensures forall u :: u in users && u.isActive ==> u in r
    ensures forall u :: u in users ==> multiset(r)[u] == if u.isActive then multiset(users)[u] else 0
  {
    FilterMultiset(users, IsActiveUser);
    Filter(users, IsActiveUser)
  }

  /** The member drop-down offers as many members as the dashboard counts active. */
  lemma ActiveUsersMatchStats(l: Ledger, now: int)
    ensures |ActiveUsers(l.users)| == GetStats(l, now).totalUsers
  {
  }

  /** The form state: the chosen book and member ids ("" for none), the due
      date (`None` while the date input is empty) and the success banner. */
  datatype IssueForm = IssueForm(selectedBook: string, selectedUser: string, dueDate: Option<int>, showSuccess: bool)

  /** The state the screen opens with. */
  const InitialForm := IssueForm("", "", None, false)

  /** The submit button is enabled once book, member and due date are all chosen. */
  predicate SubmitEnabled(f: IssueForm) {
    f.selectedBook != "" && f.selectedUser != "" && f.dueDate.Some?
  }

  /** With the button disabled, a submit (by the Enter key, say) is stopped by
      the handler's own guard: nothing is called and nothing changes. The
      screen opens with the button disabled. */
  lemma DisabledSubmitIsNoOp(l: Ledger, f: IssueForm, txId: string, now: int)
    ensures !SubmitEnabled(f) ==> HandleSubmit(l, f, txId, now) == Submission(false, false, l, f)
    ensures !SubmitEnabled(InitialForm)
  {
  }

  /** The "Clear Form" button: the three choices are reset, the banner stays. */
  function ClearForm(f: IssueForm): (r: IssueForm)
    ensures !SubmitEnabled(r)
    ensures r.showSuccess == f.showSuccess
    ensures r == InitialForm.(showSuccess := f.showSuccess)
  {
    f.(selectedBook := "", selectedUser := "", dueDate := None)
  }

  /** What a submit does: whether `issueBook` was called, with what result,
      the ledger after it and the form after it. */
  datatype Submission = Submission(called: bool, success: bool, ledger: Ledger, form: IssueForm)

  /** `handleSubmit`: with all three choices made it calls `issueBook` with
      them; on success it clears the choices and shows the banner, on failure
      it leaves the form as it was. Without all three it does nothing. */
  function HandleSubmit(l: Ledger, f: IssueForm, txId: string, now: int): (r: Submission)
    ensures r.called <==> SubmitEnabled(f)
    ensures !r.called ==> !r.success && r.ledger == l && r.form == f
    ensures r.called ==>
      var o := IssueBook(l, f.selectedBook, f.selectedUser, f.dueDate.value, txId, now);
      r.success == o.success && r.ledger == o.ledger
    ensures r.success ==> r.form == IssueForm("", "", None, true)
    ensures !r.success ==> r.form == f && r.ledger == l
  {
    if SubmitEnabled(f) then
      var o := IssueBook(l, f.selectedBook, f.selectedUser, f.dueDate.value, txId, now);
      if o.success then Submission(true, true, o.ledger, IssueForm("", "", None, true))
      else Submission(true, false, l, f)
    else Submission(false, false, l, f)
  }

  /** The banner's timer: after three seconds the banner goes, nothing else changes. */
  function DismissSuccess(f: IssueForm): (r: IssueForm)
    ensures !r.showSuccess
    ensures r.selectedBook == f.selectedBook && r.selectedUser == f.selectedUser && r.dueDate == f.dueDate
  {
    f.(showSuccess := false)
  }

  /** After a success the button is disabled again, so one click issues one loan;
      after a failure a second click fails the same way. */
  lemma SubmitSettles(l: Ledger, f: IssueForm, txId: string, txId2: string, now: int, now2: int)
    ensures var r := HandleSubmit(l, f, txId, now);
      r.success ==> !HandleSubmit(r.ledger, r.form, txId2, now2).called
    ensures var r := HandleSubmit(l, f, txId, now);
      r.called && !r.success ==> !HandleSubmit(r.ledger, r.form, txId2, now2).success
  {
    var r := HandleSubmit(l, f, txId, now);
    if r.called && !r.success {
      var o := IssueBook(l, f.selectedBook, f.selectedUser, f.dueDate.value, txId, now);
      var o2 := IssueBook(l, f.selectedBook, f.selectedUser, f.dueDate.value, txId2, now2);
      assert o.success == o2.success;
    }
  }

  /** Submitting a book the list offers succeeds: the offered books have a copy
      on the shelf, and with unique book ids the id finds that book. The member
      is not checked by `issueBook`, so any member id is accepted. */
  lemma OfferedBookIssues(l: Ledger, i: nat, userId: string, due: int, txId: string, now: int)
    requires UniqueBookIds(l.books) && i < |AvailableBooks(l.books)|
    requires AvailableBooks(l.books)[i].id != "" && userId != ""
    ensures var f := IssueForm(AvailableBooks(l.books)[i].id, userId, Some(due), false);
      HandleSubmit(l, f, txId, now).success
  {
    var b := AvailableBooks(l.books)[i];
    assert b in AvailableBooks(l.books);
    var k :| 0 <= k < |l.books| && l.books[k] == b;
    FindBookUnique(l.books, k);
  }

  /** Submitting with a fresh loan id keeps a consistent ledger consistent,
      whatever the outcome. */
  lemma SubmitKeepsConsistent(l: Ledger, f: IssueForm, txId: string, now: int)
    requires Consistent(l) && FreshLoanId(l, txId)
    ensures Consistent(HandleSubmit(l, f, txId, now).ledger)
  {
    if SubmitEnabled(f) {
      IssueKeepsConsistent(l, f.selectedBook, f.selectedUser, f.dueDate.value, txId, now);
    }
  }
}
