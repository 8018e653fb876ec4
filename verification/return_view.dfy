/** The return screen: the loans still out, the overdue counter, a row per loan
    whose book and member both still exist, and the day count each row shows. */
module ReturnBookView {
  import opened Seqs
  import opened Types
  import opened LibraryContext
  import opened Accounting

  /** `transactions.filter(t => t.status === 'issued')`. */
  function ActiveTransactions(ts: seq<Transaction>): (r: seq<Transaction>)
    ensures Subsequence(r, ts)
    ensures forall t :: t in r ==> t in ts && t.status == Issued
    ensures forall t :: t in ts && t.status == Issued ==> t in r
    ensures forall t :: t in ts ==> multiset(r)[t] == if t.status == Issued then multiset(ts)[t] else 0
  {
    FilterMultiset(ts, IsIssued);
    Filter(ts, IsIssued)
  }

  /** The milliseconds of one day, `1000 * 60 * 60 * 24`. */
  const MsPerDay: int := 1000 * 60 * 60 * 24

  /** `Math.ceil((due - now) / MsPerDay)`: the least whole number of days that
      covers the time left, negative once the due date has passed. */
  function DaysUntilDue(due: int, now: int): (r: int)
    ensures MsPerDay * (r - 1) < due - now <= MsPerDay * r
  {
    (due - now + MsPerDay - 1) / MsPerDay
  }

  /** The ceiling is the only whole number with that property. */
  lemma DaysUntilDueUnique(due: int, now: int, r: int)
    requires MsPerDay * (r - 1) < due - now <= MsPerDay * r
    ensures r == DaysUntilDue(due, now)
  {
  }

  /** A loan not yet overdue has a non-negative day count, an overdue one a
      non-positive count; a loan due one millisecond ago is overdue by "0 days". */
  lemma DaysUntilDueSign(t: Transaction, now: int)
    ensures !IsOverdue(t, now) ==> DaysUntilDue(t.dueDate, now) >= 0
    ensures IsOverdue(t, now) ==> DaysUntilDue(t.dueDate, now) <= 0
    ensures IsOverdue(t, now) && t.dueDate == now - 1 ==> DaysUntilDue(t.dueDate, now) == 0
  {
    if t.dueDate == now - 1 {
      DaysUntilDueUnique(t.dueDate, now, 0);
    }
  }

  /** The "Overdue" card: the loans still out whose due date has passed. */
  function OverdueCount(ts: seq<Transaction>, now: int): (n: nat)
    ensures n <= |ActiveTransactions(ts)|
  {
    var overdue := Filter(ActiveTransactions(ts), (t: Transaction) => IsOverdue(t, now));
    SubsequenceLength(overdue, ActiveTransactions(ts));
    |overdue|
  }

  /** The card shows the dashboard's overdue counter for the same moment. */
  lemma OverdueCardMatchesStats(l: Ledger, now: int)
    ensures OverdueCount(l.transactions, now) == GetStats(l, now).overdueBooks
    ensures |ActiveTransactions(l.transactions)| == GetStats(l, now).issuedBooks
  {
  }

  /** A row of the list: the loan with the book and member it refers to. */
  datatype Row = Row(transaction: Transaction, book: Book, user: User, isOverdue: bool, daysUntilDue: int)

  /** The loan's book and member can both be found. */
  predicate Resolves(l: Ledger, t: Transaction) {
    FindBook(l.books, t.bookId).Some? && FindUser(l.users, t.userId).Some?
  }

  /** The loans that get a row: the active ones whose book and member still
      exist; the others are skipped. */
  function ShownLoans(l: Ledger): (r: seq<Transaction>)
    ensures Subsequence(r, l.transactions)
    ensures forall t :: t in r ==> t in l.transactions && t.status == Issued && Resolves(l, t)
    ensures forall t :: t in l.transactions && t.status == Issued && Resolves(l, t) ==> t in r
    ensures forall t :: t in l.transactions ==>
      multiset(r)[t] == if t.status == Issued && Resolves(l, t) then multiset(l.transactions)[t] else 0
  {
    var active := ActiveTransactions(l.transactions);
    var r := Filter(active, (t: Transaction) => Resolves(l, t));
    SubsequenceTrans(r, active, l.transactions);
    FilterMultiset(active, (t: Transaction) => Resolves(l, t));
    forall t | t in l.transactions && t !in active
      ensures multiset(r)[t] == 0
    {
      assert t !in r;
    }
    r
  }

  /** `getTransactionDetails` for a loan whose book and member exist. */
  function Details(l: Ledger, t: Transaction, now: int): (r: Row)
    requires Resolves(l, t)
    ensures r.transaction == t
    ensures Some(r.book) == FindBook(l.books, t.bookId) && Some(r.user) == FindUser(l.users, t.userId)
    ensures r.isOverdue == (t.dueDate < now) && r.daysUntilDue == DaysUntilDue(t.dueDate, now)
  {
    Row(t, FindBook(l.books, t.bookId).value, FindUser(l.users, t.userId).value,
        IsOverdue(t, now), DaysUntilDue(t.dueDate, now))
  }

  /** The rows of the list, in loan order; each shows the first book and the
      first member with the loan's ids. */
  function Rows(l: Ledger, now: int): (r: seq<Row>)
    ensures |r| == |ShownLoans(l)|
    ensures forall i :: 0 <= i < |r| ==>
      && r[i].transaction == ShownLoans(l)[i]
      && Some(r[i].book) == FindBook(l.books, r[i].transaction.bookId)
      && Some(r[i].user) == FindUser(l.users, r[i].transaction.userId)
      && r[i].isOverdue == (r[i].transaction.dueDate < now)
      && r[i].daysUntilDue == DaysUntilDue(r[i].transaction.dueDate, now)
  {
    ShownLoansResolve(l);
    RowsOf(l, ShownLoans(l), now)
  }

  lemma ShownLoansResolve(l: Ledger)
    ensures forall i :: 0 <= i < |ShownLoans(l)| ==> Resolves(l, ShownLoans(l)[i])
  {
    var shown := ShownLoans(l);
    assert forall i :: 0 <= i < |shown| ==> shown[i] in shown;
  }

  /** One row per loan of `shown`, in order. */
  function RowsOf(l: Ledger, shown: seq<Transaction>, now: int): (r: seq<Row>)
    requires forall i :: 0 <= i < |shown| ==> Resolves(l, shown[i])
    ensures |r| == |shown|
    ensures forall i :: 0 <= i < |r| ==> r[i] == Details(l, shown[i], now)
  {
    seq(|shown|, i requires 0 <= i < |shown| => Details(l, shown[i], now))
  }

  /** `handleReturn` forwards the row's loan id to `returnBook`: afterwards
      every loan with that id is `returned`, so the row leaves the list. */
  function HandleReturn(l: Ledger, row: Row, now: int): (r: Ledger)
    ensures |r.transactions| == |l.transactions| && r.users == l.users
    ensures forall t :: t in r.transactions && t.id == row.transaction.id ==> t.status == Returned
    ensures forall t :: t in ShownLoans(r) ==> t.id != row.transaction.id
  {
    ReturnBook(l, row.transaction.id, now)
  }

  /** Returning from any row keeps a consistent ledger consistent: the screen
      only offers loans that are still `issued`, so it cannot return twice. */
  lemma ReturnFromRowKeepsConsistent(l: Ledger, i: nat, now: int, later: int)
    requires Consistent(l) && i < |Rows(l, now)|
    ensures Consistent(HandleReturn(l, Rows(l, now)[i], later))
  {
    var t := Rows(l, now)[i].transaction;
    assert t in ShownLoans(l);
    var k :| 0 <= k < |l.transactions| && l.transactions[k] == t;
    assert forall j :: 0 <= j < |l.transactions| && l.transactions[j].id == t.id ==> j == k;
    ReturnIssuedKeepsConsistent(l, t.id, later);
  }
}
