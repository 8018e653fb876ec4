/** The counting invariant of the ledger: for every book, the available copies
    plus the copies out on `issued` loans equal the copies owned. It is what
    `issueBook` and `returnBook` maintain between them, and what two paths of the
    source do not: a second return of the same loan, and an edit of `copies`. */
module Accounting {
  import opened Seqs
  import opened Types
  import opened LibraryContext

  /** The loans that keep a copy of book `bookId` out of the shelf. */
  function LoanOf(bookId: string): Transaction -> bool {
    (t: Transaction) => t.status == Issued && t.bookId == bookId
  }

  /** The number of copies of book `bookId` out on loan. */
  function OnLoan(ts: seq<Transaction>, bookId: string): nat {
    Count(ts, LoanOf(bookId))
  }

  predicate UniqueLoanIds(ts: seq<Transaction>) {
    forall i, j :: 0 <= i < j < |ts| ==> ts[i].id != ts[j].id
  }

  /** The copies of `b` on the shelf and on loan add up to the copies owned. */
  predicate Balanced(b: Book, ts: seq<Transaction>) {
    0 <= b.availableCopies && b.availableCopies + OnLoan(ts, b.id) == b.copies
  }

  /** Ids are unique and every book is balanced. */
  predicate Consistent(l: Ledger) {
    && UniqueBookIds(l.books)
    && UniqueLoanIds(l.transactions)
    && forall i :: 0 <= i < |l.books| ==> Balanced(l.books[i], l.transactions)
  }

  /** An id no book has and no loan refers to, as a fresh random id is. */
  predicate FreshBookId(l: Ledger, id: string) {
    && (forall i :: 0 <= i < |l.books| ==> l.books[i].id != id)
    && (forall i :: 0 <= i < |l.transactions| ==> l.transactions[i].bookId != id)
  }

  /** An id no loan has. */
  predicate FreshLoanId(l: Ledger, id: string) {
    forall i :: 0 <= i < |l.transactions| ==> l.transactions[i].id != id
  }

  // ------------------------------------------------------------ counting

  lemma OnLoanAppend(ts: seq<Transaction>, t: Transaction, bookId: string)
    ensures OnLoan(ts + [t], bookId) == OnLoan(ts, bookId) + (if LoanOf(bookId)(t) then 1 else 0)
  {
    CountAppend(ts, [t], LoanOf(bookId));
    assert [t][1..] == [];
  }

  /** With unique loan ids, marking loan `k` returned changes only position `k`. */
  lemma MarkReturnedSplit(ts: seq<Transaction>, k: nat, now: int)
    requires UniqueLoanIds(ts) && k < |ts|
    ensures MarkReturned(ts, ts[k].id, now) == ts[..k] + [AsReturned(ts[k], now)] + ts[k + 1..]
  {
  }

  /** Returning loan `k` takes it out of every count of issued loans `q` makes. */
  lemma CountAfterReturn(ts: seq<Transaction>, k: nat, now: int, q: Transaction -> bool)
    requires UniqueLoanIds(ts) && k < |ts|
    requires forall t :: q(t) ==> t.status == Issued
    ensures Count(MarkReturned(ts, ts[k].id, now), q) == Count(ts, q) - (if q(ts[k]) then 1 else 0)
  {
    var x := AsReturned(ts[k], now);
    assert !q(x);
    MarkReturnedSplit(ts, k, now);
    SplitAt(ts, k);
    CountReplace(ts[..k], ts[k], x, ts[k + 1..], q);
  }

  // ------------------------------------------------------------ the invariant

  lemma EmptyLedgerConsistent()
    ensures Consistent(EmptyLedger)
  {
  }

  /** On a consistent ledger no book has more copies available than it owns. */
  lemma ConsistentBounds(l: Ledger, i: nat)
    requires Consistent(l) && i < |l.books|
    ensures 0 <= l.books[i].availableCopies <= l.books[i].copies
  {
  }

  /** `addBook` with a fresh id starts the new book balanced: no loan refers to it. */
  lemma AddBookKeepsConsistent(l: Ledger, d: BookDraft, id: string)
    requires Consistent(l) && FreshBookId(l, id) && d.copies >= 0
    ensures Consistent(AddBook(l, d, id))
  {
    var r := AddBook(l, d, id);
    CountNone(l.transactions, LoanOf(id));
    assert Balanced(r.books[|l.books|], r.transactions);
    forall i | 0 <= i < |r.books|
      ensures Balanced(r.books[i], r.transactions)
    {
      if i < |l.books| {
        assert r.books[i] == l.books[i];
      }
    }
  }

  /** `issueBook` with a fresh loan id keeps the ledger consistent. */
  lemma IssueKeepsConsistent(l: Ledger, bookId: string, userId: string, dueDate: int, txId: string, now: int)
    requires Consistent(l) && FreshLoanId(l, txId)
    ensures Consistent(IssueBook(l, bookId, userId, dueDate, txId, now).ledger)
  {
    var r := IssueBook(l, bookId, userId, dueDate, txId, now).ledger;
    if IssueBook(l, bookId, userId, dueDate, txId, now).success {
      var loan := NewLoan(txId, bookId, userId, dueDate, now);
      IssuedLoanFound(l, bookId, userId, dueDate, txId, now);
      forall i | 0 <= i < |r.books|
        ensures Balanced(r.books[i], r.transactions)
      {
        IssueBookAt(l, bookId, userId, dueDate, txId, now, i);
        OnLoanAppend(l.transactions, loan, l.books[i].id);
      }
      AppendFreshLoanUnique(l.transactions, loan);
    }
  }

  /** Appending a loan whose id no loan has keeps the loan ids unique. */
  lemma AppendFreshLoanUnique(ts: seq<Transaction>, t: Transaction)
    requires UniqueLoanIds(ts) && forall i :: 0 <= i < |ts| ==> ts[i].id != t.id
    ensures UniqueLoanIds(ts + [t])
  {
    assert forall i :: 0 <= i < |ts| ==> (ts + [t])[i] == ts[i];
  }

  /** With unique book ids, returning a known loan adds one copy to its book,
      if that book exists, and leaves every other book alone. */
  lemma ReturnBookAt(l: Ledger, txId: string, i: nat, now: int)
    requires UniqueBookIds(l.books) && i < |l.books|
    requires FindTransaction(l.transactions, txId).Some?
    ensures var r := ReturnBook(l, txId, now);
      var b := l.books[i];
      var hit := b.id == FindTransaction(l.transactions, txId).value.bookId;
      |r.books| == |l.books| && r.books[i] == b.(availableCopies := b.availableCopies + if hit then 1 else 0)
  {
    var t := FindTransaction(l.transactions, txId).value;
    if l.books[i].id == t.bookId {
      FindBookUnique(l.books, i);
    } else {
      var found := FindBook(l.books, t.bookId);
      assert found.Some? ==> found.value.id != l.books[i].id;
    }
  }

  /** What returning loan `k` does to book `i`: one more copy on the shelf if
      it is the loan's book, and one loan fewer on it if the loan was `issued`. */
  lemma ReturnEffectOnBook(l: Ledger, k: nat, i: nat, now: int)
    requires UniqueBookIds(l.books) && UniqueLoanIds(l.transactions)
    requires k < |l.transactions| && i < |l.books|
    ensures var r := ReturnBook(l, l.transactions[k].id, now);
      var b := l.books[i];
      var hit := b.id == l.transactions[k].bookId;
      && |r.books| == |l.books|
      && r.books[i] == b.(availableCopies := b.availableCopies + if hit then 1 else 0)
      && OnLoan(r.transactions, b.id)
         == OnLoan(l.transactions, b.id) - (if hit && l.transactions[k].status == Issued then 1 else 0)
  {
    var t0 := l.transactions[k];
    assert FindTransaction(l.transactions, t0.id) == Some(t0);
    var r := ReturnBook(l, t0.id, now);
    var b := l.books[i];
    CountAfterReturn(l.transactions, k, now, LoanOf(b.id));
    ReturnBookAt(l, t0.id, i, now);
  }

  /** Returning issued loan `k` keeps book `i` balanced. */
  lemma ReturnKeepsBookBalanced(l: Ledger, k: nat, i: nat, now: int)
    requires Consistent(l) && k < |l.transactions| && i < |l.books|
    requires l.transactions[k].status == Issued
    ensures var r := ReturnBook(l, l.transactions[k].id, now);
      |r.books| == |l.books| && r.books[i].id == l.books[i].id && Balanced(r.books[i], r.transactions)
  {
    ReturnEffectOnBook(l, k, i, now);
  }

  /** `returnBook` on a loan id whose loans are all `issued` keeps the ledger
      consistent; an unknown id is covered too, since it changes nothing. */
  lemma ReturnIssuedKeepsConsistent(l: Ledger, txId: string, now: int)
    requires Consistent(l)
    requires forall i :: 0 <= i < |l.transactions| && l.transactions[i].id == txId ==> l.transactions[i].status == Issued
    ensures Consistent(ReturnBook(l, txId, now))
  {
    var found := FindTransaction(l.transactions, txId);
    if found.Some? {
      var k :| 0 <= k < |l.transactions| && l.transactions[k] == found.value;
      var r := ReturnBook(l, txId, now);
      assert |r.books| == |l.books|;
      forall i | 0 <= i < |l.books|
        ensures r.books[i].id == l.books[i].id && Balanced(r.books[i], r.transactions)
      {
        ReturnKeepsBookBalanced(l, k, i, now);
      }
      assert UniqueBookIds(r.books);
      assert UniqueLoanIds(r.transactions) by {
        assert forall i :: 0 <= i < |r.transactions| ==> r.transactions[i].id == l.transactions[i].id;
      }
      assert Consistent(r);
    }
  }

  /** With unique book ids, a successful issue takes one copy off the shelf of
      the book with that id and leaves every other book alone. */
  lemma IssueBookAt(l: Ledger, bookId: string, userId: string, dueDate: int, txId: string, now: int, i: nat)
    requires UniqueBookIds(l.books) && i < |l.books|
    requires IssueBook(l, bookId, userId, dueDate, txId, now).success
    ensures var r := IssueBook(l, bookId, userId, dueDate, txId, now).ledger;
      var b := l.books[i];
      |r.books| == |l.books| && r.books[i] == b.(availableCopies := b.availableCopies - if b.id == bookId then 1 else 0)
  {
    if l.books[i].id == bookId {
      FindBookUnique(l.books, i);
    }
  }

  /** After a successful issue with a fresh loan id, that id finds the new loan,
      and the book ids are still unique. */
  lemma IssuedLoanFound(l: Ledger, bookId: string, userId: string, dueDate: int, txId: string, now: int)
    requires UniqueBookIds(l.books) && FreshLoanId(l, txId)
    requires IssueBook(l, bookId, userId, dueDate, txId, now).success
    ensures var r := IssueBook(l, bookId, userId, dueDate, txId, now).ledger;
      && r.transactions == l.transactions + [NewLoan(txId, bookId, userId, dueDate, now)]
      && FindTransaction(r.transactions, txId) == Some(NewLoan(txId, bookId, userId, dueDate, now))
      && UniqueBookIds(r.books)
  {
    var r := IssueBook(l, bookId, userId, dueDate, txId, now).ledger;
    var n := |l.transactions|;
    assert r.transactions[n] == NewLoan(txId, bookId, userId, dueDate, now);
    assert forall j :: 0 <= j < n ==> r.transactions[j].id != txId;
    assert forall i :: 0 <= i < |l.books| ==> r.books[i].id == l.books[i].id;
  }

  /** Issuing and then returning the new loan gives back exactly the books of
      before, and leaves the loan on record as returned. */
  lemma IssueThenReturnRestores(l: Ledger, bookId: string, userId: string, dueDate: int, txId: string, now: int, later: int)
    requires UniqueBookIds(l.books) && FreshLoanId(l, txId)
    requires IssueBook(l, bookId, userId, dueDate, txId, now).success
    ensures var issued := IssueBook(l, bookId, userId, dueDate, txId, now).ledger;
      && ReturnBook(issued, txId, later).books == l.books
      && ReturnBook(issued, txId, later).transactions
         == l.transactions + [AsReturned(NewLoan(txId, bookId, userId, dueDate, now), later)]
  {
    IssueThenReturnBooks(l, bookId, userId, dueDate, txId, now, later);
    IssueThenReturnLoans(l, bookId, userId, dueDate, txId, now, later);
  }

  /** The books half of `IssueThenReturnRestores`. */
  lemma IssueThenReturnBooks(l: Ledger, bookId: string, userId: string, dueDate: int, txId: string, now: int, later: int)
    requires UniqueBookIds(l.books) && FreshLoanId(l, txId)
    requires IssueBook(l, bookId, userId, dueDate, txId, now).success
    ensures ReturnBook(IssueBook(l, bookId, userId, dueDate, txId, now).ledger, txId, later).books == l.books
  {
    var issued := IssueBook(l, bookId, userId, dueDate, txId, now).ledger;
    var loan := NewLoan(txId, bookId, userId, dueDate, now);
    var m := FindBook(l.books, bookId).value.availableCopies;
    IssuedLoanFound(l, bookId, userId, dueDate, txId, now);
    assert issued.books == SetAvailable(l.books, bookId, m - 1);
    assert ReturnBook(issued, txId, later).books == Restock(issued.books, loan);
    RestockAfterTake(l.books, loan, m);
  }

  /** With unique ids, putting back the copy just taken off a book restores the books. */
  lemma RestockAfterTake(books: seq<Book>, t: Transaction, m: int)
    requires UniqueBookIds(books)
    requires FindBook(books, t.bookId).Some? && FindBook(books, t.bookId).value.availableCopies == m
    ensures Restock(SetAvailable(books, t.bookId, m - 1), t) == books
  {
    var taken := SetAvailable(books, t.bookId, m - 1);
    var k :| 0 <= k < |books| && books[k] == FindBook(books, t.bookId).value;
    assert forall i :: 0 <= i < |books| ==> taken[i].id == books[i].id;
    assert UniqueBookIds(taken);
    FindBookUnique(taken, k);
    var r := Restock(taken, t);
    forall i | 0 <= i < |books|
      ensures r[i] == books[i]
    {
      if books[i].id == t.bookId {
        assert i == k;
      }
    }
    PointwiseEqual(r, books);
  }

  /** The loans half of `IssueThenReturnRestores`. */
  lemma IssueThenReturnLoans(l: Ledger, bookId: string, userId: string, dueDate: int, txId: string, now: int, later: int)
    requires UniqueBookIds(l.books) && FreshLoanId(l, txId)
    requires IssueBook(l, bookId, userId, dueDate, txId, now).success
    ensures ReturnBook(IssueBook(l, bookId, userId, dueDate, txId, now).ledger, txId, later).transactions
         == l.transactions + [AsReturned(NewLoan(txId, bookId, userId, dueDate, now), later)]
  {
    var issued := IssueBook(l, bookId, userId, dueDate, txId, now).ledger;
    var loan := NewLoan(txId, bookId, userId, dueDate, now);
    IssuedLoanFound(l, bookId, userId, dueDate, txId, now);
    assert ReturnBook(issued, txId, later).transactions == MarkReturned(l.transactions + [loan], txId, later);
    MarkFreshReturned(l.transactions, loan, later);
  }

  /** Marking a loan returned whose id no earlier loan has changes only that loan. */
  lemma MarkFreshReturned(ts: seq<Transaction>, t: Transaction, now: int)
    requires forall i :: 0 <= i < |ts| ==> ts[i].id != t.id
    ensures MarkReturned(ts + [t], t.id, now) == ts + [AsReturned(t, now)]
  {
    var r := MarkReturned(ts + [t], t.id, now);
    assert forall j :: 0 <= j < |ts| ==> r[j] == ts[j];
    assert r[|ts|] == AsReturned(t, now);
  }

  // ------------------------------------------------------------ the two gaps

  /** Returning a loan that is already `returned` still adds a copy to its
      book, so a consistent ledger stops being consistent. */
  lemma ReturnOfReturnedBreaksConsistency(l: Ledger, k: nat, j: nat, now: int)
    requires Consistent(l) && k < |l.transactions| && j < |l.books|
    requires l.transactions[k].status == Returned
    requires l.books[j].id == l.transactions[k].bookId
    ensures var b := l.books[j];
      FindBook(ReturnBook(l, l.transactions[k].id, now).books, b.id) == Some(b.(availableCopies := b.availableCopies + 1))
    ensures !Consistent(ReturnBook(l, l.transactions[k].id, now))
  {
    var b := l.books[j];
    var r := ReturnBook(l, l.transactions[k].id, now);
    forall i | 0 <= i < |l.books|
      ensures r.books[i].id == l.books[i].id
    {
      ReturnEffectOnBook(l, k, i, now);
    }
    ReturnEffectOnBook(l, k, j, now);
    assert UniqueBookIds(r.books);
    FindBookUnique(r.books, j);
    assert !Balanced(r.books[j], r.transactions);
  }

  /** The first return of issued loan `k` on a consistent ledger: the loan is
      now `returned`, its book has one more copy, and the ledger is consistent. */
  lemma FirstReturn(l: Ledger, k: nat, j: nat, now: int)
    requires Consistent(l) && k < |l.transactions| && j < |l.books|
    requires l.transactions[k].status == Issued
    requires l.books[j].id == l.transactions[k].bookId
    ensures var once := ReturnBook(l, l.transactions[k].id, now);
      var b := l.books[j];
      && Consistent(once)
      && k < |once.transactions| && once.transactions[k] == AsReturned(l.transactions[k], now)
      && j < |once.books| && once.books[j] == b.(availableCopies := b.availableCopies + 1)
  {
    var t0 := l.transactions[k];
    assert FindTransaction(l.transactions, t0.id) == Some(t0);
    ReturnIssuedKeepsConsistent(l, t0.id, now);
    ReturnEffectOnBook(l, k, j, now);
  }

  /** Returning the same issued loan twice adds two copies for one loan. */
  lemma DoubleReturnAddsTwo(l: Ledger, k: nat, j: nat, now1: int, now2: int)
    requires Consistent(l) && k < |l.transactions| && j < |l.books|
    requires l.transactions[k].status == Issued
    requires l.books[j].id == l.transactions[k].bookId
    ensures var b := l.books[j];
      var twice := ReturnBook(ReturnBook(l, l.transactions[k].id, now1), l.transactions[k].id, now2);
      FindBook(twice.books, b.id) == Some(b.(availableCopies := b.availableCopies + 2))
    ensures !Consistent(ReturnBook(ReturnBook(l, l.transactions[k].id, now1), l.transactions[k].id, now2))
  {
    FirstReturn(l, k, j, now1);
    ReturnOfReturnedBreaksConsistency(ReturnBook(l, l.transactions[k].id, now1), k, j, now2);
  }

  /** `updateBook` with a patch that keeps the id leaves the ledger consistent
      exactly when the edited book's shelf count stays non-negative and its
      difference to the owned copies is unchanged. */
  lemma UpdateBookConsistentIff(l: Ledger, k: nat, p: BookPatch)
    requires Consistent(l) && k < |l.books| && p.id.None?
    ensures var b := l.books[k]; var b' := MergeBook(b, p);
      Consistent(UpdateBook(l, b.id, p)) <==>
        0 <= b'.availableCopies && b'.availableCopies - b'.copies == b.availableCopies - b.copies
  {
    var b := l.books[k];
    var b' := MergeBook(b, p);
    var r := UpdateBook(l, b.id, p);
    assert r.books[k] == b';
    assert forall i :: 0 <= i < |l.books| && i != k ==> r.books[i] == l.books[i];
    assert forall i :: 0 <= i < |l.books| ==> r.books[i].id == l.books[i].id;
    if 0 <= b'.availableCopies && b'.availableCopies - b'.copies == b.availableCopies - b.copies {
      assert Balanced(r.books[k], r.transactions);
    } else {
      assert !Balanced(r.books[k], r.transactions);
    }
  }

  /** `updateBook(editingBook.id, formData)`: the edit form sends the same
      `formData` object the add form passes to `addBook`, a `BookDraft`, as a
      patch. It carries every field but `id` and `availableCopies`. */
  function EditPatch(f: BookDraft): BookPatch {
    BookPatch(None, Some(f.title), Some(f.author), Some(f.isbn), Some(f.genre),
              Some(f.publishedYear), Some(f.copies), None, f.description)
  }

  /** Saving the edit form keeps a consistent ledger consistent exactly when
      the number of copies is left as it was: raising or lowering `copies`
      leaves `availableCopies` stale. */
  lemma EditKeepsConsistentIff(l: Ledger, k: nat, f: BookDraft)
    requires Consistent(l) && k < |l.books|
    ensures Consistent(UpdateBook(l, l.books[k].id, EditPatch(f))) <==> f.copies == l.books[k].copies
  {
    UpdateBookConsistentIff(l, k, EditPatch(f));
  }

  /** Deleting a book keeps the others balanced; its loans stay, dangling. */
  lemma DeleteBookKeepsConsistent(l: Ledger, id: string)
    requires Consistent(l)
    ensures Consistent(DeleteBook(l, id))
  {
    var r := DeleteBook(l, id);
    forall i | 0 <= i < |r.books|
      ensures Balanced(r.books[i], r.transactions)
    {
      assert r.books[i] in l.books;
    }
    assert UniqueBookIds(r.books) by {
      SubsequenceUniqueIds(r.books, l.books);
    }
  }

  lemma {:induction false} SubsequenceUniqueIds(a: seq<Book>, b: seq<Book>)
    requires Subsequence(a, b) && UniqueBookIds(b)
    ensures UniqueBookIds(a)
    decreases |b|
  {
    if a != [] {
      assert UniqueBookIds(b[1..]) by {
        forall i, j | 0 <= i < j < |b[1..]|
          ensures b[1..][i].id != b[1..][j].id
        {
          assert b[1..][i] == b[i + 1] && b[1..][j] == b[j + 1];
        }
      }
      if a[0] == b[0] && Subsequence(a[1..], b[1..]) {
        SubsequenceUniqueIds(a[1..], b[1..]);
        SubsequenceMembers(a[1..], b[1..]);
        forall j | 0 < j < |a|
          ensures a[0].id != a[j].id
        {
          assert a[j] == a[1..][j - 1] && a[j] in a[1..];
          assert a[j] in b[1..];
          var m :| 0 <= m < |b[1..]| && b[1..][m] == a[j];
          assert b[m + 1] == a[j];
        }
      } else {
        SubsequenceUniqueIds(a, b[1..]);
      }
    }
  }

  /** Member changes touch neither books nor loans. */
  lemma UserChangesKeepConsistent(l: Ledger, d: UserDraft, p: UserPatch, id: string)
    requires Consistent(l)
    ensures Consistent(AddUser(l, d, id))
    ensures Consistent(UpdateUser(l, id, p))
    ensures Consistent(DeleteUser(l, id))
  {
  }

  /** Returning an issued loan takes one loan off the issued counter. */
  lemma ReturnRemovesOneLoan(l: Ledger, k: nat, now: int, later: int)
    requires UniqueLoanIds(l.transactions) && k < |l.transactions|
    requires l.transactions[k].status == Issued
    ensures GetStats(ReturnBook(l, l.transactions[k].id, later), now).issuedBooks == GetStats(l, now).issuedBooks - 1
  {
    assert FindTransaction(l.transactions, l.transactions[k].id) == Some(l.transactions[k]);
    CountAfterReturn(l.transactions, k, later, IsIssued);
    FilterCount(l.transactions, IsIssued);
    FilterCount(ReturnBook(l, l.transactions[k].id, later).transactions, IsIssued);
  }
}
