/** The library ledger: three sequences (books, members, loans) and the
    operations the context provider exposes over them. Every mutator is a pure
    function from the ledger before to the ledger after; the clock reading
    (`now`) and the freshly generated ids are parameters. */
module LibraryContext {
  import opened Seqs
  import opened Text
  import opened Types

  datatype Ledger = Ledger(books: seq<Book>, users: seq<User>, transactions: seq<Transaction>)

  /** The state when nothing has been stored yet. */
  const EmptyLedger := Ledger([], [], [])

  /** `books.find(b => b.id === id)`. */
  function FindBook(books: seq<Book>, id: string): (r: Option<Book>)
    ensures r.None? <==> forall i :: 0 <= i < |books| ==> books[i].id != id
    ensures r.Some? ==> r.value.id == id
    ensures r.Some? ==>
      exists k :: 0 <= k < |books| && books[k] == r.value && forall j :: 0 <= j < k ==> books[j].id != id
  {
    Find(books, (b: Book) => b.id == id)
  }

  /** `users.find(u => u.id === id)`. */
  function FindUser(users: seq<User>, id: string): (r: Option<User>)
    ensures r.None? <==> forall i :: 0 <= i < |users| ==> users[i].id != id
    ensures r.Some? ==> r.value.id == id
    ensures r.Some? ==>
      exists k :: 0 <= k < |users| && users[k] == r.value && forall j :: 0 <= j < k ==> users[j].id != id
  {
    Find(users, (u: User) => u.id == id)
  }

  /** `transactions.find(t => t.id === id)`. */
  function FindTransaction(ts: seq<Transaction>, id: string): (r: Option<Transaction>)
    ensures r.None? <==> forall i :: 0 <= i < |ts| ==> ts[i].id != id
    ensures r.Some? ==> r.value.id == id
    ensures r.Some? ==>
      exists k :: 0 <= k < |ts| && ts[k] == r.value && forall j :: 0 <= j < k ==> ts[j].id != id
  {
    Find(ts, (t: Transaction) => t.id == id)
  }

  // ---------------------------------------------------------------- books

  function NewBook(d: BookDraft, id: string): Book {
    Book(id, d.title, d.author, d.isbn, d.genre, d.publishedYear, d.copies, d.copies, d.description)
  }

  /** `addBook`: appends one book carrying the draft's fields, the fresh `id`,
      and as many available copies as copies. */
  function AddBook(l: Ledger, d: BookDraft, id: string): (r: Ledger)
    ensures |r.books| == |l.books| + 1 && r.books[..|l.books|] == l.books
    ensures var b := r.books[|l.books|];
      && b.id == id && b.title == d.title && b.author == d.author && b.isbn == d.isbn
      && b.genre == d.genre && b.publishedYear == d.publishedYear
      && b.copies == d.copies && b.availableCopies == d.copies && b.description == d.description
    ensures r.users == l.users && r.transactions == l.transactions
  {
    l.(books := l.books + [NewBook(d, id)])
  }

  /** `prev.map(book => book.id === id ? { ...book, ...p } : book)`. */
  function UpdateBooks(books: seq<Book>, id: string, p: BookPatch): seq<Book> {
    MapWhere(books, (b: Book) => b.id == id, (b: Book) => MergeBook(b, p))
  }

  /** `updateBook(id, { availableCopies: n })`, as the loan operations call it. */
  function SetAvailable(books: seq<Book>, id: string, n: int): (r: seq<Book>)
    ensures |r| == |books|
    ensures forall i :: 0 <= i < |books| ==>
      r[i] == if books[i].id == id then books[i].(availableCopies := n) else books[i]
  {
    var r := UpdateBooks(books, id, AvailablePatch(n));
    assert forall i :: 0 <= i < |books| ==>
      r[i] == if books[i].id == id then MergeBook(books[i], AvailablePatch(n)) else books[i];
    forall b: Book
      ensures MergeBook(b, AvailablePatch(n)) == b.(availableCopies := n)
    {
      MergeAvailable(b, n);
    }
    r
  }

  /** `updateBook`: every book with that id, and no other, gets the patch
      merged in; length and order are kept; an unknown id changes nothing. */
  function UpdateBook(l: Ledger, id: string, p: BookPatch): (r: Ledger)
    ensures |r.books| == |l.books|
    ensures forall i :: 0 <= i < |l.books| ==>
      r.books[i] == if l.books[i].id == id then MergeBook(l.books[i], p) else l.books[i]
    ensures (forall i :: 0 <= i < |l.books| ==> l.books[i].id != id) ==> r == l
    ensures r.users == l.users && r.transactions == l.transactions
  {
    l.(books := UpdateBooks(l.books, id, p))
  }

  /** `deleteBook`: exactly the books with that id are removed, the others keep
      their order and multiplicity, and no loan is touched. */
  function DeleteBook(l: Ledger, id: string): (r: Ledger)
    ensures Subsequence(r.books, l.books)
    ensures forall b :: b in r.books ==> b in l.books && b.id != id
    ensures forall b :: b in l.books ==>
      multiset(r.books)[b] == if b.id == id then 0 else multiset(l.books)[b]
    ensures r.users == l.users && r.transactions == l.transactions
  {
    FilterMultiset(l.books, (b: Book) => b.id != id);
    l.(books := Filter(l.books, (b: Book) => b.id != id))
  }

  // ---------------------------------------------------------------- users

  function NewUser(d: UserDraft, id: string): User {
    User(id, d.name, d.email, d.phone, d.membershipType, d.joinDate, d.isActive)
  }

  /** `addUser`: appends one member carrying the draft's fields and the fresh `id`. */
  function AddUser(l: Ledger, d: UserDraft, id: string): (r: Ledger)
    ensures |r.users| == |l.users| + 1 && r.users[..|l.users|] == l.users
    ensures var u := r.users[|l.users|];
      && u.id == id && u.name == d.name && u.email == d.email && u.phone == d.phone
      && u.membershipType == d.membershipType && u.joinDate == d.joinDate && u.isActive == d.isActive
    ensures r.books == l.books && r.transactions == l.transactions
  {
    l.(users := l.users + [NewUser(d, id)])
  }

  /** `updateUser`: the user counterpart of `UpdateBook`. */
  function UpdateUser(l: Ledger, id: string, p: UserPatch): (r: Ledger)
    ensures |r.users| == |l.users|
    ensures forall i :: 0 <= i < |l.users| ==>
      r.users[i] == if l.users[i].id == id then MergeUser(l.users[i], p) else l.users[i]
    ensures (forall i :: 0 <= i < |l.users| ==> l.users[i].id != id) ==> r == l
    ensures r.books == l.books && r.transactions == l.transactions
  {
    l.(users := MapWhere(l.users, (u: User) => u.id == id, (u: User) => MergeUser(u, p)))
  }

  /** `deleteUser`: the user counterpart of `DeleteBook`; loans are kept. */
  function DeleteUser(l: Ledger, id: string): (r: Ledger)
    ensures Subsequence(r.users, l.users)
    ensures forall u :: u in r.users ==> u in l.users && u.id != id
    ensures forall u :: u in l.users ==>
      multiset(r.users)[u] == if u.id == id then 0 else multiset(l.users)[u]
    ensures r.books == l.books && r.transactions == l.transactions
  {
    FilterMultiset(l.users, (u: User) => u.id != id);
    l.(users := Filter(l.users, (u: User) => u.id != id))
  }

  // ---------------------------------------------------------------- loans

  datatype IssueOutcome = IssueOutcome(success: bool, ledger: Ledger)

  /** The loan record `issueBook` appends. */
  function NewLoan(txId: string, bookId: string, userId: string, dueDate: int, now: int): Transaction {
    Transaction(txId, bookId, userId, now, dueDate, None, Issued)
  }

  /** `issueBook`: fails, changing nothing, unless the first book with that id
      has a copy available; otherwise appends an `issued` loan dated `now` with
      the given due date and sets `availableCopies` of the books with that id to
      one less than the found book's. The member is not looked up. */
  function IssueBook(l: Ledger, bookId: string, userId: string, dueDate: int, txId: string, now: int): (r: IssueOutcome)
    ensures r.success <==> FindBook(l.books, bookId).Some? && FindBook(l.books, bookId).value.availableCopies > 0
    ensures !r.success ==> r.ledger == l
    ensures r.success ==>
      && r.ledger.transactions == l.transactions + [NewLoan(txId, bookId, userId, dueDate, now)]
      && r.ledger.users == l.users
      && |r.ledger.books| == |l.books|
      && forall i :: 0 <= i < |l.books| ==>
           r.ledger.books[i] ==
             if l.books[i].id == bookId
             then l.books[i].(availableCopies := FindBook(l.books, bookId).value.availableCopies - 1)
             else l.books[i]
  {
    match FindBook(l.books, bookId)
    case None => IssueOutcome(false, l)
    case Some(book) =>
      if book.availableCopies <= 0 then IssueOutcome(false, l)
      else
        IssueOutcome(true, Ledger(
          SetAvailable(l.books, bookId, book.availableCopies - 1),
          l.users,
          l.transactions + [NewLoan(txId, bookId, userId, dueDate, now)]))
  }

  /** A loan after `returnBook` has processed it. */
  function AsReturned(t: Transaction, now: int): Transaction {
    t.(returnDate := Some(now), status := Returned)
  }

  /** The loan half of `returnBook`: every loan with that id is marked returned. */
  function MarkReturned(ts: seq<Transaction>, txId: string, now: int): seq<Transaction> {
    MapWhere(ts, (t: Transaction) => t.id == txId, (t: Transaction) => AsReturned(t, now))
  }

  /** The book half of `returnBook` for loan `t`: if its book still exists,
      the books with that id get one more copy than the found book had;
      otherwise the books are left alone. */
  function Restock(books: seq<Book>, t: Transaction): (r: seq<Book>)
    ensures FindBook(books, t.bookId).None? ==> r == books
    ensures FindBook(books, t.bookId).Some? ==>
      && |r| == |books|
      && forall i :: 0 <= i < |books| ==>
           r[i] ==
             if books[i].id == t.bookId
             then books[i].(availableCopies := FindBook(books, t.bookId).value.availableCopies + 1)
             else books[i]
  {
    match FindBook(books, t.bookId)
    case None => books
    case Some(book) => SetAvailable(books, book.id, book.availableCopies + 1)
  }

  /** `returnBook`: an unknown loan id changes nothing. Otherwise every loan
      with that id is marked returned at `now`, whatever its status, and the
      loan's book, if it still exists, is restocked by one copy. */
  function ReturnBook(l: Ledger, txId: string, now: int): (r: Ledger)
    ensures FindTransaction(l.transactions, txId).None? ==> r == l
    ensures FindTransaction(l.transactions, txId).Some? ==>
      && r.books == Restock(l.books, FindTransaction(l.transactions, txId).value)
      && |r.transactions| == |l.transactions|
      && forall i :: 0 <= i < |l.transactions| ==>
           r.transactions[i] ==
             if l.transactions[i].id == txId then AsReturned(l.transactions[i], now) else l.transactions[i]
    ensures r.users == l.users
  {
    match FindTransaction(l.transactions, txId)
    case None => l
    case Some(t) => Ledger(Restock(l.books, t), l.users, MarkReturned(l.transactions, txId, now))
  }

  // ---------------------------------------------------------------- queries

  predicate IsIssued(t: Transaction) {
    t.status == Issued
  }

  /** A copy is on the shelf. */
  predicate HasCopy(b: Book) {
    b.availableCopies > 0
  }

  predicate IsActiveUser(u: User) {
    u.isActive
  }

  /** `new Date(t.dueDate) < now`. */
  predicate IsOverdue(t: Transaction, now: int) {
    t.dueDate < now
  }

  /** `books.reduce((sum, book) => sum + book.copies, 0)`. */
  function TotalCopies(books: seq<Book>): (n: int)
    ensures (forall i :: 0 <= i < |books| ==> books[i].copies >= 0) ==>
      n >= 0 && forall i :: 0 <= i < |books| ==> books[i].copies <= n
    decreases |books|
  {
    if books == [] then 0
    else
      var front := books[..|books| - 1];
      assert forall i :: 0 <= i < |front| ==> front[i] == books[i];
      TotalCopies(front) + books[|books| - 1].copies
  }

  /** `getStats`: total copies, active members, issued loans, and the issued
      loans that are overdue at `now`. */
  function GetStats(l: Ledger, now: int): (s: Stats)
    ensures s.issuedBooks <= |l.transactions|
    ensures s.overdueBooks <= s.issuedBooks
    ensures s.totalUsers <= |l.users|
  {
    var active := Filter(l.transactions, IsIssued);
    assert |active| <= |l.transactions| by {
      SubsequenceLength(active, l.transactions);
    }
    var overdue := Filter(active, (t: Transaction) => IsOverdue(t, now));
    var activeUsers := Filter(l.users, IsActiveUser);
    SubsequenceLength(overdue, active);
    SubsequenceLength(activeUsers, l.users);
    Stats(TotalCopies(l.books), |activeUsers|, |active|, |overdue|)
  }

  /** The search predicate of `searchBooks`: title, author or genre contain the
      query ignoring case, or the isbn contains it verbatim. */
  predicate MatchesQuery(b: Book, q: string) {
    var lq := ToLower(q);
    || Contains(ToLower(b.title), lq)
    || Contains(ToLower(b.author), lq)
    || Contains(ToLower(b.genre), lq)
    || Contains(b.isbn, q)
  }

  /** `searchBooks`: the books matching `q`, in ledger order; all books for "". */
  function SearchBooks(l: Ledger, q: string): (r: seq<Book>)
    ensures Subsequence(r, l.books)
    ensures forall b :: b in r ==> b in l.books && MatchesQuery(b, q)
    ensures forall b :: b in l.books && MatchesQuery(b, q) ==> b in r
    ensures q == "" ==> r == l.books
  {
    var matches := (b: Book) => MatchesQuery(b, q);
    if q == "" then
      FilterAll(l.books, matches);
      Filter(l.books, matches)
    else
      Filter(l.books, matches)
  }

  /** `getOverdueTransactions`: the issued loans due before `now`, in order;
      a returned loan is never among them. */
  function GetOverdueTransactions(l: Ledger, now: int): (r: seq<Transaction>)
    ensures Subsequence(r, l.transactions)
    ensures forall t :: t in r ==> t in l.transactions && t.status == Issued && t.dueDate < now
    ensures forall t :: t in l.transactions && t.status == Issued && t.dueDate < now ==> t in r
  {
    Filter(l.transactions, (t: Transaction) => IsIssued(t) && IsOverdue(t, now))
  }

  // ---------------------------------------------------------------- lemmas

  /** Each counter of the dashboard counts the records its predicate selects. */
  lemma StatsCounts(l: Ledger, now: int)
    ensures GetStats(l, now).issuedBooks == Count(l.transactions, IsIssued)
    ensures GetStats(l, now).totalUsers == Count(l.users, IsActiveUser)
    ensures GetStats(l, now).overdueBooks
         == Count(l.transactions, (t: Transaction) => IsIssued(t) && IsOverdue(t, now))
  {
    var overdue := (t: Transaction) => IsIssued(t) && IsOverdue(t, now);
    FilterCount(l.transactions, IsIssued);
    FilterCount(l.users, IsActiveUser);
    FilterFilter(l.transactions, IsIssued, (t: Transaction) => IsOverdue(t, now), overdue);
    FilterCount(l.transactions, overdue);
  }

  /** The dashboard's overdue counter is the length of the overdue list. */
  lemma StatsOverdueMatchesList(l: Ledger, now: int)
    ensures GetStats(l, now).overdueBooks == |GetOverdueTransactions(l, now)|
  {
    FilterFilter(l.transactions, IsIssued, (t: Transaction) => IsOverdue(t, now),
                 (t: Transaction) => IsIssued(t) && IsOverdue(t, now));
  }

  /** An empty ledger has all counters at zero. */
  lemma StatsOfEmptyLedger(now: int)
    ensures GetStats(EmptyLedger, now) == Stats(0, 0, 0, 0)
  {
  }

  /** Adding a book raises the total by its number of copies. */
  lemma AddBookRaisesTotal(l: Ledger, d: BookDraft, id: string, now: int)
    ensures GetStats(AddBook(l, d, id), now).totalBooks == GetStats(l, now).totalBooks + d.copies
    ensures GetStats(AddBook(l, d, id), now).issuedBooks == GetStats(l, now).issuedBooks
  {
    var bs := AddBook(l, d, id).books;
    assert bs[..|bs| - 1] == l.books;
  }

  /** A successful issue adds one issued loan; a failed one changes no counter. */
  lemma IssueAddsOneLoan(l: Ledger, bookId: string, userId: string, dueDate: int, txId: string, now: int)
    ensures var r := IssueBook(l, bookId, userId, dueDate, txId, now);
      GetStats(r.ledger, now).issuedBooks == GetStats(l, now).issuedBooks + (if r.success then 1 else 0)
  {
    var r := IssueBook(l, bookId, userId, dueDate, txId, now);
    if r.success {
      FilterAppend(l.transactions, [NewLoan(txId, bookId, userId, dueDate, now)], IsIssued);
    }
  }

  /** A search finds every book whose title contains the query verbatim. */
  lemma SearchFindsVerbatimTitle(l: Ledger, b: Book, q: string)
    requires b in l.books && Contains(b.title, q)
    ensures b in SearchBooks(l, q)
  {
    ContainsLower(b.title, q);
  }

  /** A two-copy book: two issues succeed, the third fails with no copy left,
      and returning the first loan puts one copy back on the shelf. */
  lemma IssueReturnScenario(now: int, due: int)
    ensures var d := BookDraft("Dune", "Frank Herbert", "", "", 1965, 2, None);
      var l0 := AddBook(EmptyLedger, d, "b");
      var i1 := IssueBook(l0, "b", "m", due, "t1", now);
      var i2 := IssueBook(i1.ledger, "b", "n", due, "t2", now);
      var i3 := IssueBook(i2.ledger, "b", "n", due, "t3", now);
      var r := ReturnBook(i3.ledger, "t1", now);
      && l0.books[0].availableCopies == 2
      && i1.success && i1.ledger.books[0].availableCopies == 1
      && i2.success && i2.ledger.books[0].availableCopies == 0
      && !i3.success && i3.ledger.books[0].availableCopies == 0
      && r.books[0].availableCopies == 1
  {
  }

  /** No two books share an id. */
  predicate UniqueBookIds(books: seq<Book>) {
    forall i, j :: 0 <= i < j < |books| ==> books[i].id != books[j].id
  }

  /** With unique book ids, the found book is the one with that id. */
  lemma FindBookUnique(books: seq<Book>, k: nat)
    requires k < |books| && UniqueBookIds(books)
    ensures FindBook(books, books[k].id) == Some(books[k])
  {
  }
}
