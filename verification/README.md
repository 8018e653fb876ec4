# Library ledger, modelled in Dafny

This project models the ledger of a browser-based library catalogue. The ledger holds three lists: books, members (users) and loans (transactions). It offers these operations:

- add, update and delete for books and members;
- `issueBook` and `returnBook`;
- the queries `getStats`, `searchBooks` and `getOverdueTransactions`.

It also models the derived logic of three screens that sit on top of the ledger:

- the search screen: a three-stage filter and a sorted genre list;
- the return screen: the active loans, the overdue counter, the day count, and rows that skip loans whose book or member is gone;
- the issue screen: the offered books and members, and the submit/clear state machine of its form.

Every operation is a pure function from the ledger before to the ledger after. The time (`now`) and the freshly generated ids are parameters.

Files:

- `seqs.dfy`: the array methods the code is written with (`filter`, `find`, `map` with a conditional update, `[...new Set(…)]`) and their laws.
- `text.dfy`: `toLowerCase`, `includes`, and the default `sort` order.
- `types.dfy`: the records, the add drafts, and the `Partial<…>` patches with their spread merge.
- `ledger.dfy` (module `LibraryContext`): the ledger operations.
- `accounting.dfy`: the counting invariant. For every book, the copies on the shelf plus the copies out on `issued` loans equal the copies owned. The file also shows the two paths that break the invariant.
- `search_view.dfy`, `return_view.dfy` and `issue_view.dfy`: the three screens.

The model follows the code as written, including the two gaps it leaves in the counting invariant:

- A second `returnBook` on the same loan adds a second copy. `DoubleReturnAddsTwo` and `ReturnOfReturnedBreaksConsistency` state this.
- Saving the book edit form with a changed `copies` leaves `availableCopies` stale. `EditKeepsConsistentIff` states this.

Points where the code is looser than one might expect; the model follows the code:

- The ledger never enforces `copies ≥ 1` (only the form's `min="1"` does) or `availableCopies ≤ copies`; the latter holds under the invariant (`ConsistentBounds`).
- The code does not guard the transition from `returned` back to `returned`.
- `issueBook` does not look up the member.

## Model

| member | source | states |
|---|---|---|
| `Types.MergeAvailable` | LibraryContext.tsx:82 | The patch `{ availableCopies: n }` changes that one field of a book and nothing else |
| `Seqs.Filter` | LibraryContext.tsx:47 | `filter` keeps an order-preserving subsequence: exactly the elements satisfying the predicate, each of which satisfies it |
| `Seqs.FilterMultiset` | LibraryContext.tsx:47 | `filter` keeps every element that satisfies the predicate as often as it occurs, and drops every other element |
| `Seqs.FilterCount` | LibraryContext.tsx:103-104 | The length of a filtered list is the number of elements that satisfy the predicate |
| `Seqs.MapWhere` | LibraryContext.tsx:41-43 | `map` with a conditional update keeps the length and replaces exactly the elements that satisfy the test |
| `Seqs.Find` | LibraryContext.tsx:69 | `find` returns `undefined` exactly when no element satisfies the test; otherwise it returns the first element that does |
| `Seqs.Dedup` | SearchBooks.tsx:14 | `[...new Set(s)]` holds no duplicates, has the same members as `s`, and lists them in the order of their first occurrence in `s` |
| `Text.ContainsIff` | LibraryContext.tsx:118-121 | `includes` holds exactly when the substring occurs at some position |
| `Text.ContainsLower` | LibraryContext.tsx:117-120 | A verbatim occurrence is still an occurrence after both strings are lower-cased |
| `Text.Sort` | SearchBooks.tsx:14 | The default `sort` returns a permutation of its input in code-point order |
| `Text.LexLeTransitive` | SearchBooks.tsx:14 | The order `sort` uses is transitive |
| `Text.LexLeAntisymmetric` | SearchBooks.tsx:14 | The order `sort` uses is antisymmetric |
| `LibraryContext.FindBook` | LibraryContext.tsx:69 | The book lookup returns the first book with that id, or nothing when no book has it |
| `LibraryContext.FindUser` | ReturnBook.tsx:13 | The member lookup returns the first member with that id, or nothing when no member has it |
| `LibraryContext.FindTransaction` | LibraryContext.tsx:87 | The loan lookup returns the first loan with that id, or nothing when no loan has it |
| `LibraryContext.AddBook` | LibraryContext.tsx:31-38 | Appends one book with the draft's fields, the given id and `availableCopies = copies`; the existing books, members and loans are unchanged |
| `LibraryContext.UpdateBook` | LibraryContext.tsx:40-44 | Keeps the length and order; merges the patch into exactly the books with that id; an absent id changes nothing |
| `LibraryContext.DeleteBook` | LibraryContext.tsx:46-48 | Removes exactly the books with that id; the rest keep their order and multiplicity; members and loans are untouched |
| `LibraryContext.AddUser` | LibraryContext.tsx:50-56 | Appends one member with the draft's fields and the given id; the rest is unchanged |
| `LibraryContext.UpdateUser` | LibraryContext.tsx:58-62 | The member counterpart of `UpdateBook` |
| `LibraryContext.DeleteUser` | LibraryContext.tsx:64-66 | The member counterpart of `DeleteBook`; loans are kept |
| `LibraryContext.SetAvailable` | LibraryContext.tsx:82 | The loan operations' `updateBook` call sets `availableCopies` of exactly the books with that id |
| `LibraryContext.IssueBook` | LibraryContext.tsx:68-84 | Succeeds exactly when the first book with that id has a copy available, and changes nothing otherwise. On success it appends one `issued` loan dated now with the given book, member and due date, and sets the book's `availableCopies` to one fewer. Members are unchanged and no member check is made |
| `LibraryContext.Restock` | LibraryContext.tsx:90-93 | If the loan's book exists, the books with that id get one more copy than the found book had; otherwise the books are left alone |
| `LibraryContext.ReturnBook` | LibraryContext.tsx:86-100 | An unknown loan id changes nothing. Otherwise every loan with that id is marked `returned` with the return date, whatever its status, and the book is restocked |
| `LibraryContext.GetStats` | LibraryContext.tsx:102-113 | The issued count is at most the number of loans, the overdue count at most the issued count, and the active-member count at most the number of members |
| `LibraryContext.SearchBooks` | LibraryContext.tsx:115-123 | An order-preserving subsequence holding exactly the books whose lower-cased title, author or genre contains the lower-cased query, or whose isbn contains the raw query; the empty query returns all books |
| `LibraryContext.GetOverdueTransactions` | LibraryContext.tsx:125-130 | An order-preserving subsequence holding exactly the `issued` loans due before now; a `returned` loan is never included |
| `LibraryContext.TotalCopies` | LibraryContext.tsx:108 | The sum of the books' copies; when no book has a negative count it is non-negative and at least the copies of each single book |
| `LibraryContext.StatsCounts` | LibraryContext.tsx:102-112 | The issued counter counts the `issued` loans, the member counter the active members, and the overdue counter the `issued` loans due before now |
| `LibraryContext.StatsOverdueMatchesList` | LibraryContext.tsx:102-130 | The overdue counter equals the length of the overdue list at the same moment |
| `LibraryContext.StatsOfEmptyLedger` | LibraryContext.tsx:102-113 | An empty ledger has every counter at zero |
| `LibraryContext.AddBookRaisesTotal` | LibraryContext.tsx:31-38 | Adding a book raises the total by its copies and leaves the issued count alone |
| `LibraryContext.IssueAddsOneLoan` | LibraryContext.tsx:68-84 | A successful issue raises the issued count by one; a failed issue leaves it unchanged |
| `LibraryContext.SearchFindsVerbatimTitle` | LibraryContext.tsx:115-123 | A book whose title contains the query verbatim is always found |
| `LibraryContext.IssueReturnScenario` | LibraryContext.tsx:31-99 | For a two-copy book, two issues succeed, the third fails with none left, and one return puts one copy back |
| `LibraryContext.FindBookUnique` | LibraryContext.tsx:69 | With unique ids, the lookup finds the book that has the id |
| `Accounting.EmptyLedgerConsistent` | LibraryContext.tsx:25-27 | The initial empty ledger satisfies the invariant |
| `Accounting.ConsistentBounds` | LibraryContext.tsx:68-99 | Under the invariant, `0 <= availableCopies <= copies` |
| `Accounting.AddBookKeepsConsistent` | LibraryContext.tsx:31-38 | Adding a book with a fresh id and a non-negative number of copies keeps the invariant |
| `Accounting.IssueKeepsConsistent` | LibraryContext.tsx:68-84 | Issuing with a fresh loan id keeps the invariant |
| `Accounting.CountAfterReturn` | LibraryContext.tsx:95-99 | Marking a loan returned takes it out of every count of `issued` loans |
| `Accounting.ReturnBookAt` | LibraryContext.tsx:86-100 | With unique book ids, a return adds one copy to the loan's book, if it exists, and leaves every other book alone |
| `Accounting.ReturnEffectOnBook` | LibraryContext.tsx:86-100 | What a return does to one book: one copy more if it is the loan's book, one loan fewer on it if the loan was `issued` |
| `Accounting.ReturnIssuedKeepsConsistent` | LibraryContext.tsx:86-100 | Returning a loan id whose loans are all `issued` keeps the invariant |
| `Accounting.IssueBookAt` | LibraryContext.tsx:68-84 | With unique book ids, an issue takes one copy off exactly the issued book |
| `Accounting.IssuedLoanFound` | LibraryContext.tsx:72-81 | After an issue with a fresh loan id, that id finds the new loan |
| `Accounting.MarkFreshReturned` | LibraryContext.tsx:95-99 | Marking a loan returned whose id no earlier loan has changes only that loan |
| `Accounting.IssueThenReturnRestores` | LibraryContext.tsx:68-100 | Issuing and then returning the new loan restores the books exactly and leaves the loan on record as returned |
| `Accounting.IssueThenReturnBooks` | LibraryContext.tsx:68-100 | Issuing and then returning the new loan gives back exactly the books of before |
| `Accounting.IssueThenReturnLoans` | LibraryContext.tsx:68-100 | Issuing and then returning the new loan leaves the old loans as they were, followed by the new loan marked `returned` |
| `Accounting.RestockAfterTake` | LibraryContext.tsx:82-93 | With unique ids, restocking a book just set to one copy fewer restores the books exactly |
| `Accounting.ReturnOfReturnedBreaksConsistency` | LibraryContext.tsx:86-100 | Returning an already-returned loan still adds a copy, so a consistent ledger becomes inconsistent |
| `Accounting.FirstReturn` | LibraryContext.tsx:86-100 | The first return of an issued loan marks it returned, adds one copy, and keeps the invariant |
| `Accounting.DoubleReturnAddsTwo` | LibraryContext.tsx:86-100 | Returning one issued loan twice adds two copies and breaks the invariant |
| `Accounting.UpdateBookConsistentIff` | LibraryContext.tsx:40-44 | An update that keeps the id keeps the invariant exactly when the shelf count stays non-negative and its difference to the owned copies is unchanged |
| `Accounting.EditKeepsConsistentIff` | BookManagement.tsx:36-38 | Saving the edit form, which sends no `availableCopies`, keeps the invariant exactly when `copies` is unchanged |
| `Accounting.DeleteBookKeepsConsistent` | LibraryContext.tsx:46-48 | Deleting a book keeps the invariant for the books that remain |
| `Accounting.SubsequenceUniqueIds` | LibraryContext.tsx:47 | A filter of a list with unique ids has unique ids |
| `Accounting.UserChangesKeepConsistent` | LibraryContext.tsx:50-66 | Member changes keep the invariant |
| `Accounting.ReturnRemovesOneLoan` | LibraryContext.tsx:86-113 | Returning an issued loan lowers the issued counter by one |
| `SearchBooksView.AllGenres` | SearchBooks.tsx:13 | The genre of every book, in order |
| `SearchBooksView.Genres` | SearchBooks.tsx:12-15 | The genre list is sorted, holds no duplicate and no empty string, and as a set equals the non-empty genres of the books |
| `SearchBooksView.ViewMatchesAgrees` | SearchBooks.tsx:21-26 | The screen's query test agrees with the ledger's search predicate for every book and query |
| `SearchBooksView.Stage` | SearchBooks.tsx:20-36 | A stage whose control is empty passes the list through; any stage yields a subsequence |
| `SearchBooksView.FilteredBooks` | SearchBooks.tsx:17-39 | An order-preserving subsequence holding exactly the books every set control selects: query match, exact genre, a copy available. With no control set it is the whole list |
| `SearchBooksView.StageIsFilter` | SearchBooks.tsx:20-36 | A skipped stage is the same as a filter by a predicate that always holds |
| `SearchBooksView.FilteredIsOneFilter` | SearchBooks.tsx:17-39 | The pipeline equals one filter by the conjunction of the active predicates |
| `SearchBooksView.StageOrderIrrelevant` | SearchBooks.tsx:17-39 | Running the three stages in the opposite order gives the same list |
| `SearchBooksView.QueryOnlyIsSearch` | SearchBooks.tsx:20-28 | With only the query set, the screen shows what `searchBooks` returns |
| `SearchBooksView.OfferedGenreSelectsSome` | SearchBooks.tsx:30-32 | Every genre in the drop-down selects at least one book |
| `ReturnBookView.ActiveTransactions` | ReturnBook.tsx:8 | Exactly the `issued` loans, each as often as it occurs, as an order-preserving subsequence |
| `ReturnBookView.DaysUntilDue` | ReturnBook.tsx:15 | The day count is the ceiling of the remaining milliseconds over 86 400 000 |
| `ReturnBookView.DaysUntilDueUnique` | ReturnBook.tsx:15 | The ceiling is the only whole number with that property |
| `ReturnBookView.DaysUntilDueSign` | ReturnBook.tsx:14-15 | The count is at least 0 when the loan is not overdue and at most 0 when it is; a loan due 1 ms ago shows "0 days overdue" |
| `ReturnBookView.OverdueCount` | ReturnBook.tsx:47 | The overdue card counts at most the active loans |
| `ReturnBookView.OverdueCardMatchesStats` | ReturnBook.tsx:37-47 | The two cards show the dashboard's issued and overdue counters at the same moment |
| `ReturnBookView.ShownLoans` | ReturnBook.tsx:70-73 | The loans given a row are exactly the active loans whose book and member can be found, each as often as it occurs, in order; the others are skipped |
| `ReturnBookView.Details` | ReturnBook.tsx:11-18 | The first book and member with the loan's ids, the overdue flag (due before now) and the ceiling day count |
| `ReturnBookView.Rows` | ReturnBook.tsx:11-17 | Each row carries its loan, the first book and member with its ids, the overdue flag and the day count |
| `ReturnBookView.HandleReturn` | ReturnBook.tsx:20-22 | Returning from a row marks every loan with the row's id `returned`, so that loan no longer gets a row; the members and the number of loans are unchanged |
| `ReturnBookView.ReturnFromRowKeepsConsistent` | ReturnBook.tsx:20-22 | Returning the loan of any row keeps a consistent ledger consistent; the screen cannot return a loan twice |
| `IssueBookView.AvailableBooks` | IssueBook.tsx:12 | Exactly the books with a copy available, each as often as it occurs, in order |
| `IssueBookView.ActiveUsers` | IssueBook.tsx:13 | Exactly the active members, each as often as it occurs, in order |
| `IssueBookView.ActiveUsersMatchStats` | IssueBook.tsx:13 | The member list is as long as the dashboard's active-member count |
| `IssueBookView.DisabledSubmitIsNoOp` | IssueBook.tsx:17 | While book, member or date is missing (the button's disabled condition at IssueBook.tsx:179), a submit calls nothing and changes nothing; the screen opens in that state |
| `IssueBookView.ClearForm` | IssueBook.tsx:168-172 | Clearing resets the three choices, keeps the banner, and disables the submit button |
| `IssueBookView.HandleSubmit` | IssueBook.tsx:15-27 | `issueBook` is called exactly when book, member and due date are set, with those values. Success clears them and shows the banner; failure leaves the form and the ledger as they were |
| `IssueBookView.DismissSuccess` | IssueBook.tsx:24 | The banner's timer hides the banner and keeps the choices |
| `IssueBookView.SubmitSettles` | IssueBook.tsx:15-27 | After a success the button is disabled; after a failure a second submit fails too |
| `IssueBookView.OfferedBookIssues` | IssueBook.tsx:12-18 | With unique ids, submitting an offered book with a non-empty id, a member and a date succeeds |
| `IssueBookView.SubmitKeepsConsistent` | IssueBook.tsx:15-27 | Submitting with a fresh loan id keeps the invariant |

## Left out

- Persistence through `useLocalStorage` is left out. It is browser storage behind a hook that is not part of this model; the ledger starts from `EmptyLedger`.
- Id generation with `Math.random` is left out. Ids are parameters, and the lemmas about the invariant take their freshness as a premise.
- React state semantics are left out. These include the render-time snapshot that `issueBook` and `returnBook` read, the batching of state updates, and the error thrown when the context is missing. Each operation is modelled as one transition on one snapshot.
- JavaScript `number` fields (`copies`, `availableCopies`, `publishedYear`) are modelled as unbounded `int`. NaN, fractions and the 2^53 limit are not modelled; every caller passes integers (the form's `parseInt` with `min="1"`, and the ±1 of the loan operations). A NaN count would pass the `availableCopies <= 0` guard of `issueBook`, which no caller can bring about.
- Date parsing and formatting are left out. This covers ISO strings, `toLocaleDateString`, the "Returned Today" card, and `getMinDate`/`getDefaultDueDate`. Times and due dates are integer milliseconds.
- The dashboard's percentages are left out, because they are floating-point presentation. So are all JSX, styling, animation and the view switch.
- The `overdue` status, `fineAmount` and `coverUrl` are left out, because no code reads or writes them.
- The `availableCopies` field an add form may carry is left out. `addBook` overwrites it, so `BookDraft` does not have it.
- A patch field explicitly set to `undefined` is left out. `BookPatch` and `UserPatch` model an omitted field as `None`.
- Text.ToLower: lowers ASCII letters only, not the full Unicode case mapping of `toLowerCase`. `Text.ContainsLower` and `LibraryContext.SearchFindsVerbatimTitle` rest on this per-character lowering; they fail for context-sensitive mappings such as the final sigma, where "ΑΣ" lowers to "ας" but the query "Σ" lowers to "σ".
- Text.LexLe: orders by code point, where JavaScript's `sort` compares UTF-16 code units. The two differ only outside the Basic Multilingual Plane.
- ReturnBookView.DaysUntilDue: is exact integer ceiling division. `Math.ceil` over a floating-point quotient agrees for every realistic timestamp difference.
- IssueBookView.DismissSuccess: the three-second delay of the timer is not modelled, only its effect.
