/** The records of the library: books, members (users) and loans (transactions),
    the field sets `addBook`/`addUser` receive, and the partial records that
    `updateBook`/`updateUser` merge. Timestamps are integer milliseconds. */
module Types {
  import opened Seqs

  datatype MembershipType = Student | Faculty | General

  /** The stored loan states; `overdue` is only ever derived, never stored. */
  datatype Status = Issued | Returned

  datatype Book = Book(
    id: string,
    title: string,
    author: string,
    isbn: string,
    genre: string,
    publishedYear: int,
    copies: int,
    availableCopies: int,
    description: Option<string>)

  datatype User = User(
    id: string,
    name: string,
    email: string,
    phone: string,
    membershipType: MembershipType,
    joinDate: int,
    isActive: bool)

  datatype Transaction = Transaction(
    id: string,
    bookId: string,
    userId: string,
    issueDate: int,
    dueDate: int,
    returnDate: Option<int>,
    status: Status)

  /** The fields of a new book; `availableCopies` is not among them because
      `addBook` overwrites it with `copies`. */
  datatype BookDraft = BookDraft(
    title: string,
    author: string,
    isbn: string,
    genre: string,
    publishedYear: int,
    copies: int,
    description: Option<string>)

  /** The fields of a new member. */
  datatype UserDraft = UserDraft(
    name: string,
    email: string,
    phone: string,
    membershipType: MembershipType,
    joinDate: int,
    isActive: bool)

  /** A `Partial<Book>`: `Some` for each field the caller supplies. */
  datatype BookPatch = BookPatch(
    id: Option<string>,
    title: Option<string>,
    author: Option<string>,
    isbn: Option<string>,
    genre: Option<string>,
    publishedYear: Option<int>,
    copies: Option<int>,
    availableCopies: Option<int>,
    description: Option<string>)

  /** A `Partial<User>`. */
  datatype UserPatch = UserPatch(
    id: Option<string>,
    name: Option<string>,
    email: Option<string>,
    phone: Option<string>,
    membershipType: Option<MembershipType>,
    joinDate: Option<int>,
    isActive: Option<bool>)

  /** The patch that only sets `availableCopies`, as `issueBook`/`returnBook` send it. */
  function AvailablePatch(n: int): BookPatch {
    BookPatch(None, None, None, None, None, None, None, Some(n), None)
  }

  lemma MergeAvailable(b: Book, n: int)
    ensures MergeBook(b, AvailablePatch(n)) == b.(availableCopies := n)
  {
  }

  /** `{ ...b, ...p }`: the supplied fields of `p` override those of `b`. */
  function MergeBook(b: Book, p: BookPatch): Book {
    Book(
      p.id.GetOr(b.id),
      p.title.GetOr(b.title),
      p.author.GetOr(b.author),
      p.isbn.GetOr(b.isbn),
      p.genre.GetOr(b.genre),
      p.publishedYear.GetOr(b.publishedYear),
      p.copies.GetOr(b.copies),
      p.availableCopies.GetOr(b.availableCopies),
      if p.description.Some? then p.description else b.description)
  }

  /** `{ ...u, ...p }`. */
  function MergeUser(u: User, p: UserPatch): User {
    User(
      p.id.GetOr(u.id),
      p.name.GetOr(u.name),
      p.email.GetOr(u.email),
      p.phone.GetOr(u.phone),
      p.membershipType.GetOr(u.membershipType),
      p.joinDate.GetOr(u.joinDate),
      p.isActive.GetOr(u.isActive))
  }

  /** The counters of the dashboard. */
  datatype Stats = Stats(totalBooks: int, totalUsers: nat, issuedBooks: nat, overdueBooks: nat)
}
