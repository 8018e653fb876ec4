/** The search screen: the genre drop-down (distinct non-empty genres, sorted)
    and the three-stage filter over the books (text query, exact genre,
    available only). Each stage is skipped when its control is empty. */
module SearchBooksView {
  import opened Seqs
  import opened Text
  import opened Types
  import opened LibraryContext

  /** `books.map(book => book.genre)`. */
  function AllGenres(books: seq<Book>): (r: seq<string>)
    ensures |r| == |books|
    ensures forall i :: 0 <= i < |books| ==> r[i] == books[i].genre
  {
    seq(|books|, i requires 0 <= i < |books| => books[i].genre)
  }

  predicate NonEmpty(g: string) {
    g != ""
  }

  /** The genre list: every non-empty genre of the books exactly once, in
      `LexLe` order. */
  function Genres(books: seq<Book>): (r: seq<string>)
    ensures Sorted(r)
    ensures Distinct(r)
    ensures forall g :: g in r ==> g != ""
    ensures forall g :: g in r ==> g in AllGenres(books)
    ensures forall i :: 0 <= i < |books| && books[i].genre != "" ==> books[i].genre in r
  {
    var all := AllGenres(books);
    var unique := Filter(Dedup(all), NonEmpty);
    var r := Sort(unique);
    DistinctFilter(Dedup(all), NonEmpty);
    DistinctPermutation(r, unique);
    forall g | g in r
      ensures g in unique
    {
      assert g in multiset(r);
    }
    forall i | 0 <= i < |books| && books[i].genre != ""
      ensures books[i].genre in r
    {
      assert all[i] in all;
      assert books[i].genre in unique;
      assert books[i].genre in multiset(unique);
    }
    r
  }

  /** The query predicate of the screen; it tests the isbn before the genre,
      where the ledger's `searchBooks` tests the genre first. */
  predicate ViewMatches(b: Book, query: string) {
    var lq := ToLower(query);
    || Contains(ToLower(b.title), lq)
    || Contains(ToLower(b.author), lq)
    || Contains(b.isbn, query)
    || Contains(ToLower(b.genre), lq)
  }

  /** The screen and the ledger search agree on every book and query. */
  lemma ViewMatchesAgrees(b: Book, query: string)
    ensures ViewMatches(b, query) <==> MatchesQuery(b, query)
  {
  }

  /** The predicate of the text stage. */
  function QueryFilter(query: string): Book -> bool {
    (b: Book) => ViewMatches(b, query)
  }

  /** The predicate of the genre stage: the genre compared verbatim. */
  function GenreFilter(genre: string): Book -> bool {
    (b: Book) => b.genre == genre
  }

  /** What the three controls together select: each one that is set must hold. */
  predicate Selected(b: Book, query: string, genre: string, availableOnly: bool) {
    && (query == "" || ViewMatches(b, query))
    && (genre == "" || b.genre == genre)
    && (!availableOnly || HasCopy(b))
  }

  /** One stage of the pipeline: filter by `p` when the control is set. */
  function Stage(s: seq<Book>, active: bool, p: Book -> bool): (r: seq<Book>)
    ensures Subsequence(r, s)
    ensures !active ==> r == s
  {
    if active then Filter(s, p) else (SubsequenceRefl(s); s)
  }

  /** The `filteredBooks` memo: the selected books, in ledger order. With no
      control set it is the whole list. */
  function FilteredBooks(books: seq<Book>, query: string, genre: string, availableOnly: bool): (r: seq<Book>)
    ensures Subsequence(r, books)
    ensures forall b :: b in r ==> b in books && Selected(b, query, genre, availableOnly)
    ensures forall b :: b in books && Selected(b, query, genre, availableOnly) ==> b in r
    ensures query == "" && genre == "" && !availableOnly ==> r == books
  {
    var byQuery := Stage(books, query != "", QueryFilter(query));
    var byGenre := Stage(byQuery, genre != "", GenreFilter(genre));
    var r := Stage(byGenre, availableOnly, HasCopy);
    SubsequenceTrans(byGenre, byQuery, books);
    SubsequenceTrans(r, byGenre, books);
    r
  }

  /** `p` where the control is set, and nothing otherwise. */
  function Guard(active: bool, p: Book -> bool): Book -> bool {
    (b: Book) => !active || p(b)
  }

  /** A skipped stage is a filter by a predicate that always holds. */
  lemma StageIsFilter(s: seq<Book>, active: bool, p: Book -> bool)
    ensures Stage(s, active, p) == Filter(s, Guard(active, p))
  {
    if active {
      FilterExt(s, p, Guard(active, p));
    } else {
      FilterAll(s, Guard(active, p));
    }
  }

  /** The pipeline is a single filter by the conjunction of the active
      predicates, so the order of its stages does not matter. */
  lemma FilteredIsOneFilter(books: seq<Book>, query: string, genre: string, availableOnly: bool)
    ensures FilteredBooks(books, query, genre, availableOnly)
         == Filter(books, (b: Book) => Selected(b, query, genre, availableOnly))
  {
    var byQuery := Stage(books, query != "", QueryFilter(query));
    var byGenre := Stage(byQuery, genre != "", GenreFilter(genre));
    StageIsFilter(books, query != "", QueryFilter(query));
    StageIsFilter(byQuery, genre != "", GenreFilter(genre));
    StageIsFilter(byGenre, availableOnly, HasCopy);
    FilterFilterFilter(books, Guard(query != "", QueryFilter(query)), Guard(genre != "", GenreFilter(genre)),
                       Guard(availableOnly, HasCopy), (b: Book) => Selected(b, query, genre, availableOnly));
  }

  /** Running the stages in the opposite order selects the same books. */
  lemma StageOrderIrrelevant(books: seq<Book>, query: string, genre: string, availableOnly: bool)
    ensures var reversed := Stage(Stage(Stage(books, availableOnly, HasCopy),
                                        genre != "", GenreFilter(genre)),
                                  query != "", QueryFilter(query));
      reversed == FilteredBooks(books, query, genre, availableOnly)
  {
    var byAvail := Stage(books, availableOnly, HasCopy);
    var byGenre := Stage(byAvail, genre != "", GenreFilter(genre));
    StageIsFilter(books, availableOnly, HasCopy);
    StageIsFilter(byAvail, genre != "", GenreFilter(genre));
    StageIsFilter(byGenre, query != "", QueryFilter(query));
    FilterFilterFilter(books, Guard(availableOnly, HasCopy), Guard(genre != "", GenreFilter(genre)),
                       Guard(query != "", QueryFilter(query)), (b: Book) => Selected(b, query, genre, availableOnly));
    FilteredIsOneFilter(books, query, genre, availableOnly);
  }

  /** With only the text box filled, the screen shows what `searchBooks` returns. */
  lemma QueryOnlyIsSearch(l: Ledger, query: string)
    ensures FilteredBooks(l.books, query, "", false) == SearchBooks(l, query)
  {
    FilteredIsOneFilter(l.books, query, "", false);
    FilterExt(l.books, (b: Book) => Selected(b, query, "", false), (b: Book) => MatchesQuery(b, query));
  }

  /** Every genre the drop-down offers selects at least one book. */
  lemma OfferedGenreSelectsSome(books: seq<Book>, genre: string)
    requires genre in Genres(books)
    ensures FilteredBooks(books, "", genre, false) != []
  {
    var all := AllGenres(books);
    var i :| 0 <= i < |all| && all[i] == genre;
    assert Selected(books[i], "", genre, false);
    assert books[i] in books;
  }
}
