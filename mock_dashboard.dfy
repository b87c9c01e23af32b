/** The second prototype's dashboard figures that are whole numbers: the
    number of books, of favorites, the total page count, and the most
    common genre. */
module MockDashboard {
  import opened Optional
  import opened Seqs
  import opened Grouping
  import opened MockApp

  /** `book.pages || 0`. */
  function PagesOrZero(b: LibraryBook): int {
    match b.info.pages
    case None => 0
    case Some(p) => p
  }

  /** `books.reduce((acc, book) => acc + (book.pages || 0), 0)`. */
  function TotalPages(books: seq<LibraryBook>): int
    decreases |books|
  {
    if books == [] then 0 else TotalPages(books[..|books| - 1]) + PagesOrZero(books[|books| - 1])
  }

  /** The page total of two lists together is the sum of their totals. */
  lemma {:induction false} TotalPagesConcat(a: seq<LibraryBook>, b: seq<LibraryBook>)
    ensures TotalPages(a + b) == TotalPages(a) + TotalPages(b)
    decreases |b|
  {
    if b != [] {
      TotalPagesConcat(a, b[..|b| - 1]);
      assert (a + b)[..|a + b| - 1] == a + b[..|b| - 1];
    } else {
      assert a + b == a;
    }
  }

  /** Books without a page count add nothing, and with no negative page
      count the total is at least each book's. */
  lemma {:induction false} TotalPagesBounds(books: seq<LibraryBook>)
    requires forall i | 0 <= i < |books| :: PagesOrZero(books[i]) >= 0
    ensures TotalPages(books) >= 0
    ensures forall i | 0 <= i < |books| :: PagesOrZero(books[i]) <= TotalPages(books)
    ensures (forall i | 0 <= i < |books| :: books[i].info.pages.None?) ==> TotalPages(books) == 0
    decreases |books|
  {
    if books != [] {
      TotalPagesBounds(books[..|books| - 1]);
      assert forall i | 0 <= i < |books| - 1 :: books[..|books| - 1][i] == books[i];
    }
  }

  predicate IsFavorite(b: LibraryBook) {
    b.info.isFavorite
  }

  /** `books.filter(b => b.isFavorite).length`: at most the total, all of
      them exactly when every book is a favorite, and none exactly when no
      book is. */
  function FavoriteCount(books: seq<LibraryBook>): (r: nat)
    ensures r <= |books|
    ensures r == |books| <==> forall i | 0 <= i < |books| :: books[i].info.isFavorite
    ensures r == 0 <==> forall i | 0 <= i < |books| :: !books[i].info.isFavorite
  {
    var other := (b: LibraryBook) => !IsFavorite(b);
    FilterComplement(books, IsFavorite, other);
    FilterNone(books, other);
    FilterNone(books, IsFavorite);
    |Filter(books, IsFavorite)|
  }

  /** Among keys with counts, the first one whose count no other key beats:
      what a stable sort by descending count puts first. */
  function TopIndex<K>(ks: seq<K>, counts: map<K, nat>): (r: nat)
    requires |ks| > 0 && forall j | 0 <= j < |ks| :: ks[j] in counts
    ensures r < |ks|
    ensures forall j | 0 <= j < |ks| :: counts[ks[j]] <= counts[ks[r]]
    ensures forall j | 0 <= j < r :: counts[ks[j]] < counts[ks[r]]
    decreases |ks|
  {
    if |ks| == 1 then 0
    else
      var i := TopIndex(ks[..|ks| - 1], counts);
      if counts[ks[|ks| - 1]] > counts[ks[i]] then |ks| - 1 else i
  }

  /** How many books each genre present has. */
  function GenreCounts(books: seq<LibraryBook>): (r: map<string, nat>)
    ensures forall g :: g in r <==> g in DistinctKeys(books, GenreOf)
    ensures forall g | g in r :: r[g] == |Select(books, GenreOf, g)|
  {
    map g | g in DistinctKeys(books, GenreOf) :: |Select(books, GenreOf, g)|
  }

  /** `topGenre ? topGenre[0] : 'N/A'`. */
  function TopGenre(books: seq<LibraryBook>): string {
    var ks := DistinctKeys(books, GenreOf);
    if ks == [] then "N/A" else ks[TopIndex(ks, GenreCounts(books))]
  }

  /** With books, the top genre is a genre of some book; without books it
      is "N/A". */
  lemma TopGenrePresent(books: seq<LibraryBook>)
    ensures books == [] ==> TopGenre(books) == "N/A"
    ensures books != [] ==> exists i | 0 <= i < |books| :: books[i].info.genre == TopGenre(books)
  {
    if books != [] {
      var ks := DistinctKeys(books, GenreOf);
      DistinctKeysSound(books, GenreOf);
      assert GenreOf(books[0]) in ks;
      DistinctKeysMembers(books, GenreOf);
      assert TopGenre(books) in ks;
    }
  }

  /** No genre has more books than the top genre. */
  lemma TopGenreIsMostCommon(books: seq<LibraryBook>)
    ensures forall i | 0 <= i < |books| ::
      |Select(books, GenreOf, books[i].info.genre)| <= |Select(books, GenreOf, TopGenre(books))|
  {
    var ks := DistinctKeys(books, GenreOf);
    DistinctKeysSound(books, GenreOf);
    if books != [] {
      assert GenreOf(books[0]) in ks;
      var counts := GenreCounts(books);
      var top := TopIndex(ks, counts);
      forall i | 0 <= i < |books|
        ensures |Select(books, GenreOf, books[i].info.genre)| <= |Select(books, GenreOf, ks[top])|
      {
        var g := GenreOf(books[i]);
        assert g in ks;
        var j :| 0 <= j < |ks| && ks[j] == g;
        assert counts[ks[j]] <= counts[ks[top]];
      }
    }
  }

  /** The figures the dashboard shows, apart from the average rating. */
  datatype Stats = Stats(totalBooks: nat, favoriteBooks: nat, totalPages: int, topGenre: string)

  /** The figures, with the genre counts filled in by a loop. */
  method ComputeStats(books: seq<LibraryBook>) returns (s: Stats)
    ensures s.totalBooks == |books|
    ensures s.favoriteBooks == FavoriteCount(books)
    ensures s.totalPages == TotalPages(books)
    ensures s.topGenre == TopGenre(books)
  {
    var genres, counts := Tally(books, GenreOf);
    var top := "N/A";
    if genres != [] {
      assert counts == GenreCounts(books);
      top := genres[TopIndex(genres, counts)];
    }
    s := Stats(|books|, FavoriteCount(books), TotalPages(books), top);
  }

  /** The genre counts add up to the number of books. */
  lemma GenreCountsSum(books: seq<LibraryBook>)
    ensures SumOver(DistinctKeys(books, GenreOf), GenreCounts(books)) == |books|
  {
    TallyTotals(books, GenreOf, DistinctKeys(books, GenreOf), GenreCounts(books));
  }
}
