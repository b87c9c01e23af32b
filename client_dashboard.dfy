/** The first client's dashboard: how many books there are, how many have
    been read by someone, how many are someone's favorite, and how many
    books each genre has. */
module ClientDashboard {
  import opened Seqs
  import opened Grouping
  import opened Catalogue

  /** `b.readBy && b.readBy.length > 0`. */
  predicate HasReaders(b: Book) {
    |b.readBy| > 0
  }

  /** `b.favorites && b.favorites.length > 0`. */
  predicate HasFans(b: Book) {
    |b.favorites| > 0
  }

  /** `readBooks`: at most the total; all of them exactly when every book
      has a reader, none exactly when no book has; and the unread books make
      up the rest. */
  function ReadCount(books: seq<Book>): (r: nat)
    ensures r <= |books|
    ensures r + |Filter(books, (b: Book) => !HasReaders(b))| == |books|
    ensures r == |books| <==> forall i | 0 <= i < |books| :: HasReaders(books[i])
    ensures r == 0 <==> forall i | 0 <= i < |books| :: !HasReaders(books[i])
  {
    var unread := (b: Book) => !HasReaders(b);
    FilterComplement(books, HasReaders, unread);
    FilterNone(books, unread);
    FilterNone(books, HasReaders);
    |Filter(books, HasReaders)|
  }

  /** `favoriteBooks`, with the same bounds as `ReadCount`. */
  function FavoriteCount(books: seq<Book>): (r: nat)
    ensures r <= |books|
    ensures r + |Filter(books, (b: Book) => !HasFans(b))| == |books|
    ensures r == |books| <==> forall i | 0 <= i < |books| :: HasFans(books[i])
    ensures r == 0 <==> forall i | 0 <= i < |books| :: !HasFans(books[i])
  {
    var unloved := (b: Book) => !HasFans(b);
    FilterComplement(books, HasFans, unloved);
    FilterNone(books, unloved);
    FilterNone(books, HasFans);
    |Filter(books, HasFans)|
  }

  function GenreOf(b: Book): string {
    b.genre
  }

  /** `booksByGenre`, in the order `Object.entries` lists it: every genre
      present once, in order of first appearance, with a count of at least
      one, the counts adding up to `totalBooks`. */
  method GenreCounts(books: seq<Book>) returns (genres: seq<string>, counts: map<string, nat>)
    ensures genres == DistinctKeys(books, GenreOf)
    ensures forall g :: g in counts <==> g in genres
    ensures forall g | g in counts :: counts[g] == |Select(books, GenreOf, g)| && counts[g] >= 1
    ensures SumOver(genres, counts) == |books|
  {
    genres, counts := Tally(books, GenreOf);
    TallyTotals(books, GenreOf, genres, counts);
  }
}
