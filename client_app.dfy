/** The first client's list logic: the filter pipeline over the books it
    fetched, the genre options, and the optimistic updates it applies to its
    own copy of the list when the user adds, edits, deletes, rates, toggles a
    favorite or marks a book read. The server calls those updates are
    followed by are modelled in `Server`; the lemmas here compare the two. */
module ClientApp {
  import opened Optional
  import opened Seqs
  import opened Text
  import opened Sorting
  import opened Catalogue

  // ---------------------------------------------------------------- filtering

  /** The rating select: "all", or a minimum number of stars. */
  datatype RatingFilter = AnyRating | AtLeast(min: int)

  /** The filter controls: search text, genre ("all" for any), rating, and
      the favorites-only switch. */
  datatype Criteria = Criteria(query: string, genre: string, rating: RatingFilter, favoritesOnly: bool)

  /** `book.rating || 0`. */
  function RatingOrZero(b: Book): int {
    match b.rating
    case Null => 0
    case NonNull(r) => r
  }

  /** One book against every active filter. */
  predicate Passes(b: Book, c: Criteria, user: Option<Id>) {
    && (c.query == "" || MatchesQuery(b, c.query))
    && (c.genre == "all" || b.genre == c.genre)
    && (c.rating.AtLeast? ==> RatingOrZero(b) >= c.rating.min)
    && (c.favoritesOnly ==> user.Some? && user.value in b.favorites)
  }

  /** `filteredBooks`. */
  function FilteredBooks(books: seq<Book>, c: Criteria, user: Option<Id>): (r: seq<Book>)
    ensures IsSubseq(r, books)
    ensures forall b :: b in r <==> b in books && Passes(b, c, user)
  {
    FilterIsSubseq(books, (b: Book) => Passes(b, c, user));
    Filter(books, (b: Book) => Passes(b, c, user))
  }

  /** With every control at its neutral setting the whole list is shown. */
  lemma NeutralCriteriaKeepAll(books: seq<Book>, user: Option<Id>)
    ensures FilteredBooks(books, Criteria("", "all", AnyRating, false), user) == books
  {
    FilterAll(books, (b: Book) => Passes(b, Criteria("", "all", AnyRating, false), user));
  }

  /** The client filter by query and genre keeps the same books, in the same
      order, as the server's search with the same query and genre. */
  lemma FilterAgreesWithSearch(books: seq<Book>, q: string, genre: string, user: Option<Id>)
    requires genre != "all" && genre != ""
    ensures FilteredBooks(books, Criteria(q, genre, AnyRating, false), user) == SearchResults(books, q, genre, "")
  {
    var c := Criteria(q, genre, AnyRating, false);
    var byGenre := (b: Book) => b.genre == genre;
    var passes := (b: Book) => Passes(b, c, user);
    assert FilteredBooks(books, c, user) == Filter(books, passes);
    if q != "" {
      var byQuery := (b: Book) => MatchesQuery(b, q);
      assert SearchResults(books, q, genre, "") == Filter(Filter(books, byQuery), byGenre);
      FilterFilter(books, byQuery, byGenre, passes);
    } else {
      assert SearchResults(books, q, genre, "") == Filter(books, byGenre);
      FilterExt(books, passes, byGenre);
    }
  }

  /** `[...new Set(books.map(b => b.genre).filter(Boolean))].sort()`: the
      non-empty genres present, each once, in order. */
  function Genres(books: seq<Book>): (r: seq<string>)
    ensures Increasing(r, ByName())
    ensures forall g :: g in r <==> g != "" && exists i | 0 <= i < |books| :: books[i].genre == g
  {
    ByNameIsStrictTotalOrder();
    var present := Filter(Map(books, (b: Book) => b.genre), (g: string) => g != "");
    assert forall i | 0 <= i < |books| :: books[i].genre == Map(books, (b: Book) => b.genre)[i];
    SortedSet(present, ByName())
  }

  // ---------------------------------------------------------------- list updates

  /** `books.map(b => b.id === id ? f(b) : b)`. */
  function Patch(books: seq<Book>, id: Id, f: Book -> Book): (r: seq<Book>)
    ensures |r| == |books|
    ensures forall j | 0 <= j < |books| :: r[j] == if books[j].id == id then f(books[j]) else books[j]
  {
    seq(|books|, j requires 0 <= j < |books| => if books[j].id == id then f(books[j]) else books[j])
  }

  /** With unique ids, patching by id changes the one book found. */
  lemma PatchOne(books: seq<Book>, id: Id, f: Book -> Book)
    requires UniqueIds(books) && FindBook(books, id).Some?
    ensures var i := FindBook(books, id).value;
      Patch(books, id, f) == books[i := f(books[i])]
  {
  }

  /** `[...books, newBook]`. */
  function AddBook(books: seq<Book>, created: Book): (r: seq<Book>)
    ensures |r| == |books| + 1 && r[..|books|] == books && r[|books|] == created
  {
    books + [created]
  }

  /** `books.map(b => b.id === book.id ? updated : b)`. */
  function UpdateBook(books: seq<Book>, id: Id, updated: Book): (r: seq<Book>)
    ensures |r| == |books|
    ensures forall j | 0 <= j < |books| :: r[j] == if books[j].id == id then updated else books[j]
  {
    Patch(books, id, _ => updated)
  }

  /** `books.filter(b => b.id !== id)`. */
  function DeleteBook(books: seq<Book>, id: Id): (r: seq<Book>)
    ensures IsSubseq(r, books)
    ensures forall b :: b in r <==> b in books && b.id != id
  {
    FilterIsSubseq(books, (b: Book) => b.id != id);
    Filter(books, (b: Book) => b.id != id)
  }

  /** The client's add, edit and delete leave its list equal to the server's
      list after the same request, when the two agreed before. */
  lemma ListEditsAgreeWithServer(books: seq<Book>, body: BookBody, id: Id, createdAt: string)
    requires UniqueIds(books)
    ensures CreateAccepted(body) ==>
      AddBook(books, NewBook(body, id, createdAt)) == books + [NewBook(body, id, createdAt)]
    ensures FindBook(books, id).Some? ==>
      var i := FindBook(books, id).value;
      && UpdateBook(books, id, ApplyUpdate(books[i], body)) == books[i := ApplyUpdate(books[i], body)]
      && DeleteBook(books, id) == books[..i] + books[i + 1..]
  {
    if FindBook(books, id).Some? {
      var i := FindBook(books, id).value;
      PatchOne(books, id, _ => ApplyUpdate(books[i], body));
      SpliceIsFilter(books, i);
    }
  }

  /** `handleToggleFavorite`: nothing without a user; otherwise the user is
      removed from, or appended to, the favorites of the books with that id,
      depending on whether the first such book lists them. */
  function ToggleFavorite(books: seq<Book>, user: Option<Id>, id: Id): (r: seq<Book>)
    ensures user.None? ==> r == books
    ensures |r| == |books|
    ensures forall j | 0 <= j < |books| && books[j].id != id :: r[j] == books[j]
  {
    match user
    case None => books
    case Some(u) =>
      var isFav := match FindBook(books, id)
        case None => false
        case Some(i) => u in books[i].favorites;
      Patch(books, id, (b: Book) => b.(favorites := if isFav then RemoveAll(b.favorites, u) else b.favorites + [u]))
  }

  /** With unique ids, the client's toggle is the change the server makes
      for the request it sends: remove-favorite when the user was listed,
      add-favorite otherwise. */
  lemma ToggleAgreesWithServer(books: seq<Book>, u: Id, id: Id)
    requires UniqueIds(books) && FindBook(books, id).Some?
    ensures var i := FindBook(books, id).value;
      ToggleFavorite(books, Some(u), id) ==
        if u in books[i].favorites then RemoveFavoriteFrom(books, i, u) else AddFavoriteTo(books, i, u)
  {
    var i := FindBook(books, id).value;
    var isFav := u in books[i].favorites;
    PatchOne(books, id, (b: Book) => b.(favorites := if isFav then RemoveAll(b.favorites, u) else b.favorites + [u]));
  }

  /** Toggling a book the user has not favorited, twice, restores the list. */
  lemma ToggleTwice(books: seq<Book>, u: Id, id: Id)
    requires forall j | 0 <= j < |books| && books[j].id == id :: u !in books[j].favorites
    ensures ToggleFavorite(ToggleFavorite(books, Some(u), id), Some(u), id) == books
  {
    var once := ToggleFavorite(books, Some(u), id);
    forall j | 0 <= j < |books| && books[j].id == id
      ensures RemoveAll(books[j].favorites + [u], u) == books[j].favorites
    {
      var s := books[j].favorites + [u];
      assert s[..|s| - 1] == books[j].favorites;
    }
    match FindBook(books, id)
    case None =>
    case Some(i) =>
      assert once[i].favorites == books[i].favorites + [u];
  }

  /** `handleRate`: the books with that id get the rating. */
  function Rate(books: seq<Book>, id: Id, rating: int): (r: seq<Book>)
    ensures |r| == |books|
    ensures forall j | 0 <= j < |books| ::
      r[j] == if books[j].id == id then books[j].(rating := NonNull(rating)) else books[j]
  {
    Patch(books, id, (b: Book) => b.(rating := NonNull(rating)))
  }

  /** The rating the client shows is the one the server stores for the
      update request `{ rating }` it sends. */
  lemma RateAgreesWithServer(books: seq<Book>, id: Id, rating: int)
    requires UniqueIds(books) && FindBook(books, id).Some?
    ensures var i := FindBook(books, id).value;
      Rate(books, id, rating) ==
        books[i := ApplyUpdate(books[i], BookBody(Missing, Missing, Missing, Missing, Missing, Given(rating), Missing))]
  {
    PatchOne(books, id, (b: Book) => b.(rating := NonNull(rating)));
  }

  /** `handleMarkRead`: appends the user to `readBy` without checking. */
  function MarkRead(books: seq<Book>, user: Option<Id>, id: Id): (r: seq<Book>)
    ensures user.None? ==> r == books
    ensures |r| == |books|
    ensures user.Some? ==> forall j | 0 <= j < |books| ::
      r[j] == if books[j].id == id then books[j].(readBy := books[j].readBy + [user.value]) else books[j]
  {
    match user
    case None => books
    case Some(u) => Patch(books, id, (b: Book) => b.(readBy := b.readBy + [u]))
  }

  /** `handleUnmarkRead`: removes every occurrence of the user. */
  function UnmarkRead(books: seq<Book>, user: Option<Id>, id: Id): (r: seq<Book>)
    ensures user.None? ==> r == books
    ensures |r| == |books|
    ensures user.Some? ==> forall j | 0 <= j < |books| && books[j].id == id :: user.value !in r[j].readBy
  {
    match user
    case None => books
    case Some(u) => Patch(books, id, (b: Book) => WithoutReader(b, u))
  }

  /** The client and the server disagree on marking read: the server adds a
      reader only once, the client appends every time. They end with the same
      list exactly when the user had not yet read the book; otherwise the
      client lists the user at least twice. */
  lemma MarkReadDiverges(books: seq<Book>, u: Id, id: Id)
    requires UniqueIds(books) && FindBook(books, id).Some?
    ensures var i := FindBook(books, id).value;
      MarkRead(books, Some(u), id) == books[i := WithReader(books[i], u)] <==> u !in books[i].readBy
    ensures var i := FindBook(books, id).value;
      u in books[i].readBy ==> multiset(MarkRead(books, Some(u), id)[i].readBy)[u] >= 2
  {
    var i := FindBook(books, id).value;
    PatchOne(books, id, (b: Book) => b.(readBy := b.readBy + [u]));
    var r := MarkRead(books, Some(u), id);
    if u in books[i].readBy {
      assert |r[i].readBy| != |WithReader(books[i], u).readBy|;
    }
  }

  /** The mark-read update the client evidently means: the user is added to
      `readBy` only when absent, as the server does. */
  function MarkReadOnce(books: seq<Book>, user: Option<Id>, id: Id): (r: seq<Book>)
    ensures user.None? ==> r == books
    ensures |r| == |books|
    ensures user.Some? ==> forall j | 0 <= j < |books| && books[j].id == id ::
      user.value in r[j].readBy && (NoDup(books[j].readBy) ==> NoDup(r[j].readBy))
  {
    match user
    case None => books
    case Some(u) => Patch(books, id, (b: Book) => WithReader(b, u))
  }

  /** The corrected update always agrees with the server, and marking twice
      is marking once. */
  lemma MarkReadOnceAgreesWithServer(books: seq<Book>, u: Id, id: Id)
    requires UniqueIds(books) && FindBook(books, id).Some?
    ensures var i := FindBook(books, id).value;
      MarkReadOnce(books, Some(u), id) == books[i := WithReader(books[i], u)]
    ensures MarkReadOnce(MarkReadOnce(books, Some(u), id), Some(u), id) == MarkReadOnce(books, Some(u), id)
  {
    var i := FindBook(books, id).value;
    PatchOne(books, id, (b: Book) => WithReader(b, u));
    var once := MarkReadOnce(books, Some(u), id);
    var twice := MarkReadOnce(once, Some(u), id);
    forall j | 0 <= j < |books| ensures twice[j] == once[j] {
      if books[j].id == id {
        MarkReadIdempotent(books[j], u);
      }
    }
  }

  /** Unmarking read agrees with the server. */
  lemma UnmarkReadAgreesWithServer(books: seq<Book>, u: Id, id: Id)
    requires UniqueIds(books) && FindBook(books, id).Some?
    ensures var i := FindBook(books, id).value;
      UnmarkRead(books, Some(u), id) == books[i := WithoutReader(books[i], u)]
  {
    PatchOne(books, id, (b: Book) => WithoutReader(b, u));
  }
}
