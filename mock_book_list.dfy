/** The second prototype's book list: the option lists of the filter
    selects, the filtered list, and the grid, by-author or by-year display
    built from dictionaries filled by a loop over the filtered books. */
module MockBookList {
  import opened Seqs
  import opened Text
  import opened Sorting
  import opened Grouping
  import opened MockApp

  function AuthorOf(b: LibraryBook): string {
    b.info.author
  }

  function YearOf(b: LibraryBook): int {
    b.info.year
  }

  // ---------------------------------------------------------------- option lists

  /** `Array.from(new Set(books.map(b => b.author))).sort()`. */
  function Authors(books: seq<LibraryBook>): (r: seq<string>)
    ensures Increasing(r, ByName()) && NoDup(r)
    ensures forall a :: a in r <==> exists i | 0 <= i < |books| :: books[i].info.author == a
  {
    ByNameIsStrictTotalOrder();
    var r := SortedSet(DistinctKeys(books, AuthorOf), ByName());
    IncreasingNoDup(r, ByName());
    DistinctKeysMembers(books, AuthorOf);
    r
  }

  /** `Array.from(new Set(books.map(b => b.year))).sort((a, b) => b - a)`. */
  function Years(books: seq<LibraryBook>): (r: seq<int>)
    ensures Increasing(r, Newest()) && NoDup(r)
    ensures forall i, j | 0 <= i < j < |r| :: r[i] > r[j]
    ensures forall y :: y in r <==> exists i | 0 <= i < |books| :: books[i].info.year == y
  {
    NewestIsStrictTotalOrder();
    var r := SortedSet(DistinctKeys(books, YearOf), Newest());
    IncreasingNoDup(r, Newest());
    DistinctKeysMembers(books, YearOf);
    r
  }

  /** `Array.from(new Set(books.map(b => b.genre))).sort()`. */
  function Genres(books: seq<LibraryBook>): (r: seq<string>)
    ensures Increasing(r, ByName()) && NoDup(r)
    ensures forall g :: g in r <==> exists i | 0 <= i < |books| :: books[i].info.genre == g
  {
    ByNameIsStrictTotalOrder();
    var r := SortedSet(DistinctKeys(books, GenreOf), ByName());
    IncreasingNoDup(r, ByName());
    DistinctKeysMembers(books, GenreOf);
    r
  }

  // ---------------------------------------------------------------- filtering

  /** The search box and the three selects; "all" selects everything. The
      year select holds the year as text. */
  datatype Selection = Selection(query: string, author: string, year: string, genre: string)

  const Everything := Selection("", "all", "all", "all")

  /** One book against the search text and the three selects, all of which
      must agree. */
  predicate Matches(b: LibraryBook, sel: Selection) {
    && (Includes(Lower(b.info.title), Lower(sel.query)) || Includes(Lower(b.info.author), Lower(sel.query)))
    && (sel.author == "all" || b.info.author == sel.author)
    && (sel.year == "all" || IntToDecimal(b.info.year) == sel.year)
    && (sel.genre == "all" || b.info.genre == sel.genre)
  }

  /** `filteredBooks`. */
  function FilteredBooks(books: seq<LibraryBook>, sel: Selection): (r: seq<LibraryBook>)
    ensures IsSubseq(r, books)
    ensures forall b :: b in r <==> b in books && Matches(b, sel)
  {
    FilterIsSubseq(books, (b: LibraryBook) => Matches(b, sel));
    Filter(books, (b: LibraryBook) => Matches(b, sel))
  }

  /** An empty search with every select on "all" shows every book. */
  lemma EverythingShown(books: seq<LibraryBook>)
    ensures FilteredBooks(books, Everything) == books
  {
    forall i | 0 <= i < |books| ensures Matches(books[i], Everything) {
      assert StartsWith(Lower(books[i].info.title), Lower(""));
    }
    FilterAll(books, (b: LibraryBook) => Matches(b, Everything));
  }

  /** Choosing a year from the year list keeps exactly the books of that
      year: comparing the year's text is comparing the year. */
  lemma YearSelectExact(books: seq<LibraryBook>, sel: Selection, y: int)
    requires sel.year == IntToDecimal(y)
    ensures forall b | b in FilteredBooks(books, sel) :: b.info.year == y
  {
    forall b | b in FilteredBooks(books, sel) ensures b.info.year == y {
      IntToDecimalInjective(b.info.year, y);
    }
  }

  // ---------------------------------------------------------------- display

  datatype View =
    | NoResults
    | Grid(books: seq<LibraryBook>)
    | ByAuthor(authors: seq<Section<string, LibraryBook>>)
    | ByYear(years: seq<Section<int, LibraryBook>>)

  /** The author keys of the grouping dictionary, sorted by name. */
  function AuthorOrder(shown: seq<LibraryBook>): (r: seq<string>)
    ensures Increasing(r, ByName())
    ensures forall a :: a in r <==> a in DistinctKeys(shown, AuthorOf)
  {
    ByNameIsStrictTotalOrder();
    SortedSet(DistinctKeys(shown, AuthorOf), ByName())
  }

  /** `booksByAuthor` with its entries sorted by author. */
  method AuthorSections(shown: seq<LibraryBook>) returns (r: seq<Section<string, LibraryBook>>)
    ensures r == Sections(AuthorOrder(shown), shown, AuthorOf)
  {
    var authors, grouped := GroupBy(shown, AuthorOf);
    var order := AuthorOrder(shown);
    assert forall j | 0 <= j < |order| :: order[j] in grouped;
    r := seq(|order|, j requires 0 <= j < |order| => Section(order[j], grouped[order[j]]));
    assert forall j | 0 <= j < |order| :: r[j] == Sections(order, shown, AuthorOf)[j];
  }

  /** `booksByYear` with its entries sorted by year, largest first. */
  method YearSections(shown: seq<LibraryBook>) returns (r: seq<Section<int, LibraryBook>>)
    ensures r == Sections(KeysNewestFirst(shown, YearOf), shown, YearOf)
  {
    var years, grouped := GroupBy(shown, YearOf);
    var order := KeysNewestFirst(shown, YearOf);
    assert forall j | 0 <= j < |order| :: order[j] in grouped;
    r := seq(|order|, j requires 0 <= j < |order| => Section(order[j], grouped[order[j]]));
    assert forall j | 0 <= j < |order| :: r[j] == Sections(order, shown, YearOf)[j];
  }

  /** The display: a notice when nothing matches, else the grid, the author
      sections, or, for any other mode, the year sections. */
  method Render(books: seq<LibraryBook>, sel: Selection, mode: string) returns (v: View)
    ensures FilteredBooks(books, sel) == [] ==> v == NoResults
    ensures FilteredBooks(books, sel) != [] && mode == "grid" ==> v == Grid(FilteredBooks(books, sel))
    ensures FilteredBooks(books, sel) != [] && mode == "by-author" ==>
      v == ByAuthor(Sections(AuthorOrder(FilteredBooks(books, sel)), FilteredBooks(books, sel), AuthorOf))
    ensures FilteredBooks(books, sel) != [] && mode != "grid" && mode != "by-author" ==>
      v == ByYear(Sections(KeysNewestFirst(FilteredBooks(books, sel), YearOf), FilteredBooks(books, sel), YearOf))
  {
    var shown := FilteredBooks(books, sel);
    if shown == [] {
      v := NoResults;
    } else if mode == "grid" {
      v := Grid(shown);
    } else if mode == "by-author" {
      var sections := AuthorSections(shown);
      v := ByAuthor(sections);
    } else {
      var sections := YearSections(shown);
      v := ByYear(sections);
    }
  }

  /** The author view shows every matching book exactly once, each section
      holds exactly its author's matching books in list order, and authors
      are in name order. */
  lemma AuthorViewSound(shown: seq<LibraryBook>)
    ensures var sections := Sections(AuthorOrder(shown), shown, AuthorOf);
      && multiset(Shown(sections)) == multiset(shown)
      && (forall j | 0 <= j < |sections| :: IsSubseq(sections[j].items, shown))
      && (forall j, b | 0 <= j < |sections| :: b in sections[j].items <==> b in shown && b.info.author == sections[j].key)
      && (forall i, j | 0 <= i < j < |sections| :: Less(sections[i].key, sections[j].key))
  {
    var ks := AuthorOrder(shown);
    ByNameIsStrictTotalOrder();
    IncreasingNoDup(ks, ByName());
    DistinctKeysSound(shown, AuthorOf);
    SectionsPartition(ks, shown, AuthorOf);
  }

  /** The year view shows every matching book exactly once, each section
      holds exactly that year's matching books in list order, and years
      strictly decrease. */
  lemma YearViewSound(shown: seq<LibraryBook>)
    ensures var sections := Sections(KeysNewestFirst(shown, YearOf), shown, YearOf);
      && multiset(Shown(sections)) == multiset(shown)
      && (forall j | 0 <= j < |sections| :: IsSubseq(sections[j].items, shown))
      && (forall j, b | 0 <= j < |sections| :: b in sections[j].items <==> b in shown && b.info.year == sections[j].key)
      && (forall i, j | 0 <= i < j < |sections| :: sections[i].key > sections[j].key)
  {
    var ks := KeysNewestFirst(shown, YearOf);
    NewestIsStrictTotalOrder();
    IncreasingNoDup(ks, Newest());
    DistinctKeysSound(shown, YearOf);
    SectionsPartition(ks, shown, YearOf);
  }
}
