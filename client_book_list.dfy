/** The first client's book list: an empty state, a grid, sections by
    author in order of first appearance, or sections by year, newest first.
    The sections come from dictionaries filled by a `reduce` over the books. */
module ClientBookList {
  import opened Seqs
  import opened Sorting
  import opened Grouping
  import opened Catalogue

  function AuthorOf(b: Book): string {
    b.author
  }

  function YearOf(b: Book): int {
    b.year
  }

  datatype View =
    | EmptyState
    | Grid(books: seq<Book>)
    | ByAuthor(authors: seq<Section<string, Book>>)
    | ByYear(years: seq<Section<int, Book>>)
    | Nothing

  /** The author sections from the grouping dictionary, in the order
      `Object.entries` lists its keys. */
  method AuthorSections(books: seq<Book>) returns (r: seq<Section<string, Book>>)
    ensures r == Sections(DistinctKeys(books, AuthorOf), books, AuthorOf)
  {
    var authors, byAuthor := GroupBy(books, AuthorOf);
    r := seq(|authors|, j requires 0 <= j < |authors| => Section(authors[j], byAuthor[authors[j]]));
    assert forall j | 0 <= j < |authors| :: r[j] == Sections(authors, books, AuthorOf)[j];
  }

  /** The year sections from the grouping dictionary, newest year first. */
  method YearSections(books: seq<Book>) returns (r: seq<Section<int, Book>>)
    ensures r == Sections(KeysNewestFirst(books, YearOf), books, YearOf)
  {
    var years, byYear := GroupBy(books, YearOf);
    var order := KeysNewestFirst(books, YearOf);
    assert forall j | 0 <= j < |order| :: order[j] in byYear;
    r := seq(|order|, j requires 0 <= j < |order| => Section(order[j], byYear[order[j]]));
    assert forall j | 0 <= j < |order| :: r[j] == Sections(order, books, YearOf)[j];
  }

  /** `BookList({ books, viewMode })`. */
  method Render(books: seq<Book>, mode: string) returns (v: View)
    ensures books == [] ==> v == EmptyState
    ensures books != [] && mode == "grid" ==> v == Grid(books)
    ensures books != [] && mode == "by-author" ==>
      v == ByAuthor(Sections(DistinctKeys(books, AuthorOf), books, AuthorOf))
    ensures books != [] && mode == "by-year" ==>
      v == ByYear(Sections(KeysNewestFirst(books, YearOf), books, YearOf))
    ensures books != [] && mode != "grid" && mode != "by-author" && mode != "by-year" ==> v == Nothing
  {
    if books == [] {
      v := EmptyState;
    } else if mode == "grid" {
      v := Grid(books);
    } else if mode == "by-author" {
      var sections := AuthorSections(books);
      v := ByAuthor(sections);
    } else if mode == "by-year" {
      var sections := YearSections(books);
      v := ByYear(sections);
    } else {
      v := Nothing;
    }
  }

  /** The author view shows every book exactly once, and each author's
      section holds exactly that author's books, in list order. */
  lemma AuthorViewPartition(books: seq<Book>)
    ensures var sections := Sections(DistinctKeys(books, AuthorOf), books, AuthorOf);
      && multiset(Shown(sections)) == multiset(books)
      && (forall j | 0 <= j < |sections| :: IsSubseq(sections[j].items, books))
      && (forall j, b | 0 <= j < |sections| :: b in sections[j].items <==> b in books && b.author == sections[j].key)
  {
    DistinctKeysSound(books, AuthorOf);
    SectionsPartition(DistinctKeys(books, AuthorOf), books, AuthorOf);
  }

  /** Authors appear in the order their first book does: the authors met
      among the first `n` books head the sections, in the order met. */
  lemma AuthorOrderFirstSeen(books: seq<Book>, n: nat)
    requires n <= |books|
    ensures var met := DistinctKeys(books[..n], AuthorOf);
      var sections := Sections(DistinctKeys(books, AuthorOf), books, AuthorOf);
      |met| <= |sections| && forall j | 0 <= j < |met| :: sections[j].key == met[j]
  {
    DistinctKeysPrefix(books, AuthorOf, n);
    var d := DistinctKeys(books, AuthorOf);
    var met := DistinctKeys(books[..n], AuthorOf);
    assert forall j | 0 <= j < |met| :: d[..|met|][j] == d[j];
  }

  /** The year view shows every book exactly once, each section holds
      exactly the books of its year in list order, and years strictly
      decrease down the page. */
  lemma YearViewSound(books: seq<Book>)
    ensures var sections := Sections(KeysNewestFirst(books, YearOf), books, YearOf);
      && multiset(Shown(sections)) == multiset(books)
      && (forall j | 0 <= j < |sections| :: IsSubseq(sections[j].items, books))
      && (forall j, b | 0 <= j < |sections| :: b in sections[j].items <==> b in books && b.year == sections[j].key)
      && (forall i, j | 0 <= i < j < |sections| :: sections[i].key > sections[j].key)
  {
    var ks := KeysNewestFirst(books, YearOf);
    NewestIsStrictTotalOrder();
    IncreasingNoDup(ks, Newest());
    DistinctKeysSound(books, YearOf);
    SectionsPartition(ks, books, YearOf);
  }
}
