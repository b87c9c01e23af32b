/** The second prototype's app state: the list of books held in memory and
    the reducers applied to it, and the signed-in user with the page shown.
    Nothing here talks to the server. */
module MockApp {
  import opened Optional
  import opened Seqs
  import opened Text

  /** The fields the book form produces; `pages`, `isbn` and `rating` may be
      absent. */
  datatype BookInfo = BookInfo(
    title: string,
    author: string,
    year: int,
    genre: string,
    description: string,
    coverImage: string,
    pages: Option<int>,
    isbn: Option<string>,
    rating: Option<int>,
    isFavorite: bool)

  /** A book of the list: its id and its fields. */
  datatype LibraryBook = LibraryBook(id: string, info: BookInfo)

  /** The key the genre select, the genre option list and the dashboard's
      genre counts group by. */
  function GenreOf(b: LibraryBook): string {
    b.info.genre
  }

  function Ids(books: seq<LibraryBook>): (r: seq<string>)
    ensures |r| == |books| && forall j | 0 <= j < |books| :: r[j] == books[j].id
  {
    Map(books, (b: LibraryBook) => b.id)
  }

  // ---------------------------------------------------------------- reducers

  /** `handleAddBook`: the new book gets the clock reading `now`, in decimal,
      as its id, and goes at the end. */
  function Add(books: seq<LibraryBook>, info: BookInfo, now: nat): (r: seq<LibraryBook>)
    ensures |r| == |books| + 1 && r[..|books|] == books
    ensures r[|books|].info == info && r[|books|].id == NatToDecimal(now)
  {
    books + [LibraryBook(NatToDecimal(now), info)]
  }

  /** `handleUpdateBook`: the books with that id take the new fields
      wholesale and keep the id. */
  function Update(books: seq<LibraryBook>, id: string, info: BookInfo): (r: seq<LibraryBook>)
    ensures Ids(r) == Ids(books)
    ensures forall j | 0 <= j < |books| :: r[j].info == if books[j].id == id then info else books[j].info
  {
    seq(|books|, j requires 0 <= j < |books| => if books[j].id == id then LibraryBook(id, info) else books[j])
  }

  /** `handleDeleteBook`: every book with that id goes; the rest keep their
      order. */
  function Delete(books: seq<LibraryBook>, id: string): (r: seq<LibraryBook>)
    ensures IsSubseq(r, books)
    ensures forall b :: b in r <==> b in books && b.id != id
  {
    FilterIsSubseq(books, (b: LibraryBook) => b.id != id);
    Filter(books, (b: LibraryBook) => b.id != id)
  }

  /** `handleToggleFavorite`: flips `isFavorite` on the books with that id. */
  function ToggleFavorite(books: seq<LibraryBook>, id: string): (r: seq<LibraryBook>)
    ensures Ids(r) == Ids(books)
    ensures forall j | 0 <= j < |books| ::
      r[j].info.isFavorite == (if books[j].id == id then !books[j].info.isFavorite else books[j].info.isFavorite)
    ensures forall j | 0 <= j < |books| :: r[j].info.(isFavorite := books[j].info.isFavorite) == books[j].info
  {
    seq(|books|, j requires 0 <= j < |books| =>
      var b := books[j];
      if b.id == id then b.(info := b.info.(isFavorite := !b.info.isFavorite)) else b)
  }

  /** `handleRateBook`: sets the rating of the books with that id. */
  function Rate(books: seq<LibraryBook>, id: string, rating: int): (r: seq<LibraryBook>)
    ensures Ids(r) == Ids(books)
    ensures forall j | 0 <= j < |books| ::
      r[j].info.rating == (if books[j].id == id then Some(rating) else books[j].info.rating)
    ensures forall j | 0 <= j < |books| :: r[j].info.(rating := books[j].info.rating) == books[j].info
  {
    seq(|books|, j requires 0 <= j < |books| =>
      var b := books[j];
      if b.id == id then b.(info := b.info.(rating := Some(rating))) else b)
  }

  /** Adding under an id no book has, then deleting that id, gives back the
      list. */
  lemma AddThenDelete(books: seq<LibraryBook>, info: BookInfo, now: nat)
    requires NatToDecimal(now) !in Ids(books)
    ensures Delete(Add(books, info, now), NatToDecimal(now)) == books
  {
    var id := NatToDecimal(now);
    var keep := (b: LibraryBook) => b.id != id;
    assert forall j | 0 <= j < |books| :: keep(books[j]) by {
      assert forall j | 0 <= j < |books| :: Ids(books)[j] == books[j].id;
    }
    FilterConcat(books, [LibraryBook(id, info)], keep);
    FilterAll(books, keep);
  }

  /** Toggling twice changes nothing. */
  lemma ToggleTwice(books: seq<LibraryBook>, id: string)
    ensures ToggleFavorite(ToggleFavorite(books, id), id) == books
  {
    var twice := ToggleFavorite(ToggleFavorite(books, id), id);
    assert forall j | 0 <= j < |books| :: twice[j] == books[j];
  }

  /** Updating a book to its own fields changes nothing, and a second
      identical update changes nothing more. */
  lemma UpdateIdempotent(books: seq<LibraryBook>, id: string, info: BookInfo)
    ensures Update(Update(books, id, info), id, info) == Update(books, id, info)
    ensures (forall j | 0 <= j < |books| && books[j].id == id :: books[j].info == info) ==>
      Update(books, id, info) == books
  {
    var once := Update(books, id, info);
    assert forall j | 0 <= j < |books| :: once[j].id == books[j].id by {
      assert forall j | 0 <= j < |books| :: Ids(once)[j] == Ids(books)[j];
    }
  }

  // ---------------------------------------------------------------- session

  datatype MockUser = MockUser(email: string, name: string)

  datatype Page = LoginPage | SignupPage | LibraryPage

  /** `currentUser` and `currentPage`. */
  datatype Session = Session(user: Option<MockUser>, page: Page)

  const Start := Session(None, LoginPage)

  /** What is on screen: the library for a signed-in user, otherwise the
      login page, or the signup page when that was chosen. */
  datatype Screen = LoginScreen | SignupScreen | LibraryScreen(user: MockUser)

  function ScreenOf(s: Session): (r: Screen)
    ensures s.user.Some? <==> r.LibraryScreen?
    ensures r.LibraryScreen? ==> r.user == s.user.value
    ensures r == LoginScreen <==> s.user.None? && s.page == LoginPage
  {
    match s.user
    case Some(u) => LibraryScreen(u)
    case None => if s.page == LoginPage then LoginScreen else SignupScreen
  }

  /** `email.split('@')[0]`: the email up to its first '@'. */
  function NameFromEmail(email: string): (r: string)
    ensures '@' !in r
    ensures |r| <= |email| && email[..|r|] == r
    ensures |r| < |email| ==> email[|r|] == '@'
  {
    SplitFirst(email, '@');
    Split(email, '@')[0]
  }

  /** `handleLogin`: any email and password sign in. */
  function Login(s: Session, email: string, password: string): (r: Session)
    ensures ScreenOf(r) == LibraryScreen(MockUser(email, NameFromEmail(email)))
  {
    Session(Some(MockUser(email, NameFromEmail(email))), LibraryPage)
  }

  /** `handleSignup`: signs in under the given name. */
  function Signup(s: Session, name: string, email: string, password: string): (r: Session)
    ensures ScreenOf(r) == LibraryScreen(MockUser(email, name))
  {
    Session(Some(MockUser(email, name)), LibraryPage)
  }

  /** `handleLogout`: back to the login page with nobody signed in. */
  function Logout(s: Session): (r: Session)
    ensures ScreenOf(r) == LoginScreen
  {
    Start
  }

  /** The name taken from an email without '@' is the whole email; with one,
      it is what precedes the first. */
  lemma NameFromEmailExamples(local: string, domain: string)
    requires '@' !in local
    ensures NameFromEmail(local) == local
    ensures NameFromEmail(local + "@" + domain) == local
  {
    SplitWhole(local, '@');
    SplitAfter(local, '@', domain);
  }
}
