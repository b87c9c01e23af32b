/** The records of the catalogue service and the rules its handlers apply to
    them: users, books, favorite relations, the defaulting of a new book, the
    field-by-field update rule, lazily generated reading text and search.
    The handlers themselves, which load the stores, change them and write
    them back, are the methods of `Server.Service`. */
module Catalogue {
  import opened Optional
  import opened Seqs
  import opened Text

  type Id = string

  // ---------------------------------------------------------------- records

  /** A stored JSON value that may be `null`. */
  datatype Nullable<T> = Null | NonNull(value: T)

  /** A field of a request body: left out (`undefined`), sent as `null`, or
      given a value. */
  datatype Field<T> = Missing | JsonNull | Given(v: T)

  datatype User = User(id: Id, name: string, email: string, password: string)

  /** What signup and login answer with: a user without the password. */
  datatype PublicUser = PublicUser(id: Id, name: string, email: string)

  datatype Book = Book(
    id: Id,
    title: string,
    author: string,
    year: int,
    genre: string,
    coverImage: Nullable<string>,
    content: Nullable<string>,
    rating: Nullable<int>,
    createdAt: string,
    favorites: seq<Id>,
    readBy: seq<Id>)

  /** One row of the favorites store. */
  datatype Favorite = Favorite(userId: Id, bookId: Id)

  /** The body of a create or update request. */
  datatype BookBody = BookBody(
    title: Field<string>,
    author: Field<string>,
    year: Field<int>,
    genre: Field<string>,
    coverImage: Field<string>,
    rating: Field<int>,
    content: Field<string>)

  /** The failures a handler answers with: 400, 401 and 404 responses. */
  datatype Error =
    | MissingFields        // 400: a required field is falsy
    | EmailExists          // 400
    | InvalidCredentials   // 401
    | BookNotFound         // 404
    | MissingUserId        // 400
    | AlreadyFavorited     // 400

  datatype Result<T> = Ok(value: T) | Err(error: Error)

  /** JavaScript truthiness of a body field: present, not null, not "" / 0. */
  predicate TruthyText(f: Field<string>) {
    f.Given? && f.v != ""
  }

  predicate TruthyNumber(f: Field<int>) {
    f.Given? && f.v != 0
  }

  function Public(u: User): (p: PublicUser)
    ensures p.id == u.id && p.name == u.name && p.email == u.email
  {
    PublicUser(u.id, u.name, u.email)
  }

  // ---------------------------------------------------------------- lookups

  predicate HasBook(books: seq<Book>, id: Id) {
    exists i | 0 <= i < |books| :: books[i].id == id
  }

  /** `books.findIndex(b => b.id === id)`, with `None` for -1. */
  function FindBook(books: seq<Book>, id: Id): (r: Option<nat>)
    ensures r.None? <==> !HasBook(books, id)
    ensures r.Some? ==> r.value < |books| && books[r.value].id == id
    ensures r.Some? ==> forall j | 0 <= j < r.value :: books[j].id != id
    decreases |books|
  {
    if books == [] then None
    else if books[0].id == id then Some(0)
    else
      match FindBook(books[1..], id)
      case None =>
        assert forall i | 1 <= i < |books| :: books[i] == books[1..][i - 1];
        None
      case Some(k) => Some(k + 1)
  }

  predicate EmailTaken(users: seq<User>, email: string) {
    exists i | 0 <= i < |users| :: users[i].email == email
  }

  /** `users.find(u => u.email === email && u.password === password)`. */
  function FindLogin(users: seq<User>, email: string, password: string): (r: Option<nat>)
    ensures r.None? <==> forall i | 0 <= i < |users| :: !(users[i].email == email && users[i].password == password)
    ensures r.Some? ==> r.value < |users| && users[r.value].email == email && users[r.value].password == password
    ensures r.Some? ==> forall j | 0 <= j < r.value :: !(users[j].email == email && users[j].password == password)
    decreases |users|
  {
    if users == [] then None
    else if users[0].email == email && users[0].password == password then Some(0)
    else
      match FindLogin(users[1..], email, password)
      case None =>
        assert forall i | 1 <= i < |users| :: users[i] == users[1..][i - 1];
        None
      case Some(k) => Some(k + 1)
  }

  /** No two users share an email address: what signup's duplicate check keeps. */
  predicate UniqueEmails(users: seq<User>) {
    forall i, j | 0 <= i < j < |users| :: users[i].email != users[j].email
  }

  /** After a signup that passed the duplicate check, logging in with the new
      email and password finds the new user, and emails stay unique. */
  lemma SignupThenLogin(users: seq<User>, u: User)
    requires !EmailTaken(users, u.email)
    ensures FindLogin(users + [u], u.email, u.password) == Some(|users|)
    ensures UniqueEmails(users) ==> UniqueEmails(users + [u])
  {
    var all := users + [u];
    assert forall i | 0 <= i < |users| :: all[i] == users[i] && users[i].email != u.email;
    assert all[|users|] == u;
  }

  // ---------------------------------------------------------------- create and update

  /** `value || null` for an optional text field. */
  function OrNull(f: Field<string>): (r: Nullable<string>)
    ensures r.NonNull? <==> TruthyText(f)
    ensures r.NonNull? ==> r.value == f.v
  {
    if TruthyText(f) then NonNull(f.v) else Null
  }

  /** Create requires a truthy title, author, year and genre. */
  predicate CreateAccepted(body: BookBody) {
    TruthyText(body.title) && TruthyText(body.author) && TruthyNumber(body.year) && TruthyText(body.genre)
  }

  /** The record a successful create stores and answers with. */
  function NewBook(body: BookBody, id: Id, createdAt: string): (b: Book)
    requires CreateAccepted(body)
    ensures b.id == id && b.createdAt == createdAt
    ensures b.title == body.title.v && b.author == body.author.v
    ensures b.year == body.year.v && b.genre == body.genre.v
    ensures b.coverImage == OrNull(body.coverImage) && b.content == OrNull(body.content)
    ensures b.rating == NonNull(if TruthyNumber(body.rating) then body.rating.v else 0)
    ensures b.favorites == [] && b.readBy == []
  {
    Book(id, body.title.v, body.author.v, body.year.v, body.genre.v,
         OrNull(body.coverImage), OrNull(body.content),
         NonNull(if TruthyNumber(body.rating) then body.rating.v else 0),
         createdAt, [], [])
  }

  /** `if (value !== undefined) field = value`: a field sent as `null` or as a
      falsy value is stored as sent. */
  function Assigned<T>(f: Field<T>, current: Nullable<T>): Nullable<T> {
    match f
    case Missing => current
    case JsonNull => Null
    case Given(v) => NonNull(v)
  }

  /** The book after an update with `body`: title, author, year, genre and
      cover image change only to truthy values; content and rating change
      whenever the body carries them. */
  function ApplyUpdate(b: Book, body: BookBody): (r: Book)
    ensures r.id == b.id && r.createdAt == b.createdAt
    ensures r.favorites == b.favorites && r.readBy == b.readBy
  {
    b.(title := if TruthyText(body.title) then body.title.v else b.title,
       author := if TruthyText(body.author) then body.author.v else b.author,
       year := if TruthyNumber(body.year) then body.year.v else b.year,
       genre := if TruthyText(body.genre) then body.genre.v else b.genre,
       coverImage := if TruthyText(body.coverImage) then NonNull(body.coverImage.v) else b.coverImage,
       content := Assigned(body.content, b.content),
       rating := Assigned(body.rating, b.rating))
  }

  /** What the update rule promises, field by field: a truthy title, author,
      year, genre or cover image is stored, a falsy or absent one never
      overwrites the stored value, while content and rating take every value
      the body carries, 0, null and "" included. */
  lemma UpdateRule(b: Book, body: BookBody)
    ensures var r := ApplyUpdate(b, body);
      && (TruthyText(body.title) ==> r.title == body.title.v)
      && (!TruthyText(body.title) ==> r.title == b.title)
      && (TruthyText(body.author) ==> r.author == body.author.v)
      && (!TruthyText(body.author) ==> r.author == b.author)
      && (TruthyNumber(body.year) ==> r.year == body.year.v)
      && (!TruthyNumber(body.year) ==> r.year == b.year)
      && (TruthyText(body.genre) ==> r.genre == body.genre.v)
      && (!TruthyText(body.genre) ==> r.genre == b.genre)
      && (TruthyText(body.coverImage) ==> r.coverImage == NonNull(body.coverImage.v))
      && (!TruthyText(body.coverImage) ==> r.coverImage == b.coverImage)
      && (body.content == JsonNull ==> r.content == Null)
      && (body.content.Given? ==> r.content == NonNull(body.content.v))
      && (body.content.Missing? ==> r.content == b.content)
      && (body.rating == JsonNull ==> r.rating == Null)
      && (body.rating.Given? ==> r.rating == NonNull(body.rating.v))
      && (body.rating.Missing? ==> r.rating == b.rating)
  {
  }

  /** Sending the same update twice has the effect of sending it once. */
  lemma UpdateIdempotent(b: Book, body: BookBody)
    ensures ApplyUpdate(ApplyUpdate(b, body), body) == ApplyUpdate(b, body)
  {
  }

  /** Updating a freshly created book with the very body that created it
      changes it exactly when that body carries an empty content (create
      stores null, update stores "") or a null rating (create stores 0,
      update stores null). */
  lemma CreateThenUpdate(body: BookBody, id: Id, createdAt: string)
    requires CreateAccepted(body)
    ensures ApplyUpdate(NewBook(body, id, createdAt), body) == NewBook(body, id, createdAt)
      <==> body.content != Given("") && body.rating != JsonNull
  {
    var b := NewBook(body, id, createdAt);
    var r := ApplyUpdate(b, body);
    if body.content == Given("") {
      assert r.content != b.content;
    }
    if body.rating == JsonNull {
      assert r.rating != b.rating;
    }
  }

  // ---------------------------------------------------------------- content

  /** Stored content longer than 500 characters is served as it is. The
      length counts Unicode scalar values, where JavaScript counts UTF-16
      code units. */
  predicate HasLongContent(b: Book) {
    b.content.NonNull? && |b.content.value| > 500
  }

  /** The opening of the generated text: the stored content if truthy, else a
      sentence naming the title. */
  function Intro(b: Book): string {
    if b.content.NonNull? && b.content.value != "" then b.content.value
    else "This is the story of " + b.title + "."
  }

  /** `n` copies of `s`. */
  function Repeat(s: string, n: nat): (r: string)
    ensures |r| == |s| * n
  {
    if n == 0 then "" else Repeat(s, n - 1) + s
  }

  /** The generated chapters after the intro: fixed text interpolating the
      title, author, lower-cased genre and year. The wording is not the
      source's; the model keeps its shape and its length. */
  function Chapters(b: Book): (r: string)
    ensures |r| > 500
  {
    "\n\n" + b.title + " by " + b.author + " is a work of " + Lower(b.genre)
      + " literature, written in " + IntToDecimal(b.year) + "."
      + Repeat("\n\nThe story continues, chapter after chapter.", 16)
  }

  /** `generateBookContent(book)`. */
  function GenerateBookContent(b: Book): (r: string)
    ensures |r| > 500
  {
    Intro(b) + Chapters(b)
  }

  /** The text the content handler answers with for a found book. */
  function ContentFor(b: Book): (r: string)
    ensures HasLongContent(b) ==> r == b.content.value
    ensures !HasLongContent(b) ==> r == Intro(b) + Chapters(b)
  {
    if HasLongContent(b) then b.content.value else GenerateBookContent(b)
  }

  /** The content handler is stable: once it has stored the text it served,
      the next request serves the same text and writes nothing. */
  lemma {:induction false} ContentStable(b: Book)
    ensures var b' := b.(content := NonNull(ContentFor(b)));
      HasLongContent(b') && ContentFor(b') == ContentFor(b)
  {
    var t := ContentFor(b);
    if !HasLongContent(b) {
      assert t == GenerateBookContent(b);
    }
  }

  /** Generated text begins with the stored content, when there is any. */
  lemma GeneratedKeepsContent(b: Book)
    requires b.content.NonNull? && b.content.value != "" && !HasLongContent(b)
    ensures StartsWith(ContentFor(b), b.content.value)
  {
    var t := ContentFor(b);
    assert t[..|b.content.value|] == b.content.value;
  }

  // ---------------------------------------------------------------- search

  /** `b.title.toLowerCase().includes(q.toLowerCase()) || b.author...`. */
  predicate MatchesQuery(b: Book, q: string) {
    Includes(Lower(b.title), Lower(q)) || Includes(Lower(b.author), Lower(q))
  }

  /** The three search filters; an empty parameter is an absent one. */
  predicate SearchHit(b: Book, q: string, genre: string, author: string) {
    && (q == "" || MatchesQuery(b, q))
    && (genre == "" || b.genre == genre)
    && (author == "" || b.author == author)
  }

  /** The search handler's chain of filters, each applied only when its
      parameter is truthy. */
  function SearchResults(books: seq<Book>, q: string, genre: string, author: string): seq<Book> {
    var byQuery := if q != "" then Filter(books, (b: Book) => MatchesQuery(b, q)) else books;
    var byGenre := if genre != "" then Filter(byQuery, (b: Book) => b.genre == genre) else byQuery;
    if author != "" then Filter(byGenre, (b: Book) => b.author == author) else byGenre
  }

  /** Search keeps exactly the books that pass every supplied filter, in
      their stored order. */
  lemma SearchSound(books: seq<Book>, q: string, genre: string, author: string)
    ensures IsSubseq(SearchResults(books, q, genre, author), books)
    ensures forall b :: b in SearchResults(books, q, genre, author) <==> b in books && SearchHit(b, q, genre, author)
  {
    var byQuery := if q != "" then Filter(books, (b: Book) => MatchesQuery(b, q)) else books;
    var byGenre := if genre != "" then Filter(byQuery, (b: Book) => b.genre == genre) else byQuery;
    var r := SearchResults(books, q, genre, author);
    if q != "" {
      FilterIsSubseq(books, (b: Book) => MatchesQuery(b, q));
    } else {
      SubseqRefl(books);
    }
    if genre != "" {
      FilterIsSubseq(byQuery, (b: Book) => b.genre == genre);
      SubseqTransitive(byGenre, byQuery, books);
    }
    if author != "" {
      FilterIsSubseq(byGenre, (b: Book) => b.author == author);
      SubseqTransitive(r, byGenre, books);
    }
  }

  /** The query is case-insensitive: searching for a lower-cased query finds
      the same books. */
  lemma SearchIgnoresCase(books: seq<Book>, q: string, genre: string, author: string)
    ensures SearchResults(books, Lower(q), genre, author) == SearchResults(books, q, genre, author)
  {
    LowerIdempotent(q);
    LowerNonEmpty(q);
    FilterExt(books, (b: Book) => MatchesQuery(b, Lower(q)), (b: Book) => MatchesQuery(b, q));
  }

  /** With no parameter, search answers with every book. */
  lemma SearchUnfiltered(books: seq<Book>)
    ensures SearchResults(books, "", "", "") == books
  {
  }

  // ---------------------------------------------------------------- the store invariant

  /** Book ids are unique (they come from `uuidv4`). */
  predicate UniqueIds(books: seq<Book>) {
    forall i, j | 0 <= i < j < |books| :: books[i].id != books[j].id
  }

  /** A book lists each user at most once as favorite and as reader. */
  predicate ListsUnique(books: seq<Book>) {
    forall i | 0 <= i < |books| :: NoDup(books[i].favorites) && NoDup(books[i].readBy)
  }

  /** Every favorite relation names a stored book. */
  predicate RelationsResolve(books: seq<Book>, favorites: seq<Favorite>) {
    forall k | 0 <= k < |favorites| :: HasBook(books, favorites[k].bookId)
  }

  /** The two copies of a favorite agree: a user is in a book's `favorites`
      exactly when the relation store holds that pair. */
  ghost predicate Mirrored(books: seq<Book>, favorites: seq<Favorite>) {
    forall i, u | 0 <= i < |books| :: u in books[i].favorites <==> Favorite(u, books[i].id) in favorites
  }

  ghost predicate Consistent(books: seq<Book>, favorites: seq<Favorite>) {
    && UniqueIds(books)
    && ListsUnique(books)
    && NoDup(favorites)
    && RelationsResolve(books, favorites)
    && Mirrored(books, favorites)
  }

  // ---------------------------------------------------------------- store changes

  /** `books[i].favorites.push(u)` together with `favorites.push({u, id})`. */
  function AddFavoriteTo(books: seq<Book>, i: nat, u: Id): (r: seq<Book>)
    requires i < |books|
    ensures |r| == |books| && r[i].favorites == books[i].favorites + [u]
    ensures r[i] == books[i].(favorites := books[i].favorites + [u])
    ensures forall j | 0 <= j < |books| && j != i :: r[j] == books[j]
  {
    books[i := books[i].(favorites := books[i].favorites + [u])]
  }

  /** `books[i].favorites = books[i].favorites.filter(id => id !== u)`. */
  function RemoveFavoriteFrom(books: seq<Book>, i: nat, u: Id): (r: seq<Book>)
    requires i < |books|
    ensures |r| == |books| && u !in r[i].favorites
    ensures r[i] == books[i].(favorites := RemoveAll(books[i].favorites, u))
    ensures forall j | 0 <= j < |books| && j != i :: r[j] == books[j]
  {
    books[i := books[i].(favorites := RemoveAll(books[i].favorites, u))]
  }

  /** `if (!readBy.includes(u)) readBy.push(u)`. */
  function WithReader(b: Book, u: Id): (r: Book)
    ensures u in r.readBy
    ensures u in b.readBy ==> r == b
    ensures u !in b.readBy ==> r == b.(readBy := b.readBy + [u])
    ensures NoDup(b.readBy) ==> NoDup(r.readBy)
  {
    if u in b.readBy then b else b.(readBy := b.readBy + [u])
  }

  /** `readBy = readBy.filter(id => id !== u)`. */
  function WithoutReader(b: Book, u: Id): (r: Book)
    ensures u !in r.readBy
    ensures forall v | v != u :: v in r.readBy <==> v in b.readBy
    ensures r == b.(readBy := r.readBy)
    ensures NoDup(b.readBy) ==> NoDup(r.readBy)
  {
    b.(readBy := RemoveAll(b.readBy, u))
  }

  /** Unmarking undoes marking: a user who had not read the book is back to
      not having read it, and the book is as before. */
  lemma ReadRoundTrip(b: Book, u: Id)
    requires u !in b.readBy
    ensures WithoutReader(WithReader(b, u), u) == b
  {
    var s := b.readBy + [u];
    assert s[..|s| - 1] == b.readBy;
  }

  /** Marking twice is marking once. */
  lemma MarkReadIdempotent(b: Book, u: Id)
    ensures WithReader(WithReader(b, u), u) == WithReader(b, u)
  {
  }

  /** `favorites.filter(f => f.bookId !== id)`: the relations left after a
      delete. */
  function WithoutBook(favorites: seq<Favorite>, id: Id): (r: seq<Favorite>)
    ensures forall f :: f in r <==> f in favorites && f.bookId != id
    ensures NoDup(favorites) ==> NoDup(r)
    ensures IsSubseq(r, favorites)
  {
    var r := Filter(favorites, (f: Favorite) => f.bookId != id);
    FilterIsSubseq(favorites, (f: Favorite) => f.bookId != id);
    assert NoDup(favorites) ==> NoDup(r) by {
      if NoDup(favorites) {
        FilterNoDup(favorites, (f: Favorite) => f.bookId != id);
      }
    }
    r
  }

  /** With unique ids, splicing out the book at `i` is removing every book
      with its id, the way the client deletes. */
  lemma SpliceIsFilter(books: seq<Book>, i: nat)
    requires UniqueIds(books) && i < |books|
    ensures books[..i] + books[i + 1..] == Filter(books, (b: Book) => b.id != books[i].id)
  {
    FilterDropOne(books, (b: Book) => b.id != books[i].id, i);
  }

  /** Replacing one book by a version with the same id and favorites, and no
      duplicate readers, keeps the store consistent: update, content
      generation, mark-read and unmark-read all change a book this way. */
  lemma ReplaceKeepsConsistent(books: seq<Book>, favorites: seq<Favorite>, i: nat, b: Book)
    requires Consistent(books, favorites) && i < |books|
    requires b.id == books[i].id && b.favorites == books[i].favorites && NoDup(b.readBy)
    ensures Consistent(books[i := b], favorites)
  {
    var r := books[i := b];
    forall k | 0 <= k < |favorites| ensures HasBook(r, favorites[k].bookId) {
      var j :| 0 <= j < |books| && books[j].id == favorites[k].bookId;
      assert r[j].id == books[j].id;
    }
  }

  /** Adding a favorite for a stored book and a new pair keeps both copies in
      step. */
  lemma AddFavoriteKeepsConsistent(books: seq<Book>, favorites: seq<Favorite>, i: nat, u: Id)
    requires Consistent(books, favorites) && i < |books|
    requires Favorite(u, books[i].id) !in favorites
    ensures Consistent(AddFavoriteTo(books, i, u), favorites + [Favorite(u, books[i].id)])
  {
    var r := AddFavoriteTo(books, i, u);
    var f := favorites + [Favorite(u, books[i].id)];
    assert u !in books[i].favorites;
    forall k | 0 <= k < |f| ensures HasBook(r, f[k].bookId) {
      if k < |favorites| {
        var j :| 0 <= j < |books| && books[j].id == favorites[k].bookId;
        assert r[j].id == books[j].id;
      } else {
        assert r[i].id == books[i].id;
      }
    }
    forall j, v | 0 <= j < |r| ensures v in r[j].favorites <==> Favorite(v, r[j].id) in f {
      if j != i {
        assert books[j].id != books[i].id;
      }
    }
  }

  /** Removing a favorite pair, and the user from that book's list, keeps both
      copies in step, whether or not the pair was stored. */
  lemma RemoveFavoriteKeepsConsistent(books: seq<Book>, favorites: seq<Favorite>, id: Id, u: Id)
    requires Consistent(books, favorites)
    ensures var f := RemoveFirst(favorites, Favorite(u, id));
      match FindBook(books, id)
      case None => Consistent(books, f) && f == favorites
      case Some(i) => Consistent(RemoveFavoriteFrom(books, i, u), f)
  {
    match FindBook(books, id)
    case None =>
    case Some(i) =>
      RemoveFavoriteFoundKeepsConsistent(books, favorites, i, u);
  }

  /** The case of `RemoveFavoriteKeepsConsistent` where the book is found at
      `i`. */
  lemma RemoveFavoriteFoundKeepsConsistent(books: seq<Book>, favorites: seq<Favorite>, i: nat, u: Id)
    requires Consistent(books, favorites) && i < |books|
    ensures Consistent(RemoveFavoriteFrom(books, i, u), RemoveFirst(favorites, Favorite(u, books[i].id)))
  {
    var pair := Favorite(u, books[i].id);
    var f := RemoveFirst(favorites, pair);
    RemoveFirstNoDup(favorites, pair);
    RemoveFirstMembers(favorites, pair);
    var r := RemoveFavoriteFrom(books, i, u);
    forall k | 0 <= k < |f| ensures HasBook(r, f[k].bookId) {
      assert f[k] in favorites;
      var k' :| 0 <= k' < |favorites| && favorites[k'] == f[k];
      var j :| 0 <= j < |books| && books[j].id == favorites[k'].bookId;
      assert r[j].id == books[j].id;
    }
    forall j, v | 0 <= j < |r| ensures v in r[j].favorites <==> Favorite(v, r[j].id) in f {
      if j != i {
        assert books[j].id != books[i].id;
      }
    }
  }

  /** Deleting the book at `i` and every relation naming its id keeps the
      store consistent. */
  lemma DeleteKeepsConsistent(books: seq<Book>, favorites: seq<Favorite>, i: nat)
    requires Consistent(books, favorites) && i < |books|
    ensures Consistent(books[..i] + books[i + 1..], WithoutBook(favorites, books[i].id))
  {
    var id := books[i].id;
    var r := books[..i] + books[i + 1..];
    var f := WithoutBook(favorites, id);
    assert forall j | 0 <= j < |r| :: r[j] == books[if j < i then j else j + 1];
    forall k | 0 <= k < |f| ensures HasBook(r, f[k].bookId) {
      assert f[k] in favorites;
      var k' :| 0 <= k' < |favorites| && favorites[k'] == f[k];
      var j :| 0 <= j < |books| && books[j].id == favorites[k'].bookId;
      assert j != i;
      assert r[if j < i then j else j - 1] == books[j];
    }
  }

  /** Appending a book with a fresh id and no favorites keeps the store
      consistent. */
  lemma AppendKeepsConsistent(books: seq<Book>, favorites: seq<Favorite>, b: Book)
    requires Consistent(books, favorites)
    requires !HasBook(books, b.id) && b.favorites == [] && NoDup(b.readBy)
    ensures Consistent(books + [b], favorites)
  {
    var r := books + [b];
    forall k | 0 <= k < |favorites| ensures HasBook(r, favorites[k].bookId) {
      var j :| 0 <= j < |books| && books[j].id == favorites[k].bookId;
      assert r[j] == books[j];
    }
  }
}
