/** The route handlers of the catalogue service, over its three stores held in
    memory: each handler reads the stores, answers with a result or an error,
    and changes them as the handler's `push`, `splice` and field assignments
    do. Ids and timestamps, which the service draws from `uuidv4` and the
    clock, are parameters. */
module Server {
  import opened Optional
  import opened Seqs
  import opened Catalogue

  class Service {
    var users: seq<User>
    var books: seq<Book>
    var favorites: seq<Favorite>

    /** Emails are unique and the two copies of every favorite agree. */
    ghost predicate Valid()
      reads this
    {
      UniqueEmails(users) && Consistent(books, favorites)
    }

    /** Empty stores, as the service creates them on first start. */
    constructor ()
      ensures users == [] && books == [] && favorites == []
      ensures Valid()
    {
      users, books, favorites := [], [], [];
    }

    // ------------------------------------------------------------ users

    /** POST /api/auth/signup. */
    method Signup(name: string, email: string, password: string, id: Id) returns (r: Result<PublicUser>)
      modifies this
      ensures books == old(books) && favorites == old(favorites)
      ensures name == "" || email == "" || password == "" ==>
        r == Err(MissingFields) && users == old(users)
      ensures name != "" && email != "" && password != "" && EmailTaken(old(users), email) ==>
        r == Err(EmailExists) && users == old(users)
      ensures name != "" && email != "" && password != "" && !EmailTaken(old(users), email) ==>
        r == Ok(PublicUser(id, name, email)) && users == old(users) + [User(id, name, email, password)]
      ensures old(Valid()) ==> Valid()
    {
      if name == "" || email == "" || password == "" {
        return Err(MissingFields);
      }
      if EmailTaken(users, email) {
        return Err(EmailExists);
      }
      var u := User(id, name, email, password);
      SignupThenLogin(users, u);
      users := users + [u];
      r := Ok(Public(u));
    }

    /** POST /api/auth/login: the first user with that exact email and
        password, without the password. */
    method Login(email: string, password: string) returns (r: Result<PublicUser>)
      ensures r.Ok? <==> (email != "" && password != "" &&
        exists i | 0 <= i < |users| :: users[i].email == email && users[i].password == password)
      ensures email == "" || password == "" ==> r == Err(MissingFields)
      ensures email != "" && password != "" && r.Err? ==> r == Err(InvalidCredentials)
      ensures r.Ok? ==> (FindLogin(users, email, password).Some? &&
        r.value == Public(users[FindLogin(users, email, password).value]))
    {
      if email == "" || password == "" {
        return Err(MissingFields);
      }
      match FindLogin(users, email, password)
      case None =>
        r := Err(InvalidCredentials);
      case Some(i) =>
        r := Ok(Public(users[i]));
    }

    // ------------------------------------------------------------ books

    /** GET /api/books. */
    method AllBooks() returns (r: seq<Book>)
      ensures r == books
    {
      r := books;
    }

    /** GET /api/books/:id. */
    method GetBook(id: Id) returns (r: Result<Book>)
      ensures r.Err? <==> !HasBook(books, id)
      ensures r.Err? ==> r == Err(BookNotFound)
      ensures r.Ok? ==> r.value.id == id && r.value == books[FindBook(books, id).value]
    {
      match FindBook(books, id)
      case None =>
        r := Err(BookNotFound);
      case Some(i) =>
        r := Ok(books[i]);
    }

    /** GET /api/books/:id/content: stored content longer than 500 characters
        is served as it is; otherwise the generated text is stored in the
        book and served. */
    method GetContent(id: Id) returns (r: Result<string>)
      modifies this
      ensures users == old(users) && favorites == old(favorites)
      ensures FindBook(old(books), id).None? ==> r == Err(BookNotFound) && books == old(books)
      ensures FindBook(old(books), id).Some? ==>
        var i := FindBook(old(books), id).value;
        var b := old(books)[i];
        && r == Ok(ContentFor(b))
        && books == if HasLongContent(b) then old(books) else old(books)[i := b.(content := NonNull(r.value))]
      ensures old(Valid()) ==> Valid()
    {
      match FindBook(books, id)
      case None =>
        r := Err(BookNotFound);
      case Some(i) =>
        var b := books[i];
        if HasLongContent(b) {
          r := Ok(b.content.value);
        } else {
          var text := GenerateBookContent(b);
          if Valid() {
            ReplaceKeepsConsistent(books, favorites, i, b.(content := NonNull(text)));
          }
          books := books[i := b.(content := NonNull(text))];
          r := Ok(text);
        }
    }

    /** POST /api/books. A fresh id keeps ids unique. */
    method CreateBook(body: BookBody, id: Id, createdAt: string) returns (r: Result<Book>)
      modifies this
      ensures users == old(users) && favorites == old(favorites)
      ensures !CreateAccepted(body) ==> r == Err(MissingFields) && books == old(books)
      ensures CreateAccepted(body) ==>
        r == Ok(NewBook(body, id, createdAt)) && books == old(books) + [r.value]
      ensures old(Valid()) && !HasBook(old(books), id) ==> Valid()
    {
      if !CreateAccepted(body) {
        return Err(MissingFields);
      }
      var b := NewBook(body, id, createdAt);
      if Valid() && !HasBook(books, id) {
        AppendKeepsConsistent(books, favorites, b);
      }
      books := books + [b];
      r := Ok(b);
    }

    /** PUT /api/books/:id. */
    method UpdateBook(id: Id, body: BookBody) returns (r: Result<Book>)
      modifies this
      ensures users == old(users) && favorites == old(favorites)
      ensures FindBook(old(books), id).None? ==> r == Err(BookNotFound) && books == old(books)
      ensures FindBook(old(books), id).Some? ==>
        var i := FindBook(old(books), id).value;
        && r == Ok(ApplyUpdate(old(books)[i], body))
        && books == old(books)[i := r.value]
      ensures old(Valid()) ==> Valid()
    {
      match FindBook(books, id)
      case None =>
        r := Err(BookNotFound);
      case Some(i) =>
        var b := ApplyUpdate(books[i], body);
        if Valid() {
          ReplaceKeepsConsistent(books, favorites, i, b);
        }
        books := books[i := b];
        r := Ok(b);
    }

    /** DELETE /api/books/:id: the book goes, and so does every favorite
        relation naming it. */
    method DeleteBook(id: Id) returns (r: Result<()>)
      modifies this
      ensures users == old(users)
      ensures FindBook(old(books), id).None? ==>
        r == Err(BookNotFound) && books == old(books) && favorites == old(favorites)
      ensures FindBook(old(books), id).Some? ==>
        var i := FindBook(old(books), id).value;
        && r == Ok(())
        && books == old(books)[..i] + old(books)[i + 1..]
        && favorites == WithoutBook(old(favorites), id)
      ensures old(Valid()) ==> Valid()
    {
      match FindBook(books, id)
      case None =>
        r := Err(BookNotFound);
      case Some(i) =>
        if Valid() {
          DeleteKeepsConsistent(books, favorites, i);
        }
        books := books[..i] + books[i + 1..];
        favorites := WithoutBook(favorites, id);
        r := Ok(());
    }

    // ------------------------------------------------------------ favorites

    /** POST /api/favorites/:bookId: record the pair in the relation store and
        the user in the book's list. */
    method AddFavorite(bookId: Id, userId: Id) returns (r: Result<()>)
      modifies this
      ensures users == old(users)
      ensures userId == "" ==> r == Err(MissingUserId)
      ensures userId != "" && !HasBook(old(books), bookId) ==> r == Err(BookNotFound)
      ensures userId != "" && HasBook(old(books), bookId) && Favorite(userId, bookId) in old(favorites) ==>
        r == Err(AlreadyFavorited)
      ensures r.Err? ==> books == old(books) && favorites == old(favorites)
      ensures r.Ok? <==> userId != "" && HasBook(old(books), bookId) && Favorite(userId, bookId) !in old(favorites)
      ensures r.Ok? ==>
        && favorites == old(favorites) + [Favorite(userId, bookId)]
        && books == AddFavoriteTo(old(books), FindBook(old(books), bookId).value, userId)
      ensures old(Valid()) ==> Valid()
    {
      if userId == "" {
        return Err(MissingUserId);
      }
      match FindBook(books, bookId)
      case None =>
        r := Err(BookNotFound);
      case Some(i) =>
        if Favorite(userId, bookId) in favorites {
          return Err(AlreadyFavorited);
        }
        if Valid() {
          AddFavoriteKeepsConsistent(books, favorites, i, userId);
        }
        favorites := favorites + [Favorite(userId, bookId)];
        books := AddFavoriteTo(books, i, userId);
        r := Ok(());
    }

    /** DELETE /api/favorites/:bookId: answers success whether or not the
        pair or the book exists. */
    method RemoveFavorite(bookId: Id, userId: Id) returns (r: Result<()>)
      modifies this
      ensures users == old(users)
      ensures userId == "" ==> r == Err(MissingUserId) && books == old(books) && favorites == old(favorites)
      ensures userId != "" ==> r == Ok(())
      ensures userId != "" ==>
        && favorites == RemoveFirst(old(favorites), Favorite(userId, bookId))
        && books == match FindBook(old(books), bookId)
                    case None => old(books)
                    case Some(i) => RemoveFavoriteFrom(old(books), i, userId)
      ensures old(Valid()) ==> Valid()
    {
      if userId == "" {
        return Err(MissingUserId);
      }
      if Valid() {
        RemoveFavoriteKeepsConsistent(books, favorites, bookId, userId);
      }
      favorites := RemoveFirst(favorites, Favorite(userId, bookId));
      match FindBook(books, bookId) {
        case None =>
        case Some(i) =>
          books := RemoveFavoriteFrom(books, i, userId);
      }
      r := Ok(());
    }

    // ------------------------------------------------------------ read state

    /** POST /api/read/:bookId: add the user to `readBy` unless already there. */
    method MarkRead(bookId: Id, userId: Id) returns (r: Result<()>)
      modifies this
      ensures users == old(users) && favorites == old(favorites)
      ensures userId == "" ==> r == Err(MissingUserId) && books == old(books)
      ensures userId != "" && !HasBook(old(books), bookId) ==> r == Err(BookNotFound) && books == old(books)
      ensures userId != "" && HasBook(old(books), bookId) ==>
        var i := FindBook(old(books), bookId).value;
        r == Ok(()) && books == old(books)[i := WithReader(old(books)[i], userId)]
      ensures old(Valid()) ==> Valid()
    {
      if userId == "" {
        return Err(MissingUserId);
      }
      match FindBook(books, bookId)
      case None =>
        r := Err(BookNotFound);
      case Some(i) =>
        var b := WithReader(books[i], userId);
        if Valid() {
          ReplaceKeepsConsistent(books, favorites, i, b);
        }
        books := books[i := b];
        r := Ok(());
    }

    /** DELETE /api/read/:bookId: remove every occurrence of the user from
        `readBy`; an unknown book is an error, unlike for favorites. */
    method UnmarkRead(bookId: Id, userId: Id) returns (r: Result<()>)
      modifies this
      ensures users == old(users) && favorites == old(favorites)
      ensures userId == "" ==> r == Err(MissingUserId) && books == old(books)
      ensures userId != "" && !HasBook(old(books), bookId) ==> r == Err(BookNotFound) && books == old(books)
      ensures userId != "" && HasBook(old(books), bookId) ==>
        var i := FindBook(old(books), bookId).value;
        r == Ok(()) && books == old(books)[i := WithoutReader(old(books)[i], userId)]
      ensures old(Valid()) ==> Valid()
    {
      if userId == "" {
        return Err(MissingUserId);
      }
      match FindBook(books, bookId)
      case None =>
        r := Err(BookNotFound);
      case Some(i) =>
        var b := WithoutReader(books[i], userId);
        if Valid() {
          ReplaceKeepsConsistent(books, favorites, i, b);
        }
        books := books[i := b];
        r := Ok(());
    }

    // ------------------------------------------------------------ search

    /** GET /api/search?q=&genre=&author=. */
    method Search(q: string, genre: string, author: string) returns (r: seq<Book>)
      ensures r == SearchResults(books, q, genre, author)
      ensures IsSubseq(r, books)
      ensures forall b :: b in r <==> b in books && SearchHit(b, q, genre, author)
    {
      SearchSound(books, q, genre, author);
      r := SearchResults(books, q, genre, author);
    }
  }
}
