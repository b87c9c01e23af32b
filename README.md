# Book library: a verified model

This project models, in Dafny, the logic of a small book-library application:

- **The catalogue service** (`backend/server.js`). Users sign up and log in. Books are created, read, partially updated and deleted. Reading a book's content may generate and store a text. Favorites are kept twice, as `(userId, bookId)` relations and in each book's `favorites` list. Read marks live in `readBy`. Search filters by query, genre and author. The three stores are sequence fields of the class `Server.Service`. Each route handler is a method that returns a result or an error and updates the stores as the handler's `push`, `splice` and field assignments do. Every state-changing handler keeps the invariant `Valid()`: emails are unique, book ids are unique, favorites and readers are listed once, every relation names an existing book, and a user is in a book's `favorites` exactly when the relation `(user, book)` is stored.
- **The demo-user script** (`backend/create_demo_user.js`). It is a find-or-append over the users file. `DemoUser.UserFile` holds that file, with `None` when the file is missing.
- **The first client** (`src/`). It covers the filter pipeline and genre list, the list updates it applies to its own copy after each request, the empty/grid/by-author/by-year book list, the dashboard counters, and the reader's font size, content and paragraphs. Lemmas compare each client update with the server's change for the same request.
- **The second prototype** (`src/src/`). It covers the in-memory reducers and the mock session, the option lists, filter and sectioned display of its book list, its integer dashboard figures, and its add/edit form's validation and normalisation.

Shared modules hold what the files above use repeatedly:

- `Seqs`: `filter`, `splice`, `findIndex`, `includes` and the order-preserving subsequence relation.
- `Text`: ASCII lower-casing, `includes`, `trim`, `split`/`join`, and decimal printing and parsing.
- `Sorting`: string order, and the sorted list of distinct values.
- `Grouping`: the dictionary-filling loops, `GroupBy` and `Tally`, with the facts that their groups partition the input.

## Model

| member | source | states |
|---|---|---|
| Catalogue.FindBook | backend/server.js:257 | `findIndex` on ids: none exactly when no book has the id, otherwise the first index holding it |
| Catalogue.FindLogin | backend/server.js:112 | none exactly when no user has both the email and the password, otherwise the first such user |
| Catalogue.SignupThenLogin | backend/server.js:86-96 | after a signup that passed the duplicate check, logging in with the new credentials finds the new user, and emails stay unique |
| Catalogue.Public | backend/server.js:118-122 | the login answer carries the user's id, name and email; the password has no place in it |
| Catalogue.OrNull | backend/server.js:232-233 | `value \|\| null`: stored exactly when truthy, and then as sent |
| Catalogue.NewBook | backend/server.js:226-238 | the created record: given id and timestamp, the four required fields as sent, cover and content or null, rating or 0, no favorites, no readers |
| Catalogue.ApplyUpdate | backend/server.js:263-269 | an update never changes id, creation time, favorites or readers |
| Catalogue.UpdateRule | backend/server.js:263-269 | a truthy title, author, year, genre or cover is stored as sent, and a falsy or absent one leaves the stored value; content and rating take every sent value, null, 0 and "" included, and keep theirs when absent |
| Catalogue.UpdateIdempotent | backend/server.js:263-269 | sending the same update twice has the effect of sending it once |
| Catalogue.CreateThenUpdate | backend/server.js:226-269 | updating a freshly created book with the body it was created from changes nothing exactly when that body's content is not "" and its rating is not null: create stores null for "" and 0 for null, update stores them as sent |
| Catalogue.Chapters | backend/server.js:191-212 | the generated text after the intro is longer than 500 characters |
| Catalogue.GenerateBookContent | backend/server.js:188-213 | the generated text is longer than 500 characters |
| Catalogue.ContentFor | backend/server.js:169-174 | stored content over 500 characters is served as stored; otherwise the served text is the intro followed by the generated chapters |
| Catalogue.ContentStable | backend/server.js:169-179 | once the served text is stored, the next request serves the same text and writes nothing |
| Catalogue.GeneratedKeepsContent | backend/server.js:189 | generated text begins with the stored content when that is non-empty |
| Catalogue.SearchSound | backend/server.js:432-445 | search keeps an order-preserving subsequence, and a book is kept exactly when it passes every supplied filter |
| Catalogue.SearchIgnoresCase | backend/server.js:433-436 | the query's letter case does not change the result |
| Catalogue.SearchUnfiltered | backend/server.js:430-447 | with no filter supplied, search returns every book in order |
| Catalogue.AddFavoriteTo | backend/server.js:330-332 | only the found book changes, and the user is appended to its favorites |
| Catalogue.RemoveFavoriteFrom | backend/server.js:361-363 | only the found book changes, and it no longer lists the user |
| Catalogue.WithReader | backend/server.js:389-393 | the user is a reader afterwards; the list is unchanged if they already were, else they are appended; no duplicates are introduced |
| Catalogue.WithoutReader | backend/server.js:415 | the user is no reader afterwards, every other reader stays, and nothing else in the book changes |
| Catalogue.ReadRoundTrip | backend/server.js:389-415 | unmarking undoes marking for a user who had not read the book |
| Catalogue.MarkReadIdempotent | backend/server.js:390-391 | marking twice is marking once |
| Catalogue.WithoutBook | backend/server.js:294-295 | the relations left are those not naming the book, an order-preserving subsequence, with no duplicates introduced |
| Catalogue.SpliceIsFilter | backend/server.js:290 | with unique ids, splicing out the found book is filtering out its id |
| Catalogue.ReplaceKeepsConsistent | backend/server.js:263-271 | replacing a book by one with the same id and favorites keeps the store invariant |
| Catalogue.AddFavoriteKeepsConsistent | backend/server.js:326-333 | adding an absent relation and the user to the book's list keeps the invariant |
| Catalogue.RemoveFavoriteKeepsConsistent | backend/server.js:351-365 | removing the relation if present and the user from the book's list, if the book exists, keeps the invariant |
| Catalogue.DeleteKeepsConsistent | backend/server.js:290-296 | deleting a book and its relations keeps the invariant |
| Catalogue.AppendKeepsConsistent | backend/server.js:240-242 | appending a new book under an unused id keeps the invariant |
| Server.Service.constructor | backend/server.js:24-41 | the stores start empty, and the invariant holds |
| Server.Service.Signup | backend/server.js:72-100 | a missing field fails with no change; an email already present fails with no change; otherwise exactly one user is appended and returned without password; the invariant is kept |
| Server.Service.Login | backend/server.js:103-126 | succeeds exactly when both fields are non-empty and some user has that exact email and password; returns the first such user without password |
| Server.Service.AllBooks | backend/server.js:131-138 | all books, in stored order |
| Server.Service.GetBook | backend/server.js:141-155 | not found exactly when no book has the id, otherwise the first book with it |
| Server.Service.GetContent | backend/server.js:158-185 | an unknown id fails with no change; long content is served unchanged; otherwise the generated text is served and stored in that book only; the invariant is kept |
| Server.Service.CreateBook | backend/server.js:216-248 | without a truthy title, author, year and genre nothing changes; otherwise exactly the new record is appended; the invariant is kept when the id is unused |
| Server.Service.UpdateBook | backend/server.js:251-276 | an unknown id fails with no change; otherwise only the found book changes, by the update rule; the invariant is kept |
| Server.Service.DeleteBook | backend/server.js:279-302 | an unknown id fails with no change; otherwise the book is removed, the others keep their order, and every relation naming it goes; the invariant is kept |
| Server.Service.AddFavorite | backend/server.js:307-339 | missing user id, unknown book or existing pair fails with no change; success exactly otherwise, appending the relation and the user to the book's list; the invariant is kept |
| Server.Service.RemoveFavorite | backend/server.js:342-371 | with a user id it always succeeds, even for an unknown book or pair, removing the first matching relation and the user from the book if found; the invariant is kept |
| Server.Service.MarkRead | backend/server.js:376-399 | missing user id or unknown book fails with no change; otherwise the user is added to that book's readers unless present; the invariant is kept |
| Server.Service.UnmarkRead | backend/server.js:402-422 | missing user id or unknown book fails with no change, unlike remove-favorite; otherwise every occurrence of the user leaves that book's readers |
| Server.Service.Search | backend/server.js:427-451 | an order-preserving subsequence of the books, keeping exactly those passing every supplied filter |
| DemoUser.DemoAccount | backend/create_demo_user.js:23 | the created account has the demo email |
| DemoUser.FindByEmail | backend/create_demo_user.js:21 | none exactly when no user has the email, otherwise the first such user |
| DemoUser.Ensured | backend/create_demo_user.js:17-31 | an existing demo user is returned with the list unchanged; otherwise exactly the demo account is appended and returned, existing users unchanged |
| DemoUser.EnsureIdempotent | backend/create_demo_user.js:20-30 | a second run, whatever id it draws, returns the same user and leaves the list as the first run did |
| DemoUser.EnsureKeepsEmailsUnique | backend/create_demo_user.js:20-25 | the script never creates a second account with an existing email |
| DemoUser.UserFile.constructor | backend/create_demo_user.js:8-11 | the file holds what it was created with |
| DemoUser.UserFile.Users | backend/create_demo_user.js:8-11 | a missing file reads as no users |
| DemoUser.UserFile.EnsureDemoUser | backend/create_demo_user.js:17-31 | the returned user and the new file contents are those of `Ensured`; the file is not written when the demo user exists |
| ClientApp.FilteredBooks | src/App.jsx:143-152 | an order-preserving subsequence keeping exactly the books that pass query, genre, minimum rating (missing rating as 0) and favorites-only |
| ClientApp.NeutralCriteriaKeepAll | src/App.jsx:143-152 | empty query, genre "all", rating "all" and favorites off keep every book |
| ClientApp.FilterAgreesWithSearch | src/App.jsx:144-145 | filtering by query and a genre gives the same list as the server's search with them |
| ClientApp.Genres | src/App.jsx:154 | sorted, duplicate-free, and exactly the non-empty genres present |
| ClientApp.Patch | src/App.jsx:81 | `map` by id: books with the id are transformed, all others stay |
| ClientApp.UpdateBook | src/App.jsx:81 | `map` by id: books with the id become the server's answer, all others stay |
| ClientApp.AddBook | src/App.jsx:71 | the created book is appended at the end, the rest unchanged |
| ClientApp.DeleteBook | src/App.jsx:91 | an order-preserving subsequence without the books with that id |
| ClientApp.ListEditsAgreeWithServer | src/App.jsx:68-95 | the client's add, edit and delete leave its list as the server leaves the store |
| ClientApp.ToggleFavorite | src/App.jsx:97-106 | nothing without a user; only books with the id change |
| ClientApp.ToggleAgreesWithServer | src/App.jsx:97-110 | the toggle is the server's remove-favorite when the user was listed and add-favorite otherwise |
| ClientApp.ToggleTwice | src/App.jsx:102-106 | toggling a book the user had not favorited twice restores the list |
| ClientApp.Rate | src/App.jsx:115 | books with the id take the rating, every other field and every other book unchanged |
| ClientApp.RateAgreesWithServer | src/App.jsx:114-117 | the rating shown equals what the server stores for the update `{ rating }` |
| ClientApp.MarkRead | src/App.jsx:120-122 | nothing without a user; with one, every book with the id has the user appended to its readers, even when already listed, and every other book stays |
| ClientApp.UnmarkRead | src/App.jsx:129 | with a user, no matching book lists them afterwards |
| ClientApp.MarkReadDiverges | src/App.jsx:122-124 | the client's mark-read matches the server's exactly when the user had not read the book; when they had, the client lists them at least twice |
| ClientApp.MarkReadOnce | src/App.jsx:122 | the corrected mark-read: the user is a reader afterwards and no duplicate is introduced |
| ClientApp.MarkReadOnceAgreesWithServer | src/App.jsx:122-124 | the corrected mark-read always matches the server, and is idempotent |
| ClientApp.UnmarkReadAgreesWithServer | src/App.jsx:129-131 | unmark-read matches the server's change |
| ClientBookList.AuthorSections | src/components/BookList.jsx:24-32 | the sections built from the grouping dictionary are the author sections in first-appearance order |
| ClientBookList.YearSections | src/components/BookList.jsx:47-55 | the sections built from the grouping dictionary are the year sections, newest first |
| ClientBookList.Render | src/components/BookList.jsx:3-70 | no books gives the empty state, "grid" the books in order, "by-author" and "by-year" their sections, any other mode nothing |
| ClientBookList.AuthorViewPartition | src/components/BookList.jsx:24-28 | every book is shown exactly once, and each author's section holds exactly that author's books in input order |
| ClientBookList.AuthorOrderFirstSeen | src/components/BookList.jsx:32 | the authors of any prefix of the list head the sections, in the order first met |
| ClientBookList.YearViewSound | src/components/BookList.jsx:47-55 | every book shown once, each year's section exactly that year's books in order, years strictly descending |
| ClientDashboard.ReadCount | src/components/Dashboard.jsx:3 | at most the total; equal to it exactly when every book has a reader, zero exactly when none has; the unread make up the rest |
| ClientDashboard.FavoriteCount | src/components/Dashboard.jsx:4 | the same bounds for books with a non-empty favorites list |
| ClientDashboard.GenreCounts | src/components/Dashboard.jsx:6-9 | every genre present once in first-appearance order, each count the number of its books and at least one, the counts summing to the total |
| ClientReader.Paragraphs | src/components/BookReaderModal.jsx:124-130 | an order-preserving subsequence of the lines, keeping exactly the lines that are not white space only; none contains a line break |
| ClientReader.ParagraphsOfLines | src/components/BookReaderModal.jsx:124-130 | non-blank lines joined by line breaks come back as the paragraphs |
| ClientReader.TrailingBlankLine | src/components/BookReaderModal.jsx:124-130 | a trailing blank line adds no paragraph |
| ClientReader.InitialContent | src/components/BookReaderModal.jsx:7 | the book's content, or "" when it has none |
| ClientReader.Reader.constructor | src/components/BookReaderModal.jsx:5-8 | font size 18, the book's content, loading |
| ClientReader.Reader.IncreaseFontSize | src/components/BookReaderModal.jsx:39 | a no-op at 32, otherwise exactly two more; the size stays within 12 to 32 |
| ClientReader.Reader.DecreaseFontSize | src/components/BookReaderModal.jsx:40 | a no-op at 12, otherwise exactly two less; the size stays within 12 to 32 |
| ClientReader.Reader.ContentFetched | src/components/BookReaderModal.jsx:21-37 | non-empty fetched text replaces the content; an empty answer or a failure keeps it; loading ends |
| ClientReader.Reader.Shown | src/components/BookReaderModal.jsx:113-139 | the spinner exactly while loading; then the paragraphs of non-empty content, or the no-content notice exactly when it is empty |
| MockApp.Add | src/src/App.jsx:153-159 | exactly one book appended at the end, with the given fields and the clock reading as id |
| MockApp.Update | src/src/App.jsx:161-165 | ids unchanged; books with the id take the new fields wholesale, the others stay |
| MockApp.Delete | src/src/App.jsx:167-169 | an order-preserving subsequence without the books with that id |
| MockApp.ToggleFavorite | src/src/App.jsx:171-175 | ids unchanged; only books with the id flip `isFavorite`, and nothing else changes |
| MockApp.Rate | src/src/App.jsx:177-181 | ids unchanged; only books with the id get the rating, and nothing else changes |
| MockApp.AddThenDelete | src/src/App.jsx:153-169 | adding under an unused id and deleting that id restores the list |
| MockApp.ToggleTwice | src/src/App.jsx:171-175 | toggling twice is the identity |
| MockApp.UpdateIdempotent | src/src/App.jsx:161-165 | a repeated update changes nothing more, and an update to the current fields changes nothing |
| MockApp.ScreenOf | src/src/App.jsx:183-208 | the library exactly when someone is signed in, else the login page or the signup page |
| MockApp.NameFromEmail | src/src/App.jsx:138 | the email up to its first '@', or all of it when it has none |
| MockApp.NameFromEmailExamples | src/src/App.jsx:138 | `local@domain` gives `local`, and an email without '@' gives itself |
| MockApp.Login | src/src/App.jsx:136-140 | the library is shown for the user named after the email |
| MockApp.Signup | src/src/App.jsx:142-146 | the library is shown for the user with the given name |
| MockApp.Logout | src/src/App.jsx:148-151 | the login page is shown with nobody signed in |
| MockBookList.Authors | src/src/components/BookList.jsx:13-16 | sorted, duplicate-free, exactly the authors present |
| MockBookList.Years | src/src/components/BookList.jsx:18-21 | strictly descending, duplicate-free, exactly the years present |
| MockBookList.Genres | src/src/components/BookList.jsx:23-26 | sorted, duplicate-free, exactly the genres present |
| MockBookList.FilteredBooks | src/src/components/BookList.jsx:29-39 | an order-preserving subsequence keeping exactly the books that match the search and all three selects |
| MockBookList.EverythingShown | src/src/components/BookList.jsx:29-39 | an empty search with every select on "all" keeps every book |
| MockBookList.YearSelectExact | src/src/components/BookList.jsx:34 | selecting a year's text keeps only books of that year |
| MockBookList.AuthorOrder | src/src/components/BookList.jsx:161-162 | the author keys present, sorted by name |
| MockBookList.AuthorSections | src/src/components/BookList.jsx:42-51 | the sections from the grouping dictionary are the author sections in name order |
| MockBookList.YearSections | src/src/components/BookList.jsx:54-63 | the sections from the grouping dictionary are the year sections, largest first |
| MockBookList.Render | src/src/components/BookList.jsx:144-199 | nothing matching gives the notice, "grid" the filtered books, "by-author" the author sections, any other mode the year sections |
| MockBookList.AuthorViewSound | src/src/components/BookList.jsx:42-51 | each filtered book shown once, each section exactly its author's books in filtered order, authors in name order |
| MockBookList.YearViewSound | src/src/components/BookList.jsx:54-63 | each filtered book shown once, each section exactly its year's books in filtered order, years strictly descending |
| MockDashboard.TotalPagesConcat | src/src/components/Dashboard.jsx:10 | the page total of two lists together is the sum of their totals |
| MockDashboard.TotalPagesBounds | src/src/components/Dashboard.jsx:10 | with no negative page count the total is at least each book's, and books without pages add nothing |
| MockDashboard.FavoriteCount | src/src/components/Dashboard.jsx:8 | at most the total; equal to it exactly when all are favorites, zero exactly when none is |
| MockDashboard.TopIndex | src/src/components/Dashboard.jsx:17 | the first key whose count no other key exceeds |
| MockDashboard.GenreCounts | src/src/components/Dashboard.jsx:12-15 | exactly the genres present, each with its number of books |
| MockDashboard.TopGenrePresent | src/src/components/Dashboard.jsx:17-24 | "N/A" without books, otherwise the genre of some book |
| MockDashboard.TopGenreIsMostCommon | src/src/components/Dashboard.jsx:17 | no genre has more books than the top genre |
| MockDashboard.ComputeStats | src/src/components/Dashboard.jsx:6-26 | the figures computed with the counting loop are the total, the favorites, the page total and the top genre |
| MockDashboard.GenreCountsSum | src/src/components/Dashboard.jsx:12-15 | the genre counts add up to the number of books |
| MockBookForm.Set | src/src/components/AddEditBookModal.jsx:23 | the named field takes the value and every other field is unchanged |
| MockBookForm.HandleChange | src/src/components/AddEditBookModal.jsx:21-28 | only the edited field changes; only its error is cleared, and only if it had one |
| MockBookForm.FormOf | src/src/components/AddEditBookModal.jsx:6-17 | a new book starts from a blank form |
| MockBookForm.Validate | src/src/components/AddEditBookModal.jsx:30-53 | the exact error for each blank title, author or genre and for a blank or out-of-range year, no other errors; valid exactly when no error was recorded, exactly when the form is acceptable |
| MockBookForm.Saved | src/src/components/AddEditBookModal.jsx:59-70 | the saved record has non-empty title, author and genre, a year between 0 and the current year, no empty isbn, and the favorite flag as it was |
| MockBookForm.Submit | src/src/components/AddEditBookModal.jsx:55-72 | the record is saved exactly when the form is acceptable, and then with no errors |
| MockBookForm.NumberFieldRoundTrip | src/src/components/AddEditBookModal.jsx:13-68 | a number shown in the form reads back as the same number, and a missing one stays missing |
| MockBookForm.ReopenAcceptable | src/src/components/AddEditBookModal.jsx:30-53 | the form of a well-formed book passes validation |
| MockBookForm.ReopenAndSave | src/src/components/AddEditBookModal.jsx:6-70 | opening the form on a well-formed book and saving it gives back the same book |
| Seqs.RemoveAll | backend/server.js:363 | `filter(id => id !== u)`: exactly the other elements, no change when absent, no duplicates introduced |
| Seqs.RemoveFirst | backend/server.js:352-356 | `findIndex` then `splice`: unchanged when absent; otherwise exactly the first occurrence is cut out, the rest keeping their order |
| Sorting.SortedSet | src/App.jsx:154 | strictly increasing and holding exactly the input's values |
| Sorting.IncreasingUnique | src/App.jsx:154 | two increasing lists with the same values are equal, so the sorted distinct list is unique |
| Text.IncludesAt | backend/server.js:434 | `includes` holds exactly when the text occurs at some index |
| Text.LowerIdempotent | backend/server.js:434 | lower-casing twice is lower-casing once |
| Text.JoinSplit | src/components/BookReaderModal.jsx:124 | joining the pieces of a split gives the text back |
| Text.SplitJoin | src/components/BookReaderModal.jsx:124 | splitting pieces joined by a separator they lack gives the pieces back |
| Text.ParseNumberRoundTrip | src/src/components/AddEditBookModal.jsx:62 | a number printed in decimal parses back to itself |
| Text.IntToDecimalInjective | src/src/components/BookList.jsx:34 | two years print the same exactly when they are equal |
| Grouping.DistinctKeysSound | src/components/BookList.jsx:24-32 | the section keys are distinct, every item's key is among them, and each is some item's key |
| Grouping.DistinctKeysPrefix | src/components/BookList.jsx:32 | keys come in order of first appearance |
| Grouping.SectionsPartition | src/src/components/BookList.jsx:42-63 | sections over all keys show each item exactly once, each section exactly the items with its key, in order |
| Grouping.GroupBy | src/components/BookList.jsx:24-28 | the loop's dictionary maps each key present, in creation order, to exactly its items in order |
| Grouping.Tally | src/components/Dashboard.jsx:6-9 | the loop's dictionary maps each key present, in creation order, to the number of its items |
| Grouping.KeysNewestFirst | src/components/BookList.jsx:55 | the keys of a grouping by number, each once, strictly descending; both book lists order their year sections this way |
| Grouping.TallyTotals | src/components/Dashboard.jsx:6-9 | tally counts are positive and add up to the number of items |

## Left out

- HTTP plumbing is not modelled: routing, status codes, JSON responses, the health route, start-up and shutdown. Outcomes are the `Result` datatype.
- File persistence is not modelled: initialising the data directory and the JSON read and write helpers. The stores are sequences held in memory. A users file holding `null` reads as empty in the source; the model has only a present or missing file.
- Ids from `uuidv4`, timestamps and `Date.now()` are parameters.
- Concurrency is not modelled. Add-favorite and delete do an unlocked read-modify-write across two files; the model handles one request at a time.
- Network scripts and client I/O are not modelled: the seeding and demo scripts that call the network, the client's API wrappers, and the requests the clients send. Client update failures are ignored, as the source ignores them, and the copy of the open book that the first client updates alongside its list is not modelled.
- Components that only render or guard one input are not modelled. This covers the login and signup forms, headers, cards, detail and edit dialogs, the user list, and all markup in the modelled files.
- Floating point is not modelled: the average rating and its formatting, the genre bar percentages, and fractional ratings. Ratings, years and page counts are integers.
- `Number()` is modelled as a decimal-integer parser, with white space trimmed, an optional sign, and empty or blank text read as 0, as `Number` reads it. Other numeric syntaxes are out of scope, such as fractions, exponents and hexadecimal. The one `parseInt` (src/App.jsx:147) reads the rating select's values, never empty text; the caller parses those into `RatingFilter`, so `parseInt`'s `NaN` is not modelled.
- MockBookForm.Validate: a fractional year such as "1999.5" is rejected by the model, but the source accepts it.
- MockBookForm.OptionalNumber: non-numeric page or rating text, which the source saves as `NaN`, is saved as absent.
- `toLowerCase` is modelled on ASCII letters only. `localeCompare` and the default `sort` are modelled as code-point order, without locale or Unicode rules.
- Catalogue.Chapters: the generated chapters have their own wording, not the source's. The model keeps only their place after the intro, the interpolated title, author, lower-cased genre and year, and a length over 500 characters.
- Strings are sequences of Unicode scalar values, not of UTF-16 code units as in JavaScript. Outside the Basic Multilingual Plane (characters above U+FFFF, such as emoji) a character has length 1 in the model and 2 in the source, and sorts by code point rather than by its surrogate pair. So the over-500 length test of stored content (backend/server.js:169) and the sorted author, genre and year lists can differ from the source's for such text.
- Object-key order for integer-like keys is not modelled. Year groups are keyed by the number, and the year sections of both lists are sorted before they are shown. The first client's author sections (src/components/BookList.jsx:32) and genre counts (src/components/Dashboard.jsx:6-9) are unsorted and follow `Object.entries` order, which the model takes as insertion order; an integer-like author or genre name would be listed first in JavaScript.
- Keys inherited from `Object.prototype` are not modelled: the grouping dictionaries start empty. In the source an author named `constructor`, `toString` or `__proto__` makes `acc[book.author].push` throw a TypeError (src/components/BookList.jsx:24-25, src/src/components/BookList.jsx:45-48), which breaks the by-author view, and such a genre name makes `(acc[g] || 0) + 1` build a string (both Dashboard.jsx files). ClientBookList.AuthorViewPartition, MockBookList.AuthorViewSound, ClientDashboard.GenreCounts and MockDashboard.GenreCounts therefore hold only for books whose author and genre names are not such inherited keys.
- Request bodies have fixed types: title, author, genre, cover and content are texts and year and rating integers. The source stores whatever JSON it receives; a non-text title or author makes search's `toLowerCase` throw and answer 500 (backend/server.js:433-436), which the model cannot reach.
- Books stored without `favorites` or `readBy` arrays are not modelled: the model always has lists where the source defaults a missing one to empty. Signup and login fields that are absent or null are modelled as the empty text, and query parameters as single texts.
- Server.Service.CreateBook: the invariant is promised only when the drawn id is unused, because a random id is unique only with high probability.
- The first client's "all" sentinel and empty text for the rating select are parsed by the caller into `RatingFilter`.
- The second prototype's page switches between login and signup, and its initial mock books, are not modelled.

## Findings

| source | as written | input that shows it | evidently intended | confidence | as-written member | corrected member |
|---|---|---|---|---|---|---|
| src/App.jsx:122 | mark-read appends the user to the book's `readBy` without checking whether they are already there | a signed-in user who already read a book marks it read again: the client's copy lists them twice, the server's once | add the user only when absent, as the server does, so the client's list matches the server's | medium, not executed | ClientApp.MarkReadDiverges | ClientApp.MarkReadOnceAgreesWithServer |
