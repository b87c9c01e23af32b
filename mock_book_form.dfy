/** The second prototype's add/edit form: the text it starts from, the
    edit of one field, the checks run on save, and the record handed to the
    app when they pass. */
module MockBookForm {
  import opened Optional
  import opened Text
  import opened MockApp

  /** The form's text inputs, by their `name`. */
  datatype FormField = Title | Author | Year | Genre | Description | CoverImage | Pages | Isbn | Rating

  /** `formData`: every input holds text; the favorite flag is carried
      through unchanged. */
  datatype FormData = FormData(
    title: string,
    author: string,
    year: string,
    genre: string,
    description: string,
    coverImage: string,
    pages: string,
    isbn: string,
    rating: string,
    isFavorite: bool)

  /** `formData[name]`. */
  function Get(d: FormData, f: FormField): string {
    match f
    case Title => d.title
    case Author => d.author
    case Year => d.year
    case Genre => d.genre
    case Description => d.description
    case CoverImage => d.coverImage
    case Pages => d.pages
    case Isbn => d.isbn
    case Rating => d.rating
  }

  /** `{ ...formData, [name]: value }`. */
  function Set(d: FormData, f: FormField, v: string): (r: FormData)
    ensures Get(r, f) == v
    ensures forall g | g != f :: Get(r, g) == Get(d, g)
    ensures r.isFavorite == d.isFavorite
  {
    match f
    case Title => d.(title := v)
    case Author => d.(author := v)
    case Year => d.(year := v)
    case Genre => d.(genre := v)
    case Description => d.(description := v)
    case CoverImage => d.(coverImage := v)
    case Pages => d.(pages := v)
    case Isbn => d.(isbn := v)
    case Rating => d.(rating := v)
  }

  /** Error messages by field; a cleared error is the empty text. */
  type Errors = map<FormField, string>

  /** `handleChange`: the edited field takes the new text, and its error, if
      it had a non-empty one, is cleared; nothing else changes. */
  function HandleChange(d: FormData, errors: Errors, f: FormField, v: string): (r: (FormData, Errors))
    ensures Get(r.0, f) == v
    ensures forall g | g != f :: Get(r.0, g) == Get(d, g)
    ensures r.0.isFavorite == d.isFavorite
    ensures r.1.Keys == errors.Keys
    ensures forall g | g in errors && g != f :: r.1[g] == errors[g]
    ensures f in r.1 ==> r.1[f] == ""
  {
    (Set(d, f, v), if f in errors && errors[f] != "" then errors[f := ""] else errors)
  }

  /** `n?.toString() || ''`. */
  function NumberText(n: Option<int>): string {
    match n
    case None => ""
    case Some(x) => IntToDecimal(x)
  }

  /** `book?.x || ''` and `book?.x?.toString() || ''`: the form for a new
      book is blank, the form for an existing one shows its fields. */
  function FormOf(book: Option<BookInfo>): (r: FormData)
    ensures book.None? ==> r == FormData("", "", "", "", "", "", "", "", "", false)
  {
    match book
    case None => FormData("", "", "", "", "", "", "", "", "", false)
    case Some(b) =>
      FormData(
        b.title, b.author, IntToDecimal(b.year), b.genre, b.description, b.coverImage,
        NumberText(b.pages),
        match b.isbn case None => "" case Some(s) => s,
        NumberText(b.rating),
        b.isFavorite)
  }

  // ---------------------------------------------------------------- validation

  /** The year text is a number between 0 and the current year. */
  predicate YearInRange(year: string, currentYear: int) {
    match ParseNumber(year)
    case None => false
    case Some(n) => 0 <= n <= currentYear
  }

  /** Everything `validate` checks. `!x.trim()` holds exactly when `x` is
      white space only, which `Trim`'s contract states as `IsBlank`. */
  predicate Acceptable(d: FormData, currentYear: int) {
    && !IsBlank(d.title)
    && !IsBlank(d.author)
    && !IsBlank(d.year) && YearInRange(d.year, currentYear)
    && !IsBlank(d.genre)
  }

  /** `validate`: an error for each of title, author and genre that is
      blank; for the year, "required" when blank and "valid year" when it is
      not a number in range; no other field is checked. The form is valid
      exactly when no error was recorded, exactly when it is acceptable. */
  method Validate(d: FormData, currentYear: int) returns (valid: bool, errors: Errors)
    ensures errors.Keys <= {Title, Author, Year, Genre}
    ensures Title in errors <==> IsBlank(d.title)
    ensures Author in errors <==> IsBlank(d.author)
    ensures Genre in errors <==> IsBlank(d.genre)
    ensures Year in errors <==> IsBlank(d.year) || !YearInRange(d.year, currentYear)
    ensures Title in errors ==> errors[Title] == "Title is required"
    ensures Author in errors ==> errors[Author] == "Author is required"
    ensures Genre in errors ==> errors[Genre] == "Genre is required"
    ensures Year in errors ==>
      errors[Year] == if IsBlank(d.year) then "Year is required" else "Please enter a valid year"
    ensures valid <==> |errors| == 0
    ensures valid <==> Acceptable(d, currentYear)
  {
    errors := map[];
    if IsBlank(d.title) {
      errors := errors[Title := "Title is required"];
    }
    if IsBlank(d.author) {
      errors := errors[Author := "Author is required"];
    }
    if IsBlank(d.year) {
      errors := errors[Year := "Year is required"];
    } else if !YearInRange(d.year, currentYear) {
      errors := errors[Year := "Please enter a valid year"];
    }
    if IsBlank(d.genre) {
      errors := errors[Genre := "Genre is required"];
    }
    valid := |errors| == 0;
  }

  // ---------------------------------------------------------------- saving

  /** `x ? Number(x) : undefined`; text that is not a number is taken as
      absent. */
  function OptionalNumber(s: string): Option<int> {
    if s == "" then None else ParseNumber(s)
  }

  /** The record `handleSubmit` passes to `onSave`. */
  function Saved(d: FormData, currentYear: int): (r: BookInfo)
    requires Acceptable(d, currentYear)
    ensures r.title != "" && r.author != "" && r.genre != ""
    ensures 0 <= r.year <= currentYear
    ensures r.isbn.Some? ==> r.isbn.value != ""
    ensures r.isFavorite == d.isFavorite
  {
    BookInfo(
      Trim(d.title), Trim(d.author), ParseNumber(d.year).value, Trim(d.genre),
      Trim(d.description), Trim(d.coverImage),
      OptionalNumber(d.pages),
      if Trim(d.isbn) == "" then None else Some(Trim(d.isbn)),
      OptionalNumber(d.rating),
      d.isFavorite)
  }

  /** `handleSubmit`: `onSave` gets the record only when validation passes;
      the errors are what the form shows afterwards. */
  method Submit(d: FormData, currentYear: int) returns (saved: Option<BookInfo>, errors: Errors)
    ensures saved.Some? <==> Acceptable(d, currentYear)
    ensures saved.Some? ==> saved.value == Saved(d, currentYear) && errors == map[]
    ensures saved.None? ==> |errors| > 0
  {
    var valid;
    valid, errors := Validate(d, currentYear);
    if valid {
      saved := Some(Saved(d, currentYear));
    } else {
      saved := None;
    }
  }

  /** A number shown in the form reads back as the same number. */
  lemma NumberFieldRoundTrip(n: Option<int>)
    ensures OptionalNumber(NumberText(n)) == n
  {
    match n {
      case None =>
      case Some(x) => ParseNumberRoundTrip(x);
    }
  }

  /** A tidy book's form passes validation. */
  lemma ReopenAcceptable(b: BookInfo, currentYear: int)
    requires b.title != "" && b.author != "" && b.genre != ""
    requires Unpadded(b.title) && Unpadded(b.author) && Unpadded(b.genre)
    requires 0 <= b.year <= currentYear
    ensures Acceptable(FormOf(Some(b)), currentYear)
  {
    TrimUnpadded(b.title);
    TrimUnpadded(b.author);
    TrimUnpadded(b.genre);
    TrimUnpadded(IntToDecimal(b.year));
    ParseNumberRoundTrip(b.year);
  }

  /** Opening the form on a tidy book and saving it unchanged gives back the
      same book. */
  lemma ReopenAndSave(b: BookInfo, currentYear: int)
    requires b.title != "" && b.author != "" && b.genre != ""
    requires Unpadded(b.title) && Unpadded(b.author) && Unpadded(b.genre) && Unpadded(b.description) && Unpadded(b.coverImage)
    requires b.isbn.Some? ==> b.isbn.value != "" && Unpadded(b.isbn.value)
    requires 0 <= b.year <= currentYear
    ensures Acceptable(FormOf(Some(b)), currentYear)
    ensures Saved(FormOf(Some(b)), currentYear) == b
  {
    ReopenAcceptable(b, currentYear);
    var d := FormOf(Some(b));
    TrimUnpadded(d.title);
    TrimUnpadded(d.author);
    TrimUnpadded(d.genre);
    TrimUnpadded(d.description);
    TrimUnpadded(d.coverImage);
    ParseNumberRoundTrip(b.year);
    if b.isbn.Some? {
      TrimUnpadded(d.isbn);
    }
    NumberFieldRoundTrip(b.pages);
    NumberFieldRoundTrip(b.rating);
  }
}
