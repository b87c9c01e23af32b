/** The first client's reader: a font size moved in steps of two between 12
    and 32, the book's text (replaced by the fetched text only when that is
    non-empty), and the paragraphs it shows. */
module ClientReader {
  import opened Optional
  import opened Seqs
  import opened Text
  import opened Catalogue

  const MinFontSize := 12
  const MaxFontSize := 32
  const InitialFontSize := 18

  /** `paragraph.trim()` is truthy. */
  predicate Shows(line: string)
    ensures Shows(line) <==> !IsBlank(line)
  {
    Trim(line) != ""
  }

  /** The lines of the text that are not white space only, in order:
      `content.split('\n')` keeping the lines whose `trim()` is non-empty. */
  function Paragraphs(content: string): (r: seq<string>)
    ensures IsSubseq(r, Split(content, '\n'))
    ensures forall p :: p in r <==> p in Split(content, '\n') && !IsBlank(p)
    ensures forall i | 0 <= i < |r| :: '\n' !in r[i]
  {
    var lines := Split(content, '\n');
    var r := Filter(lines, Shows);
    assert IsSubseq(r, lines) by {
      FilterIsSubseq(lines, Shows);
    }
    assert forall i | 0 <= i < |r| :: '\n' !in r[i] by {
      assert forall i | 0 <= i < |r| :: r[i] in lines;
    }
    r
  }

  /** Lines written one per line come back as the paragraphs. */
  lemma ParagraphsOfLines(lines: seq<string>)
    requires |lines| >= 1
    requires forall i | 0 <= i < |lines| :: '\n' !in lines[i] && !IsBlank(lines[i])
    ensures Paragraphs(Join(lines, '\n')) == lines
  {
    SplitJoin(lines, '\n');
    FilterAll(lines, Shows);
  }

  /** A trailing blank line adds no paragraph. */
  lemma TrailingBlankLine(lines: seq<string>, blank: string)
    requires |lines| >= 1
    requires forall i | 0 <= i < |lines| :: '\n' !in lines[i] && !IsBlank(lines[i])
    requires '\n' !in blank && IsBlank(blank)
    ensures Paragraphs(Join(lines, '\n') + "\n" + blank) == lines
  {
    JoinSnoc(lines, blank, '\n');
    SplitPadded(lines, blank);
    FilterConcat(lines, [blank], Shows);
    FilterAll(lines, Shows);
  }

  /** The pieces of the joined lines followed by one more line. */
  lemma SplitPadded(lines: seq<string>, last: string)
    requires |lines| >= 1
    requires forall i | 0 <= i < |lines| :: '\n' !in lines[i]
    requires '\n' !in last
    ensures Split(Join(lines + [last], '\n'), '\n') == lines + [last]
  {
    var padded := lines + [last];
    assert forall i | 0 <= i < |padded| :: '\n' !in padded[i] by {
      assert forall i | 0 <= i < |lines| :: padded[i] == lines[i];
    }
    SplitJoin(padded, '\n');
  }

  /** Joining one more piece appends a separator and the piece. */
  lemma {:induction false} JoinSnoc(parts: seq<string>, last: string, sep: char)
    requires |parts| >= 1
    ensures Join(parts + [last], sep) == Join(parts, sep) + [sep] + last
    decreases |parts|
  {
    if |parts| > 1 {
      JoinSnoc(parts[1..], last, sep);
      assert (parts + [last])[1..] == parts[1..] + [last];
    } else {
      assert (parts + [last])[1..] == [last];
    }
  }

  /** `book.content || ''`. */
  function InitialContent(b: Book): (r: string)
    ensures b.content.NonNull? ==> r == b.content.value
    ensures b.content.Null? ==> r == ""
  {
    match b.content
    case Null => ""
    case NonNull(c) => c
  }

  /** What the reading pane shows. */
  datatype Pane = Loading | Text(paragraphs: seq<string>) | NoContent

  /** The reader's state for one open book. */
  class Reader {
    var fontSize: int
    var content: string
    var loading: bool

    /** Font sizes stay between the bounds, on the even steps from 18. */
    ghost predicate Valid()
      reads this
    {
      MinFontSize <= fontSize <= MaxFontSize && fontSize % 2 == 0
    }

    constructor (book: Book)
      ensures Valid()
      ensures fontSize == InitialFontSize && content == InitialContent(book) && loading
    {
      fontSize := InitialFontSize;
      content := InitialContent(book);
      loading := true;
    }

    /** `increaseFontSize`: two more, but never past 32. */
    method IncreaseFontSize()
      modifies this
      ensures old(Valid()) ==> Valid()
      ensures old(fontSize) == MaxFontSize ==> fontSize == MaxFontSize
      ensures old(Valid()) && old(fontSize) < MaxFontSize ==> fontSize == old(fontSize) + 2
      ensures content == old(content) && loading == old(loading)
    {
      fontSize := if fontSize + 2 < MaxFontSize then fontSize + 2 else MaxFontSize;
    }

    /** `decreaseFontSize`: two less, but never under 12. */
    method DecreaseFontSize()
      modifies this
      ensures old(Valid()) ==> Valid()
      ensures old(fontSize) == MinFontSize ==> fontSize == MinFontSize
      ensures old(Valid()) && old(fontSize) > MinFontSize ==> fontSize == old(fontSize) - 2
      ensures content == old(content) && loading == old(loading)
    {
      fontSize := if fontSize - 2 > MinFontSize then fontSize - 2 else MinFontSize;
    }

    /** The content request finished: `None` when it failed. A non-empty
        text replaces what is shown; anything else keeps it. */
    method ContentFetched(fetched: Option<string>)
      modifies this
      ensures fetched.Some? && fetched.value != "" ==> content == fetched.value
      ensures fetched.None? || fetched.value == "" ==> content == old(content)
      ensures fontSize == old(fontSize) && !loading
    {
      if fetched.Some? && fetched.value != "" {
        content := fetched.value;
      }
      loading := false;
    }

    /** The pane: a spinner while loading, then the paragraphs, or the
        no-content notice when the text is empty. */
    function Shown(): (r: Pane)
      reads this
      ensures loading <==> r.Loading?
      ensures !loading && content == "" <==> r.NoContent?
      ensures r.Text? ==> r.paragraphs == Paragraphs(content)
    {
      if loading then Loading
      else if content != "" then Text(Paragraphs(content))
      else NoContent
    }
  }
}
