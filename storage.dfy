/**
 * The books file: one line per book, the six fields joined by commas and
 * ended by a newline, no quoting. Writing is `Serialize`; reading back is
 * `Parse`, which reads the text as a file opened in text mode, strips each
 * line and insists on exactly six comma-separated fields.
 */
module Storage {
  import opened Wrappers
  import opened Text
  import opened Catalog

  /** The six fields of a line, in file order. */
  function Fields(b: Book): seq<string> {
    [b.id, b.title, b.author, b.year, b.status, b.borrower]
  }

  /**
   * The line written for one book: `id,title,author,year,status,borrower` and a
   * newline. Nothing is quoted or escaped: the line is the six fields, five
   * commas and the newline, and no more.
   */
  function FormatLine(b: Book): (line: string)
    ensures line != [] && line[|line| - 1] == '\n'
    ensures |line| == |b.id| + |b.title| + |b.author| + |b.year| + |b.status| + |b.borrower| + 6
  {
    var fs := Fields(b);
    assert Join(fs[5..], ',') == b.borrower;
    assert Join(fs[4..], ',') == b.status + [','] + b.borrower by { assert fs[4..][1..] == fs[5..]; }
    assert Join(fs[3..], ',') == b.year + [','] + Join(fs[4..], ',') by { assert fs[3..][1..] == fs[4..]; }
    assert Join(fs[2..], ',') == b.author + [','] + Join(fs[3..], ',') by { assert fs[2..][1..] == fs[3..]; }
    assert Join(fs[1..], ',') == b.title + [','] + Join(fs[2..], ',') by { assert fs[1..][1..] == fs[2..]; }
    assert Join(fs, ',') == b.id + [','] + Join(fs[1..], ',');
    Join(fs, ',') + "\n"
  }

  /** The whole file as the store writes it: the lines of the books, in list order; it ends in a newline unless empty. */
  function Serialize(books: seq<Book>): (text: string)
    ensures text == [] <==> books == []
    ensures text != [] ==> text[|text| - 1] == '\n'
  {
    if books == [] then "" else FormatLine(books[0]) + Serialize(books[1..])
  }

  /** Writing one more book appends its line to the file text. */
  lemma {:induction false} SerializeSnoc(books: seq<Book>, b: Book)
    ensures Serialize(books + [b]) == Serialize(books) + FormatLine(b)
  {
    if books == [] {
      assert books + [b] == [b];
    } else {
      assert (books + [b])[1..] == books[1..] + [b];
      SerializeSnoc(books[1..], b);
    }
  }

  /** A line that does not hold six fields: its position among the lines read, and how many fields it held. */
  datatype LoadError = MalformedLine(line: nat, fields: nat)

  /**
   * The fields of one line read from the file: the stripped line cut at every
   * comma. There is always at least one, none holds a comma, and joined with
   * commas they give back the stripped line.
   */
  function LineFields(line: string): (fields: seq<string>)
    ensures |fields| >= 1
    ensures NoneContains(fields, ',')
    ensures Join(fields, ',') == Strip(line)
  {
    JoinSplit(Strip(line), ',');
    Split(Strip(line), ',')
  }

  /** The fields of each line, in file order. */
  function Rows(lines: seq<string>): seq<seq<string>> {
    seq(|lines|, i requires 0 <= i < |lines| => LineFields(lines[i]))
  }

  /** The book six fields describe, or how many fields there were when that is not six. */
  function Record(fields: seq<string>): (r: Result<Book, nat>)
    ensures r.Success? <==> |fields| == 6
    ensures r.Success? ==> Fields(r.value) == fields
    ensures r.Failure? ==> r.error == |fields|
  {
    if |fields| == 6 then Success(Book(fields[0], fields[1], fields[2], fields[3], fields[4], fields[5]))
    else Failure(|fields|)
  }

  /** The books of the rows, in order, or the first row that does not hold six fields. */
  function ParseRows(rows: seq<seq<string>>): (r: Result<seq<Book>, LoadError>)
    ensures r.Success? <==> forall i :: 0 <= i < |rows| ==> |rows[i]| == 6
    ensures r.Success? ==> |r.value| == |rows|
    ensures r.Success? ==> forall i :: 0 <= i < |rows| ==> Fields(r.value[i]) == rows[i]
    ensures r.Failure? ==>
      && r.error.line < |rows|
      && r.error.fields == |rows[r.error.line]| != 6
      && forall i :: 0 <= i < r.error.line ==> |rows[i]| == 6
  {
    if rows == [] then Success([])
    else match Record(rows[0])
      case Failure(n) => Failure(MalformedLine(0, n))
      case Success(b) =>
        match ParseRows(rows[1..])
        case Failure(e) => Failure(e.(line := e.line + 1))
        case Success(bs) => Success([b] + bs)
  }

  /** A book is determined by its six fields. */
  lemma FieldsInjective(a: Book, b: Book)
    requires Fields(a) == Fields(b)
    ensures a == b
  {
    assert Fields(a)[0] == Fields(b)[0] && Fields(a)[1] == Fields(b)[1] && Fields(a)[2] == Fields(b)[2];
    assert Fields(a)[3] == Fields(b)[3] && Fields(a)[4] == Fields(b)[4] && Fields(a)[5] == Fields(b)[5];
  }

  /** Rows that are exactly the fields of some books parse back as those books. */
  lemma ParseRowsOfFields(rows: seq<seq<string>>, books: seq<Book>)
    requires |rows| == |books|
    requires forall i :: 0 <= i < |books| ==> rows[i] == Fields(books[i])
    ensures ParseRows(rows) == Success(books)
  {
    var r := ParseRows(rows);
    assert r.Success?;
    forall i | 0 <= i < |books|
      ensures r.value[i] == books[i]
    {
      FieldsInjective(r.value[i], books[i]);
    }
    assert r.value == books;
  }

  /** `books` is `before` followed by one book per row of the first `i` rows, each with that row's fields. */
  ghost predicate AppendedRows(rows: seq<seq<string>>, i: nat, before: seq<Book>, books: seq<Book>) {
    && i <= |rows| && |books| == |before| + i && books[..|before|] == before
    && forall k :: 0 <= k < i ==> rows[k] == Fields(books[|before| + k])
  }

  /** Appending the book of the next row, when it has six fields, extends the appended prefix by one row. */
  lemma AppendRow(rows: seq<seq<string>>, i: nat, before: seq<Book>, books: seq<Book>)
    requires AppendedRows(rows, i, before, books) && i < |rows| && |rows[i]| == 6
    ensures AppendedRows(rows, i + 1, before, books + [Record(rows[i]).value])
  {
    var next := books + [Record(rows[i]).value];
    assert next[..|before|] == books[..|before|];
    assert forall k :: 0 <= k < |books| ==> next[k] == books[k];
  }

  /** Books appended after `before`, one per row of a prefix of `rows`, are what that prefix parses to. */
  lemma ParsedPrefix(rows: seq<seq<string>>, i: nat, before: seq<Book>, books: seq<Book>)
    requires AppendedRows(rows, i, before, books)
    ensures ParseRows(rows[..i]).Success?
    ensures books == before + ParseRows(rows[..i]).value
  {
    ParseRowsOfFields(rows[..i], books[|before|..]);
    assert books == books[..|before|] + books[|before|..];
  }

  /** Parsing stops at the first row that does not hold six fields, whatever follows it. */
  lemma ParseRowsStopsAt(rows: seq<seq<string>>, i: nat)
    requires i < |rows| && ParseRows(rows[..i]).Success? && |rows[i]| != 6
    ensures ParseRows(rows) == Failure(MalformedLine(i, |rows[i]|))
  {
    assert forall k :: 0 <= k < i ==> rows[..i][k] == rows[k];
  }

  /** The fields of each line of a file: read it in text mode, split it into lines, strip and cut each line. */
  function FileRows(text: string): seq<seq<string>> {
    Rows(Lines(ReadNewlines(text)))
  }

  /**
   * Loading a file: the books its lines describe, one per line and in order,
   * or the first line that does not hold six fields.
   */
  function Parse(text: string): (r: Result<seq<Book>, LoadError>)
    ensures r.Success? ==> |r.value| == |Lines(ReadNewlines(text))|
    ensures r.Failure? ==> r.error.line < |Lines(ReadNewlines(text))|
  {
    ParseRows(FileRows(text))
  }

  /**
   * Loading fails exactly when some line of the file, stripped and cut at its
   * commas, does not give six fields; the error names the first such line and
   * its number of fields, and every line before it was well formed.
   */
  lemma LoadFails(text: string)
    ensures var lines := Lines(ReadNewlines(text));
      && (Parse(text).Failure? <==> exists i :: 0 <= i < |lines| && |LineFields(lines[i])| != 6)
      && (Parse(text).Failure? ==>
            var e := Parse(text).error;
            && e.line < |lines|
            && e.fields == |LineFields(lines[e.line])| != 6
            && forall i :: 0 <= i < e.line ==> |LineFields(lines[i])| == 6)
  {
    var lines := Lines(ReadNewlines(text));
    var rows := Rows(lines);
    assert forall i :: 0 <= i < |lines| ==> rows[i] == LineFields(lines[i]);
  }

  /**
   * A book that survives a write and a read: no field holds a comma, a newline
   * or a carriage return, the id does not start with whitespace and the
   * borrower does not end with whitespace (stripping the line would remove it).
   */
  ghost predicate Storable(b: Book) {
    && NoneContains(Fields(b), ',')
    && NoneContains(Fields(b), '\n')
    && NoneContains(Fields(b), '\r')
    && (b.id != "" ==> !IsSpace(b.id[0]))
    && (b.borrower != "" ==> !IsSpace(b.borrower[|b.borrower| - 1]))
  }

  /** A character other than the separator that no piece holds is not in their join. */
  lemma {:induction false} JoinAvoids(fields: seq<string>, sep: char, c: char)
    requires c != sep && NoneContains(fields, c)
    ensures c !in Join(fields, sep)
  {
    if |fields| > 1 {
      JoinAvoids(fields[1..], sep, c);
    }
  }

  /** The line of a storable book, stripped and cut at its commas, gives back the book's fields. */
  lemma LineFieldsOfFormatLine(b: Book)
    requires Storable(b)
    ensures LineFields(FormatLine(b)) == Fields(b)
  {
    var fs := Fields(b);
    var j := Join(fs, ',');
    assert j == b.id + [','] + Join(fs[1..], ',');
    JoinLast(fs, ',');
    assert fs[5] == b.borrower;
    StripNewline(j);
    SplitJoin(fs, ',');
  }

  /** The file text of storable books holds no carriage return, and it reads as one line per book. */
  lemma {:induction false} LinesOfSerialize(books: seq<Book>)
    requires forall i :: 0 <= i < |books| ==> Storable(books[i])
    ensures '\r' !in Serialize(books)
    ensures |Lines(Serialize(books))| == |books|
    ensures forall i :: 0 <= i < |books| ==> Lines(Serialize(books))[i] == FormatLine(books[i])
  {
    if books != [] {
      var b := books[0];
      var j := Join(Fields(b), ',');
      JoinAvoids(Fields(b), ',', '\n');
      JoinAvoids(Fields(b), ',', '\r');
      var rest := Serialize(books[1..]);
      LinesOfSerialize(books[1..]);
      LinesCons(j, rest);
      assert Serialize(books) == j + "\n" + rest;
      var lines := Lines(Serialize(books));
      assert lines == [j + "\n"] + Lines(rest);
      forall i | 1 <= i < |books|
        ensures lines[i] == FormatLine(books[i])
      {
        assert lines[i] == Lines(rest)[i - 1];
        assert books[1..][i - 1] == books[i];
      }
    }
  }

  /** Saving storable books and loading the file gives the same books back, in the same order. */
  lemma RoundTrip(books: seq<Book>)
    requires forall i :: 0 <= i < |books| ==> Storable(books[i])
    ensures Parse(Serialize(books)) == Success(books)
  {
    LinesOfSerialize(books);
    ReadNewlinesNoCR(Serialize(books));
    var rows := FileRows(Serialize(books));
    forall i | 0 <= i < |books|
      ensures rows[i] == Fields(books[i])
    {
      LineFieldsOfFormatLine(books[i]);
    }
    ParseRowsOfFields(rows, books);
  }
}
