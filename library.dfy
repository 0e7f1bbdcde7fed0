/**
 * The store itself: a `Library` object that owns the ordered list of books
 * and the text of its books file, and changes both in place. Every method
 * runs the scan the store runs and is proved to do what the matching pure
 * transition of module `Catalog` describes; after every change it rewrites
 * the file with the whole list.
 */
module LibraryStore {
  import opened Wrappers
  import opened Text
  import opened Catalog
  import opened Storage

  class Library {
    /** The books, in insertion order. */
    var books: seq<Book>
    /** The contents of the books file. A missing file reads as no text. */
    var stored: string

    /** An empty store over a books file with the given contents; nothing is read yet. */
    constructor Empty(file: string)
      ensures books == [] && stored == file
    {
      books := [];
      stored := file;
    }

    /**
     * Opening the store: start empty and load the file. A line without six
     * fields aborts the start-up, so no store comes into being.
     */
    static method Open(file: string) returns (r: Result<Library, LoadError>)
      ensures r.Success? <==> Parse(file).Success?
      ensures r.Success? ==> fresh(r.value) && r.value.books == Parse(file).value && r.value.stored == file
      ensures r.Failure? ==> r.error == Parse(file).error
    {
      var lib := new Library.Empty(file);
      var err := lib.LoadBooks();
      if err.Some? {
        return Failure(err.value);
      }
      return Success(lib);
    }

    /**
     * Reading the books file: its lines, in text mode, each appended as one
     * book. At the first line that does not hold six fields the reading stops:
     * the books of the lines before it stay appended, and the error is returned.
     */
    method LoadBooks() returns (err: Option<LoadError>)
      modifies this
      ensures stored == old(stored)
      ensures err.None? <==> Parse(stored).Success?
      ensures err.None? ==> books == old(books) + Parse(stored).value
      ensures err.Some? ==>
        && err.value == Parse(stored).error
        && books == old(books) + ParseRows(FileRows(stored)[..err.value.line]).value
    {
      var lines := Lines(ReadNewlines(stored));
      err := AppendLines(lines);
    }

    /** The loop of `LoadBooks`: one book per line, stopping at the first line without six fields. */
    method AppendLines(lines: seq<string>) returns (err: Option<LoadError>)
      modifies this`books
      ensures err.None? <==> ParseRows(Rows(lines)).Success?
      ensures err.None? ==> books == old(books) + ParseRows(Rows(lines)).value
      ensures err.Some? ==>
        && err.value == ParseRows(Rows(lines)).error
        && books == old(books) + ParseRows(Rows(lines)[..err.value.line]).value
    {
      ghost var rows := Rows(lines);
      ghost var before := books;
      err := None;
      var i := 0;
      while i < |lines|
        invariant 0 <= i <= |lines| == |rows|
        invariant err.None?
        invariant AppendedRows(rows, i, before, books)
      {
        var fields := LineFields(lines[i]);
        assert fields == rows[i];
        if |fields| != 6 {
          err := Some(MalformedLine(i, |fields|));
          break;
        }
        AppendRow(rows, i, before, books);
        books := books + [Record(fields).value];
        i := i + 1;
      }
      ParsedPrefix(rows, i, before, books);
      if err.Some? {
        ParseRowsStopsAt(rows, i);
      } else {
        assert rows[..i] == rows;
      }
    }

    /** Rewriting the file: one line per book, in list order. */
    method SaveBooks()
      modifies this`stored
      ensures stored == Serialize(books)
    {
      var text := "";
      for i := 0 to |books|
        invariant text == Serialize(books[..i])
      {
        SerializeSnoc(books[..i], books[i]);
        assert books[..i + 1] == books[..i] + [books[i]];
        text := text + FormatLine(books[i]);
      }
      assert books[..|books|] == books;
      stored := text;
    }

    /**
     * Adding a book: when some book already has the id the call is refused and
     * nothing changes; otherwise the new book, available and without borrower,
     * goes at the end and the file is rewritten.
     */
    method AddBook(id: string, title: string, author: string, year: string) returns (outcome: Outcome)
      modifies this
      ensures outcome == Add(old(books), id, title, author, year).outcome
      ensures books == Add(old(books), id, title, author, year).books
      ensures stored == if outcome == Added then Serialize(books) else old(stored)
    {
      var i := 0;
      while i < |books|
        invariant 0 <= i <= |books|
        invariant forall j :: 0 <= j < i ==> books[j].id != id
      {
        if books[i].id == id {
          return Conflict;
        }
        i := i + 1;
      }
      books := books + [Book(id, title, author, year, AVAILABLE, "")];
      SaveBooks();
      return Added;
    }

    /**
     * Borrowing: the scan stops at the first book with the id whose status is
     * "Available" or "Borrowed". An available one becomes borrowed by `name`
     * and the file is rewritten; a borrowed one is reported with its borrower.
     */
    method BorrowBook(id: string, name: string) returns (outcome: Outcome)
      modifies this
      ensures outcome == Borrow(old(books), id, name).outcome
      ensures books == Borrow(old(books), id, name).books
      ensures stored == if outcome.Borrowed? then Serialize(books) else old(stored)
    {
      var i := 0;
      while i < |books|
        invariant 0 <= i <= |books|
        invariant forall j :: 0 <= j < i ==> !Decides(books[j], id)
      {
        var book := books[i];
        if book.id == id && book.status == AVAILABLE {
          books := books[i := book.(status := BORROWED, borrower := name)];
          SaveBooks();
          return Borrowed(book.title);
        } else if book.id == id && book.status == BORROWED {
          return AlreadyBorrowed(book.title, book.borrower);
        }
        i := i + 1;
      }
      return NotFound;
    }

    /**
     * Returning: the scan stops at the first book with the id whose status is
     * "Borrowed" or "Available". A borrowed one becomes available with no
     * borrower and the file is rewritten; an available one is reported as such.
     */
    method ReturnBook(id: string) returns (outcome: Outcome)
      modifies this
      ensures outcome == Return(old(books), id).outcome
      ensures books == Return(old(books), id).books
      ensures stored == if outcome.Returned? then Serialize(books) else old(stored)
    {
      var i := 0;
      while i < |books|
        invariant 0 <= i <= |books|
        invariant forall j :: 0 <= j < i ==> !Decides(books[j], id)
      {
        var book := books[i];
        if book.id == id && book.status == BORROWED {
          books := books[i := book.(status := AVAILABLE, borrower := "")];
          SaveBooks();
          return Returned(book.title);
        } else if book.id == id && book.status == AVAILABLE {
          return AlreadyAvailable(book.title);
        }
        i := i + 1;
      }
      return NotFound;
    }

    /** Deleting: the first book with the id leaves the list and the file is rewritten. */
    method DeleteBook(id: string) returns (outcome: Outcome)
      modifies this
      ensures outcome == Delete(old(books), id).outcome
      ensures books == Delete(old(books), id).books
      ensures stored == if outcome.Deleted? then Serialize(books) else old(stored)
    {
      var i := 0;
      while i < |books|
        invariant 0 <= i <= |books|
        invariant forall j :: 0 <= j < i ==> books[j].id != id
      {
        var book := books[i];
        if book.id == id {
          books := books[..i] + books[i + 1..];
          SaveBooks();
          return Deleted(book.title);
        }
        i := i + 1;
      }
      return NotFound;
    }

    /**
     * Searching: the books whose id or title holds the query, ignoring case,
     * in list order. An empty answer is the "not found" report. Nothing changes.
     */
    method SearchBook(query: string) returns (matches: seq<Book>)
      ensures matches == Search(books, query)
      ensures forall b :: b in matches <==> b in books && Matches(b, query)
    {
      var q := Lower(query);
      matches := [];
      for i := 0 to |books|
        invariant matches == Search(books[..i], query)
      {
        var book := books[i];
        SearchAppend(books[..i], [book], query);
        assert books[..i + 1] == books[..i] + [book];
        if Contains(Lower(book.id), q) || Contains(Lower(book.title), q) {
          matches := matches + [book];
        }
      }
      assert books[..|books|] == books;
      SearchMembers(books, query);
    }
  }

  /**
   * The walk-through of a session: a book is added and lent, a second borrower
   * is turned away and told who has it, the book comes back, and deleting it
   * leaves the store and its file empty.
   */
  method Session(id: string, title: string, author: string, year: string, name: string, other: string) {
    var lib := new Library.Empty("");
    var book := Book(id, title, author, year, AVAILABLE, "");
    AddFresh([], id, title, author, year);
    var outcome := lib.AddBook(id, title, author, year);
    assert outcome == Added && lib.books == [book];
    assert DecidesFirst(lib.books, id, 0);
    BorrowAvailable(lib.books, id, name, 0);
    outcome := lib.BorrowBook(id, name);
    assert outcome == Borrowed(title);
    assert lib.books == [book.(status := BORROWED, borrower := name)];
    assert DecidesFirst(lib.books, id, 0);
    BorrowRefused(lib.books, id, other);
    outcome := lib.BorrowBook(id, other);
    assert outcome == AlreadyBorrowed(title, name);
    ReturnBorrowed(lib.books, id, 0);
    outcome := lib.ReturnBook(id);
    assert outcome == Returned(title) && lib.books == [book];
    assert FirstWith(lib.books, id, 0);
    DeleteFound(lib.books, id, 0);
    outcome := lib.DeleteBook(id);
    assert outcome == Deleted(title);
    assert lib.books == [] && lib.stored == "";
  }
}
