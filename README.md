# Library record store, modelled in Dafny

This project models the record store of a small single-user library manager.
A `Library` object owns an ordered list of `Book` records and the text of its
books file. Each book has six text fields: id, title, author, year, status and
borrower. The store adds a book under a fresh id, lends and takes back a book,
deletes the first book with a given id, and searches ids and titles without
regard to case. After every change it rewrites the whole file, one
comma-separated line per book. It reads that file back at start-up.

Modules:

- `Text` (`text.dfy`) holds the Python string and file-reading behaviour the
  store depends on: `str.strip` with Python's whitespace set, `str.split` and
  `str.join` on one separator, ASCII `str.lower`, the substring test `q in s`,
  universal-newline reading and iteration over the lines of a file.
- `Catalog` (`catalog.dfy`) defines the `Book` record and the `Outcome` values
  (one per message the store prints). It gives each operation as a pure
  transition on the list of books (`Add`, `Borrow`, `Return`, `Delete`,
  `Search`), and proves lemmas about them.
- `Storage` (`storage.dfy`) holds the file format: `Serialize` writes it and
  `Parse` reads it back. It proves the round trip and when loading fails.
- `LibraryStore` (`library.dfy`) holds the class `Library`, with fields `books`
  and `stored`. Its methods run the same loops as the source, change the
  fields in place, and are proved to do what the `Catalog` and `Storage`
  functions describe. `Session` walks through one session for any book and
  names: add, borrow, a refused second borrow, return, delete.

Where the code and the written design of the system disagree, the model follows
the code:

- The design asks for a non-empty id on add. The code accepts any id, the empty
  one included, and so does `Add`.
- The design says search also finds a book by author. The code compares only
  id and title (`library-management-system.py:62`), and so does `Matches`.
- The design says a borrowed book always has a borrower. The code stores
  whatever name it is given, the empty one included. `BorrowEmptyName` shows a
  borrowed book left with no borrower. `OperationsKeepConsistent` proves the
  invariant only for non-empty names.
- The design says a malformed line is caught by the menu's error handler. In
  the code, `Library()` runs before the menu's `try`
  (`library-management-system.py:110`), so the exception ends the program.
  `Library.Open` returns a `Failure` and no store comes into being.
- The design gives status two values. A loaded file can hold any status.
  Borrow and return skip a book whose id matches but whose status is neither
  value (`Decides`).

The books file has no escaping. A comma, newline or carriage return inside a
field, leading whitespace in an id, or trailing whitespace in a borrower does
not survive a save and load. `Storable` names the books that do, and
`RoundTrip` is proved for them. A borrower name that holds a comma is saved
as written. So is a comma in any other free-text field (title, author, year).
The line then reads back with more than six fields, and the next start-up
fails (`LoadFails`).

## Model

| member | source | states |
|---|---|---|
| `Text.IsSpace` | library-management-system.py:22 | The characters `strip()` removes: every ASCII whitespace character is one, and no comma, digit or ASCII letter is. |
| `Text.StripLeft` | library-management-system.py:22 | The result is a suffix of the input that does not start with whitespace, and everything removed is whitespace. |
| `Text.StripRight` | library-management-system.py:22 | The result is a prefix of the input that does not end with whitespace, and everything removed is whitespace. |
| `Text.Strip` | library-management-system.py:22 | `line.strip()` is no longer than the line, neither of its ends is whitespace, and it is empty exactly when the line is all whitespace. |
| `Text.StripNewline` | library-management-system.py:22 | Stripping a written line (text plus `\n`) gives back the text when the text neither starts nor ends with whitespace. |
| `Text.Split` | library-management-system.py:22 | `split(",")` gives at least one piece, and at most one more than the length of the text. |
| `Text.Join` | library-management-system.py:30 | Joining no pieces gives the empty string; with two or more, the first piece comes first and the separator follows it. |
| `Text.JoinSplit` | library-management-system.py:22 | No piece produced by `split` holds the separator, and joining the pieces restores the string. |
| `Text.SplitJoin` | library-management-system.py:30 | Splitting a join of pieces without the separator gives the pieces back. |
| `Text.Lower` | library-management-system.py:57 | `lower()` keeps the length and leaves no capital ASCII letter. |
| `Text.Contains` | library-management-system.py:62 | The empty string is in every string, and a string that is in another is no longer than it. |
| `Text.ContainsIff` | library-management-system.py:62 | `q in s` holds exactly when `q` occurs in `s` at some position (both directions). |
| `Text.ReadNewlines` | library-management-system.py:20-21 | Text read in universal-newline mode holds no carriage return. |
| `Text.ReadNewlinesNoCR` | library-management-system.py:20-21 | Text without a carriage return reads back unchanged. |
| `Text.Lines` | library-management-system.py:21 | Iterating the file yields only non-empty lines. |
| `Text.LinesConcat` | library-management-system.py:21 | The lines laid end to end give back the text. No line holds a newline before its last character, and every line but the last ends in a newline. |
| `Text.LinesCons` | library-management-system.py:21 | Text ending in a newline, followed by more text, is read as that line followed by the lines of the rest. |
| `Catalog.Add` | library-management-system.py:35-41 | A conflict is reported exactly when some book has the id, and otherwise the book is added. The list grows by one exactly when the book is added, and the books already there stay as they were. |
| `Catalog.AddFresh` | library-management-system.py:35-41 | A fresh id appends exactly one book, with status "Available" and no borrower. Earlier books are unchanged, and unique ids and status/borrower agreement are preserved. |
| `Catalog.AddTaken` | library-management-system.py:35-37 | A taken id reports a conflict and leaves the list unchanged. |
| `Catalog.FirstDeciding` | library-management-system.py:71-80 | Returns the first position whose book has the id and status "Available" or "Borrowed", or none when no book does. |
| `Catalog.Borrow` | library-management-system.py:71-81 | Borrow lends, reports the book already borrowed, or reports not found. It never changes the length of the list, changes nothing unless it lends, and reports not found exactly when no book decides. |
| `Catalog.BorrowAvailable` | library-management-system.py:71-77 | When the first deciding book is available, borrow reports it and sets status "Borrowed" and the given borrower. No other book or field changes. |
| `Catalog.BorrowRefused` | library-management-system.py:78-81 | Borrow changes nothing unless it lends a book. A borrowed book is reported with its own borrower. "Not found" comes back exactly when no book decides. |
| `Catalog.Return` | library-management-system.py:86-96 | Return frees a book, reports it already available, or reports not found. It never changes the length of the list, changes nothing unless it frees a book, and reports not found exactly when no book decides. |
| `Catalog.ReturnBorrowed` | library-management-system.py:86-92 | When the first deciding book is borrowed, return reports it and sets status "Available" with no borrower. No other book or field changes. |
| `Catalog.ReturnRefused` | library-management-system.py:93-96 | Return changes nothing unless it frees a book. "Already available" comes back, carrying that book's title, exactly when the deciding book is available. "Not found" comes back exactly when no book decides. |
| `Catalog.BorrowReturnKeepCatalogue` | library-management-system.py:71-96 | Borrow and return keep every id, title, author and year, and therefore keep ids unique. |
| `Catalog.BorrowThenReturn` | library-management-system.py:71-92 | A successful borrow followed by a return of the same id leaves that book available with no borrower. A book that had no borrower is restored exactly. |
| `Catalog.ReturnThenBorrow` | library-management-system.py:71-92 | A successful return followed by a borrow of the same id by the former borrower restores the list exactly. |
| `Catalog.OperationsKeepConsistent` | library-management-system.py:32-107 | Add, return and delete preserve status/borrower agreement; borrow preserves it when the name is non-empty. |
| `Catalog.BorrowEmptyName` | library-management-system.py:74 | Borrowing with an empty name leaves a borrowed book with no borrower. |
| `Catalog.FirstWithId` | library-management-system.py:101-102 | Returns the first position whose book has the id, or none exactly when no book has it. |
| `Catalog.Delete` | library-management-system.py:101-107 | Delete removes a book or reports not found. Not found comes back, with the list unchanged, exactly when no book has the id. Otherwise the list is one book shorter. |
| `Catalog.DeleteFound` | library-management-system.py:101-106 | Delete removes exactly the first book with the id and reports its title. The list shrinks by one, the other books keep their order, and the multiset loses only that book. |
| `Catalog.DeleteMissing` | library-management-system.py:107 | Without a book with the id, delete reports not found and changes nothing. |
| `Catalog.DeleteKeepsUniqueIds` | library-management-system.py:101-106 | With unique ids, no book has the id after the delete, and the remaining ids are still unique. |
| `Catalog.Matches` | library-management-system.py:62 | The empty query matches every book, and a matching query is no longer than the id or the title. |
| `Catalog.Search` | library-management-system.py:61-64 | The books found are no more than the list holds, and every one of them matches the query. |
| `Catalog.SearchMembers` | library-management-system.py:61-64 | The result holds exactly the books of the list whose lowered id or title contains the lowered query, and it is no longer than the list. |
| `Catalog.SearchAppend` | library-management-system.py:61-64 | Search keeps list order: the search of a concatenation is the concatenation of the searches. |
| `Catalog.SearchIgnoresCase` | library-management-system.py:57 | Searching for the lowered query gives the same books as searching for the query. |
| `Catalog.SearchEmptyQuery` | library-management-system.py:62 | The empty query matches every book. |
| `Storage.FormatLine` | library-management-system.py:30 | The line of a book ends in a newline and is exactly as long as its six fields plus five commas and the newline: nothing is quoted or escaped. |
| `Storage.Serialize` | library-management-system.py:28-30 | The file text is empty exactly when there are no books, and otherwise it ends in a newline. |
| `Storage.SerializeSnoc` | library-management-system.py:29-30 | Writing one more book appends its line, `id,title,author,year,status,borrower\n`, to the file text. |
| `Storage.LineFields` | library-management-system.py:22 | A stripped line always cuts into at least one field. No field holds a comma, and the fields joined with commas give back the stripped line. |
| `Storage.Record` | library-management-system.py:22-23 | Six fields make a book whose fields are exactly those six. Any other count is an error carrying the count. |
| `Storage.ParseRows` | library-management-system.py:21-23 | Parsing succeeds exactly when every line has six fields, with one book per line in order. Otherwise it names the first bad line and its field count. |
| `Storage.ParsedPrefix` | library-management-system.py:21-23 | Books appended one per line for a prefix of the lines are exactly what that prefix parses to. |
| `Storage.ParseRowsStopsAt` | library-management-system.py:22 | When all lines before position i parse, a bad line at i fails the whole load at i, whatever follows it. |
| `Storage.Parse` | library-management-system.py:18-23 | A successful load gives exactly one book per line of the file. A failed one names a line of the file. |
| `Storage.LoadFails` | library-management-system.py:21-22 | Loading fails exactly when some line of the file does not have six fields. The error names the first such line and its field count. |
| `Storage.LineFieldsOfFormatLine` | library-management-system.py:30 | The written line of a storable book, stripped and split at commas, gives back the book's six fields. |
| `Storage.LinesOfSerialize` | library-management-system.py:28-30 | The file text of storable books holds no carriage return and reads back as one line per book, in order. |
| `Storage.RoundTrip` | library-management-system.py:18-30 | Loading the file written for storable books gives back the same books in the same order. |
| `LibraryStore.Library.Empty` | library-management-system.py:14-15 | A new store starts with no books and the given file contents. |
| `LibraryStore.Library.Open` | library-management-system.py:14-16 | Start-up produces a fresh store holding the parsed books exactly when the file parses. Otherwise it returns the parse error. |
| `LibraryStore.Library.LoadBooks` | library-management-system.py:18-23 | Loading appends the parsed books of the file. On a malformed line it returns that error, and the books of the earlier lines stay appended. The file text is unchanged. |
| `LibraryStore.Library.AppendLines` | library-management-system.py:21-23 | The line loop appends one book per line and stops at the first line without six fields, as `ParseRows` describes. |
| `LibraryStore.Library.SaveBooks` | library-management-system.py:27-30 | After saving, the file text is the serialisation of the whole list. |
| `LibraryStore.Library.AddBook` | library-management-system.py:32-43 | The outcome and the new list are those of `Add`. After a successful add, the file is the serialisation of the new list; otherwise it is unchanged. |
| `LibraryStore.Library.BorrowBook` | library-management-system.py:68-81 | The outcome and the new list are those of `Borrow`. The file is rewritten only after a successful borrow. |
| `LibraryStore.Library.ReturnBook` | library-management-system.py:83-96 | The outcome and the new list are those of `Return`. The file is rewritten only after a successful return. |
| `LibraryStore.Library.DeleteBook` | library-management-system.py:98-107 | The outcome and the new list are those of `Delete`. The file is rewritten only after a successful delete. |
| `LibraryStore.Library.SearchBook` | library-management-system.py:55-66 | Read-only. Returns, in list order, exactly the books whose lowered id or title contains the lowered query. An empty result is the "not found" report. |

## Left out

- Console I/O is left out. Every `input()` value is a method parameter and every `print` is an `Outcome` value. The menu loop in `main`, with its catch-all `except`, is a thin shell and is not modelled (library-management-system.py:109-142).
- `view_books` and `Book.__str__` are left out. They only print the list in a fixed-width layout (library-management-system.py:10-11, 45-53); the rows shown are `books` in order.
- File-system access is left out. The `stored` field stands for the contents of `books.txt`. A missing file reads as empty text, so the `FileNotFoundError` branch gives the same empty list; its notice is not modelled.
- A failed or partial write of the file (full disk, a crash mid-write) is not modelled. Saving always succeeds.
- Character encoding is not modelled. The file is treated as a sequence of characters, not as bytes in the locale's encoding. Python's translation of `\n` to the platform line ending on write (an identity on POSIX) is also left out.
- Text.Lower: lowercases only the ASCII letters A-Z, where Python's `str.lower` covers all of Unicode; so the model's search is case-insensitive for ASCII only.
- Book objects are modelled as values. The source mutates a `Book` object inside the list in place, but no `Book` object is ever shared, so value semantics give the same results. `list.remove` removes that same object, which is the first book with the id.
