/**
 * The book records of the store and what each of its operations does to the
 * ordered list of books, as pure transitions. The `Library` class in module
 * `LibraryStore` runs these operations in place and is proved against them.
 */
module Catalog {
  import opened Wrappers
  import opened Text

  const AVAILABLE := "Available"
  const BORROWED := "Borrowed"

  /**
   * One catalogue entry. Every field is text, `year` included. `status` is
   * "Available" or "Borrowed" for books the store creates, but a loaded file
   * may put anything there.
   */
  datatype Book = Book(id: string, title: string, author: string, year: string, status: string, borrower: string)

  /** What an operation reports, one value per message the store prints. */
  datatype Outcome =
    | Added
    | Conflict
    | Borrowed(title: string)
    | AlreadyBorrowed(title: string, borrower: string)
    | Returned(title: string)
    | AlreadyAvailable(title: string)
    | Deleted(title: string)
    | NotFound
  {
    /** The outcomes after which the store rewrites its file. */
    predicate Saves() {
      Added? || Borrowed? || Returned? || Deleted?
    }
  }

  /** The outcome of an operation together with the list of books after it. */
  datatype Step = Step(outcome: Outcome, books: seq<Book>)

  /** Some book carries `id` (exact, case-sensitive comparison). */
  predicate HasId(books: seq<Book>, id: string) {
    exists i :: 0 <= i < |books| && books[i].id == id
  }

  /** No two books share an id. */
  ghost predicate UniqueIds(books: seq<Book>) {
    forall i, j :: 0 <= i < j < |books| ==> books[i].id != books[j].id
  }

  /** Two lists hold the same books in the same order, up to status and borrower. */
  ghost predicate SameCatalogue(a: seq<Book>, b: seq<Book>) {
    && |a| == |b|
    && forall j :: 0 <= j < |a| ==>
         a[j].id == b[j].id && a[j].title == b[j].title && a[j].author == b[j].author && a[j].year == b[j].year
  }

  /** A book whose status and borrower agree: no borrower when available, a borrower when borrowed. */
  ghost predicate Consistent(b: Book) {
    && (b.status == AVAILABLE ==> b.borrower == "")
    && (b.status == BORROWED ==> b.borrower != "")
  }

  ghost predicate AllConsistent(books: seq<Book>) {
    forall j :: 0 <= j < |books| ==> Consistent(books[j])
  }

  // ---------------------------------------------------------------- add

  /**
   * Adding a book: a taken id is refused, otherwise an available book with no
   * borrower goes at the end. Either way the books already there stay as they were.
   */
  function Add(books: seq<Book>, id: string, title: string, author: string, year: string): (r: Step)
    ensures r.outcome == Conflict <==> HasId(books, id)
    ensures r.outcome == Conflict || r.outcome == Added
    ensures |r.books| == if r.outcome == Added then |books| + 1 else |books|
    ensures r.books[..|books|] == books
  {
    if HasId(books, id) then Step(Conflict, books)
    else Step(Added, books + [Book(id, title, author, year, AVAILABLE, "")])
  }

  /** A fresh id grows the list by one at the end; the books before it stay as they were and ids stay distinct. */
  lemma AddFresh(books: seq<Book>, id: string, title: string, author: string, year: string)
    requires !HasId(books, id)
    ensures var s := Add(books, id, title, author, year);
      && s.outcome == Added
      && |s.books| == |books| + 1
      && s.books[..|books|] == books
      && s.books[|books|] == Book(id, title, author, year, AVAILABLE, "")
      && (UniqueIds(books) ==> UniqueIds(s.books))
      && (AllConsistent(books) ==> AllConsistent(s.books))
  {
  }

  /** A taken id leaves the list as it was and reports a conflict. */
  lemma AddTaken(books: seq<Book>, id: string, title: string, author: string, year: string)
    requires HasId(books, id)
    ensures Add(books, id, title, author, year) == Step(Conflict, books)
  {
  }

  // ------------------------------------------------------ borrow and return

  /** Borrow and return stop at the first book with the id whose status is one of the two they know. */
  predicate Decides(b: Book, id: string) {
    b.id == id && (b.status == AVAILABLE || b.status == BORROWED)
  }

  /** The position of the first book that decides a borrow or return of `id`, if any. */
  function FirstDeciding(books: seq<Book>, id: string): (r: Option<nat>)
    ensures r.Some? ==> r.value < |books| && Decides(books[r.value], id)
    ensures r.Some? ==> forall j :: 0 <= j < r.value ==> !Decides(books[j], id)
    ensures r.None? ==> forall j :: 0 <= j < |books| ==> !Decides(books[j], id)
  {
    if books == [] then None
    else if Decides(books[0], id) then Some(0)
    else match FirstDeciding(books[1..], id)
      case None => None
      case Some(i) => Some(i + 1)
  }

  /**
   * Borrowing: the deciding book, when available, becomes borrowed by `name`;
   * otherwise nothing changes. The list keeps its length, and "not found"
   * comes back exactly when no book decides.
   */
  function Borrow(books: seq<Book>, id: string, name: string): (r: Step)
    ensures r.outcome.Borrowed? || r.outcome.AlreadyBorrowed? || r.outcome.NotFound?
    ensures |r.books| == |books|
    ensures !r.outcome.Borrowed? ==> r.books == books
    ensures r.outcome.NotFound? <==> forall j :: 0 <= j < |books| ==> !Decides(books[j], id)
  {
    match FirstDeciding(books, id)
    case None => Step(NotFound, books)
    case Some(i) =>
      if books[i].status == AVAILABLE then
        Step(Borrowed(books[i].title), books[i := books[i].(status := BORROWED, borrower := name)])
      else
        Step(AlreadyBorrowed(books[i].title, books[i].borrower), books)
  }

  /**
   * Returning: the deciding book, when borrowed, becomes available with no
   * borrower; otherwise nothing changes. The list keeps its length, and "not
   * found" comes back exactly when no book decides.
   */
  function Return(books: seq<Book>, id: string): (r: Step)
    ensures r.outcome.Returned? || r.outcome.AlreadyAvailable? || r.outcome.NotFound?
    ensures |r.books| == |books|
    ensures !r.outcome.Returned? ==> r.books == books
    ensures r.outcome.NotFound? <==> forall j :: 0 <= j < |books| ==> !Decides(books[j], id)
  {
    match FirstDeciding(books, id)
    case None => Step(NotFound, books)
    case Some(i) =>
      if books[i].status == BORROWED then
        Step(Returned(books[i].title), books[i := books[i].(status := AVAILABLE, borrower := "")])
      else
        Step(AlreadyAvailable(books[i].title), books)
  }

  /** Position `i` is the first one that decides for `id`. */
  ghost predicate DecidesFirst(books: seq<Book>, id: string, i: int) {
    0 <= i < |books| && Decides(books[i], id) && forall j :: 0 <= j < i ==> !Decides(books[j], id)
  }

  /** Changing the deciding book into another deciding book keeps it the first to decide. */
  lemma {:induction false} FirstDecidingAfterUpdate(books: seq<Book>, id: string, i: nat, b: Book)
    requires DecidesFirst(books, id, i)
    requires Decides(b, id)
    ensures FirstDeciding(books, id) == Some(i)
    ensures FirstDeciding(books[i := b], id) == Some(i)
  {
    var updated := books[i := b];
    assert Decides(updated[i], id);
    assert forall j :: 0 <= j < i ==> !Decides(updated[j], id);
  }

  /**
   * Borrow lends the first deciding book exactly when it is available: it
   * becomes "Borrowed" by `name`, and no other book and no other field changes.
   */
  lemma BorrowAvailable(books: seq<Book>, id: string, name: string, i: nat)
    requires DecidesFirst(books, id, i) && books[i].status == AVAILABLE
    ensures var s := Borrow(books, id, name);
      && s.outcome == Borrowed(books[i].title)
      && |s.books| == |books|
      && s.books[i] == Book(books[i].id, books[i].title, books[i].author, books[i].year, BORROWED, name)
      && (forall j :: 0 <= j < |books| && j != i ==> s.books[j] == books[j])
  {
    FirstDecidingAfterUpdate(books, id, i, books[i]);
  }

  /**
   * Borrow changes nothing unless it lends a book: a borrowed book keeps its
   * borrower (and is reported with it), and without a deciding book the id is
   * reported not found.
   */
  lemma BorrowRefused(books: seq<Book>, id: string, name: string)
    ensures var s := Borrow(books, id, name);
      && (s.outcome.Borrowed? || s.books == books)
      && (s.outcome.NotFound? <==> forall j :: 0 <= j < |books| ==> !Decides(books[j], id))
      && (s.outcome.AlreadyBorrowed? <==>
            exists i :: DecidesFirst(books, id, i) && books[i].status == BORROWED
                        && s.outcome == AlreadyBorrowed(books[i].title, books[i].borrower))
  {
    var r := FirstDeciding(books, id);
    if r.Some? {
      assert DecidesFirst(books, id, r.value);
      forall i | DecidesFirst(books, id, i)
        ensures i == r.value
      {
      }
    }
  }

  /**
   * Return frees the first deciding book exactly when it is borrowed: it becomes
   * "Available" with no borrower, and no other book and no other field changes.
   */
  lemma ReturnBorrowed(books: seq<Book>, id: string, i: nat)
    requires DecidesFirst(books, id, i) && books[i].status == BORROWED
    ensures var s := Return(books, id);
      && s.outcome == Returned(books[i].title)
      && |s.books| == |books|
      && s.books[i] == Book(books[i].id, books[i].title, books[i].author, books[i].year, AVAILABLE, "")
      && (forall j :: 0 <= j < |books| && j != i ==> s.books[j] == books[j])
  {
    FirstDecidingAfterUpdate(books, id, i, books[i]);
  }

  /**
   * Return changes nothing unless it frees a book: an available book is
   * reported with its title, and without a deciding book the id is reported
   * not found.
   */
  lemma ReturnRefused(books: seq<Book>, id: string)
    ensures var s := Return(books, id);
      && (s.outcome.Returned? || s.books == books)
      && (s.outcome.NotFound? <==> forall j :: 0 <= j < |books| ==> !Decides(books[j], id))
      && (s.outcome.AlreadyAvailable? <==>
            exists i :: DecidesFirst(books, id, i) && books[i].status == AVAILABLE
                        && s.outcome == AlreadyAvailable(books[i].title))
  {
    var r := FirstDeciding(books, id);
    if r.Some? {
      assert DecidesFirst(books, id, r.value);
      forall i | DecidesFirst(books, id, i)
        ensures i == r.value
      {
      }
    }
  }

  /** Borrow and return touch only status and borrower, so ids, titles, authors and years stay put. */
  lemma BorrowReturnKeepCatalogue(books: seq<Book>, id: string, name: string)
    ensures SameCatalogue(books, Borrow(books, id, name).books)
    ensures SameCatalogue(books, Return(books, id).books)
    ensures UniqueIds(books) ==> UniqueIds(Borrow(books, id, name).books) && UniqueIds(Return(books, id).books)
  {
  }

  /**
   * A successful borrow followed by a return of the same id leaves the book
   * available with no borrower and everything else as before; a book that had
   * no borrower to begin with (as every book the store adds) is restored exactly.
   */
  lemma {:induction false} BorrowThenReturn(books: seq<Book>, id: string, name: string)
    requires Borrow(books, id, name).outcome.Borrowed?
    ensures var i := FirstDeciding(books, id).value;
      var r := Return(Borrow(books, id, name).books, id);
      && r.outcome == Returned(books[i].title)
      && r.books == books[i := books[i].(borrower := "")]
      && (books[i].borrower == "" ==> r.books == books)
  {
    var i := FirstDeciding(books, id).value;
    var lent := books[i].(status := BORROWED, borrower := name);
    FirstDecidingAfterUpdate(books, id, i, lent);
    assert books[i := lent][i := lent.(status := AVAILABLE, borrower := "")] == books[i := books[i].(borrower := "")];
  }

  /** A successful return followed by a borrow of the same id by the former borrower restores the list exactly. */
  lemma {:induction false} ReturnThenBorrow(books: seq<Book>, id: string)
    requires Return(books, id).outcome.Returned?
    ensures var i := FirstDeciding(books, id).value;
      var r := Borrow(Return(books, id).books, id, books[i].borrower);
      && r.outcome == Borrowed(books[i].title)
      && r.books == books
  {
    var i := FirstDeciding(books, id).value;
    var freed := books[i].(status := AVAILABLE, borrower := "");
    FirstDecidingAfterUpdate(books, id, i, freed);
  }

  /**
   * Every operation keeps status and borrower in agreement, except that a borrow
   * with an empty name gives a borrowed book with no borrower: the store never
   * checks the name it is given.
   */
  lemma OperationsKeepConsistent(books: seq<Book>, id: string, title: string, author: string, year: string, name: string)
    requires AllConsistent(books)
    ensures AllConsistent(Add(books, id, title, author, year).books)
    ensures AllConsistent(Return(books, id).books)
    ensures AllConsistent(Delete(books, id).books)
    ensures name != "" ==> AllConsistent(Borrow(books, id, name).books)
  {
    var d := Delete(books, id).books;
    match FirstWithId(books, id)
    case None =>
    case Some(i) =>
      assert forall j :: 0 <= j < |d| ==> d[j] == books[if j < i then j else j + 1];
  }

  /** The empty name breaks the agreement: a one-book store lent to "" holds a borrowed book with no borrower. */
  lemma BorrowEmptyName()
    ensures var books := [Book("B1", "Dune", "Herbert", "1965", AVAILABLE, "")];
      && AllConsistent(books)
      && !AllConsistent(Borrow(books, "B1", "").books)
  {
    var books := [Book("B1", "Dune", "Herbert", "1965", AVAILABLE, "")];
    assert DecidesFirst(books, "B1", 0);
    BorrowAvailable(books, "B1", "", 0);
    assert !Consistent(Borrow(books, "B1", "").books[0]);
  }

  // ---------------------------------------------------------------- delete

  /** The position of the first book with `id`, if any. */
  function FirstWithId(books: seq<Book>, id: string): (r: Option<nat>)
    ensures r.Some? ==> r.value < |books| && books[r.value].id == id
    ensures r.Some? ==> forall j :: 0 <= j < r.value ==> books[j].id != id
    ensures r.None? <==> !HasId(books, id)
  {
    if books == [] then None
    else if books[0].id == id then Some(0)
    else match FirstWithId(books[1..], id)
      case None => None
      case Some(i) => Some(i + 1)
  }

  /**
   * Deleting: the first book with the id leaves the list. "Not found" comes
   * back, with the list unchanged, exactly when no book has the id; otherwise
   * the list is one book shorter.
   */
  function Delete(books: seq<Book>, id: string): (r: Step)
    ensures r.outcome.Deleted? || r.outcome.NotFound?
    ensures r.outcome.NotFound? <==> !HasId(books, id)
    ensures r.outcome.NotFound? ==> r.books == books
    ensures r.outcome.Deleted? ==> |r.books| == |books| - 1
  {
    match FirstWithId(books, id)
    case None => Step(NotFound, books)
    case Some(i) => Step(Deleted(books[i].title), books[..i] + books[i + 1..])
  }

  /** Position `i` holds the first book with `id`. */
  ghost predicate FirstWith(books: seq<Book>, id: string, i: int) {
    0 <= i < |books| && books[i].id == id && forall j :: 0 <= j < i ==> books[j].id != id
  }

  /**
   * Delete removes exactly the first book with the id: one book fewer, and the
   * others keep their old order.
   */
  lemma DeleteFound(books: seq<Book>, id: string, i: nat)
    requires FirstWith(books, id, i)
    ensures var s := Delete(books, id);
      && s.outcome == Deleted(books[i].title)
      && |s.books| == |books| - 1
      && s.books == books[..i] + books[i + 1..]
      && multiset(s.books) + multiset{books[i]} == multiset(books)
  {
    assert books == books[..i] + [books[i]] + books[i + 1..];
  }

  /** Without a book with the id, delete reports it not found and changes nothing. */
  lemma DeleteMissing(books: seq<Book>, id: string)
    requires !HasId(books, id)
    ensures Delete(books, id) == Step(NotFound, books)
  {
  }

  /** With unique ids, deleting an id leaves no book with it and the remaining ids unique. */
  lemma DeleteKeepsUniqueIds(books: seq<Book>, id: string)
    requires UniqueIds(books)
    ensures UniqueIds(Delete(books, id).books)
    ensures !HasId(Delete(books, id).books, id)
  {
    var s := Delete(books, id).books;
    match FirstWithId(books, id)
    case None =>
    case Some(i) =>
      assert s == books[..i] + books[i + 1..];
      forall j | 0 <= j < |s|
        ensures s[j] == books[if j < i then j else j + 1] && s[j].id != id
      {
      }
  }

  // ---------------------------------------------------------------- search

  /**
   * The search test: the lowered query occurs in the lowered id or in the
   * lowered title. The empty query matches every book, and a matching query
   * is no longer than the id or the title it occurs in.
   */
  predicate Matches(b: Book, query: string): (m: bool)
    ensures query == [] ==> m
    ensures m ==> |query| <= |b.id| || |query| <= |b.title|
  {
    var q := Lower(query);
    Contains(Lower(b.id), q) || Contains(Lower(b.title), q)
  }

  /** Searching: the books that match, in list order; no more books than the list holds, and every one of them matches. */
  function Search(books: seq<Book>, query: string): (r: seq<Book>)
    ensures |r| <= |books|
    ensures forall i :: 0 <= i < |r| ==> Matches(r[i], query)
  {
    if books == [] then []
    else (if Matches(books[0], query) then [books[0]] else []) + Search(books[1..], query)
  }

  /** The search result holds exactly the books of the list that match the query. */
  lemma {:induction false} SearchMembers(books: seq<Book>, query: string)
    ensures forall b :: b in Search(books, query) <==> b in books && Matches(b, query)
    ensures |Search(books, query)| <= |books|
  {
    if books != [] {
      SearchMembers(books[1..], query);
      assert books == [books[0]] + books[1..];
    }
  }

  /** Search keeps list order: searching a concatenation concatenates the results. */
  lemma {:induction false} SearchAppend(a: seq<Book>, b: seq<Book>, query: string)
    ensures Search(a + b, query) == Search(a, query) + Search(b, query)
  {
    if a == [] {
      assert a + b == b;
    } else {
      assert (a + b)[1..] == a[1..] + b;
      SearchAppend(a[1..], b, query);
    }
  }

  /** The query's case does not matter: searching for its lowered form gives the same books. */
  lemma {:induction false} SearchIgnoresCase(books: seq<Book>, query: string)
    ensures Search(books, Lower(query)) == Search(books, query)
  {
    LowerIdempotent(query);
    if books != [] {
      SearchIgnoresCase(books[1..], query);
    }
  }

  /** The empty query matches every book. */
  lemma {:induction false} SearchEmptyQuery(books: seq<Book>)
    ensures Search(books, "") == books
  {
    if books != [] {
      assert Lower("") == "";
      SearchEmptyQuery(books[1..]);
    }
  }
}
