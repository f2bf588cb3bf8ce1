/**
 * The stateful part of library/models.py. `Database` holds the tables; `Book` and `Checkout` are
 * in-memory model instances, whose fields the code changes in place and whose `Save` runs
 * full_clean and then writes a row. Two instances of the same row are distinct objects: a change
 * to one is invisible to the other until it is saved, and the last save wins.
 */
module Orm {
  import opened Common
  import opened Models

  datatype SaveError =
    | BookInvalid(reason: BookSaveFailure)
    | CheckoutInvalid(error: CheckoutError)

  datatype BookSaveFailure = FullCleanFailed | NoRowUpdated

  /** The tables: books, checkouts, the framework's users and one profile per user. */
  class Database {
    var books: map<BookId, BookRow>
    var nextBookId: BookId
    var checkouts: map<CheckoutId, CheckoutRow>
    var nextCheckoutId: CheckoutId
    var users: set<UserId>
    var profiles: map<UserId, ProfileRow>

    /** What every write path keeps: valid books, valid checkouts, one profile per user. */
    ghost predicate Valid()
      reads this
    {
      TablesValid(books, nextBookId, checkouts, nextCheckoutId, users, profiles)
    }

    /**
     * Writes the row of a checkout that passed full_clean under primary key `id`: an UPDATE of
     * its own row, or an INSERT under a key not yet in the table.
     */
    method PutCheckout(id: CheckoutId, f: CheckoutFields, stamp: int)
      requires CheckoutFullClean(f, checkouts, books.Keys, users).None?
      requires (f.pk == Some(id) && f.checkoutDate == Some(stamp)) || (f.pk.None? && f.checkoutDate.None? && id !in checkouts)
      modifies this`checkouts, this`nextCheckoutId
      ensures old(Valid()) && f.lateFee >= 0 ==> Valid()
      ensures checkouts == old(checkouts)[id := SavedRow(f, id, stamp)]
      ensures nextCheckoutId == if id < old(nextCheckoutId) then old(nextCheckoutId) else id + 1
    {
      if Valid() && f.lateFee >= 0 {
        WriteKeepsCheckoutsValid(checkouts, books.Keys, users, nextCheckoutId, id, f, stamp);
      }
      checkouts := checkouts[id := SavedRow(f, id, stamp)];
      if nextCheckoutId <= id {
        nextCheckoutId := id + 1;
      }
    }

    constructor ()
      ensures Valid()
      ensures books == map[] && checkouts == map[] && users == {} && profiles == map[]
    {
      books, nextBookId := map[], 0;
      checkouts, nextCheckoutId := map[], 0;
      users, profiles := {}, map[];
    }
  }

  /** The tables' invariant, on their contents. */
  predicate TablesValid(books: map<BookId, BookRow>, nextBookId: BookId, checkouts: map<CheckoutId, CheckoutRow>,
                        nextCheckoutId: CheckoutId, users: set<UserId>, profiles: map<UserId, ProfileRow>) {
    && BooksValid(books)
    && (forall id :: id in books ==> id < nextBookId)
    && CheckoutsValid(checkouts, books.Keys, users, nextCheckoutId)
    && profiles.Keys == users
  }

  /** Replacing the books by valid ones under the same keys keeps the tables valid. */
  lemma BooksReplacedKeepValid(books: map<BookId, BookRow>, books': map<BookId, BookRow>, nextBookId: BookId,
                               checkouts: map<CheckoutId, CheckoutRow>, nextCheckoutId: CheckoutId,
                               users: set<UserId>, profiles: map<UserId, ProfileRow>)
    requires TablesValid(books, nextBookId, checkouts, nextCheckoutId, users, profiles)
    requires BooksValid(books') && books'.Keys == books.Keys
    ensures TablesValid(books', nextBookId, checkouts, nextCheckoutId, users, profiles)
  {
  }

  /** The result of Book.save on a table: full_clean first, then an UPDATE (or INSERT) of the row. */
  function BookSaveOutcome(books: map<BookId, BookRow>, id: BookId, b: BookRow, availableOnly: bool): Outcome<SaveError> {
    if !BookFullClean(id, b, books) then Fail(BookInvalid(FullCleanFailed))
    else if availableOnly && id !in books then Fail(BookInvalid(NoRowUpdated))
    else Pass
  }

  /** The table after Book.save; `availableOnly` is save(update_fields=['available_copies']). */
  function BooksAfterSave(books: map<BookId, BookRow>, id: BookId, b: BookRow, availableOnly: bool): map<BookId, BookRow> {
    if BookSaveOutcome(books, id, b, availableOnly).Fail? then books
    else if availableOnly then books[id := books[id].(availableCopies := b.availableCopies)]
    else books[id := b]
  }

  /**
   * Book.save keeps every stored book valid, provided that an update of the copy count alone comes
   * from an instance that agrees with its row on every other column.
   */
  lemma SaveKeepsBooksValid(books: map<BookId, BookRow>, id: BookId, b: BookRow, availableOnly: bool)
    requires BooksValid(books)
    requires availableOnly && id in books ==> books[id].(availableCopies := b.availableCopies) == b
    ensures BooksValid(BooksAfterSave(books, id, b, availableOnly))
    ensures BooksAfterSave(books, id, b, availableOnly).Keys == books.Keys + (if BookSaveOutcome(books, id, b, availableOnly).Pass? then {id} else {})
  {
    if BookSaveOutcome(books, id, b, availableOnly).Pass? {
      WriteKeepsBooksValid(books, id, b);
    }
  }

  /** An in-memory Book instance. */
  class Book {
    const id: BookId
    var title: string
    var author: string
    var isbn: string
    var totalCopies: int
    var availableCopies: int

    function Row(): BookRow
      reads this
    {
      BookRow(title, author, isbn, totalCopies, availableCopies)
    }

    /** An instance holding `row`, as a query or `Book(...)` builds it. */
    constructor Load(id: BookId, row: BookRow)
      ensures this.id == id && Row() == row
    {
      this.id := id;
      title, author, isbn := row.title, row.author, row.isbn;
      totalCopies, availableCopies := row.totalCopies, row.availableCopies;
    }

    /**
     * Book.save: full_clean, then write. With `availableOnly` only the available_copies column is
     * written, and a missing row is an error.
     */
    method Save(db: Database, availableOnly: bool) returns (r: Outcome<SaveError>)
      modifies db`books
      ensures r == BookSaveOutcome(old(db.books), id, Row(), availableOnly)
      ensures r.Pass? && availableOnly ==> db.books == old(db.books)[id := old(db.books[id]).(availableCopies := availableCopies)]
      ensures r.Pass? && !availableOnly ==> db.books == old(db.books)[id := Row()]
      ensures r.Fail? ==> db.books == old(db.books)
      ensures old(db.Valid()) && id in old(db.books)
              && (availableOnly ==> old(db.books[id]).(availableCopies := availableCopies) == Row())
              ==> db.Valid()
    {
      var valid := db.Valid() && id in db.books
                   && (availableOnly ==> db.books[id].(availableCopies := availableCopies) == Row());
      var after := BooksAfterSave(db.books, id, Row(), availableOnly);
      if valid {
        SaveKeepsBooksValid(db.books, id, Row(), availableOnly);
        BooksReplacedKeepValid(db.books, after, db.nextBookId, db.checkouts, db.nextCheckoutId, db.users, db.profiles);
      }
      r := BookSaveOutcome(db.books, id, Row(), availableOnly);
      db.books := after;
    }
  }

  /** `Book.objects.create(...)`: a new instance under the next primary key, saved. */
  method CreateBook(db: Database, row: BookRow) returns (r: Result<BookId, SaveError>)
    requires db.Valid()
    modifies db`books, db`nextBookId
    ensures db.Valid()
    ensures r.Ok? <==> BookFullClean(old(db.nextBookId), row, old(db.books))
    ensures r.Ok? ==> r.value == old(db.nextBookId) && db.books == old(db.books)[r.value := row]
    ensures r.Err? ==> db.books == old(db.books)
    ensures db.nextBookId == if r.Ok? then old(db.nextBookId) + 1 else old(db.nextBookId)
  {
    var book := new Book.Load(db.nextBookId, row);
    var saved := book.Save(db, false);
    SaveKeepsBooksValid(old(db.books), book.id, row, false);
    if saved.Fail? {
      return Err(saved.error);
    }
    db.nextBookId := db.nextBookId + 1;
    r := Ok(book.id);
  }

  /** An in-memory Checkout instance; `bookCache` is the related Book object once `instance.book` has been resolved. */
  class Checkout {
    var pk: Option<CheckoutId>
    const user: UserId
    const bookId: BookId
    var bookCache: Book?
    var checkoutDate: Option<int>
    var dueDate: Option<int>
    var returnDate: Option<int>
    var isReturned: bool
    var lateFee: int
    var notes: string

    function Fields(): CheckoutFields
      reads this
    {
      CheckoutFields(pk, user, bookId, checkoutDate, dueDate, returnDate, isReturned, lateFee, notes)
    }

    /** `Checkout(user=…, book=book, due_date=…, notes=…)`: unsaved, with `book` as its cached related object. */
    constructor New(user: UserId, book: Book, dueDate: Option<int>, notes: string)
      ensures bookCache == book
      ensures Fields() == CheckoutFields(None, user, book.id, None, dueDate, None, false, 0, notes)
    {
      this.pk := None;
      this.user, this.bookId, this.bookCache := user, book.id, book;
      this.checkoutDate, this.dueDate, this.returnDate := None, dueDate, None;
      this.isReturned, this.lateFee, this.notes := false, 0, notes;
    }

    /** A stored row read back by a query; nothing related is cached. */
    constructor Load(id: CheckoutId, row: CheckoutRow)
      ensures bookCache == null
      ensures Fields() == FieldsOf(id, row)
    {
      this.pk := Some(id);
      this.user, this.bookId, this.bookCache := row.user, row.book, null;
      this.checkoutDate, this.dueDate, this.returnDate := Some(row.checkoutDate), Some(row.dueDate), row.returnDate;
      this.isReturned, this.lateFee, this.notes := row.isReturned, row.lateFee, row.notes;
    }

    /**
     * Checkout.save: fill in the due date and late fee (PrepareSave), run full_clean, then insert
     * the row (stamping the checkout date) or update it. Returns whether a row was created, which
     * is what the post_save receivers are told. The instance keeps the prepared fields even when
     * full_clean fails.
     */
    method Save(db: Database, now: int) returns (r: Result<bool, SaveError>)
      requires db.Valid()
      requires pk.Some? ==> pk.value in db.checkouts && checkoutDate.Some?
      requires pk.None? ==> checkoutDate.None?
      modifies this`pk, this`checkoutDate, this`dueDate, this`lateFee, db`checkouts, db`nextCheckoutId
      ensures old(lateFee) >= 0 ==> db.Valid()
      ensures var f := PrepareSave(old(Fields()), now);
              var e := CheckoutFullClean(f, old(db.checkouts), db.books.Keys, db.users);
              && r == (if e.Some? then Err(CheckoutInvalid(e.value)) else Ok(old(pk).None?))
              && Fields() == (if r.Ok? && old(pk).None?
                              then f.(pk := Some(old(db.nextCheckoutId)), checkoutDate := Some(now))
                              else f)
      ensures r.Ok? ==> pk.Some? && checkoutDate.Some? && dueDate.Some?
                        && db.checkouts == old(db.checkouts)[pk.value := RowOf(Fields())]
      ensures r.Err? ==> db.checkouts == old(db.checkouts)
      ensures db.nextCheckoutId == (if r == Ok(true) then old(db.nextCheckoutId) + 1 else old(db.nextCheckoutId))
    {
      var f := PrepareSave(Fields(), now);
      dueDate, lateFee := f.dueDate, f.lateFee;
      var e := CheckoutFullClean(f, db.checkouts, db.books.Keys, db.users);
      if e.Some? {
        return Err(CheckoutInvalid(e.value));
      }
      var created := pk.None?;
      var id := if created then db.nextCheckoutId else pk.value;
      var stamp := if created then now else checkoutDate.value;
      db.PutCheckout(id, f, stamp);
      pk, checkoutDate := Some(id), Some(stamp);
      r := Ok(created);
    }
  }
}
