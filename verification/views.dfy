/**
 * The two write actions of BookViewSet in library/views.py: checkout and return_book. Each is
 * written as the sequence of steps the code performs: load the book, check the guards, save the
 * checkout (which runs both post_save receivers of library/signals.py), then adjust and save the
 * view's own Book instance. An exception escaping any step is a server error; the writes made
 * before it stay.
 */
module Views {
  import opened Common
  import opened Models
  import opened Orm
  import opened Signals

  datatype ViewError =
    | NoCopiesAvailable   // "No copies available"
    | DuplicateLoan       // "Already checked out"
    | NotBorrowed         // "You did not checkout this book"

  datatype Response =
    | Created(checkout: CheckoutId)    // 201, the new checkout
    | Returned(checkout: CheckoutId)   // 200, the returned checkout
    | BadRequest(error: ViewError)     // 400
    | NotFound                         // 404, no such book
    | ServerError                      // 500, an exception escaped the view

  /** The row `Checkout.objects.create(user=…, book=…, due_date=now + 14 days)` stores at time `now`. */
  function NewLoan(user: UserId, book: BookId, now: int): (r: CheckoutRow)
    ensures r.user == user && r.book == book && r.checkoutDate == now
    ensures !r.isReturned && r.returnDate.None? && r.lateFee == 0 && r.notes == ""
    ensures r.dueDate == r.checkoutDate + LoanDays * SecondsPerDay
    ensures WholeDays(r.dueDate - r.checkoutDate) == LoanDays
  {
    CheckoutRow(user, book, now, now + LoanDays * SecondsPerDay, None, false, 0, "")
  }

  /**
   * Checkout.is_overdue and days_overdue on a loan the checkout view stores at time `t`: it is not
   * overdue up to and including its due date 14 days later, overdue at every later instant until it
   * is returned, never overdue once returned, and `n` whole days past the due date it is `n` days
   * overdue.
   */
  lemma NewLoanOverdue(user: UserId, book: BookId, t: int, now: int, n: nat)
    ensures IsOverdue(NewLoan(user, book, t), now) <==> now > t + LoanDays * SecondsPerDay
    ensures !IsOverdue(NewLoan(user, book, t).(isReturned := true, returnDate := Some(now)), now)
    ensures n >= 1 ==> DaysOverdue(NewLoan(user, book, t), t + LoanDays * SecondsPerDay + n * SecondsPerDay) == n
  {
  }

  /** Does `row` record an open checkout of `book` by `user`? */
  predicate IsOpenLoan(row: CheckoutRow, user: UserId, book: BookId) {
    row.user == user && row.book == book && !row.isReturned
  }

  /** The open checkout of a pair; unique_together makes it the only one. */
  ghost function OpenLoan(checkouts: map<CheckoutId, CheckoutRow>, user: UserId, book: BookId): (id: CheckoutId)
    requires OtherOpen(checkouts, None, user, book)
    ensures id in checkouts && IsOpenLoan(checkouts[id], user, book)
  {
    var id :| id in checkouts && None != Some(id) && checkouts[id].user == user
              && checkouts[id].book == book && !checkouts[id].isReturned;
    id
  }

  /** `Checkout.objects.filter(user=…, book=…, is_returned=False).first()`: an open checkout of the pair, if any. */
  method FindOpen(db: Database, user: UserId, book: BookId) returns (found: Option<CheckoutId>)
    requires db.Valid()
    ensures found.None? <==> !OtherOpen(db.checkouts, None, user, book)
    ensures found.Some? ==> found.value in db.checkouts && IsOpenLoan(db.checkouts[found.value], user, book)
  {
    var id := 0;
    while id < db.nextCheckoutId
      invariant 0 <= id <= db.nextCheckoutId
      invariant forall k :: k in db.checkouts && k < id ==> !IsOpenLoan(db.checkouts[k], user, book)
    {
      if id in db.checkouts && IsOpenLoan(db.checkouts[id], user, book) {
        return Some(id);
      }
      id := id + 1;
    }
    return None;
  }

  /**
   * BookViewSet.checkout as written. `Checkout.objects.create(book=book)` keeps the view's Book
   * instance as the checkout's related object, so the post_save receiver decrements that same
   * instance and stores it; the view then decrements it once more and saves it whole. With two or
   * more copies on the shelf one checkout takes two; with one, the receiver stores 0 and the
   * view's own save fails full_clean, after the checkout row was written.
   */
  method CheckoutBook(db: Database, user: UserId, bookId: BookId, now: int) returns (resp: Response)
    requires db.Valid() && user in db.users
    modifies db`books, db`checkouts, db`nextCheckoutId
    ensures db.Valid()
    ensures bookId !in old(db.books) ==>
      resp == NotFound && db.books == old(db.books) && db.checkouts == old(db.checkouts)
      && db.nextCheckoutId == old(db.nextCheckoutId)
    ensures bookId in old(db.books) && old(db.books[bookId]).availableCopies < 1 ==>
      resp == BadRequest(NoCopiesAvailable) && db.books == old(db.books) && db.checkouts == old(db.checkouts)
      && db.nextCheckoutId == old(db.nextCheckoutId)
    ensures bookId in old(db.books) && old(db.books[bookId]).availableCopies >= 1
            && OtherOpen(old(db.checkouts), None, user, bookId) ==>
      resp == BadRequest(DuplicateLoan) && db.books == old(db.books) && db.checkouts == old(db.checkouts)
      && db.nextCheckoutId == old(db.nextCheckoutId)
    ensures bookId in old(db.books) && old(db.books[bookId]).availableCopies >= 1
            && !OtherOpen(old(db.checkouts), None, user, bookId) ==>
      var b := old(db.books[bookId]);
      && db.checkouts == old(db.checkouts)[old(db.nextCheckoutId) := NewLoan(user, bookId, now)]
      && db.nextCheckoutId == old(db.nextCheckoutId) + 1
      && db.books == old(db.books)[bookId := b.(availableCopies := if b.availableCopies >= 2 then b.availableCopies - 2 else 0)]
      && resp == (if b.availableCopies >= 2 then Created(old(db.nextCheckoutId)) else ServerError)
  {
    if bookId !in db.books {
      return NotFound;
    }
    var book := new Book.Load(bookId, db.books[bookId]);
    if book.availableCopies < 1 {
      return BadRequest(NoCopiesAvailable);
    }
    var held := FindOpen(db, user, bookId);
    if held.Some? {
      return BadRequest(DuplicateLoan);
    }
    ghost var b := book.Row();
    assert StoredBookValid(db.books, bookId);
    NewCheckoutClean(db.checkouts, db.books.Keys, db.users, user, bookId, now + LoanDays * SecondsPerDay, "", now);
    var created := CreateCheckout(db, user, book, Some(now + LoanDays * SecondsPerDay), "", now);
    assert created.Ok?;
    ghost var f := CheckoutFields(None, user, bookId, None, Some(now + LoanDays * SecondsPerDay), None, false, 0, "");
    assert SavedRow(f, created.value, now) == NewLoan(user, bookId, now);
    assert db.checkouts == old(db.checkouts)[old(db.nextCheckoutId) := NewLoan(user, bookId, now)];
    ghost var books1 := db.books;
    assert books1 == old(db.books)[bookId := b.(availableCopies := b.availableCopies - 1)];
    book.availableCopies := book.availableCopies - 1;
    assert book.Row() == b.(availableCopies := b.availableCopies - 2);
    CopyCountClean(books1, bookId, book.availableCopies);
    var stored := book.Save(db, false);
    if stored.Fail? {
      assert b.availableCopies == 1;
      return ServerError;
    }
    assert db.books == books1[bookId := b.(availableCopies := b.availableCopies - 2)];
    return Created(created.value);
  }

  /**
   * BookViewSet.return_book as written. The checkout is read by a query, so its related Book is
   * read afresh by the return receiver, which adds a copy while below the total and stores it; the
   * view then adds one to its own instance, read before the save, and stores it whole, which
   * overwrites the receiver's write with the same count. The net change is one copy. When all
   * copies are already on the shelf the receiver does nothing and the view's save fails
   * full_clean, after the checkout was marked returned. The late fee is never recomputed, because
   * is_returned is set before the save.
   */
  method ReturnBook(db: Database, user: UserId, bookId: BookId, now: int) returns (resp: Response)
    requires db.Valid()
    modifies db`books, db`checkouts, db`nextCheckoutId
    ensures db.Valid()
    ensures db.nextCheckoutId == old(db.nextCheckoutId)
    ensures bookId !in old(db.books) ==>
      resp == NotFound && db.books == old(db.books) && db.checkouts == old(db.checkouts)
    ensures bookId in old(db.books) && !OtherOpen(old(db.checkouts), None, user, bookId) ==>
      resp == BadRequest(NotBorrowed) && db.books == old(db.books) && db.checkouts == old(db.checkouts)
    ensures bookId in old(db.books) && OtherOpen(old(db.checkouts), None, user, bookId) ==>
      var id := OpenLoan(old(db.checkouts), user, bookId);
      var b := old(db.books[bookId]);
      if ReturnRejected(old(db.checkouts), id, now) then
        resp == ServerError && db.books == old(db.books) && db.checkouts == old(db.checkouts)
      else
        && db.checkouts == old(db.checkouts)[id := old(db.checkouts[id]).(isReturned := true, returnDate := Some(now))]
        && if b.availableCopies < b.totalCopies
           then resp == Returned(id) && db.books == old(db.books)[bookId := b.(availableCopies := b.availableCopies + 1)]
           else resp == ServerError && db.books == old(db.books)
  {
    if bookId !in db.books {
      return NotFound;
    }
    var book := new Book.Load(bookId, db.books[bookId]);
    var found := FindOpen(db, user, bookId);
    if found.None? {
      return BadRequest(NotBorrowed);
    }
    var id := found.value;
    AtMostOneOpen(db.checkouts, db.books.Keys, db.users, db.nextCheckoutId, id, OpenLoan(db.checkouts, user, bookId));
    ghost var b := book.Row();
    assert StoredBookValid(db.books, bookId);
    var c := new Checkout.Load(id, db.checkouts[id]);
    c.isReturned := true;
    c.returnDate := Some(now);
    var saved := SaveReturn(db, c, now);
    if saved.Err? {
      return ServerError;
    }
    ghost var books1 := db.books;
    book.availableCopies := book.availableCopies + 1;
    CopyCountClean(books1, bookId, book.availableCopies);
    var stored := book.Save(db, false);
    if stored.Fail? {
      return ServerError;
    }
    return Returned(id);
  }

  /**
   * BookViewSet.checkout as evidently intended: the post_save receiver already takes the copy, so
   * the view's own decrement and save are left out, and one checkout takes exactly one copy.
   */
  method CheckoutBookCorrected(db: Database, user: UserId, bookId: BookId, now: int) returns (resp: Response)
    requires db.Valid() && user in db.users
    modifies db`books, db`checkouts, db`nextCheckoutId
    ensures db.Valid()
    ensures bookId !in old(db.books) ==>
      resp == NotFound && db.books == old(db.books) && db.checkouts == old(db.checkouts)
      && db.nextCheckoutId == old(db.nextCheckoutId)
    ensures bookId in old(db.books) && old(db.books[bookId]).availableCopies < 1 ==>
      resp == BadRequest(NoCopiesAvailable) && db.books == old(db.books) && db.checkouts == old(db.checkouts)
      && db.nextCheckoutId == old(db.nextCheckoutId)
    ensures bookId in old(db.books) && old(db.books[bookId]).availableCopies >= 1
            && OtherOpen(old(db.checkouts), None, user, bookId) ==>
      resp == BadRequest(DuplicateLoan) && db.books == old(db.books) && db.checkouts == old(db.checkouts)
      && db.nextCheckoutId == old(db.nextCheckoutId)
    ensures bookId in old(db.books) && old(db.books[bookId]).availableCopies >= 1
            && !OtherOpen(old(db.checkouts), None, user, bookId) ==>
      var b := old(db.books[bookId]);
      && resp == Created(old(db.nextCheckoutId))
      && db.checkouts == old(db.checkouts)[old(db.nextCheckoutId) := NewLoan(user, bookId, now)]
      && db.nextCheckoutId == old(db.nextCheckoutId) + 1
      && db.books == old(db.books)[bookId := b.(availableCopies := b.availableCopies - 1)]
  {
    if bookId !in db.books {
      return NotFound;
    }
    var book := new Book.Load(bookId, db.books[bookId]);
    if book.availableCopies < 1 {
      return BadRequest(NoCopiesAvailable);
    }
    var held := FindOpen(db, user, bookId);
    if held.Some? {
      return BadRequest(DuplicateLoan);
    }
    NewCheckoutClean(db.checkouts, db.books.Keys, db.users, user, bookId, now + LoanDays * SecondsPerDay, "", now);
    var created := CreateCheckout(db, user, book, Some(now + LoanDays * SecondsPerDay), "", now);
    assert created.Ok?;
    return Created(created.value);
  }

  /**
   * With the corrected checkout, a member who has no returned loan of this book borrows it and
   * gives it back: the book's row is as it was, and the loan is recorded as returned. A member
   * who has returned it before is covered by RepeatBorrowerRoundTrip.
   */
  method CorrectedRoundTrip(db: Database, user: UserId, bookId: BookId, now: int) returns (lent: Response, back: Response)
    requires db.Valid() && user in db.users && bookId in db.books
    requires db.books[bookId].availableCopies >= 1 && !OtherOpen(db.checkouts, None, user, bookId)
    requires UniqueTogetherFree(db.checkouts, None, user, bookId, true)
    modifies db`books, db`checkouts, db`nextCheckoutId
    ensures lent == Created(old(db.nextCheckoutId)) && back == Returned(old(db.nextCheckoutId))
    ensures db.books == old(db.books)
    ensures db.checkouts == old(db.checkouts)[old(db.nextCheckoutId) := NewLoan(user, bookId, now).(isReturned := true, returnDate := Some(now))]
  {
    var id := db.nextCheckoutId;
    assert StoredBookValid(db.books, bookId);
    lent := CheckoutBookCorrected(db, user, bookId, now);
    assert IsOpenLoan(db.checkouts[id], user, bookId);
    AtMostOneOpen(db.checkouts, db.books.Keys, db.users, db.nextCheckoutId, id, OpenLoan(db.checkouts, user, bookId));
    assert UniqueTogetherFree(db.checkouts, Some(id), user, bookId, true) by {
      forall k | k in db.checkouts && Some(id) != Some(k)
        ensures !(db.checkouts[k].user == user && db.checkouts[k].book == bookId && db.checkouts[k].isReturned)
      {
        assert db.checkouts[k] == old(db.checkouts[k]);
      }
    }
    back := ReturnBook(db, user, bookId, now);
  }

  /**
   * With the checkout as written, a member who has no returned loan of this book borrows it while
   * two or more copies are on the shelf and gives it back: one copy fewer than before is left.
   */
  method AsWrittenRoundTrip(db: Database, user: UserId, bookId: BookId, now: int) returns (lent: Response, back: Response)
    requires db.Valid() && user in db.users && bookId in db.books
    requires db.books[bookId].availableCopies >= 2 && !OtherOpen(db.checkouts, None, user, bookId)
    requires UniqueTogetherFree(db.checkouts, None, user, bookId, true)
    modifies db`books, db`checkouts, db`nextCheckoutId
    ensures lent == Created(old(db.nextCheckoutId)) && back == Returned(old(db.nextCheckoutId))
    ensures db.books == old(db.books)[bookId := old(db.books[bookId]).(availableCopies := old(db.books[bookId]).availableCopies - 1)]
  {
    var id := db.nextCheckoutId;
    assert StoredBookValid(db.books, bookId);
    lent := CheckoutBook(db, user, bookId, now);
    assert IsOpenLoan(db.checkouts[id], user, bookId);
    AtMostOneOpen(db.checkouts, db.books.Keys, db.users, db.nextCheckoutId, id, OpenLoan(db.checkouts, user, bookId));
    assert UniqueTogetherFree(db.checkouts, Some(id), user, bookId, true) by {
      forall k | k in db.checkouts && Some(id) != Some(k)
        ensures !(db.checkouts[k].user == user && db.checkouts[k].book == bookId && db.checkouts[k].isReturned)
      {
        assert db.checkouts[k] == old(db.checkouts[k]);
      }
    }
    back := ReturnBook(db, user, bookId, now);
  }

  /**
   * A member who has returned this book before cannot return it again: the returned row's triple
   * (user, book, is_returned = true) is taken, so the save of the second return fails
   * validate_unique. Even with the corrected checkout, the view then answers 500, the new loan
   * stays open, and the copy it took stays off the shelf.
   */
  method RepeatBorrowerRoundTrip(db: Database, user: UserId, bookId: BookId, now: int) returns (lent: Response, back: Response)
    requires db.Valid() && user in db.users && bookId in db.books
    requires db.books[bookId].availableCopies >= 1 && !OtherOpen(db.checkouts, None, user, bookId)
    requires !UniqueTogetherFree(db.checkouts, None, user, bookId, true)
    modifies db`books, db`checkouts, db`nextCheckoutId
    ensures lent == Created(old(db.nextCheckoutId)) && back == ServerError
    ensures db.books == old(db.books)[bookId := old(db.books[bookId]).(availableCopies := old(db.books[bookId]).availableCopies - 1)]
    ensures db.checkouts == old(db.checkouts)[old(db.nextCheckoutId) := NewLoan(user, bookId, now)]
  {
    var id := db.nextCheckoutId;
    assert StoredBookValid(db.books, bookId);
    ghost var k :| k in db.checkouts && db.checkouts[k].user == user && db.checkouts[k].book == bookId && db.checkouts[k].isReturned;
    assert k < id;
    lent := CheckoutBookCorrected(db, user, bookId, now);
    assert IsOpenLoan(db.checkouts[id], user, bookId);
    AtMostOneOpen(db.checkouts, db.books.Keys, db.users, db.nextCheckoutId, id, OpenLoan(db.checkouts, user, bookId));
    assert db.checkouts[k] == old(db.checkouts[k]);
    assert ReturnRejected(db.checkouts, id, now);
    back := ReturnBook(db, user, bookId, now);
  }

  /**
   * The double decrement on a concrete input: a book with two copies, both on the shelf, that the
   * member does not hold. A single checkout through the view succeeds and leaves no copy on the shelf.
   */
  method DoubleDecrementWitness(db: Database, user: UserId, bookId: BookId, now: int) returns (after: int, resp: Response)
    requires db.Valid() && user in db.users && bookId in db.books
    requires db.books[bookId].totalCopies == 2 && db.books[bookId].availableCopies == 2
    requires !OtherOpen(db.checkouts, None, user, bookId)
    modifies db`books, db`checkouts, db`nextCheckoutId
    ensures resp.Created? && after == 0
  {
    resp := CheckoutBook(db, user, bookId, now);
    after := db.books[bookId].availableCopies;
  }
}
