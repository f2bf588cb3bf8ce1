/**
 * library/serializers.py: the two field validators of BookSerializer and the create path of
 * CheckoutCreateSerializer. A DRF ValidationError becomes a 400 answer; any other exception
 * escaping `create` (a Django ValidationError from full_clean) is a server error.
 */
module Serializers {
  import opened Common
  import opened Models
  import opened Orm
  import opened Signals

  datatype SerializerError =
    | IsbnNotDigits        // "ISBN must be exactly 10 or 13 digits."
    | AvailableAboveTotal  // "Available copies cannot exceed total copies."
    | NoAvailableCopies    // "No available copies for this book."

  /** BookSerializer.validate_isbn: the length is 10 or 13 and `str.isdigit` holds. */
  function ValidateIsbn(value: string): (r: Outcome<SerializerError>)
    ensures r.Pass? <==> (|value| == 10 || |value| == 13) && forall i :: 0 <= i < |value| ==> '0' <= value[i] <= '9'
    ensures r.Fail? ==> r.error == IsbnNotDigits
  {
    if !(|value| == 10 || |value| == 13) || !AllDigits(value) then Fail(IsbnNotDigits) else Pass
  }

  /**
   * Applied to the same string, the serializer's ISBN check and the model field's validators agree
   * on every value except ten digits followed by a line feed, which the model's regular expression
   * accepts (Python's `$` matches before a final newline) and validate_isbn refuses. Through the
   * API the serializer's CharField trims surrounding whitespace first, so such a request reaches
   * validate_isbn as ten digits.
   */
  lemma IsbnChecksAgree(s: string)
    ensures ValidateIsbn(s).Pass? ==> IsbnFieldValid(s)
    ensures IsbnFieldValid(s) && ValidateIsbn(s).Fail? <==> |s| == 11 && s[10] == '\n' && AllDigits(s[..10])
  {
    IsbnFieldMeaning(s);
  }

  /**
   * BookSerializer.validate_available_copies: refused only when the request also carries a total
   * and the value exceeds it. `total` is the request's total_copies, already read as a number.
   */
  function ValidateAvailableCopies(value: int, total: Option<int>): (r: Outcome<SerializerError>)
    ensures r.Fail? <==> total.Some? && value > total.value
    ensures r.Fail? ==> r.error == AvailableAboveTotal
  {
    if total.Some? && value > total.value then Fail(AvailableAboveTotal) else Pass
  }

  /** With the total in the request, the serializer refuses exactly the books Book.clean refuses for exceeding it. */
  lemma AvailableCheckMatchesClean(b: BookRow)
    ensures ValidateAvailableCopies(b.availableCopies, Some(b.totalCopies)).Fail? <==> BookClean(b) == Some(AvailableExceedsTotal)
  {
  }

  /**
   * Without a total in the request (a partial update), any copy count passes the serializer;
   * a count above the stored total is then refused only by Book.full_clean inside save.
   */
  lemma PartialUpdateGap(b: BookRow, v: int)
    requires v > b.totalCopies
    ensures ValidateAvailableCopies(v, None).Pass?
    ensures BookClean(b.(availableCopies := v)) == Some(AvailableExceedsTotal)
  {
  }

  datatype CreateResult =
    | Made(checkout: CheckoutId)        // the new checkout
    | Refused(reason: SerializerError)  // a DRF ValidationError: 400
    | Raised(failure: SaveError)        // any other exception: 500

  /**
   * CheckoutCreateSerializer.create for the requesting `user` and the validated `book`,
   * `due_date` and optional `notes`. It refuses when no copy is on the shelf; otherwise it takes a
   * copy and saves the book whole, then creates the checkout, whose receiver takes a second copy
   * from the same instance while one is left. It makes no duplicate check of its own: a second
   * open checkout of the pair is stopped by Checkout.full_clean, after the book was saved.
   */
  method Create(db: Database, user: UserId, bookId: BookId, dueDate: int, notes: Option<string>, now: int)
    returns (r: CreateResult)
    requires db.Valid() && user in db.users && bookId in db.books
    modifies db`books, db`checkouts, db`nextCheckoutId
    ensures db.Valid()
    ensures var b := old(db.books[bookId]);
            var a := b.availableCopies;
            var row := CheckoutRow(user, bookId, now, dueDate, None, false, 0, if notes.Some? then notes.value else "");
            if a < 1 then
              && r == Refused(NoAvailableCopies)
              && db.books == old(db.books) && db.checkouts == old(db.checkouts)
              && db.nextCheckoutId == old(db.nextCheckoutId)
            else if OtherOpen(old(db.checkouts), None, user, bookId) then
              && r == Raised(CheckoutInvalid(AlreadyCheckedOut))
              && db.books == old(db.books)[bookId := b.(availableCopies := a - 1)]
              && db.checkouts == old(db.checkouts) && db.nextCheckoutId == old(db.nextCheckoutId)
            else
              && r == Made(old(db.nextCheckoutId))
              && db.books == old(db.books)[bookId := b.(availableCopies := Max(0, a - 2))]
              && db.checkouts == old(db.checkouts)[old(db.nextCheckoutId) := row]
              && db.nextCheckoutId == old(db.nextCheckoutId) + 1
  {
    var book := new Book.Load(bookId, db.books[bookId]);
    if book.availableCopies < 1 {
      return Refused(NoAvailableCopies);
    }
    assert StoredBookValid(db.books, bookId);
    book.availableCopies := book.availableCopies - 1;
    CopyCountClean(db.books, bookId, book.availableCopies);
    var stored := book.Save(db, false);
    assert stored.Pass?;
    var text := if notes.Some? then notes.value else "";
    NewCheckoutClean(db.checkouts, db.books.Keys, db.users, user, bookId, dueDate, text, now);
    var created := CreateCheckout(db, user, book, Some(dueDate), text, now);
    if created.Err? {
      return Raised(created.error);
    }
    return Made(created.value);
  }

  /**
   * The double take on a concrete input: a book with two copies, both on the shelf, that the
   * member does not hold. One create succeeds and leaves no copy on the shelf.
   */
  method CreateDoubleTakeWitness(db: Database, user: UserId, bookId: BookId, dueDate: int, now: int)
    returns (after: int, r: CreateResult)
    requires db.Valid() && user in db.users && bookId in db.books
    requires db.books[bookId].totalCopies == 2 && db.books[bookId].availableCopies == 2
    requires !OtherOpen(db.checkouts, None, user, bookId)
    modifies db`books, db`checkouts, db`nextCheckoutId
    ensures r.Made? && after == 0
  {
    r := Create(db, user, bookId, dueDate, None, now);
    after := db.books[bookId].availableCopies;
  }

  /**
   * CheckoutCreateSerializer.create as evidently intended: the post_save receiver takes the copy,
   * so the serializer's own decrement and save are left out. One create takes exactly one copy,
   * and a refused create changes nothing.
   */
  method CreateCorrected(db: Database, user: UserId, bookId: BookId, dueDate: int, notes: Option<string>, now: int)
    returns (r: CreateResult)
    requires db.Valid() && user in db.users && bookId in db.books
    modifies db`books, db`checkouts, db`nextCheckoutId
    ensures db.Valid()
    ensures var b := old(db.books[bookId]);
            var a := b.availableCopies;
            var row := CheckoutRow(user, bookId, now, dueDate, None, false, 0, if notes.Some? then notes.value else "");
            if a < 1 then
              && r == Refused(NoAvailableCopies)
              && db.books == old(db.books) && db.checkouts == old(db.checkouts)
              && db.nextCheckoutId == old(db.nextCheckoutId)
            else if OtherOpen(old(db.checkouts), None, user, bookId) then
              && r == Raised(CheckoutInvalid(AlreadyCheckedOut))
              && db.books == old(db.books) && db.checkouts == old(db.checkouts)
              && db.nextCheckoutId == old(db.nextCheckoutId)
            else
              && r == Made(old(db.nextCheckoutId))
              && db.books == old(db.books)[bookId := b.(availableCopies := a - 1)]
              && db.checkouts == old(db.checkouts)[old(db.nextCheckoutId) := row]
              && db.nextCheckoutId == old(db.nextCheckoutId) + 1
  {
    var book := new Book.Load(bookId, db.books[bookId]);
    if book.availableCopies < 1 {
      return Refused(NoAvailableCopies);
    }
    var text := if notes.Some? then notes.value else "";
    NewCheckoutClean(db.checkouts, db.books.Keys, db.users, user, bookId, dueDate, text, now);
    var created := CreateCheckout(db, user, book, Some(dueDate), text, now);
    if created.Err? {
      return Raised(created.error);
    }
    return Made(created.value);
  }
}
