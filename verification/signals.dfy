/**
 * library/signals.py: the post_save receivers. The two Checkout receivers adjust the related book's
 * available_copies through `instance.book`, which is the Book object the checkout was built with
 * when there is one, and otherwise a new instance read from the table; each writes only the
 * available_copies column. The User receivers create a member profile for every new user.
 */
module Signals {
  import opened Common
  import opened Models
  import opened Orm

  /**
   * The row update_book_availability_on_checkout writes, if any: on the creation of an unreturned
   * checkout, one copy fewer, but only while a copy is left.
   */
  function DecrementOnCheckout(created: bool, isReturned: bool, seen: BookRow): (w: Option<BookRow>)
    ensures w.Some? <==> created && !isReturned && seen.availableCopies > 0
    ensures w.Some? ==> w.value.availableCopies + 1 == seen.availableCopies && w.value.availableCopies >= 0
    ensures w.Some? ==> w.value == seen.(availableCopies := w.value.availableCopies)
  {
    if created && !isReturned && seen.availableCopies > 0
    then Some(seen.(availableCopies := seen.availableCopies - 1))
    else None
  }

  /**
   * Book.is_available is the test that the code elsewhere spells out on available_copies: the
   * checkout view refuses a book with fewer than one copy on the shelf exactly when it is not
   * available, and the checkout receiver takes a copy from exactly the available books.
   */
  lemma AvailabilityGuardsAgree(b: BookRow)
    ensures IsAvailable(b) <==> !(b.availableCopies < 1)
    ensures IsAvailable(b) <==> DecrementOnCheckout(true, false, b).Some?
    ensures IsAvailable(b) ==> DecrementOnCheckout(true, false, b).value.availableCopies == b.availableCopies - 1
  {
  }

  /**
   * The row update_book_availability_on_return writes, if any: on every save of a checkout marked
   * returned with a return date, one copy more, but only while below the total.
   */
  function IncrementOnReturn(isReturned: bool, hasReturnDate: bool, seen: BookRow): (w: Option<BookRow>)
    ensures w.Some? <==> isReturned && hasReturnDate && seen.availableCopies < seen.totalCopies
    ensures w.Some? ==> w.value.availableCopies == seen.availableCopies + 1 <= seen.totalCopies
    ensures w.Some? ==> w.value == seen.(availableCopies := w.value.availableCopies)
  {
    if isReturned && hasReturnDate && seen.availableCopies < seen.totalCopies
    then Some(seen.(availableCopies := seen.availableCopies + 1))
    else None
  }

  /** The book after `n` saves of the same returned checkout, each seeing the previous one's write. */
  function AfterReturnSaves(n: nat, seen: BookRow): BookRow {
    if n == 0 then seen
    else
      var prev := AfterReturnSaves(n - 1, seen);
      match IncrementOnReturn(true, true, prev)
      case Some(w) => w
      case None => prev
  }

  /**
   * Saving a returned checkout again and again adds at most one copy per save and never lifts
   * available_copies above total_copies.
   */
  lemma {:induction false} RepeatedReturnSavesClamp(n: nat, seen: BookRow)
    requires seen.availableCopies <= seen.totalCopies
    ensures AfterReturnSaves(n, seen).availableCopies == Min(seen.availableCopies + n, seen.totalCopies)
    ensures AfterReturnSaves(n, seen) == seen.(availableCopies := AfterReturnSaves(n, seen).availableCopies)
  {
    if n > 0 {
      RepeatedReturnSavesClamp(n - 1, seen);
    }
  }

  /** A cached Book instance agrees with its stored row on every column but, possibly, the copy count. */
  predicate InSync(instance: BookRow, stored: BookRow) {
    instance.(availableCopies := stored.availableCopies) == stored
  }

  /** `instance.book`: the cached related object, or else a new instance read from the table, which is then cached. */
  method RelatedBook(db: Database, c: Checkout) returns (book: Book)
    requires c.bookId in db.books
    requires c.bookCache != null ==> c.bookCache.id == c.bookId
    modifies c`bookCache
    ensures c.bookCache == book && book.id == c.bookId
    ensures old(c.bookCache) != null ==> book == old(c.bookCache)
    ensures old(c.bookCache) == null ==> fresh(book) && book.Row() == db.books[c.bookId]
  {
    if c.bookCache == null {
      c.bookCache := new Book.Load(c.bookId, db.books[c.bookId]);
    }
    book := c.bookCache;
  }

  /** update_book_availability_on_checkout (post_save of a Checkout). */
  method UpdateAvailabilityOnCheckout(db: Database, c: Checkout, created: bool) returns (r: Outcome<SaveError>)
    requires db.Valid() && c.bookId in db.books
    requires c.bookCache != null ==> c.bookCache.id == c.bookId && InSync(c.bookCache.Row(), db.books[c.bookId])
    modifies db`books, c`bookCache, c.bookCache
    ensures db.Valid()
    ensures old(c.bookCache) != null ==> c.bookCache == old(c.bookCache)
    ensures old(c.bookCache) == null ==> c.bookCache == null || fresh(c.bookCache)
    ensures c.bookCache != null ==> c.bookCache.id == c.bookId
    ensures var seen := if old(c.bookCache) != null then old(c.bookCache.Row()) else old(db.books[c.bookId]);
            match DecrementOnCheckout(created, c.isReturned, seen)
            case None =>
              && r.Pass? && db.books == old(db.books)
              && (c.bookCache != null ==> c.bookCache.Row() == seen)
            case Some(w) =>
              && c.bookCache != null && c.bookCache.Row() == w
              && r == BookSaveOutcome(old(db.books), c.bookId, w, true)
              && db.books == (if r.Pass? then old(db.books)[c.bookId := w] else old(db.books))
  {
    r := Pass;
    if created && !c.isReturned {
      var book := RelatedBook(db, c);
      if book.availableCopies > 0 {
        book.availableCopies := book.availableCopies - 1;
        SaveKeepsBooksValid(db.books, book.id, book.Row(), true);
        r := book.Save(db, true);
      }
    }
  }

  /** update_book_availability_on_return (post_save of a Checkout). */
  method UpdateAvailabilityOnReturn(db: Database, c: Checkout) returns (r: Outcome<SaveError>)
    requires db.Valid() && c.bookId in db.books
    requires c.bookCache != null ==> c.bookCache.id == c.bookId && InSync(c.bookCache.Row(), db.books[c.bookId])
    modifies db`books, c`bookCache, c.bookCache
    ensures db.Valid()
    ensures old(c.bookCache) != null ==> c.bookCache == old(c.bookCache)
    ensures old(c.bookCache) == null ==> c.bookCache == null || fresh(c.bookCache)
    ensures c.bookCache != null ==> c.bookCache.id == c.bookId
    ensures var seen := if old(c.bookCache) != null then old(c.bookCache.Row()) else old(db.books[c.bookId]);
            match IncrementOnReturn(c.isReturned, c.returnDate.Some?, seen)
            case None =>
              && r.Pass? && db.books == old(db.books)
              && (c.bookCache != null ==> c.bookCache.Row() == seen)
            case Some(w) =>
              && c.bookCache != null && c.bookCache.Row() == w
              && r == BookSaveOutcome(old(db.books), c.bookId, w, true)
              && db.books == (if r.Pass? then old(db.books)[c.bookId := w] else old(db.books))
  {
    r := Pass;
    if c.isReturned && c.returnDate.Some? {
      var book := RelatedBook(db, c);
      if book.availableCopies < book.totalCopies {
        book.availableCopies := book.availableCopies + 1;
        SaveKeepsBooksValid(db.books, book.id, book.Row(), true);
        r := book.Save(db, true);
      }
    }
  }

  /**
   * `Checkout.objects.create(user=…, book=book, …)`: a new instance whose related object is the
   * caller's `book`, saved, then both post_save receivers. The checkout receiver decrements and
   * stores that very instance, so the caller sees the decrement in its own object.
   */
  method CreateCheckout(db: Database, user: UserId, book: Book, dueDate: Option<int>, notes: string, now: int)
    returns (r: Result<CheckoutId, SaveError>)
    requires db.Valid() && book.id in db.books && book.Row() == db.books[book.id]
    modifies db`books, db`checkouts, db`nextCheckoutId, book
    ensures db.Valid()
    ensures var f := PrepareSave(CheckoutFields(None, user, book.id, None, dueDate, None, false, 0, notes), now);
            var e := CheckoutFullClean(f, old(db.checkouts), old(db.books).Keys, db.users);
            if e.Some? then
              && r == Err(CheckoutInvalid(e.value))
              && db.checkouts == old(db.checkouts) && db.nextCheckoutId == old(db.nextCheckoutId)
              && db.books == old(db.books) && book.Row() == old(book.Row())
            else
              && r == Ok(old(db.nextCheckoutId))
              && db.checkouts == old(db.checkouts)[r.value := SavedRow(f, r.value, now)]
              && db.nextCheckoutId == r.value + 1
              && book.Row() == old(book.Row()).(availableCopies := Max(0, old(book.availableCopies) - 1))
              && db.books == old(db.books)[book.id := book.Row()]
  {
    assert StoredBookValid(db.books, book.id);
    var c := new Checkout.New(user, book, dueDate, notes);
    var saved := c.Save(db, now);
    if saved.Err? {
      return Err(saved.error);
    }
    ghost var f := PrepareSave(CheckoutFields(None, user, book.id, None, dueDate, None, false, 0, notes), now);
    assert db.checkouts == old(db.checkouts)[c.pk.value := SavedRow(f, c.pk.value, now)];
    assert c.bookCache == book && book.Row() == old(book.Row()) && !c.isReturned;
    CopyCountClean(old(db.books), book.id, book.availableCopies - 1);
    var onCheckout := UpdateAvailabilityOnCheckout(db, c, true);
    assert onCheckout.Pass?;
    assert book.Row() == old(book.Row()).(availableCopies := Max(0, old(book.availableCopies) - 1));
    ghost var books1 := db.books;
    var onReturn := UpdateAvailabilityOnReturn(db, c);
    assert onReturn.Pass? && db.books == books1;
    r := Ok(c.pk.value);
  }

  /**
   * Is the save of the stored checkout `id`, marked returned at time `now`, refused by full_clean?
   * Either the return precedes the checkout, or the pair already has a returned row, which
   * unique_together on (user, book, is_returned) forbids.
   */
  predicate ReturnRejected(checkouts: map<CheckoutId, CheckoutRow>, id: CheckoutId, now: int)
    requires id in checkouts
  {
    now < checkouts[id].checkoutDate
    || !UniqueTogetherFree(checkouts, Some(id), checkouts[id].user, checkouts[id].book, true)
  }

  /**
   * `checkout.save()` for a checkout read by a query and then marked returned at `now`, with both
   * post_save receivers: the checkout receiver ignores an update, and the return receiver reads
   * the book afresh and adds a copy while below the total.
   */
  method SaveReturn(db: Database, c: Checkout, now: int) returns (r: Result<bool, SaveError>)
    requires db.Valid()
    requires c.bookCache == null && c.pk.Some? && c.pk.value in db.checkouts
    requires c.Fields() == FieldsOf(c.pk.value, db.checkouts[c.pk.value]).(isReturned := true, returnDate := Some(now))
    modifies c`bookCache, c`pk, c`checkoutDate, c`dueDate, c`lateFee, db`books, db`checkouts, db`nextCheckoutId
    ensures db.Valid()
    ensures db.nextCheckoutId == old(db.nextCheckoutId)
    ensures var id := old(c.pk.value);
            var row := old(db.checkouts[id]);
            var b := old(db.books[row.book]);
            if ReturnRejected(old(db.checkouts), id, now) then
              r.Err? && db.checkouts == old(db.checkouts) && db.books == old(db.books)
            else
              && r == Ok(false)
              && db.checkouts == old(db.checkouts)[id := row.(isReturned := true, returnDate := Some(now))]
              && db.books == (if b.availableCopies < b.totalCopies
                              then old(db.books)[row.book := b.(availableCopies := b.availableCopies + 1)]
                              else old(db.books))
  {
    ghost var id := c.pk.value;
    assert db.checkouts[id].book in db.books;
    r := c.Save(db, now);
    if r.Err? {
      return;
    }
    assert StoredBookValid(db.books, c.bookId);
    var onCheckout := UpdateAvailabilityOnCheckout(db, c, false);
    CopyCountClean(db.books, c.bookId, db.books[c.bookId].availableCopies + 1);
    var onReturn := UpdateAvailabilityOnReturn(db, c);
    assert onReturn.Pass?;
  }

  datatype ProfileError = ProfileExists

  /** create_user_profile: a new user gets a profile with every default; a repeated insert would break the one-to-one key. */
  method CreateUserProfile(db: Database, user: UserId, created: bool, now: int) returns (r: Outcome<ProfileError>)
    modifies db`profiles
    ensures !created ==> r.Pass? && db.profiles == old(db.profiles)
    ensures created ==> (r.Pass? <==> user !in old(db.profiles))
    ensures created && r.Pass? ==> db.profiles == old(db.profiles)[user := DefaultProfile(now)]
    ensures r.Fail? ==> db.profiles == old(db.profiles)
  {
    r := Pass;
    if created {
      if user in db.profiles {
        r := Fail(ProfileExists);
      } else {
        db.profiles := db.profiles[user := DefaultProfile(now)];
      }
    }
  }

  /**
   * Saving a User: the row is inserted or updated, then the two User receivers run in order;
   * save_user_profile re-saves the existing profile, which changes no modelled column.
   */
  method SaveUser(db: Database, user: UserId, now: int) returns (created: bool)
    requires db.Valid()
    modifies db`users, db`profiles
    ensures db.Valid()
    ensures created <==> user !in old(db.users)
    ensures db.users == old(db.users) + {user}
    ensures db.profiles == if created then old(db.profiles)[user := DefaultProfile(now)] else old(db.profiles)
  {
    created := user !in db.users;
    db.users := db.users + {user};
    var r := CreateUserProfile(db, user, created, now);
    assert r.Pass?;
  }
}
