/**
 * The pure part of library/models.py: the field formats (ISBN, phone number), the rows of the
 * Book, Checkout and UserProfile tables, the `clean`/`full_clean` checks that gate every save,
 * the due-date and late-fee rules of Checkout.save, and the derived properties `is_available`,
 * `is_overdue` and `days_overdue`.
 */
module Models {
  import opened Common

  // ---------------------------------------------------------------- field formats

  predicate IsDigit(c: char) { '0' <= c <= '9' }

  predicate AllDigits(s: string) { forall i :: 0 <= i < |s| ==> IsDigit(s[i]) }

  /** Number of leading digits of `s`: what a greedy `\d*` consumes. */
  function DigitRun(s: string): (n: nat)
    ensures n <= |s|
  {
    if s == [] || !IsDigit(s[0]) then 0 else 1 + DigitRun(s[1..])
  }

  lemma {:induction false} DigitRunIs(s: string, k: nat)
    requires k <= |s|
    ensures DigitRun(s) == k <==> AllDigits(s[..k]) && (k == |s| || !IsDigit(s[k]))
  {
    if k > 0 {
      if s == [] || !IsDigit(s[0]) {
        assert !AllDigits(s[..k]) by { assert s[..k][0] == s[0]; }
      } else {
        DigitRunIs(s[1..], k - 1);
        assert s[1..][..k - 1] == s[1..k];
        assert AllDigits(s[..k]) <==> AllDigits(s[1..k]) by {
          assert forall i :: 0 < i < k ==> s[..k][i] == s[1..k][i - 1];
          assert forall i :: 0 <= i < k - 1 ==> s[1..k][i] == s[..k][i + 1];
        }
      }
    }
  }

  /** Python's `$` (no MULTILINE flag): position `i` is the end of `s`, or `s` ends with one newline at `i`. */
  predicate EndAnchor(s: string, i: nat) {
    i == |s| || (i + 1 == |s| && s[i] == '\n')
  }

  /** `s` without one final newline, if it has one. */
  function Chomp(s: string): (t: string)
    ensures |t| <= |s| && t == s[..|t|]
  {
    if |s| > 0 && s[|s| - 1] == '\n' then s[..|s| - 1] else s
  }

  /** The book identifier the source means: exactly 10 or exactly 13 ASCII digits. */
  predicate IsbnDigits(s: string) {
    (|s| == 10 || |s| == 13) && AllDigits(s)
  }

  /**
   * RegexValidator(r'^\d{10}(\d{3})?$') of Book.isbn, evaluated as Python's `re.search` does:
   * after ten digits the optional group takes three more, and `$` must follow.
   */
  function IsbnRegexMatches(s: string): bool {
    var n := DigitRun(s);
    (n == 10 || n == 13) && EndAnchor(s, n)
  }

  /** The pattern accepts exactly a 10- or 13-digit string, optionally followed by one newline. */
  lemma IsbnRegexMeaning(s: string)
    ensures IsbnRegexMatches(s) <==> IsbnDigits(Chomp(s))
  {
    var n := DigitRun(s);
    var t := Chomp(s);
    DigitRunIs(s, n);
    if |t| <= |s| && (|t| == 10 || |t| == 13) {
      DigitRunIs(s, |t|);
      assert s[..|t|] == t;
    }
  }

  /** Field validation of Book.isbn: not blank, at most 13 characters, and the pattern. */
  predicate IsbnFieldValid(s: string) {
    s != "" && |s| <= 13 && IsbnRegexMatches(s)
  }

  /**
   * The ISBN field accepts exactly the 10- and 13-digit strings, plus a 10-digit string followed
   * by a newline (the 13-digit one with a newline exceeds max_length).
   */
  lemma IsbnFieldMeaning(s: string)
    ensures IsbnFieldValid(s) <==>
      IsbnDigits(s) || (|s| == 11 && s[10] == '\n' && AllDigits(s[..10]))
  {
    IsbnRegexMeaning(s);
    if IsbnDigits(s) {
      assert Chomp(s) == s;
    }
    if |s| == 11 && s[10] == '\n' {
      assert Chomp(s) == s[..10];
    }
  }

  /** `\d{9,15}$` from position 0 of `u`: the whole digit run must have 9 to 15 digits and end the string. */
  predicate DigitsToEnd(u: string) {
    var n := DigitRun(u);
    9 <= n <= 15 && EndAnchor(u, n)
  }

  /** The text after an optional leading plus sign: what `\+?` leaves for the rest of the pattern. */
  function AfterPlus(s: string): (t: string)
    ensures t == if |s| > 0 && s[0] == '+' then s[1..] else s
  {
    if |s| > 0 && s[0] == '+' then s[1..] else s
  }

  /**
   * RegexValidator(r'^\+?1?\d{9,15}$') of UserProfile.phone_number, with the regex engine's
   * backtracking: `1?` first takes a leading 1, and gives it back if the rest then fails.
   */
  function PhoneRegexMatches(s: string): bool {
    var t := AfterPlus(s);
    (|t| > 0 && t[0] == '1' && DigitsToEnd(t[1..])) || DigitsToEnd(t)
  }

  /** Optional plus sign, then digits: 9 to 15 of them, or 16 when the first is the optional 1. */
  predicate PhoneShape(t: string) {
    var u := AfterPlus(t);
    AllDigits(u) && 9 <= |u| && (|u| <= 15 || (|u| == 16 && u[0] == '1'))
  }

  lemma DigitsToEndMeaning(u: string)
    ensures DigitsToEnd(u) <==> AllDigits(Chomp(u)) && 9 <= |Chomp(u)| <= 15
  {
    var n := DigitRun(u);
    DigitRunIs(u, n);
    var c := Chomp(u);
    if AllDigits(c) && 9 <= |c| <= 15 {
      DigitRunIs(u, |c|);
      assert u[..|c|] == c;
    }
  }

  /** Dropping the plus sign and dropping the final newline commute. */
  lemma ChompAfterPlus(s: string)
    ensures Chomp(AfterPlus(s)) == AfterPlus(Chomp(s))
  {
    if |s| > 0 && s[0] == '+' && s[|s| - 1] == '\n' {
      assert |s| >= 2;
      assert s[1..][..|s| - 2] == s[..|s| - 1][1..];
    }
  }

  /** `1\d{9,15}$`: a leading 1 followed by the digit run accepts 10 to 16 digits starting with 1, optionally followed by one newline. */
  lemma LeadingOneMeaning(t: string)
    ensures (|t| > 0 && t[0] == '1' && DigitsToEnd(t[1..])) <==>
            (var u := Chomp(t); AllDigits(u) && 10 <= |u| <= 16 && u[0] == '1')
  {
    var u := Chomp(t);
    if |t| > 0 {
      DigitsToEndMeaning(t[1..]);
      if t[0] == '1' {
        assert Chomp(t[1..]) == u[1..];
      }
      if |u| > 0 && u[0] == '1' {
        assert t[0] == '1';
        assert Chomp(t[1..]) == u[1..];
        assert AllDigits(u) <==> AllDigits(u[1..]) by {
          assert forall k :: 1 <= k < |u| ==> u[k] == u[1..][k - 1];
          assert forall k :: 0 <= k < |u| - 1 ==> u[1..][k] == u[k + 1];
        }
      }
    }
  }

  /** The phone pattern accepts exactly PhoneShape, optionally followed by one newline. */
  lemma PhoneRegexMeaning(s: string)
    ensures PhoneRegexMatches(s) <==> PhoneShape(Chomp(s))
  {
    var t := AfterPlus(s);
    ChompAfterPlus(s);
    DigitsToEndMeaning(t);
    LeadingOneMeaning(t);
  }

  /** Field validation of UserProfile.phone_number: blank is allowed, else at most 15 characters and the pattern. */
  predicate PhoneFieldValid(s: string) {
    s == "" || (|s| <= 15 && PhoneRegexMatches(s))
  }

  /** The phone field accepts the blank string, or at most 15 characters of PhoneShape, optionally followed by one newline. */
  lemma PhoneFieldMeaning(s: string)
    ensures PhoneFieldValid(s) <==> s == "" || (|s| <= 15 && PhoneShape(Chomp(s)))
  {
    PhoneRegexMeaning(s);
  }

  // ---------------------------------------------------------------- books

  /** A stored Book row (the columns the core reads or writes). */
  datatype BookRow = BookRow(
    title: string,
    author: string,
    isbn: string,
    totalCopies: int,
    availableCopies: int)

  datatype BookError = AvailableExceedsTotal | TotalBelowOne

  /** Book.clean: the first rule broken, in the order the source checks them. */
  function BookClean(b: BookRow): (r: Option<BookError>)
    ensures r.None? <==> 1 <= b.totalCopies && b.availableCopies <= b.totalCopies
    ensures r == Some(TotalBelowOne) ==> b.availableCopies <= b.totalCopies
  {
    if b.availableCopies > b.totalCopies then Some(AvailableExceedsTotal)
    else if b.totalCopies < 1 then Some(TotalBelowOne)
    else None
  }

  /** The largest value a PositiveIntegerField takes on the MySQL backend (an unsigned 32-bit column). */
  const MaxPositiveInteger: int := 4294967295

  /** clean_fields for a Book: required, length-limited text, ISBN format, counts within the column's range. */
  predicate BookFieldsValid(b: BookRow) {
    && 0 < |b.title| <= 200
    && 0 < |b.author| <= 100
    && IsbnFieldValid(b.isbn)
    && 0 <= b.totalCopies <= MaxPositiveInteger
    && 0 <= b.availableCopies <= MaxPositiveInteger
  }

  /** validate_unique for a Book: no other row carries the same ISBN. */
  predicate IsbnUnique(id: BookId, isbn: string, books: map<BookId, BookRow>) {
    forall k :: k in books && k != id ==> books[k].isbn != isbn
  }

  /** Book.full_clean, which Book.save runs before every write. */
  predicate BookFullClean(id: BookId, b: BookRow, books: map<BookId, BookRow>) {
    BookFieldsValid(b) && BookClean(b).None? && IsbnUnique(id, b.isbn, books)
  }

  /** The book stored under `id` passes full_clean against the table. */
  predicate StoredBookValid(books: map<BookId, BookRow>, id: BookId) {
    id in books && BookFullClean(id, books[id], books)
  }

  /** Every stored book passes full_clean against the table. */
  predicate BooksValid(books: map<BookId, BookRow>) {
    forall id {:trigger StoredBookValid(books, id)} :: id in books ==> StoredBookValid(books, id)
  }

  /** A book that passes full_clean has copy counts with 0 <= available <= total, 1 <= total, and total within the column's range. */
  lemma BookFullCleanBounds(id: BookId, b: BookRow, books: map<BookId, BookRow>)
    requires BookFullClean(id, b, books)
    ensures 0 <= b.availableCopies <= b.totalCopies && 1 <= b.totalCopies <= MaxPositiveInteger
  {
  }

  /** Writing a row that passed full_clean keeps every stored book valid. */
  lemma {:induction false} WriteKeepsBooksValid(books: map<BookId, BookRow>, id: BookId, b: BookRow)
    requires BooksValid(books)
    requires BookFullClean(id, b, books)
    ensures BooksValid(books[id := b])
  {
    var after := books[id := b];
    forall k | k in after
      ensures StoredBookValid(after, k)
    {
      if k != id {
        assert StoredBookValid(books, k);
      }
      forall j | j in after && j != k
        ensures after[j].isbn != after[k].isbn
      {
        if k == id {
          assert after[j] == books[j];
        } else if j == id {
          assert after[k] == books[k];
        }
      }
    }
  }

  /** Book.is_available. */
  predicate IsAvailable(b: BookRow) { b.availableCopies > 0 }

  // ---------------------------------------------------------------- checkouts

  /** A stored Checkout row. */
  datatype CheckoutRow = CheckoutRow(
    user: UserId,
    book: BookId,
    checkoutDate: int,
    dueDate: int,
    returnDate: Option<int>,
    isReturned: bool,
    lateFee: int,
    notes: string)

  /**
   * The fields of an in-memory Checkout instance: before its first save it has no primary key and
   * no checkout date (auto_now_add fills that in on insert), and possibly no due date.
   */
  datatype CheckoutFields = CheckoutFields(
    pk: Option<CheckoutId>,
    user: UserId,
    book: BookId,
    checkoutDate: Option<int>,
    dueDate: Option<int>,
    returnDate: Option<int>,
    isReturned: bool,
    lateFee: int,
    notes: string)

  /** The fields of a stored row read back into an instance. */
  function FieldsOf(id: CheckoutId, r: CheckoutRow): CheckoutFields {
    CheckoutFields(Some(id), r.user, r.book, Some(r.checkoutDate), Some(r.dueDate), r.returnDate,
                   r.isReturned, r.lateFee, r.notes)
  }

  /** The row an instance writes; it has a checkout date and a due date by the time it is written. */
  function RowOf(f: CheckoutFields): CheckoutRow
    requires f.checkoutDate.Some? && f.dueDate.Some?
  {
    CheckoutRow(f.user, f.book, f.checkoutDate.value, f.dueDate.value, f.returnDate, f.isReturned,
                f.lateFee, f.notes)
  }

  /** Late fee, in whole currency units, for a return after the due date: whole days late times the daily rate. */
  function LateFee(returnDate: int, dueDate: int): (fee: int)
    requires returnDate > dueDate
    ensures fee >= 0
    ensures fee * SecondsPerDay <= returnDate - dueDate < (fee + 1) * SecondsPerDay
  {
    var daysLate := WholeDays(returnDate - dueDate);
    Max(0, daysLate * FeePerDay)
  }

  /** Returning three days after the due date costs 3; the fee only counts whole days. */
  lemma LateFeeExamples(due: int)
    ensures LateFee(due + 3 * SecondsPerDay, due) == 3
    ensures LateFee(due + SecondsPerDay - 1, due) == 0
  {
  }

  /**
   * What Checkout.save does to the instance before validating it: a missing due date becomes
   * `now` plus the loan period, and a return after the due date of a checkout not yet marked
   * returned recomputes the late fee.
   */
  function PrepareSave(f: CheckoutFields, now: int): (g: CheckoutFields)
    ensures g.dueDate.Some?
    ensures f.dueDate.Some? ==> g.dueDate == f.dueDate
    ensures f.dueDate.None? ==> g.dueDate == Some(now + LoanDays * SecondsPerDay)
    ensures f.dueDate.None? ==> WholeDays(g.dueDate.value - now) == LoanDays
    ensures !f.isReturned && f.returnDate.Some? && f.returnDate.value > g.dueDate.value ==>
      g.lateFee == LateFee(f.returnDate.value, g.dueDate.value)
    ensures g.lateFee != f.lateFee ==>
      !f.isReturned && f.returnDate.Some? && f.returnDate.value > g.dueDate.value
    ensures f.lateFee >= 0 ==> g.lateFee >= 0
    ensures g == f.(dueDate := g.dueDate, lateFee := g.lateFee)
  {
    var due := if f.dueDate.None? then now + LoanDays * SecondsPerDay else f.dueDate.value;
    var fee := if f.returnDate.Some? && f.returnDate.value > due && !f.isReturned
               then LateFee(f.returnDate.value, due) else f.lateFee;
    f.(dueDate := Some(due), lateFee := fee)
  }

  /** Is there an unreturned checkout of `book` by `user`, other than the row stored under `self`? */
  predicate OtherOpen(checkouts: map<CheckoutId, CheckoutRow>, self: Option<CheckoutId>, user: UserId, book: BookId) {
    exists id :: id in checkouts && self != Some(id) && checkouts[id].user == user
      && checkouts[id].book == book && !checkouts[id].isReturned
  }

  /** unique_together = (user, book, is_returned): no other row shares the triple. */
  predicate UniqueTogetherFree(checkouts: map<CheckoutId, CheckoutRow>, self: Option<CheckoutId>,
                               user: UserId, book: BookId, isReturned: bool) {
    forall id :: id in checkouts && self != Some(id) ==>
      !(checkouts[id].user == user && checkouts[id].book == book && checkouts[id].isReturned == isReturned)
  }

  datatype CheckoutError =
    | FieldInvalid              // clean_fields: unknown user or book, or a fee outside the decimal field
    | AlreadyCheckedOut         // clean: another open checkout of the pair
    | ReturnBeforeCheckout      // clean: return date earlier than checkout date
    | ReturnWithoutCheckoutDate // clean compares with a missing checkout date: a TypeError, not a ValidationError
    | NotUnique                 // validate_unique: the (user, book, is_returned) triple is taken

  /** Checkout.clean: the first rule broken, in the source's order. */
  function CheckoutClean(f: CheckoutFields, checkouts: map<CheckoutId, CheckoutRow>): (r: Option<CheckoutError>)
    ensures r.None? <==>
      (f.isReturned || !OtherOpen(checkouts, f.pk, f.user, f.book))
      && (f.returnDate.Some? ==> f.checkoutDate.Some? && f.returnDate.value >= f.checkoutDate.value)
    ensures r == Some(AlreadyCheckedOut) <==> !f.isReturned && OtherOpen(checkouts, f.pk, f.user, f.book)
  {
    if !f.isReturned && OtherOpen(checkouts, f.pk, f.user, f.book) then Some(AlreadyCheckedOut)
    else if f.returnDate.Some? then
      if f.checkoutDate.None? then Some(ReturnWithoutCheckoutDate)
      else if f.returnDate.value < f.checkoutDate.value then Some(ReturnBeforeCheckout)
      else None
    else None
  }

  /** clean_fields for a Checkout: the user and book exist, a due date is set, and the fee fits max_digits=6, decimal_places=2. */
  predicate CheckoutFieldsValid(f: CheckoutFields, bookIds: set<BookId>, users: set<UserId>) {
    f.user in users && f.book in bookIds && f.dueDate.Some? && -10000 < f.lateFee < 10000
  }

  /**
   * Checkout.full_clean: clean_fields, then clean, then validate_unique. A TypeError raised inside
   * clean escapes full_clean whatever else failed.
   */
  function CheckoutFullClean(f: CheckoutFields, checkouts: map<CheckoutId, CheckoutRow>,
                             bookIds: set<BookId>, users: set<UserId>): (r: Option<CheckoutError>)
    ensures r.None? <==>
      CheckoutFieldsValid(f, bookIds, users) && CheckoutClean(f, checkouts).None?
      && UniqueTogetherFree(checkouts, f.pk, f.user, f.book, f.isReturned)
  {
    var cleaned := CheckoutClean(f, checkouts);
    if cleaned == Some(ReturnWithoutCheckoutDate) then cleaned
    else if !CheckoutFieldsValid(f, bookIds, users) then Some(FieldInvalid)
    else if cleaned.Some? then cleaned
    else if !UniqueTogetherFree(checkouts, f.pk, f.user, f.book, f.isReturned) then Some(NotUnique)
    else None
  }

  /** The stored checkouts: references exist, ids are below `next`, fees are in range, returns follow checkouts, and unique_together holds. */
  predicate CheckoutsValid(checkouts: map<CheckoutId, CheckoutRow>, bookIds: set<BookId>, users: set<UserId>, next: CheckoutId) {
    && (forall id :: id in checkouts ==>
          && id < next
          && checkouts[id].user in users
          && checkouts[id].book in bookIds
          && 0 <= checkouts[id].lateFee < 10000
          && (checkouts[id].returnDate.Some? ==> checkouts[id].returnDate.value >= checkouts[id].checkoutDate))
    && (forall i, j {:trigger TripleDistinct(checkouts, i, j)} ::
          i in checkouts && j in checkouts ==> TripleDistinct(checkouts, i, j))
  }

  /** unique_together for two stored rows: distinct rows differ in (user, book, is_returned). */
  predicate TripleDistinct(checkouts: map<CheckoutId, CheckoutRow>, i: CheckoutId, j: CheckoutId)
    requires i in checkouts && j in checkouts
  {
    i != j ==>
      !(checkouts[i].user == checkouts[j].user && checkouts[i].book == checkouts[j].book
        && checkouts[i].isReturned == checkouts[j].isReturned)
  }

  /** Invariant A: under unique_together, a (user, book) pair has at most one open checkout. */
  lemma AtMostOneOpen(checkouts: map<CheckoutId, CheckoutRow>, bookIds: set<BookId>, users: set<UserId>,
                      next: CheckoutId, i: CheckoutId, j: CheckoutId)
    requires CheckoutsValid(checkouts, bookIds, users, next)
    requires i in checkouts && j in checkouts
    requires checkouts[i].user == checkouts[j].user && checkouts[i].book == checkouts[j].book
    requires !checkouts[i].isReturned && !checkouts[j].isReturned
    ensures i == j
  {
    assert TripleDistinct(checkouts, i, j);
  }

  /**
   * Checkout.full_clean of a new, unreturned checkout of an existing book by an existing user, with
   * a due date, fails exactly when the pair already has an open checkout; Checkout.save leaves such
   * an instance as it is.
   */
  lemma NewCheckoutClean(checkouts: map<CheckoutId, CheckoutRow>, bookIds: set<BookId>, users: set<UserId>,
                          user: UserId, book: BookId, due: int, notes: string, now: int)
    requires user in users && book in bookIds
    ensures var f := CheckoutFields(None, user, book, None, Some(due), None, false, 0, notes);
            && PrepareSave(f, now) == f
            && CheckoutFullClean(f, checkouts, bookIds, users)
               == if OtherOpen(checkouts, None, user, book) then Some(AlreadyCheckedOut) else None
  {
  }

  /** The row an instance writes once saved under `id`, its checkout date being `stamp`. */
  function SavedRow(f: CheckoutFields, id: CheckoutId, stamp: int): CheckoutRow
    requires f.dueDate.Some?
  {
    RowOf(f.(pk := Some(id), checkoutDate := Some(stamp)))
  }

  /**
   * Writing an instance that passed full_clean keeps the stored checkouts valid: an update under
   * its own key, or an insert of an unsaved instance (no checkout date yet) under a fresh key,
   * provided its fee is not negative.
   */
  lemma {:induction false} WriteKeepsCheckoutsValid(checkouts: map<CheckoutId, CheckoutRow>, bookIds: set<BookId>,
                                  users: set<UserId>, next: CheckoutId, id: CheckoutId, f: CheckoutFields, stamp: int)
    requires CheckoutsValid(checkouts, bookIds, users, next)
    requires CheckoutFullClean(f, checkouts, bookIds, users).None?
    requires f.lateFee >= 0
    requires (f.pk == Some(id) && f.checkoutDate == Some(stamp)) || (f.pk.None? && f.checkoutDate.None? && id !in checkouts)
    ensures CheckoutsValid(checkouts[id := SavedRow(f, id, stamp)], bookIds, users, if id < next then next else id + 1)
  {
    var after := checkouts[id := SavedRow(f, id, stamp)];
    forall i, j | i in after && j in after
      ensures TripleDistinct(after, i, j)
    {
      if i != j {
        if i == id {
          assert f.pk != Some(j);
        } else if j == id {
          assert f.pk != Some(i);
        } else {
          assert TripleDistinct(checkouts, i, j);
        }
      }
    }
  }

  /** A write that changes only the copy count of a stored valid book passes full_clean exactly when the count stays within [0, total]. */
  lemma CopyCountClean(books: map<BookId, BookRow>, id: BookId, v: int)
    requires BooksValid(books) && id in books
    ensures BookFullClean(id, books[id].(availableCopies := v), books) <==> 0 <= v <= books[id].totalCopies
  {
    assert StoredBookValid(books, id);
  }

  /** Checkout.is_overdue. */
  predicate IsOverdue(c: CheckoutRow, now: int) {
    if c.isReturned then false else now > c.dueDate
  }

  /** Checkout.days_overdue: 0 unless overdue, else the whole days elapsed since the due date. */
  function DaysOverdue(c: CheckoutRow, now: int): (d: int)
    ensures d >= 0
    ensures !IsOverdue(c, now) ==> d == 0
    ensures IsOverdue(c, now) ==> d * SecondsPerDay <= now - c.dueDate < (d + 1) * SecondsPerDay
  {
    if !IsOverdue(c, now) then 0 else WholeDays(now - c.dueDate)
  }

  // ---------------------------------------------------------------- members

  /** A stored UserProfile row. */
  datatype ProfileRow = ProfileRow(dateOfMembership: int, isActive: bool, phoneNumber: string, address: string)

  /** The row `UserProfile.objects.create(user=…)` stores: every default. */
  function DefaultProfile(now: int): (p: ProfileRow)
    ensures p.isActive && p.phoneNumber == "" && p.address == "" && PhoneFieldValid(p.phoneNumber)
  {
    ProfileRow(now, true, "", "")
  }
}
