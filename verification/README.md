# Library management: book availability and checkout bookkeeping

A Dafny model of the core of a Django REST library service. The model covers:

- **Books.** A book has a number of copies, some of them on the shelf (`available_copies`).
- **Checkouts.** Members borrow books; each loan is a Checkout row with a due date 14 days out, and a late fee of one currency unit per whole day late.
- **Writes.** Every book and checkout write is gated by the model's `full_clean`; a user profile is created without it, as `UserProfile.objects.create` does.
- **Copy counters.** Two kinds of code move `available_copies`:
  - the `checkout` and `return_book` actions of `BookViewSet`;
  - the `post_save` receivers in `library/signals.py`.

The model keeps the two apart and composes them the way the code does. Django model instances are Dafny classes (`Orm.Book`, `Orm.Checkout`), separate from the tables (`Orm.Database`). This keeps visible which in-memory object a receiver updates: the view's own instance when the checkout was built with it, or a fresh one read from the table. Time is an integer number of seconds, and `now` is a parameter of every operation that reads the clock.

Modules, one per source file plus two:

- `Common` (`common.dfy`): ids, `Option`/`Outcome`/`Result`, the day length, the loan period and the fee rate.
- `Models` (`models.dfy`): the pure part of `library/models.py`:
  - the ISBN and phone regular expressions, evaluated the way Python's `re` does;
  - `Book.clean` and `Checkout.clean` / `full_clean`;
  - the due-date and late-fee rules of `Checkout.save`;
  - `is_available`, `is_overdue` and `days_overdue`;
  - `unique_together`;
  - the table invariants.
- `Orm` (`orm.dfy`): the tables, and the `Book` and `Checkout` instances with their `save`.
- `Signals` (`signals.dfy`): the `post_save` receivers, and `Checkout.objects.create` / `checkout.save()` followed by those receivers.
- `Views` (`views.dfy`): `BookViewSet.checkout` and `BookViewSet.return_book`, plus a corrected checkout (see Findings).
- `Serializers` (`serializers.dfy`): `validate_isbn`, `validate_available_copies` and `CheckoutCreateSerializer.create`.
- `Queries` (`queries.dfy`): the read-side views `available`, `search?available_only=`, `overdue`, `my` / `my_checkouts`, `history` / `checkout_history` and the counts of `library_stats`. Each is a selection over an enumeration of the table, sorted by an insertion sort proved to permute its input.

What the code does, as the model states it:

- **Checkout guard order.** The checkout view checks that a copy is on the shelf before it checks for a duplicate loan (`library/views.py:148-152`).
- **Late fee on return.** A return never recomputes the late fee, because `is_returned` is set before `save` (`library/views.py:174-176`, `library/models.py:162`).
- **Returning without a loan.** A return without an open loan answers 400.
- **Copies taken per checkout.** A checkout through the view takes two copies, and so does `CheckoutCreateSerializer.create` (see Findings).
- **No transactions.** Writes made before a failure stay.
- **Lookup key.** The views look books up by a `book_id` field that the `Book` model does not declare; the model takes it as the primary key (see Left out).
- **Unused serializer.** `CheckoutCreateSerializer` is referenced by no view; it is modelled as an operation of its own.

## Model

| member | source | states |
|---|---|---|
| Common.WholeDays | library/models.py:163 | `timedelta.days`: the floor of a span in seconds divided by 86400, so `d*86400 <= span < (d+1)*86400` |
| Models.IsbnRegexMeaning | library/models.py:17 | `^\d{10}(\d{3})?$` matches exactly a 10- or 13-digit string, optionally followed by one newline (Python's `$`) |
| Models.IsbnFieldMeaning | library/models.py:12-22 | the ISBN field (not blank, at most 13 characters, the pattern) accepts exactly 10 or 13 digits, or 10 digits then a newline |
| Models.PhoneFieldMeaning | library/models.py:76-85 | the phone field accepts exactly the blank string, or at most 15 characters that match the phone pattern: an optional `+`, then 9–15 digits or 16 digits starting with 1, optionally followed by one newline |
| Models.PhoneRegexMeaning | library/models.py:76-85 | `^\+?1?\d{9,15}$` accepts exactly an optional `+`, then 9–15 digits, or 16 digits starting with 1, optionally followed by one newline |
| Models.BookClean | library/models.py:43-53 | a book passes `clean` iff `total >= 1` and `available <= total`; the available/total rule is checked first |
| Models.BookFullCleanBounds | library/models.py:26-57 | any book that passes `full_clean` has `0 <= available <= total` and `1 <= total <= 4294967295`, the range of a PositiveIntegerField on MySQL |
| Models.WriteKeepsBooksValid | library/models.py:55-57 | writing a book that passed `full_clean` keeps every stored book valid, including ISBN uniqueness |
| Models.CopyCountClean | library/models.py:43-57 | changing only the copy count of a valid stored book passes `full_clean` iff the count stays within `[0, total]` |
| Models.LateFee | library/models.py:162-164 | the fee for a return after the due date is the whole days late (times 1), never negative |
| Models.LateFeeExamples | library/models.py:163-164 | three days late costs 3; one second under a day costs 0 |
| Models.PrepareSave | library/models.py:155-164 | `save` sets a missing due date to exactly `now` + 14 days and keeps a given one; an unreturned checkout whose return date is past due gets the fee `LateFee(return, due)`; in every other case the fee is unchanged; no other field changes |
| Models.CheckoutClean | library/models.py:132-153 | `clean` passes iff (returned, or no other open checkout of the pair) and any return date is not before the checkout date; it refuses "already checked out" exactly for an open checkout with another open one |
| Models.CheckoutFullClean | library/models.py:119-153 | `full_clean` passes iff the fields are valid, `clean` passes and the `(user, book, is_returned)` triple is free |
| Models.AtMostOneOpen | library/models.py:121 | under `unique_together`, two open checkouts of the same pair are the same row |
| Models.NewCheckoutClean | library/models.py:136-147 | a new open checkout with a due date passes `full_clean` iff the pair has no open checkout, and `save` leaves it unchanged |
| Models.WriteKeepsCheckoutsValid | library/models.py:166-167 | writing a checkout that passed `full_clean` (an update of its row, or an insert under a fresh id) keeps the checkout table valid |
| Models.DaysOverdue | library/models.py:169-181 | `days_overdue` is 0 unless `is_overdue`, otherwise the whole days since the due date; never negative |
| Models.DefaultProfile | library/models.py:73-86 | a new profile is active, with a blank phone number (which the phone validator allows) and a blank address |
| Orm.Book.Save | library/models.py:55-57 | `Book.save` writes the row (or only its copy count) iff `full_clean` passes; otherwise nothing changes; the tables stay valid |
| Orm.SaveKeepsBooksValid | library/models.py:55-57 | after any `Book.save` the book table is valid, and its keys gain only the saved id |
| Orm.CreateBook | library/models.py:55-57 | `Book.objects.create` stores the row under the next id, and advances the next id, iff it passes `full_clean`; otherwise nothing changes |
| Orm.Database.PutCheckout | library/models.py:167 | the write step of `Checkout.save` keeps the tables valid and advances the next id past the written key |
| Orm.Checkout.Save | library/models.py:155-167 | `Checkout.save` returns the `full_clean` error, or inserts/updates the prepared row and reports whether it was created; the tables stay valid |
| Signals.AvailabilityGuardsAgree | library/models.py:59-62 | `is_available` holds exactly when the checkout view's `available_copies < 1` guard lets the book through, and exactly when the checkout receiver takes a copy, leaving one fewer |
| Signals.DecrementOnCheckout | library/signals.py:18-26 | the checkout receiver writes iff the checkout was created unreturned and a copy is left; the count drops by one, never below 0; no other column changes |
| Signals.IncrementOnReturn | library/signals.py:28-36 | the return receiver writes iff the checkout is returned with a date and the count is below total; it rises by one, at most to total; no other column changes |
| Signals.RepeatedReturnSavesClamp | library/signals.py:31-36 | n saves of a returned checkout leave `min(available + n, total)` copies; no other column changes |
| Signals.RelatedBook | library/signals.py:23 | `instance.book` is the cached instance when there is one, else a fresh instance holding the stored row, which is then cached |
| Signals.UpdateAvailabilityOnCheckout | library/signals.py:18-26 | the receiver saves exactly the decremented row through the related instance, or leaves the table unchanged |
| Signals.UpdateAvailabilityOnReturn | library/signals.py:28-36 | the receiver saves exactly the incremented row through the related instance, or leaves the table unchanged |
| Signals.CreateCheckout | library/views.py:154-158 | `Checkout.objects.create(book=book)` either fails `full_clean` and changes nothing, or inserts the row under the next id; the caller's own instance then has one copy fewer (not below 0), and that is the stored row |
| Signals.SaveReturn | library/views.py:174-176 | saving a checkout marked returned is refused (nothing changes) iff the return precedes the checkout or the pair already has a returned row; otherwise it is stored returned, with the fee unchanged, and the book gains one copy iff below total |
| Signals.CreateUserProfile | library/signals.py:6-10 | a created user gets a default profile; an existing one is refused; an update creates none |
| Signals.SaveUser | library/signals.py:6-16 | saving a user adds them and creates exactly one profile the first time, none later; the tables stay valid |
| Views.NewLoan | library/views.py:154-158 | the new loan is open, by this user of this book, checked out now, with fee 0, empty notes and a due date of exactly the checkout time + 14 days |
| Views.NewLoanOverdue | library/models.py:169-181 | `is_overdue` of a fresh loan taken at t holds exactly after t + 14 days, never once it is returned, and `days_overdue` is n at n whole days past the due date |
| Views.FindOpen | library/views.py:170 | finds an open checkout of the pair iff one exists |
| Views.CheckoutBook | library/views.py:144-163 | 404 for an unknown book; 400 "No copies" when none is on the shelf; 400 "Already checked out" for an open loan; otherwise the loan is stored and the shelf loses two copies (201), or, with one copy, the loan is stored, the shelf ends at 0 and the answer is 500; the tables stay valid |
| Views.ReturnBook | library/views.py:166-182 | 404 for an unknown book; 400 without an open loan; otherwise the loan is marked returned at `now` (fee unchanged) and the shelf gains one copy (200), or 500 when the shelf is full or the save is refused |
| Views.CheckoutBookCorrected | library/views.py:144-163 | the same guards; a successful checkout stores the loan and takes exactly one copy |
| Views.CorrectedRoundTrip | library/views.py:144-182 | with the corrected checkout, a member who has no returned loan of this book borrows and returns it: the book table is as it was and the loan is recorded as returned |
| Views.AsWrittenRoundTrip | library/views.py:144-182 | with the checkout as written, a member who has no returned loan of this book borrows and returns it with two or more copies on the shelf: one copy is lost |
| Views.RepeatBorrowerRoundTrip | library/models.py:121 | a member who has returned this book before borrows it again (corrected checkout) and returns it: `unique_together` refuses the return's save, the answer is 500, the new loan stays open and the shelf stays one copy short |
| Views.DoubleDecrementWitness | library/views.py:154-160 | a book with 2 of 2 copies on the shelf has 0 after one successful checkout |
| Serializers.ValidateIsbn | library/serializers.py:31-34 | passes iff the length is 10 or 13 and every character is a digit |
| Serializers.IsbnChecksAgree | library/serializers.py:31-34 | applied to the same string, what `validate_isbn` accepts the model field accepts; they differ only on 10 digits followed by a newline |
| Serializers.ValidateAvailableCopies | library/serializers.py:36-40 | refuses iff a total is supplied and the value exceeds it |
| Serializers.AvailableCheckMatchesClean | library/serializers.py:36-40 | with the total supplied, the serializer refuses exactly the books `Book.clean` refuses for exceeding it |
| Serializers.PartialUpdateGap | library/serializers.py:36-40 | without a total any value passes the serializer, while `Book.clean` still refuses a value above the stored total |
| Serializers.Create | library/serializers.py:109-125 | refuses with nothing changed when no copy is on the shelf; with an open loan of the pair, the book keeps one copy fewer and `full_clean` raises; otherwise the checkout (notes defaulting to "") is stored and the shelf ends at `max(0, a-2)` |
| Serializers.CreateDoubleTakeWitness | library/serializers.py:116-124 | a book with 2 of 2 copies on the shelf has 0 after one successful create |
| Serializers.CreateCorrected | library/serializers.py:109-125 | as intended: refuses with nothing changed when no copy is on the shelf or the pair has an open loan; otherwise stores the checkout and takes exactly one copy |
| Queries.TitleOrder | library/views.py:99 | ordering books by title (code-point lexicographic) is total and transitive |
| Queries.AvailableBooks | library/views.py:120-128 | exactly the stored books with a copy on the shelf, each once, ordered by title |
| Queries.AvailableOnlyMeaning | library/views.py:133-134 | the `available_only` flag is on iff its value is "true" in any letter case |
| Queries.SearchBooks | library/views.py:130-141 | every stored book, or only those with a copy on the shelf when `available_only` is on, each once, ordered by title |
| Queries.OverdueCheckouts | library/views.py:213-221 | exactly the stored checkouts for which `is_overdue` holds, each once, earliest due date first |
| Queries.MyCheckouts | library/views.py:197-201 | exactly the member's unreturned checkouts, each once, latest checkout first |
| Queries.CheckoutHistory | library/views.py:203-211 | exactly the member's checkouts, each once, latest checkout first |
| Queries.LibraryStats | library/views.py:246-260 | non-staff callers are refused; the copy totals are the sums of `total_copies` and `available_copies` over the stored books and `checked_out = Σtotal − Σavailable`; the book, checkout and user counts are the table sizes; the current, overdue and active counts are the numbers of unreturned checkouts, of checkouts for which `is_overdue` holds, and of active profiles |
| Queries.CopySumsBounded | library/views.py:253-255 | when each book keeps `0 <= available <= total`, the sums keep `0 <= Σavailable <= Σtotal` |
| Queries.CheckedOutAfterCopyChange | library/views.py:253-255 | when one book's `available_copies` moves by d, the available total in the stats moves by d, `checked_out_copies` by −d, and the copy total stays |
| Queries.StatsBounds | library/views.py:252-260 | on valid tables, `0 <= checked_out <= total copies`, `overdue <= current <= all checkouts`, and active users `<=` users |

## Left out

- Authentication, tokens, permissions other than the staff check, pagination, serializer field lists and response bodies: framework behaviour with no bearing on the counts.
- Queries.SearchBooks: models only the `available_only` parameter; the `search` text match, the `ordering` parameter and the `author`/`genre` filters of the DRF filter backends are not modelled.
- Queries.LibraryStats: the popular-books and recent-checkouts rankings are not modelled.
- Queries.TitleOrder, Queries.AvailableBooks and Queries.SearchBooks: titles are ordered by code point; on the MySQL deployment (utf8mb4, `library_management/settings_production.py:6-19`) `order_by('title')` follows the database collation, which compares case-insensitively, so titles that differ only in case or accents may come out in another order.
- Views.CheckoutBook and Views.ReturnBook: take the `book_id` in the URL as the book's primary key. As written, `get_object_or_404(Book, book_id=...)` (`library/views.py:145`, `library/views.py:167`) names a field `Book` does not have, so Django raises a field error and both views answer 500 before any guard runs; the model describes the views with that lookup resolved.
- Views.CheckoutBook and Views.ReturnBook: answer `Created` / `Returned` after their writes, where the code then builds `CheckoutSerializer(checkout).data`; that serializer passes a `source` equal to the field name for `is_overdue` and `days_overdue` (`library/serializers.py:83-84`), which DRF rejects with an assertion when the fields bind, so after the same writes the real answer is a 500. The `history`, `overdue` and `my` views serialize with it too; their selections are modelled, not their responses.
- Models.BookFieldsValid: the upper bound 4294967295 on the copy counts is that of a PositiveIntegerField on MySQL; other database backends use other bounds.
- Serializers.IsbnChecksAgree: compares the two ISBN checks on one string; DRF's CharField trims surrounding whitespace before `validate_isbn` runs, and that trimming is not modelled.
- Queries.AvailableOnlyMeaning: lower-cases ASCII letters only, where Python's `str.lower` is Unicode-aware.
- Rows that tie on a query's ordering come out in ascending key order; the database may return them in any order.
- Models.IsbnRegexMeaning, Models.PhoneRegexMeaning and Serializers.ValidateIsbn: `\d` and `str.isdigit` are read as the ASCII digits; Python also accepts other Unicode digits.
- Models.LateFee: the fee is an integer number of currency units, not a two-place `Decimal`.
- Serializers.ValidateAvailableCopies: the request's `total_copies` is taken as an already-parsed number; the `int()` conversion and its exceptions are not modelled.
- Book columns other than title, author, ISBN and the two counts (publisher, published date, genre, description, timestamps) are not modelled.
- Profile reads and updates through the `user_profile` view are not modelled; only the default profile a new user receives is.
- Views.CorrectedRoundTrip and Views.AsWrittenRoundTrip: hold only for a member with no returned loan of the book. For a repeat borrower `unique_together = (user, book, is_returned)` refuses the return (Views.RepeatBorrowerRoundTrip); a corrected table constraint is not modelled.
- The `@receiver` handlers of `library/signals.py` are taken to be connected: every Signals member, both Findings and every view that relies on a receiver assume the module is imported at start-up. The application configuration that imports it is not part of this model.
- Database transactions, concurrency and races: the code opens no transaction, so each write is modelled as immediate and permanent.
- Cascading deletes of users and books are not modelled.
- The wall clock is the `now` parameter; time zones are not modelled.
- `UserProfile.current_checkouts` and `total_checkouts`, and `Book.checkout_count`, are not modelled.

## Findings

| source | as written | input that shows it | evidently intended | confidence | as-written member | corrected member |
|---|---|---|---|---|---|---|
| library/serializers.py:116-124 | `create` decrements and saves the book itself, then `Checkout.objects.create(book=book)` fires the receiver, which decrements the same instance again; when the pair already has an open loan, its own decrement stays although the create then raises | a book with `total_copies = 2` and `available_copies = 2`, created once for a member who does not hold it, ends with 0 copies on the shelf | one create takes exactly one copy, and a refused create changes nothing | not executed | Serializers.CreateDoubleTakeWitness | Serializers.CreateCorrected |
| library/views.py:154-160 | `Checkout.objects.create(book=book)` fires the receiver, which decrements and saves the view's own `book` instance; the view then decrements the same instance again and saves it | a book with `total_copies = 2` and `available_copies = 2`, checked out once by a member who does not hold it, ends with 0 copies on the shelf; returning it restores only one | one checkout takes exactly one copy, and a checkout followed by a return restores the count | not executed | Views.DoubleDecrementWitness | Views.CheckoutBookCorrected |
