/**
 * The read-side views of library/views.py as selections over the tables: a queryset is the
 * sequence of stored (key, row) pairs that pass a filter, in the order its order_by asks for.
 * Rows that tie on the ordering may come in any order; here they keep ascending key order.
 */
module Queries {
  import opened Common
  import opened Models

  // ---------------------------------------------------------------- sequences, filters, orderings

  /** No element occurs twice. */
  ghost predicate NoRepeats<T(!new)>(s: seq<T>) {
    forall x :: multiset(s)[x] <= 1
  }

  /** The rows of a table stored under keys `lo <= id < hi`, in ascending key order. */
  function Enumerate<R(!new)>(m: map<nat, R>, lo: nat, hi: nat): (r: seq<(nat, R)>)
    ensures forall e :: e in r <==> lo <= e.0 < hi && e.0 in m && m[e.0] == e.1
    ensures NoRepeats(r)
    decreases hi - lo
  {
    if lo >= hi then []
    else
      var rest := Enumerate(m, lo + 1, hi);
      if lo in m then
        assert (lo, m[lo]) !in rest;
        [(lo, m[lo])] + rest
      else rest
  }

  /** The keys `lo <= id < hi` of a table. */
  function KeysBetween<R>(m: map<nat, R>, lo: nat, hi: nat): set<nat> {
    set id | id in m && lo <= id < hi
  }

  /** Enumerate lists one pair per key in the range. */
  lemma {:induction false} EnumerateCount<R(!new)>(m: map<nat, R>, lo: nat, hi: nat)
    ensures |Enumerate(m, lo, hi)| == |KeysBetween(m, lo, hi)|
    decreases hi - lo
  {
    if lo >= hi {
      assert KeysBetween(m, lo, hi) == {};
    } else {
      EnumerateCount(m, lo + 1, hi);
      if lo in m {
        assert KeysBetween(m, lo, hi) == {lo} + KeysBetween(m, lo + 1, hi);
      } else {
        assert KeysBetween(m, lo, hi) == KeysBetween(m, lo + 1, hi);
      }
    }
  }

  /** A table whose keys are all below `next` is enumerated in full, one pair per row. */
  lemma TableCount<R(!new)>(m: map<nat, R>, next: nat)
    requires forall id :: id in m ==> id < next
    ensures |Enumerate(m, 0, next)| == |m|
  {
    EnumerateCount(m, 0, next);
    assert KeysBetween(m, 0, next) == m.Keys;
  }

  /** The elements of `s` that `keep` accepts, in order: a queryset's `.filter(...)`. */
  function Filter<T(!new)>(s: seq<T>, keep: T -> bool): (r: seq<T>)
    ensures forall x :: x in r <==> x in s && keep(x)
    ensures multiset(r) <= multiset(s)
  {
    if s == [] then []
    else
      assert s == [s[0]] + s[1..];
      (if keep(s[0]) then [s[0]] else []) + Filter(s[1..], keep)
  }

  /** The keys `lo <= id < hi` of a table whose (key, row) pair `keep` accepts. */
  function KeptKeys<R>(m: map<nat, R>, lo: nat, hi: nat, keep: ((nat, R)) -> bool): set<nat> {
    set id | id in m && lo <= id < hi && keep((id, m[id]))
  }

  /** `.filter(keep).count()`: filtering the enumeration keeps one pair per accepted key. */
  lemma {:induction false} FilterCount<R(!new)>(m: map<nat, R>, lo: nat, hi: nat, keep: ((nat, R)) -> bool)
    ensures |Filter(Enumerate(m, lo, hi), keep)| == |KeptKeys(m, lo, hi, keep)|
    decreases hi - lo
  {
    if lo >= hi {
      assert KeptKeys(m, lo, hi, keep) == {};
    } else {
      FilterCount(m, lo + 1, hi, keep);
      var rest := Enumerate(m, lo + 1, hi);
      if lo in m {
        var s := [(lo, m[lo])] + rest;
        assert s[0] == (lo, m[lo]) && s[1..] == rest;
        if keep((lo, m[lo])) {
          assert KeptKeys(m, lo, hi, keep) == {lo} + KeptKeys(m, lo + 1, hi, keep);
        } else {
          assert KeptKeys(m, lo, hi, keep) == KeptKeys(m, lo + 1, hi, keep);
        }
      } else {
        assert KeptKeys(m, lo, hi, keep) == KeptKeys(m, lo + 1, hi, keep);
      }
    }
  }

  ghost predicate Total<T(!new)>(le: (T, T) -> bool) {
    forall a, b :: le(a, b) || le(b, a)
  }

  ghost predicate Transitive<T(!new)>(le: (T, T) -> bool) {
    forall a, b, c :: le(a, b) && le(b, c) ==> le(a, c)
  }

  predicate SortedBy<T>(s: seq<T>, le: (T, T) -> bool) {
    forall i, j :: 0 <= i < j < |s| ==> le(s[i], s[j])
  }

  /** `x` placed before the first element it does not follow. */
  function Insert<T(!new)>(x: T, s: seq<T>, le: (T, T) -> bool): (r: seq<T>)
    ensures multiset(r) == multiset(s) + multiset{x}
    ensures forall y :: y in r <==> y in s || y == x
  {
    if s == [] || le(x, s[0]) then [x] + s
    else
      assert s == [s[0]] + s[1..];
      [s[0]] + Insert(x, s[1..], le)
  }

  /** Inserting into a sorted sequence keeps it sorted. */
  lemma {:induction false} InsertSorted<T(!new)>(x: T, s: seq<T>, le: (T, T) -> bool)
    requires Total(le) && Transitive(le) && SortedBy(s, le)
    ensures SortedBy(Insert(x, s, le), le)
  {
    if s != [] && !le(x, s[0]) {
      var tail := s[1..];
      assert SortedBy(tail, le) by {
        forall i, j | 0 <= i < j < |tail| ensures le(tail[i], tail[j]) {
          assert tail[i] == s[i + 1] && tail[j] == s[j + 1];
        }
      }
      InsertSorted(x, tail, le);
      var rest := Insert(x, tail, le);
      assert le(s[0], x);
      forall y | y in rest ensures le(s[0], y) {
        if y != x {
          var k :| 0 <= k < |tail| && tail[k] == y;
          assert s[k + 1] == y;
        }
      }
      var r := [s[0]] + rest;
      forall i, j | 0 <= i < j < |r| ensures le(r[i], r[j]) {
        if i == 0 {
          assert r[j] == rest[j - 1];
          assert rest[j - 1] in rest;
        } else {
          assert r[i] == rest[i - 1] && r[j] == rest[j - 1];
        }
      }
    } else if s != [] {
      var r := [x] + s;
      forall i, j | 0 <= i < j < |r| ensures le(r[i], r[j]) {
        if i == 0 {
          assert r[j] == s[j - 1];
          if j > 1 {
            assert le(s[0], s[j - 1]);
          }
        } else {
          assert r[i] == s[i - 1] && r[j] == s[j - 1];
        }
      }
    }
  }

  /** `order_by`: the same elements, ordered by `le`. */
  function Sort<T(!new)>(s: seq<T>, le: (T, T) -> bool): (r: seq<T>)
    requires Total(le) && Transitive(le)
    ensures multiset(r) == multiset(s)
    ensures SortedBy(r, le)
  {
    if s == [] then []
    else
      assert s == [s[0]] + s[1..];
      var sorted := Sort(s[1..], le);
      InsertSorted(s[0], sorted, le);
      Insert(s[0], sorted, le)
  }

  /**
   * `Model.objects.filter(keep).order_by(le)` on a table whose keys are all below `next`: each
   * stored row that `keep` accepts, exactly once, ordered by `le`.
   */
  function Select<R(!new)>(m: map<nat, R>, next: nat, keep: ((nat, R)) -> bool, le: ((nat, R), (nat, R)) -> bool)
    : (r: seq<(nat, R)>)
    requires forall id :: id in m ==> id < next
    requires Total(le) && Transitive(le)
    ensures forall e :: e in r <==> e.0 in m && m[e.0] == e.1 && keep(e)
    ensures NoRepeats(r)
    ensures SortedBy(r, le)
  {
    var all := Enumerate(m, 0, next);
    var kept := Filter(all, keep);
    var r := Sort(kept, le);
    assert forall e :: e in r <==> e in kept by {
      forall e ensures e in r <==> e in kept {
        assert e in r <==> multiset(r)[e] > 0;
        assert e in kept <==> multiset(kept)[e] > 0;
      }
    }
    assert forall x :: multiset(r)[x] <= multiset(all)[x];
    r
  }

  // ---------------------------------------------------------------- titles

  /** Code-point lexicographic order on strings. */
  predicate LexLe(s: string, t: string) {
    s == [] || (t != [] && (s[0] < t[0] || (s[0] == t[0] && LexLe(s[1..], t[1..]))))
  }

  lemma {:induction false} LexLeTotal(s: string, t: string)
    ensures LexLe(s, t) || LexLe(t, s)
  {
    if s != [] && t != [] && s[0] == t[0] {
      LexLeTotal(s[1..], t[1..]);
    }
  }

  lemma {:induction false} LexLeTransitive(s: string, t: string, u: string)
    requires LexLe(s, t) && LexLe(t, u)
    ensures LexLe(s, u)
  {
    if s != [] && t != [] && u != [] && s[0] == t[0] && t[0] == u[0] {
      LexLeTransitive(s[1..], t[1..], u[1..]);
    }
  }

  /** Books ordered by title, as `order_by('title')` does. */
  predicate TitleLe(a: (BookId, BookRow), b: (BookId, BookRow)) {
    LexLe(a.1.title, b.1.title)
  }

  lemma TitleOrder()
    ensures Total(TitleLe) && Transitive(TitleLe)
  {
    forall a: (BookId, BookRow), b: (BookId, BookRow) ensures TitleLe(a, b) || TitleLe(b, a) {
      LexLeTotal(a.1.title, b.1.title);
    }
    forall a: (BookId, BookRow), b: (BookId, BookRow), c: (BookId, BookRow) | TitleLe(a, b) && TitleLe(b, c)
      ensures TitleLe(a, c)
    {
      LexLeTransitive(a.1.title, b.1.title, c.1.title);
    }
  }

  // ---------------------------------------------------------------- books

  /** BookViewSet.available: the books with a copy on the shelf, by title. */
  function AvailableBooks(books: map<BookId, BookRow>, nextBookId: BookId): (r: seq<(BookId, BookRow)>)
    requires forall id :: id in books ==> id < nextBookId
    ensures forall e :: e in r <==> e.0 in books && books[e.0] == e.1 && IsAvailable(e.1)
    ensures NoRepeats(r)
    ensures forall i, j :: 0 <= i < j < |r| ==> LexLe(r[i].1.title, r[j].1.title)
  {
    TitleOrder();
    Select(books, nextBookId, (e: (BookId, BookRow)) => e.1.availableCopies > 0, TitleLe)
  }

  /** ASCII `str.lower`. */
  function Lower(s: string): (t: string)
    ensures |t| == |s|
    ensures forall i :: 0 <= i < |s| ==> t[i] == (if 'A' <= s[i] <= 'Z' then (s[i] as int + 32) as char else s[i])
  {
    seq(|s|, i requires 0 <= i < |s| => if 'A' <= s[i] <= 'Z' then (s[i] as int + 32) as char else s[i])
  }

  /** The `available_only` query parameter is set and reads "true" in any letter case. */
  predicate AvailableOnly(flag: Option<string>) {
    flag.Some? && flag.value != "" && Lower(flag.value) == "true"
  }

  lemma AvailableOnlyMeaning(s: string)
    ensures AvailableOnly(Some(s)) <==>
      |s| == 4 && (s[0] == 't' || s[0] == 'T') && (s[1] == 'r' || s[1] == 'R')
      && (s[2] == 'u' || s[2] == 'U') && (s[3] == 'e' || s[3] == 'E')
  {
  }

  /**
   * BookViewSet.search without a search term or an explicit ordering: every book by title, or
   * only those with a copy on the shelf when `available_only` is "true".
   */
  function SearchBooks(books: map<BookId, BookRow>, nextBookId: BookId, flag: Option<string>): (r: seq<(BookId, BookRow)>)
    requires forall id :: id in books ==> id < nextBookId
    ensures forall e :: e in r <==> e.0 in books && books[e.0] == e.1 && (AvailableOnly(flag) ==> IsAvailable(e.1))
    ensures NoRepeats(r)
    ensures forall i, j :: 0 <= i < j < |r| ==> LexLe(r[i].1.title, r[j].1.title)
  {
    TitleOrder();
    var onlyAvailable := AvailableOnly(flag);
    Select(books, nextBookId, (e: (BookId, BookRow)) => !onlyAvailable || e.1.availableCopies > 0, TitleLe)
  }

  // ---------------------------------------------------------------- checkouts

  predicate DueFirst(a: (CheckoutId, CheckoutRow), b: (CheckoutId, CheckoutRow)) {
    a.1.dueDate <= b.1.dueDate
  }

  predicate LatestFirst(a: (CheckoutId, CheckoutRow), b: (CheckoutId, CheckoutRow)) {
    a.1.checkoutDate >= b.1.checkoutDate
  }

  /** CheckoutViewSet.overdue: unreturned checkouts due before `now`, earliest due first. */
  function OverdueCheckouts(checkouts: map<CheckoutId, CheckoutRow>, nextCheckoutId: CheckoutId, now: int)
    : (r: seq<(CheckoutId, CheckoutRow)>)
    requires forall id :: id in checkouts ==> id < nextCheckoutId
    ensures forall e :: e in r <==> e.0 in checkouts && checkouts[e.0] == e.1 && IsOverdue(e.1, now)
    ensures NoRepeats(r)
    ensures forall i, j :: 0 <= i < j < |r| ==> r[i].1.dueDate <= r[j].1.dueDate
  {
    Select(checkouts, nextCheckoutId, (e: (CheckoutId, CheckoutRow)) => !e.1.isReturned && e.1.dueDate < now, DueFirst)
  }

  /** CheckoutViewSet.my and my_checkouts: the member's unreturned checkouts, latest first. */
  function MyCheckouts(checkouts: map<CheckoutId, CheckoutRow>, nextCheckoutId: CheckoutId, user: UserId)
    : (r: seq<(CheckoutId, CheckoutRow)>)
    requires forall id :: id in checkouts ==> id < nextCheckoutId
    ensures forall e :: e in r <==> e.0 in checkouts && checkouts[e.0] == e.1 && e.1.user == user && !e.1.isReturned
    ensures NoRepeats(r)
    ensures forall i, j :: 0 <= i < j < |r| ==> r[i].1.checkoutDate >= r[j].1.checkoutDate
  {
    Select(checkouts, nextCheckoutId, (e: (CheckoutId, CheckoutRow)) => e.1.user == user && !e.1.isReturned, LatestFirst)
  }

  /** CheckoutViewSet.history and checkout_history: all of the member's checkouts, latest first. */
  function CheckoutHistory(checkouts: map<CheckoutId, CheckoutRow>, nextCheckoutId: CheckoutId, user: UserId)
    : (r: seq<(CheckoutId, CheckoutRow)>)
    requires forall id :: id in checkouts ==> id < nextCheckoutId
    ensures forall e :: e in r <==> e.0 in checkouts && checkouts[e.0] == e.1 && e.1.user == user
    ensures NoRepeats(r)
    ensures forall i, j :: 0 <= i < j < |r| ==> r[i].1.checkoutDate >= r[j].1.checkoutDate
  {
    Select(checkouts, nextCheckoutId, (e: (CheckoutId, CheckoutRow)) => e.1.user == user, LatestFirst)
  }

  // ---------------------------------------------------------------- stats

  function SumTotalCopies(s: seq<(BookId, BookRow)>): int {
    if s == [] then 0 else s[0].1.totalCopies + SumTotalCopies(s[1..])
  }

  function SumAvailableCopies(s: seq<(BookId, BookRow)>): int {
    if s == [] then 0 else s[0].1.availableCopies + SumAvailableCopies(s[1..])
  }

  /** Where every book keeps 0 <= available <= total, the available copies sum to between 0 and the total copies. */
  lemma {:induction false} CopySumsBounded(s: seq<(BookId, BookRow)>)
    requires forall e :: e in s ==> 0 <= e.1.availableCopies <= e.1.totalCopies
    ensures 0 <= SumAvailableCopies(s) <= SumTotalCopies(s)
  {
    if s != [] {
      assert s[0] in s;
      CopySumsBounded(s[1..]);
    }
  }

  lemma SumsOfCons(x: (BookId, BookRow), rest: seq<(BookId, BookRow)>)
    ensures SumTotalCopies([x] + rest) == x.1.totalCopies + SumTotalCopies(rest)
    ensures SumAvailableCopies([x] + rest) == x.1.availableCopies + SumAvailableCopies(rest)
  {
    assert ([x] + rest)[1..] == rest;
  }

  /** Changing the copy count of one stored book moves the available sum by the change and leaves the total sum alone. */
  lemma {:induction false} SumsAfterCopyChange(m: map<BookId, BookRow>, id: BookId, v: int, lo: nat, hi: nat)
    requires id in m
    ensures var m' := m[id := m[id].(availableCopies := v)];
            && SumTotalCopies(Enumerate(m', lo, hi)) == SumTotalCopies(Enumerate(m, lo, hi))
            && SumAvailableCopies(Enumerate(m', lo, hi))
               == SumAvailableCopies(Enumerate(m, lo, hi)) + (if lo <= id < hi then v - m[id].availableCopies else 0)
    decreases hi - lo
  {
    var m' := m[id := m[id].(availableCopies := v)];
    if lo < hi {
      SumsAfterCopyChange(m, id, v, lo + 1, hi);
      var rest, rest' := Enumerate(m, lo + 1, hi), Enumerate(m', lo + 1, hi);
      if lo in m {
        assert Enumerate(m, lo, hi) == [(lo, m[lo])] + rest;
        assert Enumerate(m', lo, hi) == [(lo, m'[lo])] + rest';
        SumsOfCons((lo, m[lo]), rest);
        SumsOfCons((lo, m'[lo]), rest');
      } else {
        assert Enumerate(m, lo, hi) == rest;
        assert Enumerate(m', lo, hi) == rest';
      }
    } else {
      assert Enumerate(m, lo, hi) == [] == Enumerate(m', lo, hi);
    }
  }

  datatype Stats = Stats(
    totalBooks: nat,
    totalCopies: int,
    availableCopies: int,
    checkedOutCopies: int,
    totalUsers: nat,
    activeUsers: nat,
    totalCheckouts: nat,
    currentCheckouts: nat,
    overdueCheckouts: nat)

  datatype StatsError = AdminOnly

  /** The users whose profile is marked active. */
  function ActiveUsers(profiles: map<UserId, ProfileRow>): set<UserId> {
    set u | u in profiles && profiles[u].isActive
  }

  /** The checkouts not yet returned. */
  function OpenCheckoutIds(checkouts: map<CheckoutId, CheckoutRow>): set<CheckoutId> {
    set id | id in checkouts && !checkouts[id].isReturned
  }

  /** The checkouts for which is_overdue holds at `now`. */
  function OverdueCheckoutIds(checkouts: map<CheckoutId, CheckoutRow>, now: int): set<CheckoutId> {
    set id | id in checkouts && IsOverdue(checkouts[id], now)
  }

  /** A checkout not yet returned: `is_returned=False`. */
  predicate OpenEntry(e: (CheckoutId, CheckoutRow)) {
    !e.1.isReturned
  }

  /** `is_returned=False, due_date__lt=now`. */
  function LateAt(now: int): ((CheckoutId, CheckoutRow)) -> bool {
    (e: (CheckoutId, CheckoutRow)) => !e.1.isReturned && e.1.dueDate < now
  }

  lemma OpenCount(checkouts: map<CheckoutId, CheckoutRow>, next: CheckoutId)
    requires forall id :: id in checkouts ==> id < next
    ensures |Filter(Enumerate(checkouts, 0, next), OpenEntry)| == |OpenCheckoutIds(checkouts)|
  {
    FilterCount(checkouts, 0, next, OpenEntry);
    assert KeptKeys(checkouts, 0, next, OpenEntry) == OpenCheckoutIds(checkouts);
  }

  lemma OverdueCount(checkouts: map<CheckoutId, CheckoutRow>, next: CheckoutId, now: int)
    requires forall id :: id in checkouts ==> id < next
    ensures |Filter(Enumerate(checkouts, 0, next), LateAt(now))| == |OverdueCheckoutIds(checkouts, now)|
  {
    FilterCount(checkouts, 0, next, LateAt(now));
    assert KeptKeys(checkouts, 0, next, LateAt(now)) == OverdueCheckoutIds(checkouts, now);
  }

  /** library_stats, without the popular-books and recent-checkouts rankings. */
  function LibraryStats(books: map<BookId, BookRow>, nextBookId: BookId,
                        checkouts: map<CheckoutId, CheckoutRow>, nextCheckoutId: CheckoutId,
                        users: set<UserId>, profiles: map<UserId, ProfileRow>, isStaff: bool, now: int)
    : (r: Result<Stats, StatsError>)
    requires forall id :: id in books ==> id < nextBookId
    requires forall id :: id in checkouts ==> id < nextCheckoutId
    ensures r.Err? <==> !isStaff
    ensures r.Ok? ==>
      var st := r.value;
      && st.totalBooks == |books| && st.totalCheckouts == |checkouts| && st.totalUsers == |users|
      && st.totalCopies == SumTotalCopies(Enumerate(books, 0, nextBookId))
      && st.availableCopies == SumAvailableCopies(Enumerate(books, 0, nextBookId))
      && st.checkedOutCopies == st.totalCopies - st.availableCopies
      && st.activeUsers == |ActiveUsers(profiles)|
      && st.currentCheckouts == |OpenCheckoutIds(checkouts)|
      && st.overdueCheckouts == |OverdueCheckoutIds(checkouts, now)|
  {
    if !isStaff then Err(AdminOnly)
    else
      var shelf := Enumerate(books, 0, nextBookId);
      var all := Enumerate(checkouts, 0, nextCheckoutId);
      var total := SumTotalCopies(shelf);
      var available := SumAvailableCopies(shelf);
      TableCount(books, nextBookId);
      TableCount(checkouts, nextCheckoutId);
      OpenCount(checkouts, nextCheckoutId);
      OverdueCount(checkouts, nextCheckoutId, now);
      Ok(Stats(
        totalBooks := |shelf|,
        totalCopies := total,
        availableCopies := available,
        checkedOutCopies := total - available,
        totalUsers := |users|,
        activeUsers := |ActiveUsers(profiles)|,
        totalCheckouts := |all|,
        currentCheckouts := |Filter(all, OpenEntry)|,
        overdueCheckouts := |Filter(all, LateAt(now))|))
  }

  lemma {:induction false} SubsetCard<T>(a: set<T>, b: set<T>)
    requires a <= b
    ensures |a| <= |b|
  {
    if a != {} {
      var x :| x in a;
      SubsetCard(a - {x}, b - {x});
    }
  }

  /**
   * On valid tables the stats are consistent: the copies checked out lie between 0 and the total,
   * overdue checkouts are among the current ones, current ones among all, and active members
   * among all users.
   */
  lemma StatsBounds(books: map<BookId, BookRow>, nextBookId: BookId,
                    checkouts: map<CheckoutId, CheckoutRow>, nextCheckoutId: CheckoutId,
                    users: set<UserId>, profiles: map<UserId, ProfileRow>, now: int)
    requires BooksValid(books) && profiles.Keys == users
    requires forall id :: id in books ==> id < nextBookId
    requires forall id :: id in checkouts ==> id < nextCheckoutId
    ensures var st := LibraryStats(books, nextBookId, checkouts, nextCheckoutId, users, profiles, true, now).value;
            && 0 <= st.availableCopies <= st.totalCopies
            && 0 <= st.checkedOutCopies <= st.totalCopies
            && st.overdueCheckouts <= st.currentCheckouts <= st.totalCheckouts
            && st.activeUsers <= st.totalUsers
  {
    var shelf := Enumerate(books, 0, nextBookId);
    forall e | e in shelf ensures 0 <= e.1.availableCopies <= e.1.totalCopies {
      assert StoredBookValid(books, e.0);
    }
    CopySumsBounded(shelf);
    SubsetCard(OverdueCheckoutIds(checkouts, now), OpenCheckoutIds(checkouts));
    SubsetCard(OpenCheckoutIds(checkouts), checkouts.Keys);
    SubsetCard(ActiveUsers(profiles), users);
  }

  /**
   * A book whose available_copies moves by d (a checkout or a return) moves checked_out_copies by
   * -d; the total number of copies does not change.
   */
  lemma CheckedOutAfterCopyChange(books: map<BookId, BookRow>, nextBookId: BookId,
                                  checkouts: map<CheckoutId, CheckoutRow>, nextCheckoutId: CheckoutId,
                                  users: set<UserId>, profiles: map<UserId, ProfileRow>, now: int,
                                  id: BookId, v: int)
    requires forall k :: k in books ==> k < nextBookId
    requires forall k :: k in checkouts ==> k < nextCheckoutId
    requires id in books
    ensures var d := v - books[id].availableCopies;
            var before := LibraryStats(books, nextBookId, checkouts, nextCheckoutId, users, profiles, true, now).value;
            var after := LibraryStats(books[id := books[id].(availableCopies := v)], nextBookId,
                                      checkouts, nextCheckoutId, users, profiles, true, now).value;
            && after.totalCopies == before.totalCopies
            && after.availableCopies == before.availableCopies + d
            && after.checkedOutCopies == before.checkedOutCopies - d
  {
    SumsAfterCopyChange(books, id, v, 0, nextBookId);
  }
}
