/**
 * The entities of the circulation desk and the small rules attached to them:
 * how late a loan came back and whether a reader may borrow today.
 * Dates are whole-day counts, as `std::chrono::sys_days` keeps them.
 */
module Domain {
  import opened Wrappers

  type Day = int

  /** Every loan is due this many days after it starts. */
  const LoanPeriodDays := 30
  /** A reader may hold at most this many open loans. */
  const MaxOpenLoans := 3
  /** A late return bans the reader for this many days per day late. */
  const BanDaysPerLateDay := 2

  function AddDays(base: Day, d: int): Day {
    base + d
  }

  datatype CopyStatus = InLibrary | Loaned | Reserved | Late | Repair

  /** The statuses a copy can be returned from. */
  predicate Circulating(s: CopyStatus) {
    s == Loaned || s == Late
  }

  /** Author, year and edition are never read by the rules and are not modelled. */
  datatype Book = Book(id: string, title: string, isNewRelease: bool)

  /** An empty `copyId` marks the loan of a new release's original. */
  datatype Loan = Loan(copyId: string, bookId: string, readerId: string,
                       start: Day, due: Day, returned: Option<Day>)

  datatype Copy = Copy(id: string, bookId: string, status: CopyStatus)

  datatype Reader = Reader(id: string, email: string,
                           activeBanUntil: Option<Day>, activeLoanIds: seq<string>)

  /** The in-memory store: four keyed tables and the set of new releases whose original is out. */
  datatype MemoryDb = MemoryDb(books: map<string, Book>,
                               copies: map<string, Copy>,
                               readers: map<string, Reader>,
                               loans: map<string, Loan>,
                               newReleaseBorrowed: set<string>)

  /** A book as declared without the flag: not a new release. */
  function NewBook(id: string, title: string): (b: Book)
    ensures b.id == id && b.title == title
    ensures !b.isNewRelease
  {
    Book(id, title, false)
  }

  /** A copy as declared without a status: on the shelf. */
  function NewCopy(id: string, bookId: string): (c: Copy)
    ensures c.id == id && c.bookId == bookId
    ensures c.status == InLibrary
  {
    Copy(id, bookId, InLibrary)
  }

  /** A value-initialised reader (`Reader{}`): empty id and address, no ban, no loans. */
  function BlankReader(): (r: Reader)
    ensures r.activeBanUntil.None? && r.activeLoanIds == []
  {
    Reader("", "", None, [])
  }

  predicate IsOpen(l: Loan) {
    l.returned.None?
  }

  predicate IsOriginal(l: Loan) {
    l.copyId == ""
  }

  /** Whole days between the due date and the return; 0 while open or when not late. */
  function LateDays(l: Loan): (n: int)
    ensures n >= 0
    ensures n > 0 <==> l.returned.Some? && l.returned.value > l.due
    ensures n > 0 ==> l.due + n == l.returned.value
  {
    if l.returned.None? then 0
    else if l.returned.value > l.due then l.returned.value - l.due
    else 0
  }

  /** A reader may borrow when not banned (the ban covers its last day) and below the loan cap. */
  predicate CanBorrow(r: Reader, today: Day) {
    var banned := r.activeBanUntil.Some? && today <= r.activeBanUntil.value;
    !banned && |r.activeLoanIds| < MaxOpenLoans
  }

  /** The ban a return on day `when` imposes, if any. */
  function LateReturnBan(l: Loan, when: Day): (ban: Option<Day>)
    ensures ban.Some? <==> when > l.due
    ensures ban.Some? ==> ban.value == when + BanDaysPerLateDay * (when - l.due)
  {
    var late := LateDays(l.(returned := Some(when)));
    if late > 0 then Some(when + BanDaysPerLateDay * late) else None
  }

  /** The error kinds the service raises; `KeyError` is the Python port's failed dictionary lookup. */
  datatype Error =
    | CopyNotFound
    | ReaderNotFound
    | BookNotFound
    | BorrowForbidden
    | CopyNotAvailable
    | CopyNotLoaned
    | LoanNotFound
    | NotNewRelease
    | OriginalAlreadyBorrowed
    | OriginalNotBorrowed
    | KeyError

  /** The message carried by the exception. */
  function Code(e: Error): string {
    match e
    case CopyNotFound => "COPY_NOT_FOUND"
    case ReaderNotFound => "READER_NOT_FOUND"
    case BookNotFound => "BOOK_NOT_FOUND"
    case BorrowForbidden => "BORROW_FORBIDDEN"
    case CopyNotAvailable => "COPY_NOT_AVAILABLE"
    case CopyNotLoaned => "COPY_NOT_LOANED"
    case LoanNotFound => "LOAN_NOT_FOUND"
    case NotNewRelease => "NOT_NEW_RELEASE"
    case OriginalAlreadyBorrowed => "ORIGINAL_ALREADY_BORROWED"
    case OriginalNotBorrowed => "ORIGINAL_NOT_BORROWED"
    case KeyError => "KeyError"
  }

  /** `ids` with every occurrence of `id` dropped, the others kept in order (see `WithoutIdKeepsOrder`). */
  function WithoutId(ids: seq<string>, id: string): (r: seq<string>)
    ensures forall x :: x in r <==> x in ids && x != id
    ensures |r| <= |ids|
    ensures id !in ids ==> r == ids
    ensures NoDuplicates(ids) ==> NoDuplicates(r)
  {
    if |ids| == 0 then []
    else if ids[0] == id then WithoutId(ids[1..], id)
    else
      var rest := WithoutId(ids[1..], id);
      NoDuplicatesCons(ids[0], ids[1..]);
      NoDuplicatesCons(ids[0], rest);
      [ids[0]] + rest
  }

  /** Dropping an id from a concatenation drops it from each part, so the ids kept stay in their order. */
  lemma {:induction false} WithoutIdKeepsOrder(a: seq<string>, b: seq<string>, id: string)
    ensures WithoutId(a + b, id) == WithoutId(a, id) + WithoutId(b, id)
  {
    if |a| == 0 {
      assert a + b == b;
    } else {
      assert (a + b)[1..] == a[1..] + b;
      WithoutIdKeepsOrder(a[1..], b, id);
    }
  }

  predicate NoDuplicates(s: seq<string>) {
    forall i, j | 0 <= i < j < |s| :: s[i] != s[j]
  }

  lemma NoDuplicatesCons(x: string, t: seq<string>)
    ensures NoDuplicates([x] + t) <==> x !in t && NoDuplicates(t)
  {
    var s := [x] + t;
    if x !in t && NoDuplicates(t) {
      forall i, j | 0 <= i < j < |s|
        ensures s[i] != s[j]
      {
        if i > 0 {
          assert s[i] == t[i - 1] && s[j] == t[j - 1];
        } else {
          assert s[j] == t[j - 1];
        }
      }
    }
    if NoDuplicates(s) {
      forall i, j | 0 <= i < j < |t|
        ensures t[i] != t[j]
      {
        assert t[i] == s[i + 1] && t[j] == s[j + 1];
      }
      forall j | 0 <= j < |t|
        ensures t[j] != x
      {
        assert t[j] == s[j + 1] && x == s[0];
      }
    }
  }

  // ---- Properties of the rules ----

  /** A loan counts as late exactly when it came back after its due date, by the gap in days. */
  lemma LateDaysMeasuresDelay(l: Loan, when: Day)
    ensures LateDays(l.(returned := Some(when))) == if when > l.due then when - l.due else 0
    ensures LateDays(l.(returned := None)) == 0
  {
  }

  /** A ban ending today still blocks; the next day only the loan cap matters. */
  lemma BanCoversItsLastDay(r: Reader, today: Day)
    requires r.activeBanUntil == Some(today)
    ensures !CanBorrow(r, today)
    ensures CanBorrow(r, today + 1) <==> |r.activeLoanIds| < MaxOpenLoans
  {
  }

  /** Eligibility in terms of its two causes: an unexpired ban and the loan cap. */
  lemma CanBorrowExactly(r: Reader, today: Day)
    ensures CanBorrow(r, today) <==>
      (r.activeBanUntil.None? || today > r.activeBanUntil.value) && |r.activeLoanIds| < 3
  {
  }

  /** Waiting never makes a reader less eligible. */
  lemma EligibilityPersists(r: Reader, today: Day, later: Day)
    requires today <= later
    requires CanBorrow(r, today)
    ensures CanBorrow(r, later)
  {
  }
}
