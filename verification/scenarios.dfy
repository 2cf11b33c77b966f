/**
 * The scenarios the desk's tests walk through, stated over any start date
 * instead of one calendar day: the loan cap, the due date, the ban after a
 * late return, the exclusivity of an original and the notice on a return.
 */
module Scenarios {
  import opened Wrappers
  import opened Domain
  import opened Alerts
  import opened Service
  import opened Invariants

  /** The store the tests seed: B1 with copies C1 and C2, the new release B2, readers R1 and R2. */
  function Seed(): MemoryDb {
    MemoryDb(
      map["B1" := Book("B1", "Software Engineering", false), "B2" := Book("B2", "Clean C++ (New Release)", true)],
      map["C1" := NewCopy("C1", "B1"), "C2" := NewCopy("C2", "B1")],
      map["R1" := Reader("R1", "alice@example.com", None, []), "R2" := Reader("R2", "bob@example.com", None, [])],
      map[], {})
  }

  /** The seed with two more copies of B1, C3 and C4. */
  function SeedWithFourCopies(): MemoryDb {
    Seed().(copies := Seed().copies["C3" := NewCopy("C3", "B1")]["C4" := NewCopy("C4", "B1")])
  }

  /** The seeded store satisfies the store invariant. */
  lemma SeedIsValid()
    ensures Valid(Seed())
  {
  }

  /** A reader can take three copies on one day; the fourth is refused. */
  lemma LoanCapScenario(d: Day)
    ensures var r1 := BorrowCopy(SeedWithFourCopies(), "C1", "R1", d);
      r1.Ok? &&
      var r2 := BorrowCopy(r1.value.db, "C2", "R1", d);
      r2.Ok? &&
      var r3 := BorrowCopy(r2.value.db, "C3", "R1", d);
      r3.Ok? &&
      BorrowCopy(r3.value.db, "C4", "R1", d) == Err(BorrowForbidden)
  {
    var db0 := SeedWithFourCopies();
    BorrowCopyChecks(db0, "C1", "R1", d);
    var db1 := BorrowCopy(db0, "C1", "R1", d).value.db;
    assert db1.copies["C2"] == db0.copies["C2"];
    BorrowCopyChecks(db1, "C2", "R1", d);
    var db2 := BorrowCopy(db1, "C2", "R1", d).value.db;
    assert db2.copies["C3"] == db0.copies["C3"];
    assert |db2.readers["R1"].activeLoanIds| == 2;
    BorrowCopyChecks(db2, "C3", "R1", d);
    var db3 := BorrowCopy(db2, "C3", "R1", d).value.db;
    assert |db3.readers["R1"].activeLoanIds| == 3;
    assert "C4" in db3.copies;
    BorrowCopyChecks(db3, "C4", "R1", d);
  }

  /** A loan taken on day `d` is due on day `d + 30`. */
  lemma DueDateScenario(d: Day)
    ensures var r := BorrowCopy(Seed(), "C1", "R1", d);
      r.Ok? && r.value.db.loans[r.value.loanId].due == d + 30
  {
    BorrowCopyChecks(Seed(), "C1", "R1", d);
  }

  /**
   * A copy returned `late` days after its due date (0 for on time) bans its
   * reader for twice that many days, or not at all: 1 day late gives 2 days,
   * 5 days late give 10.
   */
  lemma ReturnBanScenario(start: Day, late: nat)
    ensures var b := BorrowCopy(Seed(), "C1", "R1", start);
      b.Ok? &&
      var r := ReturnCopy(b.value.db, Initial(), "C1", start + 30 + late);
      r.Ok? &&
      r.value.db.readers["R1"].activeBanUntil == (if late == 0 then None else Some(start + 30 + late + 2 * late))
  {
    SeedBorrow(start);
    var b := BorrowCopy(Seed(), "C1", "R1", start).value;
    OnlyLoanBan(b.db, Initial(), "C1", "R1", b.loanId, start, late);
  }

  /**
   * The only loan, taken on `start` by an unbanned reader and returned `late`
   * days after its due date `start + 30`, bans the reader for `2 * late` days.
   */
  lemma OnlyLoanBan(db: MemoryDb, alert: BioAlert, copyId: string, readerId: string, id: string, start: Day, late: nat)
    requires db.loans.Keys == {id} && id != "" && db.loans[id].copyId == copyId && IsOpen(db.loans[id])
    requires copyId in db.copies && Circulating(db.copies[copyId].status)
    requires db.loans[id].readerId == readerId && readerId in db.readers && db.readers[readerId].activeBanUntil == None
    requires db.loans[id].due == start + 30
    requires CopyReturnAnnounceable(db, alert, copyId)
    ensures var r := ReturnCopy(db, alert, copyId, start + 30 + late);
      r.Ok? &&
      r.value.db.readers[readerId].activeBanUntil == (if late == 0 then None else Some(start + 30 + late + 2 * late))
  {
    var due := db.loans[id].due;
    ReturnOfOnlyLoan(db, alert, copyId, id, due + late);
    assert due + late > due <==> late != 0;
  }

  /** R1's borrow of C1 from the seed opens the store's only loan, due 30 days later, and leaves R1 unbanned. */
  lemma SeedBorrow(start: Day)
    ensures var b := BorrowCopy(Seed(), "C1", "R1", start);
      && b.Ok?
      && var loan := b.value.db.loans[b.value.loanId];
      && b.value.db.loans.Keys == {b.value.loanId} && b.value.loanId != ""
      && loan.copyId == "C1" && loan.bookId == "B1" && loan.readerId == "R1"
      && IsOpen(loan) && loan.due == start + 30
      && b.value.db.copies["C1"].status == Loaned
      && b.value.db.readers == Seed().readers["R1" := b.value.db.readers["R1"]]
      && b.value.db.readers["R1"].activeBanUntil == None
      && b.value.db.books == Seed().books
  {
    BorrowCopyChecks(Seed(), "C1", "R1", start);
  }

  /**
   * Returning the copy of the only loan in a store succeeds, bans or spares
   * its reader by the late-return rule and announces the loan's book.
   */
  lemma ReturnOfOnlyLoan(db: MemoryDb, alert: BioAlert, copyId: string, id: string, when: Day)
    requires db.loans.Keys == {id} && id != "" && db.loans[id].copyId == copyId && IsOpen(db.loans[id])
    requires copyId in db.copies && Circulating(db.copies[copyId].status)
    requires db.loans[id].readerId in db.readers
    requires CopyReturnAnnounceable(db, alert, copyId)
    ensures var loan := db.loans[id];
      var r := ReturnCopy(db, alert, copyId, when);
      && r.Ok?
      && r.value.db.readers[loan.readerId].activeBanUntil ==
           (if when > loan.due then Some(when + 2 * (when - loan.due)) else db.readers[loan.readerId].activeBanUntil)
      && r.value.db.readers.Keys == db.readers.Keys
      && (forall j | j in db.readers && j != loan.readerId :: r.value.db.readers[j] == db.readers[j])
      && r.value.db.books == db.books
      && r.value.notices ==
           NotifyAvailable(alert, loan.bookId, EmailDirectory(r.value.db), TitleCatalog(r.value.db))
  {
    assert CopyLoanMatches(db.loans, copyId) == {id};
    ReturnCopyChecks(db, alert, copyId, when);
    var r := ReturnCopy(db, alert, copyId, when);
    assert r.Ok?;
    assert Closed(db, r.value.db, id, when);
    assert ReaderOrBlank(db.readers, db.loans[id].readerId) == db.readers[db.loans[id].readerId];
  }

  /** While R2 holds the original of B2, R1 is refused it. */
  lemma OriginalHeldScenario(d: Day)
    ensures var r1 := BorrowOriginalNewRelease(Seed(), "B2", "R2", d);
      r1.Ok? &&
      BorrowOriginalNewRelease(r1.value.db, "B2", "R1", d) == Err(OriginalAlreadyBorrowed)
  {
    BorrowOriginalChecks(Seed(), "B2", "R2", d);
    var b := BorrowOriginalNewRelease(Seed(), "B2", "R2", d).value;
    BorrowOriginalChecks(b.db, "B2", "R1", d);
  }

  /** Once R2 brings the original of B2 back, R1 gets it. */
  lemma OriginalReleasedScenario(d: Day, back: Day)
    ensures var r1 := BorrowOriginalNewRelease(Seed(), "B2", "R2", d);
      r1.Ok? &&
      var r2 := ReturnOriginalNewRelease(r1.value.db, Initial(), "B2", "R2", back);
      r2.Ok? &&
      BorrowOriginalNewRelease(r2.value.db, "B2", "R1", d).Ok?
  {
    BorrowOriginalChecks(Seed(), "B2", "R2", d);
    var b := BorrowOriginalNewRelease(Seed(), "B2", "R2", d).value;
    OnlyOriginalReturns(b.db, Initial(), "B2", "R2", b.loanId, back);
    OriginalReturnFrees(b.db, Initial(), "B2", "R2", "R1", back, d);
  }

  /** The only loan in a store, the open original of `bookId` held by `holder`, can be returned. */
  lemma OnlyOriginalReturns(db: MemoryDb, alert: BioAlert, bookId: string, holder: string, id: string, when: Day)
    requires db.loans.Keys == {id} && id != "" && IsOriginal(db.loans[id]) && IsOpen(db.loans[id])
    requires db.loans[id].bookId == bookId && db.loans[id].readerId == holder
    requires bookId in db.books && holder in db.readers && bookId in db.newReleaseBorrowed
    requires OriginalReturnAnnounceable(db, alert, bookId, holder)
    ensures ReturnOriginalNewRelease(db, alert, bookId, holder, when).Ok?
  {
    assert OriginalLoanMatches(db.loans, bookId, holder) == {id};
    ReturnOriginalChecks(db, alert, bookId, holder, when);
  }

  /**
   * After the holder returns the original of a new release, another reader
   * who may borrow can take it.
   */
  lemma OriginalReturnFrees(db: MemoryDb, alert: BioAlert, bookId: string, holder: string, other: string,
                            when: Day, today: Day)
    requires OriginalReturnAnnounceable(db, alert, bookId, holder)
    requires ReturnOriginalNewRelease(db, alert, bookId, holder, when).Ok?
    requires other != holder && other in db.readers && CanBorrow(db.readers[other], today)
    requires db.books[bookId].isNewRelease
    ensures BorrowOriginalNewRelease(ReturnOriginalNewRelease(db, alert, bookId, holder, when).value.db,
                                     bookId, other, today).Ok?
  {
    var r := ReturnOriginalNewRelease(db, alert, bookId, holder, when).value;
    var k := OriginalLoanSearch(db, bookId, holder).value;
    assert Closed(db, r.db, k, when);
    assert r.db.readers[other] == db.readers[other];
    BorrowOriginalChecks(r.db, bookId, other, today);
  }

  /** With a gateway installed and R2 subscribed to B1, R1's return of C1 sends one notice, to R2's address. */
  lemma NoticeScenario(d: Day, back: Day)
    ensures var alert := Subscribe(SetGateway(Initial(), true), "B1", "R2");
      var b := BorrowCopy(Seed(), "C1", "R1", d);
      b.Ok? &&
      var r := ReturnCopy(b.value.db, alert, "C1", back);
      r.Ok? &&
      r.value.notices == {NoticeFor("R2", "bob@example.com", "Software Engineering")}
  {
    var alert := Subscribe(SetGateway(Initial(), true), "B1", "R2");
    SeedBorrow(d);
    var b := BorrowCopy(Seed(), "C1", "R1", d).value;
    OnlyLoanNotice(b.db, alert, "C1", b.loanId, back);
  }

  /**
   * Returning the only loan of a copy of B1, with a gateway installed and
   * only R2 subscribed, sends R2 one notice at R2's address with B1's title.
   */
  lemma OnlyLoanNotice(db: MemoryDb, alert: BioAlert, copyId: string, id: string, when: Day)
    requires db.loans.Keys == {id} && id != "" && db.loans[id].copyId == copyId && IsOpen(db.loans[id])
    requires db.loans[id].bookId == "B1" && db.loans[id].readerId == "R1"
    requires copyId in db.copies && Circulating(db.copies[copyId].status)
    requires db.readers.Keys == {"R1", "R2"} && db.readers["R2"].email == "bob@example.com"
    requires "B1" in db.books && db.books["B1"].title == "Software Engineering"
    requires alert == Subscribe(SetGateway(Initial(), true), "B1", "R2")
    ensures var r := ReturnCopy(db, alert, copyId, when);
      r.Ok? &&
      r.value.notices == {NoticeFor("R2", "bob@example.com", "Software Engineering")}
  {
    assert Subscribers(alert, "B1") == {"R2"};
    ReturnOfOnlyLoan(db, alert, copyId, id, when);
    var r := ReturnCopy(db, alert, copyId, when).value;
    assert EmailDirectory(r.db)["R2"] == "bob@example.com";
    assert TitleCatalog(r.db)["B1"] == "Software Engineering";
    var n := NoticeFor("R2", "bob@example.com", "Software Engineering");
    assert r.notices == {n} by {
      forall m | m in r.notices ensures m == n {
        assert m.reader == "R2";
      }
    }
  }

  /**
   * A subscription to a book that is not on file does not stop the original
   * return from answering BOOK_NOT_FOUND: the checks run before any lookup.
   */
  lemma UnknownSubscribedBookScenario(when: Day)
    ensures var alert := Subscribe(SetGateway(Initial(), true), "B9", "R9");
      ReturnOriginalNewRelease(Seed(), alert, "B9", "R1", when) == Err(BookNotFound)
  {
    var alert := Subscribe(SetGateway(Initial(), true), "B9", "R9");
    ReturnOriginalChecks(Seed(), alert, "B9", "R1", when);
  }

  /** A reader whose ban ends today cannot borrow today. */
  lemma BannedTodayScenario(today: Day)
    ensures var db := Seed().(readers := Seed().readers["R1" := Seed().readers["R1"].(activeBanUntil := Some(today))]);
      BorrowCopy(db, "C1", "R1", today) == Err(BorrowForbidden)
  {
    var db := Seed().(readers := Seed().readers["R1" := Seed().readers["R1"].(activeBanUntil := Some(today))]);
    BorrowCopyChecks(db, "C1", "R1", today);
  }

  /** A copy already out cannot be borrowed. */
  lemma CopyOutScenario(d: Day)
    ensures var db := Seed().(copies := Seed().copies["C1" := Seed().copies["C1"].(status := Loaned)]);
      BorrowCopy(db, "C1", "R1", d) == Err(CopyNotAvailable)
  {
    var db := Seed().(copies := Seed().copies["C1" := Seed().copies["C1"].(status := Loaned)]);
    BorrowCopyChecks(db, "C1", "R1", d);
  }
}
