/**
 * The circulation rules as a caller sees them on a consistent store: the loan
 * cap, bans, the settlement of returns, the exclusivity of originals and the
 * notices a return sends.
 */
module Properties {
  import opened Wrappers
  import opened Domain
  import opened LoanIds
  import opened Alerts
  import opened Service
  import opened Invariants

  /** Keys of the loans `rid` currently holds. */
  function OpenLoansOf(db: MemoryDb, rid: string): set<string> {
    set k | k in db.loans && db.loans[k].readerId == rid && IsOpen(db.loans[k])
  }

  lemma {:induction false} DistinctElementsCount(s: seq<string>)
    requires NoDuplicates(s)
    ensures |set x | x in s| == |s|
  {
    if |s| > 0 {
      var t := s[1..];
      NoDuplicatesCons(s[0], t);
      assert s == [s[0]] + t;
      DistinctElementsCount(t);
      assert (set x | x in s) == (set x | x in t) + {s[0]};
    } else {
      assert (set x | x in s) == {};
    }
  }

  /** On a consistent store no reader ever holds more than three open loans. */
  lemma OpenLoansBounded(db: MemoryDb, rid: string)
    requires Valid(db) && rid in db.readers
    ensures |OpenLoansOf(db, rid)| == |db.readers[rid].activeLoanIds| <= MaxOpenLoans
  {
    assert OpenListAccurate(db, rid);
    var ids := db.readers[rid].activeLoanIds;
    assert OpenLoansOf(db, rid) == set x | x in ids;
    DistinctElementsCount(ids);
  }

  /** A reader holding three open loans is refused a fourth, of a copy or of an original. */
  lemma FourthLoanForbidden(db: MemoryDb, rid: string, copyId: string, bookId: string, today: Day)
    requires Valid(db) && rid in db.readers
    requires |OpenLoansOf(db, rid)| >= MaxOpenLoans
    ensures copyId in db.copies ==> BorrowCopy(db, copyId, rid, today) == Err(BorrowForbidden)
    ensures bookId in db.books && db.books[bookId].isNewRelease ==>
      BorrowOriginalNewRelease(db, bookId, rid, today) == Err(BorrowForbidden)
  {
    OpenLoansBounded(db, rid);
  }

  /** A ban that has not yet expired blocks every borrow, whatever the reader holds. */
  lemma BannedReaderForbidden(db: MemoryDb, rid: string, copyId: string, bookId: string, today: Day)
    requires rid in db.readers
    requires db.readers[rid].activeBanUntil.Some? && today <= db.readers[rid].activeBanUntil.value
    ensures copyId in db.copies ==> BorrowCopy(db, copyId, rid, today) == Err(BorrowForbidden)
    ensures bookId in db.books && db.books[bookId].isNewRelease ==>
      BorrowOriginalNewRelease(db, bookId, rid, today) == Err(BorrowForbidden)
  {
  }

  /** On a consistent store the loan of a copy that is out is always found, and it is the only open loan of that copy. */
  lemma ReturnCopyFindsTheLoan(db: MemoryDb, copyId: string)
    requires Valid(db)
    requires copyId in db.copies && Circulating(db.copies[copyId].status)
    ensures Found(CopyLoanSearch(db, copyId))
    ensures CopyLoanMatches(db.loans, copyId) == {CopyLoanSearch(db, copyId).value}
  {
    var m := CopyLoanMatches(db.loans, copyId);
    var k := CopyLoanSearch(db, copyId).value;
    assert k in m;
    forall j | j in m
      ensures j == k
    {
    }
    assert IsLoanKey(k);
  }

  lemma {:induction false} WithoutAppendedId(ids: seq<string>, id: string)
    requires id !in ids
    ensures WithoutId(ids + [id], id) == ids
  {
    var s := ids + [id];
    if |ids| > 0 {
      assert s[0] == ids[0] != id;
      assert s[1..] == ids[1..] + [id];
      WithoutAppendedId(ids[1..], id);
      calc {
        WithoutId(s, id);
        [ids[0]] + WithoutId(ids[1..] + [id], id);
        [ids[0]] + ids[1..];
        ids;
      }
    } else {
      assert s == [id];
      assert WithoutId(s, id) == WithoutId(s[1..], id);
      assert s[1..] == [];
    }
  }

  /** Returning a copy settles the loan `id` when that is an open loan of the copy on a consistent store. */
  lemma ReturnSettles(db: MemoryDb, alert: BioAlert, copyId: string, id: string, when: Day)
    requires Valid(db)
    requires CopyReturnAnnounceable(db, alert, copyId)
    requires copyId in db.copies && Circulating(db.copies[copyId].status)
    requires id in CopyLoanMatches(db.loans, copyId)
    ensures ReturnCopy(db, alert, copyId, when).Ok?
    ensures CopyLoanSearch(db, copyId).value == id
  {
    ReturnCopyFindsTheLoan(db, copyId);
  }

  /** Closing, by its due date, the loan just appended to a reader's list gives back the reader as before. */
  lemma OnTimeCloseRestoresReader(db: MemoryDb, db1: MemoryDb, db2: MemoryDb, rid: string, id: string, when: Day)
    requires rid in db.readers && id !in db.readers[rid].activeLoanIds
    requires id in db1.loans && db1.loans[id].readerId == rid && when <= db1.loans[id].due
    requires SameExcept(db.readers, db1.readers, rid)
    requires db1.readers[rid] == db.readers[rid].(activeLoanIds := db.readers[rid].activeLoanIds + [id])
    requires Closed(db1, db2, id, when)
    ensures db2.readers == db.readers
  {
    WithoutAppendedId(db.readers[rid].activeLoanIds, id);
    assert db2.readers[rid] == db.readers[rid];
  }

  /** A copy that went from the shelf to LOANED and back to the shelf is as it was. */
  lemma CopyBackOnShelf(c0: map<string, Copy>, c1: map<string, Copy>, c2: map<string, Copy>, copyId: string)
    requires copyId in c0 && c0[copyId].status == InLibrary
    requires SameExcept(c0, c1, copyId) && c1[copyId] == c0[copyId].(status := Loaned)
    requires SameExcept(c1, c2, copyId) && c2[copyId] == c1[copyId].(status := InLibrary)
    ensures c2 == c0
  {
  }

  /**
   * Borrowing a copy and bringing it back by its due date restores the copy and
   * the reader exactly; the store keeps the closed loan as history.
   */
  lemma BorrowThenReturnOnTime(db: MemoryDb, alert: BioAlert, copyId: string, rid: string, today: Day, when: Day)
    requires Valid(db)
    requires BorrowCopy(db, copyId, rid, today).Ok?
    requires CopyReturnAnnounceable(BorrowCopy(db, copyId, rid, today).value.db, alert, copyId)
    requires when <= today + LoanPeriodDays
    ensures var b := BorrowCopy(db, copyId, rid, today).value;
      var r := ReturnCopy(b.db, alert, copyId, when);
      && r.Ok?
      && r.value.db.copies == db.copies
      && r.value.db.readers == db.readers
      && r.value.db.books == db.books
      && r.value.db.newReleaseBorrowed == db.newReleaseBorrowed
      && r.value.db.loans == b.db.loans[b.loanId := b.db.loans[b.loanId].(returned := Some(when))]
  {
    var b := BorrowCopy(db, copyId, rid, today).value;
    var id, db1 := b.loanId, b.db;
    BorrowCopyPreservesValid(db, copyId, rid, today);
    NextLoanIdFresh(db);
    assert id in CopyLoanMatches(db1.loans, copyId);
    ReturnSettles(db1, alert, copyId, id, when);
    var db2 := ReturnCopy(db1, alert, copyId, when).value.db;
    assert OpenListAccurate(db, rid);
    OnTimeCloseRestoresReader(db, db1, db2, rid, id, when);
    ClosedLoansMap(db1, db2, id, when);
    CopyBackOnShelf(db.copies, db1.copies, db2.copies, copyId);
  }

  /** Coming back `n` days late bans the reader until `2n` days after the return, replacing any earlier ban. */
  lemma LateReturnBans(db: MemoryDb, alert: BioAlert, copyId: string, when: Day)
    requires Valid(db)
    requires CopyReturnAnnounceable(db, alert, copyId)
    requires copyId in db.copies && Circulating(db.copies[copyId].status)
    ensures var k := CopyLoanSearch(db, copyId).value;
      var loan := db.loans[k];
      var r := ReturnCopy(db, alert, copyId, when);
      && r.Ok?
      && (when > loan.due ==>
            r.value.db.readers[loan.readerId].activeBanUntil == Some(when + 2 * (when - loan.due)))
      && (when <= loan.due ==>
            r.value.db.readers[loan.readerId].activeBanUntil == db.readers[loan.readerId].activeBanUntil)
  {
    ReturnCopyFindsTheLoan(db, copyId);
    var k := CopyLoanSearch(db, copyId).value;
    assert LoanResolves(db, db.loans[k]);
    ReturnFoundLoanBans(db, alert, copyId, when);
  }

  /** The ban rule of a copy return, once the search has found a loan whose reader is on file. */
  lemma ReturnFoundLoanBans(db: MemoryDb, alert: BioAlert, copyId: string, when: Day)
    requires CopyReturnAnnounceable(db, alert, copyId)
    requires copyId in db.copies && Circulating(db.copies[copyId].status)
    requires Found(CopyLoanSearch(db, copyId))
    requires CopyLoanSearch(db, copyId).value in db.loans
    requires db.loans[CopyLoanSearch(db, copyId).value].readerId in db.readers
    ensures var k := CopyLoanSearch(db, copyId).value;
      var loan := db.loans[k];
      var r := ReturnCopy(db, alert, copyId, when);
      && r.Ok?
      && (when > loan.due ==>
            r.value.db.readers[loan.readerId].activeBanUntil == Some(when + 2 * (when - loan.due)))
      && (when <= loan.due ==>
            r.value.db.readers[loan.readerId].activeBanUntil == db.readers[loan.readerId].activeBanUntil)
  {
    var k := CopyLoanSearch(db, copyId).value;
    ReturnCopyChecks(db, alert, copyId, when);
    var r := ReturnCopy(db, alert, copyId, when);
    assert r.Ok?;
    assert Closed(db, r.value.db, k, when);
  }

  /** Once an original is out, nobody else can borrow it. */
  lemma OriginalIsExclusive(db: MemoryDb, bookId: string, holder: string, today: Day,
                            other: string, later: Day)
    requires BorrowOriginalNewRelease(db, bookId, holder, today).Ok?
    ensures var db' := BorrowOriginalNewRelease(db, bookId, holder, today).value.db;
      other in db'.readers && CanBorrow(db'.readers[other], later) ==>
        BorrowOriginalNewRelease(db', bookId, other, later) == Err(OriginalAlreadyBorrowed)
  {
  }

  /** Once the holder returns the original, any eligible reader can borrow it at once. */
  lemma OriginalFreedByReturn(db: MemoryDb, alert: BioAlert, bookId: string, holder: string, when: Day,
                              other: string, today: Day)
    requires Valid(db)
    requires OriginalReturnAnnounceable(db, alert, bookId, holder)
    requires ReturnOriginalNewRelease(db, alert, bookId, holder, when).Ok?
    requires var db' := ReturnOriginalNewRelease(db, alert, bookId, holder, when).value.db;
      other in db'.readers && CanBorrow(db'.readers[other], today)
    ensures var db' := ReturnOriginalNewRelease(db, alert, bookId, holder, when).value.db;
      BorrowOriginalNewRelease(db', bookId, other, today).Ok?
  {
    var k := OriginalLoanSearch(db, bookId, holder).value;
    assert LoanResolves(db, db.loans[k]);
  }

  /**
   * A successful return of a copy sends, when a gateway is installed, exactly
   * one notice to each subscriber of the copy's book, at the address on file,
   * titled with the book's title; with no gateway it sends nothing.
   */
  lemma ReturnNotifiesSubscribers(db: MemoryDb, alert: BioAlert, copyId: string, when: Day)
    requires Valid(db)
    requires CopyReturnAnnounceable(db, alert, copyId)
    requires ReturnCopy(db, alert, copyId, when).Ok?
    ensures var bookId := db.copies[copyId].bookId;
      var sent := ReturnCopy(db, alert, copyId, when).value.notices;
      && (!alert.gatewayInstalled ==> sent == {})
      && (alert.gatewayInstalled ==>
            && |sent| == |Subscribers(alert, bookId)|
            && forall rid | rid in Subscribers(alert, bookId) ::
                 Notice(rid, db.readers[rid].email, "Disponible: " + db.books[bookId].title, NoticeBody) in sent)
  {
    var k := CopyLoanSearch(db, copyId).value;
    var db' := ReturnCopy(db, alert, copyId, when).value.db;
    assert LoanResolves(db, db.loans[k]);
    var bookId := db.loans[k].bookId;
    ClosedDirectories(db, db', k, when);
    if alert.gatewayInstalled {
      OneNoticePerSubscriber(alert, bookId, EmailDirectory(db'), TitleCatalog(db'));
      forall rid | rid in Subscribers(alert, bookId)
        ensures EmailDirectory(db')[rid] == db.readers[rid].email
      {
      }
    }
  }
}
