/**
 * The consistency of the store that every successful operation preserves:
 * fresh loan ids, resolving references, readers' open-loan lists that list
 * exactly their open loans (at most three), copy status agreeing with open
 * copy loans, and the original-loan lock agreeing with open original loans.
 */
module Invariants {
  import opened Wrappers
  import opened Domain
  import opened LoanIds
  import opened Alerts
  import opened Service

  /** Every loan key is "L<n>" with 1 <= n <= number of loans, so "L<count+1>" is unused. */
  ghost predicate LoanKeysFresh(db: MemoryDb) {
    forall k | k in db.loans :: IsLoanKey(k) && 1 <= LoanNumber(k) <= |db.loans|
  }

  /** A loan names an existing reader and book; an original is of a new release, a copy loan of a copy of its book. */
  ghost predicate LoanResolves(db: MemoryDb, l: Loan) {
    && l.readerId in db.readers
    && l.bookId in db.books
    && if IsOriginal(l) then db.books[l.bookId].isNewRelease
       else l.copyId in db.copies && db.copies[l.copyId].bookId == l.bookId
  }

  ghost predicate ReferencesResolve(db: MemoryDb) {
    && "" !in db.copies
    && (forall c | c in db.copies :: db.copies[c].bookId in db.books)
    && (forall k | k in db.loans :: LoanResolves(db, db.loans[k]))
  }

  /** A reader's list holds, once each, exactly the keys of that reader's open loans, and at most three. */
  ghost predicate OpenListAccurate(db: MemoryDb, rid: string)
    requires rid in db.readers
  {
    var ids := db.readers[rid].activeLoanIds;
    && NoDuplicates(ids)
    && |ids| <= MaxOpenLoans
    && forall k :: k in ids <==> k in db.loans && db.loans[k].readerId == rid && IsOpen(db.loans[k])
  }

  ghost predicate OpenListsAccurate(db: MemoryDb) {
    forall rid | rid in db.readers :: OpenListAccurate(db, rid)
  }

  /** A copy is out (LOANED or LATE) exactly when an open loan references it. */
  ghost predicate CopyStatusAccurate(db: MemoryDb) {
    forall c | c in db.copies :: Circulating(db.copies[c].status) <==> CopyLoanMatches(db.loans, c) != {}
  }

  ghost predicate OneOpenLoanPerCopy(db: MemoryDb) {
    forall k1, k2 | k1 in db.loans && k2 in db.loans && IsOpen(db.loans[k1]) && IsOpen(db.loans[k2])
                    && !IsOriginal(db.loans[k1]) && db.loans[k1].copyId == db.loans[k2].copyId :: k1 == k2
  }

  function OpenOriginals(loans: map<string, Loan>, bookId: string): set<string> {
    set k | k in loans && loans[k].bookId == bookId && IsOriginal(loans[k]) && IsOpen(loans[k])
  }

  /** A book is in `newReleaseBorrowed` exactly when an open original loan of it exists. */
  ghost predicate OriginalLockAccurate(db: MemoryDb) {
    forall b :: b in db.newReleaseBorrowed <==> OpenOriginals(db.loans, b) != {}
  }

  ghost predicate OneOpenOriginalPerBook(db: MemoryDb) {
    forall k1, k2 | k1 in db.loans && k2 in db.loans && IsOpen(db.loans[k1]) && IsOpen(db.loans[k2])
                    && IsOriginal(db.loans[k1]) && IsOriginal(db.loans[k2])
                    && db.loans[k1].bookId == db.loans[k2].bookId :: k1 == k2
  }

  ghost predicate Valid(db: MemoryDb) {
    && LoanKeysFresh(db)
    && ReferencesResolve(db)
    && OpenListsAccurate(db)
    && CopyStatusAccurate(db)
    && OneOpenLoanPerCopy(db)
    && OriginalLockAccurate(db)
    && OneOpenOriginalPerBook(db)
  }

  /** An empty store (before seeding) is consistent. */
  lemma EmptyStoreValid()
    ensures Valid(MemoryDb(map[], map[], map[], map[], {}))
  {
  }

  /**
   * Why `ReferencesResolve` keeps the key "" free of copies: an original's loan
   * carries the empty copy id, so a shelved copy stored under "" would count it
   * as an open loan, and the first original borrowed falsifies its status.
   */
  lemma EmptyCopyKeyConfusesOriginals(db: MemoryDb, bookId: string, readerId: string, today: Day)
    requires "" in db.copies && db.copies[""].status == InLibrary
    requires BorrowOriginalNewRelease(db, bookId, readerId, today).Ok?
    ensures !CopyStatusAccurate(BorrowOriginalNewRelease(db, bookId, readerId, today).value.db)
  {
  }

  // ---- Helpers about the match sets ----

  lemma NoDuplicatesSnoc(s: seq<string>, x: string)
    requires NoDuplicates(s) && x !in s
    ensures NoDuplicates(s + [x])
  {
    var t := s + [x];
    forall i, j | 0 <= i < j < |t|
      ensures t[i] != t[j]
    {
      if j < |s| {
        assert t[i] == s[i] && t[j] == s[j];
      } else {
        assert t[i] == s[i] && t[j] == x;
      }
    }
  }

  lemma NextLoanIdFresh(db: MemoryDb)
    requires LoanKeysFresh(db)
    ensures NextLoanId(db) !in db.loans
  {
    var id := NextLoanId(db);
    LoanNumberOfLoanId(|db.loans| + 1);
    forall k | k in db.loans
      ensures k != id
    {
      assert LoanNumber(k) <= |db.loans| < LoanNumber(id);
    }
  }

  lemma CopyMatchesAfterInsert(loans: map<string, Loan>, id: string, l: Loan, c: string)
    requires id !in loans
    ensures CopyLoanMatches(loans[id := l], c) ==
      CopyLoanMatches(loans, c) + (if l.copyId == c && IsOpen(l) then {id} else {})
  {
  }

  lemma OriginalsAfterInsert(loans: map<string, Loan>, id: string, l: Loan, b: string)
    requires id !in loans
    ensures OpenOriginals(loans[id := l], b) ==
      OpenOriginals(loans, b) + (if l.bookId == b && IsOriginal(l) && IsOpen(l) then {id} else {})
  {
  }

  lemma CopyMatchesAfterClose(loans: map<string, Loan>, k: string, when: Day, c: string)
    requires k in loans
    ensures CopyLoanMatches(loans[k := loans[k].(returned := Some(when))], c) == CopyLoanMatches(loans, c) - {k}
  {
  }

  lemma OriginalsAfterClose(loans: map<string, Loan>, k: string, when: Day, b: string)
    requires k in loans
    ensures OpenOriginals(loans[k := loans[k].(returned := Some(when))], b) == OpenOriginals(loans, b) - {k}
  {
  }

  // ---- Borrowing ----

  /** Under the invariant a borrow records a brand-new loan: the count grows by exactly one. */
  lemma BorrowAddsOneLoan(db: MemoryDb, db': MemoryDb, id: string)
    requires LoanKeysFresh(db)
    requires id == NextLoanId(db)
    requires db'.loans.Keys == db.loans.Keys + {id}
    ensures id !in db.loans
    ensures |db'.loans| == |db.loans| + 1
  {
    NextLoanIdFresh(db);
    assert |db'.loans.Keys| == |db.loans.Keys| + 1;
  }

  /** The parts of the invariant a new loan with fresh id `id` keeps, given how the store changed. */
  lemma NewLoanKeepsKeysFresh(db: MemoryDb, db': MemoryDb, id: string)
    requires LoanKeysFresh(db)
    requires id == NextLoanId(db)
    requires db'.loans.Keys == db.loans.Keys + {id}
    ensures LoanKeysFresh(db')
  {
    BorrowAddsOneLoan(db, db', id);
    LoanNumberOfLoanId(|db.loans| + 1);
  }

  /** Appending the fresh id `id` of `readerId`'s new open loan keeps every open-loan list accurate. */
  lemma NewLoanKeepsOpenLists(db: MemoryDb, db': MemoryDb, id: string, readerId: string, today: Day)
    requires OpenListsAccurate(db)
    requires id !in db.loans && readerId in db.readers
    requires CanBorrow(db.readers[readerId], today)
    requires db'.loans.Keys == db.loans.Keys + {id}
    requires forall k | k in db.loans && k != id :: db'.loans[k] == db.loans[k]
    requires db'.loans[id].readerId == readerId && IsOpen(db'.loans[id])
    requires SameExcept(db.readers, db'.readers, readerId)
    requires db'.readers[readerId].activeLoanIds == db.readers[readerId].activeLoanIds + [id]
    ensures OpenListsAccurate(db')
  {
    forall rid | rid in db'.readers
      ensures OpenListAccurate(db', rid)
    {
      assert OpenListAccurate(db, rid);
      var ids := db.readers[rid].activeLoanIds;
      if rid == readerId {
        assert id !in ids;
        NoDuplicatesSnoc(ids, id);
        forall k
          ensures k in ids + [id] <==> k in db'.loans && db'.loans[k].readerId == rid && IsOpen(db'.loans[k])
        {
          if k != id {
            assert k in ids + [id] <==> k in ids;
          }
        }
      } else {
        assert db'.readers[rid] == db.readers[rid];
        forall k
          ensures k in ids <==> k in db'.loans && db'.loans[k].readerId == rid && IsOpen(db'.loans[k])
        {
          if k == id {
            assert k !in ids;
          }
        }
      }
    }
  }

  lemma NewLoanKeepsReferences(db: MemoryDb, db': MemoryDb, id: string, loan: Loan)
    requires ReferencesResolve(db)
    requires db'.loans == db.loans[id := loan]
    requires LoanResolves(db', loan)
    requires db'.books == db.books && db'.copies.Keys == db.copies.Keys && db'.readers.Keys == db.readers.Keys
    requires forall c | c in db.copies :: db'.copies[c].bookId == db.copies[c].bookId
    ensures ReferencesResolve(db')
  {
    forall k | k in db'.loans
      ensures LoanResolves(db', db'.loans[k])
    {
      if k != id {
        assert LoanResolves(db, db.loans[k]);
      }
    }
  }

  /** A new open copy loan of a copy that was on the shelf, which goes out. */
  lemma NewCopyLoanKeepsCopyStatus(db: MemoryDb, db': MemoryDb, id: string, loan: Loan)
    requires CopyStatusAccurate(db) && OneOpenLoanPerCopy(db)
    requires id !in db.loans && db'.loans == db.loans[id := loan]
    requires IsOpen(loan) && !IsOriginal(loan) && loan.copyId in db.copies
    requires db.copies[loan.copyId].status == InLibrary
    requires SameExcept(db.copies, db'.copies, loan.copyId) && db'.copies[loan.copyId].status == Loaned
    ensures CopyStatusAccurate(db') && OneOpenLoanPerCopy(db')
  {
    var copyId := loan.copyId;
    forall c | c in db'.copies
      ensures Circulating(db'.copies[c].status) <==> CopyLoanMatches(db'.loans, c) != {}
    {
      CopyMatchesAfterInsert(db.loans, id, loan, c);
      if c == copyId {
        assert id in CopyLoanMatches(db'.loans, c);
      }
    }
    assert CopyLoanMatches(db.loans, copyId) == {};
    forall k1, k2 | k1 in db'.loans && k2 in db'.loans && IsOpen(db'.loans[k1]) && IsOpen(db'.loans[k2])
                    && !IsOriginal(db'.loans[k1]) && db'.loans[k1].copyId == db'.loans[k2].copyId
      ensures k1 == k2
    {
      var c := db'.loans[k1].copyId;
      if c == copyId {
        CopyMatchesAfterInsert(db.loans, id, loan, c);
        assert k1 in CopyLoanMatches(db'.loans, c) && k2 in CopyLoanMatches(db'.loans, c);
      }
    }
  }

  /** An original loan touches no copy. */
  lemma NewOriginalLoanKeepsCopyStatus(db: MemoryDb, db': MemoryDb, id: string, loan: Loan)
    requires CopyStatusAccurate(db) && OneOpenLoanPerCopy(db)
    requires id !in db.loans && db'.loans == db.loans[id := loan]
    requires IsOriginal(loan)
    requires "" !in db.copies && db'.copies == db.copies
    ensures CopyStatusAccurate(db') && OneOpenLoanPerCopy(db')
  {
    forall c | c in db'.copies
      ensures Circulating(db'.copies[c].status) <==> CopyLoanMatches(db'.loans, c) != {}
    {
      CopyMatchesAfterInsert(db.loans, id, loan, c);
    }
  }

  /** A loan that is not an original leaves the original-loan lock as it was. */
  lemma NewCopyLoanKeepsLock(db: MemoryDb, db': MemoryDb, id: string, loan: Loan)
    requires OriginalLockAccurate(db) && OneOpenOriginalPerBook(db)
    requires id !in db.loans && db'.loans == db.loans[id := loan]
    requires !IsOriginal(loan)
    requires db'.newReleaseBorrowed == db.newReleaseBorrowed
    ensures OriginalLockAccurate(db') && OneOpenOriginalPerBook(db')
  {
    forall bk
      ensures bk in db'.newReleaseBorrowed <==> OpenOriginals(db'.loans, bk) != {}
    {
      OriginalsAfterInsert(db.loans, id, loan, bk);
    }
  }

  /** A new open original of a book whose original was not out takes the lock. */
  lemma NewOriginalLoanTakesLock(db: MemoryDb, db': MemoryDb, id: string, loan: Loan)
    requires OriginalLockAccurate(db) && OneOpenOriginalPerBook(db)
    requires id !in db.loans && db'.loans == db.loans[id := loan]
    requires IsOriginal(loan) && IsOpen(loan)
    requires loan.bookId !in db.newReleaseBorrowed
    requires db'.newReleaseBorrowed == db.newReleaseBorrowed + {loan.bookId}
    ensures OriginalLockAccurate(db') && OneOpenOriginalPerBook(db')
  {
    var bookId := loan.bookId;
    forall bk
      ensures bk in db'.newReleaseBorrowed <==> OpenOriginals(db'.loans, bk) != {}
    {
      OriginalsAfterInsert(db.loans, id, loan, bk);
      if bk == bookId {
        assert id in OpenOriginals(db'.loans, bk);
      }
    }
    assert OpenOriginals(db.loans, bookId) == {};
    forall k1, k2 | k1 in db'.loans && k2 in db'.loans && IsOpen(db'.loans[k1]) && IsOpen(db'.loans[k2])
                    && IsOriginal(db'.loans[k1]) && IsOriginal(db'.loans[k2])
                    && db'.loans[k1].bookId == db'.loans[k2].bookId
      ensures k1 == k2
    {
      var bk := db'.loans[k1].bookId;
      if bk == bookId {
        OriginalsAfterInsert(db.loans, id, loan, bk);
        assert k1 in OpenOriginals(db'.loans, bk) && k2 in OpenOriginals(db'.loans, bk);
      }
    }
  }

  lemma BorrowCopyPreservesValid(db: MemoryDb, copyId: string, readerId: string, today: Day)
    requires Valid(db)
    requires BorrowCopy(db, copyId, readerId, today).Ok?
    ensures Valid(BorrowCopy(db, copyId, readerId, today).value.db)
  {
    var b := BorrowCopy(db, copyId, readerId, today).value;
    var id, db' := b.loanId, b.db;
    var loan := db'.loans[id];
    NextLoanIdFresh(db);
    assert db'.loans == db.loans[id := loan];
    NewLoanKeepsKeysFresh(db, db', id);
    NewLoanKeepsOpenLists(db, db', id, readerId, today);
    NewLoanKeepsReferences(db, db', id, loan);
    NewCopyLoanKeepsCopyStatus(db, db', id, loan);
    NewCopyLoanKeepsLock(db, db', id, loan);
  }

  lemma BorrowOriginalPreservesValid(db: MemoryDb, bookId: string, readerId: string, today: Day)
    requires Valid(db)
    requires BorrowOriginalNewRelease(db, bookId, readerId, today).Ok?
    ensures Valid(BorrowOriginalNewRelease(db, bookId, readerId, today).value.db)
  {
    var b := BorrowOriginalNewRelease(db, bookId, readerId, today).value;
    var id, db' := b.loanId, b.db;
    var loan := db'.loans[id];
    NextLoanIdFresh(db);
    assert db'.loans == db.loans[id := loan];
    NewLoanKeepsKeysFresh(db, db', id);
    NewLoanKeepsOpenLists(db, db', id, readerId, today);
    NewLoanKeepsReferences(db, db', id, loan);
    NewOriginalLoanKeepsCopyStatus(db, db', id, loan);
    NewOriginalLoanTakesLock(db, db', id, loan);
  }

  // ---- Returning ----

  /** The facts about closing loan `k` that hold once its reader is known to exist. */
  lemma ClosedLoansMap(db: MemoryDb, db': MemoryDb, k: string, when: Day)
    requires k in db.loans && db.loans[k].readerId in db.readers
    requires Closed(db, db', k, when)
    ensures db'.loans == db.loans[k := db.loans[k].(returned := Some(when))]
    ensures db'.readers.Keys == db.readers.Keys
    ensures |db'.loans| == |db.loans|
  {
    assert |db'.loans.Keys| == |db.loans.Keys|;
  }

  lemma CloseKeepsKeysFresh(db: MemoryDb, db': MemoryDb)
    requires LoanKeysFresh(db)
    requires db'.loans.Keys == db.loans.Keys && |db'.loans| == |db.loans|
    ensures LoanKeysFresh(db')
  {
  }

  lemma CloseKeepsReferences(db: MemoryDb, db': MemoryDb, k: string, when: Day)
    requires ReferencesResolve(db)
    requires k in db.loans && db'.loans == db.loans[k := db.loans[k].(returned := Some(when))]
    requires db'.books == db.books && db'.copies.Keys == db.copies.Keys && db'.readers.Keys == db.readers.Keys
    requires forall c | c in db.copies :: db'.copies[c].bookId == db.copies[c].bookId
    ensures ReferencesResolve(db')
  {
    forall j | j in db'.loans
      ensures LoanResolves(db', db'.loans[j])
    {
      assert LoanResolves(db, db.loans[j]);
    }
  }

  /** Closing open loan `k` drops exactly `k` from its reader's list and leaves the other lists alone. */
  lemma CloseKeepsOpenLists(db: MemoryDb, db': MemoryDb, k: string, when: Day)
    requires OpenListsAccurate(db)
    requires k in db.loans && IsOpen(db.loans[k]) && db.loans[k].readerId in db.readers
    requires Closed(db, db', k, when)
    ensures OpenListsAccurate(db')
  {
    ClosedLoansMap(db, db', k, when);
    var owner := db.loans[k].readerId;
    forall rid | rid in db'.readers
      ensures OpenListAccurate(db', rid)
    {
      assert OpenListAccurate(db, rid);
      var ids := db.readers[rid].activeLoanIds;
      if rid == owner {
        var ids' := WithoutId(ids, k);
        assert db'.readers[rid].activeLoanIds == ids';
        forall j
          ensures j in ids' <==> j in db'.loans && db'.loans[j].readerId == rid && IsOpen(db'.loans[j])
        {
        }
      } else {
        assert db'.readers[rid] == db.readers[rid];
        assert k !in ids;
      }
    }
  }

  /** Closing the open loan of a copy that goes back on the shelf. */
  lemma CloseCopyLoanShelvesCopy(db: MemoryDb, db': MemoryDb, k: string, when: Day)
    requires CopyStatusAccurate(db) && OneOpenLoanPerCopy(db)
    requires k in db.loans && IsOpen(db.loans[k]) && !IsOriginal(db.loans[k])
    requires db'.loans == db.loans[k := db.loans[k].(returned := Some(when))]
    requires SameExcept(db.copies, db'.copies, db.loans[k].copyId)
    requires db.loans[k].copyId in db'.copies ==> db'.copies[db.loans[k].copyId].status == InLibrary
    ensures CopyStatusAccurate(db') && OneOpenLoanPerCopy(db')
  {
    var copyId := db.loans[k].copyId;
    forall c | c in db'.copies
      ensures Circulating(db'.copies[c].status) <==> CopyLoanMatches(db'.loans, c) != {}
    {
      CopyMatchesAfterClose(db.loans, k, when, c);
      if c == copyId {
        forall j | j in CopyLoanMatches(db.loans, c)
          ensures j == k
        {
        }
        assert CopyLoanMatches(db'.loans, c) == {};
      } else {
        assert k !in CopyLoanMatches(db.loans, c);
      }
    }
  }

  /** Closing a loan that is not an original leaves the original-loan lock as it was. */
  lemma CloseCopyLoanKeepsLock(db: MemoryDb, db': MemoryDb, k: string, when: Day)
    requires OriginalLockAccurate(db) && OneOpenOriginalPerBook(db)
    requires k in db.loans && !IsOriginal(db.loans[k])
    requires db'.loans == db.loans[k := db.loans[k].(returned := Some(when))]
    requires db'.newReleaseBorrowed == db.newReleaseBorrowed
    ensures OriginalLockAccurate(db') && OneOpenOriginalPerBook(db')
  {
    forall bk
      ensures bk in db'.newReleaseBorrowed <==> OpenOriginals(db'.loans, bk) != {}
    {
      OriginalsAfterClose(db.loans, k, when, bk);
      assert k !in OpenOriginals(db.loans, bk);
    }
  }

  /** Closing an original releases its book's lock and no other. */
  lemma CloseOriginalReleasesLock(db: MemoryDb, db': MemoryDb, k: string, when: Day)
    requires OriginalLockAccurate(db) && OneOpenOriginalPerBook(db)
    requires k in db.loans && IsOpen(db.loans[k]) && IsOriginal(db.loans[k])
    requires db'.loans == db.loans[k := db.loans[k].(returned := Some(when))]
    requires db'.newReleaseBorrowed == db.newReleaseBorrowed - {db.loans[k].bookId}
    ensures OriginalLockAccurate(db') && OneOpenOriginalPerBook(db')
  {
    var bookId := db.loans[k].bookId;
    forall bk
      ensures bk in db'.newReleaseBorrowed <==> OpenOriginals(db'.loans, bk) != {}
    {
      OriginalsAfterClose(db.loans, k, when, bk);
      if bk == bookId {
        forall j | j in OpenOriginals(db.loans, bk)
          ensures j == k
        {
        }
        assert OpenOriginals(db'.loans, bk) == {};
      } else {
        assert k !in OpenOriginals(db.loans, bk);
      }
    }
  }

  /** Closing an original touches no copy. */
  lemma CloseOriginalKeepsCopyStatus(db: MemoryDb, db': MemoryDb, k: string, when: Day)
    requires CopyStatusAccurate(db) && OneOpenLoanPerCopy(db)
    requires k in db.loans && IsOriginal(db.loans[k])
    requires db'.loans == db.loans[k := db.loans[k].(returned := Some(when))]
    requires "" !in db.copies && db'.copies == db.copies
    ensures CopyStatusAccurate(db') && OneOpenLoanPerCopy(db')
  {
    forall c | c in db'.copies
      ensures Circulating(db'.copies[c].status) <==> CopyLoanMatches(db'.loans, c) != {}
    {
      CopyMatchesAfterClose(db.loans, k, when, c);
      assert k !in CopyLoanMatches(db.loans, c);
    }
  }

  lemma ReturnCopyPreservesValid(db: MemoryDb, alert: BioAlert, copyId: string, when: Day)
    requires Valid(db)
    requires CopyReturnAnnounceable(db, alert, copyId)
    requires ReturnCopy(db, alert, copyId, when).Ok?
    ensures Valid(ReturnCopy(db, alert, copyId, when).value.db)
  {
    var db' := ReturnCopy(db, alert, copyId, when).value.db;
    var k := CopyLoanSearch(db, copyId).value;
    assert LoanResolves(db, db.loans[k]);
    ClosedLoansMap(db, db', k, when);
    CloseKeepsKeysFresh(db, db');
    CloseKeepsReferences(db, db', k, when);
    CloseKeepsOpenLists(db, db', k, when);
    CloseCopyLoanShelvesCopy(db, db', k, when);
    CloseCopyLoanKeepsLock(db, db', k, when);
  }

  lemma ReturnOriginalPreservesValid(db: MemoryDb, alert: BioAlert, bookId: string, readerId: string, when: Day)
    requires Valid(db)
    requires OriginalReturnAnnounceable(db, alert, bookId, readerId)
    requires ReturnOriginalNewRelease(db, alert, bookId, readerId, when).Ok?
    ensures Valid(ReturnOriginalNewRelease(db, alert, bookId, readerId, when).value.db)
  {
    var db' := ReturnOriginalNewRelease(db, alert, bookId, readerId, when).value.db;
    var k := OriginalLoanSearch(db, bookId, readerId).value;
    ClosedLoansMap(db, db', k, when);
    CloseKeepsKeysFresh(db, db');
    CloseKeepsReferences(db, db', k, when);
    CloseKeepsOpenLists(db, db', k, when);
    CloseOriginalKeepsCopyStatus(db, db', k, when);
    CloseOriginalReleasesLock(db, db', k, when);
  }
}
