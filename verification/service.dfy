/**
 * LibraryService: the four circulation operations. Each one runs its checks in
 * a fixed order, each check with its own error kind, before it writes
 * anything; a rejected call returns only the error, so the caller's store is
 * untouched. Returns also report the notices BioAlert sends.
 */
module Service {
  import opened Wrappers
  import opened Domain
  import opened LoanIds
  import opened KeyOrder
  import opened Alerts

  datatype Borrowed = Borrowed(loanId: string, db: MemoryDb)
  datatype Returned = Returned(db: MemoryDb, notices: set<Notice>)

  /** `m'` has the keys of `m` and agrees with it everywhere except possibly at `k`. */
  predicate SameExcept<V(==)>(m: map<string, V>, m': map<string, V>, k: string) {
    m'.Keys == m.Keys && forall j | j in m && j != k :: m'[j] == m[j]
  }

  /** The id the next loan receives: "L" and one more than the number of loans on record. */
  function NextLoanId(db: MemoryDb): string {
    LoanId(|db.loans| + 1)
  }

  /** The next id has the key shape, and its number is one more than the loans on record. */
  lemma NextLoanIdNumber(db: MemoryDb)
    ensures IsLoanKey(NextLoanId(db)) && LoanNumber(NextLoanId(db)) == |db.loans| + 1
  {
    LoanNumberOfLoanId(|db.loans| + 1);
  }

  /** The reader → address resolver the service hands to BioAlert. */
  function EmailDirectory(db: MemoryDb): map<string, string> {
    map rid | rid in db.readers :: db.readers[rid].email
  }

  /** The book → title resolver the service hands to BioAlert. */
  function TitleCatalog(db: MemoryDb): map<string, string> {
    map b | b in db.books :: db.books[b].title
  }

  /** BioAlert can resolve the title and subscriber addresses for `bookId` from the store. */
  predicate Announceable(db: MemoryDb, alert: BioAlert, bookId: string) {
    Resolvable(alert, bookId, EmailDirectory(db), TitleCatalog(db))
  }

  /** `db.readers[rid]` as `operator[]` reads it: a blank reader when the key is absent. */
  function ReaderOrBlank(readers: map<string, Reader>, rid: string): (r: Reader)
    ensures rid in readers ==> r == readers[rid]
    ensures rid !in readers ==> r.email == "" && r.activeBanUntil.None? && r.activeLoanIds == []
  {
    if rid in readers then readers[rid] else BlankReader()
  }

  /** Keys of the open loans of copy `copyId`. */
  function CopyLoanMatches(loans: map<string, Loan>, copyId: string): set<string> {
    set k | k in loans && loans[k].copyId == copyId && IsOpen(loans[k])
  }

  /** Keys of the open original loans of `bookId` held by `readerId`. */
  function OriginalLoanMatches(loans: map<string, Loan>, bookId: string, readerId: string): set<string> {
    set k | k in loans && loans[k].bookId == bookId && loans[k].readerId == readerId
                       && IsOpen(loans[k]) && IsOriginal(loans[k])
  }

  /** The search succeeded: some key was found and it is not the empty string the code treats as "none". */
  predicate Found(o: Option<string>) {
    o.Some? && o.value != ""
  }

  /** Closes loan `k` on day `when` for its reader: return date, ban rule, open-loan list. */
  function CloseLoan(db: MemoryDb, k: string, when: Day): (db': MemoryDb)
    requires k in db.loans
    ensures Closed(db, db', k, when)
    ensures db'.copies == db.copies && db'.newReleaseBorrowed == db.newReleaseBorrowed
  {
    var loan := db.loans[k];
    var reader := ReaderOrBlank(db.readers, loan.readerId);
    var ban := LateReturnBan(loan, when);
    var banned := if ban.Some? then reader.(activeBanUntil := ban) else reader;
    db.(loans := db.loans[k := loan.(returned := Some(when))],
        readers := db.readers[loan.readerId := banned.(activeLoanIds := WithoutId(banned.activeLoanIds, k))])
  }

  function BorrowCopy(db: MemoryDb, copyId: string, readerId: string, today: Day): (r: Result<Borrowed, Error>)
    ensures r.Err? ==> r.error in {CopyNotFound, ReaderNotFound, BorrowForbidden, CopyNotAvailable}
    ensures r.Ok? ==> copyId in db.copies && readerId in db.readers && CanBorrow(db.readers[readerId], today)
    ensures r.Ok? ==>
      var id, db' := r.value.loanId, r.value.db;
      && id == NextLoanId(db)
      && db'.loans.Keys == db.loans.Keys + {id}
      && (forall k | k in db.loans && k != id :: db'.loans[k] == db.loans[k])
      && db'.loans[id].copyId == copyId && db'.loans[id].readerId == readerId
      && db'.loans[id].bookId == db.copies[copyId].bookId
      && db'.loans[id].start == today && db'.loans[id].due == today + 30
      && IsOpen(db'.loans[id])
      && SameExcept(db.copies, db'.copies, copyId)
      && db.copies[copyId].status == InLibrary
      && db'.copies[copyId] == db.copies[copyId].(status := Loaned)
      && SameExcept(db.readers, db'.readers, readerId)
      && db'.readers[readerId] == db.readers[readerId].(activeLoanIds := db.readers[readerId].activeLoanIds + [id])
      && db'.books == db.books && db'.newReleaseBorrowed == db.newReleaseBorrowed
  {
    if copyId !in db.copies then Err(CopyNotFound)
    else if readerId !in db.readers then Err(ReaderNotFound)
    else
      var copy := db.copies[copyId];
      var reader := db.readers[readerId];
      if !CanBorrow(reader, today) then Err(BorrowForbidden)
      else if copy.status != InLibrary then Err(CopyNotAvailable)
      else
        var id := NextLoanId(db);
        var loan := Loan(copyId, copy.bookId, readerId, today, AddDays(today, LoanPeriodDays), None);
        Ok(Borrowed(id, db.(loans := db.loans[id := loan],
                           copies := db.copies[copyId := copy.(status := Loaned)],
                           readers := db.readers[readerId := reader.(activeLoanIds := reader.activeLoanIds + [id])])))
  }

  function BorrowOriginalNewRelease(db: MemoryDb, bookId: string, readerId: string, today: Day): (r: Result<Borrowed, Error>)
    ensures r.Err? ==>
      r.error in {BookNotFound, ReaderNotFound, NotNewRelease, BorrowForbidden, OriginalAlreadyBorrowed}
    ensures r.Ok? ==>
      bookId in db.books && readerId in db.readers && db.books[bookId].isNewRelease
      && CanBorrow(db.readers[readerId], today)
    ensures r.Ok? ==>
      var id, db' := r.value.loanId, r.value.db;
      && id == NextLoanId(db)
      && db'.loans.Keys == db.loans.Keys + {id}
      && (forall k | k in db.loans && k != id :: db'.loans[k] == db.loans[k])
      && IsOriginal(db'.loans[id]) && db'.loans[id].bookId == bookId && db'.loans[id].readerId == readerId
      && db'.loans[id].start == today && db'.loans[id].due == today + 30
      && IsOpen(db'.loans[id])
      && bookId !in db.newReleaseBorrowed
      && db'.newReleaseBorrowed == db.newReleaseBorrowed + {bookId}
      && SameExcept(db.readers, db'.readers, readerId)
      && db'.readers[readerId] == db.readers[readerId].(activeLoanIds := db.readers[readerId].activeLoanIds + [id])
      && db'.books == db.books && db'.copies == db.copies
  {
    if bookId !in db.books then Err(BookNotFound)
    else if readerId !in db.readers then Err(ReaderNotFound)
    else
      var book := db.books[bookId];
      var reader := db.readers[readerId];
      if !book.isNewRelease then Err(NotNewRelease)
      else if !CanBorrow(reader, today) then Err(BorrowForbidden)
      else if bookId in db.newReleaseBorrowed then Err(OriginalAlreadyBorrowed)
      else
        var id := NextLoanId(db);
        var loan := Loan("", bookId, readerId, today, AddDays(today, LoanPeriodDays), None);
        Ok(Borrowed(id, db.(loans := db.loans[id := loan],
                           newReleaseBorrowed := db.newReleaseBorrowed + {bookId},
                           readers := db.readers[readerId := reader.(activeLoanIds := reader.activeLoanIds + [id])])))
  }

  /** The loan `returnCopy` settles: the first open loan of the copy in key order. */
  function CopyLoanSearch(db: MemoryDb, copyId: string): (r: Option<string>)
    ensures r.None? <==> CopyLoanMatches(db.loans, copyId) == {}
    ensures r.Some? ==> r.value in db.loans && db.loans[r.value].copyId == copyId && IsOpen(db.loans[r.value])
    ensures r.Some? ==>
      forall k | k in db.loans && db.loans[k].copyId == copyId && IsOpen(db.loans[k]) :: Below(r.value, k)
  {
    FirstKey(CopyLoanMatches(db.loans, copyId))
  }

  /** The loan `returnOriginalNewRelease` settles. */
  function OriginalLoanSearch(db: MemoryDb, bookId: string, readerId: string): (r: Option<string>)
    ensures r.None? <==> OriginalLoanMatches(db.loans, bookId, readerId) == {}
    ensures r.Some? ==> r.value in db.loans
    ensures r.Some? ==>
      var l := db.loans[r.value];
      IsOriginal(l) && IsOpen(l) && l.bookId == bookId && l.readerId == readerId
    ensures r.Some? ==> forall k | k in OriginalLoanMatches(db.loans, bookId, readerId) :: Below(r.value, k)
  {
    FirstKey(OriginalLoanMatches(db.loans, bookId, readerId))
  }

  /**
   * The addresses `notifyAvailable` reads once loan `k` is closed: `db.readers[rid]`
   * has by then added the loan's reader, blank, if it was not on file.
   */
  function EmailsAfterClose(db: MemoryDb, rid: string): map<string, string> {
    EmailDirectory(db)[rid := ReaderOrBlank(db.readers, rid).email]
  }

  /**
   * If `returnCopy` passes its checks, BioAlert can resolve the title of the
   * settled loan's book and its subscribers' addresses in the updated store.
   * The checks themselves do no lookup, so a failing return needs nothing.
   */
  predicate CopyReturnAnnounceable(db: MemoryDb, alert: BioAlert, copyId: string) {
    var found := CopyLoanSearch(db, copyId);
    copyId in db.copies && Circulating(db.copies[copyId].status) && Found(found) && found.value in db.loans ==>
      var loan := db.loans[found.value];
      Resolvable(alert, loan.bookId, EmailsAfterClose(db, loan.readerId), TitleCatalog(db))
  }

  /**
   * If `returnOriginalNewRelease` passes its checks, BioAlert can resolve the
   * book's title and its subscribers' addresses. The reader is on file by
   * then, so the updated store has the same addresses.
   */
  predicate OriginalReturnAnnounceable(db: MemoryDb, alert: BioAlert, bookId: string, readerId: string) {
    (bookId in db.books && readerId in db.readers && bookId in db.newReleaseBorrowed
     && Found(OriginalLoanSearch(db, bookId, readerId)))
    ==> Announceable(db, alert, bookId)
  }

  /**
   * What closing loan `k` on day `when` does to the store: the loan gets its
   * return date, its reader (created blank if missing) loses `k` from the
   * open list and, if the return is late, is banned until `when` plus twice
   * the delay; the other loans and readers stay as they were.
   */
  ghost predicate Closed(db: MemoryDb, db': MemoryDb, k: string, when: Day)
    requires k in db.loans
  {
    var loan := db.loans[k];
    var rid := loan.readerId;
    var before := ReaderOrBlank(db.readers, rid);
    && SameExcept(db.loans, db'.loans, k)
    && db'.loans[k] == loan.(returned := Some(when))
    && db'.readers.Keys == db.readers.Keys + {rid}
    && (forall j | j in db.readers && j != rid :: db'.readers[j] == db.readers[j])
    && db'.readers[rid].activeLoanIds == WithoutId(before.activeLoanIds, k)
    && db'.readers[rid].activeBanUntil ==
         (if when > loan.due then Some(when + 2 * (when - loan.due)) else before.activeBanUntil)
    && db'.readers[rid].id == before.id && db'.readers[rid].email == before.email
    && db'.books == db.books
  }

  /** Closing a loan keeps every title and address, and adds the loan's reader's, blank if it was missing. */
  lemma ClosedDirectories(db: MemoryDb, db': MemoryDb, k: string, when: Day)
    requires k in db.loans && Closed(db, db', k, when)
    ensures EmailDirectory(db') == EmailsAfterClose(db, db.loans[k].readerId)
    ensures TitleCatalog(db') == TitleCatalog(db)
  {
  }

  function ReturnCopy(db: MemoryDb, alert: BioAlert, copyId: string, when: Day): (r: Result<Returned, Error>)
    requires CopyReturnAnnounceable(db, alert, copyId)
    ensures r.Err? ==> r.error in {CopyNotFound, CopyNotLoaned, LoanNotFound}
    ensures r.Ok? ==>
      copyId in db.copies && Circulating(db.copies[copyId].status) && Found(CopyLoanSearch(db, copyId))
    ensures r.Ok? ==>
      var k, db' := CopyLoanSearch(db, copyId).value, r.value.db;
      && k in db.loans && db.loans[k].copyId == copyId && IsOpen(db.loans[k])
      && Closed(db, db', k, when)
      && SameExcept(db.copies, db'.copies, copyId)
      && db'.copies[copyId] == db.copies[copyId].(status := InLibrary)
      && db'.newReleaseBorrowed == db.newReleaseBorrowed
      && r.value.notices == NotifyAvailable(alert, db.loans[k].bookId, EmailDirectory(db'), TitleCatalog(db'))
  {
    if copyId !in db.copies then Err(CopyNotFound)
    else
      var copy := db.copies[copyId];
      if !Circulating(copy.status) then Err(CopyNotLoaned)
      else
        var found := CopyLoanSearch(db, copyId);
        if !Found(found) then Err(LoanNotFound)
        else
          var k := found.value;
          var closed := CloseLoan(db, k, when);
          var db' := closed.(copies := closed.copies[copyId := copy.(status := InLibrary)]);
          var bookId := db.loans[k].bookId;
          ClosedDirectories(db, closed, k, when);
          Ok(Returned(db', NotifyAvailable(alert, bookId, EmailDirectory(db'), TitleCatalog(db'))))
  }

  function ReturnOriginalNewRelease(db: MemoryDb, alert: BioAlert, bookId: string, readerId: string, when: Day)
    : (r: Result<Returned, Error>)
    requires OriginalReturnAnnounceable(db, alert, bookId, readerId)
    ensures r.Err? ==> r.error in {BookNotFound, ReaderNotFound, OriginalNotBorrowed, LoanNotFound}
    ensures r.Ok? ==>
      bookId in db.books && readerId in db.readers && bookId in db.newReleaseBorrowed
      && Found(OriginalLoanSearch(db, bookId, readerId))
    ensures r.Ok? ==>
      var k, db' := OriginalLoanSearch(db, bookId, readerId).value, r.value.db;
      && k in db.loans && IsOriginal(db.loans[k]) && IsOpen(db.loans[k])
      && db.loans[k].bookId == bookId && db.loans[k].readerId == readerId
      && Closed(db, db', k, when)
      && db'.copies == db.copies
      && bookId in db.newReleaseBorrowed
      && db'.newReleaseBorrowed == db.newReleaseBorrowed - {bookId}
      && r.value.notices == NotifyAvailable(alert, bookId, EmailDirectory(db'), TitleCatalog(db'))
  {
    if bookId !in db.books then Err(BookNotFound)
    else if readerId !in db.readers then Err(ReaderNotFound)
    else if bookId !in db.newReleaseBorrowed then Err(OriginalNotBorrowed)
    else
      var found := OriginalLoanSearch(db, bookId, readerId);
      if !Found(found) then Err(LoanNotFound)
      else
        var k := found.value;
        var closed := CloseLoan(db, k, when);
        var db' := closed.(newReleaseBorrowed := closed.newReleaseBorrowed - {bookId});
        assert EmailDirectory(db').Keys == EmailDirectory(db).Keys;
        Ok(Returned(db', NotifyAvailable(alert, bookId, EmailDirectory(db'), TitleCatalog(db'))))
  }

  /** The checks of `borrowCopy` in order: each error is raised exactly when its check is the first to fail. */
  lemma BorrowCopyChecks(db: MemoryDb, copyId: string, readerId: string, today: Day)
    ensures var r := BorrowCopy(db, copyId, readerId, today);
      && (r == Err(CopyNotFound) <==> copyId !in db.copies)
      && (r == Err(ReaderNotFound) <==> copyId in db.copies && readerId !in db.readers)
      && (r == Err(BorrowForbidden) <==>
            copyId in db.copies && readerId in db.readers && !CanBorrow(db.readers[readerId], today))
      && (r == Err(CopyNotAvailable) <==>
            copyId in db.copies && readerId in db.readers && CanBorrow(db.readers[readerId], today)
            && db.copies[copyId].status != InLibrary)
  {
  }

  /** The checks of `borrowOriginalNewRelease` in order. */
  lemma BorrowOriginalChecks(db: MemoryDb, bookId: string, readerId: string, today: Day)
    ensures var r := BorrowOriginalNewRelease(db, bookId, readerId, today);
      && (r == Err(BookNotFound) <==> bookId !in db.books)
      && (r == Err(ReaderNotFound) <==> bookId in db.books && readerId !in db.readers)
      && (r == Err(NotNewRelease) <==>
            bookId in db.books && readerId in db.readers && !db.books[bookId].isNewRelease)
      && (r == Err(BorrowForbidden) <==>
            bookId in db.books && readerId in db.readers && db.books[bookId].isNewRelease
            && !CanBorrow(db.readers[readerId], today))
      && (r == Err(OriginalAlreadyBorrowed) <==>
            bookId in db.books && readerId in db.readers && db.books[bookId].isNewRelease
            && CanBorrow(db.readers[readerId], today) && bookId in db.newReleaseBorrowed)
  {
  }

  /** The checks of `returnCopy` in order. */
  lemma ReturnCopyChecks(db: MemoryDb, alert: BioAlert, copyId: string, when: Day)
    requires CopyReturnAnnounceable(db, alert, copyId)
    ensures var r := ReturnCopy(db, alert, copyId, when);
      && (r == Err(CopyNotFound) <==> copyId !in db.copies)
      && (r == Err(CopyNotLoaned) <==> copyId in db.copies && !Circulating(db.copies[copyId].status))
      && (r == Err(LoanNotFound) <==>
            copyId in db.copies && Circulating(db.copies[copyId].status) && !Found(CopyLoanSearch(db, copyId)))
  {
  }

  /** The checks of `returnOriginalNewRelease` in order. */
  lemma ReturnOriginalChecks(db: MemoryDb, alert: BioAlert, bookId: string, readerId: string, when: Day)
    requires OriginalReturnAnnounceable(db, alert, bookId, readerId)
    ensures var r := ReturnOriginalNewRelease(db, alert, bookId, readerId, when);
      && (r == Err(BookNotFound) <==> bookId !in db.books)
      && (r == Err(ReaderNotFound) <==> bookId in db.books && readerId !in db.readers)
      && (r == Err(OriginalNotBorrowed) <==>
            bookId in db.books && readerId in db.readers && bookId !in db.newReleaseBorrowed)
      && (r == Err(LoanNotFound) <==>
            bookId in db.books && readerId in db.readers && bookId in db.newReleaseBorrowed
            && !Found(OriginalLoanSearch(db, bookId, readerId)))
  {
  }

  /** A copy return that fails a check looks nothing up: it may be asked whatever the subscriptions. */
  lemma FailingCopyReturnNeedsNoLookup(db: MemoryDb, alert: BioAlert, copyId: string, when: Day)
    requires copyId !in db.copies || !Circulating(db.copies[copyId].status) || !Found(CopyLoanSearch(db, copyId))
    ensures CopyReturnAnnounceable(db, alert, copyId)
    ensures ReturnCopy(db, alert, copyId, when).Err?
  {
  }

  /** An original return that fails a check looks nothing up either. */
  lemma FailingOriginalReturnNeedsNoLookup(db: MemoryDb, alert: BioAlert, bookId: string, readerId: string, when: Day)
    requires bookId !in db.books || readerId !in db.readers || bookId !in db.newReleaseBorrowed
             || !Found(OriginalLoanSearch(db, bookId, readerId))
    ensures OriginalReturnAnnounceable(db, alert, bookId, readerId)
    ensures ReturnOriginalNewRelease(db, alert, bookId, readerId, when).Err?
  {
  }
}
