/**
 * The Python port of the desk, modelled on its own terms and checked against
 * the C++ model. The port keeps the same tables, but its loan dictionary
 * remembers insertion order, so "the first matching loan" is the earliest
 * recorded one rather than the least key; a dictionary lookup of a missing
 * reader raises `KeyError` instead of creating a blank reader; and the
 * notification resolves the title whenever a gateway is installed.
 */
module PyPort {
  import opened Wrappers
  import opened Domain
  import opened LoanIds
  import opened KeyOrder
  import opened Alerts
  import Service
  import opened Invariants

  /** The store together with the insertion order of its loan dictionary. */
  datatype PyDb = PyDb(db: MemoryDb, loanOrder: seq<string>)

  datatype PyBorrowed = PyBorrowed(loanId: string, store: PyDb)
  datatype PyReturned = PyReturned(store: PyDb, notices: set<Notice>)

  /** `loanOrder` lists every loan key once, in the order the dictionary iterates them. */
  predicate OrderTracksLoans(p: PyDb) {
    NoDuplicates(p.loanOrder) && (set k | k in p.loanOrder) == p.db.loans.Keys
  }

  /** `late_days`. */
  function LateDays(l: Loan): (n: int)
    ensures n == Domain.LateDays(l)
  {
    if l.returned.None? then 0
    else if l.returned.value > l.due then l.returned.value - l.due
    else 0
  }

  /** `can_borrow`. */
  predicate CanBorrow(r: Reader, today: Day) {
    var banned := r.activeBanUntil.Some? && today <= r.activeBanUntil.value;
    !banned && |r.activeLoanIds| < 3
  }

  /** `loans[id] = loan`: an existing key keeps its place, a new one goes last. */
  function Record(p: PyDb, id: string, loan: Loan): (p': PyDb)
    requires OrderTracksLoans(p)
    ensures OrderTracksLoans(p')
    ensures p'.db == p.db.(loans := p.db.loans[id := loan])
    ensures id !in p.db.loans ==> p'.loanOrder == p.loanOrder + [id]
    ensures id in p.db.loans ==> p'.loanOrder == p.loanOrder
  {
    if id in p.db.loans then PyDb(p.db.(loans := p.db.loans[id := loan]), p.loanOrder)
    else
      Invariants.NoDuplicatesSnoc(p.loanOrder, id);
      PyDb(p.db.(loans := p.db.loans[id := loan]), p.loanOrder + [id])
  }

  /** The first key of `order` that belongs to `m`: the loop `for k, L in loans.items(): ... break`. */
  function FirstInOrder(order: seq<string>, m: set<string>): (r: Option<string>)
    ensures r.None? <==> forall i | 0 <= i < |order| :: order[i] !in m
    ensures r.Some? ==> r.value in m && r.value in order
    ensures r.Some? ==> exists i | 0 <= i < |order| :: order[i] == r.value && forall j | 0 <= j < i :: order[j] !in m
  {
    if |order| == 0 then None
    else if order[0] in m then Some(order[0])
    else FirstInOrder(order[1..], m)
  }

  /** What `notify_available` needs: with a gateway, the title and every subscriber's address resolve. */
  predicate Resolvable(a: BioAlert, bookId: string, emailOf: map<string, string>, titleOf: map<string, string>) {
    a.gatewayInstalled ==> bookId in titleOf && Subscribers(a, bookId) <= emailOf.Keys
  }

  /** `notify_available`: returns early only without a gateway. */
  function NotifyAvailable(a: BioAlert, bookId: string,
                           emailOf: map<string, string>, titleOf: map<string, string>): (sent: set<Notice>)
    requires Resolvable(a, bookId, emailOf, titleOf)
    ensures !a.gatewayInstalled ==> sent == {}
    ensures forall n | n in sent :: n.reader in Subscribers(a, bookId)
  {
    if !a.gatewayInstalled then {}
    else
      var ids := Subscribers(a, bookId);
      var title := titleOf[bookId];
      set rid | rid in ids :: NoticeFor(rid, emailOf[rid], title)
  }

  predicate Announceable(db: MemoryDb, a: BioAlert, bookId: string) {
    Resolvable(a, bookId, Service.EmailDirectory(db), Service.TitleCatalog(db))
  }

  function BorrowCopy(p: PyDb, copyId: string, readerId: string, today: Day): (r: Result<PyBorrowed, Error>)
    requires OrderTracksLoans(p)
    ensures r.Ok? ==> OrderTracksLoans(r.value.store)
    ensures r.Ok? && r.value.loanId !in p.db.loans ==> r.value.store.loanOrder == p.loanOrder + [r.value.loanId]
  {
    if copyId !in p.db.copies then Err(CopyNotFound)
    else if readerId !in p.db.readers then Err(ReaderNotFound)
    else
      var c := p.db.copies[copyId];
      var r := p.db.readers[readerId];
      if !CanBorrow(r, today) then Err(BorrowForbidden)
      else if c.status != InLibrary then Err(CopyNotAvailable)
      else
        var loan := Loan(copyId, c.bookId, readerId, today, today + 30, None);
        var loanId := LoanId(|p.db.loans| + 1);
        var p1 := Record(p, loanId, loan);
        var db := p1.db.(copies := p1.db.copies[copyId := c.(status := Loaned)],
                         readers := p1.db.readers[readerId := r.(activeLoanIds := r.activeLoanIds + [loanId])]);
        Ok(PyBorrowed(loanId, PyDb(db, p1.loanOrder)))
  }

  function BorrowOriginalNewRelease(p: PyDb, bookId: string, readerId: string, today: Day): (r: Result<PyBorrowed, Error>)
    requires OrderTracksLoans(p)
    ensures r.Ok? ==> OrderTracksLoans(r.value.store)
    ensures r.Ok? ==> bookId !in p.db.newReleaseBorrowed && r.value.store.db.newReleaseBorrowed == p.db.newReleaseBorrowed + {bookId}
  {
    if bookId !in p.db.books then Err(BookNotFound)
    else if readerId !in p.db.readers then Err(ReaderNotFound)
    else
      var b := p.db.books[bookId];
      var r := p.db.readers[readerId];
      if !b.isNewRelease then Err(NotNewRelease)
      else if !CanBorrow(r, today) then Err(BorrowForbidden)
      else if bookId in p.db.newReleaseBorrowed then Err(OriginalAlreadyBorrowed)
      else
        var loan := Loan("", bookId, readerId, today, today + 30, None);
        var loanId := LoanId(|p.db.loans| + 1);
        var p1 := Record(p, loanId, loan);
        var db := p1.db.(newReleaseBorrowed := p1.db.newReleaseBorrowed + {bookId},
                         readers := p1.db.readers[readerId := r.(activeLoanIds := r.activeLoanIds + [loanId])]);
        Ok(PyBorrowed(loanId, PyDb(db, p1.loanOrder)))
  }

  /** Sets the return date of loan `k` and applies the ban rule and list filter to reader `R`. */
  function Settle(db: MemoryDb, k: string, when: Day): (db': MemoryDb)
    requires k in db.loans && db.loans[k].readerId in db.readers
    ensures Service.Closed(db, db', k, when)
    ensures db'.copies == db.copies && db'.newReleaseBorrowed == db.newReleaseBorrowed
  {
    var L := db.loans[k].(returned := Some(when));
    var R := db.readers[L.readerId];
    var late := LateDays(L);
    var R1 := if late > 0 then R.(activeBanUntil := Some(when + 2 * late)) else R;
    db.(loans := db.loans[k := L],
        readers := db.readers[L.readerId := R1.(activeLoanIds := WithoutId(R1.activeLoanIds, k))])
  }

  /** The loan `return_copy` settles: the first open loan of the copy in insertion order. */
  function CopyLoanSearch(p: PyDb, copyId: string): (r: Option<string>)
    ensures r.None? <==> forall i | 0 <= i < |p.loanOrder| :: p.loanOrder[i] !in Service.CopyLoanMatches(p.db.loans, copyId)
    ensures r.Some? ==> r.value in p.db.loans && p.db.loans[r.value].copyId == copyId && IsOpen(p.db.loans[r.value])
    ensures r.Some? ==>
      exists i | 0 <= i < |p.loanOrder| ::
        p.loanOrder[i] == r.value && forall j | 0 <= j < i :: p.loanOrder[j] !in Service.CopyLoanMatches(p.db.loans, copyId)
  {
    FirstInOrder(p.loanOrder, Service.CopyLoanMatches(p.db.loans, copyId))
  }

  /** The loan `return_original_new_release` settles. */
  function OriginalLoanSearch(p: PyDb, bookId: string, readerId: string): (r: Option<string>)
    ensures r.None? <==>
      forall i | 0 <= i < |p.loanOrder| :: p.loanOrder[i] !in Service.OriginalLoanMatches(p.db.loans, bookId, readerId)
    ensures r.Some? ==> r.value in p.db.loans
    ensures r.Some? ==>
      var l := p.db.loans[r.value];
      IsOriginal(l) && IsOpen(l) && l.bookId == bookId && l.readerId == readerId
    ensures r.Some? ==>
      exists i | 0 <= i < |p.loanOrder| ::
        p.loanOrder[i] == r.value
        && forall j | 0 <= j < i :: p.loanOrder[j] !in Service.OriginalLoanMatches(p.db.loans, bookId, readerId)
  {
    FirstInOrder(p.loanOrder, Service.OriginalLoanMatches(p.db.loans, bookId, readerId))
  }

  /**
   * If `return_copy` gets as far as notifying, the title and the subscribers'
   * addresses resolve. It gets there only past its checks and with the
   * settled loan's reader on file, so the addresses are those of the store.
   */
  predicate CopyReturnAnnounceable(p: PyDb, a: BioAlert, copyId: string) {
    var found := CopyLoanSearch(p, copyId);
    (copyId in p.db.copies && Circulating(p.db.copies[copyId].status) && Service.Found(found)
     && found.value in p.db.loans && p.db.loans[found.value].readerId in p.db.readers)
    ==> Announceable(p.db, a, p.db.loans[found.value].bookId)
  }

  /** If `return_original_new_release` passes its checks, the title and the subscribers' addresses resolve. */
  predicate OriginalReturnAnnounceable(p: PyDb, a: BioAlert, bookId: string, readerId: string) {
    (bookId in p.db.books && readerId in p.db.readers && bookId in p.db.newReleaseBorrowed
     && Service.Found(OriginalLoanSearch(p, bookId, readerId)))
    ==> Announceable(p.db, a, bookId)
  }

  function ReturnCopy(p: PyDb, a: BioAlert, copyId: string, when: Day): (r: Result<PyReturned, Error>)
    requires OrderTracksLoans(p)
    requires CopyReturnAnnounceable(p, a, copyId)
    ensures r.Ok? ==> r.value.store.loanOrder == p.loanOrder && OrderTracksLoans(r.value.store)
    ensures var found := CopyLoanSearch(p, copyId);
      r == Err(KeyError) <==>
        copyId in p.db.copies && Circulating(p.db.copies[copyId].status) && Service.Found(found)
        && p.db.loans[found.value].readerId !in p.db.readers
    ensures r.Ok? ==>
      copyId in p.db.copies && Circulating(p.db.copies[copyId].status) && Service.Found(CopyLoanSearch(p, copyId))
    ensures r.Ok? ==>
      var k, db' := CopyLoanSearch(p, copyId).value, r.value.store.db;
      && k in p.db.loans && p.db.loans[k].copyId == copyId && IsOpen(p.db.loans[k])
      && p.db.loans[k].readerId in p.db.readers
      && Service.Closed(p.db, db', k, when)
      && Service.SameExcept(p.db.copies, db'.copies, copyId)
      && db'.copies[copyId] == p.db.copies[copyId].(status := InLibrary)
      && db'.newReleaseBorrowed == p.db.newReleaseBorrowed
      && r.value.notices == NotifyAvailable(a, p.db.loans[k].bookId, Service.EmailDirectory(db'), Service.TitleCatalog(db'))
  {
    if copyId !in p.db.copies then Err(CopyNotFound)
    else
      var c := p.db.copies[copyId];
      if !Circulating(c.status) then Err(CopyNotLoaned)
      else
        var loanId := CopyLoanSearch(p, copyId);
        if loanId.None? || loanId.value == "" then Err(LoanNotFound)
        else
          var k := loanId.value;
          if p.db.loans[k].readerId !in p.db.readers then Err(KeyError)
          else
            SettleIsClose(p.db, k, when);
            var settled := Settle(p.db, k, when);
            var db := settled.(copies := settled.copies[copyId := c.(status := InLibrary)]);
            assert Service.EmailDirectory(db).Keys == Service.EmailDirectory(p.db).Keys;
            assert Announceable(p.db, a, p.db.loans[k].bookId);
            Ok(PyReturned(PyDb(db, p.loanOrder),
                          NotifyAvailable(a, p.db.loans[k].bookId, Service.EmailDirectory(db), Service.TitleCatalog(db))))
  }

  function ReturnOriginalNewRelease(p: PyDb, a: BioAlert, bookId: string, readerId: string, when: Day)
    : (r: Result<PyReturned, Error>)
    requires OrderTracksLoans(p)
    requires OriginalReturnAnnounceable(p, a, bookId, readerId)
    ensures r.Ok? ==> r.value.store.loanOrder == p.loanOrder && OrderTracksLoans(r.value.store)
    ensures r.Ok? ==>
      bookId in p.db.books && readerId in p.db.readers && bookId in p.db.newReleaseBorrowed
      && Service.Found(OriginalLoanSearch(p, bookId, readerId))
    ensures r.Ok? ==>
      var k, db' := OriginalLoanSearch(p, bookId, readerId).value, r.value.store.db;
      && k in p.db.loans && IsOriginal(p.db.loans[k]) && IsOpen(p.db.loans[k])
      && p.db.loans[k].bookId == bookId && p.db.loans[k].readerId == readerId
      && Service.Closed(p.db, db', k, when)
      && db'.copies == p.db.copies
      && db'.newReleaseBorrowed == p.db.newReleaseBorrowed - {bookId}
      && r.value.notices == NotifyAvailable(a, bookId, Service.EmailDirectory(db'), Service.TitleCatalog(db'))
  {
    if bookId !in p.db.books then Err(BookNotFound)
    else if readerId !in p.db.readers then Err(ReaderNotFound)
    else if bookId !in p.db.newReleaseBorrowed then Err(OriginalNotBorrowed)
    else
      var loanId := OriginalLoanSearch(p, bookId, readerId);
      if loanId.None? || loanId.value == "" then Err(LoanNotFound)
      else
        var k := loanId.value;
        SettleIsClose(p.db, k, when);
        var settled := Settle(p.db, k, when);
        var db := settled.(newReleaseBorrowed := settled.newReleaseBorrowed - {bookId});
        assert Service.EmailDirectory(db).Keys == Service.EmailDirectory(p.db).Keys;
        Ok(PyReturned(PyDb(db, p.loanOrder),
                      NotifyAvailable(a, bookId, Service.EmailDirectory(db), Service.TitleCatalog(db))))
  }

  /**
   * The checks of `return_copy` in order, on every store: each error is raised
   * exactly when its check is the first to fail. The last one is the `KeyError`
   * of `self.db.readers[L.readerId]` for a loan whose reader is not on file.
   */
  lemma ReturnCopyChecks(p: PyDb, a: BioAlert, copyId: string, when: Day)
    requires OrderTracksLoans(p) && CopyReturnAnnounceable(p, a, copyId)
    ensures var r, found := ReturnCopy(p, a, copyId, when), CopyLoanSearch(p, copyId);
      && (r.Err? ==> r.error in {CopyNotFound, CopyNotLoaned, LoanNotFound, KeyError})
      && (r == Err(CopyNotFound) <==> copyId !in p.db.copies)
      && (r == Err(CopyNotLoaned) <==> copyId in p.db.copies && !Circulating(p.db.copies[copyId].status))
      && (r == Err(LoanNotFound) <==>
            copyId in p.db.copies && Circulating(p.db.copies[copyId].status) && !Service.Found(found))
      && (r == Err(KeyError) <==>
            copyId in p.db.copies && Circulating(p.db.copies[copyId].status) && Service.Found(found)
            && p.db.loans[found.value].readerId !in p.db.readers)
  {
  }

  /** The checks of `return_original_new_release` in order, on every store; it raises nothing else. */
  lemma ReturnOriginalChecks(p: PyDb, a: BioAlert, bookId: string, readerId: string, when: Day)
    requires OrderTracksLoans(p) && OriginalReturnAnnounceable(p, a, bookId, readerId)
    ensures var r := ReturnOriginalNewRelease(p, a, bookId, readerId, when);
      && (r.Err? ==> r.error in {BookNotFound, ReaderNotFound, OriginalNotBorrowed, LoanNotFound})
      && (r == Err(BookNotFound) <==> bookId !in p.db.books)
      && (r == Err(ReaderNotFound) <==> bookId in p.db.books && readerId !in p.db.readers)
      && (r == Err(OriginalNotBorrowed) <==>
            bookId in p.db.books && readerId in p.db.readers && bookId !in p.db.newReleaseBorrowed)
      && (r == Err(LoanNotFound) <==>
            bookId in p.db.books && readerId in p.db.readers && bookId in p.db.newReleaseBorrowed
            && !Service.Found(OriginalLoanSearch(p, bookId, readerId)))
  {
  }

  // ---- Agreement with the C++ model ----

  function Borrowed(r: Result<PyBorrowed, Error>): Result<Service.Borrowed, Error> {
    match r
    case Ok(b) => Ok(Service.Borrowed(b.loanId, b.store.db))
    case Err(e) => Err(e)
  }

  function Returned(r: Result<PyReturned, Error>): Result<Service.Returned, Error> {
    match r
    case Ok(b) => Ok(Service.Returned(b.store.db, b.notices))
    case Err(e) => Err(e)
  }

  lemma CanBorrowAgrees(r: Reader, today: Day)
    ensures CanBorrow(r, today) == Domain.CanBorrow(r, today)
  {
  }

  /** Both ports borrow a copy alike: same checks in the same order, same errors, same new store. */
  lemma BorrowCopyAgrees(p: PyDb, copyId: string, readerId: string, today: Day)
    requires OrderTracksLoans(p)
    ensures Borrowed(BorrowCopy(p, copyId, readerId, today)) == Service.BorrowCopy(p.db, copyId, readerId, today)
  {
  }

  lemma BorrowOriginalAgrees(p: PyDb, bookId: string, readerId: string, today: Day)
    requires OrderTracksLoans(p)
    ensures Borrowed(BorrowOriginalNewRelease(p, bookId, readerId, today))
         == Service.BorrowOriginalNewRelease(p.db, bookId, readerId, today)
  {
  }

  /** When at most one key matches, the dictionary walk and the `std::map` walk find the same loan. */
  lemma UniqueMatchFoundAlike(order: seq<string>, m: set<string>)
    requires forall x | x in m :: x in order
    requires forall x, y | x in m && y in m :: x == y
    ensures FirstInOrder(order, m) == FirstKey(m)
  {
    if m != {} {
      var x :| x in m;
      assert x in order;
    }
  }

  /** Where both resolvers succeed the two notifications send the same notices. */
  lemma NotifyAgrees(a: BioAlert, bookId: string, emailOf: map<string, string>, titleOf: map<string, string>)
    requires Resolvable(a, bookId, emailOf, titleOf)
    requires Alerts.Resolvable(a, bookId, emailOf, titleOf)
    ensures NotifyAvailable(a, bookId, emailOf, titleOf) == Alerts.NotifyAvailable(a, bookId, emailOf, titleOf)
  {
  }

  /** With the reader present, settling a loan is the C++ close. */
  lemma SettleIsClose(db: MemoryDb, k: string, when: Day)
    requires k in db.loans && db.loans[k].readerId in db.readers
    ensures Settle(db, k, when) == Service.CloseLoan(db, k, when)
  {
  }

  lemma CopyMatchesUnique(db: MemoryDb, copyId: string)
    requires Valid(db) && copyId in db.copies
    ensures forall x, y | x in Service.CopyLoanMatches(db.loans, copyId) && y in Service.CopyLoanMatches(db.loans, copyId) :: x == y
  {
    assert ReferencesResolve(db);
    forall x, y | x in Service.CopyLoanMatches(db.loans, copyId) && y in Service.CopyLoanMatches(db.loans, copyId)
      ensures x == y
    {
      assert !IsOriginal(db.loans[x]);
      assert OneOpenLoanPerCopy(db);
    }
  }

  lemma OriginalMatchesUnique(db: MemoryDb, bookId: string, readerId: string)
    requires Valid(db)
    ensures forall x, y | x in Service.OriginalLoanMatches(db.loans, bookId, readerId)
                          && y in Service.OriginalLoanMatches(db.loans, bookId, readerId) :: x == y
  {
    assert OneOpenOriginalPerBook(db);
  }

  /** On a consistent store both ports return a copy alike. */
  lemma ReturnCopyAgrees(p: PyDb, a: BioAlert, copyId: string, when: Day)
    requires Valid(p.db) && OrderTracksLoans(p)
    requires CopyReturnAnnounceable(p, a, copyId)
    requires Service.CopyReturnAnnounceable(p.db, a, copyId)
    ensures Returned(ReturnCopy(p, a, copyId, when)) == Service.ReturnCopy(p.db, a, copyId, when)
  {
    if copyId in p.db.copies && Circulating(p.db.copies[copyId].status) {
      var m := Service.CopyLoanMatches(p.db.loans, copyId);
      CopyMatchesUnique(p.db, copyId);
      UniqueMatchFoundAlike(p.loanOrder, m);
      var found := FirstKey(m);
      if found.Some? && found.value != "" {
        var k := found.value;
        assert ReferencesResolve(p.db);
        assert LoanResolves(p.db, p.db.loans[k]);
        SettleIsClose(p.db, k, when);
        var L := p.db.loans[k];
        assert Announceable(p.db, a, L.bookId) && Service.Announceable(p.db, a, L.bookId);
        var settled := Settle(p.db, k, when);
        var db := settled.(copies := settled.copies[copyId := p.db.copies[copyId].(status := InLibrary)]);
        NotifyAgrees(a, L.bookId, Service.EmailDirectory(db), Service.TitleCatalog(db));
      }
    }
  }

  lemma ReturnOriginalAgrees(p: PyDb, a: BioAlert, bookId: string, readerId: string, when: Day)
    requires Valid(p.db) && OrderTracksLoans(p)
    requires OriginalReturnAnnounceable(p, a, bookId, readerId)
    requires Service.OriginalReturnAnnounceable(p.db, a, bookId, readerId)
    ensures Returned(ReturnOriginalNewRelease(p, a, bookId, readerId, when))
         == Service.ReturnOriginalNewRelease(p.db, a, bookId, readerId, when)
  {
    if bookId in p.db.books && readerId in p.db.readers && bookId in p.db.newReleaseBorrowed {
      var m := Service.OriginalLoanMatches(p.db.loans, bookId, readerId);
      OriginalMatchesUnique(p.db, bookId, readerId);
      UniqueMatchFoundAlike(p.loanOrder, m);
      var found := FirstKey(m);
      if found.Some? && found.value != "" {
        var k := found.value;
        SettleIsClose(p.db, k, when);
        var settled := Settle(p.db, k, when);
        var db := settled.(newReleaseBorrowed := settled.newReleaseBorrowed - {bookId});
        NotifyAgrees(a, bookId, Service.EmailDirectory(db), Service.TitleCatalog(db));
      }
    }
  }

  // ---- Where the two ports part ways ----

  /**
   * Outside a consistent store the ports disagree on a loan whose reader is
   * gone: Python raises `KeyError` and changes nothing, while C++ closes the
   * loan and leaves a blank reader under that id.
   */
  lemma MissingReaderDiverges(p: PyDb, a: BioAlert, copyId: string, when: Day)
    requires OrderTracksLoans(p) && Service.CopyReturnAnnounceable(p.db, a, copyId)
    requires forall x, y | x in Service.CopyLoanMatches(p.db.loans, copyId) && y in Service.CopyLoanMatches(p.db.loans, copyId) :: x == y
    requires copyId in p.db.copies && Circulating(p.db.copies[copyId].status)
    requires Service.Found(CopyLoanSearch(p, copyId))
    requires p.db.loans[CopyLoanSearch(p, copyId).value].readerId !in p.db.readers
    ensures ReturnCopy(p, a, copyId, when) == Err(KeyError)
    ensures var r := Service.ReturnCopy(p.db, a, copyId, when);
      && r.Ok?
      && exists rid | rid !in p.db.readers :: r.value.db.readers.Keys == p.db.readers.Keys + {rid}
                                            && r.value.db.readers[rid].id == ""
                                            && r.value.db.readers[rid].email == ""
  {
    ReturnCopyChecks(p, a, copyId, when);
    var m := Service.CopyLoanMatches(p.db.loans, copyId);
    UniqueMatchFoundAlike(p.loanOrder, m);
    var k := FirstKey(m).value;
    var rid := p.db.loans[k].readerId;
    var r := Service.ReturnCopy(p.db, a, copyId, when);
    assert r.Ok?;
    assert r.value.db.readers.Keys == p.db.readers.Keys + {rid};
  }

  /** A loan of a reader that is not on file: the case `MissingReaderDiverges` is about can occur. */
  lemma MissingReaderOccurs()
    ensures var db := MemoryDb(map["B1" := NewBook("B1", "T")], map["C1" := Copy("C1", "B1", Loaned)], map[],
                               map["L1" := Loan("C1", "B1", "R9", 0, 30, None)], {});
            && ReturnCopy(PyDb(db, ["L1"]), Alerts.Initial(), "C1", 10) == Err(KeyError)
            && Service.ReturnCopy(db, Alerts.Initial(), "C1", 10).Ok?
  {
    var db := MemoryDb(map["B1" := NewBook("B1", "T")], map["C1" := Copy("C1", "B1", Loaned)], map[],
                       map["L1" := Loan("C1", "B1", "R9", 0, 30, None)], {});
    var m := Service.CopyLoanMatches(db.loans, "C1");
    assert m == {"L1"};
    assert FirstInOrder(["L1"], m) == Some("L1");
  }

  /**
   * With two open loans on one copy the C++ search takes the least key, the
   * Python search the earliest recorded one: "L10" against "L9" when "L9"
   * was recorded first.
   */
  lemma SearchOrdersDiverge()
    ensures FirstKey({"L10", "L9"}) == Some("L10")
    ensures FirstInOrder(["L9", "L10"], {"L10", "L9"}) == Some("L9")
  {
    var m := FirstKey({"L10", "L9"}).value;
    assert Below(m, "L10");
    assert !Below("L9", "L10") by {
      assert !Below("9", "10");
    }
  }
}
