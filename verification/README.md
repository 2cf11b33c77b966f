# Library circulation desk, modelled in Dafny

This project models the rule engine of a small library's circulation desk.
The engine was written twice: once in C++ (`LibraryService`, `BioAlert` and the
`MemoryDb` store) and once as a Python port with the same logic.

The desk is a state machine over an in-memory store. The store holds:
- books, copies, readers and loans, each keyed by a string id;
- the set of new-release books whose original is out on loan.

It has four operations:
- borrow a physical copy;
- borrow the original of a new release that has no copies;
- return a copy;
- return an original.

Each operation runs a fixed sequence of checks before it writes anything, and
each check has its own error code. After the checks pass, it makes a fixed set
of updates:
- a loan is created, due 30 days later, or a loan is closed;
- the copy's status flips;
- the loan id is appended to the reader's open-loan list or removed from it;
- returning `n` days late bans the reader until `2n` days after the return;
- for new releases, the original-loan lock is taken or released.

A return then tells every subscriber of the book, through the availability
notifier, that the book can be requested again.

## How the model is built

- `wrappers.dfy` has `Option` and `Result`.
- `domain.dfy` has the records and the date and eligibility rules:
  - dates are whole day numbers, so adding days is `+`;
  - the error codes.
- `loan_ids.dfy` defines the loan ids `"L" + decimal(n)`. It proves that the
  decimal rendering parses back, so different counters give different ids.
- `key_order.dfy` defines the lexicographic order of `std::map` keys. It proves
  that the order is a total order and defines the least key of a finite set.
  The C++ loops over `db.loans` stop at the first match, so they find the
  least matching key.
- `alerts.dfy` covers the subscription table, the gateway switch and
  `notifyAvailable`:
  - the messages sent are a set of `Notice` values, each tagged with its subscriber;
  - `DeliverAll` models the sending loop as an outbox.
- `service.dfy` holds the four C++ operations. Each is a pure function from the
  store to `Ok(new store)` or `Err(code)`. An `Err` carries no store, so a
  failed operation changes nothing.
- `invariants.dfy` defines the store invariant `Valid` and proves that every
  successful operation preserves it. `Valid` requires that:
  - loan keys have the form `L<n>` with `n` at most the number of loans;
  - every reference resolves, and no copy is stored under the empty key;
  - each reader's open-loan list is exact and holds at most 3 loans;
  - a copy is LOANED or LATE exactly when an open loan holds it;
  - a book is in `newReleaseBorrowed` exactly when its original is on loan;
  - each copy and each original has at most one open loan.
- `properties.dfy` states the desk's rules as lemmas:
  - the loan cap and the ban;
  - a borrow followed by an on-time return restores everything except the loan record;
  - the exclusivity of originals;
  - the notices sent on a return.
- `desk.dfy` joins the store and the notifier state into one `State`. A
  `Step` serves one request, and `Run` serves a sequence of requests.
  It proves that failures change nothing, that borrows send no notices, and
  that `Valid` holds along any run.
- `py_port.dfy` models the Python port on its own terms and proves that it
  agrees with the C++ model on every consistent store. Python dicts iterate in
  insertion order, so this model carries the loans' insertion order explicitly.
  It also proves the two places where the ports part ways:
  - the order in which the return search scans the loans;
  - a loan whose reader is missing.
- `scenarios.dfy` replays the C++ test scenarios on the tests' seeded store,
  for any start date instead of one calendar day. Each step that needs real
  reasoning is a lemma over any store of the same shape, such as a store
  whose only loan is being returned.

The system's clock, the e-mail gateway's output and the singleton are not
modelled. Dates are parameters, the gateway is a flag plus the set of notices
it would send, and the notifier state is passed next to the store.

### Choices the code forces on the model
- **Notifier lookups.** The code looks subscribers' addresses and the book's
  title up with `.at()` (C++) or dict indexing (Python), and those lookups
  throw when a key is missing. A return reaches the notifier only after all of
  its checks pass, so the returns require "the lookups resolve" only on that
  path: `Service.CopyReturnAnnounceable`, `Service.OriginalReturnAnnounceable`
  and their `PyPort` counterparts. A copy return's addresses are those of the
  store after the loan is closed, which includes the blank reader that C++
  `operator[]` may have just created. A return that fails a check needs no
  lookup at all (`Service.FailingCopyReturnNeedsNoLookup`,
  `Service.FailingOriginalReturnNeedsNoLookup`).
- **No copy under the empty key.** An original's loan is recorded with the
  empty copy id, so a copy stored under the key `""` would count every open
  original as one of its loans: the copy search would match them, and the first
  original borrowed would leave that shelved copy with an open loan.
  `Invariants.EmptyCopyKeyConfusesOriginals` proves the latter, so `Valid`
  keeps the key `""` free of copies.
- **Late days of an open loan.** `lateDays` returns 0 for a loan that has no
  return date, and so does `Domain.LateDays`.
- **Loan ids.** The code builds a new loan's id from the number of loans, so
  the id is fresh only while the store keeps keys of the form `L<n>` with `n`
  at most the loan count, which is `Invariants.LoanKeysFresh`. On a store that
  breaks this, a borrow overwrites an existing loan, and the model does the same.

### Where the C++ and the Python ports differ (both modelled)
- **Missing reader.** C++ `db.readers[L.readerId]` creates a blank reader when
  the loan's reader is missing. Python `self.db.readers[L.readerId]` raises
  `KeyError` before any write. See `PyPort.MissingReaderDiverges`.
- **Search order.** With several open loans on one copy, C++ settles the least
  key and Python the earliest recorded loan. See `PyPort.SearchOrdersDiverge`.
  On a `Valid` store there is at most one match, and the two searches agree.
- **Title lookup.** C++ looks the title up only when the book has a
  subscription entry. Python looks it up whenever a gateway is installed. The
  two notifiers send the same notices wherever both lookups succeed.

## Model

| member | source | states |
|---|---|---|
| LoanIds.ParseDecimalInvertsDecimal | src/library.cpp:84 | reading back the decimal text of `n` gives `n`, so the counter can be recovered from a loan id |
| LoanIds.Decimal | src/library.cpp:84 | the numeral of `n` is a non-empty string of digits, at least two of them from 10 on |
| LoanIds.LoanIdInjective | src/library.cpp:84 | two loan ids are equal exactly when their counters are equal |
| LoanIds.LoanId | src/library.cpp:84 | the id of the `n`-th loan, `"L"` followed by the numeral of `n`; its key shape and number are stated by `LoanIds.LoanNumberOfLoanId` |
| LoanIds.LoanNumberOfLoanId | src/library.cpp:110 | every generated id has the key shape `L<digits>`, and its number is the counter it was built from |
| KeyOrder.BelowTotal | include/library.hpp:88 | any two loan keys are comparable in the map's key order |
| KeyOrder.BelowAntisymmetric | include/library.hpp:88 | two keys below each other are equal, so the order ranks distinct keys strictly |
| KeyOrder.BelowTransitive | include/library.hpp:88 | the key order is transitive |
| KeyOrder.LeastExists | include/library.hpp:88 | every non-empty finite set of keys has an element below all the others |
| KeyOrder.Least | src/library.cpp:126-129 | the key the first-match loop stops at belongs to the matching set and is below every other match |
| KeyOrder.FirstKey | src/library.cpp:125-130 | the search finds nothing exactly when no loan matches; otherwise it finds the least matching key |
| Domain.NewBook | include/library.hpp:21-28 | a book built without the flag is not a new release |
| Domain.NewCopy | include/library.hpp:42-46 | a new copy starts IN_LIBRARY |
| Domain.AddDays | src/library.cpp:6-8 | adding `d` days to a day number; dates are whole days, so this is addition (no contract of its own) |
| Domain.BlankReader | src/library.cpp:133 | the reader created by indexing a missing id has no ban and no open loans |
| Domain.LateDays | src/library.cpp:10-15 | late days are never negative; they are positive exactly when the loan was returned after its due date, and then due plus late days is the return date |
| Domain.LateDaysMeasuresDelay | src/library.cpp:10-15 | a loan returned on day `w` is `w - due` days late when `w > due` and 0 days late otherwise; an open loan is 0 days late |
| Domain.CanBorrow | src/library.cpp:18-21 | the eligibility rule itself; `Domain.CanBorrowExactly` states what it admits, in both directions |
| Domain.CanBorrowExactly | src/library.cpp:18-21 | a reader may borrow exactly when they have no ban or the ban ended before today, and fewer than 3 loans are open |
| Domain.BanCoversItsLastDay | src/library.cpp:19 | a ban ending today still blocks today; the next day only the loan cap matters |
| Domain.EligibilityPersists | src/library.cpp:18-21 | a reader allowed to borrow today is still allowed later if nothing changes |
| Domain.LateReturnBan | src/library.cpp:136-139 | a return sets a ban exactly when it is late, and the ban runs to the return day plus twice the late days |
| Domain.WithoutId | src/library.cpp:143-147 | the filtered list keeps exactly the other ids, is no longer than before, is unchanged when the id is absent, and stays duplicate-free |
| Domain.WithoutIdKeepsOrder | src/library.cpp:143-147 | filtering an id out of a concatenation filters each part, so the ids kept stay in their original order |
| Alerts.Initial | include/library.hpp:69-71 | the notifier starts with no subscriptions and no gateway |
| Alerts.NoticeFor | src/library.cpp:45-47 | the notice for one subscriber goes to their address, for them, with the fixed body, and its subject is `"Disponible: "` followed by exactly the title |
| Alerts.SetGateway | src/library.cpp:33 | installing or clearing the gateway leaves the subscriptions alone |
| Alerts.Subscribe | src/library.cpp:34-36 | subscribing adds exactly that reader to that book's set; other books and the gateway are untouched |
| Alerts.SubscribeIdempotent | src/library.cpp:34-36 | subscribing twice equals subscribing once |
| Alerts.Reset | src/library.cpp:50-53 | after a reset no book has subscribers and no gateway is installed |
| Alerts.ResetSilences | src/library.cpp:50-53 | after a reset, nothing is sent even if a gateway is installed again |
| Alerts.NotifyAvailable | src/library.cpp:37-49 | with no gateway or no subscription entry nothing is sent; otherwise each subscriber gets exactly one notice, at their address, with subject `"Disponible: "` plus the title, and no one else gets any |
| Alerts.SilentWithoutGateway | src/library.cpp:40 | without a gateway a notification sends nothing |
| Alerts.OneNoticePerSubscriber | src/library.cpp:44-48 | with a gateway, the number of notices equals the number of subscribers |
| Alerts.DeliverAll | src/library.cpp:44-48 | the send loop delivers exactly the notices of `NotifyAvailable`, never two to the same reader, one per subscriber when a gateway is installed |
| Service.BorrowCopyChecks | src/library.cpp:69-75 | each error is raised exactly when its check is the first to fail, in the order COPY_NOT_FOUND, READER_NOT_FOUND, BORROW_FORBIDDEN, COPY_NOT_AVAILABLE |
| Service.BorrowCopy | src/library.cpp:67-90 | only the four check errors occur, and success means every check passed. On success it adds exactly one loan, id `L<count+1>`, due 30 days later. The copy becomes LOANED, the reader's record is the old one with the id appended to its list (ban and id unchanged), and books, other copies, other readers and the original locks are unchanged |
| Service.BorrowOriginalChecks | src/library.cpp:94-101 | each error is raised exactly when its check is the first to fail, in the order BOOK_NOT_FOUND, READER_NOT_FOUND, NOT_NEW_RELEASE, BORROW_FORBIDDEN, ORIGINAL_ALREADY_BORROWED |
| Service.BorrowOriginalNewRelease | src/library.cpp:92-116 | only the five check errors occur. On success it records one copy-less loan due 30 days later, makes the reader's record the old one with the id appended to its list (ban and id unchanged), and locks the book; copies are unchanged |
| Service.NextLoanId | src/library.cpp:84 | the id a new loan receives, built from the number of loans on record |
| Service.NextLoanIdNumber | src/library.cpp:84 | the next id has the key shape `L<digits>`, and its number is one more than the number of loans on record |
| Service.CopyLoanSearch | src/library.cpp:125-130 | nothing is found exactly when the copy has no open loan; otherwise the key found is an open loan of the copy and comes first in key order among them |
| Service.OriginalLoanSearch | src/library.cpp:162-168 | nothing is found exactly when the reader has no open original loan of the book; otherwise the key found is such a loan and comes first in key order among them |
| Service.ReaderOrBlank | src/library.cpp:133 | a reader on file is read as is; a missing one reads as a blank reader with no address, no ban and no loans |
| Service.CloseLoan | src/library.cpp:132-147 | closing a loan establishes `Service.Closed` and changes neither the copies nor the original locks |
| Service.Closed | src/library.cpp:132-147 | the effect of closing a loan: only that loan gains its return date, only its reader (created blank if missing) changes, losing the id from the list and gaining a ban when late; books stay as they were |
| Service.ReturnCopyChecks | src/library.cpp:119-130 | each error is raised exactly when its check is the first to fail, in the order COPY_NOT_FOUND, COPY_NOT_LOANED (status neither LOANED nor LATE), LOAN_NOT_FOUND (no open loan of the copy, or an empty key). It asks for the notifier's lookups to resolve only when every check passes |
| Service.ReturnCopy | src/library.cpp:118-154 | only the three check errors occur. On success the least open loan of the copy gets its return date. The ban is replaced only on a late return, the id leaves the loan's reader's list, the copy goes back IN_LIBRARY, and the book's subscribers are notified with the updated store. The lookups must resolve only for the loan found, against the addresses on file after the close |
| Service.ReturnOriginalChecks | src/library.cpp:158-169 | each error is raised exactly when its check is the first to fail, in the order BOOK_NOT_FOUND, READER_NOT_FOUND, ORIGINAL_NOT_BORROWED, LOAN_NOT_FOUND. It asks for the notifier's lookups to resolve only when every check passes |
| Service.ReturnOriginalNewRelease | src/library.cpp:156-190 | only the four check errors occur. On success this reader's open original loan is closed under the same ban rule, the lock is released, copies are unchanged, and subscribers are notified. The lookups must resolve only when every check passes |
| Service.ClosedDirectories | src/library.cpp:133-153 | closing a loan leaves the title catalogue as it was and makes the address book the old one plus the loan's reader, blank if that reader was missing |
| Service.FailingCopyReturnNeedsNoLookup | src/library.cpp:119-130 | a copy return that fails one of its checks asks nothing of the notifier's lookups and ends in an error |
| Service.FailingOriginalReturnNeedsNoLookup | src/library.cpp:158-169 | an original return that fails one of its checks asks nothing of the notifier's lookups and ends in an error |
| Invariants.EmptyStoreValid | include/library.hpp:84-90 | the empty store satisfies every store invariant |
| Invariants.EmptyCopyKeyConfusesOriginals | src/library.cpp:104-108 | on a store with a shelved copy under the empty key, a successful original borrow leaves that copy's status out of step with its open loans |
| Invariants.NextLoanIdFresh | src/library.cpp:84-85 | on a store whose keys are `L<n>` with `n` at most the loan count, the next id is not yet a key |
| Invariants.BorrowCopyPreservesValid | src/library.cpp:77-89 | a successful copy borrow keeps every store invariant |
| Invariants.BorrowOriginalPreservesValid | src/library.cpp:103-115 | a successful original borrow keeps every store invariant |
| Invariants.ReturnCopyPreservesValid | src/library.cpp:132-147 | a successful copy return keeps every store invariant |
| Invariants.ReturnOriginalPreservesValid | src/library.cpp:171-183 | a successful original return keeps every store invariant |
| Properties.OpenLoansBounded | src/library.cpp:20 | on a consistent store a reader's list counts exactly their open loans, and there are at most 3 |
| Properties.FourthLoanForbidden | src/library.cpp:20 | a reader with 3 open loans is refused with BORROW_FORBIDDEN by both borrows |
| Properties.BannedReaderForbidden | src/library.cpp:19 | a reader whose ban has not ended is refused with BORROW_FORBIDDEN by both borrows |
| Properties.ReturnCopyFindsTheLoan | src/library.cpp:125-130 | on a consistent store, a LOANED or LATE copy has exactly one open loan, and the search finds it |
| Properties.BorrowThenReturnOnTime | src/library.cpp:67-154 | borrowing a copy and returning it by the due date restores copies, readers, books and locks; only the closed loan record remains |
| Properties.LateReturnBans | src/library.cpp:135-139 | a late return bans the loan's reader until the return day plus twice the days late, replacing any earlier ban; an on-time return keeps the old ban |
| Properties.OriginalIsExclusive | src/library.cpp:101 | once an original is out, every other eligible reader is refused with ORIGINAL_ALREADY_BORROWED |
| Properties.OriginalFreedByReturn | src/library.cpp:177 | once the holder returns the original, any eligible reader can borrow it at once |
| Properties.ReturnNotifiesSubscribers | src/library.cpp:149-153 | a copy return sends nothing without a gateway; with one, it sends exactly one notice per subscriber of the copy's book, to their address, titled with the book's title |
| Scenarios.SeedIsValid | tests/test_lib.cpp:17-24 | the store the tests seed (two books, two copies of B1, two readers, no loans) is consistent |
| Scenarios.LoanCapScenario | tests/test_lib.cpp:26-38 | on the seed with four copies of B1, a reader takes three copies on one day and is refused the fourth with BORROW_FORBIDDEN |
| Scenarios.DueDateScenario | tests/test_lib.cpp:40-48 | a copy borrowed on any day is due 30 days later |
| Scenarios.SeedBorrow | tests/test_lib.cpp:55 | R1's borrow of C1 from the seed creates the store's only loan, open and due 30 days later, marks C1 LOANED and leaves R1 unbanned |
| Scenarios.ReturnBanScenario | tests/test_lib.cpp:50-86 | returning C1 on its due day leaves R1 unbanned, and returning it `late` days after bans R1 until the return day plus `2 * late` |
| Scenarios.OnlyLoanBan | src/library.cpp:135-139 | returning the copy of a store's only loan `late` days after its due date bans an unbanned reader for `2 * late` days, or not at all when on time |
| Scenarios.ReturnOfOnlyLoan | src/library.cpp:118-154 | returning the copy of a store's only open loan succeeds even without the store invariant. It applies the ban rule to that loan's reader, leaves other readers and books alone, and notifies the loan's book's subscribers |
| Scenarios.OriginalHeldScenario | tests/test_lib.cpp:88-98 | while R2 holds the original of B2, R1 is refused it with ORIGINAL_ALREADY_BORROWED |
| Scenarios.OriginalReleasedScenario | tests/test_lib.cpp:88-103 | after R2 returns the original of B2 on any day, R1 can borrow it |
| Scenarios.OnlyOriginalReturns | src/library.cpp:158-169 | a store's only loan, an open original held by a reader on file, passes every check of the original return |
| Scenarios.OriginalReturnFrees | src/library.cpp:177 | even without the store invariant, once the holder returns an original, another reader who may borrow can take it |
| Scenarios.NoticeScenario | tests/test_lib.cpp:105-119 | with a gateway installed and R2 subscribed to B1, returning C1 on any day after R1 borrowed it sends exactly one notice, to bob@example.com, titled with B1's title |
| Scenarios.OnlyLoanNotice | src/library.cpp:149-153 | returning the only loan of a copy of B1, whose sole subscriber is R2, sends R2 exactly one notice at R2's address |
| Scenarios.UnknownSubscribedBookScenario | src/library.cpp:158 | returning the original of a book that is not on file fails with BOOK_NOT_FOUND, even when that book has a subscriber who cannot be looked up |
| Scenarios.BannedTodayScenario | tests/test_lib.cpp:121-128 | a reader whose ban ends today is refused with BORROW_FORBIDDEN |
| Scenarios.CopyOutScenario | tests/test_lib.cpp:130-137 | a copy that is already LOANED is refused with COPY_NOT_AVAILABLE |
| Desk.Step | src/library.cpp:69-75 | a failed request changes neither the store nor the notifier and sends nothing; only a borrow answers with a value. Only a return that passes its checks asks for the notifier's lookups to resolve |
| Desk.BorrowStepIsSilent | src/library.cpp:77-89 | a borrow sends nothing, leaves the notifier alone and, on success, answers with the next loan id |
| Desk.AlertStepKeepsStore | src/library.cpp:33-53 | subscribing, switching the gateway and resetting never fail, send nothing and leave the store alone |
| Desk.ReturnStepKeepsAlert | src/library.cpp:149-153 | a return leaves the notifier's subscriptions and gateway alone |
| Desk.StepPreservesValid | src/library.cpp:67-190 | every request served on a consistent store leaves it consistent |
| Desk.Run | src/library.cpp:67-190 | the state after serving a sequence of requests in order; its properties are stated by `Desk.RunComposes`, `Desk.RunPreservesValid` and `Desk.BorrowsNeverTouchAlerts` |
| Desk.RunNotices | src/library.cpp:67-190 | every notice sent while a sequence of requests is served; `Desk.RunComposes` and `Desk.BorrowsNeverTouchAlerts` state its properties |
| Desk.RunComposes | src/library.cpp:67-190 | serving `a` and then `b` is serving `a + b`: each part can be served, the final state is the same, and the notices are those of the two parts together |
| Desk.RunPreservesValid | src/library.cpp:67-190 | a whole sequence of requests keeps the store consistent |
| Desk.BorrowsNeverTouchAlerts | src/library.cpp:67-116 | a run made only of borrows sends no notices over the whole run and leaves the notifier as it was |
| PyPort.LateDays | python/src/biblioteca_py/domain.py:41-46 | the Python late-day count equals the C++ one for every loan |
| PyPort.CanBorrowAgrees | python/src/biblioteca_py/domain.py:61-63 | the Python eligibility test equals the C++ one |
| PyPort.CanBorrow | python/src/biblioteca_py/domain.py:61-63 | Python's `can_borrow`; `PyPort.CanBorrowAgrees` proves it equal to the C++ rule |
| PyPort.Record | python/src/biblioteca_py/domain.py:154 | dict assignment keeps an existing key's place and appends a new key, so the order still lists each loan key once |
| PyPort.FirstInOrder | python/src/biblioteca_py/domain.py:192-198 | the insertion-order search finds nothing exactly when no recorded key matches; otherwise it finds the first recorded key that matches, every key recorded before it failing to match |
| PyPort.CopyLoanSearch | python/src/biblioteca_py/domain.py:192-198 | nothing is found exactly when no recorded key is an open loan of the copy; otherwise the key found is such a loan and is the first recorded one |
| PyPort.OriginalLoanSearch | python/src/biblioteca_py/domain.py:226-232 | nothing is found exactly when no recorded key is an open original loan of the book held by the reader; otherwise the key found is such a loan and is the first recorded one |
| PyPort.UniqueMatchFoundAlike | python/src/biblioteca_py/domain.py:193-196 | when at most one loan matches, the insertion-order search and the key-order search find the same loan |
| PyPort.NotifyAvailable | python/src/biblioteca_py/domain.py:94-105 | the Python notifier sends nothing without a gateway and writes only to subscribers |
| PyPort.NotifyAgrees | python/src/biblioteca_py/domain.py:94-105 | where both ports' lookups resolve, the Python and C++ notifiers send the same notices |
| PyPort.BorrowCopy | python/src/biblioteca_py/domain.py:136-157 | a successful Python copy borrow records its new loan id last in the insertion order |
| PyPort.BorrowCopyAgrees | python/src/biblioteca_py/domain.py:136-157 | the Python copy borrow gives the same errors, id and store as the C++ one on every store whose entries are unshared values |
| PyPort.BorrowOriginalNewRelease | python/src/biblioteca_py/domain.py:159-181 | a successful Python original borrow adds the book to the locked set, which did not hold it before |
| PyPort.BorrowOriginalAgrees | python/src/biblioteca_py/domain.py:159-181 | the Python original borrow gives the same errors, id and store as the C++ one on every store whose entries are unshared values |
| PyPort.ReturnCopy | python/src/biblioteca_py/domain.py:183-214 | a Python copy return succeeds only when its checks pass and the search finds an open loan of the copy held by a reader on file. It then closes that loan under the ban rule, sets only that copy back IN_LIBRARY, keeps the locks and the loan order, and sends the Python notifier's notices for the loan's book from the updated store. It raises `KeyError` exactly when the checks pass and the loan found belongs to a reader who is not on file |
| PyPort.ReturnCopyAgrees | python/src/biblioteca_py/domain.py:183-214 | on a consistent store the Python copy return gives the same errors, store and notices as the C++ one |
| PyPort.ReturnOriginalNewRelease | python/src/biblioteca_py/domain.py:216-248 | a Python original return succeeds only when its checks pass and it finds this reader's open original loan. It then closes that loan under the ban rule, releases the lock, leaves copies alone, keeps the loan order and sends the Python notifier's notices for the book from the updated store |
| PyPort.ReturnCopyChecks | python/src/biblioteca_py/domain.py:185-201 | on every store, each error is raised exactly when its check is the first to fail, in the order COPY_NOT_FOUND, COPY_NOT_LOANED, LOAN_NOT_FOUND (no open loan of the copy, or an empty key), then `KeyError` when the loan found names a reader not on file; no other error occurs |
| PyPort.ReturnOriginalChecks | python/src/biblioteca_py/domain.py:218-232 | on every store, each error is raised exactly when its check is the first to fail, in the order BOOK_NOT_FOUND, READER_NOT_FOUND, ORIGINAL_NOT_BORROWED, LOAN_NOT_FOUND; no other error occurs |
| PyPort.ReturnOriginalAgrees | python/src/biblioteca_py/domain.py:216-248 | on a consistent store the Python original return gives the same errors, store and notices as the C++ one |
| PyPort.SettleIsClose | python/src/biblioteca_py/domain.py:200-208 | when the loan's reader exists, the Python settlement of a loan (return date, ban, list filter) equals the C++ one |
| PyPort.Settle | python/src/biblioteca_py/domain.py:200-208 | settling a loan whose reader is on file establishes `Service.Closed` and changes neither the copies nor the original locks |
| PyPort.MissingReaderDiverges | python/src/biblioteca_py/domain.py:201 | when a copy's checks pass and its only open loan names a reader not on file, Python raises `KeyError` while C++ succeeds and adds a blank reader under that id |
| PyPort.MissingReaderOccurs | python/src/biblioteca_py/domain.py:201 | a store whose only loan names an unknown reader makes Python raise `KeyError`, while C++ returns the copy |
| PyPort.SearchOrdersDiverge | python/src/biblioteca_py/domain.py:193-196 | with open loans "L9" (recorded first) and "L10", Python settles "L9" and C++ settles "L10" |

## Left out

- `src/main.cpp` is not part of this model. It is a console demo that only prints.
- `ConsoleEmailGateway` and the Python `ConsoleEmailGateway` print to the console. A gateway is modelled only as installed or not, plus the notices it would receive.
- `today_utc` and `LibraryService.today()` read the system clock. Dates are explicit parameters. Python's `today or self.today()` fallback is not modelled, since a date argument is always truthy.
- `makeDate` and the calendar conversion are not modelled. Dates are whole day numbers, so both `addDays` functions are `+`.
- The singleton mechanics of `BioAlert::getInstance` and `BioAlert.instance()` are not modelled. The notifier state is passed next to the store.
- Python's `set_gateway`, `subscribe` and `reset` behave exactly like the C++ ones, so `Alerts` models both ports.
- Author, year and edition are never read by the rules and are not modelled.
- Integer widths (`long` late days, `int` day offsets, `size_t` counts) are unbounded integers here. The values involved stay far from any limit. Python's `date + timedelta` raises `OverflowError` outside years 1 to 9999; dates are unbounded here, so that error is not modelled.
- The order in which notices are sent is not modelled. The subscriber set has no order the rules depend on.
- Python store entries are mutable `@dataclass` objects that `borrow_copy` and the other operations change in place, so one object stored under two keys would change under both. The model keeps every entry as an unshared value and changes only the entry under the key used; the Python agreement lemmas hold on stores without shared entries.
- Alerts.DeliverAll: states which notices are delivered, not the order in which they go out.
- The COPY_NOT_LOANED check accepts LATE as well as LOANED. No operation ever sets LATE, so the copy invariant speaks of "LOANED or LATE".
- The Python tests in `python/tests/test_biblioteca.py` are not replayed on their own. They walk the same scenarios as the C++ tests, whose replays are in `Scenarios`, and `PyPort` proves that the Python port agrees with the C++ model on consistent stores.
