/**
 * The whole desk as one state machine: the store and the BioAlert table side
 * by side, driven by requests. A rejected request leaves both untouched and
 * sends nothing; only returns send notices.
 */
module Desk {
  import opened Wrappers
  import opened Domain
  import opened Alerts
  import opened Service
  import opened Invariants

  datatype State = State(db: MemoryDb, alert: BioAlert)

  datatype Request =
    | BorrowCopyRequest(copyId: string, readerId: string, today: Day)
    | BorrowOriginalRequest(bookId: string, readerId: string, today: Day)
    | ReturnCopyRequest(copyId: string, when: Day)
    | ReturnOriginalRequest(bookId: string, readerId: string, when: Day)
    | SubscribeRequest(bookId: string, readerId: string)
    | SetGatewayRequest(installed: bool)
    | ResetRequest

  /** The new state, the loan id a borrow hands back (or the error raised), and the notices sent. */
  datatype Reply = Reply(state: State, outcome: Result<Option<string>, Error>, notices: set<Notice>)

  predicate IsBorrow(req: Request) {
    req.BorrowCopyRequest? || req.BorrowOriginalRequest?
  }

  predicate IsAlertRequest(req: Request) {
    req.SubscribeRequest? || req.SetGatewayRequest? || req.ResetRequest?
  }

  /** A return that passes its checks must be able to resolve the addresses and title it announces. */
  predicate Serviceable(s: State, req: Request) {
    match req
    case ReturnCopyRequest(copyId, _) => CopyReturnAnnounceable(s.db, s.alert, copyId)
    case ReturnOriginalRequest(bookId, readerId, _) => OriginalReturnAnnounceable(s.db, s.alert, bookId, readerId)
    case _ => true
  }

  /** The reply to a borrow: the loan id on success, the error otherwise; never a notice. */
  function BorrowReply(s: State, r: Result<Borrowed, Error>): (reply: Reply)
    ensures reply.notices == {} && reply.state.alert == s.alert
    ensures r.Err? ==> reply.state == s && reply.outcome == Err(r.error)
    ensures r.Ok? ==> reply.state.db == r.value.db && reply.outcome == Ok(Some(r.value.loanId))
  {
    match r
    case Ok(b) => Reply(State(b.db, s.alert), Ok(Some(b.loanId)), {})
    case Err(e) => Reply(s, Err(e), {})
  }

  /** The reply to a return: no value on success, the error and no notices otherwise. */
  function ReturnReply(s: State, r: Result<Returned, Error>): (reply: Reply)
    ensures reply.state.alert == s.alert
    ensures r.Err? ==> reply.state == s && reply.outcome == Err(r.error) && reply.notices == {}
    ensures r.Ok? ==> reply.state.db == r.value.db && reply.outcome == Ok(None) && reply.notices == r.value.notices
  {
    match r
    case Ok(b) => Reply(State(b.db, s.alert), Ok(None), b.notices)
    case Err(e) => Reply(s, Err(e), {})
  }

  function Step(s: State, req: Request): (reply: Reply)
    requires Serviceable(s, req)
    ensures reply.outcome.Err? ==> reply.state == s && reply.notices == {}
    ensures !IsBorrow(req) ==> reply.outcome.Err? || reply.outcome.value.None?
  {
    match req
    case BorrowCopyRequest(copyId, readerId, today) =>
      BorrowReply(s, BorrowCopy(s.db, copyId, readerId, today))
    case BorrowOriginalRequest(bookId, readerId, today) =>
      BorrowReply(s, BorrowOriginalNewRelease(s.db, bookId, readerId, today))
    case ReturnCopyRequest(copyId, when) =>
      ReturnReply(s, ReturnCopy(s.db, s.alert, copyId, when))
    case ReturnOriginalRequest(bookId, readerId, when) =>
      ReturnReply(s, ReturnOriginalNewRelease(s.db, s.alert, bookId, readerId, when))
    case SubscribeRequest(bookId, readerId) =>
      Reply(State(s.db, Subscribe(s.alert, bookId, readerId)), Ok(None), {})
    case SetGatewayRequest(installed) =>
      Reply(State(s.db, SetGateway(s.alert, installed)), Ok(None), {})
    case ResetRequest =>
      Reply(State(s.db, Reset(s.alert)), Ok(None), {})
  }

  /** A borrow sends nothing, leaves the notifier alone and, when it succeeds, hands back the next loan id. */
  lemma BorrowStepIsSilent(s: State, req: Request)
    requires IsBorrow(req)
    ensures Step(s, req).notices == {} && Step(s, req).state.alert == s.alert
    ensures Step(s, req).outcome.Ok? ==> Step(s, req).outcome.value == Some(NextLoanId(s.db))
  {
  }

  /** Subscribing, switching the gateway and resetting never touch the store and never fail. */
  lemma AlertStepKeepsStore(s: State, req: Request)
    requires IsAlertRequest(req)
    ensures Step(s, req).state.db == s.db && Step(s, req).notices == {} && Step(s, req).outcome == Ok(None)
  {
  }

  /** A return leaves the notifier's subscriptions and gateway as they were. */
  lemma ReturnStepKeepsAlert(s: State, req: Request)
    requires req.ReturnCopyRequest? || req.ReturnOriginalRequest?
    requires Serviceable(s, req)
    ensures Step(s, req).state.alert == s.alert
  {
  }

  lemma StepPreservesValid(s: State, req: Request)
    requires Valid(s.db) && Serviceable(s, req)
    ensures Valid(Step(s, req).state.db)
  {
    match req
    case BorrowCopyRequest(copyId, readerId, today) =>
      if BorrowCopy(s.db, copyId, readerId, today).Ok? {
        BorrowCopyPreservesValid(s.db, copyId, readerId, today);
      }
    case BorrowOriginalRequest(bookId, readerId, today) =>
      if BorrowOriginalNewRelease(s.db, bookId, readerId, today).Ok? {
        BorrowOriginalPreservesValid(s.db, bookId, readerId, today);
      }
    case ReturnCopyRequest(copyId, when) =>
      if ReturnCopy(s.db, s.alert, copyId, when).Ok? {
        ReturnCopyPreservesValid(s.db, s.alert, copyId, when);
      }
    case ReturnOriginalRequest(bookId, readerId, when) =>
      if ReturnOriginalNewRelease(s.db, s.alert, bookId, readerId, when).Ok? {
        ReturnOriginalPreservesValid(s.db, s.alert, bookId, readerId, when);
      }
    case SubscribeRequest(_, _) =>
    case SetGatewayRequest(_) =>
    case ResetRequest =>
  }

  /** Every request of the run can resolve what it announces, in the state it meets. */
  predicate RunServiceable(s: State, reqs: seq<Request>)
    decreases |reqs|
  {
    |reqs| == 0 || (Serviceable(s, reqs[0]) && RunServiceable(Step(s, reqs[0]).state, reqs[1..]))
  }

  /** The state after serving `reqs` in order. */
  function Run(s: State, reqs: seq<Request>): State
    requires RunServiceable(s, reqs)
    decreases |reqs|
  {
    if |reqs| == 0 then s else Run(Step(s, reqs[0]).state, reqs[1..])
  }

  /** Every notice sent while serving `reqs` in order. */
  function RunNotices(s: State, reqs: seq<Request>): set<Notice>
    requires RunServiceable(s, reqs)
    decreases |reqs|
  {
    if |reqs| == 0 then {} else Step(s, reqs[0]).notices + RunNotices(Step(s, reqs[0]).state, reqs[1..])
  }

  /** Serving `a` and then `b` is serving `a + b`: the same final state, and the notices of both parts. */
  lemma {:induction false} RunComposes(s: State, a: seq<Request>, b: seq<Request>)
    requires RunServiceable(s, a + b)
    ensures RunServiceable(s, a) && RunServiceable(Run(s, a), b)
    ensures Run(s, a + b) == Run(Run(s, a), b)
    ensures RunNotices(s, a + b) == RunNotices(s, a) + RunNotices(Run(s, a), b)
    decreases |a|
  {
    if |a| > 0 {
      assert (a + b)[0] == a[0];
      assert (a + b)[1..] == a[1..] + b;
      RunComposes(Step(s, a[0]).state, a[1..], b);
    } else {
      assert a + b == b;
    }
  }

  /** Starting from a consistent store, every sequence of requests keeps it consistent. */
  lemma {:induction false} RunPreservesValid(s: State, reqs: seq<Request>)
    requires Valid(s.db) && RunServiceable(s, reqs)
    ensures Valid(Run(s, reqs).db)
    decreases |reqs|
  {
    if |reqs| > 0 {
      StepPreservesValid(s, reqs[0]);
      RunPreservesValid(Step(s, reqs[0]).state, reqs[1..]);
    }
  }

  /** A run made only of borrows sends no notice and leaves the subscription table alone. */
  lemma {:induction false} BorrowsNeverTouchAlerts(s: State, reqs: seq<Request>)
    requires RunServiceable(s, reqs)
    requires forall i | 0 <= i < |reqs| :: IsBorrow(reqs[i])
    ensures Run(s, reqs).alert == s.alert
    ensures RunNotices(s, reqs) == {}
    decreases |reqs|
  {
    if |reqs| > 0 {
      BorrowStepIsSilent(s, reqs[0]);
      BorrowsNeverTouchAlerts(Step(s, reqs[0]).state, reqs[1..]);
    }
  }
}
