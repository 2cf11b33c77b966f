/**
 * BioAlert: which readers want to hear when a book is available again, and the
 * notices sent when it is. The gateway is either installed or not; what a
 * notification produces is the set of notices handed to it, each tagged with
 * the subscriber it was sent for (the delivery order is not specified).
 */
module Alerts {

  datatype BioAlert = BioAlert(subs: map<string, set<string>>, gatewayInstalled: bool)

  /** One `sendEmail(to, subject, body)` call, made on behalf of subscriber `reader`. */
  datatype Notice = Notice(reader: string, to: string, subject: string, body: string)

  const SubjectPrefix := "Disponible: "
  const NoticeBody := "Ya puedes solicitarlo"

  /** The notice sent to subscriber `reader` of a book titled `title`. */
  function NoticeFor(reader: string, email: string, title: string): (n: Notice)
    ensures n.reader == reader && n.to == email && n.body == NoticeBody
    ensures |n.subject| == |SubjectPrefix| + |title|
    ensures n.subject[..|SubjectPrefix|] == SubjectPrefix && n.subject[|SubjectPrefix|..] == title
  {
    Notice(reader, email, SubjectPrefix + title, NoticeBody)
  }

  /** The state the process starts with: no subscriptions and no gateway. */
  function Initial(): (a: BioAlert)
    ensures forall b :: Subscribers(a, b) == {}
    ensures !a.gatewayInstalled
  {
    BioAlert(map[], false)
  }

  function Subscribers(a: BioAlert, bookId: string): set<string> {
    if bookId in a.subs then a.subs[bookId] else {}
  }

  /** Installs a gateway (`true`) or detaches it (`false`, the null gateway). */
  function SetGateway(a: BioAlert, installed: bool): (a': BioAlert)
    ensures a'.gatewayInstalled == installed
    ensures a'.subs == a.subs
  {
    a.(gatewayInstalled := installed)
  }

  function Subscribe(a: BioAlert, bookId: string, readerId: string): (a': BioAlert)
    ensures Subscribers(a', bookId) == Subscribers(a, bookId) + {readerId}
    ensures forall b | b != bookId :: Subscribers(a', b) == Subscribers(a, b)
    ensures a'.gatewayInstalled == a.gatewayInstalled
  {
    a.(subs := a.subs[bookId := Subscribers(a, bookId) + {readerId}])
  }

  /** Forgets every subscription and detaches the gateway. */
  function Reset(a: BioAlert): (a': BioAlert)
    ensures forall b :: Subscribers(a', b) == {}
    ensures !a'.gatewayInstalled
  {
    BioAlert(map[], false)
  }

  /**
   * What the C++ notification needs from its resolvers: once a gateway is
   * installed and the book has a subscription entry, its title and every
   * subscriber's address must resolve (`at()` would throw otherwise).
   */
  predicate Resolvable(a: BioAlert, bookId: string,
                       emailOf: map<string, string>, titleOf: map<string, string>) {
    a.gatewayInstalled && bookId in a.subs ==> bookId in titleOf && a.subs[bookId] <= emailOf.Keys
  }

  /** The notices sent when `bookId` becomes available. */
  function NotifyAvailable(a: BioAlert, bookId: string,
                           emailOf: map<string, string>, titleOf: map<string, string>): (sent: set<Notice>)
    requires Resolvable(a, bookId, emailOf, titleOf)
    ensures !a.gatewayInstalled || bookId !in a.subs ==> sent == {}
    ensures forall n | n in sent ::
      n.reader in Subscribers(a, bookId) && n == NoticeFor(n.reader, emailOf[n.reader], titleOf[bookId])
    ensures a.gatewayInstalled ==> forall rid | rid in Subscribers(a, bookId) ::
      NoticeFor(rid, emailOf[rid], titleOf[bookId]) in sent
    ensures forall n, m | n in sent && m in sent && n.reader == m.reader :: n == m
  {
    if !a.gatewayInstalled || bookId !in a.subs then {}
    else
      var title := titleOf[bookId];
      set rid | rid in a.subs[bookId] :: NoticeFor(rid, emailOf[rid], title)
  }

  /**
   * The delivery loop: visits the subscribers one at a time, in some order,
   * and hands one notice per subscriber to the gateway.
   */
  method DeliverAll(a: BioAlert, bookId: string,
                    emailOf: map<string, string>, titleOf: map<string, string>)
    returns (outbox: seq<Notice>)
    requires Resolvable(a, bookId, emailOf, titleOf)
    ensures forall n :: n in outbox <==> n in NotifyAvailable(a, bookId, emailOf, titleOf)
    ensures forall i, j | 0 <= i < j < |outbox| :: outbox[i].reader != outbox[j].reader
    ensures |outbox| == |Subscribers(a, bookId)| || !a.gatewayInstalled
  {
    outbox := [];
    if !a.gatewayInstalled || bookId !in a.subs {
      return;
    }
    var title := titleOf[bookId];
    var all := a.subs[bookId];
    var pending := all;
    ghost var done: set<string> := {};
    while pending != {}
      invariant pending <= all && done == all - pending
      invariant |outbox| == |done|
      invariant forall i | 0 <= i < |outbox| ::
        outbox[i].reader in done && outbox[i] == NoticeFor(outbox[i].reader, emailOf[outbox[i].reader], title)
      invariant forall rid | rid in done :: NoticeFor(rid, emailOf[rid], title) in outbox
      invariant forall i, j | 0 <= i < j < |outbox| :: outbox[i].reader != outbox[j].reader
      decreases |pending|
    {
      var rid :| rid in pending;
      outbox := outbox + [NoticeFor(rid, emailOf[rid], title)];
      pending := pending - {rid};
      done := done + {rid};
    }
  }

  // ---- Properties of the subscription table ----

  lemma SubscribeIdempotent(a: BioAlert, bookId: string, readerId: string)
    ensures Subscribe(Subscribe(a, bookId, readerId), bookId, readerId) == Subscribe(a, bookId, readerId)
  {
    var once := Subscribe(a, bookId, readerId);
    assert Subscribers(once, bookId) + {readerId} == Subscribers(once, bookId);
  }

  /** Until a gateway is installed, a notification sends nothing. */
  lemma SilentWithoutGateway(a: BioAlert, bookId: string,
                             emailOf: map<string, string>, titleOf: map<string, string>)
    requires !a.gatewayInstalled
    ensures NotifyAvailable(a, bookId, emailOf, titleOf) == {}
  {
  }

  /** After a reset, no notification is sent until readers subscribe again and a gateway is installed. */
  lemma ResetSilences(a: BioAlert, bookId: string, installed: bool,
                      emailOf: map<string, string>, titleOf: map<string, string>)
    ensures NotifyAvailable(SetGateway(Reset(a), installed), bookId, emailOf, titleOf) == {}
  {
    assert bookId !in SetGateway(Reset(a), installed).subs;
  }

  /** Subscribing twice, or by two readers, gives one notice per distinct reader. */
  lemma OneNoticePerSubscriber(a: BioAlert, bookId: string,
                               emailOf: map<string, string>, titleOf: map<string, string>)
    requires a.gatewayInstalled
    requires Resolvable(a, bookId, emailOf, titleOf)
    ensures |NotifyAvailable(a, bookId, emailOf, titleOf)| == |Subscribers(a, bookId)|
  {
    var sent := NotifyAvailable(a, bookId, emailOf, titleOf);
    var subs := Subscribers(a, bookId);
    var readers := set n | n in sent :: n.reader;
    assert readers == subs;
    ReaderTagIsInjective(sent);
  }

  lemma {:induction false} ReaderTagIsInjective(sent: set<Notice>)
    requires forall n, m | n in sent && m in sent && n.reader == m.reader :: n == m
    ensures |set n | n in sent :: n.reader| == |sent|
    decreases |sent|
  {
    if sent != {} {
      var n :| n in sent;
      var rest := sent - {n};
      ReaderTagIsInjective(rest);
      assert (set m | m in sent :: m.reader) == (set m | m in rest :: m.reader) + {n.reader};
      assert n.reader !in (set m | m in rest :: m.reader);
    } else {
      assert (set m | m in sent :: m.reader) == {};
    }
  }
}
