/**
  The messages the contract receives, as one closed sum type, and the
  dispatcher that applies them one at a time to the ledger.
 */
module Messages {
  import opened Ledger

  /** The internal messages of the contract, one case per `$$type`. */
  datatype Command =
    | CreateEvent(name: string, date: int, ticketPrice: nat, maxTickets: int)
    | BuyTicket(eventId: int)
    | UseTicket(ticketId: int)
    | DeactivateEvent(eventId: int)

  /** A message as the host delivers it: sender, attached value, body. */
  datatype Message = Message(sender: Address, value: nat, command: Command)

  /** The store after a run of messages and the reply to each message, in order. */
  datatype Trace = Trace(store: Store, replies: seq<Reply>)

  /** Each message is answered with its own kind of reply, or rejected without any change. */
  function Apply(s: Store, m: Message): (o: Outcome)
    ensures o.reply.Rejected? ==> o.store == s
    ensures m.command.CreateEvent? ==> o.reply.EventCreated? || o.reply.Rejected?
    ensures m.command.BuyTicket? ==> o.reply.TicketBought? || o.reply.Rejected?
    ensures m.command.UseTicket? ==> o.reply == TicketUsed || o.reply.Rejected?
    ensures m.command.DeactivateEvent? ==> o.reply == EventDeactivated || o.reply.Rejected?
  {
    match m.command
    case CreateEvent(name, date, price, max) =>
      Ledger.CreateEvent(s, m.sender, m.value, name, date, price, max)
    case BuyTicket(eventId) => Ledger.BuyTicket(s, m.sender, m.value, eventId)
    case UseTicket(ticketId) => Ledger.UseTicket(s, m.sender, m.value, ticketId)
    case DeactivateEvent(eventId) => Ledger.DeactivateEvent(s, m.sender, m.value, eventId)
  }

  /** Processes the messages strictly in order, each to completion before the next. */
  function Run(s: Store, ms: seq<Message>): (t: Trace)
    ensures |t.replies| == |ms|
    decreases |ms|
  {
    if ms == [] then Trace(s, [])
    else
      var o := Apply(s, ms[0]);
      var rest := Run(o.store, ms[1..]);
      Trace(rest.store, [o.reply] + rest.replies)
  }

  /** Running `a + b` is running `a`, then running `b` from where `a` left the store. */
  lemma {:induction false} RunAppend(s: Store, a: seq<Message>, b: seq<Message>)
    ensures var ta := Run(s, a);
            var tb := Run(ta.store, b);
            Run(s, a + b) == Trace(tb.store, ta.replies + tb.replies)
    decreases |a|
  {
    if a == [] {
      assert a + b == b;
    } else {
      assert (a + b)[0] == a[0];
      assert (a + b)[1..] == a[1..] + b;
      RunAppend(Apply(s, a[0]).store, a[1..], b);
    }
  }

  /** The k-th reply is the reply to the k-th message, on the store the earlier messages left. */
  lemma RunReplyAt(s: Store, ms: seq<Message>, k: nat)
    requires k < |ms|
    ensures Run(s, ms).replies[k] == Apply(Run(s, ms[..k]).store, ms[k]).reply
  {
    RunAppend(s, ms[..k], ms[k..]);
    assert ms[..k] + ms[k..] == ms;
    assert ms[k..][0] == ms[k];
  }
}
