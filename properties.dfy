/**
  What the ledger promises: the invariant every command keeps, the way
  records may change over time, the outcome of each command (its success
  condition, its effect and its rejection kinds) and the meaning of the
  queries.
 */
module LedgerProperties {
  import opened Ledger
  import Messages

  // ---------------------------------------------------------------------
  // The invariant is kept by every command.
  // ---------------------------------------------------------------------

  lemma TicketsForInsert(tickets: map<int, Ticket>, id: int, t: Ticket, eventId: int)
    requires id !in tickets
    ensures TicketsFor(tickets[id := t], eventId)
            == TicketsFor(tickets, eventId) + (if t.eventId == eventId then {id} else {})
    ensures t.eventId == eventId ==> |TicketsFor(tickets[id := t], eventId)| == |TicketsFor(tickets, eventId)| + 1
    ensures t.eventId != eventId ==> |TicketsFor(tickets[id := t], eventId)| == |TicketsFor(tickets, eventId)|
  {
  }

  lemma TicketsForRedeem(tickets: map<int, Ticket>, id: int, eventId: int)
    requires id in tickets
    ensures TicketsFor(tickets[id := tickets[id].(isUsed := true)], eventId) == TicketsFor(tickets, eventId)
  {
  }

  lemma CreateEventKeepsValid(s: Store, caller: Address, value: nat, name: string, date: int,
                              ticketPrice: nat, maxTickets: int)
    requires Valid(s)
    ensures Valid(CreateEvent(s, caller, value, name, date, ticketPrice, maxTickets).store)
  {
    if 0 < maxTickets {
      var s' := CreateEvent(s, caller, value, name, date, ticketPrice, maxTickets).store;
      var n := s.nextEventId;
      assert TicketsFor(s.tickets, n) == {} by {
        forall t | t in s.tickets ensures s.tickets[t].eventId != n {
          assert s.tickets[t].eventId in s.events;
        }
      }
      forall i | i in s'.events ensures EventOk(s', i) {
        if i != n {
          assert EventOk(s, i);
        }
      }
    }
  }

  lemma BuyTicketKeepsValid(s: Store, caller: Address, value: nat, eventId: int)
    requires Valid(s)
    ensures Valid(BuyTicket(s, caller, value, eventId).store)
  {
    var o := BuyTicket(s, caller, value, eventId);
    if o.reply.TicketBought? {
      var s' := o.store;
      var id := s.nextTicketId;
      var t := Ticket(id, eventId, caller, false);
      assert id !in s.tickets;
      assert s'.tickets == s.tickets[id := t];
      forall i | i in s'.events ensures EventOk(s', i) {
        TicketsForInsert(s.tickets, id, t, i);
        assert EventOk(s, i);
      }
    }
  }

  lemma UseTicketKeepsValid(s: Store, caller: Address, value: nat, ticketId: int)
    requires Valid(s)
    ensures Valid(UseTicket(s, caller, value, ticketId).store)
  {
    var o := UseTicket(s, caller, value, ticketId);
    if o.reply == TicketUsed {
      var s' := o.store;
      forall i | i in s'.events ensures EventOk(s', i) {
        TicketsForRedeem(s.tickets, ticketId, i);
        assert EventOk(s, i);
      }
    }
  }

  lemma DeactivateEventKeepsValid(s: Store, caller: Address, value: nat, eventId: int)
    requires Valid(s)
    ensures Valid(DeactivateEvent(s, caller, value, eventId).store)
  {
  }

  lemma ApplyKeepsValid(s: Store, m: Messages.Message)
    requires Valid(s)
    ensures Valid(Messages.Apply(s, m).store)
  {
    match m.command
    case CreateEvent(name, date, price, max) =>
      CreateEventKeepsValid(s, m.sender, m.value, name, date, price, max);
    case BuyTicket(eventId) => BuyTicketKeepsValid(s, m.sender, m.value, eventId);
    case UseTicket(ticketId) => UseTicketKeepsValid(s, m.sender, m.value, ticketId);
    case DeactivateEvent(eventId) => DeactivateEventKeepsValid(s, m.sender, m.value, eventId);
  }

  /** Every reachable state satisfies the invariant, in particular `ticketsSold <= maxTickets`. */
  lemma {:induction false} RunKeepsValid(s: Store, ms: seq<Messages.Message>)
    requires Valid(s)
    ensures Valid(Messages.Run(s, ms).store)
    decreases |ms|
  {
    if ms != [] {
      ApplyKeepsValid(s, ms[0]);
      RunKeepsValid(Messages.Apply(s, ms[0]).store, ms[1..]);
    }
  }

  lemma RejectionChangesNothing(s: Store, m: Messages.Message)
    ensures Messages.Apply(s, m).reply.Rejected? ==> Messages.Apply(s, m).store == s
  {
  }

  // ---------------------------------------------------------------------
  // Records are never deleted; their identities never change; `isActive`
  // only goes from true to false and `isUsed` only from false to true.
  // ---------------------------------------------------------------------

  ghost predicate EventEvolves(e: Event, e': Event)
  {
    && e'.id == e.id && e'.creator == e.creator && e'.name == e.name && e'.date == e.date
    && e'.ticketPrice == e.ticketPrice && e'.maxTickets == e.maxTickets
    && e.ticketsSold <= e'.ticketsSold
    && (!e.isActive ==> !e'.isActive)
  }

  ghost predicate TicketEvolves(t: Ticket, t': Ticket)
  {
    && t'.id == t.id && t'.eventId == t.eventId && t'.owner == t.owner
    && (t.isUsed ==> t'.isUsed)
  }

  ghost predicate Evolves(s: Store, s': Store)
  {
    && s.nextEventId <= s'.nextEventId
    && s.nextTicketId <= s'.nextTicketId
    && (forall i :: i in s.events ==> i in s'.events && EventEvolves(s.events[i], s'.events[i]))
    && (forall t :: t in s.tickets ==> t in s'.tickets && TicketEvolves(s.tickets[t], s'.tickets[t]))
  }

  lemma ApplyEvolves(s: Store, m: Messages.Message)
    requires Valid(s)
    ensures Evolves(s, Messages.Apply(s, m).store)
  {
  }

  lemma {:induction false} RunEvolves(s: Store, ms: seq<Messages.Message>)
    requires Valid(s)
    ensures Evolves(s, Messages.Run(s, ms).store)
    decreases |ms|
  {
    if ms != [] {
      var s1 := Messages.Apply(s, ms[0]).store;
      ApplyEvolves(s, ms[0]);
      ApplyKeepsValid(s, ms[0]);
      RunEvolves(s1, ms[1..]);
    }
  }

  // ---------------------------------------------------------------------
  // CreateEvent
  // ---------------------------------------------------------------------

  /** The record CreateEvent stores for a message that creates an event. */
  ghost function Created(m: Messages.Message, id: int): Event
    requires m.command.CreateEvent? && 0 < m.command.maxTickets
  {
    Event(id, m.sender, m.command.name, m.command.date, m.command.ticketPrice,
          m.command.maxTickets as nat, 0, true)
  }

  lemma ActiveUpToFrame(a: map<int, Event>, b: map<int, Event>, n: nat)
    requires forall i :: 0 <= i < n ==> (i in a <==> i in b)
    requires forall i :: 0 <= i < n && i in a ==> a[i] == b[i]
    ensures ActiveUpTo(a, n) == ActiveUpTo(b, n)
  {
  }

  /**
    A creation with a positive capacity takes the next event id and stores
    an active event with no tickets sold, appended to the active events;
    any other capacity is rejected and changes nothing.
   */
  lemma CreateEventOutcome(s: Store, caller: Address, value: nat, name: string, date: int,
                           ticketPrice: nat, maxTickets: int)
    requires Valid(s)
    ensures var o := CreateEvent(s, caller, value, name, date, ticketPrice, maxTickets);
            maxTickets <= 0 ==> o == Outcome(s, Rejected(InvalidParameters))
    ensures var o := CreateEvent(s, caller, value, name, date, ticketPrice, maxTickets);
            var id := s.nextEventId;
            0 < maxTickets ==>
              var e := Event(id, caller, name, date, ticketPrice, maxTickets as nat, 0, true);
              && o.reply == EventCreated(id)
              && o.store.nextEventId == id + 1
              && GetEvent(o.store, id) == Some(e)
              && (forall i :: i != id ==> GetEvent(o.store, i) == GetEvent(s, i))
              && o.store.tickets == s.tickets && o.store.nextTicketId == s.nextTicketId
              && ActiveEvents(o.store) == ActiveEvents(s) + [e]
  {
    if 0 < maxTickets {
      var o := CreateEvent(s, caller, value, name, date, ticketPrice, maxTickets);
      var id := s.nextEventId;
      ActiveUpToFrame(o.store.events, s.events, id);
    }
  }

  /** One creation message with a positive capacity stores `Created(m, id)` under the next id. */
  lemma CreationStep(s: Store, m: Messages.Message)
    requires Valid(s)
    requires m.command.CreateEvent? && 0 < m.command.maxTickets
    ensures var o := Messages.Apply(s, m);
            && Valid(o.store)
            && o.reply == EventCreated(s.nextEventId)
            && o.store.nextEventId == s.nextEventId + 1
            && o.store.events == s.events[s.nextEventId := Created(m, s.nextEventId)]
            && o.store.tickets == s.tickets
  {
    CreateEventKeepsValid(s, m.sender, m.value, m.command.name, m.command.date,
                          m.command.ticketPrice, m.command.maxTickets);
  }

  /** A run of creations answers consecutive ids and leaves the tickets alone. */
  lemma {:induction false} CreationReplies(s: Store, ms: seq<Messages.Message>)
    requires Valid(s)
    requires forall k :: 0 <= k < |ms| ==> ms[k].command.CreateEvent? && 0 < ms[k].command.maxTickets
    ensures var t := Messages.Run(s, ms);
            && t.store.nextEventId == s.nextEventId + |ms|
            && (forall k :: 0 <= k < |ms| ==> t.replies[k] == EventCreated(s.nextEventId + k))
            && t.store.tickets == s.tickets
    decreases |ms|
  {
    if ms != [] {
      var o := Messages.Apply(s, ms[0]);
      CreationStep(s, ms[0]);
      CreationReplies(o.store, ms[1..]);
      var t := Messages.Run(s, ms);
      var rest := Messages.Run(o.store, ms[1..]);
      assert t.replies == [o.reply] + rest.replies;
      forall k | 0 < k < |ms|
        ensures t.replies[k] == EventCreated(s.nextEventId + k)
      {
        assert ms[1..][k - 1] == ms[k];
        assert t.replies[k] == rest.replies[k - 1];
      }
    }
  }

  /** A run of creations stores `Created(ms[k], ..)` under the k-th new id and keeps the older events. */
  lemma {:induction false} CreationRecords(s: Store, ms: seq<Messages.Message>)
    requires Valid(s)
    requires forall k :: 0 <= k < |ms| ==> ms[k].command.CreateEvent? && 0 < ms[k].command.maxTickets
    ensures var t := Messages.Run(s, ms);
            && (forall k :: 0 <= k < |ms| ==>
                  GetEvent(t.store, s.nextEventId + k) == Some(Created(ms[k], s.nextEventId + k)))
            && (forall i :: i in s.events ==> i in t.store.events && t.store.events[i] == s.events[i])
    decreases |ms|
  {
    if ms != [] {
      var n := s.nextEventId;
      var o := Messages.Apply(s, ms[0]);
      CreationStep(s, ms[0]);
      CreationRecords(o.store, ms[1..]);
      var t := Messages.Run(s, ms);
      assert t.store == Messages.Run(o.store, ms[1..]).store;
      forall k | 0 < k < |ms|
        ensures GetEvent(t.store, n + k) == Some(Created(ms[k], n + k))
      {
        assert ms[1..][k - 1] == ms[k];
      }
    }
  }

  /** A run of creations numbers the new events consecutively, in message order. */
  lemma {:induction false} CreationsNumberedInOrder(s: Store, ms: seq<Messages.Message>)
    requires Valid(s)
    requires forall k :: 0 <= k < |ms| ==> ms[k].command.CreateEvent? && 0 < ms[k].command.maxTickets
    ensures var t := Messages.Run(s, ms);
            && t.store.nextEventId == s.nextEventId + |ms|
            && (forall k :: 0 <= k < |ms| ==> t.replies[k] == EventCreated(s.nextEventId + k))
            && (forall k :: 0 <= k < |ms| ==>
                  GetEvent(t.store, s.nextEventId + k) == Some(Created(ms[k], s.nextEventId + k)))
            && (forall i :: i in s.events ==> i in t.store.events && t.store.events[i] == s.events[i])
            && t.store.tickets == s.tickets
  {
    CreationReplies(s, ms);
    CreationRecords(s, ms);
  }

  // ---------------------------------------------------------------------
  // BuyTicket
  // ---------------------------------------------------------------------

  /**
    A purchase succeeds exactly when the event exists, is active, is not
    sold out and the attached value covers the price; it then issues the
    next ticket id to the caller, unused, adds one to the event's counter,
    and the caller can prove ownership.
   */
  lemma BuyTicketSucceeds(s: Store, caller: Address, value: nat, eventId: int)
    requires Valid(s)
    ensures var o := BuyTicket(s, caller, value, eventId);
            o.reply.TicketBought? <==>
              && eventId in s.events
              && s.events[eventId].isActive
              && s.events[eventId].ticketsSold < s.events[eventId].maxTickets
              && s.events[eventId].ticketPrice <= value
    ensures var o := BuyTicket(s, caller, value, eventId);
            var id := s.nextTicketId;
            o.reply.TicketBought? ==>
              && o.reply.ticketId == id
              && GetTicket(o.store, id) == Some(Ticket(id, eventId, caller, false))
              && GetEvent(o.store, eventId).Some?
              && GetEvent(o.store, eventId).value
                 == s.events[eventId].(ticketsSold := s.events[eventId].ticketsSold + 1)
              && (forall i :: i != eventId ==> GetEvent(o.store, i) == GetEvent(s, i))
              && (forall t :: t != id ==> GetTicket(o.store, t) == GetTicket(s, t))
              && o.store.nextTicketId == id + 1 && o.store.nextEventId == s.nextEventId
              && VerifyTicket(o.store, eventId, caller)
  {
  }

  /** Any other purchase is rejected, with the first failing check's kind, and changes nothing. */
  lemma BuyTicketRejections(s: Store, caller: Address, value: nat, eventId: int)
    ensures var o := BuyTicket(s, caller, value, eventId);
            o.reply.Rejected? ==> o.store == s
    ensures var o := BuyTicket(s, caller, value, eventId);
            eventId !in s.events ==> o.reply == Rejected(EventNotFound)
    ensures var o := BuyTicket(s, caller, value, eventId);
            eventId in s.events && !s.events[eventId].isActive ==> o.reply == Rejected(EventInactive)
    ensures var o := BuyTicket(s, caller, value, eventId);
            eventId in s.events && s.events[eventId].isActive
            && s.events[eventId].ticketsSold >= s.events[eventId].maxTickets
            ==> o.reply == Rejected(SoldOut)
    ensures var o := BuyTicket(s, caller, value, eventId);
            eventId in s.events && s.events[eventId].isActive
            && s.events[eventId].ticketsSold < s.events[eventId].maxTickets
            && value < s.events[eventId].ticketPrice
            ==> o.reply == Rejected(InsufficientPayment)
  {
  }

  /** An underpaid purchase always fails and leaves the counter where it was. */
  lemma UnderpaymentRejected(s: Store, caller: Address, value: nat, eventId: int)
    requires eventId in s.events && value < s.events[eventId].ticketPrice
    ensures BuyTicket(s, caller, value, eventId).reply.Rejected?
    ensures BuyTicket(s, caller, value, eventId).store == s
  {
  }

  /** The number of messages in `ms` that bought a ticket for `eventId`, by their replies. */
  function SalesFor(ms: seq<Messages.Message>, replies: seq<Reply>, eventId: int): (n: nat)
    requires |replies| == |ms|
    ensures n <= |ms|
  {
    if ms == [] then 0
    else
      (if ms[0].command == Messages.BuyTicket(eventId) && replies[0].TicketBought? then 1 else 0)
      + SalesFor(ms[1..], replies[1..], eventId)
  }

  /** One message raises an event's counter by one exactly when it bought a ticket for that event. */
  lemma SaleStep(s: Store, m: Messages.Message, eventId: int)
    requires Valid(s) && eventId in s.events
    ensures var o := Messages.Apply(s, m);
            && eventId in o.store.events
            && o.store.events[eventId].ticketsSold
               == s.events[eventId].ticketsSold
                  + (if m.command == Messages.BuyTicket(eventId) && o.reply.TicketBought? then 1 else 0)
  {
  }

  /** Over any run, an event's counter grows by exactly the purchases for it that succeeded. */
  lemma {:induction false} SalesCounted(s: Store, ms: seq<Messages.Message>, eventId: int)
    requires Valid(s) && eventId in s.events
    ensures var t := Messages.Run(s, ms);
            && eventId in t.store.events
            && t.store.events[eventId].ticketsSold
               == s.events[eventId].ticketsSold + SalesFor(ms, t.replies, eventId)
    decreases |ms|
  {
    if ms != [] {
      var o := Messages.Apply(s, ms[0]);
      SaleStep(s, ms[0], eventId);
      ApplyKeepsValid(s, ms[0]);
      SalesCounted(o.store, ms[1..], eventId);
      var t := Messages.Run(s, ms);
      var rest := Messages.Run(o.store, ms[1..]);
      assert t.store == rest.store;
      assert t.replies[0] == o.reply;
      assert t.replies[1..] == rest.replies;
    }
  }

  /**
    Over any run, the successful purchases for an event are exactly what its
    counter grew by, so an event never sells more than `maxTickets` tickets:
    once that many are sold, every further purchase fails with `SoldOut`.
   */
  lemma SalesWithinCapacity(s: Store, ms: seq<Messages.Message>, eventId: int)
    requires Valid(s) && eventId in s.events
    ensures var t := Messages.Run(s, ms);
            && eventId in t.store.events
            && t.store.events[eventId].ticketsSold
               == s.events[eventId].ticketsSold + SalesFor(ms, t.replies, eventId)
            && s.events[eventId].ticketsSold + SalesFor(ms, t.replies, eventId)
               <= s.events[eventId].maxTickets
  {
    SalesCounted(s, ms, eventId);
    RunKeepsValid(s, ms);
    RunEvolves(s, ms);
    var t := Messages.Run(s, ms);
    assert EventOk(t.store, eventId);
  }

  lemma SoldOutRejected(s: Store, caller: Address, value: nat, eventId: int)
    requires Valid(s) && eventId in s.events && s.events[eventId].isActive
    requires s.events[eventId].ticketsSold == s.events[eventId].maxTickets
    ensures BuyTicket(s, caller, value, eventId) == Outcome(s, Rejected(SoldOut))
  {
  }

  // ---------------------------------------------------------------------
  // UseTicket
  // ---------------------------------------------------------------------

  lemma UseTicketOutcome(s: Store, caller: Address, value: nat, ticketId: int)
    ensures var o := UseTicket(s, caller, value, ticketId);
            ticketId !in s.tickets ==> o == Outcome(s, Rejected(TicketNotFound))
    ensures var o := UseTicket(s, caller, value, ticketId);
            ticketId in s.tickets && s.tickets[ticketId].isUsed
            ==> o == Outcome(s, Rejected(TicketAlreadyUsed))
    ensures var o := UseTicket(s, caller, value, ticketId);
            ticketId in s.tickets && !s.tickets[ticketId].isUsed ==>
              && o.reply == TicketUsed
              && GetTicket(o.store, ticketId) == Some(s.tickets[ticketId].(isUsed := true))
              && (forall t :: t != ticketId ==> GetTicket(o.store, t) == GetTicket(s, t))
              && o.store.events == s.events
              && o.store.nextEventId == s.nextEventId && o.store.nextTicketId == s.nextTicketId
  {
  }

  /**
    Once UseTicket has been applied to a stored ticket, whatever messages
    follow, every later UseTicket on it fails with `TicketAlreadyUsed`.
   */
  lemma RedeemedOnlyOnce(s: Store, caller: Address, value: nat, ticketId: int,
                         ms: seq<Messages.Message>, caller': Address, value': nat)
    requires Valid(s) && ticketId in s.tickets
    ensures var s1 := UseTicket(s, caller, value, ticketId).store;
            var later := Messages.Run(s1, ms).store;
            UseTicket(later, caller', value', ticketId) == Outcome(later, Rejected(TicketAlreadyUsed))
  {
    var s1 := UseTicket(s, caller, value, ticketId).store;
    UseTicketKeepsValid(s, caller, value, ticketId);
    RunEvolves(s1, ms);
  }

  // ---------------------------------------------------------------------
  // DeactivateEvent
  // ---------------------------------------------------------------------

  /**
    Deactivation succeeds exactly when the caller is the event's creator; a
    stranger is rejected with `NotAuthorized` and the event stays as it was.
   */
  lemma DeactivateEventOutcome(s: Store, caller: Address, value: nat, eventId: int)
    ensures var o := DeactivateEvent(s, caller, value, eventId);
            eventId !in s.events ==> o == Outcome(s, Rejected(EventNotFound))
    ensures var o := DeactivateEvent(s, caller, value, eventId);
            eventId in s.events ==> (o.reply == EventDeactivated <==> caller == s.events[eventId].creator)
    ensures var o := DeactivateEvent(s, caller, value, eventId);
            eventId in s.events && caller != s.events[eventId].creator
            ==> o == Outcome(s, Rejected(NotAuthorized))
    ensures var o := DeactivateEvent(s, caller, value, eventId);
            eventId in s.events && caller == s.events[eventId].creator ==>
              && GetEvent(o.store, eventId) == Some(s.events[eventId].(isActive := false))
              && (forall i :: i != eventId ==> GetEvent(o.store, i) == GetEvent(s, i))
              && o.store.tickets == s.tickets
              && o.store.nextEventId == s.nextEventId && o.store.nextTicketId == s.nextTicketId
  {
  }

  /** An inactive event stays inactive whatever follows, and sells no more tickets. */
  lemma DeactivationIsFinal(s: Store, eventId: int, ms: seq<Messages.Message>,
                            caller: Address, value: nat)
    requires Valid(s) && eventId in s.events && !s.events[eventId].isActive
    ensures var later := Messages.Run(s, ms).store;
            && eventId in later.events && !later.events[eventId].isActive
            && BuyTicket(later, caller, value, eventId) == Outcome(later, Rejected(EventInactive))
  {
    RunEvolves(s, ms);
  }

  // ---------------------------------------------------------------------
  // Queries
  // ---------------------------------------------------------------------

  lemma {:induction false} ActiveUpToExactly(events: map<int, Event>, n: nat)
    requires forall i :: i in events ==> events[i].id == i
    ensures forall k :: 0 <= k < |ActiveUpTo(events, n)| ==>
              var e := ActiveUpTo(events, n)[k];
              0 <= e.id < n && e.id in events && events[e.id] == e && e.isActive
    ensures forall i :: 0 <= i < n && i in events && events[i].isActive ==> events[i] in ActiveUpTo(events, n)
    ensures forall j, k :: 0 <= j < k < |ActiveUpTo(events, n)| ==>
              ActiveUpTo(events, n)[j].id < ActiveUpTo(events, n)[k].id
  {
    if n > 0 {
      var m := n - 1;
      ActiveUpToExactly(events, m);
      var prefix := ActiveUpTo(events, m);
      var last := if m in events && events[m].isActive then [events[m]] else [];
      var r := ActiveUpTo(events, n);
      assert r == prefix + last;
      forall j | 0 <= j < |r|
        ensures 0 <= r[j].id < n && r[j].id in events && events[r[j].id] == r[j] && r[j].isActive
      {
        if j < |prefix| {
          assert r[j] == prefix[j];
          assert 0 <= prefix[j].id < m && prefix[j].id in events && events[prefix[j].id] == prefix[j];
        } else {
          assert m in events && r[j] == events[m];
          assert events[m].id == m;
        }
      }
      forall i, j | 0 <= i < j < |r| ensures r[i].id < r[j].id {
        if j >= |prefix| {
          assert r[i] == prefix[i];
        } else {
          assert r[i] == prefix[i] && r[j] == prefix[j];
        }
      }
      forall i | 0 <= i < n && i in events && events[i].isActive
        ensures events[i] in ActiveUpTo(events, n)
      {
        if i < m {
          assert events[i] in prefix;
        } else {
          assert events[i] in last;
        }
      }
    }
  }

  /** `getActiveEvents` lists exactly the active events, in strictly ascending id order. */
  lemma ActiveEventsExactly(s: Store)
    requires Valid(s)
    ensures forall e :: e in ActiveEvents(s) <==> e.id in s.events && s.events[e.id] == e && e.isActive
    ensures var r := ActiveEvents(s);
            forall j, k :: 0 <= j < k < |r| ==> r[j].id < r[k].id
  {
    ActiveUpToExactly(s.events, s.nextEventId);
  }

  lemma {:induction false} DeactivateUpTo(events: map<int, Event>, id: int, n: nat)
    requires id in events
    ensures |ActiveUpTo(events[id := events[id].(isActive := false)], n)|
            == |ActiveUpTo(events, n)| - (if 0 <= id < n && events[id].isActive then 1 else 0)
  {
    if n > 0 {
      var k := n - 1;
      var events' := events[id := events[id].(isActive := false)];
      DeactivateUpTo(events, id, k);
      assert ActiveUpTo(events', n)
             == ActiveUpTo(events', k) + (if k in events' && events'[k].isActive then [events'[k]] else []);
      assert ActiveUpTo(events, n)
             == ActiveUpTo(events, k) + (if k in events && events[k].isActive then [events[k]] else []);
    }
  }

  /**
    Deactivating an active event removes exactly that event from the active
    events and keeps every other one.
   */
  lemma DeactivationShrinksActiveEvents(s: Store, caller: Address, value: nat, eventId: int)
    requires Valid(s) && eventId in s.events && s.events[eventId].isActive
    requires caller == s.events[eventId].creator
    ensures var after := ActiveEvents(DeactivateEvent(s, caller, value, eventId).store);
            && |after| == |ActiveEvents(s)| - 1
            && (forall e :: e in after ==> e.id != eventId)
            && (forall e :: e in ActiveEvents(s) && e.id != eventId ==> e in after)
            && (forall e :: e in after ==> e in ActiveEvents(s))
  {
    var s' := DeactivateEvent(s, caller, value, eventId).store;
    DeactivateEventKeepsValid(s, caller, value, eventId);
    DeactivateUpTo(s.events, eventId, s.nextEventId);
    ActiveEventsExactly(s);
    ActiveEventsExactly(s');
  }

  /** Ownership, once proved, stays provable: tickets are never deleted or transferred. */
  lemma OwnershipPersists(s: Store, eventId: int, owner: Address, ms: seq<Messages.Message>)
    requires Valid(s) && VerifyTicket(s, eventId, owner)
    ensures VerifyTicket(Messages.Run(s, ms).store, eventId, owner)
  {
    var t :| t in s.tickets && s.tickets[t].eventId == eventId && s.tickets[t].owner == owner;
    RunEvolves(s, ms);
    var later := Messages.Run(s, ms).store;
    assert t in later.tickets && later.tickets[t].eventId == eventId && later.tickets[t].owner == owner;
  }
}
