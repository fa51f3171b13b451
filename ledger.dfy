/**
  The event-ticketing ledger of the SecureTon contract, as values.

  A `Store` is one snapshot of the contract's persistent state: the event
  map, the ticket map and the two id counters.  Each command is a function
  from the store before the message to an `Outcome`: the store after it and
  the reply the host turns into a successful or a failed transaction.  A
  rejected command returns the store it was given.
 */
module Ledger {

  /** Caller identity, supplied by the host with every message (a TON address). */
  type Address = nat

  datatype Option<T> = None | Some(value: T)

  datatype Event = Event(
    id: int,
    creator: Address,
    name: string,
    date: int,          // an opaque timestamp; never compared with the clock
    ticketPrice: nat,   // in nanotons
    maxTickets: nat,
    ticketsSold: nat,
    isActive: bool)

  datatype Ticket = Ticket(id: int, eventId: int, owner: Address, isUsed: bool)

  /** Why a command was not applied. */
  datatype Rejection =
    | EventNotFound
    | TicketNotFound
    | EventInactive
    | SoldOut
    | InsufficientPayment
    | TicketAlreadyUsed
    | NotAuthorized
    | InvalidParameters

  /** What a command answers; every reply but `Rejected` is a successful transaction. */
  datatype Reply =
    | EventCreated(eventId: int)
    | TicketBought(ticketId: int)
    | TicketUsed
    | EventDeactivated
    | Rejected(reason: Rejection)

  datatype Store = Store(
    events: map<int, Event>,
    tickets: map<int, Ticket>,
    nextEventId: nat,
    nextTicketId: nat)

  datatype Outcome = Outcome(store: Store, reply: Reply)

  /** The tickets sold for event `eventId`, by ticket id. */
  ghost function TicketsFor(tickets: map<int, Ticket>, eventId: int): set<int>
  {
    set t | t in tickets && tickets[t].eventId == eventId
  }

  /** The facts every stored event keeps. */
  ghost predicate EventOk(s: Store, i: int)
    requires i in s.events
  {
    var e := s.events[i];
    && e.id == i
    && 0 < e.maxTickets
    && e.ticketsSold <= e.maxTickets
    && e.ticketsSold == |TicketsFor(s.tickets, i)|
  }

  /**
    The ledger's invariant: event and ticket ids are dense from 0, every
    record carries its own key, every ticket refers to a stored event, and
    every event's counter equals the number of its tickets and stays within
    its capacity.
   */
  ghost predicate Valid(s: Store)
  {
    && (forall i :: i in s.events <==> 0 <= i < s.nextEventId)
    && (forall i :: i in s.events ==> EventOk(s, i))
    && (forall t :: t in s.tickets <==> 0 <= t < s.nextTicketId)
    && (forall t :: t in s.tickets ==> s.tickets[t].id == t && s.tickets[t].eventId in s.events)
  }

  /** The state of a freshly deployed contract. */
  function Empty(): (s: Store)
    ensures Valid(s)
    ensures s.events == map[] && s.tickets == map[]
    ensures s.nextEventId == 0 && s.nextTicketId == 0
  {
    Store(map[], map[], 0, 0)
  }

  // ---------------------------------------------------------------------
  // Commands.  `caller` and `value` are the sender and the attached value
  // the host delivers with the message.
  // ---------------------------------------------------------------------

  /** Answers the new event's id; the attached value is not consulted. */
  function CreateEvent(s: Store, caller: Address, value: nat, name: string, date: int,
                       ticketPrice: nat, maxTickets: int): (o: Outcome)
    ensures o.reply.EventCreated? || o.reply == Rejected(InvalidParameters)
    ensures o.reply.Rejected? ==> o.store == s
    ensures o.reply.EventCreated? ==> o.reply.eventId == s.nextEventId && o.reply.eventId in o.store.events
  {
    if maxTickets <= 0 then
      Outcome(s, Rejected(InvalidParameters))
    else
      var id := s.nextEventId;
      var e := Event(id, caller, name, date, ticketPrice, maxTickets as nat, 0, true);
      Outcome(s.(events := s.events[id := e], nextEventId := id + 1), EventCreated(id))
  }

  /** Answers the new ticket's id; checks run in the order existence, activity, capacity, payment. */
  function BuyTicket(s: Store, caller: Address, value: nat, eventId: int): (o: Outcome)
    ensures o.reply.TicketBought? || o.reply.Rejected?
    ensures o.reply.Rejected? ==> o.store == s
    ensures o.reply.TicketBought? ==>
              && o.reply.ticketId == s.nextTicketId
              && eventId in s.events && s.events[eventId].ticketPrice <= value
              && o.reply.ticketId in o.store.tickets && o.store.tickets[o.reply.ticketId].owner == caller
  {
    if eventId !in s.events then
      Outcome(s, Rejected(EventNotFound))
    else
      var e := s.events[eventId];
      if !e.isActive then
        Outcome(s, Rejected(EventInactive))
      else if e.ticketsSold >= e.maxTickets then
        Outcome(s, Rejected(SoldOut))
      else if value < e.ticketPrice then
        Outcome(s, Rejected(InsufficientPayment))
      else
        var id := s.nextTicketId;
        var t := Ticket(id, eventId, caller, false);
        Outcome(Store(s.events[eventId := e.(ticketsSold := e.ticketsSold + 1)],
                      s.tickets[id := t], s.nextEventId, id + 1),
                TicketBought(id))
  }

  /** Redeems a ticket once; anyone holding the id may redeem it. */
  function UseTicket(s: Store, caller: Address, value: nat, ticketId: int): (o: Outcome)
    ensures o.reply == TicketUsed || o.reply.Rejected?
    ensures o.reply.Rejected? ==> o.store == s
    ensures o.reply == TicketUsed ==>
              ticketId in s.tickets && !s.tickets[ticketId].isUsed
              && ticketId in o.store.tickets && o.store.tickets[ticketId].isUsed
  {
    if ticketId !in s.tickets then
      Outcome(s, Rejected(TicketNotFound))
    else
      var t := s.tickets[ticketId];
      if t.isUsed then
        Outcome(s, Rejected(TicketAlreadyUsed))
      else
        Outcome(s.(tickets := s.tickets[ticketId := t.(isUsed := true)]), TicketUsed)
  }

  /** Only the event's creator may deactivate it. */
  function DeactivateEvent(s: Store, caller: Address, value: nat, eventId: int): (o: Outcome)
    ensures o.reply == EventDeactivated || o.reply.Rejected?
    ensures o.reply.Rejected? ==> o.store == s
    ensures o.reply == EventDeactivated ==>
              eventId in s.events && caller == s.events[eventId].creator
              && eventId in o.store.events && !o.store.events[eventId].isActive
  {
    if eventId !in s.events then
      Outcome(s, Rejected(EventNotFound))
    else
      var e := s.events[eventId];
      if caller != e.creator then
        Outcome(s, Rejected(NotAuthorized))
      else
        Outcome(s.(events := s.events[eventId := e.(isActive := false)]), EventDeactivated)
  }

  // ---------------------------------------------------------------------
  // Queries (get methods of the contract); none of them changes the store.
  // ---------------------------------------------------------------------

  function GetEvent(s: Store, id: int): (r: Option<Event>)
    ensures Valid(s) ==> (r.Some? <==> 0 <= id < s.nextEventId)
    ensures r.Some? ==> id in s.events && r.value == s.events[id]
    ensures Valid(s) && r.Some? ==> r.value.id == id
  {
    if id in s.events then Some(s.events[id]) else None
  }

  function GetTicket(s: Store, id: int): (r: Option<Ticket>)
    ensures Valid(s) ==> (r.Some? <==> 0 <= id < s.nextTicketId)
    ensures r.Some? ==> id in s.tickets && r.value == s.tickets[id]
    ensures Valid(s) && r.Some? ==> r.value.id == id && r.value.eventId in s.events
  {
    if id in s.tickets then Some(s.tickets[id]) else None
  }

  /** Whether `owner` holds a ticket for event `eventId`, used or not. */
  predicate VerifyTicket(s: Store, eventId: int, owner: Address)
    ensures Valid(s) && VerifyTicket(s, eventId, owner) ==> 0 <= eventId < s.nextEventId
  {
    exists t :: t in s.tickets && s.tickets[t].eventId == eventId && s.tickets[t].owner == owner
  }

  /** The active events among ids 0 .. n-1, in ascending id order. */
  function ActiveUpTo(events: map<int, Event>, n: nat): (r: seq<Event>)
    ensures |r| <= n
    ensures forall k :: 0 <= k < |r| ==> r[k].isActive
  {
    if n == 0 then []
    else
      var k := n - 1;
      ActiveUpTo(events, k) + (if k in events && events[k].isActive then [events[k]] else [])
  }

  /** Every event still active, in ascending id order. */
  function ActiveEvents(s: Store): (r: seq<Event>)
    ensures |r| <= s.nextEventId
    ensures forall k :: 0 <= k < |r| ==> r[k].isActive
  {
    ActiveUpTo(s.events, s.nextEventId)
  }
}
