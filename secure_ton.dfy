/**
  The SecureTon contract as a mutable object: the event map, the ticket map
  and the two id counters are fields that each command updates in place.
  Every command method keeps the ledger invariant and leaves exactly the
  state, and returns exactly the reply, that the value-level model in
  module Ledger prescribes; the properties proved there therefore hold of
  every sequence of calls on an object.
 */
module SecureTon {
  import opened Ledger
  import Messages
  import LedgerProperties

  class TicketSystem {
    var events: map<int, Event>
    var tickets: map<int, Ticket>
    var nextEventId: nat
    var nextTicketId: nat

    /** The persistent state as one value (what the host stores between messages). */
    function Snapshot(): Store
      reads this
    {
      Store(events, tickets, nextEventId, nextTicketId)
    }

    ghost predicate Valid()
      reads this
    {
      Ledger.Valid(Snapshot())
    }

    /** A freshly deployed contract: no events, no tickets. */
    constructor ()
      ensures Valid() && Snapshot() == Empty()
    {
      events, tickets := map[], map[];
      nextEventId, nextTicketId := 0, 0;
    }

    method CreateEvent(caller: Address, value: nat, name: string, date: int,
                       ticketPrice: nat, maxTickets: int) returns (reply: Reply)
      requires Valid()
      modifies this
      ensures Valid()
      ensures Outcome(Snapshot(), reply)
              == Ledger.CreateEvent(old(Snapshot()), caller, value, name, date, ticketPrice, maxTickets)
    {
      LedgerProperties.CreateEventKeepsValid(Snapshot(), caller, value, name, date, ticketPrice, maxTickets);
      if maxTickets <= 0 {
        return Rejected(InvalidParameters);
      }
      var id := nextEventId;
      events := events[id := Event(id, caller, name, date, ticketPrice, maxTickets as nat, 0, true)];
      nextEventId := id + 1;
      reply := EventCreated(id);
    }

    method BuyTicket(caller: Address, value: nat, eventId: int) returns (reply: Reply)
      requires Valid()
      modifies this
      ensures Valid()
      ensures Outcome(Snapshot(), reply) == Ledger.BuyTicket(old(Snapshot()), caller, value, eventId)
    {
      LedgerProperties.BuyTicketKeepsValid(Snapshot(), caller, value, eventId);
      if eventId !in events {
        return Rejected(EventNotFound);
      }
      var e := events[eventId];
      if !e.isActive {
        return Rejected(EventInactive);
      }
      if e.ticketsSold >= e.maxTickets {
        return Rejected(SoldOut);
      }
      if value < e.ticketPrice {
        return Rejected(InsufficientPayment);
      }
      var id := nextTicketId;
      tickets := tickets[id := Ticket(id, eventId, caller, false)];
      events := events[eventId := e.(ticketsSold := e.ticketsSold + 1)];
      nextTicketId := id + 1;
      reply := TicketBought(id);
    }

    method UseTicket(caller: Address, value: nat, ticketId: int) returns (reply: Reply)
      requires Valid()
      modifies this
      ensures Valid()
      ensures Outcome(Snapshot(), reply) == Ledger.UseTicket(old(Snapshot()), caller, value, ticketId)
    {
      LedgerProperties.UseTicketKeepsValid(Snapshot(), caller, value, ticketId);
      if ticketId !in tickets {
        return Rejected(TicketNotFound);
      }
      var t := tickets[ticketId];
      if t.isUsed {
        return Rejected(TicketAlreadyUsed);
      }
      tickets := tickets[ticketId := t.(isUsed := true)];
      reply := TicketUsed;
    }

    method DeactivateEvent(caller: Address, value: nat, eventId: int) returns (reply: Reply)
      requires Valid()
      modifies this
      ensures Valid()
      ensures Outcome(Snapshot(), reply) == Ledger.DeactivateEvent(old(Snapshot()), caller, value, eventId)
    {
      LedgerProperties.DeactivateEventKeepsValid(Snapshot(), caller, value, eventId);
      if eventId !in events {
        return Rejected(EventNotFound);
      }
      var e := events[eventId];
      if caller != e.creator {
        return Rejected(NotAuthorized);
      }
      events := events[eventId := e.(isActive := false)];
      reply := EventDeactivated;
    }

    /** Receives one internal message from `sender` carrying `value` nanotons. */
    method Send(sender: Address, value: nat, command: Messages.Command) returns (reply: Reply)
      requires Valid()
      modifies this
      ensures Valid()
      ensures Outcome(Snapshot(), reply)
              == Messages.Apply(old(Snapshot()), Messages.Message(sender, value, command))
    {
      match command
      case CreateEvent(name, date, price, max) =>
        reply := CreateEvent(sender, value, name, date, price, max);
      case BuyTicket(eventId) =>
        reply := BuyTicket(sender, value, eventId);
      case UseTicket(ticketId) =>
        reply := UseTicket(sender, value, ticketId);
      case DeactivateEvent(eventId) =>
        reply := DeactivateEvent(sender, value, eventId);
    }

    // The contract's get methods, read off the current state.

    function GetEvent(id: int): (r: Option<Event>)
      reads this
      ensures Valid() ==> (r.Some? <==> 0 <= id < nextEventId)
      ensures r.Some? ==> id in events && r.value == events[id]
    {
      Ledger.GetEvent(Snapshot(), id)
    }

    function GetTicket(id: int): (r: Option<Ticket>)
      reads this
      ensures Valid() ==> (r.Some? <==> 0 <= id < nextTicketId)
      ensures r.Some? ==> id in tickets && r.value == tickets[id]
    {
      Ledger.GetTicket(Snapshot(), id)
    }

    predicate VerifyTicket(eventId: int, owner: Address)
      reads this
      ensures VerifyTicket(eventId, owner) <==>
                exists t :: t in tickets && tickets[t].eventId == eventId && tickets[t].owner == owner
      ensures Valid() && VerifyTicket(eventId, owner) ==> 0 <= eventId < nextEventId
    {
      Ledger.VerifyTicket(Snapshot(), eventId, owner)
    }

    function GetActiveEvents(): (r: seq<Event>)
      reads this
      ensures |r| <= nextEventId
      ensures forall k :: 0 <= k < |r| ==> r[k].isActive
    {
      Ledger.ActiveEvents(Snapshot())
    }
  }
}
