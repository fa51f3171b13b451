/**
  The `EventTicketSystem` test suite, one method per test case.  Each method
  deploys a fresh contract, sends the messages its test (and the enclosing
  `beforeEach`) sends, reads the getters the test reads, and promises in its
  postcondition what the test expects.
 */
module EventTicketSystemSuite {
  import opened Ledger
  import Messages
  import SecureTon

  // Two distinct wallets.
  const User1: Address := 1
  const User2: Address := 2

  // Attached values and prices in nanotons (toNano).
  const OneTon: nat := 1_000_000_000
  const TenthTon: nat := 100_000_000
  const HalfTon: nat := 500_000_000
  const PricePlusGas: nat := 1_100_000_000

  function TestEvent(name: string, date: int): Messages.Command
  {
    Messages.CreateEvent(name, date, OneTon, 100)
  }

  // Create Event

  method ShouldCreateEventWithValidParameters(futureDate: int) returns (result: Reply, event: Option<Event>)
    ensures result.EventCreated?
    ensures event.Some? && event.value.name == "Test Event" && event.value.isActive
  {
    var system := new SecureTon.TicketSystem();
    result := system.Send(User1, TenthTon, TestEvent("Test Event", futureDate));
    event := system.GetEvent(0);
  }

  // Buy Ticket (each case starts from one event created by User1)

  method ShouldAllowTicketPurchaseWithSufficientPayment(futureDate: int)
    returns (result: Reply, ticket: Option<Ticket>)
    ensures result.TicketBought?
    ensures ticket.Some? && ticket.value.owner == User2 && !ticket.value.isUsed
  {
    var system := new SecureTon.TicketSystem();
    var _ := system.Send(User1, TenthTon, TestEvent("Test Event", futureDate));
    result := system.Send(User2, PricePlusGas, Messages.BuyTicket(0));
    ticket := system.GetTicket(0);
  }

  method ShouldRejectTicketPurchaseWithInsufficientPayment(futureDate: int)
    returns (result: Reply, event: Option<Event>)
    ensures result == Rejected(InsufficientPayment)
    ensures event.Some? && event.value.ticketsSold == 0
  {
    var system := new SecureTon.TicketSystem();
    var _ := system.Send(User1, TenthTon, TestEvent("Test Event", futureDate));
    result := system.Send(User2, HalfTon, Messages.BuyTicket(0));
    event := system.GetEvent(0);
  }

  method ShouldUpdateTicketsSoldCount(futureDate: int) returns (event: Option<Event>)
    ensures event.Some? && event.value.ticketsSold == 1
  {
    var system := new SecureTon.TicketSystem();
    var _ := system.Send(User1, TenthTon, TestEvent("Test Event", futureDate));
    var _ := system.Send(User2, PricePlusGas, Messages.BuyTicket(0));
    event := system.GetEvent(0);
  }

  // Use Ticket (each case starts from one event and User2's ticket 0)

  method ShouldMarkTicketAsUsed(futureDate: int) returns (result: Reply, ticket: Option<Ticket>)
    ensures result == TicketUsed
    ensures ticket.Some? && ticket.value.isUsed
  {
    var system := new SecureTon.TicketSystem();
    var _ := system.Send(User1, TenthTon, TestEvent("Test Event", futureDate));
    var _ := system.Send(User2, PricePlusGas, Messages.BuyTicket(0));
    result := system.Send(User2, TenthTon, Messages.UseTicket(0));
    ticket := system.GetTicket(0);
  }

  method ShouldRejectUsingSameTicketTwice(futureDate: int) returns (first: Reply, second: Reply)
    ensures first == TicketUsed
    ensures second == Rejected(TicketAlreadyUsed)
  {
    var system := new SecureTon.TicketSystem();
    var _ := system.Send(User1, TenthTon, TestEvent("Test Event", futureDate));
    var _ := system.Send(User2, PricePlusGas, Messages.BuyTicket(0));
    first := system.Send(User2, TenthTon, Messages.UseTicket(0));
    second := system.Send(User2, TenthTon, Messages.UseTicket(0));
  }

  // Deactivate Event (each case starts from one event created by User1)

  method ShouldAllowCreatorToDeactivateEvent(futureDate: int) returns (result: Reply, event: Option<Event>)
    ensures result == EventDeactivated
    ensures event.Some? && !event.value.isActive
  {
    var system := new SecureTon.TicketSystem();
    var _ := system.Send(User1, TenthTon, TestEvent("Test Event", futureDate));
    result := system.Send(User1, TenthTon, Messages.DeactivateEvent(0));
    event := system.GetEvent(0);
  }

  method ShouldRejectDeactivationFromNonCreator(futureDate: int) returns (result: Reply, event: Option<Event>)
    ensures result == Rejected(NotAuthorized)
    ensures event.Some? && event.value.isActive
  {
    var system := new SecureTon.TicketSystem();
    var _ := system.Send(User1, TenthTon, TestEvent("Test Event", futureDate));
    result := system.Send(User2, TenthTon, Messages.DeactivateEvent(0));
    event := system.GetEvent(0);
  }

  // Getter Functions (each case starts from "Event 1" and "Event 2", both by User1)

  method ShouldReturnCorrectEventDetails(futureDate: int)
    returns (first: Reply, second: Reply, event: Option<Event>)
    ensures first == EventCreated(0) && second == EventCreated(1)
    ensures event.Some? && event.value.name == "Event 1" && event.value.isActive
  {
    var system := new SecureTon.TicketSystem();
    first := system.Send(User1, TenthTon, TestEvent("Event 1", futureDate));
    second := system.Send(User1, TenthTon, TestEvent("Event 2", futureDate));
    event := system.GetEvent(0);
  }

  method ShouldVerifyTicketOwnershipCorrectly(futureDate: int) returns (isValid: bool)
    ensures isValid
  {
    var system := new SecureTon.TicketSystem();
    var _ := system.Send(User1, TenthTon, TestEvent("Event 1", futureDate));
    var _ := system.Send(User1, TenthTon, TestEvent("Event 2", futureDate));
    var _ := system.Send(User2, PricePlusGas, Messages.BuyTicket(0));
    isValid := system.VerifyTicket(0, User2);
  }

  method ShouldReturnAllActiveEvents(futureDate: int) returns (activeEvents: seq<Event>)
    ensures |activeEvents| == 1 && activeEvents[0].name == "Event 2"
  {
    var system := new SecureTon.TicketSystem();
    var _ := system.Send(User1, TenthTon, TestEvent("Event 1", futureDate));
    var _ := system.Send(User1, TenthTon, TestEvent("Event 2", futureDate));
    var _ := system.Send(User1, TenthTon, Messages.DeactivateEvent(0));
    activeEvents := system.GetActiveEvents();
    assert activeEvents == ActiveUpTo(system.events, 1) + [system.events[1]];
    assert ActiveUpTo(system.events, 1) == ActiveUpTo(system.events, 0) + [];
  }
}
