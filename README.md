# SecureTon event-ticketing ledger, in Dafny

This project models the ledger of the SecureTon contract. Event creators put events up for sale. Buyers pay for tickets. A ticket is redeemed once. Only an event's creator may deactivate it. The contract keeps four pieces of persistent state:

- a map of events: id, creator, name, date, ticketPrice, maxTickets, ticketsSold, isActive;
- a map of tickets: id, eventId, owner, isUsed;
- two id counters, one for events and one for tickets.

It answers four internal messages: `CreateEvent`, `BuyTicket`, `UseTicket` and `DeactivateEvent`. Each message comes with a sender address and an attached value in nanotons. It also offers four getters: `getEvent`, `getTicket`, `verifyTicket` and `getActiveEvents`.

The contract's own source is not part of this model. Its behaviour is taken from the `EventTicketSystem` test suite, `tests/SecureTon.spec.ts:48-427`. For each transaction the suite checks only success or failure, never an exit code. It also reads the getters' results: `getEvent` (tests/SecureTon.spec.ts:107-109, 207-208, 327-328, 347-348, 386-388), `getTicket` (173-175, 258-259), `getVerifyTicket` (404-405) and `getGetActiveEvents` (421-425). Where the suite is silent, the model follows the ledger's design (see "Decisions" below).

Files:

- `ledger.dfy` (module `Ledger`): the state as a value (`Store`), the records, the rejection kinds and the replies. It holds the invariant `Valid`, one function per command giving the new store and the reply, and the getters.
- `messages.dfy` (module `Messages`): the messages as one sum type (`Command`). `Apply` handles one message. `Run` handles a sequence of messages strictly one after another.
- `properties.dfy` (module `LedgerProperties`): lemmas about the model. Every command keeps the invariant. Records change only in allowed ways: never deleted, ids and owners fixed, `isActive` only turns false, `isUsed` only turns true. For each command: when it succeeds, what it changes, and why it is rejected. What the getters return.
- `secure_ton.dfy` (module `SecureTon`): class `TicketSystem`. Its fields are the two maps and the two counters. Each command is a method that updates them in place. Its postcondition ties the new state and the reply to the `Ledger` function, so every lemma about `Ledger` also holds for the object.
- `suite.dfy` (module `EventTicketSystemSuite`): one method per test case of the suite. Each one deploys a fresh `TicketSystem`, sends the test's messages (its `beforeEach` included) and reads the getters. Its postcondition states what the test expects.

Decisions:

- **Check order in BuyTicket.** Checks run in this order: event exists, event active, not sold out, attached value at least `ticketPrice`.
- **No check on CreateEvent's date.** The date is stored as given.
- **CreateEvent rejects `maxTickets <= 0`** with `InvalidParameters`.
- **UseTicket does not check the caller.** Anyone may redeem a ticket by its id.
- **DeactivateEvent on an inactive event.** If the caller is the creator, it succeeds and the event stays inactive.
- **Attached value.** Only BuyTicket looks at it.
- **`verifyTicket(0, user2)`.** The first argument is read as an event id. "Does this address hold a ticket for this event?" In the suite, ticket 0 belongs to event 0, so reading the argument as a ticket id would give the same answer there.
- **`getActiveEvents`.** It returns the active events as a sequence in ascending id order. The suite only counts the values and reads the first one.

## Model

| member | source | states |
|---|---|---|
| Ledger.Empty | tests/SecureTon.spec.ts:55-81 | a freshly deployed contract has no events, no tickets, both counters at 0, and satisfies the ledger invariant |
| Ledger.GetEvent | tests/SecureTon.spec.ts:107-109 | on a valid ledger, `getEvent(id)` finds a record exactly for the ids 0 .. nextEventId-1, and the record found carries that id |
| Ledger.GetTicket | tests/SecureTon.spec.ts:173-175 | on a valid ledger, `getTicket(id)` finds a record exactly for the ids 0 .. nextTicketId-1; the record carries that id and refers to a stored event |
| Ledger.CreateEvent | tests/SecureTon.spec.ts:87-99 | either answers EventCreated with the current event counter, which is then a stored event id, or is rejected with InvalidParameters and leaves the store unchanged; the full effect is stated by LedgerProperties.CreateEventOutcome |
| Ledger.BuyTicket | tests/SecureTon.spec.ts:156-165 | either answers TicketBought with the current ticket counter, for a stored event whose price the attached value covers, and stores that ticket owned by the caller, or is rejected and leaves the store unchanged; the full effect is stated by LedgerProperties.BuyTicketSucceeds and LedgerProperties.BuyTicketRejections |
| Ledger.UseTicket | tests/SecureTon.spec.ts:243-252 | either answers TicketUsed, turning a stored unused ticket into a used one, or is rejected and leaves the store unchanged; the full effect is stated by LedgerProperties.UseTicketOutcome |
| Ledger.DeactivateEvent | tests/SecureTon.spec.ts:312-321 | either answers EventDeactivated, when the caller is the stored event's creator, and the event is then inactive, or is rejected and leaves the store unchanged; the full effect is stated by LedgerProperties.DeactivateEventOutcome |
| Ledger.VerifyTicket | tests/SecureTon.spec.ts:404-405 | holds iff some stored ticket for the event is owned by the address; on a valid ledger the event id is then a stored one; LedgerProperties.OwnershipPersists and LedgerProperties.BuyTicketSucceeds relate it to the commands |
| Ledger.ActiveUpTo | tests/SecureTon.spec.ts:421-425 | the active events among ids 0 .. n-1: at most n entries, each active; LedgerProperties.ActiveUpToExactly states which ones and their order |
| Ledger.ActiveEvents | tests/SecureTon.spec.ts:421-425 | getActiveEvents has at most nextEventId entries, each active; LedgerProperties.ActiveEventsExactly states that it holds exactly the stored active events, in ascending id order |
| Messages.Apply | tests/SecureTon.spec.ts:87-99 | one message goes to the command its type names; a rejection leaves the store unchanged, and each kind of message answers its own kind of reply or a rejection |
| Messages.Run | tests/SecureTon.spec.ts:262-290 | messages are processed one at a time, in order, each getting exactly one reply; LedgerProperties.RunKeepsValid and LedgerProperties.RunEvolves state what every run preserves |
| Messages.RunAppend | tests/SecureTon.spec.ts:262-290 | running `a + b` is running `a` and then `b` from the store `a` left; the replies are those of `a` followed by those of `b` |
| Messages.RunReplyAt | tests/SecureTon.spec.ts:262-290 | the k-th reply of a run is the reply message k gets when applied to the store the first k messages left |
| LedgerProperties.CreateEventKeepsValid | tests/SecureTon.spec.ts:84-110 | CreateEvent keeps the invariant: dense ids from 0, records keyed by their ids, each event's counter equal to its number of tickets and at most its capacity |
| LedgerProperties.BuyTicketKeepsValid | tests/SecureTon.spec.ts:195-209 | BuyTicket keeps the invariant; in particular the counter of the event still equals the number of tickets sold for it |
| LedgerProperties.UseTicketKeepsValid | tests/SecureTon.spec.ts:242-260 | UseTicket keeps the invariant |
| LedgerProperties.DeactivateEventKeepsValid | tests/SecureTon.spec.ts:311-329 | DeactivateEvent keeps the invariant |
| LedgerProperties.ApplyKeepsValid | tests/SecureTon.spec.ts:48-427 | every message, of any kind, keeps the invariant |
| LedgerProperties.RunKeepsValid | tests/SecureTon.spec.ts:48-427 | every state reachable by a sequence of messages satisfies the invariant, so `ticketsSold <= maxTickets` always holds |
| LedgerProperties.RejectionChangesNothing | tests/SecureTon.spec.ts:178-193 | a rejected message leaves the whole store exactly as it was |
| LedgerProperties.ApplyEvolves | tests/SecureTon.spec.ts:331-349 | one message never deletes a record, never changes an id, creator, name, date, price, capacity, ticket owner or ticket event, never lowers a counter, never reactivates an event and never un-uses a ticket |
| LedgerProperties.RunEvolves | tests/SecureTon.spec.ts:262-290 | the same holds across any sequence of messages |
| LedgerProperties.CreateEventOutcome | tests/SecureTon.spec.ts:84-110 | with positive capacity CreateEvent answers the next event id, stores an active event by the caller with the given fields and no tickets sold, changes no other record, and appends it to the active events; otherwise it is rejected with InvalidParameters and changes nothing |
| LedgerProperties.CreationStep | tests/SecureTon.spec.ts:353-389 | one creation message with positive capacity answers the next event id, stores the described event under it, advances the event counter, leaves the tickets alone and keeps the invariant |
| LedgerProperties.CreationReplies | tests/SecureTon.spec.ts:353-389 | a run of creations answers consecutive event ids from the current counter, advances it by the number of messages and leaves the tickets alone |
| LedgerProperties.CreationRecords | tests/SecureTon.spec.ts:353-389 | a run of creations stores the k-th message's event under the k-th new id and keeps every earlier event |
| LedgerProperties.CreationsNumberedInOrder | tests/SecureTon.spec.ts:353-389 | a run of creations numbers the new events consecutively from the current counter in message order, each stored active with no tickets sold, and keeps all earlier events and all tickets |
| LedgerProperties.BuyTicketSucceeds | tests/SecureTon.spec.ts:155-176 | a purchase succeeds iff the event exists, is active, is not sold out and the attached value covers the price; it then issues the next ticket id, owned by the caller and unused, adds exactly one to that event's counter, changes nothing else, and makes verifyTicket true for the caller |
| LedgerProperties.BuyTicketRejections | tests/SecureTon.spec.ts:178-193 | a rejected purchase changes nothing and is rejected with EventNotFound, EventInactive, SoldOut or InsufficientPayment, by the first check that fails |
| LedgerProperties.UnderpaymentRejected | tests/SecureTon.spec.ts:178-193 | a purchase with attached value below the event's price always fails and leaves the store, hence ticketsSold, unchanged |
| LedgerProperties.SaleStep | tests/SecureTon.spec.ts:195-209 | one message raises an event's counter by one exactly when it is a successful purchase for that event, and otherwise leaves that counter as it was |
| LedgerProperties.SalesCounted | tests/SecureTon.spec.ts:195-209 | over any sequence of messages, an event's counter grows by exactly the number of successful purchases for it |
| LedgerProperties.SalesWithinCapacity | tests/SecureTon.spec.ts:195-209 | over any sequence of messages, an event's counter grows by exactly the number of successful purchases for it, and that never takes it above maxTickets |
| LedgerProperties.SoldOutRejected | tests/SecureTon.spec.ts:195-209 | once an active event has sold maxTickets tickets, every further purchase is rejected with SoldOut and changes nothing |
| LedgerProperties.UseTicketOutcome | tests/SecureTon.spec.ts:242-290 | UseTicket on an unused ticket succeeds, marks exactly that ticket used and changes nothing else; on a used ticket it is rejected with TicketAlreadyUsed, on a missing one with TicketNotFound, both without change |
| LedgerProperties.RedeemedOnlyOnce | tests/SecureTon.spec.ts:262-290 | after UseTicket on a stored ticket, whatever messages follow, every later UseTicket on it is rejected with TicketAlreadyUsed |
| LedgerProperties.DeactivateEventOutcome | tests/SecureTon.spec.ts:311-349 | DeactivateEvent on a stored event succeeds iff the caller is its creator; then only that event's isActive becomes false; any other caller is rejected with NotAuthorized and nothing changes; a missing event is rejected with EventNotFound |
| LedgerProperties.DeactivationIsFinal | tests/SecureTon.spec.ts:311-329 | an inactive event stays inactive whatever messages follow, and every purchase for it is rejected with EventInactive |
| LedgerProperties.ActiveEventsExactly | tests/SecureTon.spec.ts:408-426 | getActiveEvents contains an event iff it is a stored, active event, listed in strictly ascending id order |
| LedgerProperties.DeactivationShrinksActiveEvents | tests/SecureTon.spec.ts:408-426 | a successful deactivation of an active event shortens getActiveEvents by exactly one, drops that event, keeps every other active event and adds none |
| LedgerProperties.OwnershipPersists | tests/SecureTon.spec.ts:391-406 | once verifyTicket(eventId, owner) holds it holds after any further messages, since tickets are never deleted or transferred |
| SecureTon.TicketSystem.constructor | tests/SecureTon.spec.ts:55-63 | a new contract object holds the empty ledger and satisfies the invariant |
| SecureTon.TicketSystem.CreateEvent | tests/SecureTon.spec.ts:87-99 | updates the event map and counter in place, keeps the invariant, and leaves exactly the state and reply of Ledger.CreateEvent |
| SecureTon.TicketSystem.BuyTicket | tests/SecureTon.spec.ts:156-165 | updates the ticket map, the event's counter and the ticket counter in place, keeps the invariant, and leaves exactly the state and reply of Ledger.BuyTicket |
| SecureTon.TicketSystem.UseTicket | tests/SecureTon.spec.ts:243-252 | marks the ticket used in place, keeps the invariant, and leaves exactly the state and reply of Ledger.UseTicket |
| SecureTon.TicketSystem.DeactivateEvent | tests/SecureTon.spec.ts:312-321 | clears the event's isActive in place, keeps the invariant, and leaves exactly the state and reply of Ledger.DeactivateEvent |
| SecureTon.TicketSystem.Send | tests/SecureTon.spec.ts:87-99 | dispatches one message on its type to the matching command, keeps the invariant, and leaves exactly the state and reply of Messages.Apply |
| SecureTon.TicketSystem.GetEvent | tests/SecureTon.spec.ts:107-109 | on a valid object, `getEvent(id)` finds a record exactly for the ids 0 .. nextEventId-1, and it is the stored one |
| SecureTon.TicketSystem.GetTicket | tests/SecureTon.spec.ts:173-175 | on a valid object, `getTicket(id)` finds a record exactly for the ids 0 .. nextTicketId-1, and it is the stored one |
| SecureTon.TicketSystem.VerifyTicket | tests/SecureTon.spec.ts:404-405 | holds iff some stored ticket for the event is owned by the address, and on a valid object only for stored event ids |
| SecureTon.TicketSystem.GetActiveEvents | tests/SecureTon.spec.ts:421-425 | returns at most nextEventId events, each of them active; LedgerProperties.ActiveEventsExactly states which ones |
| EventTicketSystemSuite.ShouldCreateEventWithValidParameters | tests/SecureTon.spec.ts:84-110 | creating "Test Event" succeeds, and event 0 is named "Test Event" and active |
| EventTicketSystemSuite.ShouldAllowTicketPurchaseWithSufficientPayment | tests/SecureTon.spec.ts:155-176 | buying with 1.1 TON against a price of 1 TON succeeds, and ticket 0 is owned by the buyer and unused |
| EventTicketSystemSuite.ShouldRejectTicketPurchaseWithInsufficientPayment | tests/SecureTon.spec.ts:178-193 | buying with 0.5 TON is rejected with InsufficientPayment, and the event's counter stays 0 |
| EventTicketSystemSuite.ShouldUpdateTicketsSoldCount | tests/SecureTon.spec.ts:195-209 | after one purchase event 0 has ticketsSold == 1 |
| EventTicketSystemSuite.ShouldMarkTicketAsUsed | tests/SecureTon.spec.ts:242-260 | redeeming ticket 0 succeeds and it reads back as used |
| EventTicketSystemSuite.ShouldRejectUsingSameTicketTwice | tests/SecureTon.spec.ts:262-290 | the first redemption succeeds and the second is rejected with TicketAlreadyUsed |
| EventTicketSystemSuite.ShouldAllowCreatorToDeactivateEvent | tests/SecureTon.spec.ts:311-329 | the creator's deactivation succeeds and event 0 reads back inactive |
| EventTicketSystemSuite.ShouldRejectDeactivationFromNonCreator | tests/SecureTon.spec.ts:331-349 | another caller's deactivation is rejected with NotAuthorized and event 0 stays active |
| EventTicketSystemSuite.ShouldReturnCorrectEventDetails | tests/SecureTon.spec.ts:353-389 | "Event 1" and "Event 2" get ids 0 and 1, and event 0 reads back as "Event 1", active |
| EventTicketSystemSuite.ShouldVerifyTicketOwnershipCorrectly | tests/SecureTon.spec.ts:391-406 | after user2 buys a ticket for event 0, verifyTicket(0, user2) is true |
| EventTicketSystemSuite.ShouldReturnAllActiveEvents | tests/SecureTon.spec.ts:408-426 | after event 0 of two is deactivated, getActiveEvents holds exactly one event, "Event 2" |

## Left out

- The `Deploy` message, inspecting transactions in the sandbox, and `console.log` (tests/SecureTon.spec.ts:65-80, 422). These belong to the host and the test harness. The model only records whether each command succeeded or was rejected.
- Gas, fees, refunds of overpayment and forwarding of value. They are handled by the host. BuyTicket only compares the attached value with `ticketPrice`.
- Numeric exit codes. The model names rejection kinds. The suite checks only `success: false` on a failed transaction, so the kind given for each failure comes from the ledger's design, not from a test.
- The capacity check (`SoldOut`) and the rejection of `maxTickets <= 0`. No test exercises either. Both come from the ledger's design, and the suite still passes `maxTickets: 100n`.
- A past-date check on CreateEvent. The only test for it is commented out (tests/SecureTon.spec.ts:112-133), so no date check is modelled.
- An owner check on UseTicket. The suite only ever redeems a ticket as its owner, so no such check is modelled.
- Wall-clock time (`Date.now()`). The event date is a parameter of the suite methods and stays an opaque integer.
- Addresses are modelled as natural numbers compared for equality. Workchains, hashes and signatures are not modelled.
- Integer widths: TON's 257-bit integers and 120-bit coin amounts are modelled as unbounded integers. No counter or amount in the suite comes near those bounds.
- The commented-out deploy-only suite (tests/SecureTon.spec.ts:1-41), the NftTicket and DocuTon tests, and the deploy scripts. They only deploy contracts and contain no ledger logic.
