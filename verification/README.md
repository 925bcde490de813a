# LibFlow: a verified model of the circulation engine

LibFlow runs a network of library branches. This project models the parts of it whose behaviour comes from several
functions or several clients acting together, and proves what they keep over every run.

- **Circulation** (`Types`, `Domain`, `Circulation`, `Custody`, `LibraryRuns`, `Outcomes`, `IdleCopies`, `Repositories`,
  `CirculationService`).
  Copies, accounts, the ledger, waiting lists, the outbox, smart-allocation queues and transfers are one state. Each
  operation is a transition on that state, errors and partial effects included; the classes do the same on live objects
  and are proved equal to the transitions. One joint invariant holds in every reachable state.
- **Rebalancing** (`Greedy`, `GreedyBound`, `TightPlan`, `Heaps`, `Rebalancing`, `RebalancingEngine`). The planner fills
  a heap with candidate moves and picks greedily; its plan is worth at least half of any feasible selection, strips no
  source and overfills no destination. Nor do whole runs overfill one.
- **Concurrent protocols** (`Outbox`, `RelayProgress`, `BusOrder`, `RelayRounds`, `Idempotency`, `LockManager`,
  `CircuitBreaker`). Each locked block or Redis call is one atomic step; any number of clients interleave, under a clock
  that moves forward.
- **Data structures against simple specifications** (`BookGraph`, `Trie`, `InvertedIndex`, `AllocationQueue`,
  `LruCache`, `Recency`, `Catalog`, `CatalogService`, with `Sorting` for the stable sort they share).

Class methods promise that the new abstract value is a function of the old one; what those functions mean is then
proved in lemmas. Scores, priorities, weights and times are exact reals. Generated ids are parameters, assumed new.

## Where the code does not do what is expected of it

Each of these is proved, with the exact condition under which the code does meet the expectation.

- A return that raises is expected to change nothing. `return_physical_book` updates the account before the copy refuses,
  so a copy marked lost while issued is returned halfway (`LostCopyReturnsHalfway`). `FailedReturnLeavesTraceIff` gives
  the state in which this happens; no service reaches it (`FailureChangesNothing`).
- A smart-allocation drop pops its request before issuing; `DropLosesRequestIff` says exactly when the request is lost.
- Registering an ISBN again replaces the title and orphans its copies; `OnlyRegisteringAgainOrphans` shows this is the only
  way to lose a listing.
- A plan executed later can overfill a destination, because execution checks the copy but not the cap
  (`OldPlanCanOverfill`). `PlanFitsIff` gives the condition for every plan.
- Transfers do not invalidate the details page. A move makes its title's page stale exactly when it was cached
  (`TransferStalesIff`, `ArrivalStalesIff`) and misleads the next reader exactly if it has not expired by then
  (`TransferMisleadsIff`, `ArrivalMisleadsIff`); no other title is affected, and the page is right again once it has been
  forgotten or loaded (`PagesAreFaithfulUnlessMoved`).
- The relay's comment promises no event loss on restart. Nothing picks up what a dead worker had claimed
  (`StrandedForever`): those events stay in flight, and exactly the ones it had not delivered yet never reach the bus
  (`StrandedIffHolderDied`, `DeathStrandsExactly`).
- Retries and several workers can bring the events of one copy to the bus out of order (`RetryOvertakes`). A delivery
  can be passed exactly if an earlier event of the copy is still coming at that moment, which the outbox and its workers
  show (`DeliveryCanBePassedIff`, `ComesIff`).
- A tripped breaker is expected to refuse until its recovery time. A late success lets callers in before
  (`LateSuccessReopens`); `EarlyAdmissionIff` says exactly when that is so.
- A copy can stand available while somebody waits for its title, because only a return looks at the waiting list;
  `NoneIdleKeptIff` names the steps that bring this about.
- The idempotency store's `clear` and `set_completed` do not check who holds the key, so an execution that outlives its
  lease can erase or replace another's result (`LateFailureErasesResult`, `OverrunSucceedsTwice`). This, and a second
  success within the lifetime, can happen by a given time exactly if the lease ends before it (`TrespassIff`,
  `RepeatIff`).
- The depth-bounded learning path marks titles visited, so a near title met first on a long chain can be missed
  (`BoundHidesNearTitle`). A bound is safe for all graphs of n titles exactly if it is at most two or at least n
  (`BoundListsAllIff`).
- A larger cache need not include a smaller one under get-or-compute (`ReloadOutlivesOriginal`); `AlwaysIncludedIff`
  names exactly the traces under which it does.

## Model

| member | source | states |
|---|---|---|
| `Domain.BookCopy.CheckOut` | libflow/core/book.py:47-49 | succeeds exactly from AVAILABLE, or from RESERVED for the reserver; sets borrower, clears reserver, counts the borrowing; otherwise nothing changes |
| `Domain.BookCopy.ReturnBook` | libflow/core/book_state.py:76-87 | only ISSUED and RESERVED copies come back, to AVAILABLE, with the field of that state cleared |
| `Domain.BookCopy.Reserve` | libflow/core/book_state.py:56-58 | only an AVAILABLE copy is reserved |
| `Domain.BookCopy.StartTransfer` | libflow/core/book_state.py:60-62 | only an AVAILABLE copy leaves, with its target noted |
| `Domain.BookCopy.CompleteTransfer` | libflow/core/book_state.py:94-98 | only an IN_TRANSIT copy arrives: at its target branch, AVAILABLE, target cleared |
| `Domain.LifecycleRoundTrips` | libflow/core/book_state.py:48-98 | lending and returning, reserving and releasing, sending and arriving take an available copy back to where it was, but for the count and the branch; a reserved one can be lent to its reserver alone |
| `Domain.User.CanBorrow` | libflow/core/user.py:56-63 | not suspended, fines at most 100, strictly below the limit |
| `Domain.User.AddBorrow` | libflow/core/user.py:65-74 | the copy becomes active and one open record is appended |
| `Domain.User.RecordReturn` | libflow/core/user.py:76-83 | the loop that searches backwards closes the last open record of the copy and no other |
| `Domain.User.AddFine` | libflow/core/user.py:85-86 | negative fines count as none |
| `Domain.User.PayFine` | libflow/core/user.py:88-91 | pays the lesser of amount and balance |
| `Domain.ClosesTheLastOpen` | libflow/core/user.py:76-83 | exactly the last open record of the copy is closed, with what is said of the return |
| `Domain.ClosingOneLoan` | libflow/core/user.py:76-83 | closing lowers the number of open records of that copy by one if there was one, and of no other copy |
| `Domain.OpeningOneLoan` | libflow/core/user.py:65-74 | borrowing adds one open record of that copy and of no other |
| `Repositories.InMemoryBookRepository.SaveBook` | libflow/storage/inmemory.py:45-49 | the title is stored under its ISBN and its own copies one after the other under their ids |
| `Repositories.OwnCopiesAreStored` | libflow/storage/inmemory.py:47-49 | after that each own copy is found under its id and every other copy is as before |
| `Repositories.InMemoryBookRepository.SaveCopy` | libflow/storage/inmemory.py:63-67 | the copy is stored, and listed under its physical title once |
| `Repositories.InMemoryBookRepository.GetAvailableCopies` | libflow/core/book.py:180-184 | exactly the available copies of the list, in list order, at one branch or anywhere |
| `Repositories.BookReservationQueueManager.ReserveBook` | libflow/patterns/reservation_queue.py:49-62 | someone already waiting gets the old entry and the queue is unchanged; otherwise a pending entry goes to the back |
| `Repositories.BookReservationQueueManager.HandleCopyReturned` | libflow/patterns/reservation_queue.py:64-90 | the popping loop drops entries up to the first pending one, which becomes ready and is assigned the copy |
| `Repositories.MultiBranchManager.RegisterBranch` | libflow/distributed/branch_manager.py:57-58 | the branch is known from then on |
| `Repositories.MultiBranchManager.RequestTransfer` | libflow/distributed/branch_manager.py:63-88 | refuses an unknown or same destination and a copy not available, changing nothing; otherwise one open transfer is recorded and the copy leaves |
| `Repositories.MultiBranchManager.CompleteTransfer` | libflow/distributed/branch_manager.py:90-100 | refuses an unknown or completed transfer and a copy not in transit, changing nothing; otherwise completes it |
| `CirculationServices.CirculationService.IssuePhysicalBook` | libflow/services/circulation_service.py:65-130 | on live objects: result, new library state and forgotten page are those of the issue transition, for every error too |
| `CirculationServices.CirculationService.ReturnPhysicalBook` | libflow/services/circulation_service.py:150-213 | likewise for the return, including its half-done effect when the copy's state raises |
| `CirculationServices.CirculationService.RequestSmartAllocation` | libflow/services/circulation_service.py:215-232 | an unknown user is refused; otherwise the title's queue is opened if needed and gains the request |
| `CirculationServices.CirculationService.ProcessSmartAllocationDrop` | libflow/services/circulation_service.py:234-260 | nothing happens without request, physical title or available copy; otherwise the top request is popped and its issue attempted |
| `Custody.IssueKeepsCustody` | libflow/services/circulation_service.py:93-98 | lending one copy keeps borrowers and accounts in agreement and within limits |
| `Custody.ReturnKeepsCustody` | libflow/services/circulation_service.py:163-180 | so does taking one back, whatever it then becomes |
| `Custody.EventKeepsLog` | libflow/services/circulation_service.py:114-125 | one event with its copy changed to match keeps the log a faithful account of all copies |
| `Custody.HeadIsServed` | libflow/patterns/reservation_queue.py:64-90 | in a sound queue the head, and nobody else, is served |
| `Custody.ReserveKeepsFifo` | libflow/patterns/reservation_queue.py:49-62 | accepting a reservation keeps acceptance order equal to served then waiting, and nobody waits twice |
| `Custody.ServingKeepsFifo` | libflow/patterns/reservation_queue.py:72-90 | so does serving one |
| `Custody.DepartureKeepsTransit` | libflow/distributed/branch_manager.py:74-88 | a departure keeps copies in transit and open transfers in one-to-one correspondence |
| `Custody.ArrivalKeepsTransit` | libflow/distributed/branch_manager.py:97-100 | so does an arrival |
| `LibraryRuns.IssueKeepsInv` | libflow/services/circulation_service.py:74-125 | an issue, failing or not, keeps custody, log, ledger, queues, transit and listings in agreement |
| `LibraryRuns.ReturnServes` | libflow/services/circulation_service.py:174-180 | a lent copy always comes back: RESERVED for exactly the head of the waiting list, whose entry names it, or AVAILABLE when nobody waits |
| `LibraryRuns.ReturnKeepsInv` | libflow/services/circulation_service.py:158-194 | a return keeps the joint invariant |
| `LibraryRuns.ReserveKeepsInv` | libflow/patterns/reservation_queue.py:49-62 | a reservation keeps it |
| `LibraryRuns.RequestKeepsInv` | libflow/services/circulation_service.py:215-232 | a smart-allocation request keeps it |
| `LibraryRuns.DropKeepsInv` | libflow/services/circulation_service.py:234-260 | a drop keeps it, also when its issue fails |
| `LibraryRuns.TransferKeepsInv` | libflow/distributed/branch_manager.py:63-88 | a transfer request keeps it |
| `LibraryRuns.CompleteKeepsInv` | libflow/ai/rebalancer.py:221-243 | an arrival keeps it |
| `LibraryRuns.AddCopyKeepsInv` | libflow/services/catalog_service.py:53-75 | a new copy keeps it |
| `LibraryRuns.EveryRunKeepsInv` | libflow/services/circulation_service.py:39-260 | every run of all twelve kinds of step keeps it |
| `Outcomes.IssueAnswers` | libflow/services/circulation_service.py:74-98 | in every reachable state: an issue succeeds iff the account exists, is not suspended, owes at most 100 and is below its limit, and the copy is available or kept for that user; otherwise the first of the source's reasons that applies is given |
| `Outcomes.IssueLeaves` | libflow/services/circulation_service.py:93-125 | the whole state after a successful issue, field by field |
| `Outcomes.ReturnLeaves` | libflow/services/circulation_service.py:150-194 | a return is accepted iff the copy is ISSUED; the account loses it, no other account changes, and the event says how it came back and to whom it went |
| `Outcomes.ServedUserCanCollect` | libflow/services/circulation_service.py:84-98 | after a return with somebody waiting, the user served can be issued that copy iff in good standing, and nobody else can |
| `Outcomes.KeptUntilCollected` | libflow/core/book_state.py:65-78 | in every run a RESERVED copy stays as it is until its reserver is issued it, whatever else happens |
| `Outcomes.ReserveAnswers` | libflow/patterns/reservation_queue.py:49-62 | somebody new gets a pending entry at the back of the line; somebody waiting gets the old entry and no line changes |
| `Outcomes.DropAnswers` | libflow/services/circulation_service.py:234-260 | a drop gives the first listed available copy to the first in line iff that user is in good standing, and does nothing without a line or a copy |
| `Outcomes.RequestAnswers` | libflow/services/circulation_service.py:215-232 | a request is taken iff the user is known, and adds exactly itself to the title's queue |
| `Outcomes.AddCopyAnswers` | libflow/services/catalog_service.py:53-77 | a copy is added iff the title is physical; it is then listed and available at its branch |
| `Outcomes.DepartureAnswers` | libflow/distributed/branch_manager.py:63-88 | which copies leave and why others do not; the copy and the transfer recorded, field by field |
| `Outcomes.ArrivalAnswers` | libflow/core/book_state.py:94-98 | in every reachable state an open transfer completes: its copy then stands available at the destination and is otherwise as it was, and no other copy changes |
| `Outcomes.TransferMovesTheCopy` | libflow/distributed/branch_manager.py:63-100 | sending and arriving changes one copy's branch and nothing else about any copy |
| `Outcomes.CopiesStandWhereSent` | libflow/distributed/branch_manager.py:63-100 | in every run a copy stands where it was added or where its last completed transfer went, and while in transit at its transfer's source |
| `LibraryRuns.EachIssuedCopyHasOneHolder` | libflow/core/book_state.py:48-87 | in every reachable state: ISSUED iff it has a borrower iff exactly that user holds it, with exactly one open record; nobody is over the limit |
| `LibraryRuns.FailureChangesNothing` | libflow/services/circulation_service.py:158-175 | in every reachable state a failed issue or return changes nothing, and a return succeeds iff the copy is ISSUED |
| `LibraryRuns.FailedReturnLeavesTraceIff` | libflow/services/circulation_service.py:169-174 | in any state whatever, a return raises and yet changes the library iff the copy has a borrower, is neither ISSUED nor RESERVED, and the borrower's account still shows it |
| `LibraryRuns.LostCopyReturnsHalfway` | libflow/core/book_state.py:38-39 | a copy marked lost while issued: the return raises, the account has lost it, the copy still names the borrower |
| `LibraryRuns.ReturnUndoesIssue` | libflow/services/circulation_service.py:65-213 | issue then return, nobody waiting: all copies and accounts as before but for one borrowing counted and one closed record |
| `LibraryRuns.AlternationPerCopy` | libflow/services/circulation_service.py:114-125 | a copy's issued and returned events take turns, starting with issued, each return by the user of the issue before |
| `LibraryRuns.LogRebuildsCustody` | libflow/services/circulation_service.py:98-194 | in every reachable state the log tells each copy's borrower, whether it is out, which copies are RESERVED and by which reservation; the reservation table adds the user |
| `LibraryRuns.LedgerMatchesCounters` | libflow/core/book.py:47-49 | the ledger lists the issue events in order, and its length is the sum of all borrow counts |
| `LibraryRuns.ReservationsAreServedInOrder` | libflow/patterns/reservation_queue.py:49-90 | for every title, accepted reservations are those served so far followed by the queue; no user waits twice |
| `IdleCopies.NoneIdleKeptIff` | libflow/services/circulation_service.py:174-180 | a step first leaves a copy available while somebody waits for its title iff it is a first reservation beside an available copy, an added copy or an arrival of a waited-for title |
| `IdleCopies.NobodyWaitsForAnIdleCopy` | libflow/patterns/reservation_queue.py:49-90 | in every run without such steps nobody waits for a title that has an available copy |
| `LibraryRuns.FirstAvailableIsAvailable` | libflow/services/circulation_service.py:243-252 | the copy a drop gives is listed and available, and none is given only when none is |
| `LibraryRuns.DropLosesRequestIff` | libflow/services/circulation_service.py:247-253 | the request is lost iff there was a copy to give and the first in line may not borrow; then nothing else changes |
| `LibraryRuns.IssueIgnoresTransfers` | libflow/services/circulation_service.py:65-148 | an issue neither reads nor changes branches and transfers |
| `LibraryRuns.ReturnIgnoresTransfers` | libflow/services/circulation_service.py:150-213 | nor does a return |
| `LibraryRuns.DropIgnoresTransfers` | libflow/services/circulation_service.py:234-260 | nor does a drop |
| `LibraryRuns.OnlyRegisteringAgainOrphans` | libflow/storage/inmemory.py:45-67 | a step keeps every copy listed under its title unless it registers a title that already has copies |
| `Greedy.RunIsMaximal` | libflow/ai/rebalancer.py:146-163 | the selected moves are feasible and every candidate left out is blocked by its copy or its destination |
| `GreedyBound.Exchange` | libflow/ai/rebalancer.py:146-163 | one selected move shuts out at most two moves of any rival, none worth more |
| `GreedyBound.RunIsHalfOptimal` | libflow/ai/rebalancer.py:146-163 | from any point of the pass the rest earns at least half of what any feasible rival could |
| `GreedyBound.GreedyWithinFactorTwo` | libflow/ai/rebalancer.py:142-163 | for all candidates, ties in any order, and any feasible selection: twice the plan's utility is at least the selection's |
| `GreedyBound.FactorTwoIsTight` | libflow/ai/rebalancer.py:142-163 | the factor is tight for the pass: three moves come as close to two as one likes |
| `TightPlan.PlanCanBeNearlyHalf` | libflow/ai/rebalancer.py:69-165 | and for plans: a sound library and survey whose plan is worth 250 and whose best choice is as close to 500 as one likes |
| `RebalancingEngines.CrossBranchRebalancingEngine.CountInFlight` | libflow/ai/rebalancer.py:81-85 | the count kept for every destination is its number of open transfers |
| `RebalancingEngines.CrossBranchRebalancingEngine.CopiesByBranch` | libflow/ai/rebalancer.py:93-96 | each branch is given exactly the title's copies available there, in listing order |
| `RebalancingEngines.CrossBranchRebalancingEngine.PushTitle` | libflow/ai/rebalancer.py:99-140 | after a title's pass the heap has gained exactly its candidate moves |
| `RebalancingEngines.PushOffers` | libflow/ai/rebalancer.py:117-140 | for one destination, exactly the moves worth their distance from sources with two copies or more |
| `RebalancingEngines.Select` | libflow/ai/rebalancer.py:142-165 | the pop loop empties the heap most useful first and its plan is the greedy pass over that order |
| `RebalancingEngines.CrossBranchRebalancingEngine.CalculateRebalancingPlan` | libflow/ai/rebalancer.py:69-165 | the result is a plan of the current library: greedy over exactly its candidates |
| `RebalancingEngines.CrossBranchRebalancingEngine.ExecuteRebalancingPlan` | libflow/ai/rebalancer.py:167-219 | skips copies no longer available, sends the others in order, and stops at the first refused request with the earlier ones sent |
| `RebalancingEngines.CrossBranchRebalancingEngine.CompleteTransfer` | libflow/ai/rebalancer.py:221-243 | nothing for an unknown transfer or copy, an error for one already arrived, otherwise the arrival |
| `Rebalancing.OfferedIff` | libflow/ai/rebalancer.py:113-138 | a move is offered from another branch with two copies iff nearer than 5000 km in a surge and 3000 km otherwise; its utility |
| `Rebalancing.WantedIff` | libflow/ai/rebalancer.py:99-111 | a destination below its cap is wanted: in a surge iff it has at most one copy to lend, at moderate demand iff it has none, otherwise never |
| `Rebalancing.SurgeOutranksModerate` | libflow/ai/rebalancer.py:113-138 | a surge outranks a moderate demand iff its copy travels less than 2000 km further; at equal demand the nearer copy wins |
| `Rebalancing.ArrivalFreesRoom` | libflow/ai/rebalancer.py:81-85 | an arrival takes one off the transfers under way to its destination, and off no others |
| `Rebalancing.PlanWithinFactorTwo` | libflow/ai/rebalancer.py:69-165 | a library's plan is worth at least half of any choice among its candidates that moves each copy once and keeps the caps |
| `Rebalancing.PlanIsAChoice` | libflow/ai/rebalancer.py:142-163 | a plan is itself such a choice |
| `Rebalancing.PlanMovesCandidates` | libflow/ai/rebalancer.py:87-163 | a plan consists of candidates and moves each copy once |
| `Rebalancing.PlanTakesOneOfEach` | libflow/ai/rebalancer.py:117-163 | no title leaves a source twice in one plan |
| `Rebalancing.PlanFitsTheCap` | libflow/ai/rebalancer.py:81-163 | open transfers plus planned moves never exceed the cap of a destination the plan serves |
| `Rebalancing.PlanLeavesNothingUseful` | libflow/ai/rebalancer.py:146-163 | a candidate is left out only for its copy or for a full destination |
| `Rebalancing.PlanPrefersUseful` | libflow/ai/rebalancer.py:146-163 | what shuts a candidate out are moves planned earlier, all at least as useful as it |
| `Rebalancing.PlanLeavesStock` | libflow/ai/rebalancer.py:120-123 | after execution each source still has an available copy of every title it gave |
| `Rebalancing.ExecuteKeepsInv` | libflow/ai/rebalancer.py:167-219 | executing any plan, fresh or stale, keeps the joint invariant |
| `Rebalancing.ExecuteOpensWhatItSends` | libflow/ai/rebalancer.py:176-217 | the open transfers to a destination grow by exactly what was sent there, at most what was planned |
| `Rebalancing.PlanExecutedAtOnceFits` | libflow/ai/rebalancer.py:167-219 | a plan executed at once leaves every destination within the cap or at what it was |
| `Rebalancing.ReadyPlanIsSentWhole` | libflow/ai/rebalancer.py:176-217 | ready moves are all sent, in order, up to the first destination the branch manager does not know |
| `Rebalancing.PlansAreReady` | libflow/ai/rebalancer.py:69-165 | every move of a fresh plan is ready |
| `Rebalancing.StockDecidesPlans` | libflow/ai/rebalancer.py:69-165 | a plan made from copies, titles and transfers alone is a plan of the whole library |
| `Rebalancing.StockDecidesExecution` | libflow/ai/rebalancer.py:167-219 | executing needs only these, and leaves accounts, ledger, queues and log as they are |
| `Rebalancing.OldPlanIsSafeWhenLessIsUnderWay` | libflow/ai/rebalancer.py:167-219 | a plan executed later keeps the cap where no more is under way than when it was made |
| `Rebalancing.OldPlanCanOverfill` | libflow/ai/rebalancer.py:176-186 | otherwise it can exceed the cap: a full destination and an available copy are enough |
| `Rebalancing.ExecuteSendsDepartures` | libflow/ai/rebalancer.py:176-217 | executing any plan sends exactly the moves whose copy is still available, once per copy, up to the first that is refused |
| `Rebalancing.PlanFitsIff` | libflow/ai/rebalancer.py:176-217 | any plan, however old, fits a cap at a destination iff open transfers there plus the moves that will leave for it do |
| `Rebalancing.RebalancingNeverOverfills` | libflow/ai/rebalancer.py:69-243 | in every run of planning with execution, arrivals and all other steps, no destination ever has more inbound than the cap |
| `Heaps.Push` | libflow/ai/rebalancer.py:140 | sifting up keeps the heap order and the contents plus one |
| `Heaps.Pop` | libflow/ai/rebalancer.py:147 | a least entry leaves, the rest stay a heap |
| `AllocationQueues.SmartAllocationQueue.Enqueue` | libflow/dsa/priority_queue.py:81-109 | the request enters the service order behind all of at least its priority |
| `AllocationQueues.SmartAllocationQueue.PopHighestPriority` | libflow/dsa/priority_queue.py:111-119 | the first in service order leaves |
| `AllocationQueues.SmartAllocationQueue.Peek` | libflow/dsa/priority_queue.py:121-122 | shows what popping would yield |
| `AllocationQueues.SmartAllocationQueue.ToList` | libflow/dsa/priority_queue.py:127-140 | the report lists the waiting requests in service order |
| `AllocationQueues.EnqueueKeepsServiceOrder` | libflow/dsa/priority_queue.py:92-109 | strictly falling priority with ties in enqueue order is kept, and exactly the request is added |
| `AllocationQueues.HeapSortsTo` | libflow/dsa/priority_queue.py:127-140 | whatever the heap's shape, sorting it gives the one service order of its contents |
| `AllocationQueues.RunsConserveRequests` | libflow/dsa/priority_queue.py:81-119 | after any run served and waiting requests are together the enqueued ones, each once |
| `AllocationQueues.DrainFollowsReport` | libflow/dsa/priority_queue.py:111-140 | popping until empty yields exactly the report's order |
| `Outboxes.InMemoryOutboxRepository.SaveEvent` | libflow/storage/outbox.py:47-60 | a pending event is appended |
| `Outboxes.InMemoryOutboxRepository.FetchPending` | libflow/storage/outbox.py:62-68 | a claim marks exactly the first pending events in flight and returns them so |
| `Outboxes.InMemoryOutboxRepository.MarkPublished` | libflow/storage/outbox.py:70-76 | the first event with the id, and no other, is published |
| `Outboxes.InMemoryOutboxRepository.MarkFailed` | libflow/storage/outbox.py:78-87 | it is retried, or failed at the fifth attempt |
| `Outboxes.OutboxRelay.PublishPendingOnce` | libflow/storage/outbox.py:197-208 | one round on the live repository and bus: new log, bus history and count, for any pattern of broker failures |
| `Outboxes.EveryInterleavingDeliversOnce` | libflow/storage/outbox.py:62-87 | any workers, any interleaving, deaths included: published means on the bus once, pending or failed means never, failed means five attempts; each in-flight event was claimed by one worker |
| `Outboxes.AttemptsAreBounded` | libflow/storage/outbox.py:78-87 | in any run at most five settled attempts per saved event |
| `Outboxes.QuietMeansSettled` | libflow/storage/outbox.py:197-223 | all living workers idle and nothing to fetch: an event is published or failed iff it is not stranded |
| `Outboxes.ClaimedIsDeliveredIff` | libflow/storage/outbox.py:200-207 | a claimed event is on the bus iff its worker stands between delivering and marking it |
| `Outboxes.DeathStrandsExactly` | libflow/storage/outbox.py:62-68 | a death strands exactly the events the worker had claimed, and loses exactly those of them it had not delivered |
| `Outboxes.StrandedIffHolderDied` | libflow/storage/outbox.py:179-208 | in every run with deaths: in flight with no living holder iff claimed by a worker now dead, and lost iff it died before delivering |
| `Outboxes.StrandedForever` | libflow/storage/outbox.py:179-208 | no later run, new workers and further deaths included, settles a stranded event or changes how often it is on the bus |
| `Outboxes.RoundSpendsWork` | libflow/storage/outbox.py:197-208 | a lone relay's round leaves nothing in flight and uses up one unit of remaining retries per event at least |
| `Outboxes.RoundsConverge` | libflow/storage/outbox.py:210-223 | with no new events enough rounds leave every event published or failed |
| `RelayRounds.RoundPublishesWhatItMarks` | libflow/storage/outbox.py:197-208 | whatever the broker does, a round puts on the bus, in log order and once each, the messages of exactly the events it turns from pending to published, and answers their number |
| `RelayRounds.PublishAndTell` | libflow/storage/outbox.py:197-208 | the same of a round on the live repository and bus |
| `RelayRounds.RoundIsAPlay` | libflow/storage/outbox.py:197-208 | a round is a run of fetch, publish and settle steps of one worker: same log, same deliveries |
| `RelayRounds.RelayLifeIsAPlay` | libflow/storage/outbox.py:197-223 | so any rounds with any saves between them are a run of the protocol, and what is shown of all its runs holds of them |
| `RelayRounds.RelayPublishesEachOnce` | libflow/storage/outbox.py:197-223 | after any of them the bus has one message for each published event, for no other, and for none twice |
| `RelayProgress.PastItForever` | libflow/storage/outbox.py:62-87 | an event neither pending nor in the hands of a living worker who will still try it never reaches the bus again, in any later run with deaths |
| `RelayProgress.PendingComes` | libflow/storage/outbox.py:62-68 | for a pending event there is a later run that delivers it, however many wait before it |
| `RelayProgress.ComesIff` | libflow/storage/outbox.py:197-208 | an event reaches the bus in some later run iff it is pending, or claimed by a living worker who has not delivered it and is not about to mark its fifth refusal |
| `BusOrder.DeliveryCanBePassedIff` | libflow/storage/outbox.py:200-207 | after a delivery some later run can deliver an earlier event about the same thing iff such an event was still coming at the delivery |
| `BusOrder.NeverPrematureIsInOrder` | libflow/storage/outbox.py:62-87 | with any workers and deaths: if nothing is delivered while an earlier event about the same thing is still coming, the bus is in log order about each thing |
| `BusOrder.RetryOvertakes` | libflow/storage/outbox.py:205-207 | a concrete run of one worker and one refused publish that delivers two events of one copy the wrong way round |
| `BusOrder.ReliableBusFollowsLog` | libflow/storage/outbox.py:197-208 | with one relay and a broker that never refuses, the bus is the beginning of the log, event for event |
| `BusOrder.ReliableBusTellsThePast` | libflow/services/circulation_service.py:114-194 | then replaying the bus tells of every copy what the library's log told at an earlier moment |
| `BusOrder.BusTellsHolder` | libflow/services/circulation_service.py:114-194 | in every such run, once a copy's last event is delivered the bus tells of the copy what the log tells |
| `BusOrder.BusNamesBorrower` | libflow/services/circulation_service.py:98-194 | for the events of any run of the library it then names the copy's present borrower, or the reservation it is kept for |
| `Idempotency.IdempotencyStore.Read` | libflow/api/idempotency.py:32-48 | an expired entry is dropped and not shown |
| `Idempotency.IdempotencyStore.Acquire` | libflow/api/idempotency.py:50-65 | the key is taken exactly when no live entry has it |
| `Idempotency.IdempotencyStore.Complete` | libflow/api/idempotency.py:67-84 | the result is stored for the configured lifetime, whoever held the key |
| `Idempotency.IdempotencyStore.Release` | libflow/api/idempotency.py:86-99 | the key is removed, whoever held it |
| `Idempotency.HandleIdempotentOperation` | libflow/api/idempotency.py:101-141 | without a key it just runs; with one it runs iff nothing live is stored, and stores a success or clears on failure |
| `Idempotency.PunctualRunKeepsInv` | libflow/api/idempotency.py:50-99 | while executions end within their lease: one runner, successes a lifetime apart, truthful answers |
| `Idempotency.AtMostOnceWithinLifetime` | libflow/api/idempotency.py:101-141 | at most one active execution, at most one success per lifetime, and every answer sent within it is that success |
| `Idempotency.LookupIsTold` | libflow/api/idempotency.py:116-125 | in every punctual run a lookup is sent the last success's body exactly within its lifetime, a conflict exactly while somebody runs, and is let through exactly otherwise |
| `Idempotency.HandleTwice` | libflow/api/idempotency.py:101-141 | two calls with one key: the second does not execute and replies with the first one's body while that is kept, and executes afterwards |
| `Idempotency.FailureFreesKey` | libflow/api/idempotency.py:86-99 | after a failed operation the next request gets through |
| `Idempotency.OverlapIffOverrun` | libflow/api/idempotency.py:50-65 | a second execution starts beside a running one iff that one has outlived its lease |
| `Idempotency.ForeignEntryIff` | libflow/api/idempotency.py:67-99 | with any timing, finishing would replace or remove another's entry iff the stored entry is not the client's own lease, or is the equal lease of one that started at the same instant |
| `Idempotency.TrespassIff` | libflow/api/idempotency.py:50-99 | by a given time some running client can stand over another's entry iff the runner's lease ends before that time |
| `Idempotency.OverrunSucceedsTwice` | libflow/api/idempotency.py:67-84 | after an overrun two executions can succeed at one instant, the later result replacing the earlier |
| `Idempotency.RepeatIff` | libflow/api/idempotency.py:101-141 | by a given time two executions can have succeeded within one lifetime iff the runner's lease ends before that time |
| `Idempotency.LeasesAreShort` | libflow/api/idempotency.py:50-65 | a running client's lease ends within a lease's length from now, so the two conditions above apply in every punctual run |
| `Idempotency.LateFailureErasesResult` | libflow/api/idempotency.py:86-99 | a concrete run in which an overrun execution fails late and a second success lands within the first one's lifetime |
| `LockManager.AtMostOneWithinTtl` | libflow/storage/lock_manager.py:68-91 | in every run at most one client inside the section is within its expiry |
| `LockManager.LeaveSparesOthers` | libflow/storage/lock_manager.py:13-19 | with no timing assumption, leaving never removes another's live key |
| `LockManager.TryEntersIff` | libflow/storage/lock_manager.py:68-91 | in every run a client that tries gets in iff nobody inside is within its time, and then for the full ten seconds |
| `LockManager.LeavingLetsTheNextIn` | libflow/storage/lock_manager.py:13-19 | a client that leaves in time frees the key for whoever tries next |
| `LockManager.OverlapIffOverstay` | libflow/storage/lock_manager.py:68-91 | a newcomer gets in beside the holder iff the holder has outstayed its expiry |
| `LockManager.VersionTable.GetVersion` | libflow/storage/lock_manager.py:102-112 | the stored version, or one |
| `LockManager.VersionTable.CheckAndUpdateVersion` | libflow/storage/lock_manager.py:114-137 | raises by one on a match, else the error carries the version found and nothing changes |
| `LockManager.VersionsCountSuccesses` | libflow/storage/lock_manager.py:102-137 | every version is one plus the number of successful updates |
| `LockManager.NoSharedVersion` | libflow/storage/lock_manager.py:114-137 | no two successes on a resource expected the same version |
| `LockManager.ScriptAgrees` | libflow/storage/lock_manager.py:21-33 | in every reachable table the Redis script and the in-memory path give the same answer and table |
| `CircuitBreakers.CircuitBreaker.RecordSuccess` | libflow/storage/circuit_breaker.py:76-81 | closes the breaker and forgets failures, whatever its state |
| `CircuitBreakers.CircuitBreaker.RecordFailure` | libflow/storage/circuit_breaker.py:83-92 | counts the failure and trips at the threshold or when probing, renewing the time of change |
| `CircuitBreakers.CircuitBreaker.Call` | libflow/storage/circuit_breaker.py:50-74 | when the operation is invoked, what is replied, and what is recorded, for values, expected and unexpected exceptions and fallbacks |
| `CircuitBreakers.ClosedIffBelowThreshold` | libflow/storage/circuit_breaker.py:76-92 | however calls overlap, CLOSED iff fewer failures than the threshold stand |
| `CircuitBreakers.AdmitsIff` | libflow/storage/circuit_breaker.py:50-92 | in every interleaving a call is admitted iff fewer failures than the threshold followed the last success, or the recovery time has passed since the last failure for it or for a call before it |
| `CircuitBreakers.ProbeDecides` | libflow/storage/circuit_breaker.py:76-92 | a success then admits everybody; a failure at the threshold keeps everybody out for exactly the recovery time |
| `CircuitBreakers.EarlyAdmissionIff` | libflow/storage/circuit_breaker.py:52-92 | before its recovery time a tripped breaker admits a call iff some call has succeeded since the trip and fewer failures than the threshold followed the last success |
| `CircuitBreakers.OpenFailsFast` | libflow/storage/circuit_breaker.py:52-66 | so without a success it admits nobody and stays open, whatever failures still arrive |
| `CircuitBreakers.LateSuccessReopens` | libflow/storage/circuit_breaker.py:76-81 | one success of a call admitted earlier lets callers in at once |
| `CircuitBreakers.BrokenDependencyIsSpared` | libflow/storage/circuit_breaker.py:50-92 | an always failing dependency is called at most threshold times plus once per recovery time elapsed |
| `BookGraphs.BookGraphEngine.AddBookNode` | libflow/dsa/graph.py:30-38 | the book is a node with this description, and keeps the edges it had |
| `BookGraphs.BookGraphEngine.AddRelation` | libflow/dsa/graph.py:40-55 | each title's edges are the old ones followed by exactly the new ones, with weight and kind; a title met for the first time gets a stand-in description and every other keeps its own; every edge target is a node |
| `BookGraphs.BookGraphEngine.BfsShortestPath` | libflow/dsa/graph.py:57-79 | none iff an endpoint is missing or unreachable; otherwise a real path with the fewest edges of any |
| `BookGraphs.ExpandKeepsFrontier` | libflow/dsa/graph.py:74-77 | expanding a node keeps every visited node either expanded or at the end of a queued path |
| `BookGraphs.DfsLearningPath` | libflow/dsa/graph.py:81-104 | the mutating recursive search returns the books of the specified visit |
| `BookGraphs.LearningPathIsSound` | libflow/dsa/graph.py:91-103 | starts at the start, repeats nothing, each later title has an edge from an earlier one and is within the bound |
| `BookGraphs.LearningPathIsComplete` | libflow/dsa/graph.py:91-103 | with a bound of at least the number of titles, exactly the reachable ones |
| `BookGraphs.ShallowBoundListsAll` | libflow/dsa/graph.py:91-103 | with a bound of at most two, the learning path has exactly the titles within the bound |
| `BookGraphs.DeepBoundListsAll` | libflow/dsa/graph.py:91-103 | so it has with a bound of at least the number of titles |
| `BookGraphs.BoundHidesNearTitle` | libflow/dsa/graph.py:91-101 | for every other bound and number of titles, a graph in which a title two edges away is missed |
| `BookGraphs.BoundListsAllIff` | libflow/dsa/graph.py:91-103 | a bound lists everything within it in all graphs of n titles iff it is at most two or at least n |
| `BookGraphs.HeaviestNeighbourNext` | libflow/dsa/graph.py:97-101 | the second title is along a heaviest edge to another title |
| `LruCaches.InMemoryCache.Read` | libflow/storage/cache.py:80-89 | a hit moves to the fresh end, an expired entry is dropped, counters follow |
| `LruCaches.InMemoryCache.Write` | libflow/storage/cache.py:91-97 | the oldest entry gives way when full; with no capacity and nothing stored it raises |
| `LruCaches.InMemoryCache.Invalidate` | libflow/storage/cache.py:99-101 | exactly that key goes, and the answer says whether it was there |
| `LruCaches.InMemoryCache.InvalidatePrefix` | libflow/storage/cache.py:103-108 | exactly the keys with the prefix go, and the count is theirs |
| `LruCaches.InMemoryCache.GetOrCompute` | libflow/storage/cache.py:110-122 | a hit is served, a miss stores what was computed unless that is nothing; raises exactly when a cache without capacity would have to store |
| `LruCaches.ServedUntilExpiry` | libflow/storage/cache.py:54-63 | what is set is served exactly until its lifetime is over, or for ever without one |
| `Recency.ListedByLastUse` | libflow/storage/cache.py:80-122 | whatever the trace, the cache lists its keys in the order in which the trace last asked for or stored them |
| `Recency.WriteEvictsLeastRecent` | libflow/storage/cache.py:91-97 | setting a new key in a full cache removes exactly the key whose last use is longest ago |
| `Recency.HoldsTheMostRecent` | libflow/storage/cache.py:80-122 | while nothing expires or is invalidated, a key is held, and a read of it hits, iff fewer than capacity others have been used since it was |
| `Recency.ServedWasStored` | libflow/storage/cache.py:80-122 | in every trace a hit is the value of some set or load of its key, unexpired, with no set or invalidation of the key since |
| `LruCaches.ComputeKeepsInclusionIff` | libflow/storage/cache.py:110-122 | get-or-compute keeps the smaller cache a subsequence of the larger iff the smaller does not load alone, or loads the very entry the larger holds |
| `LruCaches.LargerCacheIncludesSmaller` | libflow/storage/cache.py:80-122 | under one trace of such loads and any gets, sets and invalidations: the smaller is a subsequence of the larger entry for entry, neither overflows, hits are no more |
| `LruCaches.AlwaysIncludedIff` | libflow/storage/cache.py:80-122 | a trace keeps the smaller inside the larger throughout iff each get-or-compute meets that condition at its turn |
| `LruCaches.PlainTraceIsAlwaysIncluded` | libflow/storage/cache.py:80-108 | every trace of gets, sets and invalidations does |
| `LruCaches.SmallerHitIsLargerHit` | libflow/storage/cache.py:80-89 | after such a trace a hit of the smaller cache is the same hit in the larger |
| `LruCaches.ReloadOutlivesOriginal` | libflow/storage/cache.py:110-122 | a concrete trace of loads after which the smaller cache hits where the larger has expired |
| `Catalog.IssueKeepsCoherence` | libflow/services/circulation_service.py:130 | an issue leaves every coherent page coherent |
| `Catalog.ReturnKeepsCoherence` | libflow/services/circulation_service.py:196 | so does a return |
| `Catalog.StepKeepsCoherence` | libflow/services/catalog_service.py:33-77 | every step leaves a title's coherent page coherent unless it moves one of that title's copies |
| `Catalog.ReadIsFaithful` | libflow/services/catalog_service.py:87-94 | reading a coherent page serves what the repository says |
| `Catalog.MissRestoresCoherence` | libflow/storage/cache.py:110-122 | a read that finds no live page makes its page coherent, whatever was cached |
| `Catalog.PagesAreFaithfulUnlessMoved` | libflow/services/catalog_service.py:87-94 | in every run, transfers included, at any capacity and time: a page read is what the repository says unless a copy of its title has moved since the page was last forgotten or loaded |
| `Catalog.PagesAreNeverStale` | libflow/services/catalog_service.py:87-94 | so in every run without transfers every page is coherent and each read faithful |
| `Catalog.TransferStalesIff` | libflow/distributed/branch_manager.py:63-88 | sending a copy off makes its title's coherent page stale iff the title is physical and the page cached |
| `Catalog.ArrivalStalesIff` | libflow/distributed/branch_manager.py:90-100 | its arrival does so on the same condition |
| `Catalog.TransferMisleadsIff` | libflow/services/catalog_service.py:87-94 | after a departure a read at a given time differs from the repository iff the old page of the physical title is cached and unexpired then |
| `Catalog.ArrivalMisleadsIff` | libflow/services/catalog_service.py:87-94 | after an arrival likewise |
| `Catalog.PageShows` | libflow/core/book.py:72-83 | each column of a page is the field of the listed copy |
| `Catalog.RegisteredPage` | libflow/services/catalog_service.py:33-35 | a title just registered shows its description and no copies, and no other page changes |
| `Catalog.SamePageIff` | libflow/core/book.py:193-202 | two states show the same page iff branch, status, borrower, reserver and borrow count of all listed copies agree |
| `Catalog.PageMisleadsForTenMinutes` | libflow/services/catalog_service.py:87-94 | a page loaded before a departure is wrong afterwards exactly for the 600 seconds from its loading |
| `CatalogServices.CatalogService.RegisterBook` | libflow/services/catalog_service.py:33-43 | the title is replaced in repository and index, suggested in the trie under its own name and each author's, and the search pages and its own page are forgotten |
| `CatalogServices.TitleIsSuggested` | libflow/services/catalog_service.py:38-40 | a registered title has a row under its name with its rating, under each author with nine tenths of it, and no other item's rows change |
| `CatalogServices.TitleIsFound` | libflow/services/catalog_service.py:38-40 | so it is found by every beginning of its name and of its authors' names |
| `CatalogServices.CatalogService.AddPhysicalCopy` | libflow/services/catalog_service.py:53-77 | refused without a physical title; otherwise an available copy is stored and listed and the page forgotten |
| `CatalogServices.CatalogService.GetBookDetails` | libflow/services/catalog_service.py:87-94 | the page and the cache after are those of a cached read with a lifetime of 600 seconds; raises exactly when a cache without capacity would have to store the page |
| `InvertedIndexes.InvertedIndex.IndexBook` | libflow/dsa/inverted_index.py:32-70 | all four dictionaries again agree with a recount of the books, re-indexing included |
| `InvertedIndexes.InvertedIndex.RemoveBook` | libflow/dsa/inverted_index.py:72-82 | they agree without the book, and no posting list it had is left empty |
| `InvertedIndexes.AgreementPerBook` | libflow/dsa/inverted_index.py:32-82 | posted under a term iff its frequency there is positive; its length is the sum of its frequencies |
| `InvertedIndexes.BooksDecideIndex` | libflow/dsa/inverted_index.py:32-82 | any two indexes in agreement with the same books have the same postings, frequencies and lengths, whatever their histories |
| `InvertedIndexes.IndexThenRemove` | libflow/dsa/inverted_index.py:32-82 | indexing a new book and removing it restores every non-empty posting list, all frequencies and all lengths |
| `InvertedIndexes.TokenCounts` | libflow/dsa/inverted_index.py:42-66 | a term counts three times in the title, twice in authors, category and keywords, once in the description and the two spellings of the ISBN |
| `InvertedIndexes.FoundByItsFields` | libflow/dsa/inverted_index.py:42-106 | a book is a candidate iff one of its fields mentions a query term |
| `InvertedIndexes.RarerWeighsMore` | libflow/dsa/inverted_index.py:130-135 | at equal frequency the term fewer books have adds more, for any increasing logarithm |
| `InvertedIndexes.MoreOftenWeighsMore` | libflow/dsa/inverted_index.py:130-135 | a term adds more the more often it occurs among as many |
| `InvertedIndexes.WhatRaisesAScore` | libflow/dsa/inverted_index.py:137-145 | availability adds exactly half a point, rating a tenth of itself up to rounding, and a higher rating never lowers a score |
| `InvertedIndexes.RankingListsExactly` | libflow/dsa/inverted_index.py:100-124 | listed are exactly the books that mention a query term, or all for an empty query, that pass the filters and, if asked, are available |
| `InvertedIndexes.HitsFallByScore` | libflow/dsa/inverted_index.py:147-149 | hits come by falling score |
| `InvertedIndexes.IdfIsPositive` | libflow/dsa/inverted_index.py:118-135 | document frequency is at most the number of books and the logarithm is taken above one |
| `InvertedIndexes.RelevanceIsPositive` | libflow/dsa/inverted_index.py:118-135 | a book's relevance is positive iff it has a query term |
| `InvertedIndexes.Candidates` | libflow/dsa/inverted_index.py:100-116 | the candidates are exactly the books with a query term, or all for an empty query |
| `InvertedIndexes.Rank` | libflow/dsa/inverted_index.py:112-146 | exactly the passing candidates are scored, each once |
| `InvertedIndexes.Search` | libflow/dsa/inverted_index.py:84-149 | the slice up to the limit, negative limits included, of a complete ranking by rounded scores, computed from the books and from what is available at the time; nothing for an empty query without filters |
| `Tries.AutocompleteTrie.Insert` | libflow/dsa/trie.py:25-48 | on the linked nodes: the (phrase, item) row is added or raised to the larger weight, all others untouched |
| `Tries.AutocompleteTrie.Size` | libflow/dsa/trie.py:91-92 | the number of distinct (phrase, item) pairs |
| `Tries.Gather` | libflow/dsa/trie.py:66-80 | the stack traversal keeps, for every item under the prefix, its best row |
| `Tries.PopKeepsFrontier` | libflow/dsa/trie.py:66-80 | each node under the prefix is seen once: stacked subtrees stay disjoint from each other and from what was seen |
| `Tries.AutocompleteTrie.SearchPrefix` | libflow/dsa/trie.py:50-89 | each item with a phrase under the prefix once, at its highest weight, by falling weight then text, cut at the limit |
| `Tries.AnswersByWeightThenText` | libflow/dsa/trie.py:80-84 | of two answers the earlier is heavier, or as heavy with a text not greater at the first difference |
| `Tries.TableHoldsLastText` | libflow/dsa/trie.py:40-47 | a row has the text of its pair's last insertion |
| `Tries.SearchShowsLastText` | libflow/dsa/trie.py:68-89 | and an answer that of the last insertion of the item under one of its phrases with the prefix |
| `Tries.TableHoldsMaxima` | libflow/dsa/trie.py:35-48 | after any inserts a row is there iff inserted, with the highest weight inserted |
| `Tries.ExtendsIsPrefix` | libflow/dsa/trie.py:54-62 | a node lies under another iff its phrase has the other's as prefix |
| `Tries.SearchFindsTheInserted` | libflow/dsa/trie.py:50-89 | the items found are exactly those inserted with a phrase under the prefix |
| `Tries.SearchIsFlatScan` | libflow/dsa/trie.py:50-89 | and each is shown with the maximum weight over those insertions |
| `Sorting.SortIsStable` | libflow/dsa/graph.py:98 | sorting permutes, orders, and keeps ties in their order |
| `Sorting.CutIsPrefix` | libflow/dsa/trie.py:86-89 | the slice is the first elements up to the limit, or all but the last few for a negative one |

## Left out

- Floating point: scores, priorities, weights and times are exact reals, so rounding of distances, shown utilities and fines is not modelled (search scores are rounded, as reals); the logarithm is a parameter positive above one.
- Demand forecasts, branch distances and token lists are inputs; forecasting, haversine distance and the token pattern are not modelled.
- `calculate_priority`, related recommendations, fine and payment strategies, risk scores: single-branch arithmetic.
- Outcome metrics of the rebalancer (`transfers_tracked`, `record_checkout_hook`): bookkeeping that no modelled operation reads.
- Notifications, audit log, metrics, HTTP routes, authentication, containers, seeds: no state the model depends on.
- PostgreSQL repositories and the Redis cache; Redis is modelled only as a key with expiry, for the lock and the version script.
- The Redis path of the idempotency store.
- Marking copies lost or under repair as steps of a run: no service does; one lemma shows what it would break.
- Adding a copy id or a user twice, and deleting books: runs add each once.
- Waiting times, pickup windows and dates: nothing reads them.
- Interleaving inside one circulation operation: each is one atomic step of a run. The per-copy lock does not cover the account or the queues, so two concurrent issues of different copies to one user are outside the model.
- Reservation entries and a title's copies are kept by id, the entry or copy itself being looked up in its map; in the source both hold the same object.
- Binary heaps are kept as sequences that the methods return, in the layout of the standard library's heap.
- Strings as idempotency and lock keys are opaque; two user and key pairs that spell the same key are not told apart.
- CirculationServices.CirculationService.IssuePhysicalBook: does not model the due date and the demand counter, which no modelled operation reads.
- Catalog.PagesAreNeverStale: assumes no transfers, because the source does not forget pages on them; `PagesAreFaithfulUnlessMoved` covers runs with transfers.
- CatalogServices.CatalogService.RegisterBook: the fields of a title that only its page shows are one string.
- CatalogServices.CatalogService.AddPhysicalCopy: does not save the whole title again after the copy, which would store the same objects under the same ids.
- Outboxes.EveryInterleavingDeliversOnce: assumes that marking does not raise while its worker lives; a worker that dies instead is modelled.
- Idempotency.AtMostOnceWithinLifetime: assumes each execution ends within its lease; the lemmas on overruns say exactly what else can happen.
