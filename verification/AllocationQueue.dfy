/**
  The smart-allocation queue of one title. The class keeps a binary heap; what callers may rely on is the sequence
  of waiting requests in service order, given by `QueueState`.
 */
module AllocationQueues {
  import opened Types
  import opened Heaps
  import opened Sorting

  datatype Request = Request(requestId: string, userId: UserId, branchId: BranchId)

  type Entry = Item<Request>

  /** The waiting requests in service order, and how many have ever been enqueued. */
  datatype QueueState = QueueState(pending: seq<Entry>, counter: nat) {
    function Enqueue(request: Request, priority: real): QueueState {
      QueueState(Insert(Item(-priority, counter + 1, request), pending, Less), counter + 1)
    }

    function Pop(): (Option<Entry>, QueueState) {
      if pending == [] then (None, this) else (Some(pending[0]), QueueState(pending[1..], counter))
    }

    /** Strictly by falling priority, equal priorities by enqueue number; every number was given out. */
    ghost predicate InServiceOrder() {
      Strict(pending) && NumberedWithin(pending, counter)
    }
  }

  ghost predicate Strict(s: seq<Entry>) {
    forall i, j :: 0 <= i < j < |s| ==> Less(s[i], s[j])
  }

  ghost predicate NumberedWithin(s: seq<Entry>, bound: nat) {
    forall x :: x in s ==> 0 < x.entryId <= bound
  }

  lemma LessIsStrictWeakOrder()
    ensures StrictWeakOrder<Entry>(Less)
  {
  }

  lemma EnqueueKeepsServiceOrder(q: QueueState, request: Request, priority: real)
    requires q.InServiceOrder()
    ensures q.Enqueue(request, priority).InServiceOrder()
    ensures multiset(q.Enqueue(request, priority).pending) == multiset(q.pending) + multiset{Item(-priority, q.counter + 1, request)}
  {
    var x: Entry := Item(-priority, q.counter + 1, request);
    InsertPermutes(x, q.pending, Less);
    InsertFresh(x, q.pending);
    InsertNumbered(x, q.pending, q.counter);
  }

  lemma {:induction false} InsertNumbered(x: Entry, s: seq<Entry>, bound: nat)
    requires NumberedWithin(s, bound) && x.entryId == bound + 1
    ensures NumberedWithin(Insert(x, s, Less), bound + 1)
  {
    if s != [] {
      assert s[0] in s;
      InsertNumbered(x, s[1..], bound);
    }
  }

  lemma {:induction false} InsertFresh(x: Entry, s: seq<Entry>)
    requires Strict(s) && forall y :: y in s ==> y.entryId < x.entryId
    ensures Strict(Insert(x, s, Less))
  {
    if s != [] {
      if Less(s[0], x) {
        InsertFresh(x, s[1..]);
        InsertPermutes(x, s[1..], Less);
        var r := Insert(x, s[1..], Less);
        forall j | 0 <= j < |r| ensures Less(s[0], r[j]) {
          assert r[j] in multiset(r);
        }
      } else {
        assert s[0] in s;
        forall j | 0 <= j < |s| ensures Less(x, s[j]) {
        }
      }
    }
  }

  class SmartAllocationQueue {
    const isbn: Isbn
    var heap: seq<Entry>
    var entryCounter: nat

    /** The service order that the heap stands for; `ToList` shows it, and it is what popping yields. */
    function View(): QueueState
      reads this
    {
      QueueState(Sort(heap, Less), entryCounter)
    }

    ghost predicate Valid()
      reads this
    {
      IsHeap(heap) && View().InServiceOrder()
    }

    constructor (isbn: Isbn)
      ensures Valid() && this.isbn == isbn && View() == QueueState([], 0)
    {
      this.isbn, heap, entryCounter := isbn, [], 0;
    }

    method Enqueue(request: Request, priority: real) returns (entry: Entry)
      requires Valid()
      modifies this
      ensures Valid()
      ensures entry == Item(-priority, old(entryCounter) + 1, request)
      ensures View() == old(View()).Enqueue(request, priority)
    {
      ghost var before, oldHeap := View(), heap;
      entry := Item(-priority, entryCounter + 1, request);
      var newHeap := Push(heap, entry);
      heap, entryCounter := newHeap, entryCounter + 1;
      HeapWithEntry(before, oldHeap, newHeap, request, priority);
    }

    method PopHighestPriority() returns (r: Option<Entry>)
      requires Valid()
      modifies this
      ensures Valid()
      ensures (r, View()) == old(View()).Pop()
    {
      if heap == [] {
        return None;
      }
      var x, rest := Pop(heap);
      HeapWithoutLeast(View(), heap, x, rest);
      heap := rest;
      r := Some(x);
    }

    method Peek() returns (r: Option<Entry>)
      requires Valid()
      ensures r == View().Pop().0
    {
      SortedHeap(heap);
      if heap != [] {
        RootIsLeast(heap);
        LeastIsFirst(View(), heap[0], heap);
      }
      r := if heap != [] then Some(heap[0]) else None;
    }

    function Size(): (n: nat)
      reads this
      ensures n == |View().pending|
    {
      SortedHeap(heap);
      |heap|
    }

    /** The report of waiting requests, most urgent first, with the priority's sign restored. */
    function ToList(): (rows: seq<(Request, real)>)
      reads this
      ensures |rows| == |View().pending|
      ensures forall i :: 0 <= i < |rows| ==> rows[i] == (View().pending[i].payload, -View().pending[i].priority)
    {
      var sorted := Sort(heap, Less);
      seq(|sorted|, i requires 0 <= i < |sorted| => (sorted[i].payload, -sorted[i].priority))
    }
  }

  lemma SortedHeap(heap: seq<Entry>)
    ensures multiset(Sort(heap, Less)) == multiset(heap) && |Sort(heap, Less)| == |heap|
    ensures Sorted(Sort(heap, Less), Less)
  {
    LessIsStrictWeakOrder();
    SortIsStable(heap, Less);
  }

  /** A heap holding the entries of `q` sorts to exactly `q`'s service order. */
  lemma HeapSortsTo(heap: seq<Entry>, q: QueueState)
    requires q.InServiceOrder() && multiset(heap) == multiset(q.pending)
    ensures Sort(heap, Less) == q.pending
  {
    LessIsStrictWeakOrder();
    SortedHeap(heap);
    forall a, b | a in Sort(heap, Less) && b in Sort(heap, Less) && a != b ensures Less(a, b) || Less(b, a) {
      assert a in multiset(q.pending) && b in multiset(q.pending);
      var i :| 0 <= i < |q.pending| && q.pending[i] == a;
      var j :| 0 <= j < |q.pending| && q.pending[j] == b;
    }
    SortedIsUnique(Sort(heap, Less), q.pending, Less);
  }

  lemma HeapWithEntry(q: QueueState, heap: seq<Entry>, heap': seq<Entry>, request: Request, priority: real)
    requires q.InServiceOrder() && q.pending == Sort(heap, Less)
    requires multiset(heap') == multiset(heap) + multiset{Item(-priority, q.counter + 1, request)}
    ensures q.Enqueue(request, priority).InServiceOrder()
    ensures Sort(heap', Less) == q.Enqueue(request, priority).pending
  {
    SortedHeap(heap);
    EnqueueKeepsServiceOrder(q, request, priority);
    HeapSortsTo(heap', q.Enqueue(request, priority));
  }

  lemma LeastIsFirst(q: QueueState, x: Entry, heap: seq<Entry>)
    requires q.InServiceOrder() && multiset(heap) == multiset(q.pending) && q.pending != []
    requires x in heap && IsLeast(x, heap)
    ensures x == q.pending[0]
  {
    assert x in multiset(q.pending) && q.pending[0] in multiset(heap);
    var i :| 0 <= i < |q.pending| && q.pending[i] == x;
    assert q.pending[0] in heap;
  }

  lemma TailOfServiceOrder(q: QueueState, x: Entry, heap: seq<Entry>)
    requires q.InServiceOrder() && multiset(heap) == multiset(q.pending) && q.pending != []
    requires x in heap && IsLeast(x, heap)
    ensures x == q.pending[0] && q.Pop().1.InServiceOrder()
    ensures multiset(q.Pop().1.pending) == multiset(heap) - multiset{x}
  {
    LeastIsFirst(q, x, heap);
    TailMultiset(q.pending);
  }

  /** Taking the least entry off a heap takes the first off the service order. */
  lemma HeapWithoutLeast(q: QueueState, heap: seq<Entry>, x: Entry, rest: seq<Entry>)
    requires q.InServiceOrder() && q.pending == Sort(heap, Less) && heap != []
    requires multiset(heap) == multiset(rest) + multiset{x} && IsLeast(x, heap)
    ensures q.Pop() == (Some(x), QueueState(Sort(rest, Less), q.counter))
    ensures q.Pop().1.InServiceOrder()
  {
    SortedHeap(heap);
    assert x in multiset(heap);
    TailOfServiceOrder(q, x, heap);
    HeapSortsTo(rest, q.Pop().1);
  }

  // ---- whole runs

  datatype Op = Arrive(request: Request, priority: real) | Serve

  /** The queue after a run, with what was enqueued and what was served, both in time order. */
  datatype History = History(queue: QueueState, arrived: seq<Entry>, served: seq<Entry>)

  function Apply(h: History, op: Op): History {
    match op
    case Arrive(request, priority) =>
      History(h.queue.Enqueue(request, priority), h.arrived + [Item(-priority, h.queue.counter + 1, request)], h.served)
    case Serve =>
      var (r, queue) := h.queue.Pop();
      History(queue, h.arrived, if r.Some? then h.served + [r.value] else h.served)
  }

  function After(ops: seq<Op>): History {
    if ops == [] then History(QueueState([], 0), [], []) else Apply(After(ops[..|ops| - 1]), ops[|ops| - 1])
  }

  ghost predicate Conserved(h: History) {
    && h.queue.InServiceOrder()
    && multiset(h.arrived) == multiset(h.served) + multiset(h.queue.pending)
    && |h.arrived| == h.queue.counter
    && (forall i :: 0 <= i < |h.arrived| ==> h.arrived[i].entryId == i + 1)
  }

  /** Over every run: nothing is lost or served twice, and the queue stays in service order. */
  lemma {:induction false} RunsConserveRequests(ops: seq<Op>)
    ensures Conserved(After(ops))
  {
    if ops != [] {
      RunsConserveRequests(ops[..|ops| - 1]);
      ApplyConserves(After(ops[..|ops| - 1]), ops[|ops| - 1]);
    }
  }

  lemma ApplyConserves(h: History, op: Op)
    requires Conserved(h)
    ensures Conserved(Apply(h, op))
  {
    match op
    case Arrive(request, priority) => EnqueueKeepsServiceOrder(h.queue, request, priority);
    case Serve => ServeConserves(h.queue);
  }

  lemma ServeConserves(q: QueueState)
    requires q.InServiceOrder()
    ensures q.Pop().1.InServiceOrder() && q.Pop().1.counter == q.counter
    ensures q.Pop().0.Some? ==> multiset(q.pending) == multiset(q.Pop().1.pending) + multiset{q.Pop().0.value}
    ensures q.Pop().0.None? ==> q.Pop().1 == q
  {
    if q.pending != [] {
      TailMultiset(q.pending);
      assert q.pending == [q.pending[0]] + q.pending[1..];
    }
  }

  function Drain(q: QueueState): seq<Entry>
    decreases |q.pending|
  {
    match q.Pop()
    case (None, _) => []
    case (Some(x), rest) => [x] + Drain(rest)
  }

  /** Popping until empty yields the reported order: equal priorities leave in the order they came. */
  lemma {:induction false} DrainFollowsReport(q: QueueState)
    requires q.InServiceOrder()
    ensures Drain(q) == q.pending
    ensures forall i, j :: 0 <= i < j < |Drain(q)| ==>
      && Drain(q)[i].priority <= Drain(q)[j].priority
      && (Drain(q)[i].priority == Drain(q)[j].priority ==> Drain(q)[i].entryId < Drain(q)[j].entryId)
    decreases |q.pending|
  {
    if q.pending != [] {
      DrainFollowsReport(q.Pop().1);
    }
  }
}
