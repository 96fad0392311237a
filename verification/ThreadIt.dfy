/** CThreadIt: any number of clients that call startWork, one worker thread inside threadRoutine,
    and the two queues between them. Each step is one action that a mutex, a critical section or
    the kernel makes atomic, or one stretch of worker code that touches only the worker's own data. */
module ThreadIt {
  import opened Text
  import E = EventProtocol
  import Q = QueueProtocol

  const MAX_WORK_METHODS: nat := 50
  const ULONG_MAX: nat := 0xffff_ffff

  type Ptr = nat

  /** The worker's thread number in both queues; clients are numbered from 1. */
  const WORKER: nat := 0

  datatype Status = Unset | NoMethod | InvalidInstruction | InvalidDoneQueue

  /** The fields of a CWorkPackIt that startWork, threadRoutine and sendResponse look at. */
  datatype Pack = Pack(
    id: nat, instruction: nat, notify: bool, send: bool, useDefaultQ: bool, callerQ: Option<nat>,
    itemInCallback: bool, item: nat, status: Status)

  /** A pack together with the startWork call that queued it. */
  datatype Item = Item(client: nat, ptr: Ptr)

  datatype Callback = Callback(instruction: nat, workId: nat, periodic: bool, item: nat)

  /** The value of Result after WaitForMultipleObjectsEx: a signalled slot of hEventList, or a
      time-out, a delivered I/O completion or a failure. */
  datatype Wait = Slot(k: nat) | NoSlot

  /** Which branch of threadRoutine called sendResponse. */
  datatype Origin = FromWork | FromEvent | FromPeriod

  /** Where the worker stands. */
  datatype Pc =
    | Top                      // start of an iteration
    | Waiting                  // inside WaitForMultipleObjectsEx
    | Woken                    // Result assigned, before the work branch
    | Holding                  // signal taken, about to pop
    | Got                      // popped pWorkDone, about to decode its instruction
    | Returned(work: nat, periodic: bool, from: Origin) // about to call sendResponse(pWorkDone, ..)
    | Sending(from: Origin)    // callback filled in, result not handed on
    | Signalling(from: Origin) // pushed on m_DoneQ, semaphore not released
    | Notifying(from: Origin)  // handed on, callback not fired
    | EventTest
    | PeriodTest
    | Bottom
    | Exited

  /** What sendResponse did, in order. */
  datatype Entry =
    | Delivered(ptr: Ptr, pack: Pack)   // the pack as it was when the worker let go of it
    | Fired(callback: Callback)

  /** Every pack ever allocated, and those that are in neither queue nor the worker's hands. */
  datatype Store = Store(
    heap: map<Ptr, Pack>,
    hands: multiset<Ptr>,         // owned by client code
    theirs: multiset<Ptr>,        // in queues supplied by callers
    kept: multiset<Ptr>,          // not given back by a worker, event or periodic method
    freed: multiset<Ptr>,
    undeliverable: multiset<Ptr>)

  /** The startWork calls. */
  datatype Calls = Calls(
    nextId: nat,                  // m_WorkPackID
    flight: seq<Item>,            // calls between the id step and the push
    issued: seq<Item>,            // all calls, in the order of their id steps
    ids: seq<nat>)                // the identities they were given

  /** The worker's locals and the members only it writes. */
  datatype Worker = Worker(
    pc: Pc,
    result: Wait,                 // Result
    local: Option<Ptr>,           // pWorkDone, never reset between iterations
    notify: bool,                 // the local flag of sendResponse
    callback: Callback,           // m_theCallback
    listed: nat,                  // theEventCounter
    dispatched: seq<Ptr>,         // the packs whose instruction was decoded and dispatched, in order
    log: seq<Entry>)

  datatype Switches = Switches(
    exit: bool,                   // m_isExitThread
    methods: set<nat>,            // instructions with a worker method
    events: nat)                  // registered event methods

  datatype State = State(
    store: Store, calls: Calls, work: Q.Queue<Item>, done: Q.Queue<Ptr>, worker: Worker, switches: Switches)

  /** What a worker, event or periodic method does with its input and its output parameter, and the pack
      it returns as the method leaves it. A result other than the input is a new allocation or a pack that
      client code had in its hands; an input it does not return is freed or kept by the method. Event and
      periodic methods have no input pack. */
  datatype Outcome =
    | Same(pack: Pack)
    | Fresh(d: Ptr, pack: Pack, frees: bool)
    | Reused(d: Ptr, pack: Pack, frees: bool)
    | Nothing(frees: bool)

  datatype ClientStep =
    | Alloc(p: Ptr, pack: Pack)
    | Write(p: Ptr, pack: Pack)
    | Issue(c: nat, p: Ptr)
    | PushWork(i: nat)
    | SignalWork(c: nat)
    | TakeDone(c: nat)
    | PopDone(c: nat)
    | Collect(p: Ptr)
    | Recall(p: Ptr)
    | Free(p: Ptr)
    | StopFlag
    | StopSignal
    | SetMethod(i: nat)
    | SetEvent

  datatype WorkerStep =
    | Begin
    | Wake(w: Wait)
    | TestWork
    | PopWork
    | Invoke(o: Outcome)
    | SetUp
    | Deliver
    | SignalDone
    | Notify
    | TestEvent(o: Outcome)
    | TestPeriod(expired: bool, ok: bool, o: Outcome)
    | Loop

  datatype Step = Client(c: ClientStep) | Work(w: WorkerStep)

  function Init(): State {
    State(Store(map[], multiset{}, multiset{}, multiset{}, multiset{}, multiset{}), Calls(0, [], [], []),
          Q.Init(), Q.Init(), Worker(Top, NoSlot, None, false, Callback(0, 0, false, 0), 0, [], []),
          Switches(false, {}, 0))
  }

  // ---- Clients ----

  /** The identity step of startWork, under m_Access. */
  function NextId(id: nat): nat {
    if id >= ULONG_MAX then 0 else id + 1
  }

  predicate CanIssue(s: State, c: nat, p: Ptr) {
    && c != WORKER && p in s.store.hands && p in s.store.heap && Q.Idle(s.work, c)
    && forall i :: 0 <= i < |s.calls.flight| ==> s.calls.flight[i].client != c
  }

  function IssueCall(k: Calls, c: nat, p: Ptr): Calls {
    var id := NextId(k.nextId);
    Calls(id, k.flight + [Item(c, p)], k.issued + [Item(c, p)], k.ids + [id])
  }

  function IssueStore(st: Store, id: nat, p: Ptr): Store
    requires p in st.heap
  {
    st.(heap := st.heap[p := st.heap[p].(id := id)], hands := st.hands - multiset{p})
  }

  function DropCall(k: Calls, i: nat): Calls
    requires i < |k.flight|
  {
    k.(flight := k.flight[..i] + k.flight[i + 1..])
  }

  function PopDoneStore(st: Store, items: seq<Ptr>): Store {
    if items == [] then st else st.(hands := st.hands + multiset{items[0]})
  }

  predicate ClientEnabled(s: State, e: ClientStep) {
    match e
    case Alloc(p, _) => p !in s.store.heap
    case Write(p, _) => p in s.store.hands && p in s.store.heap
    case Issue(c, p) => CanIssue(s, c, p)
    case PushWork(i) => i < |s.calls.flight| && Q.Idle(s.work, s.calls.flight[i].client)
    case SignalWork(c) => c != WORKER && c in s.work.unsignalled
    case TakeDone(c) => c != WORKER && Q.Enabled(s.done, Q.Take(c))
    case PopDone(c) => c != WORKER && c in s.done.takers
    case Collect(p) => p in s.store.theirs
    case Recall(p) => p in s.store.kept
    case Free(p) => p in s.store.hands
    case StopFlag => true
    case StopSignal => s.switches.exit
    case SetMethod(i) => i < MAX_WORK_METHODS
    case SetEvent => s.switches.events < E.MAX_EVENT_METHODS
  }

  function DoClient(s: State, e: ClientStep): State
    requires ClientEnabled(s, e)
  {
    var st := s.store;
    match e
    case Alloc(p, pack) => s.(store := st.(heap := st.heap[p := pack], hands := st.hands + multiset{p}))
    case Write(p, pack) => s.(store := st.(heap := st.heap[p := pack]))
    case Issue(c, p) => s.(store := IssueStore(st, NextId(s.calls.nextId), p), calls := IssueCall(s.calls, c, p))
    case PushWork(i) =>
      var x := s.calls.flight[i];
      s.(calls := DropCall(s.calls, i), work := Q.Do(s.work, Q.Push(x.client, x)))
    case SignalWork(c) => s.(work := Q.Do(s.work, Q.Signal(c)))
    case TakeDone(c) => s.(done := Q.Do(s.done, Q.Take(c)))
    case PopDone(c) => s.(store := PopDoneStore(st, s.done.items), done := Q.Do(s.done, Q.Pop(c)))
    case Collect(p) => s.(store := st.(theirs := st.theirs - multiset{p}, hands := st.hands + multiset{p}))
    case Recall(p) => s.(store := st.(kept := st.kept - multiset{p}, hands := st.hands + multiset{p}))
    case Free(p) => s.(store := st.(hands := st.hands - multiset{p}, freed := st.freed + multiset{p}))
    case StopFlag => s.(switches := s.switches.(exit := true))
    case StopSignal => s.(work := Q.Do(s.work, Q.Stop))
    case SetMethod(i) => s.(switches := s.switches.(methods := s.switches.methods + {i}))
    case SetEvent => s.(switches := s.switches.(events := s.switches.events + 1))
  }

  // ---- The worker ----

  /** A result is new, or comes from the hands of client code. */
  predicate PossibleOutcome(st: Store, o: Outcome) {
    && (o.Fresh? ==> o.d !in st.heap)
    && (o.Reused? ==> o.d in st.heap && o.d in st.hands)
  }

  predicate HasResult(o: Outcome) { o.Fresh? || o.Reused? }

  /** A result other than the input, as the method leaves it. */
  function Produce(st: Store, o: Outcome): Store
    requires HasResult(o)
  {
    st.(heap := st.heap[o.d := o.pack], hands := if o.Reused? then st.hands - multiset{o.d} else st.hands)
  }

  /** pWorkDone points at a pack of the heap. */
  predicate LocalOk(st: Store, w: Worker) {
    w.local.Some? && w.local.value in st.heap
  }

  /** Where control goes after sendResponse. */
  function Resume(from: Origin): Pc {
    match from case FromWork => EventTest case FromEvent => PeriodTest case FromPeriod => Bottom
  }

  /** The input of a worker method that did not return it. */
  function Dispose(st: Store, p: Ptr, frees: bool): Store {
    if frees then st.(freed := st.freed + multiset{p}) else st.(kept := st.kept + multiset{p})
  }

  /** Lines 416 to 451: decode the instruction and run the worker method, if there is one. */
  function InvokeMethod(st: Store, w: Worker, methods: set<nat>, o: Outcome): (Store, Worker)
    requires LocalOk(st, w)
  {
    var p := w.local.value;
    var i := st.heap[p].instruction;
    var v := w.(pc := Returned(i, false, FromWork), dispatched := w.dispatched + [p]);
    if i >= MAX_WORK_METHODS then (st.(heap := st.heap[p := st.heap[p].(status := InvalidInstruction)]), v)
    else if i !in methods then (st.(heap := st.heap[p := st.heap[p].(status := NoMethod)]), v)
    else match o
      case Same(pack) => (st.(heap := st.heap[p := pack]), v)
      case Fresh(d, _, frees) => (Produce(Dispose(st, p, frees), o), v.(local := Some(d)))
      case Reused(d, _, frees) => (Produce(Dispose(st, p, frees), o), v.(local := Some(d)))
      case Nothing(frees) => (Dispose(st, p, frees), v.(local := None))
  }

  /** The first half of sendResponse reads every field it will need. */
  function SetUpResponse(st: Store, w: Worker): Worker
    requires w.pc.Returned? && (w.local.Some? ==> w.local.value in st.heap)
  {
    if w.local == None then w.(pc := Resume(w.pc.from))
    else
      var f := st.heap[w.local.value];
      var item := if f.itemInCallback then f.item else w.callback.item;
      var cb := if f.notify then Callback(f.instruction, w.pc.work, w.pc.periodic, item) else w.callback;
      w.(pc := Sending(w.pc.from), notify := f.notify, callback := cb)
  }

  predicate ToDoneQ(f: Pack) { f.send && f.useDefaultQ }

  function DeliverStore(st: Store, d: Ptr): Store
    requires d in st.heap
  {
    var f := st.heap[d];
    if ToDoneQ(f) then st
    else if f.send && f.callerQ.Some? then st.(theirs := st.theirs + multiset{d})
    else if f.send then st.(heap := st.heap[d := f.(status := InvalidDoneQueue)],
                            undeliverable := st.undeliverable + multiset{d})
    else st.(freed := st.freed + multiset{d})
  }

  function DeliverWorker(st: Store, w: Worker): Worker
    requires w.pc.Sending? && LocalOk(st, w)
  {
    var f := st.heap[w.local.value];
    w.(pc := if ToDoneQ(f) then Signalling(w.pc.from) else Notifying(w.pc.from),
       local := if f.send then w.local else None,
       log := w.log + [Delivered(w.local.value, f)])
  }

  function FireCallback(w: Worker): Worker
    requires w.pc.Notifying?
  {
    w.(pc := Resume(w.pc.from), log := if w.notify then w.log + [Fired(w.callback)] else w.log)
  }

  /** Lines 461 to 497. In the last case, "invalid event method", pWorkDone still holds whatever
      an earlier response left in it. */
  function EventBranch(st: Store, w: Worker, g: Switches, o: Outcome): (Store, Worker) {
    if !g.exit && w.result.Slot? && 0 < w.result.k <= w.listed then
      var v := w.(pc := Returned(w.result.k, false, FromEvent));
      if w.result.k < w.listed && w.result.k - 1 < g.events then
        if HasResult(o) then (Produce(st, o), v.(local := Some(o.d)))
        else (st, v.(local := None))
      else (st, v)
    else (st, w.(pc := PeriodTest))
  }

  /** Lines 499 to 543. The periodic method cannot change TimedWork, so the instruction put into
      its result is always 0; a result returned together with false is dropped. */
  function PeriodBranch(st: Store, w: Worker, g: Switches, expired: bool, ok: bool, o: Outcome): (Store, Worker) {
    if g.exit || !expired then (st, w.(pc := Bottom))
    else if !HasResult(o) then (st, w.(local := None, pc := Bottom))
    else if ok then (Produce(st, o.(pack := o.pack.(instruction := 0))),
                     w.(local := Some(o.d), pc := Returned(0, true, FromPeriod)))
    else
      var r := Produce(st, o);
      (r.(kept := r.kept + multiset{o.d}), w.(local := Some(o.d), pc := Bottom))
  }

  predicate WorkerEnabled(s: State, e: WorkerStep) {
    var w := s.worker;
    match e
    case Begin => w.pc == Top
    case Wake(r) => w.pc == Waiting && (r.Slot? ==> r.k < w.listed)
                    && (r == Slot(0) ==> Q.Enabled(s.work, Q.Take(WORKER)))
    case TestWork => w.pc == Woken
    case PopWork => w.pc == Holding && WORKER in s.work.takers
    case Invoke(o) => w.pc == Got && LocalOk(s.store, w) && PossibleOutcome(s.store, o)
    case SetUp => w.pc.Returned? && (w.local.Some? ==> LocalOk(s.store, w))
    case Deliver => w.pc.Sending? && LocalOk(s.store, w) && Q.Idle(s.done, WORKER)
    case SignalDone => w.pc.Signalling? && WORKER in s.done.unsignalled
    case Notify => w.pc.Notifying?
    case TestEvent(o) => w.pc == EventTest && PossibleOutcome(s.store, o)
    case TestPeriod(_, _, o) => w.pc == PeriodTest && PossibleOutcome(s.store, o)
    case Loop => w.pc == Bottom
  }

  function PopWorkWorker(w: Worker, items: seq<Item>): Worker {
    if items == [] then w.(pc := EventTest) else w.(pc := Got, local := Some(items[0].ptr))
  }

  function DoWorker(s: State, e: WorkerStep): State
    requires WorkerEnabled(s, e)
  {
    var w, g := s.worker, s.switches;
    match e
    case Begin => s.(worker := if g.exit then w.(pc := Woken) else w.(pc := Waiting, listed := 1 + g.events))
    case Wake(r) =>
      var t := s.(worker := w.(pc := Woken, result := r));
      if r == Slot(0) then t.(work := Q.Do(s.work, Q.Take(WORKER))) else t
    case TestWork =>
      if !g.exit && w.result == Slot(0) then s.(worker := w.(pc := Holding))
      else
        var t := s.(worker := w.(pc := EventTest));
        if WORKER in s.work.takers then t.(work := Q.Do(s.work, Q.Abandon(WORKER))) else t
    case PopWork => s.(worker := PopWorkWorker(w, s.work.items), work := Q.Do(s.work, Q.Pop(WORKER)))
    case Invoke(o) => var (st, v) := InvokeMethod(s.store, w, g.methods, o); s.(store := st, worker := v)
    case SetUp => s.(worker := SetUpResponse(s.store, w))
    case Deliver =>
      var d := w.local.value;
      var t := s.(store := DeliverStore(s.store, d), worker := DeliverWorker(s.store, w));
      if ToDoneQ(s.store.heap[d]) then t.(done := Q.Do(s.done, Q.Push(WORKER, d))) else t
    case SignalDone => s.(done := Q.Do(s.done, Q.Signal(WORKER)), worker := w.(pc := Notifying(w.pc.from)))
    case Notify => s.(worker := FireCallback(w))
    case TestEvent(o) => var (st, v) := EventBranch(s.store, w, g, o); s.(store := st, worker := v)
    case TestPeriod(x, ok, o) => var (st, v) := PeriodBranch(s.store, w, g, x, ok, o); s.(store := st, worker := v)
    case Loop => s.(worker := w.(pc := if g.exit then Exited else Top))
  }

  // ---- Runs ----

  predicate Enabled(s: State, e: Step) {
    match e case Client(c) => ClientEnabled(s, c) case Work(w) => WorkerEnabled(s, w)
  }

  function Do(s: State, e: Step): State
    requires Enabled(s, e)
  {
    match e case Client(c) => DoClient(s, c) case Work(w) => DoWorker(s, w)
  }

  predicate Runs(s: State, es: seq<Step>)
    decreases |es|
  {
    es == [] || (Enabled(s, es[0]) && Runs(Do(s, es[0]), es[1..]))
  }

  function After(s: State, es: seq<Step>): State
    requires Runs(s, es)
    decreases |es|
  {
    if es == [] then s else After(Do(s, es[0]), es[1..])
  }

  // ---- Control: where the worker and the clients stand in the two queues ----

  ghost predicate WorkerPlace(w: Worker, g: Switches) {
    && w.listed <= 1 + g.events <= 1 + E.MAX_EVENT_METHODS
    && (w.result.Slot? ==> w.result.k < w.listed)
    && (w.pc == Waiting ==> w.listed >= 1)
  }

  ghost predicate WorkPlace(w: Worker, g: Switches, q: Q.Queue<Item>) {
    && Q.Inv(q)
    && WORKER !in q.unsignalled
    && (WORKER in q.takers ==> w.pc == Holding || (w.pc == Woken && w.result == Slot(0)))
    && (w.pc == Holding ==> WORKER in q.takers)
    && (w.pc == Woken && w.result == Slot(0) && !g.exit ==> WORKER in q.takers)
  }

  ghost predicate DonePlace(w: Worker, q: Q.Queue<Ptr>) {
    && Q.Inv(q)
    && WORKER !in q.takers
    && (WORKER in q.unsignalled <==> w.pc.Signalling?)
  }

  /** A client is inside at most one startWork call. */
  ghost predicate Distinct(xs: seq<Item>) {
    forall i, j :: 0 <= i < j < |xs| ==> xs[i].client != xs[j].client
  }

  ghost predicate CallerPlace(flight: seq<Item>, q: Q.Queue<Item>) {
    && Distinct(flight)
    && forall i :: 0 <= i < |flight| ==> flight[i].client != WORKER && Q.Idle(q, flight[i].client)
  }

  ghost predicate Control(s: State) {
    && WorkerPlace(s.worker, s.switches)
    && WorkPlace(s.worker, s.switches, s.work)
    && DonePlace(s.worker, s.done)
    && CallerPlace(s.calls.flight, s.work)
  }

  lemma PushWorkKeepsControl(s: State, i: nat)
    requires Control(s) && ClientEnabled(s, PushWork(i))
    ensures Control(DoClient(s, PushWork(i)))
  {
    hide Q.Inv;
    Q.StepKeepsInv(s.work, Q.Push(s.calls.flight[i].client, s.calls.flight[i]));
  }

  lemma SignalKeepsControl(s: State, e: ClientStep)
    requires Control(s) && ClientEnabled(s, e) && (e.SignalWork? || e.StopSignal?)
    ensures Control(DoClient(s, e))
  {
    hide Q.Inv;
    match e
    case SignalWork(c) => Q.StepKeepsInv(s.work, Q.Signal(c));
    case StopSignal => Q.StepKeepsInv(s.work, Q.Stop);
  }

  lemma TakeAndPopKeepControl(s: State, e: ClientStep)
    requires Control(s) && ClientEnabled(s, e) && (e.TakeDone? || e.PopDone?)
    ensures Control(DoClient(s, e))
  {
    hide Q.Inv, WorkPlace, WorkerPlace, CallerPlace;
    match e
    case TakeDone(c) => Q.StepKeepsInv(s.done, Q.Take(c));
    case PopDone(c) => Q.StepKeepsInv(s.done, Q.Pop(c));
  }

  lemma OtherClientsKeepControl(s: State, e: ClientStep)
    requires Control(s) && ClientEnabled(s, e)
    requires !e.PushWork? && !e.SignalWork? && !e.StopSignal? && !e.TakeDone? && !e.PopDone?
    ensures Control(DoClient(s, e))
  {
    hide Q.Inv, Q.Do;
  }

  lemma ClientKeepsControl(s: State, e: ClientStep)
    requires Control(s) && ClientEnabled(s, e)
    ensures Control(DoClient(s, e))
  {
    hide Control, DoClient;
    match e
    case PushWork(i) => PushWorkKeepsControl(s, i);
    case SignalWork(_) => SignalKeepsControl(s, e);
    case StopSignal => SignalKeepsControl(s, e);
    case TakeDone(_) => TakeAndPopKeepControl(s, e);
    case PopDone(_) => TakeAndPopKeepControl(s, e);
    case _ => OtherClientsKeepControl(s, e);
  }

  /** Steps of the worker that touch m_WorkQ. */
  predicate TouchesWork(e: WorkerStep) {
    e.Wake? || e.TestWork? || e.PopWork?
  }

  lemma WakeKeepsControl(s: State, r: Wait)
    requires Control(s) && WorkerEnabled(s, Wake(r))
    ensures Control(DoWorker(s, Wake(r)))
  {
    if r == Slot(0) { Q.StepKeepsInv(s.work, Q.Take(WORKER)); }
  }

  lemma TestWorkKeepsControl(s: State)
    requires Control(s) && WorkerEnabled(s, TestWork)
    ensures Control(DoWorker(s, TestWork))
  {
    if WORKER in s.work.takers { Q.StepKeepsInv(s.work, Q.Abandon(WORKER)); }
  }

  lemma PopWorkKeepsControl(s: State)
    requires Control(s) && WorkerEnabled(s, PopWork)
    ensures Control(DoWorker(s, PopWork))
  {
    Q.StepKeepsInv(s.work, Q.Pop(WORKER));
  }

  lemma OthersKeepControl(s: State, e: WorkerStep)
    requires Control(s) && WorkerEnabled(s, e) && !TouchesWork(e)
    ensures Control(DoWorker(s, e))
  {
    hide Q.Inv;
    var t := DoWorker(s, e);
    assert t.work == s.work && t.calls == s.calls && t.switches == s.switches;
    assert WorkerPlace(t.worker, t.switches);
    assert DonePlace(t.worker, t.done) by {
      if e.Deliver? { Q.StepKeepsInv(s.done, Q.Push(WORKER, s.worker.local.value)); }
      if e.SignalDone? { Q.StepKeepsInv(s.done, Q.Signal(WORKER)); }
    }
  }

  lemma KeepsControl(s: State, e: Step)
    requires Control(s) && Enabled(s, e)
    ensures Control(Do(s, e))
  {
    match e
    case Client(c) => ClientKeepsControl(s, c);
    case Work(Wake(r)) => WakeKeepsControl(s, r);
    case Work(TestWork) => TestWorkKeepsControl(s);
    case Work(PopWork) => PopWorkKeepsControl(s);
    case Work(w) => OthersKeepControl(s, w);
  }

  /** A queue is left alone, or takes an enabled step of its protocol. */
  ghost predicate Follows<T(!new)>(q: Q.Queue<T>, r: Q.Queue<T>) {
    r == q || exists e :: Q.Enabled(q, e) && r == Q.Do(q, e)
  }

  lemma FollowsBy<T(!new)>(q: Q.Queue<T>, e: Q.Step<T>)
    requires Q.Enabled(q, e)
    ensures Follows(q, Q.Do(q, e))
  {
  }

  lemma ClientQueueSteps(s: State, e: ClientStep)
    requires Control(s) && ClientEnabled(s, e)
    ensures Follows(s.work, DoClient(s, e).work) && Follows(s.done, DoClient(s, e).done)
  {
    hide Follows, Q.Do;
    FollowsNothing(s.work);
    FollowsNothing(s.done);
    match e
    case PushWork(i) => FollowsBy(s.work, Q.Push(s.calls.flight[i].client, s.calls.flight[i]));
    case SignalWork(c) => FollowsBy(s.work, Q.Signal(c));
    case TakeDone(c) => FollowsBy(s.done, Q.Take(c));
    case PopDone(c) => FollowsBy(s.done, Q.Pop(c));
    case StopSignal => FollowsBy(s.work, Q.Stop);
    case _ =>
  }

  lemma FollowsNothing<T(!new)>(q: Q.Queue<T>)
    ensures Follows(q, q)
  {
  }

  lemma WorkerQueueSteps(s: State, e: WorkerStep)
    requires Control(s) && WorkerEnabled(s, e)
    ensures Follows(s.work, DoWorker(s, e).work) && Follows(s.done, DoWorker(s, e).done)
  {
    hide Follows, Q.Do;
    FollowsNothing(s.work);
    FollowsNothing(s.done);
    match e
    case Wake(r) => if r == Slot(0) { FollowsBy(s.work, Q.Take(WORKER)); }
    case TestWork => if WORKER in s.work.takers { FollowsBy(s.work, Q.Abandon(WORKER)); }
    case PopWork => FollowsBy(s.work, Q.Pop(WORKER));
    case Deliver => FollowsBy(s.done, Q.Push(WORKER, s.worker.local.value));
    case SignalDone => FollowsBy(s.done, Q.Signal(WORKER));
    case _ =>
  }

  /** Whatever a client or the worker does to a queue is an enabled step of that queue's protocol. */
  lemma QueueSteps(s: State, e: Step)
    requires Control(s) && Enabled(s, e)
    ensures Follows(s.work, Do(s, e).work) && Follows(s.done, Do(s, e).done)
  {
    match e
    case Client(c) => ClientQueueSteps(s, c);
    case Work(w) => WorkerQueueSteps(s, w);
  }

  // ---- History: the packs popped from m_WorkQ are the packs dispatched ----

  function Ptrs(xs: seq<Item>): seq<Ptr> { seq(|xs|, i requires 0 <= i < |xs| => xs[i].ptr) }

  /** Every pop took a signal first, and popped packs are dispatched one by one. */
  ghost predicate History(popped: seq<Item>, direct: nat, w: Worker) {
    && direct == 0
    && (w.pc.Got? ==> w.local.Some?)
    && Ptrs(popped) == w.dispatched + if w.pc.Got? then [w.local.value] else []
  }

  lemma KeepsHistory(s: State, e: Step)
    requires History(s.work.popped, s.work.direct, s.worker) && Enabled(s, e)
    ensures var t := Do(s, e); History(t.work.popped, t.work.direct, t.worker)
  {
    match e
    case Client(_) =>
    case Work(PopWork) => PopKeepsHistory(s);
    case Work(Invoke(o)) => InvokeKeepsHistory(s, o);
    case Work(w) => OthersKeepHistory(s, w);
  }

  lemma PopKeepsHistory(s: State)
    requires History(s.work.popped, s.work.direct, s.worker) && WorkerEnabled(s, PopWork)
    ensures var t := DoWorker(s, PopWork); History(t.work.popped, t.work.direct, t.worker)
  {
    if s.work.items != [] {
      var x := s.work.items[0];
      assert Ptrs(s.work.popped + [x]) == Ptrs(s.work.popped) + [x.ptr];
      assert s.worker.dispatched + [] == s.worker.dispatched;
    }
  }

  lemma InvokeKeepsHistory(s: State, o: Outcome)
    requires History(s.work.popped, s.work.direct, s.worker) && WorkerEnabled(s, Invoke(o))
    ensures var t := DoWorker(s, Invoke(o)); History(t.work.popped, t.work.direct, t.worker)
  {
    var t := DoWorker(s, Invoke(o));
    assert t.worker.dispatched + [] == s.worker.dispatched + [s.worker.local.value];
  }

  lemma OthersKeepHistory(s: State, e: WorkerStep)
    requires History(s.work.popped, s.work.direct, s.worker) && WorkerEnabled(s, e) && !e.PopWork? && !e.Invoke?
    ensures var t := DoWorker(s, e); History(t.work.popped, t.work.direct, t.worker)
  {
    hide Ptrs;
  }

  // ---- Order: packs reach the worker in push order, and each client's in issue order ----

  function Of(c: nat, xs: seq<Item>): seq<Item> {
    if xs == [] then [] else (if xs[0].client == c then [xs[0]] else []) + Of(c, xs[1..])
  }

  lemma OfHead(c: nat, xs: seq<Item>)
    requires xs != []
    ensures Of(c, xs) == (if xs[0].client == c then [xs[0]] else []) + Of(c, xs[1..])
  {
  }

  lemma {:induction false} OfAppend(c: nat, a: seq<Item>, b: seq<Item>)
    ensures Of(c, a + b) == Of(c, a) + Of(c, b)
  {
    if a == [] {
      assert a + b == b;
    } else {
      hide Of;
      OfAppend(c, a[1..], b);
      assert (a + b)[1..] == a[1..] + b;
      OfHead(c, a);
      OfHead(c, a + b);
      Associates(if a[0].client == c then [a[0]] else [], Of(c, a[1..]), Of(c, b));
    }
  }

  lemma {:induction false} OfNone(c: nat, xs: seq<Item>)
    requires forall i :: 0 <= i < |xs| ==> xs[i].client != c
    ensures Of(c, xs) == []
  {
    if xs != [] { OfNone(c, xs[1..]); }
  }

  ghost predicate InOrder(k: Calls, pushed: seq<Item>) {
    && (forall c :: Of(c, k.issued) == Of(c, pushed) + Of(c, k.flight))
    && multiset(k.issued) == multiset(pushed) + multiset(k.flight)
  }

  /** The identity of call j, counted from 0. */
  function IdOf(j: int): nat { (j + 1) % (ULONG_MAX + 1) }

  /** Identities count the calls modulo ULONG_MAX + 1. */
  ghost predicate IdsInOrder(k: Calls) {
    && |k.ids| == |k.issued|
    && (forall j :: 0 <= j < |k.ids| ==> k.ids[j] == IdOf(j))
    && k.nextId == IdOf(|k.ids| - 1)
  }

  lemma IssueKeepsClientOrder(k: Calls, pushed: seq<Item>, x: Item, c: nat)
    requires Of(c, k.issued) == Of(c, pushed) + Of(c, k.flight)
    ensures Of(c, k.issued + [x]) == Of(c, pushed) + Of(c, k.flight + [x])
  {
    OfAppend(c, k.issued, [x]);
    OfAppend(c, k.flight, [x]);
  }

  lemma NextIdIs(j: int)
    ensures NextId(IdOf(j)) == IdOf(j + 1)
  {
  }

  lemma IssueKeepsIds(k: Calls, c: nat, p: Ptr)
    requires IdsInOrder(k)
    ensures IdsInOrder(IssueCall(k, c, p))
  {
    hide IdOf, NextId;
    NextIdIs(|k.ids| - 1);
  }

  lemma IssueKeepsOrder(k: Calls, pushed: seq<Item>, c: nat, p: Ptr)
    requires InOrder(k, pushed)
    ensures InOrder(IssueCall(k, c, p), pushed)
  {
    forall j ensures Of(j, k.issued + [Item(c, p)]) == Of(j, pushed) + Of(j, k.flight + [Item(c, p)]) {
      IssueKeepsClientOrder(k, pushed, Item(c, p), j);
    }
  }

  /** Moving flight[i] to the end of the pushes disturbs no client's order: its own client has
      nothing else in flight. */
  lemma PushKeepsClientOrder(flight: seq<Item>, pushed: seq<Item>, i: nat, c: nat)
    requires i < |flight| && Distinct(flight)
    ensures Of(c, pushed + [flight[i]]) + Of(c, flight[..i] + flight[i + 1..]) == Of(c, pushed) + Of(c, flight)
  {
    var x, a, b := flight[i], flight[..i], flight[i + 1..];
    assert flight == a + ([x] + b);
    OfAppend(c, pushed, [x]);
    OfAppend(c, a, b);
    OfAppend(c, a, [x] + b);
    OfAppend(c, [x], b);
    if c == x.client {
      OfNone(c, a);
      OfNone(c, b);
    }
  }

  lemma PushKeepsOrder(k: Calls, pushed: seq<Item>, i: nat)
    requires InOrder(k, pushed) && i < |k.flight| && Distinct(k.flight)
    ensures InOrder(DropCall(k, i), pushed + [k.flight[i]])
  {
    var k' := DropCall(k, i);
    forall c ensures Of(c, k'.issued) == Of(c, pushed + [k.flight[i]]) + Of(c, k'.flight) {
      PushKeepsClientOrder(k.flight, pushed, i, c);
    }
    assert k.flight == k.flight[..i] + ([k.flight[i]] + k.flight[i + 1..]);
  }

  lemma OthersKeepOrder(s: State, e: Step)
    requires Enabled(s, e) && !(e.Client? && (e.c.Issue? || e.c.PushWork?))
    ensures Do(s, e).calls == s.calls && Do(s, e).work.pushed == s.work.pushed
  {
  }

  ghost predicate Order(s: State) {
    InOrder(s.calls, s.work.pushed) && IdsInOrder(s.calls)
  }

  lemma KeepsOrder(s: State, e: Step)
    requires Control(s) && Order(s) && Enabled(s, e)
    ensures Order(Do(s, e))
  {
    match e
    case Client(Issue(c, p)) => IssueKeepsOrder(s.calls, s.work.pushed, c, p); IssueKeepsIds(s.calls, c, p);
    case Client(PushWork(i)) => PushKeepsOrder(s.calls, s.work.pushed, i);
    case _ => OthersKeepOrder(s, e);
  }

  // ---- Ownership: every pack is in exactly one place ----

  function CountItems(p: Ptr, xs: seq<Item>): nat {
    if xs == [] then 0 else (if xs[0].ptr == p then 1 else 0) + CountItems(p, xs[1..])
  }

  lemma {:induction false} CountAppend(p: Ptr, a: seq<Item>, b: seq<Item>)
    ensures CountItems(p, a + b) == CountItems(p, a) + CountItems(p, b)
  {
    if a == [] {
      assert a + b == b;
    } else {
      CountAppend(p, a[1..], b);
      assert (a + b)[1..] == a[1..] + b;
    }
  }

  function CountStore(p: Ptr, st: Store): nat {
    st.hands[p] + st.theirs[p] + st.kept[p] + st.freed[p] + st.undeliverable[p]
  }

  /** The pack the worker owns: pWorkDone, from the pop or the method's return to the hand-over. */
  function CountHeld(p: Ptr, w: Worker): nat {
    if (w.pc.Got? || w.pc.Returned? || w.pc.Sending?) && w.local == Some(p) then 1 else 0
  }

  /** In how many places p is: with client code, between the two halves of startWork, in the work
      queue, with the worker, in the default done queue, in a caller's queue, kept, freed or
      undeliverable. */
  function Places(p: Ptr, s: State): nat {
    CountStore(p, s.store) + CountItems(p, s.calls.flight) + CountItems(p, s.work.items)
      + CountHeld(p, s.worker) + multiset(s.done.items)[p]
  }

  ghost predicate Owned(s: State) {
    && (forall p :: Places(p, s) == if p in s.store.heap then 1 else 0)
    && (s.worker.pc.Got? || s.worker.pc.Sending? ==> s.worker.local.Some?)
  }

  /** 1 for a pack that a step allocates. */
  function Born(p: Ptr, s: State, t: State): int {
    BornIn(p, s.store, t.store)
  }

  function BornIn(p: Ptr, st: Store, st': Store): int {
    if p in st'.heap && p !in st.heap then 1 else 0
  }

  lemma IssueKeepsPlaces(s: State, c: nat, q: Ptr, p: Ptr)
    requires ClientEnabled(s, Issue(c, q))
    ensures Places(p, DoClient(s, Issue(c, q))) == Places(p, s)
  {
    CountAppend(p, s.calls.flight, [Item(c, q)]);
  }

  lemma PushKeepsPlaces(s: State, i: nat, p: Ptr)
    requires ClientEnabled(s, PushWork(i))
    ensures Places(p, DoClient(s, PushWork(i))) == Places(p, s)
  {
    var x, a, b := s.calls.flight[i], s.calls.flight[..i], s.calls.flight[i + 1..];
    assert s.calls.flight == a + ([x] + b);
    CountAppend(p, a, [x] + b);
    CountAppend(p, a, b);
    CountAppend(p, [x], b);
    CountAppend(p, s.work.items, [x]);
  }

  lemma PopDoneKeepsPlaces(s: State, c: nat, p: Ptr)
    requires ClientEnabled(s, PopDone(c))
    ensures Places(p, DoClient(s, PopDone(c))) == Places(p, s)
  {
    if s.done.items != [] {
      assert s.done.items == [s.done.items[0]] + s.done.items[1..];
    }
  }

  /** Clients allocate packs and write to those in their hands. */
  lemma WriteKeepsPlaces(s: State, e: ClientStep, p: Ptr)
    requires Owned(s) && ClientEnabled(s, e) && (e.Alloc? || e.Write?)
    ensures var t := DoClient(s, e);
      Places(p, t) == Places(p, s) + Born(p, s, t) && s.store.heap.Keys <= t.store.heap.Keys
  {
    hide CountItems, CountHeld, Owned;
  }

  lemma CollectMoves(st: Store, q: Ptr, p: Ptr)
    requires q in st.theirs
    ensures CountStore(p, st.(theirs := st.theirs - multiset{q}, hands := st.hands + multiset{q})) == CountStore(p, st)
  {
  }

  lemma RecallMoves(st: Store, q: Ptr, p: Ptr)
    requires q in st.kept
    ensures CountStore(p, st.(kept := st.kept - multiset{q}, hands := st.hands + multiset{q})) == CountStore(p, st)
  {
  }

  lemma FreeMoves(st: Store, q: Ptr, p: Ptr)
    requires q in st.hands
    ensures CountStore(p, st.(hands := st.hands - multiset{q}, freed := st.freed + multiset{q})) == CountStore(p, st)
  {
  }

  /** Clients take packs into their hands and free them. */
  lemma MoveKeepsPlaces(s: State, e: ClientStep, p: Ptr)
    requires ClientEnabled(s, e) && (e.Collect? || e.Recall? || e.Free?)
    ensures var t := DoClient(s, e); Places(p, t) == Places(p, s) && s.store.heap == t.store.heap
  {
    hide CountItems, CountHeld, CountStore;
    match e
    case Collect(q) => CollectMoves(s.store, q, p);
    case Recall(q) => RecallMoves(s.store, q, p);
    case Free(q) => FreeMoves(s.store, q, p);
  }

  /** The other steps of clients move no pack. */
  lemma SignalKeepsPlaces(s: State, e: ClientStep, p: Ptr)
    requires ClientEnabled(s, e)
    requires e.SignalWork? || e.TakeDone? || e.StopFlag? || e.StopSignal? || e.SetMethod? || e.SetEvent?
    ensures var t := DoClient(s, e); Places(p, t) == Places(p, s) && s.store == t.store
  {
    hide CountItems, CountStore, CountHeld;
  }

  lemma ClientKeepsPlaces(s: State, e: ClientStep, p: Ptr)
    requires Owned(s) && ClientEnabled(s, e)
    ensures var t := DoClient(s, e);
      Places(p, t) == Places(p, s) + Born(p, s, t) && s.store.heap.Keys <= t.store.heap.Keys
  {
    hide Places, Owned, Q.Do;
    match e
    case Issue(c, q) => IssueKeepsPlaces(s, c, q, p);
    case PushWork(i) => PushKeepsPlaces(s, i, p);
    case PopDone(c) => PopDoneKeepsPlaces(s, c, p);
    case Alloc(_, _) => WriteKeepsPlaces(s, e, p);
    case Write(_, _) => WriteKeepsPlaces(s, e, p);
    case Collect(_) => MoveKeepsPlaces(s, e, p);
    case Recall(_) => MoveKeepsPlaces(s, e, p);
    case Free(_) => MoveKeepsPlaces(s, e, p);
    case _ => SignalKeepsPlaces(s, e, p);
  }

  /** p's places outside the two queues. */
  function Elsewhere(p: Ptr, st: Store, w: Worker): nat {
    CountStore(p, st) + CountHeld(p, w)
  }

  /** A result leaves client code's hands, or is new. */
  lemma ProduceMoves(st: Store, o: Outcome, p: Ptr)
    requires HasResult(o) && PossibleOutcome(st, o)
    ensures var r := Produce(st, o);
      CountStore(p, r) + (if p == o.d then 1 else 0) == CountStore(p, st) + BornIn(p, st, r)
      && st.heap.Keys <= r.heap.Keys
  {
  }

  lemma DisposeMoves(st: Store, q: Ptr, frees: bool, p: Ptr)
    ensures var r := Dispose(st, q, frees);
      CountStore(p, r) == CountStore(p, st) + (if p == q then 1 else 0) && r.heap == st.heap && r.hands == st.hands
  {
  }

  /** Without a method, or with one that returns its input, no pack moves. */
  lemma SameKeepsPlaces(st: Store, w: Worker, ms: set<nat>, o: Outcome, p: Ptr)
    requires w.pc == Got && LocalOk(st, w)
    requires var i := st.heap[w.local.value].instruction; i >= MAX_WORK_METHODS || i !in ms || o.Same?
    ensures var r := InvokeMethod(st, w, ms, o);
      CountStore(p, r.0) == CountStore(p, st) && r.0.heap.Keys == st.heap.Keys && CountHeld(p, r.1) == CountHeld(p, w)
  {
    hide Produce, Dispose;
  }

  /** A worker method only moves its input and its result. */
  lemma InvokeKeepsPlaces(st: Store, w: Worker, ms: set<nat>, o: Outcome, p: Ptr)
    requires w.pc == Got && LocalOk(st, w) && PossibleOutcome(st, o)
    ensures var r := InvokeMethod(st, w, ms, o);
      && Elsewhere(p, r.0, r.1) == Elsewhere(p, st, w) + BornIn(p, st, r.0)
      && st.heap.Keys <= r.0.heap.Keys
  {
    hide CountStore, Produce, Dispose;
    var i := st.heap[w.local.value].instruction;
    if i >= MAX_WORK_METHODS || i !in ms || o.Same? {
      hide InvokeMethod, CountHeld;
      SameKeepsPlaces(st, w, ms, o, p);
    } else {
      DisposeMoves(st, w.local.value, o.frees, p);
      if HasResult(o) { ProduceMoves(Dispose(st, w.local.value, o.frees), o, p); }
    }
  }

  /** No event is dispatched on an empty slot, so a stale pWorkDone is never sent again. */
  lemma EventKeepsPlaces(st: Store, w: Worker, g: Switches, o: Outcome, p: Ptr)
    requires w.pc == EventTest && WorkerPlace(w, g) && PossibleOutcome(st, o)
    ensures var r := EventBranch(st, w, g, o);
      && Elsewhere(p, r.0, r.1) == Elsewhere(p, st, w) + BornIn(p, st, r.0)
      && st.heap.Keys <= r.0.heap.Keys
  {
  }

  lemma PeriodKeepsPlaces(st: Store, w: Worker, g: Switches, x: bool, ok: bool, o: Outcome, p: Ptr)
    requires w.pc == PeriodTest && PossibleOutcome(st, o)
    ensures var r := PeriodBranch(st, w, g, x, ok, o);
      && Elsewhere(p, r.0, r.1) == Elsewhere(p, st, w) + BornIn(p, st, r.0)
      && st.heap.Keys <= r.0.heap.Keys
  {
    if g.exit || !x || !HasResult(o) {
      return;
    }
    hide Produce;
    if ok {
      hide CountStore;
      ProduceMoves(st, o.(pack := o.pack.(instruction := 0)), p);
    } else {
      ProduceMoves(st, o, p);
    }
  }

  lemma DeliverKeepsPlaces(s: State, p: Ptr)
    requires WorkerEnabled(s, Deliver)
    ensures var t := DoWorker(s, Deliver);
      Places(p, t) == Places(p, s) && s.store.heap.Keys == t.store.heap.Keys
  {
    hide CountItems, DeliverStore, CountStore;
    DeliverMoves(s.store, s.worker.local.value, p);
  }

  /** The destinations outside the done queue. */
  lemma DeliverMoves(st: Store, d: Ptr, p: Ptr)
    requires d in st.heap
    ensures var r := DeliverStore(st, d);
      CountStore(p, r) == CountStore(p, st) + (if p == d && !ToDoneQ(st.heap[d]) then 1 else 0)
      && r.heap.Keys == st.heap.Keys
  {
  }

  lemma PopWorkKeepsPlaces(s: State, p: Ptr)
    requires WorkerEnabled(s, PopWork)
    ensures Places(p, DoWorker(s, PopWork)) == Places(p, s)
  {
  }

  /** The other steps of the worker move no pack. */
  lemma OthersKeepPlaces(s: State, e: WorkerStep, p: Ptr)
    requires WorkerEnabled(s, e)
    requires e.Begin? || e.Wake? || e.TestWork? || e.SetUp? || e.SignalDone? || e.Notify? || e.Loop?
    ensures var t := DoWorker(s, e); Places(p, t) == Places(p, s) && s.store == t.store
  {
    hide CountItems, CountStore, CountHeld;
    OthersKeepHeld(s, e, p);
  }

  lemma OthersKeepHeld(s: State, e: WorkerStep, p: Ptr)
    requires WorkerEnabled(s, e)
    requires e.Begin? || e.Wake? || e.TestWork? || e.SetUp? || e.SignalDone? || e.Notify? || e.Loop?
    ensures CountHeld(p, DoWorker(s, e).worker) == CountHeld(p, s.worker)
  {
    hide Q.Do;
  }

  lemma WorkerKeepsPlaces(s: State, e: WorkerStep, p: Ptr)
    requires Control(s) && Owned(s) && WorkerEnabled(s, e)
    ensures var t := DoWorker(s, e);
      Places(p, t) == Places(p, s) + Born(p, s, t) && s.store.heap.Keys <= t.store.heap.Keys
  {
    hide CountItems, CountStore, CountHeld, Owned;
    match e
    case Invoke(o) => InvokeKeepsPlaces(s.store, s.worker, s.switches.methods, o, p);
    case TestEvent(o) => EventKeepsPlaces(s.store, s.worker, s.switches, o, p);
    case TestPeriod(x, ok, o) => PeriodKeepsPlaces(s.store, s.worker, s.switches, x, ok, o, p);
    case Deliver => DeliverKeepsPlaces(s, p);
    case PopWork => PopWorkKeepsPlaces(s, p);
    case _ => OthersKeepPlaces(s, e, p);
  }

  lemma WorkerKeepsLocal(s: State, e: WorkerStep)
    requires Owned(s) && WorkerEnabled(s, e)
    ensures var w := DoWorker(s, e).worker; w.pc.Got? || w.pc.Sending? ==> w.local.Some?
  {
    hide Places, Q.Do, DeliverStore, Produce, Dispose;
  }

  lemma KeepsLocal(s: State, e: Step)
    requires Owned(s) && Enabled(s, e)
    ensures var w := Do(s, e).worker; w.pc.Got? || w.pc.Sending? ==> w.local.Some?
  {
    hide Places, Q.Do, DoWorker, WorkerEnabled;
    if e.Work? { WorkerKeepsLocal(s, e.w); }
  }

  lemma KeepsOwned(s: State, e: Step)
    requires Control(s) && Owned(s) && Enabled(s, e)
    ensures Owned(Do(s, e))
  {
    KeepsLocal(s, e);
    hide Places, DoClient, DoWorker, ClientEnabled, WorkerEnabled, Control;
    var t := Do(s, e);
    forall p ensures Places(p, t) == if p in t.store.heap then 1 else 0 {
      assert Places(p, s) == if p in s.store.heap then 1 else 0;
      match e
      case Client(c) => ClientKeepsPlaces(s, c, p);
      case Work(w) => WorkerKeepsPlaces(s, w, p);
    }
  }

  /** The packs whose fields a worker step reads or writes: decoding and timing around the worker
      method, setting up the callback, handing the result on, timing an event's or period's result. */
  function Accesses(s: State, e: WorkerStep): set<Ptr>
    requires WorkerEnabled(s, e)
  {
    match e
    case Invoke(_) => {s.worker.local.value} + AfterCall(DoWorker(s, e).worker)
    case SetUp => if s.worker.local.Some? then {s.worker.local.value} else {}
    case Deliver => {s.worker.local.value}
    case TestEvent(o) => AfterCall(DoWorker(s, e).worker)
    case TestPeriod(_, _, o) => AfterCall(DoWorker(s, e).worker)
    case _ => {}
  }

  /** stopTiming writes the elapsed time into a non-null pWorkDone that is about to be sent. */
  function AfterCall(w: Worker): set<Ptr> {
    if w.pc.Returned? && w.local.Some? then {w.local.value} else {}
  }

  // ---- Callbacks ----

  /** The data item of the latest callback. */
  function LastItem(log: seq<Entry>): nat {
    if log == [] then 0
    else
      var e := log[|log| - 1];
      if e.Fired? then e.callback.item else LastItem(log[..|log| - 1])
  }

  /** A callback has its pack's instruction, and its data item if the pack asked for that. If not, the
      item of the callback before it is still there. */
  ghost predicate Announces(cb: Callback, f: Pack, previous: nat) {
    cb.instruction == f.instruction && cb.item == if f.itemInCallback then f.item else previous
  }

  /** If entry i is a callback, it announces the pack handed over just before. */
  ghost predicate CallbackAt(log: seq<Entry>, i: nat)
    requires i < |log|
  {
    log[i].Fired? ==>
      && i > 0 && log[i - 1].Delivered? && log[i - 1].pack.notify
      && Announces(log[i].callback, log[i - 1].pack, LastItem(log[..i]))
  }

  /** Each callback directly follows the hand-over of the pack it announces, and each hand-over
      that asked for a callback is directly followed by it. */
  ghost predicate LogOk(log: seq<Entry>) {
    && (forall i :: 0 <= i < |log| ==> CallbackAt(log, i))
    && (forall i :: 0 <= i < |log| - 1 && log[i].Delivered? ==>
          (log[i].pack.notify <==> log[i + 1].Fired?))
  }

  /** Between the set-up and the firing of a callback. */
  predicate Announcing(w: Worker) {
    (w.pc.Sending? || w.pc.Signalling? || w.pc.Notifying?) && w.notify
  }

  ghost predicate CallbackOk(st: Store, w: Worker) {
    && LogOk(w.log)
    && (!Announcing(w) ==> w.callback.item == LastItem(w.log))
    && (w.pc.Sending? && LocalOk(st, w) ==>
          w.notify == st.heap[w.local.value].notify
          && (w.notify ==> Announces(w.callback, st.heap[w.local.value], LastItem(w.log))))
    && (if w.pc.Signalling? || w.pc.Notifying? then
          w.log != [] && w.log[|w.log| - 1].Delivered? && w.notify == w.log[|w.log| - 1].pack.notify
          && (w.notify ==> Announces(w.callback, w.log[|w.log| - 1].pack, LastItem(w.log)))
        else
          w.log != [] && w.log[|w.log| - 1].Delivered? ==> !w.log[|w.log| - 1].pack.notify)
  }

  /** Clients cannot change the pack the worker is about to hand on: they do not hold it. */
  lemma ClientKeepsCallback(s: State, e: ClientStep)
    requires Owned(s) && CallbackOk(s.store, s.worker) && ClientEnabled(s, e)
    ensures CallbackOk(DoClient(s, e).store, s.worker) && DoClient(s, e).worker == s.worker
  {
    if LocalOk(s.store, s.worker) {
      assert Places(s.worker.local.value, s) == 1;
    }
  }

  lemma SetUpKeepsCallback(st: Store, w: Worker)
    requires CallbackOk(st, w) && w.pc.Returned? && (w.local.Some? ==> LocalOk(st, w))
    ensures CallbackOk(st, SetUpResponse(st, w))
  {
  }

  lemma DeliverKeepsCallback(st: Store, w: Worker)
    requires CallbackOk(st, w) && w.pc.Sending? && LocalOk(st, w)
    ensures CallbackOk(DeliverStore(st, w.local.value), DeliverWorker(st, w))
  {
    hide DeliverStore, LogOk, Announces;
    DeliveredLog(w.log, Delivered(w.local.value, st.heap[w.local.value]));
  }

  /** What comes later does not matter for entry i. */
  lemma CallbackAtBefore(log: seq<Entry>, x: Entry, i: nat)
    requires i < |log| && CallbackAt(log, i)
    ensures CallbackAt(log + [x], i)
  {
    assert (log + [x])[..i] == log[..i];
  }

  lemma LastItemOf(log: seq<Entry>, x: Entry)
    ensures LastItem(log + [x]) == if x.Fired? then x.callback.item else LastItem(log)
  {
    assert (log + [x])[..|log|] == log;
  }

  lemma CallbackAtEnd(log: seq<Entry>, f: Entry)
    requires f.Fired? && log != []
    requires var last := log[|log| - 1];
      last.Delivered? && last.pack.notify && Announces(f.callback, last.pack, LastItem(log))
    ensures CallbackAt(log + [f], |log|)
  {
    assert (log + [f])[..|log|] == log;
  }

  lemma DeliveredLog(log: seq<Entry>, d: Entry)
    requires LogOk(log) && d.Delivered?
    requires log != [] && log[|log| - 1].Delivered? ==> !log[|log| - 1].pack.notify
    ensures LogOk(log + [d]) && LastItem(log + [d]) == LastItem(log)
  {
    LastItemOf(log, d);
    assert CallbackAt(log + [d], |log|);
    hide LastItem, CallbackAt;
    forall i | 0 <= i < |log| ensures CallbackAt(log + [d], i) { CallbackAtBefore(log, d, i); }
  }

  lemma FireKeepsCallback(st: Store, w: Worker)
    requires CallbackOk(st, w) && w.pc.Notifying?
    ensures CallbackOk(st, FireCallback(w))
  {
    hide LogOk, Announces;
    if w.notify { FiredLog(w.log, Fired(w.callback)); }
  }

  lemma FiredLog(log: seq<Entry>, f: Entry)
    requires LogOk(log) && f.Fired? && log != []
    requires var last := log[|log| - 1];
      last.Delivered? && last.pack.notify && Announces(f.callback, last.pack, LastItem(log))
    ensures LogOk(log + [f]) && LastItem(log + [f]) == f.callback.item
  {
    hide LastItem, CallbackAt;
    LastItemOf(log, f);
    CallbackAtEnd(log, f);
    forall i | 0 <= i < |log| ensures CallbackAt(log + [f], i) { CallbackAtBefore(log, f, i); }
  }

  lemma MethodsKeepCallback(s: State, e: WorkerStep)
    requires CallbackOk(s.store, s.worker) && WorkerEnabled(s, e)
    requires !e.SetUp? && !e.Deliver? && !e.SignalDone? && !e.Notify?
    ensures var w := DoWorker(s, e).worker;
      && w.log == s.worker.log && w.callback == s.worker.callback
      && !w.pc.Sending? && !w.pc.Signalling? && !w.pc.Notifying?
      && !s.worker.pc.Sending? && !s.worker.pc.Signalling? && !s.worker.pc.Notifying?
  {
  }

  lemma WorkerKeepsCallback(s: State, e: WorkerStep)
    requires CallbackOk(s.store, s.worker) && WorkerEnabled(s, e)
    ensures CallbackOk(DoWorker(s, e).store, DoWorker(s, e).worker)
  {
    match e
    case SetUp => SetUpKeepsCallback(s.store, s.worker);
    case Deliver => DeliverKeepsCallback(s.store, s.worker);
    case SignalDone =>
    case Notify => FireKeepsCallback(s.store, s.worker);
    case _ => MethodsKeepCallback(s, e);
  }

  // ---- The theorems ----

  ghost predicate Inv(s: State) {
    && Control(s) && Order(s) && Owned(s) && CallbackOk(s.store, s.worker)
    && History(s.work.popped, s.work.direct, s.worker)
  }

  lemma StepKeepsInv(s: State, e: Step)
    requires Inv(s) && Enabled(s, e)
    ensures Inv(Do(s, e))
  {
    KeepsControl(s, e);
    KeepsOrder(s, e);
    KeepsOwned(s, e);
    KeepsHistory(s, e);
    match e
    case Client(c) => ClientKeepsCallback(s, c);
    case Work(w) => WorkerKeepsCallback(s, w);
  }

  lemma {:induction false} RunKeepsInv(s: State, es: seq<Step>)
    requires Inv(s) && Runs(s, es)
    ensures Inv(After(s, es))
    decreases |es|
  {
    if es != [] {
      StepKeepsInv(s, es[0]);
      RunKeepsInv(Do(s, es[0]), es[1..]);
    }
  }

  lemma InitInv()
    ensures Inv(Init())
  {
    var s := Init();
    assert Control(s) && CallbackOk(s.store, s.worker);
    hide Control, CallbackOk;
    assert Order(s) && History(s.work.popped, s.work.direct, s.worker);
    hide Order, History;
    assert Owned(s);
  }

  lemma ReachableInv(es: seq<Step>)
    requires Runs(Init(), es)
    ensures Inv(After(Init(), es))
  {
    InitInv();
    RunKeepsInv(Init(), es);
  }

  /** Each startWork call is dispatched at most once and is otherwise in flight, queued or just popped; the
      worker receives and dispatches packs in push order, and each client's packs in the order it issued
      them. */
  lemma Dispatch(es: seq<Step>)
    requires Runs(Init(), es)
    ensures var s := After(Init(), es);
      && s.work.pushed == s.work.popped + s.work.items
      && multiset(s.calls.issued)
         == multiset(s.work.popped) + multiset(s.work.items) + multiset(s.calls.flight)
      && (forall c :: Of(c, s.work.popped) <= Of(c, s.calls.issued))
      && (s.worker.pc.Got? ==> s.worker.local.Some?)
      && Ptrs(s.work.popped) == s.worker.dispatched + if s.worker.pc.Got? then [s.worker.local.value] else []
  {
    hide After, Runs, Init;
    ReachableInv(es);
    var s := After(Init(), es);
    forall c ensures Of(c, s.work.popped) <= Of(c, s.calls.issued) {
      OfAppend(c, s.work.popped, s.work.items);
    }
  }

  /** The identities of two calls issued fewer than 2^32 calls apart differ. */
  lemma DistinctIds(es: seq<Step>, i: nat, j: nat)
    requires Runs(Init(), es)
    requires var ids := After(Init(), es).calls.ids; i < j < |ids| && j - i <= ULONG_MAX
    ensures After(Init(), es).calls.ids[i] != After(Init(), es).calls.ids[j]
  {
    hide After, Runs, Init, Control, Owned, CallbackOk, InOrder, History, IdOf;
    ReachableInv(es);
    IdsDiffer(i, j);
  }

  lemma IdsDiffer(i: nat, j: nat)
    requires i < j && j - i <= ULONG_MAX
    ensures IdOf(i) != IdOf(j)
  {
  }

  /** Semaphore accounting of m_WorkQ: in every reachable state of the active object, empty pops
      never exceed stop signals, and while they equal them, as before the first stop signal, a woken
      worker finds a pack. */
  lemma WorkAccounting(es: seq<Step>)
    requires Runs(Init(), es)
    ensures var s := After(Init(), es);
      && |s.work.items| + s.work.stops
         == s.work.sem + s.work.lost + |s.work.unsignalled| + |s.work.takers| + s.work.empties + s.work.abandoned
      && s.work.empties <= s.work.stops
      && (s.worker.pc == Holding && s.work.empties == s.work.stops ==> s.work.items != [])
  {
    hide After, Runs, Init;
    ReachableInv(es);
  }

  /** In every reachable state each pack ever allocated is in exactly one place, and a pack that
      was never allocated is in none. */
  lemma Conservation(es: seq<Step>, p: Ptr)
    requires Runs(Init(), es)
    ensures Places(p, After(Init(), es)) == if p in After(Init(), es).store.heap then 1 else 0
  {
    hide After, Runs, Init;
    ReachableInv(es);
  }

  /** p is the result of a method that the step called: new, or out of client code's hands. */
  ghost predicate MethodResult(s: State, e: WorkerStep, p: Ptr)
    requires WorkerEnabled(s, e)
  {
    (p !in s.store.heap || p in s.store.hands) && CountHeld(p, DoWorker(s, e).worker) == 1
  }

  lemma AccessesOwned(s: State, e: WorkerStep, p: Ptr)
    requires Control(s) && Owned(s) && WorkerEnabled(s, e) && p in Accesses(s, e)
    ensures CountHeld(p, s.worker) == 1 || MethodResult(s, e, p)
  {
    match e
    case TestEvent(o) =>
      var r := EventBranch(s.store, s.worker, s.switches, o);
      assert r.1.pc.Returned? ==> r.1.local == if HasResult(o) then Some(o.d) else None;
    case _ =>
  }

  /** No pack is read or written by the worker unless the worker alone owns it: an accessed pack is
      either owned before the step, or the result of a method called in the step and owned after it. In
      particular nothing is touched after it was queued or freed. */
  lemma NoAccessAfterHandOff(es: seq<Step>, e: WorkerStep, p: Ptr)
    requires Runs(Init(), es) && WorkerEnabled(After(Init(), es), e)
    requires p in Accesses(After(Init(), es), e)
    ensures var s := After(Init(), es);
      || (CountHeld(p, s.worker) == 1 && Places(p, s) == 1)
      || (MethodResult(s, e, p) && Places(p, DoWorker(s, e)) == 1)
  {
    hide After, Runs, Init, Accesses, DoWorker, WorkerEnabled;
    ReachableInv(es);
    var s := After(Init(), es);
    AccessesOwned(s, e, p);
    KeepsOwned(s, Work(e));
    HeldIsPlace(p, s);
    HeldIsPlace(p, DoWorker(s, e));
  }

  lemma HeldIsPlace(p: Ptr, s: State)
    requires Owned(s)
    ensures CountHeld(p, s.worker) == 1 ==> Places(p, s) == 1
  {
    assert Places(p, s) == if p in s.store.heap then 1 else 0;
  }

  /** Every callback fires directly after the hand-over of the pack it announces, with that pack's
      instruction, and with its data item when the pack asked for that; otherwise with the item of the
      callback before. */
  lemma CallbacksMatch(es: seq<Step>)
    requires Runs(Init(), es)
    ensures LogOk(After(Init(), es).worker.log)
  {
    hide After, Runs, Init;
    ReachableInv(es);
  }

  /** A callback carries its own pack's item exactly when the pack asked for that, or the callback before
      carried the same item. */
  lemma OwnItemExactly(es: seq<Step>, i: nat)
    requires Runs(Init(), es)
    requires var log := After(Init(), es).worker.log; i < |log| && log[i].Fired?
    ensures var log := After(Init(), es).worker.log;
      && i > 0 && log[i - 1].Delivered?
      && (log[i].callback.item == log[i - 1].pack.item
          <==> log[i - 1].pack.itemInCallback || LastItem(log[..i]) == log[i - 1].pack.item)
  {
    hide After, Runs, Init, LastItem;
    CallbacksMatch(es);
    assert CallbackAt(After(Init(), es).worker.log, i);
  }

  // ---- A run with a stale data item ----

  ghost predicate Reached(s: State) {
    exists es :: Runs(Init(), es) && After(Init(), es) == s
  }

  lemma {:induction false} RunsOneMore(s: State, es: seq<Step>, e: Step)
    requires Runs(s, es) && Enabled(After(s, es), e)
    ensures Runs(s, es + [e]) && After(s, es + [e]) == Do(After(s, es), e)
    decreases |es|
  {
    if es == [] {
      assert es + [e] == [e] && [e][1..] == [];
      assert Runs(Do(s, e), []);
    } else {
      RunsOneMore(Do(s, es[0]), es[1..], e);
      assert (es + [e])[1..] == es[1..] + [e];
    }
  }

  lemma ReachedNext(s: State, e: Step)
    requires Reached(s) && Enabled(s, e)
    ensures Reached(Do(s, e))
  {
    hide Enabled, Do;
    var es :| Runs(Init(), es) && After(Init(), es) == s;
    RunsOneMore(Init(), es, e);
  }

  /** Nothing is going on, and no event is registered. */
  ghost predicate Quiet(s: State) {
    && s.worker.pc == Top && !s.switches.exit && s.switches.events == 0
    && s.calls.flight == [] && s.work.items == [] && s.work.sem == 0
    && s.work.unsignalled == {} && s.work.takers == {} && Q.Idle(s.done, WORKER)
  }

  /** Client 1 allocates a pack and queues it. */
  lemma Queued(s: State, p: Ptr, pack: Pack) returns (t: State)
    requires Reached(s) && Quiet(s) && p !in s.store.heap
    ensures Reached(t) && t.worker == s.worker && t.switches == s.switches && t.done == s.done
    ensures t.calls.flight == [] && t.work.items == [Item(1, p)] && t.work.sem == 1
    ensures t.work.unsignalled == {} && t.work.takers == {}
    ensures t.store.heap.Keys == s.store.heap.Keys + {p} && t.store.heap[p] == pack.(id := t.store.heap[p].id)
  {
    hide Reached;
    var s1 := Do(s, Client(Alloc(p, pack)));
    ReachedNext(s, Client(Alloc(p, pack)));
    var s2 := Do(s1, Client(Issue(1, p)));
    ReachedNext(s1, Client(Issue(1, p)));
    var s3 := Do(s2, Client(PushWork(0)));
    ReachedNext(s2, Client(PushWork(0)));
    t := Do(s3, Client(SignalWork(1)));
    ReachedNext(s3, Client(SignalWork(1)));
  }

  /** The worker pops it; no method is set for its instruction. */
  lemma Popped(s: State, p: Ptr) returns (t: State)
    requires Reached(s) && s.worker.pc == Top && !s.switches.exit && s.switches.events == 0
    requires s.calls.flight == [] && s.work.items == [Item(1, p)] && s.work.sem == 1
    requires s.work.unsignalled == {} && s.work.takers == {} && p in s.store.heap
    ensures Reached(t) && t.worker.pc == Got && t.worker.local == Some(p)
    ensures t.switches == s.switches && t.done == s.done
    ensures t.calls.flight == [] && t.work.items == [] && t.work.sem == 0
    ensures t.work.unsignalled == {} && t.work.takers == {} && t.store == s.store
    ensures t.worker.log == s.worker.log && t.worker.callback == s.worker.callback && t.worker.result == Slot(0)
  {
    hide Reached;
    var s1 := Do(s, Work(Begin));
    ReachedNext(s, Work(Begin));
    var s2 := Do(s1, Work(Wake(Slot(0))));
    ReachedNext(s1, Work(Wake(Slot(0))));
    var s3 := Do(s2, Work(TestWork));
    ReachedNext(s2, Work(TestWork));
    t := Do(s3, Work(PopWork));
    ReachedNext(s3, Work(PopWork));
  }

  /** The worker frees it and fires the callback. */
  lemma Announced(s: State, p: Ptr) returns (t: State)
    requires Reached(s) && s.worker.pc == Got && s.worker.local == Some(p) && p in s.store.heap
    requires Q.Idle(s.done, WORKER)
    requires s.store.heap[p].instruction >= MAX_WORK_METHODS && s.store.heap[p].notify && !s.store.heap[p].send
    ensures Reached(t) && t.worker.pc == EventTest && t.worker.result == s.worker.result
    ensures t.switches == s.switches && t.calls == s.calls && t.work == s.work && t.done == s.done
    ensures t.store.heap.Keys == s.store.heap.Keys
    ensures var f := s.store.heap[p];
      var item := if f.itemInCallback then f.item else s.worker.callback.item;
      var cb := Callback(f.instruction, f.instruction, false, item);
      t.worker.callback == cb
      && t.worker.log == s.worker.log + [Delivered(p, f.(status := InvalidInstruction)), Fired(cb)]
  {
    hide Reached;
    var s1 := Do(s, Work(Invoke(Nothing(false))));
    ReachedNext(s, Work(Invoke(Nothing(false))));
    var s2 := Do(s1, Work(SetUp));
    ReachedNext(s1, Work(SetUp));
    var s3 := Do(s2, Work(Deliver));
    ReachedNext(s2, Work(Deliver));
    t := Do(s3, Work(Notify));
    ReachedNext(s3, Work(Notify));
    assert t.worker.log == s3.worker.log + [Fired(s3.worker.callback)];
  }

  /** The iteration ends. */
  lemma Rested(s: State) returns (t: State)
    requires Reached(s) && s.worker.pc == EventTest && s.worker.result == Slot(0)
    requires Quiet(s.(worker := s.worker.(pc := Top)))
    ensures Reached(t) && Quiet(t) && t.store.heap == s.store.heap
    ensures t.worker.log == s.worker.log && t.worker.callback == s.worker.callback
  {
    hide Reached;
    var s1 := Do(s, Work(TestEvent(Nothing(false))));
    ReachedNext(s, Work(TestEvent(Nothing(false))));
    var s2 := Do(s1, Work(TestPeriod(false, false, Nothing(false))));
    ReachedNext(s1, Work(TestPeriod(false, false, Nothing(false))));
    t := Do(s2, Work(Loop));
    ReachedNext(s2, Work(Loop));
  }

  /** One pack from client to callback. */
  lemma Handled(s: State, p: Ptr, pack: Pack) returns (t: State)
    requires Reached(s) && Quiet(s) && p !in s.store.heap
    requires pack.instruction >= MAX_WORK_METHODS && pack.notify && !pack.send
    ensures Reached(t) && Quiet(t) && t.store.heap.Keys == s.store.heap.Keys + {p}
    ensures |t.worker.log| == |s.worker.log| + 2 && t.worker.log[..|s.worker.log|] == s.worker.log
    ensures var d, f := t.worker.log[|s.worker.log|], t.worker.log[|s.worker.log| + 1];
      && d.Delivered? && f.Fired? && d.pack.item == pack.item
      && f.callback.item == (if pack.itemInCallback then pack.item else s.worker.callback.item)
      && t.worker.callback == f.callback
  {
    hide Reached, Do, Enabled;
    var s1 := Queued(s, p, pack);
    var s2 := Popped(s1, p);
    var s3 := Announced(s2, p);
    t := Rested(s3);
  }

  lemma RunOf(s: State) returns (es: seq<Step>)
    requires Reached(s)
    ensures Runs(Init(), es) && After(Init(), es) == s
  {
    es :| Runs(Init(), es) && After(Init(), es) == s;
  }

  /** A callback for a pack with item 8 that carries item 7, left there by the callback before. */
  lemma StaleItem() returns (es: seq<Step>)
    ensures Runs(Init(), es)
    ensures var log := After(Init(), es).worker.log;
      |log| == 4 && log[2].Delivered? && log[3].Fired? && log[2].pack.item == 8 && log[3].callback.item == 7
  {
    var first := Pack(0, MAX_WORK_METHODS, true, false, false, None, true, 7, Unset);
    assert Runs(Init(), []) && After(Init(), []) == Init();
    hide Runs, After, Do, Enabled;
    var s1 := Handled(Init(), 1, first);
    var s2 := Handled(s1, 2, first.(itemInCallback := false, item := 8));
    es := RunOf(s2);
  }

  /** The worker has a step it can take until it has exited. */
  lemma WorkerCanStep(s: State)
    requires Inv(s) && s.worker.pc != Exited
    ensures exists e :: WorkerEnabled(s, e)
  {
    var w := s.worker;
    if w.local.Some? { assert Places(w.local.value, s) == if w.local.value in s.store.heap then 1 else 0; }
    var e := match w.pc
      case Top => Begin
      case Waiting => Wake(NoSlot)
      case Woken => TestWork
      case Holding => PopWork
      case Got => Invoke(Nothing(false))
      case Returned(_, _, _) => SetUp
      case Sending(_) => Deliver
      case Signalling(_) => SignalDone
      case Notifying(_) => Notify
      case EventTest => TestEvent(Nothing(false))
      case PeriodTest => TestPeriod(false, false, Nothing(false))
      case _ => Loop;
    assert WorkerEnabled(s, e);
  }

  /** The worker and the clients are never stuck in the middle of an operation. */
  lemma NeverStuck(es: seq<Step>)
    requires Runs(Init(), es)
    ensures var s := After(Init(), es);
      && (s.worker.pc != Exited ==> exists e :: WorkerEnabled(s, e))
      && forall i :: 0 <= i < |s.calls.flight| ==> ClientEnabled(s, PushWork(i))
  {
    hide After, Runs, Init, WorkerEnabled, Order, Owned, CallbackOk;
    ReachableInv(es);
    var s := After(Init(), es);
    if s.worker.pc != Exited { WorkerCanStep(s); }
  }
}
