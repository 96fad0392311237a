/** What each step of the active object does, told on the fields of the packs: which method runs, what
    becomes of its input and its result, and where sendResponse hands the result on. Together they follow
    a pack from its instruction to its destination. */
module WorkerSteps {
  import opened Text
  import E = EventProtocol
  import Q = QueueProtocol
  import opened ThreadIt

  // ---- The work branch ----

  /** The pack whose instruction the worker is about to decode. */
  function Input(s: State): Pack
    requires LocalOk(s.store, s.worker)
  {
    s.store.heap[s.worker.local.value]
  }

  /** A worker method is registered for the instruction. */
  predicate HasMethod(s: State)
    requires LocalOk(s.store, s.worker)
  {
    Input(s).instruction < MAX_WORK_METHODS && Input(s).instruction in s.switches.methods
  }

  /** Without a method the pack itself is sent back, and its status is all that changes: an invalid
      instruction is one that is not below MAX_WORK_METHODS. */
  lemma InstructionRefused(s: State, o: Outcome)
    requires WorkerEnabled(s, Invoke(o)) && !HasMethod(s)
    ensures var t, w := DoWorker(s, Invoke(o)), s.worker;
      var why := if Input(s).instruction < MAX_WORK_METHODS then NoMethod else InvalidInstruction;
      && t.store == s.store.(heap := s.store.heap[w.local.value := Input(s).(status := why)])
      && t.worker == w.(pc := Returned(Input(s).instruction, false, FromWork),
                        dispatched := w.dispatched + [w.local.value])
      && t == s.(store := t.store, worker := t.worker)
  {
    hide Produce, Dispose;
  }

  /** With one, the method runs. What it returns is what will be sent: the pack it was given, another one
      as it left it, or nothing. A pack taken out of client code's hands is no longer there, and a pack
      that was not returned has been freed or kept by the method. */
  lemma MethodRuns(s: State, o: Outcome)
    requires WorkerEnabled(s, Invoke(o)) && HasMethod(s)
    ensures var t, w, p, st := DoWorker(s, Invoke(o)), s.worker, s.worker.local.value, s.store;
      && t.worker == w.(pc := Returned(Input(s).instruction, false, FromWork), local := t.worker.local,
                        dispatched := w.dispatched + [p])
      && t.worker.local == (match o
           case Same(_) => Some(p)
           case Fresh(d, _, _) => Some(d)
           case Reused(d, _, _) => Some(d)
           case Nothing(_) => None)
      && t.store.heap == (match o
           case Same(pack) => st.heap[p := pack]
           case Fresh(d, pack, _) => st.heap[d := pack]
           case Reused(d, pack, _) => st.heap[d := pack]
           case Nothing(_) => st.heap)
      && t.store.hands == (if o.Reused? then st.hands - multiset{o.d} else st.hands)
      && t.store.freed == (if !o.Same? && o.frees then st.freed + multiset{p} else st.freed)
      && t.store.kept == (if !o.Same? && !o.frees then st.kept + multiset{p} else st.kept)
      && t == s.(store := st.(heap := t.store.heap, hands := t.store.hands, freed := t.store.freed,
                              kept := t.store.kept), worker := t.worker)
  {
  }

  /** The input's status after the decoding step of any run. Where nobody else sets it, it tells exactly
      why no method ran. */
  lemma StatusExactly(es: seq<Step>, o: Outcome)
    requires Runs(Init(), es) && WorkerEnabled(After(Init(), es), Invoke(o))
    ensures var s := After(Init(), es); var t := DoWorker(s, Invoke(o));
      var f, status := Input(s), t.store.heap[s.worker.local.value].status;
      && (!HasMethod(s) || !o.Same? ==> t.store.heap[s.worker.local.value] == f.(status := status))
      && (f.status == Unset && (o.Same? ==> o.pack.status == Unset) ==>
           && (status == NoMethod <==>
                f.instruction < MAX_WORK_METHODS && f.instruction !in s.switches.methods)
           && (status == InvalidInstruction <==> f.instruction >= MAX_WORK_METHODS)
           && (status == Unset <==> HasMethod(s)))
  {
    hide Runs, After, Init, DoWorker, Control, Order, CallbackOk, History;
    ReachableInv(es);
    var s := After(Init(), es);
    var p := s.worker.local.value;
    assert Places(p, s) == 1;
    if HasMethod(s) {
      MethodRuns(s, o);
    } else {
      InstructionRefused(s, o);
    }
  }

  // ---- The event and periodic branches ----

  /** The worker woke for slot k of its list, and a handler is registered for it. */
  predicate HandlerDue(s: State) {
    && !s.switches.exit && s.worker.result.Slot? && 1 <= s.worker.result.k < s.worker.listed
    && s.worker.result.k - 1 < s.switches.events
  }

  /** A result of an event or periodic method: the pack as the method leaves it, out of client code's hands
      if it came from there. */
  ghost predicate Returns(s: State, t: State, d: Ptr, pack: Pack, reused: bool) {
    && t.worker.local == Some(d)
    && t.store == s.store.(heap := s.store.heap[d := pack],
                           hands := if reused then s.store.hands - multiset{d} else s.store.hands)
  }

  /** An event handler runs exactly when its event woke the worker. Its result is sent, under the number of
      the event; without one there is nothing to send, and no pack changes. */
  lemma HandlerRuns(s: State, o: Outcome)
    requires Control(s) && WorkerEnabled(s, TestEvent(o))
    ensures var t := DoWorker(s, TestEvent(o));
      && (HandlerDue(s) <==> t.worker.pc.Returned?)
      && (HandlerDue(s) ==>
           && t.worker == s.worker.(pc := Returned(s.worker.result.k, false, FromEvent), local := t.worker.local)
           && (match o
               case Fresh(d, pack, _) => Returns(s, t, d, pack, false)
               case Reused(d, pack, _) => Returns(s, t, d, pack, true)
               case _ => t.worker.local == None && t.store == s.store))
      && (!HandlerDue(s) ==> t.worker == s.worker.(pc := PeriodTest) && t.store == s.store)
      && t == s.(store := t.store, worker := t.worker)
  {
  }

  /** The periodic method runs exactly when its time has come. Its result is sent under number 0, with
      instruction 0, if the method reports success; otherwise it is left alone. Nothing else is sent. */
  lemma PeriodicRuns(s: State, expired: bool, ok: bool, o: Outcome)
    requires WorkerEnabled(s, TestPeriod(expired, ok, o))
    ensures var t, runs := DoWorker(s, TestPeriod(expired, ok, o)), !s.switches.exit && expired;
      && t.worker == s.worker.(pc := t.worker.pc, local := t.worker.local)
      && (t.worker.pc == if runs && ok && (o.Fresh? || o.Reused?) then Returned(0, true, FromPeriod) else Bottom)
      && (match o
          case Fresh(d, pack, _) => runs ==>
            if ok then Returns(s, t, d, pack.(instruction := 0), false) else Dropped(s, t, d, pack, false)
          case Reused(d, pack, _) => runs ==>
            if ok then Returns(s, t, d, pack.(instruction := 0), true) else Dropped(s, t, d, pack, true)
          case _ => t.store == s.store && (runs ==> t.worker.local == None))
      && (!runs ==> t.store == s.store && t.worker.local == s.worker.local)
      && t == s.(store := t.store, worker := t.worker)
  {
  }

  /** A result that is not sent. */
  ghost predicate Dropped(s: State, t: State, d: Ptr, pack: Pack, reused: bool) {
    && t.worker.local == Some(d)
    && t.store == s.store.(heap := s.store.heap[d := pack], kept := s.store.kept + multiset{d},
                           hands := if reused then s.store.hands - multiset{d} else s.store.hands)
  }

  // ---- sendResponse ----

  /** Where a result goes depends on three of its fields alone. Exactly one of four things happens to it:
      m_DoneQ gets it, its caller's queue does, it is marked undeliverable, or it is freed. */
  lemma DeliveredTo(s: State)
    requires WorkerEnabled(s, Deliver)
    ensures var t, d, st := DoWorker(s, Deliver), s.worker.local.value, s.store; var f := st.heap[d];
      && t.done.pushed == s.done.pushed + (if f.send && f.useDefaultQ then [d] else [])
      && t.done.items == s.done.items + (if f.send && f.useDefaultQ then [d] else [])
      && t.store.theirs
         == st.theirs + (if f.send && !f.useDefaultQ && f.callerQ.Some? then multiset{d} else multiset{})
      && t.store.undeliverable
         == st.undeliverable + (if f.send && !f.useDefaultQ && f.callerQ.None? then multiset{d} else multiset{})
      && t.store.freed == st.freed + (if !f.send then multiset{d} else multiset{})
      && t.store.heap == st.heap[d := if f.send && !f.useDefaultQ && f.callerQ.None?
                                      then f.(status := InvalidDoneQueue) else f]
      && t.store.hands == st.hands && t.store.kept == st.kept
      && t.worker.local == (if f.send then Some(d) else None)
      && t.worker.log == s.worker.log + [Delivered(d, f)]
      && (t.worker.pc == if f.send && f.useDefaultQ then Signalling(s.worker.pc.from) else Notifying(s.worker.pc.from))
      && t.worker.notify == s.worker.notify && t.worker.callback == s.worker.callback
      && t.calls == s.calls && t.work == s.work && t.switches == s.switches
  {
  }

  /** The callback is filled in before the result is handed on: with the result's instruction, the number
      it is sent under, and its data item if the result asks for that. Without a result nothing is sent. */
  lemma CallbackSetUp(s: State)
    requires WorkerEnabled(s, SetUp)
    ensures var t, w := DoWorker(s, SetUp), s.worker;
      && (w.local == None ==> t.worker == w.(pc := t.worker.pc) && t.worker.pc in {EventTest, PeriodTest, Bottom})
      && (w.local.Some? ==>
           var f := s.store.heap[w.local.value];
           && t.worker == w.(pc := Sending(w.pc.from), notify := f.notify, callback := t.worker.callback)
           && (f.notify ==>
                && t.worker.callback.instruction == f.instruction && t.worker.callback.workId == w.pc.work
                && t.worker.callback.periodic == w.pc.periodic
                && t.worker.callback.item == if f.itemInCallback then f.item else w.callback.item)
           && (!f.notify ==> t.worker.callback == w.callback))
      && t == s.(worker := t.worker)
  {
  }

  // ---- From the instruction to the destination ----

  /** What a client step does to a pack in the heap: nothing, unless client code has it in its hands and
      writes it, or queues it, which gives it the identity of the call. */
  lemma ClientLeavesPack(s: State, e: ClientStep, d: Ptr)
    requires ClientEnabled(s, e) && d in s.store.heap
    ensures var t := DoClient(s, e);
      && d in t.store.heap
      && (!(e.Write? && e.p == d) && !(e.Issue? && e.p == d) ==> t.store.heap[d] == s.store.heap[d])
      && (e.Write? && e.p == d ==> t.store.heap[d] == e.pack)
      && (e.Issue? && e.p == d ==> t.store.heap[d] == s.store.heap[d].(id := NextId(s.calls.nextId)))
      && t.worker == s.worker
  {
    hide Q.Do;
  }

  /** A call gives its pack the next identity and takes it out of the client's hands. */
  lemma Issued(s: State, c: nat, p: Ptr)
    requires ClientEnabled(s, Issue(c, p))
    ensures var t := DoClient(s, Issue(c, p)); var id := (s.calls.nextId + 1) % 0x1_0000_0000;
      s.calls.nextId <= ULONG_MAX ==>
        && t.store.heap[p] == s.store.heap[p].(id := id) && t.calls.ids == s.calls.ids + [id]
        && t.store.hands == s.store.hands - multiset{p}
        && t.calls.flight == s.calls.flight + [Item(c, p)] && t.calls.issued == s.calls.issued + [Item(c, p)]
  {
  }

  ghost predicate OnlyClients(es: seq<Step>) {
    forall i :: 0 <= i < |es| ==> es[i].Client?
  }

  /** Whatever clients do, the pack the worker holds and the worker's own state stay as they are. */
  lemma {:induction false} ClientsLeaveHeld(s: State, es: seq<Step>, d: Ptr)
    requires Inv(s) && Runs(s, es) && OnlyClients(es) && CountHeld(d, s.worker) == 1 && d in s.store.heap
    ensures var t := After(s, es);
      Inv(t) && t.worker == s.worker && d in t.store.heap && t.store.heap[d] == s.store.heap[d]
    decreases |es|
  {
    hide Inv, DoClient, ClientEnabled, Places;
    if es != [] {
      var t := Do(s, es[0]);
      ClientLeavesPack(s, es[0].c, d);
      NotInHands(s, d);
      HeldNotWritten(s, es[0].c, d);
      StepKeepsInv(s, es[0]);
      ClientsLeaveHeld(t, es[1..], d);
    }
  }

  lemma NotInHands(s: State, d: Ptr)
    requires Inv(s) && CountHeld(d, s.worker) == 1
    ensures s.store.hands[d] == 0
  {
    hide Control, Order, CallbackOk, History;
    assert Places(d, s) <= 1;
  }

  lemma HeldNotWritten(s: State, e: ClientStep, d: Ptr)
    requires ClientEnabled(s, e) && s.store.hands[d] == 0
    ensures !(e.Write? && e.p == d) && !(e.Issue? && e.p == d)
  {
  }

  /** Client steps lead from s to t. */
  ghost predicate ClientsBetween(s: State, t: State) {
    exists es :: Runs(s, es) && OnlyClients(es) && After(s, es) == t
  }

  lemma HeldBetween(s: State, t: State, d: Ptr)
    requires Inv(s) && ClientsBetween(s, t) && CountHeld(d, s.worker) == 1 && d in s.store.heap
    ensures Inv(t) && t.worker == s.worker && d in t.store.heap && t.store.heap[d] == s.store.heap[d]
  {
    hide Inv, CountHeld, Runs, After, OnlyClients;
    var es :| Runs(s, es) && OnlyClients(es) && After(s, es) == t;
    ClientsLeaveHeld(s, es, d);
  }

  /** The pack d with these fields, and no other, has just been handed on to the place they name. */
  ghost predicate HandedOn(v: State, t: State, d: Ptr, pack: Pack) {
    && t.worker.log == v.worker.log + [Delivered(d, pack)]
    && (pack.send && pack.useDefaultQ ==> t.done.pushed == v.done.pushed + [d])
    && (pack.send && !pack.useDefaultQ && pack.callerQ.Some? ==> t.store.theirs == v.store.theirs + multiset{d})
    && (pack.send && !pack.useDefaultQ && pack.callerQ.None? ==>
         t.store.undeliverable == v.store.undeliverable + multiset{d}
         && d in t.store.heap && t.store.heap[d] == pack.(status := InvalidDoneQueue))
    && (!pack.send ==> t.store.freed == v.store.freed + multiset{d})
  }

  /** The callback that announces a pack, when the callback object held the item previous. */
  function Announcement(pack: Pack, work: nat, periodic: bool, previous: nat): Callback {
    Callback(pack.instruction, work, periodic, if pack.itemInCallback then pack.item else previous)
  }

  /** What sendResponse does with a pack, whatever clients do meanwhile: from the return of a method in
      state s, over the set-up of the callback in u, to the hand-over in v. */
  lemma SentAsReturned(s: State, u: State, v: State, d: Ptr)
    requires Inv(s) && s.worker.pc.Returned? && s.worker.local == Some(d) && d in s.store.heap
    requires ClientsBetween(s, u) && WorkerEnabled(u, SetUp) && ClientsBetween(DoWorker(u, SetUp), v)
    ensures WorkerEnabled(v, Deliver) && v.worker.log == s.worker.log
    ensures var t, pack := DoWorker(v, Deliver), s.store.heap[d];
      && HandedOn(v, t, d, pack)
      && t.worker.notify == pack.notify
      && (pack.notify ==>
           t.worker.callback == Announcement(pack, s.worker.pc.work, s.worker.pc.periodic, s.worker.callback.item))
  {
    hide Inv, ClientsBetween;
    HeldBetween(s, u, d);
    var r := DoWorker(u, SetUp);
    CallbackSetUp(u);
    assert Inv(r) by { StepKeepsInv(u, Work(SetUp)); }
    HeldBetween(r, v, d);
    CanDeliver(v);
    DeliveredTo(v);
  }

  lemma CanDeliver(v: State)
    requires Inv(v) && v.worker.pc.Sending? && v.worker.local.Some? && v.worker.local.value in v.store.heap
    ensures WorkerEnabled(v, Deliver)
  {
    hide Owned, Order, CallbackOk, History;
  }

  /** A worker method's result reaches its destination as the method returned it, announced under the
      instruction of the pack that was its input. */
  lemma WorkAnswered(s: State, o: Outcome, u: State, v: State, d: Ptr, pack: Pack)
    requires Inv(s) && WorkerEnabled(s, Invoke(o)) && HasMethod(s)
    requires match o
      case Same(q) => d == s.worker.local.value && pack == q
      case Fresh(e, q, _) => d == e && pack == q
      case Reused(e, q, _) => d == e && pack == q
      case Nothing(_) => false
    requires ClientsBetween(DoWorker(s, Invoke(o)), u) && WorkerEnabled(u, SetUp)
    requires ClientsBetween(DoWorker(u, SetUp), v)
    ensures WorkerEnabled(v, Deliver)
    ensures var t := DoWorker(v, Deliver);
      && HandedOn(v, t, d, pack)
      && t.worker.notify == pack.notify
      && (pack.notify ==>
           t.worker.callback == Announcement(pack, Input(s).instruction, false, s.worker.callback.item))
  {
    hide Inv, ClientsBetween, DoWorker, HandedOn, Announcement;
    MethodRuns(s, o);
    StepKeepsInv(s, Work(Invoke(o)));
    SentAsReturned(DoWorker(s, Invoke(o)), u, v, d);
  }

  /** An event handler's result likewise, under the number of its event. */
  lemma EventAnswered(s: State, o: Outcome, u: State, v: State)
    requires Inv(s) && WorkerEnabled(s, TestEvent(o)) && HandlerDue(s) && (o.Fresh? || o.Reused?)
    requires ClientsBetween(DoWorker(s, TestEvent(o)), u) && WorkerEnabled(u, SetUp)
    requires ClientsBetween(DoWorker(u, SetUp), v)
    ensures WorkerEnabled(v, Deliver)
    ensures var t := DoWorker(v, Deliver);
      && HandedOn(v, t, o.d, o.pack)
      && t.worker.notify == o.pack.notify
      && (o.pack.notify ==>
           t.worker.callback == Announcement(o.pack, s.worker.result.k, false, s.worker.callback.item))
  {
    hide Inv, ClientsBetween, DoWorker, HandedOn, Announcement;
    assert Control(s) by { InvControl(s); }
    HandlerRuns(s, o);
    StepKeepsInv(s, Work(TestEvent(o)));
    SentAsReturned(DoWorker(s, TestEvent(o)), u, v, o.d);
  }

  /** And the periodic method's, if it reports success, with its instruction set to 0. */
  lemma PeriodAnswered(s: State, o: Outcome, u: State, v: State)
    requires Inv(s) && WorkerEnabled(s, TestPeriod(true, true, o)) && !s.switches.exit && (o.Fresh? || o.Reused?)
    requires ClientsBetween(DoWorker(s, TestPeriod(true, true, o)), u) && WorkerEnabled(u, SetUp)
    requires ClientsBetween(DoWorker(u, SetUp), v)
    ensures WorkerEnabled(v, Deliver)
    ensures var t, pack := DoWorker(v, Deliver), o.pack.(instruction := 0);
      && HandedOn(v, t, o.d, pack)
      && t.worker.notify == pack.notify
      && (pack.notify ==> t.worker.callback == Announcement(pack, 0, true, s.worker.callback.item))
  {
    hide Inv, ClientsBetween, DoWorker, HandedOn, Announcement;
    PeriodicRuns(s, true, true, o);
    StepKeepsInv(s, Work(TestPeriod(true, true, o)));
    SentAsReturned(DoWorker(s, TestPeriod(true, true, o)), u, v, o.d);
  }

  lemma InvControl(s: State)
    requires Inv(s)
    ensures Control(s)
  {
  }

  // ---- Where the worker can go ----

  /** In every reachable state the place of the worker alone decides which of its steps it can take, up to
      what its wait and its methods deliver. */
  lemma EnabledExactly(es: seq<Step>, e: WorkerStep)
    requires Runs(Init(), es)
    ensures var s := After(Init(), es); var pc := s.worker.pc;
      WorkerEnabled(s, e) <==>
        match e
        case Begin => pc == Top
        case Wake(r) => pc == Waiting && match r {
          case NoSlot => true
          case Slot(k) => k < s.worker.listed && (k == 0 ==> s.work.sem > 0)
        }
        case TestWork => pc == Woken
        case PopWork => pc == Holding
        case Invoke(o) => pc == Got && Available(s, o)
        case SetUp => pc.Returned?
        case Deliver => pc.Sending?
        case SignalDone => pc.Signalling?
        case Notify => pc.Notifying?
        case TestEvent(o) => pc == EventTest && Available(s, o)
        case TestPeriod(_, _, o) => pc == PeriodTest && Available(s, o)
        case Loop => pc == Bottom
  {
    hide Runs, After, Init, Order, CallbackOk, Places, Q.Inv;
    ReachableInv(es);
    var s := After(Init(), es);
    if s.worker.local.Some? && CountHeld(s.worker.local.value, s.worker) == 1 {
      HeldAllocated(s, s.worker.local.value);
    }
    HandsAllocated(s);
  }

  /** A method can return new packs and packs that client code has in its hands. */
  predicate Available(s: State, o: Outcome) {
    match o
    case Fresh(d, _, _) => d !in s.store.heap
    case Reused(d, _, _) => d in s.store.hands
    case _ => true
  }

  lemma HeldAllocated(s: State, d: Ptr)
    requires Owned(s) && CountHeld(d, s.worker) == 1
    ensures d in s.store.heap
  {
    assert Places(d, s) == if d in s.store.heap then 1 else 0;
  }

  lemma HandsAllocated(s: State)
    requires Owned(s)
    ensures forall d :: d in s.store.hands ==> d in s.store.heap
  {
    forall d | d in s.store.hands ensures d in s.store.heap {
      assert Places(d, s) == if d in s.store.heap then 1 else 0;
    }
  }

  // ---- Stopping ----

  /** An upper bound on the steps the worker takes once the exit flag is set. */
  function StepsLeft(pc: Pc): nat {
    match pc
    case Exited => 0
    case Bottom => 1
    case PeriodTest => 2
    case EventTest => 3
    case Woken => 4
    case Top => 5
    case Waiting => 5
    case Notifying(from) => StepsBehind(from) + 1
    case Signalling(from) => StepsBehind(from) + 2
    case Sending(from) => StepsBehind(from) + 3
    case Returned(_, _, from) => StepsBehind(from) + 4
    case Got => 8
    case Holding => 9
  }

  function StepsBehind(from: Origin): nat {
    match from case FromPeriod => 1 case FromEvent => 2 case FromWork => 3
  }

  function WorkSteps(es: seq<Step>): nat {
    if es == [] then 0 else (if es[0].Work? then 1 else 0) + WorkSteps(es[1..])
  }

  lemma ExitStaysSet(s: State, e: Step)
    requires Enabled(s, e) && s.switches.exit
    ensures Do(s, e).switches.exit
    ensures StepsLeft(Do(s, e).worker.pc) + (if e.Work? then 1 else 0) <= StepsLeft(s.worker.pc)
  {
    hide Q.Do;
    if e.Work? {
      hide ClientEnabled, DoClient, Produce, Dispose, DeliverStore;
      WorkerGoesOn(s, e.w);
    } else {
      hide WorkerEnabled, DoWorker, StepsLeft;
    }
  }

  lemma WorkerGoesOn(s: State, e: WorkerStep)
    requires WorkerEnabled(s, e) && s.switches.exit
    ensures DoWorker(s, e).switches == s.switches
    ensures StepsLeft(DoWorker(s, e).worker.pc) + 1 <= StepsLeft(s.worker.pc)
  {
    hide Q.Do, Produce, Dispose, DeliverStore;
  }

  /** Once the exit flag is set, the worker takes at most nine more steps, in whatever state it is and
      whatever the clients do; and it has exited once it can take no more. */
  lemma {:induction false} StopsWithin(s: State, es: seq<Step>)
    requires s.switches.exit && Runs(s, es)
    ensures var t := After(s, es);
      && WorkSteps(es) + StepsLeft(t.worker.pc) <= StepsLeft(s.worker.pc) <= 9
      && (StepsLeft(t.worker.pc) == 0 <==> t.worker.pc == Exited)
    decreases |es|
  {
    hide Do, Enabled;
    if es != [] {
      ExitStaysSet(s, es[0]);
      StopsWithin(Do(s, es[0]), es[1..]);
    }
  }

  /** After the exit flag is set no method is called any more, but for the worker method of a pack that has
      already been popped. */
  lemma NoCallAfterExit(s: State, e: WorkerStep)
    requires WorkerEnabled(s, e) && s.switches.exit
    ensures var t := DoWorker(s, e);
      && (t.worker.pc.Returned? ==> s.worker.pc == Got)
      && (t.worker.pc == Holding ==> s.worker.pc == Holding)
      && (t.worker.pc == Exited <==> s.worker.pc == Bottom)
  {
    hide Q.Do;
  }

  // ---- One iteration ----

  /** The wait ends with the work semaphore, which it takes, or with one of the registered events, or with
      neither. In the first case the worker pops the front pack, if there is one; in the second the handler
      of that event is due; and otherwise neither happens. */
  lemma IterationStarts(s: State, r: Wait)
    requires s.worker.pc == Top && !s.switches.exit && Q.Idle(s.work, WORKER)
    requires WorkerEnabled(DoWorker(s, Begin), Wake(r))
    ensures r.Slot? ==> r.k <= s.switches.events && (r.k == 0 ==> s.work.sem > 0)
    ensures var t := DoWorker(DoWorker(DoWorker(s, Begin), Wake(r)), TestWork);
      && (t.worker.pc == if r == Slot(0) then Holding else EventTest)
      && (HandlerDue(t) <==> r.Slot? && r.k >= 1)
      && t.work.sem == s.work.sem - (if r == Slot(0) then 1 else 0) && t.work.items == s.work.items
      && (r == Slot(0) ==>
           var u := DoWorker(t, PopWork);
           if s.work.items == [] then u.worker.pc == EventTest
           else u.worker.pc == Got && u.worker.local == Some(s.work.items[0].ptr) && u.work.items == s.work.items[1..])
      && t.store == s.store && t.worker.local == s.worker.local
  {
  }

  /** Every registered event can end the wait, and so can a positive semaphore. */
  lemma WaitEnds(s: State, k: nat)
    requires s.worker.pc == Top && !s.switches.exit && Q.Idle(s.work, WORKER)
    ensures WorkerEnabled(DoWorker(s, Begin), Wake(Slot(k)))
      <==> k <= s.switches.events && (k == 0 ==> s.work.sem > 0)
    ensures WorkerEnabled(DoWorker(s, Begin), Wake(NoSlot))
  {
  }

  /** A response ends with the callback, if the pack asked for one, and the worker goes on behind the
      branch that sent it; an iteration ends the thread exactly when the exit flag is set. */
  lemma IterationEnds(s: State, e: WorkerStep)
    requires WorkerEnabled(s, e) && (e == Notify || e == Loop)
    ensures var t, w := DoWorker(s, e), s.worker;
      && (e == Notify ==>
           && t.worker.log == w.log + (if w.notify then [Fired(w.callback)] else [])
           && (t.worker.pc == match w.pc.from {
                 case FromWork => EventTest
                 case FromEvent => PeriodTest
                 case FromPeriod => Bottom
               }))
      && (e == Loop ==> t.worker == w.(pc := if s.switches.exit then Exited else Top))
      && t == s.(worker := t.worker)
  {
  }

  // ---- Clients ----

  /** The exit flag stays set, methods stay registered, and events are registered one by one. */
  lemma SettingsGrow(s: State, e: Step)
    requires Enabled(s, e)
    ensures var g, h := s.switches, Do(s, e).switches;
      && h.exit == (g.exit || e == Client(StopFlag))
      && h.methods == g.methods + (if e.Client? && e.c.SetMethod? then {e.c.i} else {})
      && h.events == g.events + (if e == Client(SetEvent) then 1 else 0)
  {
    hide Q.Do;
  }

  /** What client code gets out of m_DoneQ is its front pack. */
  lemma ResultTaken(s: State, c: nat)
    requires ClientEnabled(s, PopDone(c))
    ensures var t := DoClient(s, PopDone(c));
      if s.done.items == [] then t.store == s.store && t.done.items == []
      else
        && t.store == s.store.(hands := s.store.hands + multiset{s.done.items[0]})
        && t.done.items == s.done.items[1..] && t.done.popped == s.done.popped + [s.done.items[0]]
  {
  }

  /** In every reachable state a client inside an operation can go on with it, and one that is inside none
      can queue any pack it has, or take a signal that is there. */
  lemma ClientsCanGoOn(es: seq<Step>)
    requires Runs(Init(), es)
    ensures var s := After(Init(), es);
      && (forall i :: 0 <= i < |s.calls.flight| ==> ClientEnabled(s, PushWork(i)))
      && (forall c :: c in s.work.unsignalled ==> ClientEnabled(s, SignalWork(c)))
      && (forall c :: c in s.done.takers ==> ClientEnabled(s, PopDone(c)))
      && (forall c, p :: c > 0 && p in s.store.hands && Idling(s, c) ==> ClientEnabled(s, Issue(c, p)))
      && (forall c :: c > 0 && s.done.sem > 0 && c !in s.done.takers && c !in s.done.unsignalled ==>
            ClientEnabled(s, TakeDone(c)))
  {
    hide Runs, After, Init, Order, CallbackOk, Places, Q.Inv;
    ReachableInv(es);
    HandsAllocated(After(Init(), es));
  }

  /** The client is in no startWork call. */
  ghost predicate Idling(s: State, c: nat) {
    && c !in s.work.unsignalled && c !in s.work.takers
    && forall i :: 0 <= i < |s.calls.flight| ==> s.calls.flight[i].client != c
  }
}
