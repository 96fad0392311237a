/** CProtectedQueue: a list guarded by a critical section plus a counting semaphore that is
    released outside that section. The first module is the protocol, one step for every action
    that the critical section or the kernel makes atomic; the second is the class. */
module QueueProtocol {
  /** LONG_MAX, the maximum count the semaphore is created with. */
  const SEM_MAX: nat := 0x7fff_ffff

  /** The shared state, where every thread stands inside an operation, and the histories. */
  datatype Queue<T> = Queue(
    items: seq<T>,            // the list
    sem: nat,                 // the semaphore's count
    unsignalled: set<nat>,    // threads that have pushed and not yet released the semaphore
    takers: set<nat>,         // threads that took a signal and have not yet entered the section
    pushed: seq<T>,           // everything ever pushed, in order
    popped: seq<T>,           // everything ever popped, in order
    stops: nat,               // signals released with no item behind them
    empties: nat,             // pops after a taken signal that found the list empty
    direct: nat,              // items popped without taking a signal first
    abandoned: nat,           // taken signals whose thread never looked at the list
    lost: nat)                // releases refused because the count was at its maximum

  datatype Step<T> =
    | Push(t: nat, x: T)
    | Signal(t: nat)
    | Stop
    | Take(t: nat)
    | Pop(t: nat)
    | PopDirect(t: nat)
    | Abandon(t: nat)

  function Init<T>(): Queue<T> {
    Queue([], 0, {}, {}, [], [], 0, 0, 0, 0, 0)
  }

  predicate Idle<T>(q: Queue<T>, t: nat) {
    t !in q.unsignalled && t !in q.takers
  }

  predicate Enabled<T>(q: Queue<T>, e: Step<T>) {
    match e
    case Push(t, _) => Idle(q, t)
    case Signal(t) => t in q.unsignalled
    case Stop => true
    case Take(t) => Idle(q, t) && q.sem > 0
    case Pop(t) => t in q.takers
    case PopDirect(t) => Idle(q, t)
    case Abandon(t) => t in q.takers
  }

  /** ReleaseSemaphore(h, 1, NULL): refused, with the count unchanged, at the maximum. */
  function Release<T>(q: Queue<T>): Queue<T> {
    if q.sem < SEM_MAX then q.(sem := q.sem + 1) else q.(lost := q.lost + 1)
  }

  function PopFront<T>(q: Queue<T>): Queue<T>
    requires q.items != []
  {
    q.(items := q.items[1..], popped := q.popped + [q.items[0]])
  }

  function Do<T>(q: Queue<T>, e: Step<T>): Queue<T>
    requires Enabled(q, e)
  {
    match e
    case Push(t, x) => q.(items := q.items + [x], pushed := q.pushed + [x], unsignalled := q.unsignalled + {t})
    case Signal(t) => Release(q.(unsignalled := q.unsignalled - {t}))
    case Stop => Release(q.(stops := q.stops + 1))
    case Take(t) => q.(sem := q.sem - 1, takers := q.takers + {t})
    case Pop(t) =>
      var r := q.(takers := q.takers - {t});
      if q.items == [] then r.(empties := q.empties + 1) else PopFront(r)
    case PopDirect(t) => if q.items == [] then q else PopFront(q).(direct := q.direct + 1)
    case Abandon(t) => q.(takers := q.takers - {t}, abandoned := q.abandoned + 1)
  }

  predicate Runs<T>(q: Queue<T>, es: seq<Step<T>>)
    decreases |es|
  {
    es == [] || (Enabled(q, es[0]) && Runs(Do(q, es[0]), es[1..]))
  }

  function After<T>(q: Queue<T>, es: seq<Step<T>>): Queue<T>
    requires Runs(q, es)
    decreases |es|
  {
    if es == [] then q else After(Do(q, es[0]), es[1..])
  }

  /** First in, first out; every signal and every item accounted for; every empty pop paid for. */
  ghost predicate Inv<T>(q: Queue<T>) {
    && q.pushed == q.popped + q.items
    && q.unsignalled !! q.takers
    && |q.items| + q.stops + q.direct
       == q.sem + q.lost + |q.unsignalled| + |q.takers| + q.empties + q.abandoned
    && q.empties <= q.stops + q.direct
    && q.sem <= SEM_MAX
  }

  lemma PopFrontInOrder<T>(q: Queue<T>)
    requires q.items != [] && q.pushed == q.popped + q.items
    ensures var r := PopFront(q); q.pushed == r.popped + r.items
  {
    assert q.items == [q.items[0]] + q.items[1..];
  }

  lemma StepKeepsInv<T>(q: Queue<T>, e: Step<T>)
    requires Inv(q) && Enabled(q, e)
    ensures Inv(Do(q, e))
  {
    match e
    case Push(_, x) => assert q.popped + (q.items + [x]) == q.pushed + [x];
    case Pop(_) => if q.items != [] { PopFrontInOrder(q); }
    case PopDirect(_) => if q.items != [] { PopFrontInOrder(q); }
    case _ =>
  }

  lemma {:induction false} RunKeepsInv<T>(q: Queue<T>, es: seq<Step<T>>)
    requires Inv(q) && Runs(q, es)
    ensures Inv(After(q, es))
    decreases |es|
  {
    if es != [] {
      StepKeepsInv(q, es[0]);
      RunKeepsInv(Do(q, es[0]), es[1..]);
    }
  }

  /** Semaphore accounting in every reachable state of any number of threads. */
  lemma Accounting<T>(es: seq<Step<T>>)
    requires Runs(Init<T>(), es)
    ensures var q := After(Init<T>(), es);
      && q.pushed == q.popped + q.items
      && |q.items| == q.sem + q.lost + |q.unsignalled| + |q.takers| + q.empties + q.abandoned - q.stops - q.direct
      && q.empties <= q.stops + q.direct
  {
    RunKeepsInv(Init<T>(), es);
  }

  /** Once every stop signal and every direct pop has been paid for by an empty pop (in
      particular when there never were any), a thread that took a signal finds an item. */
  lemma TakerFindsItem<T>(es: seq<Step<T>>, t: nat)
    requires Runs(Init<T>(), es)
    requires var q := After(Init<T>(), es); t in q.takers && q.empties == q.stops + q.direct
    ensures After(Init<T>(), es).items != []
  {
    RunKeepsInv(Init<T>(), es);
  }

  /** A release is refused only while SEM_MAX signals are outstanding, each of them owed to an
      item still queued, to a stop or to a direct pop. */
  lemma ReleaseRefused<T>(es: seq<Step<T>>, e: Step<T>)
    requires Runs(Init<T>(), es) && Enabled(After(Init<T>(), es), e)
    requires Do(After(Init<T>(), es), e).lost > After(Init<T>(), es).lost
    ensures var q := After(Init<T>(), es); |q.items| + q.stops + q.direct >= SEM_MAX
  {
    RunKeepsInv(Init<T>(), es);
  }
}

module ProtectedQueue {
  import opened Text
  import opened QueueProtocol

  class ProtectedQueue<T> {
    var items: seq<T>       // m_theQueue
    var signal: nat         // the count of m_theSignal
    ghost var q: Queue<T>   // where the protocol stands

    ghost predicate Valid() reads this {
      Inv(q) && items == q.items && signal == q.sem
    }

    constructor ()
      ensures Valid() && q == Init()
    {
      items, signal, q := [], 0, Init();
    }

    /** Push inside the critical section, then release the semaphore outside it. */
    method InsertItem(ghost t: nat, x: T)
      requires Valid() && Idle(q, t)
      modifies this
      ensures Valid()
      ensures Enabled(old(q), Push(t, x)) && Enabled(Do(old(q), Push(t, x)), Signal(t))
      ensures q == Do(Do(old(q), Push(t, x)), Signal(t))
      ensures items == old(items) + [x]
      ensures signal == if old(signal) < SEM_MAX then old(signal) + 1 else old(signal)
    {
      StepKeepsInv(q, Push(t, x));
      items := items + [x];
      q := Do(q, Push(t, x));
      StepKeepsInv(q, Signal(t));
      if signal < SEM_MAX { signal := signal + 1; }
      q := Do(q, Signal(t));
    }

    /** With no other thread running, the wait succeeds at once or times out. */
    method WaitItem(ghost t: nat) returns (r: Option<T>)
      requires Valid() && Idle(q, t)
      modifies this
      ensures Valid()
      ensures old(signal) == 0 ==> r == None && q == old(q)
      ensures old(signal) > 0 ==> Enabled(old(q), Take(t)) && Enabled(Do(old(q), Take(t)), Pop(t))
      ensures old(signal) > 0 ==> q == Do(Do(old(q), Take(t)), Pop(t)) && signal == old(signal) - 1
      ensures old(signal) > 0 && old(items) == [] ==> r == None && items == []
      ensures old(signal) > 0 && old(items) != [] ==> r == Some(old(items)[0]) && items == old(items)[1..]
    {
      r := None;
      if signal > 0 {
        StepKeepsInv(q, Take(t));
        signal := signal - 1;
        q := Do(q, Take(t));
        StepKeepsInv(q, Pop(t));
        q := Do(q, Pop(t));
        if items != [] {
          r, items := Some(items[0]), items[1..];
        }
      }
    }

    /** Pops without touching the semaphore. A thread that already took a signal through the
        handle is at Pop; any other thread takes an item that still has a signal outstanding. */
    method GetItemNoDec(ghost t: nat) returns (r: Option<T>)
      requires Valid()
      requires t !in q.unsignalled
      modifies this
      ensures Valid() && signal == old(signal)
      ensures t in old(q).takers ==> q == Do(old(q), Pop(t))
      ensures t !in old(q).takers ==> Enabled(old(q), PopDirect(t)) && q == Do(old(q), PopDirect(t))
      ensures r == if old(items) == [] then None else Some(old(items)[0])
      ensures items == if old(items) == [] then [] else old(items)[1..]
    {
      ghost var e := if t in q.takers then Pop(t) else PopDirect(t);
      StepKeepsInv(q, e);
      q := Do(q, e);
      if items == [] {
        r := None;
      } else {
        r, items := Some(items[0]), items[1..];
      }
    }

    /** Frees every queued item once, in order, then drains the semaphore. With no other thread inside the
        queue, as in the destructors, that is a new queue. With threads inside, which will still signal or
        pop, the accounting survives exactly when there was nothing to clear. */
    method Clear() returns (freed: seq<T>)
      requires Valid()
      modifies this
      ensures items == [] && signal == 0 && freed == old(items)
      ensures old(q.unsignalled == {} && q.takers == {}) ==> Valid() && q == Init()
      ensures !old(q.unsignalled == {} && q.takers == {}) ==>
        q == old(q).(items := [], sem := 0) && (Valid() <==> old(items) == [] && old(signal) == 0)
    {
      freed := [];
      while items != []
        invariant freed + items == old(items)
        invariant signal == old(signal) && q == old(q)
        decreases |items|
      {
        freed, items := freed + [items[0]], items[1..];
      }
      while signal > 0
        invariant items == [] && q == old(q)
        decreases signal
      {
        signal := signal - 1;
      }
      Drained(q);
      q := if q.unsignalled == {} && q.takers == {} then Init() else q.(items := [], sem := 0);
    }
  }

  lemma Drained<T>(q: Queue<T>)
    requires Inv(q)
    ensures Inv(q.(items := [], sem := 0)) <==> q.items == [] && q.sem == 0
  {
    if q.items == [] {
      assert q.popped + [] == q.popped;
    } else {
      assert |q.popped + q.items| > |q.popped + []|;
    }
  }
}
