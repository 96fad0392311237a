/** CMtQueue: a list guarded by a critical section plus a manual-reset event. SetEvent is called
    after the section is left, ResetEvent before it is left. The first module is the protocol for
    any number of threads, the second the class. */
module MtProtocol {
  /** What the holder of the critical section still has to do before leaving it. */
  datatype Section = Free | Leaving(t: nat) | Resetting(t: nat)

  datatype Queue<T> = Queue(
    items: seq<T>,
    event: bool,              // m_theEvent is set
    section: Section,
    setters: set<nat>,        // threads that left insertItem's section and not yet called SetEvent
    pushed: seq<T>,
    taken: seq<T>,            // items handed to a caller, in order
    dropped: seq<T>,          // items removed so far, taken or cleared, in order
    pending: set<nat>,        // the setters when the event was last reset
    since: set<nat>)          // the threads that have called SetEvent since then

  datatype Step<T> =
    | Push(t: nat, x: T)      // enter, push_back
    | Leave(t: nat)           // leave without a reset
    | Set(t: nat)             // SetEvent
    | Take(t: nat)            // enter, look at the list and pop if it holds anything
    | Clear(t: nat)           // enter, empty the list
    | Reset(t: nat)           // ResetEvent and leave

  function Init<T>(): Queue<T> {
    Queue([], false, Free, {}, [], [], [], {}, {})
  }

  /** waitItem and getItem look at the event first, but nothing they see then restricts what they
      find in the section, so Take is enabled in either case. */
  predicate Enabled<T>(q: Queue<T>, e: Step<T>) {
    match e
    case Push(t, _) => q.section == Free && t !in q.setters
    case Leave(t) => q.section == Leaving(t)
    case Set(t) => t in q.setters && q.section != Leaving(t)
    case Take(t) => q.section == Free && t !in q.setters
    case Clear(t) => q.section == Free && t !in q.setters
    case Reset(t) => q.section == Resetting(t)
  }

  /** The body of the critical section of waitItem, getItem and getItemNoDec. */
  function TakeFront<T>(q: Queue<T>, t: nat): Queue<T> {
    if q.items == [] then q.(section := Resetting(t))
    else
      q.(items := q.items[1..], taken := q.taken + [q.items[0]], dropped := q.dropped + [q.items[0]],
         section := if |q.items| == 1 then Resetting(t) else Leaving(t))
  }

  function Do<T>(q: Queue<T>, e: Step<T>): Queue<T>
    requires Enabled(q, e)
  {
    match e
    case Push(t, x) =>
      q.(items := q.items + [x], pushed := q.pushed + [x], setters := q.setters + {t}, section := Leaving(t))
    case Leave(t) => q.(section := Free)
    case Set(t) => q.(event := true, setters := q.setters - {t}, since := q.since + {t})
    case Take(t) => TakeFront(q, t)
    case Clear(t) => q.(items := [], dropped := q.dropped + q.items, section := Resetting(t))
    case Reset(t) => q.(event := false, section := Free, pending := q.setters, since := {})
  }

  predicate Runs<T>(q: Queue<T>, es: seq<Step<T>>)
    decreases |es|
  {
    es == [] || (Enabled(q, es[0]) && Runs(Do(q, es[0]), es[1..]))
  }

  function After<T>(q: Queue<T>, es: seq<Step<T>>): Queue<T>
    requires Runs(q, es)
    decreases |es|
  {
    if es == [] then q else After(Do(q, es[0]), es[1..])
  }

  ghost predicate NoClear<T>(es: seq<Step<T>>) {
    forall i :: 0 <= i < |es| ==> !es[i].Clear?
  }

  /** While the list is empty, every thread that was about to set the event when it was last reset either
      still is or has done so, and nobody else has. */
  ghost predicate Echoes<T>(q: Queue<T>) {
    q.items == [] && !q.section.Resetting? ==>
      q.setters + q.since == q.pending && (q.event <==> q.since != {})
  }

  ghost predicate Inv<T>(q: Queue<T>) {
    && (q.items != [] ==> q.event || q.setters != {})
    && (q.section.Resetting? ==> q.items == [])
    && (q.section.Leaving? ==> q.items != [])
    && q.pushed == q.dropped + q.items
    && Echoes(q)
  }

  lemma StepKeepsInv<T>(q: Queue<T>, e: Step<T>)
    requires Inv(q) && Enabled(q, e)
    ensures Inv(Do(q, e))
  {
    match e
    case Push(t, x) =>
      assert t in Do(q, e).setters;
      assert q.dropped + (q.items + [x]) == q.pushed + [x];
    case Take(_) =>
      if q.items != [] {
        assert q.items == [q.items[0]] + q.items[1..];
      }
    case Set(t) =>
      assert t in Do(q, e).since;
      assert q.setters - {t} + (q.since + {t}) == q.setters + q.since;
    case _ =>
  }

  lemma {:induction false} RunKeepsInv<T>(q: Queue<T>, es: seq<Step<T>>)
    requires Inv(q) && Runs(q, es)
    ensures Inv(After(q, es))
    ensures NoClear(es) && q.taken == q.dropped ==> After(q, es).taken == After(q, es).dropped
    decreases |es|
  {
    if es != [] {
      StepKeepsInv(q, es[0]);
      RunKeepsInv(Do(q, es[0]), es[1..]);
      if NoClear(es) {
        assert !es[0].Clear?;
        assert forall i :: 0 <= i < |es[1..]| ==> es[1..][i] == es[i + 1];
      }
    }
  }

  /** No lost wake-up: whenever the list holds an item, the event is set or some inserter has pushed
      and is still about to set it. */
  lemma NoLostWakeUp<T>(es: seq<Step<T>>)
    requires Runs(Init<T>(), es)
    ensures var q := After(Init<T>(), es); q.items != [] ==> q.event || q.setters != {}
  {
    RunKeepsInv(Init<T>(), es);
  }

  /** Items leave in the order they came; without clear every item that left was handed to a caller. */
  lemma InOrder<T>(es: seq<Step<T>>)
    requires Runs(Init<T>(), es)
    ensures var q := After(Init<T>(), es); q.pushed == q.dropped + q.items
    ensures var q := After(Init<T>(), es); NoClear(es) ==> q.pushed == q.taken + q.items
  {
    RunKeepsInv(Init<T>(), es);
  }

  /** The converse, exactly: between operations, with the list empty, the event is set when and only when
      some thread that was about to set it when it was last reset has done so since. */
  lemma EventWithoutItemExactly<T>(es: seq<Step<T>>)
    requires Runs(Init<T>(), es)
    requires var q := After(Init<T>(), es); q.section == Free && q.items == []
    ensures var q := After(Init<T>(), es); q.event <==> exists t :: t in q.pending && t in q.since
  {
    hide After, Runs, Init;
    ReachableInv(es);
    var q := After(Init<T>(), es);
    if q.event {
      var t :| t in q.since;
      assert t in q.pending;
    }
  }

  lemma ReachableInv<T>(es: seq<Step<T>>)
    requires Runs(Init<T>(), es)
    ensures Inv(After(Init<T>(), es))
  {
    RunKeepsInv(Init<T>(), es);
  }

  /** Every take and clear of the run finds no inserter between its push and its SetEvent. */
  ghost predicate Calm<T>(q: Queue<T>, es: seq<Step<T>>)
    requires Runs(q, es)
    decreases |es|
  {
    es == [] || ((es[0].Take? || es[0].Clear? ==> q.setters == {}) && Calm(Do(q, es[0]), es[1..]))
  }

  ghost predicate Settled<T>(q: Queue<T>) {
    q.pending == {} && (q.section.Resetting? ==> q.setters == {})
  }

  lemma {:induction false} CalmKeepsSettled<T>(q: Queue<T>, es: seq<Step<T>>)
    requires Settled(q) && Runs(q, es) && Calm(q, es)
    ensures Settled(After(q, es))
    decreases |es|
  {
    if es != [] { CalmKeepsSettled(Do(q, es[0]), es[1..]); }
  }

  /** In such a run a set event promises an item, except to the thread that is about to reset it. */
  lemma CalmEventPromisesItem<T>(es: seq<Step<T>>)
    requires Runs(Init<T>(), es) && Calm(Init<T>(), es)
    ensures var q := After(Init<T>(), es); q.event && !q.section.Resetting? ==> q.items != []
  {
    ReachableInv(es);
    CalmKeepsSettled(Init<T>(), es);
  }

  /** A run that ends with the event set and the list empty: one thread takes the only item between
      another's push and its SetEvent. */
  lemma EventWithoutItem()
    ensures exists es: seq<Step<int>> :: Runs(Init<int>(), es) && After(Init<int>(), es).event
                                         && After(Init<int>(), es).items == []
  {
    var q0 := Init<int>();
    var e: seq<Step<int>> := [Push(1, 7), Leave(1), Take(2), Reset(2), Set(1)];
    var q1 := Do(q0, e[0]);
    var q2 := Do(q1, e[1]);
    var q3 := Do(q2, e[2]);
    var q4 := Do(q3, e[3]);
    var q5 := Do(q4, e[4]);
    assert Runs(q5, []) && After(q5, []) == q5;
    assert e[4..] == [e[4]] && Runs(q4, e[4..]) && After(q4, e[4..]) == q5;
    assert e[3..][1..] == e[4..] && Runs(q3, e[3..]) && After(q3, e[3..]) == q5;
    assert e[2..][1..] == e[3..] && Runs(q2, e[2..]) && After(q2, e[2..]) == q5;
    assert e[1..][1..] == e[2..] && Runs(q1, e[1..]) && After(q1, e[1..]) == q5;
    assert Runs(q0, e) && After(q0, e) == q5;
  }
}

module MtQueue {
  import opened Text
  import opened MtProtocol

  class MtQueue<T> {
    var items: seq<T>        // m_theQueue
    var event: bool          // m_theEvent
    ghost var q: Queue<T>    // where the protocol stands

    /** No thread is inside the queue. Then an item implies a set event, but not the other way round. */
    ghost predicate Valid() reads this {
      && Inv(q) && items == q.items && event == q.event
      && q.section == Free && q.setters == {}
    }

    constructor ()
      ensures Valid() && q == Init()
    {
      items, event, q := [], false, Init();
    }

    method InsertItem(ghost t: nat, x: T)
      requires Valid()
      modifies this
      ensures Valid() && items == old(items) + [x] && event
      ensures Enabled(old(q), Push(t, x)) && q.pushed == old(q).pushed + [x]
      ensures q.dropped == old(q).dropped && q.taken == old(q).taken
    {
      StepKeepsInv(q, Push(t, x));
      items := items + [x];
      q := Do(q, Push(t, x));
      StepKeepsInv(q, Leave(t));
      q := Do(q, Leave(t));
      StepKeepsInv(q, Set(t));
      event := true;
      q := Do(q, Set(t));
    }

    /** The critical section shared by waitItem, getItem and getItemNoDec. */
    method TakeItem(ghost t: nat) returns (r: Option<T>)
      requires Valid()
      modifies this
      ensures Valid()
      ensures r == if old(items) == [] then None else Some(old(items)[0])
      ensures items == if old(items) == [] then [] else old(items)[1..]
      ensures event == (items != [])
      ensures q.pushed == old(q).pushed && q.taken == old(q).taken + if r.Some? then [r.value] else []
    {
      r := None;
      StepKeepsInv(q, Take(t));
      q := Do(q, Take(t));
      var isEmpty := items == [];
      if !isEmpty {
        r, items := Some(items[0]), items[1..];
        isEmpty := items == [];
      }
      if isEmpty {
        StepKeepsInv(q, Reset(t));
        event := false;
        q := Do(q, Reset(t));
      } else {
        StepKeepsInv(q, Leave(t));
        q := Do(q, Leave(t));
      }
    }

    /** With no other thread running, the wait succeeds at once or times out. A wait that succeeds on an
        empty list finds nothing and resets the event. */
    method WaitItem(ghost t: nat) returns (r: Option<T>)
      requires Valid()
      modifies this
      ensures Valid()
      ensures r == if old(items) == [] then None else Some(old(items)[0])
      ensures items == if old(items) == [] then [] else old(items)[1..]
      ensures event == (items != [])
      ensures q.pushed == old(q).pushed && q.taken == old(q).taken + if r.Some? then [r.value] else []
    {
      r := None;
      if event {
        r := TakeItem(t);
      }
    }

    method Clear(ghost t: nat)
      requires Valid()
      modifies this
      ensures Valid() && items == [] && !event
      ensures q.dropped == old(q).dropped + old(items) && q.taken == old(q).taken
    {
      StepKeepsInv(q, MtProtocol.Clear(t));
      items := [];
      q := Do(q, MtProtocol.Clear(t));
      StepKeepsInv(q, Reset(t));
      event := false;
      q := Do(q, Reset(t));
    }
  }
}
