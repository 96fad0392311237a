/** The event methods of CThreadIt: registration, the list of handles that threadRoutine waits on,
    and the handler it runs when the wait reports a slot. The protocol lets other threads register
    while the worker scans the table, slot by slot; the class is the code run by one thread. */
module EventProtocol {
  import opened Text

  const MAX_EVENT_METHODS: nat := 10

  type Handle = nat

  /** The work queue's semaphore, always slot 0. */
  const WORK_QUEUE: Handle := 0

  datatype Entry = Entry(handle: Handle, handler: nat)

  /** A scan of the table: the next slot to read and the registrations since it began. */
  datatype Scan = Resting | Scanning(next: nat, overlaps: nat)

  /** Where a filled slot has been read after an empty one: the first empty and the first such filled slot. */
  datatype Gap = NoGap | Hole(empty: nat) | Jumped(empty: nat, filled: nat)

  datatype Table = Table(
    entries: seq<Entry>,     // the filled part of m_EventMethod; it grows without gaps
    list: seq<Handle>,       // the filled part of hEventList
    scan: Scan,
    reset: bool,             // m_ResetEventInfo
    gap: Gap,                // what the last scan has read so far
    late: nat,               // registrations during the last scan that landed behind it
    worst: nat)              // most registrations seen so far during one scan

  datatype Step = Register(e: Entry) | BeginScan | ReadSlot | EndScan

  function Init(): Table { Table([], [], Resting, true, NoGap, 0, 0) }

  predicate Enabled(s: Table, e: Step) {
    match e
    case Register(_) => |s.entries| < MAX_EVENT_METHODS
    case BeginScan => s.scan == Resting && s.reset
    case ReadSlot => s.scan.Scanning? && s.scan.next < MAX_EVENT_METHODS
    case EndScan => s.scan.Scanning? && s.scan.next == MAX_EVENT_METHODS
  }

  /** What reading slot j, filled or empty, adds to the history of a scan. */
  function Seen(g: Gap, j: nat, filled: bool): Gap {
    if filled then if g.Hole? then Jumped(g.empty, j) else g
    else if g == NoGap then Hole(j) else g
  }

  function Do(s: Table, e: Step): Table
    requires Enabled(s, e)
  {
    match e
    case Register(x) =>
      var t := s.(entries := s.entries + [x], reset := true);
      if s.scan == Resting then t
      else
        var n := s.scan.overlaps + 1;
        t.(scan := Scanning(s.scan.next, n), worst := if n > s.worst then n else s.worst,
           late := if |s.entries| < s.scan.next then s.late + 1 else s.late)
    case BeginScan => s.(list := [WORK_QUEUE], scan := Scanning(0, 0), gap := NoGap, late := 0)
    case ReadSlot =>
      var j := s.scan.next;
      s.(list := if j < |s.entries| then s.list + [s.entries[j].handle] else s.list,
         scan := Scanning(j + 1, s.scan.overlaps), gap := Seen(s.gap, j, j < |s.entries|))
    case EndScan => s.(scan := Resting, reset := false)
  }

  predicate Runs(s: Table, es: seq<Step>)
    decreases |es|
  {
    es == [] || (Enabled(s, es[0]) && Runs(Do(s, es[0]), es[1..]))
  }

  function After(s: Table, es: seq<Step>): Table
    requires Runs(s, es)
    decreases |es|
  {
    if es == [] then s else After(Do(s, es[0]), es[1..])
  }

  /** Slot k of the list holds the handle of entry k - 1, whose handler threadRoutine runs. */
  ghost predicate Matches(s: Table) {
    |s.list| <= 1 + |s.entries| && forall k :: 1 <= k < |s.list| ==> s.list[k] == s.entries[k - 1].handle
  }

  /** The length of the list, while the scan goes on and after it. */
  ghost predicate Counted(s: Table) {
    && (s.scan.Scanning? ==> |s.list| + s.late == 1 + Min(s.scan.next, |s.entries|))
    && (s.scan == Resting && !s.reset ==> |s.list| + s.late == 1 + |s.entries|)
  }

  /** What is known about the list while its scan read no empty slot, before it read a filled one after
      that, and from then on. */
  ghost predicate Placed(s: Table) {
    match s.gap
    case NoGap => Matches(s) && (s.scan.Scanning? ==> |s.list| == 1 + s.scan.next)
    case Hole(h) => Matches(s) && |s.list| == 1 + h && h <= |s.entries| && (s.scan.Scanning? ==> h < s.scan.next)
    case Jumped(h, g) =>
      && h < g < |s.entries| && 1 + h < |s.list| && s.list[1 + h] == s.entries[g].handle
      && (s.scan.Scanning? ==> g < s.scan.next)
  }

  /** How many registrations a hole and a jump take. */
  ghost predicate Overlapped(s: Table) {
    && (s.scan.Scanning? ==>
          s.scan.overlaps <= s.worst && s.scan.next <= MAX_EVENT_METHODS && s.late <= s.scan.overlaps)
    && s.late <= s.worst
    && (s.scan.Scanning? && s.gap.Hole? ==> |s.entries| <= s.gap.empty + s.scan.overlaps)
    && (s.gap.Jumped? ==> s.worst >= 2)
  }

  ghost predicate Inv(s: Table) {
    |s.entries| <= MAX_EVENT_METHODS && Counted(s) && Placed(s) && Overlapped(s)
  }

  lemma StepKeepsCounted(s: Table, e: Step)
    requires Inv(s) && Enabled(s, e)
    ensures Counted(Do(s, e))
  {
    hide Placed;
  }

  lemma StepKeepsPlaced(s: Table, e: Step)
    requires |s.entries| <= MAX_EVENT_METHODS && Placed(s) && Enabled(s, e)
    ensures Placed(Do(s, e))
  {
  }

  lemma StepKeepsOverlapped(s: Table, e: Step)
    requires Inv(s) && Enabled(s, e)
    ensures Overlapped(Do(s, e))
  {
    hide Matches;
  }

  lemma StepKeepsInv(s: Table, e: Step)
    requires Inv(s) && Enabled(s, e)
    ensures Inv(Do(s, e))
  {
    hide Counted, Placed, Overlapped;
    StepKeepsCounted(s, e);
    StepKeepsPlaced(s, e);
    StepKeepsOverlapped(s, e);
  }

  lemma {:induction false} RunKeepsInv(s: Table, es: seq<Step>)
    requires Inv(s) && Runs(s, es)
    ensures Inv(After(s, es))
    decreases |es|
  {
    if es != [] {
      StepKeepsInv(s, es[0]);
      RunKeepsInv(Do(s, es[0]), es[1..]);
    }
  }

  ghost predicate DistinctHandles(s: Table) {
    forall i, j :: 0 <= i < j < |s.entries| ==> s.entries[i].handle != s.entries[j].handle
  }

  /** In every run of registrations and scans, and with a list built before or after the latest
      registration: a wait that reports slot k runs the handler registered with the handle in slot k, for
      every k, exactly when the last scan has not read a filled slot after an empty one. */
  lemma RightHandlerExactly(es: seq<Step>)
    requires Runs(Init(), es) && DistinctHandles(After(Init(), es))
    ensures Matches(After(Init(), es)) <==> !After(Init(), es).gap.Jumped?
  {
    hide After, Runs, Init;
    ReachableInv(es);
    var s := After(Init(), es);
    if s.gap.Jumped? {
      assert s.entries[s.gap.empty].handle != s.entries[s.gap.filled].handle;
    }
  }

  lemma ReachableInv(es: seq<Step>)
    requires Runs(Init(), es)
    ensures Inv(After(Init(), es))
  {
    RunKeepsInv(Init(), es);
  }

  /** So it takes two registrations during one scan to run a wrong handler. */
  lemma RightHandler(es: seq<Step>)
    requires Runs(Init(), es) && After(Init(), es).worst <= 1
    ensures Matches(After(Init(), es))
  {
    ReachableInv(es);
  }

  /** When the list is up to date, it lacks as many events as registrations landed behind the last scan;
      so every registered event is waited for exactly when none did. */
  lemma NothingForgottenExactly(es: seq<Step>)
    requires Runs(Init(), es)
    requires var s := After(Init(), es); s.scan == Resting && !s.reset
    ensures var s := After(Init(), es); |s.list| == 1 + |s.entries| - s.late
    ensures var s := After(Init(), es); |s.list| == 1 + |s.entries| <==> s.late == 0
  {
    ReachableInv(es);
  }

  /** In particular when nothing is registered during a scan, as when only the worker registers. */
  lemma NothingForgotten(es: seq<Step>)
    requires Runs(Init(), es)
    requires var s := After(Init(), es); s.worst == 0 && s.scan == Resting && !s.reset
    ensures var s := After(Init(), es); |s.list| == 1 + |s.entries|
  {
    ReachableInv(es);
  }

  lemma {:induction false} RunsAppend(s: Table, a: seq<Step>, b: seq<Step>)
    requires Runs(s, a) && Runs(After(s, a), b)
    ensures Runs(s, a + b) && After(s, a + b) == After(After(s, a), b)
    decreases |a|
  {
    if a == [] {
      assert a + b == b;
    } else {
      RunsAppend(Do(s, a[0]), a[1..], b);
      assert (a + b)[1..] == a[1..] + b;
    }
  }

  lemma RunsAppendTwice(s: Table, a: seq<Step>, b: seq<Step>, c: seq<Step>)
    requires Runs(s, a) && Runs(After(s, a), b) && Runs(After(After(s, a), b), c)
    ensures Runs(s, a + (b + c)) && After(s, a + (b + c)) == After(After(After(s, a), b), c)
  {
    RunsAppend(After(s, a), b, c);
    RunsAppend(s, a, b + c);
  }

  lemma RunsOne(s: Table, e: Step)
    requires Enabled(s, e)
    ensures Runs(s, [e]) && After(s, [e]) == Do(s, e)
  {
    assert [e][1..] == [];
    assert Runs(Do(s, e), []);
  }

  function Registrations(handles: seq<Handle>): seq<Step> {
    seq(|handles|, i requires 0 <= i < |handles| => Register(Entry(handles[i], i)))
  }

  function Reads(n: nat): seq<Step> { seq(n, _ => ReadSlot) }

  /** Reading on from slot j copies the handles of the entries from j up. */
  lemma {:induction false} ReadsCopy(s: Table, n: nat)
    requires s.scan.Scanning? && s.scan.next + n <= MAX_EVENT_METHODS
    ensures Runs(s, Reads(n))
    ensures var t := After(s, Reads(n));
      && t.entries == s.entries && t.reset == s.reset && t.worst == s.worst
      && t.scan == Scanning(s.scan.next + n, s.scan.overlaps)
      && |s.list| <= |t.list| && t.list[..|s.list|] == s.list
      && (n > 0 && s.scan.next < |s.entries| ==>
            |t.list| > |s.list| && t.list[|s.list|] == s.entries[s.scan.next].handle)
      && (s.scan.next >= |s.entries| ==> t.list == s.list)
      && (s.scan.next + n <= |s.entries| ==> |t.list| == |s.list| + n)
    decreases n
  {
    if n > 0 {
      assert Reads(n)[0] == ReadSlot && Reads(n)[1..] == Reads(n - 1);
      hide Reads;
      ReadsCopy(Do(s, ReadSlot), n - 1);
    }
  }

  lemma {:induction false} RegistrationsRun(s: Table, hs: seq<Handle>)
    requires |s.entries| + |hs| <= MAX_EVENT_METHODS
    ensures Runs(s, Registrations(hs))
    ensures var t := After(s, Registrations(hs));
      && |t.entries| == |s.entries| + |hs| && t.entries[..|s.entries|] == s.entries
      && (forall i :: 0 <= i < |hs| ==> t.entries[|s.entries| + i].handle == hs[i])
      && t.list == s.list
      && t.scan == (if s.scan == Resting then Resting else Scanning(s.scan.next, s.scan.overlaps + |hs|))
    decreases |hs|
  {
    var rs := Registrations(hs);
    if hs != [] {
      var n := |hs| - 1;
      var init := hs[..n];
      RegistrationsRun(s, init);
      assert rs == Registrations(init) + [Register(Entry(hs[n], n))];
      var t := After(s, Registrations(init));
      RunsOne(t, Register(Entry(hs[n], n)));
      RunsAppend(s, Registrations(init), [Register(Entry(hs[n], n))]);
    }
  }

  /** One scan of a table with n entries, with registrations of the handles hs squeezed in after
      slot n has been read as empty. */
  function LateScan(n: nat, hs: seq<Handle>): seq<Step>
    requires n < MAX_EVENT_METHODS
  {
    ([BeginScan] + Reads(n + 1)) + (Registrations(hs) + (Reads(MAX_EVENT_METHODS - n - 1) + [EndScan]))
  }

  /** The scan up to the point where slot n has been read as empty. */
  lemma ScanToGap(s: Table)
    requires s.scan == Resting && s.reset && |s.entries| < MAX_EVENT_METHODS
    ensures var es := [BeginScan] + Reads(|s.entries| + 1);
      Runs(s, es) && After(s, es).entries == s.entries && After(s, es).scan == Scanning(|s.entries| + 1, 0)
      && |After(s, es).list| == |s.entries| + 1
  {
    var n := |s.entries|;
    var s1 := Do(s, BeginScan);
    RunsOne(s, BeginScan);
    ReadsCopy(s1, n);
    ReadsCopy(After(s1, Reads(n)), 1);
    assert Reads(n + 1) == Reads(n) + Reads(1);
    RunsAppend(s1, Reads(n), Reads(1));
    RunsAppend(s, [BeginScan], Reads(n + 1));
  }

  /** The rest of the scan, after the registrations. */
  lemma ScanToEnd(s: Table)
    requires s.scan.Scanning? && s.scan.next <= MAX_EVENT_METHODS
    ensures var es := Reads(MAX_EVENT_METHODS - s.scan.next) + [EndScan];
      && Runs(s, es) && After(s, es).entries == s.entries
      && After(s, es).scan == Resting && !After(s, es).reset
      && |s.list| <= |After(s, es).list|
      && (s.scan.next < |s.entries| <= MAX_EVENT_METHODS ==>
            |After(s, es).list| > |s.list| && After(s, es).list[|s.list|] == s.entries[s.scan.next].handle)
      && (s.scan.next >= |s.entries| ==> After(s, es).list == s.list)
  {
    var r := MAX_EVENT_METHODS - s.scan.next;
    ReadsCopy(s, r);
    RunsOne(After(s, Reads(r)), EndScan);
    RunsAppend(s, Reads(r), [EndScan]);
  }

  /** What a late scan leaves behind. */
  lemma LateScanResult(s: Table, hs: seq<Handle>)
    requires s.scan == Resting && s.reset && |hs| >= 1
    requires |s.entries| + |hs| <= MAX_EVENT_METHODS
    ensures var n := |s.entries|; var es := LateScan(n, hs);
      && Runs(s, es) && After(s, es).scan == Resting && !After(s, es).reset
      && |After(s, es).entries| == n + |hs| && After(s, es).entries[n].handle == hs[0]
      && (|hs| == 1 ==> |After(s, es).list| == n + 1)
      && (|hs| >= 2 ==> |After(s, es).list| > n + 1 && After(s, es).list[n + 1] == hs[1])
  {
    hide Reads, Registrations, Runs, After, Do;
    var n := |s.entries|;
    ScanToGap(s);
    var a := [BeginScan] + Reads(n + 1);
    var c := Reads(MAX_EVENT_METHODS - n - 1) + [EndScan];
    RegistrationsRun(After(s, a), hs);
    var s3 := After(After(s, a), Registrations(hs));
    assert s3.entries[n + 0].handle == hs[0];
    ScanToEnd(s3);
    RunsAppendTwice(s, a, Registrations(hs), c);
  }

  /** Two registrations during one scan can break the match: from every table that still has room for
      them, if the two handles differ, the scan leaves the later handle in the slot that runs the
      earlier entry's handler. */
  lemma WrongHandler(s: Table, hs: seq<Handle>)
    requires s.scan == Resting && s.reset && |hs| >= 2 && hs[0] != hs[1]
    requires |s.entries| + |hs| <= MAX_EVENT_METHODS
    ensures var es := LateScan(|s.entries|, hs);
      Runs(s, es) && After(s, es).scan == Resting && !Matches(After(s, es))
  {
    LateScanResult(s, hs);
    var t := After(s, LateScan(|s.entries|, hs));
    assert t.list[|s.entries| + 1] != t.entries[|s.entries|].handle;
  }

  /** One registration during a scan keeps every dispatch right but can be forgotten: the flag is
      cleared at the end of a scan that had already passed the new entry. */
  lemma ForgottenEvent(s: Table, h: Handle)
    requires s.scan == Resting && s.reset && |s.entries| < MAX_EVENT_METHODS
    ensures var es := LateScan(|s.entries|, [h]);
      && Runs(s, es) && After(s, es).scan == Resting && !After(s, es).reset
      && |After(s, es).list| < 1 + |After(s, es).entries|
  {
    LateScanResult(s, [h]);
  }
}

module EventDispatch {
  import opened EventProtocol

  /** m_EventMethod, m_theEventMethodCount and m_ResetEventInfo. Handle 0 and handler 0 are NULL. */
  class EventTable {
    const handles: array<nat>
    const handlers: array<nat>
    var count: nat
    var reset: bool

    ghost predicate Valid() reads this, handles, handlers {
      && handles != handlers
      && handles.Length == handlers.Length == MAX_EVENT_METHODS
      && count <= MAX_EVENT_METHODS
      && forall i :: 0 <= i < MAX_EVENT_METHODS ==>
           if i < count then handles[i] != 0 && handlers[i] != 0 else handles[i] == 0 && handlers[i] == 0
    }

    constructor ()
      ensures Valid() && count == 0 && fresh(handles) && fresh(handlers)
    {
      handles := new nat[MAX_EVENT_METHODS](_ => 0);
      handlers := new nat[MAX_EVENT_METHODS](_ => 0);
      count, reset := 0, false;
    }

    /** Registers in the next free slot; refused when the table is full or an argument is NULL.
        Registered entries never change. */
    method SetEventMethod(handler: nat, handle: nat) returns (ok: bool, id: nat)
      requires Valid()
      modifies this, handles, handlers
      ensures Valid()
      ensures ok == (old(count) < MAX_EVENT_METHODS && handler != 0 && handle != 0)
      ensures ok ==> id == old(count) && count == old(count) + 1 && reset
      ensures ok ==> handles[..count] == old(handles[..count]) + [handle]
      ensures ok ==> handlers[..count] == old(handlers[..count]) + [handler]
      ensures !ok ==> count == old(count) && reset == old(reset)
      ensures !ok ==> handles[..] == old(handles[..]) && handlers[..] == old(handlers[..])
    {
      ok, id := false, 0;
      if count < MAX_EVENT_METHODS && handler != 0 && handle != 0 {
        handlers[count] := handler;
        handles[count] := handle;
        id := count;
        count := count + 1;
        ok, reset := true, true;
      }
    }

    /** The loop at the top of an iteration: slot 0 is the work queue's semaphore, then every
        non-NULL handle in table order. */
    method BuildList(workQueue: nat, list: array<nat>) returns (counter: nat)
      requires Valid() && list.Length == MAX_EVENT_METHODS + 1 && list != handles && list != handlers
      modifies this`reset, list
      ensures Valid() && !reset
      ensures counter == 1 + count
      ensures list[..counter] == [workQueue] + handles[..count]
    {
      list[0] := workQueue;
      counter := 1;
      for i := 0 to MAX_EVENT_METHODS
        invariant Valid() && count == old(count)
        invariant counter == 1 + (if i < count then i else count)
        invariant list[0] == workQueue
        invariant forall k :: 1 <= k < counter ==> list[k] == handles[k - 1]
      {
        if handles[i] != 0 {
          list[counter] := handles[i];
          counter := counter + 1;
        }
      }
      reset := false;
    }

    /** What threadRoutine runs for a reported slot: 0 stands for the branch that only logs. */
    method HandlerFor(slot: nat, counter: nat) returns (handler: nat)
      requires Valid() && counter <= MAX_EVENT_METHODS + 1
      ensures 0 < slot < counter && slot <= count ==> handler == handlers[slot - 1] && handler != 0
      ensures !(0 < slot < counter && slot <= count) ==> handler == 0
    {
      handler := 0;
      if slot > 0 && slot < counter && handlers[slot - 1] != 0 {
        handler := handlers[slot - 1];
      }
    }
  }
}
