/** BufferingAppender: a queue of events that a triggering event passes on, as one message, to another
    appender. */
module SlidingWindow {
  /** The last n elements, or all when there are fewer. */
  function Last<T>(xs: seq<T>, n: nat): seq<T> {
    if |xs| <= n then xs else xs[|xs| - n..]
  }

  function Reversed<T>(xs: seq<T>): seq<T> { seq(|xs|, i requires 0 <= i < |xs| => xs[|xs| - 1 - i]) }

  function Texts<T>(xs: seq<T>, layout: T -> string): string {
    if xs == [] then "" else Texts(xs[..|xs| - 1], layout) + layout(xs[|xs| - 1])
  }

  lemma OneText<T>(x: T, layout: T -> string)
    ensures Texts([x], layout) == layout(x)
  {
    assert [x][..0] == [];
    assert "" + layout(x) == layout(x);
  }

  lemma TextsSnoc<T>(a: seq<T>, x: T, layout: T -> string)
    ensures Texts(a + [x], layout) == Texts(a, layout) + layout(x)
  {
    assert (a + [x])[..|a|] == a;
  }

  /** A message holds the layout of each of its events, in their order. */
  lemma {:induction false} TextsInOrder<T>(a: seq<T>, b: seq<T>, layout: T -> string)
    ensures Texts(a + b, layout) == Texts(a, layout) + Texts(b, layout)
    ensures forall x :: Texts([x], layout) == layout(x)
    decreases |b|
  {
    hide Texts;
    forall x ensures Texts([x], layout) == layout(x) { OneText(x, layout); }
    if b == [] {
      TextsNone(layout);
      assert a + b == a && Texts(a, layout) + "" == Texts(a, layout);
    } else {
      var c, x := b[..|b| - 1], b[|b| - 1];
      TextsInOrder(a, c, layout);
      TextsSnoc(a + c, x, layout);
      TextsSnoc(c, x, layout);
      assert a + b == a + c + [x] && b == c + [x];
      assert Texts(a, layout) + (Texts(c, layout) + layout(x)) == Texts(a, layout) + Texts(c, layout) + layout(x);
    }
  }

  lemma TextsNone<T>(layout: T -> string)
    ensures Texts([], layout) == ""
  {
  }

  /** The last n are n, or all when there are fewer, and the others come before them. */
  lemma LastIs<T>(xs: seq<T>, n: nat)
    ensures |Last(xs, n)| == if |xs| < n then |xs| else n
    ensures xs == xs[..|xs| - |Last(xs, n)|] + Last(xs, n)
  {
  }

  /** What a lossy buffer of n events sends for a run of events, after the events in since. */
  function Sent<T>(since: seq<T>, events: seq<T>, n: nat, trigger: T -> bool, layout: T -> string): seq<string>
    decreases |events|
  {
    if events == [] then []
    else
      var all := since + [events[0]];
      if trigger(events[0]) then [Texts(Last(all, n), layout)] + Sent([], events[1..], n, trigger, layout)
      else Sent(all, events[1..], n, trigger, layout)
  }

  /** Up to each trigger t, exactly the last n events since the trigger before it, t included, are sent,
      oldest first and as one message; the others are lost. */
  lemma {:induction false} SentUpToTrigger<T>(since: seq<T>, quiet: seq<T>, t: T, rest: seq<T>, n: nat,
                                              trigger: T -> bool, layout: T -> string)
    requires (forall i :: 0 <= i < |quiet| ==> !trigger(quiet[i])) && trigger(t)
    ensures Sent(since, quiet + [t] + rest, n, trigger, layout) ==
      [Texts(Last(since + quiet + [t], n), layout)] + Sent([], rest, n, trigger, layout)
    decreases |quiet|
  {
    var events := quiet + [t] + rest;
    if quiet == [] {
      assert events[1..] == rest && since + quiet + [t] == since + [t];
    } else {
      assert events[1..] == quiet[1..] + [t] + rest;
      assert since + [quiet[0]] + quiet[1..] + [t] == since + quiet + [t];
      SentUpToTrigger(since + [quiet[0]], quiet[1..], t, rest, n, trigger, layout);
    }
  }

  /** Nothing is sent without a trigger. */
  lemma {:induction false} SilentWithoutTrigger<T>(since: seq<T>, quiet: seq<T>, n: nat,
                                                   trigger: T -> bool, layout: T -> string)
    requires forall i :: 0 <= i < |quiet| ==> !trigger(quiet[i])
    ensures Sent(since, quiet, n, trigger, layout) == []
    decreases |quiet|
  {
    if quiet != [] { SilentWithoutTrigger(since + [quiet[0]], quiet[1..], n, trigger, layout); }
  }

  lemma SentStep<T>(since: seq<T>, x: T, rest: seq<T>, n: nat, trigger: T -> bool, layout: T -> string)
    ensures Sent(since, [x] + rest, n, trigger, layout) ==
      if trigger(x) then [Texts(Last(since + [x], n), layout)] + Sent([], rest, n, trigger, layout)
      else Sent(since + [x], rest, n, trigger, layout)
  {
    assert ([x] + rest)[1..] == rest;
  }

  lemma AllKept<T>(since: seq<T>, x: T)
    ensures |Reversed(since)| == |since| && Reversed(since + [x]) == [x] + Reversed(since)
    ensures Reversed<T>([]) == []
  {
  }

  lemma WindowSlides<T>(since: seq<T>, n: nat, x: T)
    requires n >= 1
    ensures var q, r := Reversed(Last(since, n)), Reversed(Last(since + [x], n));
      |q| <= n && r == [x] + if |q| == n then q[..n - 1] else q
    ensures Last<T>([], n) == []
  {
  }
}

module BufferingAppender {
  import opened SlidingWindow

  class BufferingAppender<Event> {
    const maxSize: nat
    const eval: Event -> bool
    const layout: Event -> string
    var lossy: bool
    /** The newest event is at the front. */
    var queue: seq<Event>
    /** The messages given to the sink. */
    var sink: seq<string>
    /** The events since the last trigger, oldest first. */
    ghost var since: seq<Event>

    /** What the queue stands for: the last maxSize events in lossy mode, and all of them otherwise. */
    ghost function Kept(): seq<Event>
      reads this
    {
      if lossy then Last(since, maxSize) else since
    }

    ghost predicate Valid()
      reads this
    {
      maxSize >= 1 && queue == Reversed(Kept())
    }

    constructor (maxSize: nat, eval: Event -> bool, layout: Event -> string)
      ensures Valid() && since == [] && sink == [] && !lossy
      ensures this.maxSize == (if maxSize >= 1 then maxSize else 1) && this.eval == eval && this.layout == layout
    {
      this.maxSize := if maxSize >= 1 then maxSize else 1;
      this.eval, this.layout, lossy, queue, sink, since := eval, layout, false, [], [], [];
    }

    /** The bound of the queue holds exactly in lossy mode, or while no more than maxSize events have come
        since the last trigger. */
    lemma BoundExactly()
      requires Valid()
      ensures |queue| <= maxSize <==> lossy || |since| <= maxSize
    {
    }

    /** A queue that has grown beyond maxSize in the other mode is not cut down again: it is then no
        window, and stays none. */
    method SetLossy(lossy: bool)
      requires Valid()
      modifies this`lossy, this`since
      ensures this.lossy == lossy && since == old(Kept())
      ensures Valid() <==> !lossy || |old(queue)| <= maxSize
    {
      since := Kept();
      this.lossy := lossy;
    }

    /** In lossy mode the oldest event makes room. Otherwise a queue of exactly maxSize events is passed
        on but kept, so that it goes on growing. A trigger passes on all that is kept, oldest first, and
        clears the queue. */
    method Append(event: Event)
      requires Valid()
      modifies this`queue, this`sink, this`since
      ensures Valid()
      ensures var all := old(since) + [event];
        var early := if !lossy && |old(since)| == maxSize then [Texts(old(since), layout)] else [];
        if eval(event) then
          since == [] && sink == old(sink) + early + [Texts(if lossy then Last(all, maxSize) else all, layout)]
        else since == all && sink == old(sink) + early
    {
      hide Reversed, Last, Texts;
      AllKept(since, event);
      WindowSlides(since, maxSize, event);
      if |queue| == maxSize {
        if lossy {
          queue := queue[..|queue| - 1];
        } else {
          Dump(since);
        }
      }
      queue := [event] + queue;
      since := since + [event];
      if eval(event) {
        Dump(Kept());
        queue := [];
        since := [];
      }
    }

    /** One message, with the texts of the events from the back to the front. */
    method Dump(ghost kept: seq<Event>)
      requires queue == Reversed(kept)
      modifies this`sink
      ensures sink == old(sink) + [Texts(kept, layout)]
    {
      var s := "";
      for i := 0 to |queue|
        invariant s == Texts(kept[..i], layout)
      {
        assert kept[..i + 1][..i] == kept[..i];
        s := s + layout(queue[|queue| - 1 - i]);
      }
      assert kept[..|queue|] == kept;
      sink := sink + [s];
    }
  }

  /** Two events that trigger nothing outgrow a queue for one event; the first of them is sent, and kept. */
  method OutgrownExample() returns (b: BufferingAppender<string>)
    ensures b.Valid() && b.maxSize == 1 && b.queue == ["b", "a"] && b.sink == ["a"]
  {
    b := new BufferingAppender(1, _ => false, e => e);
    b.Append("a");
    b.Append("b");
    assert b.since == ["a", "b"];
    assert Texts(["a"], b.layout) == "a" by { OneText("a", b.layout); }
  }

  /** A whole run in lossy mode sends exactly what the sliding window says. */
  method AppendAll<Event>(a: BufferingAppender<Event>, events: seq<Event>)
    requires a.Valid() && a.lossy
    modifies a`queue, a`sink, a`since
    ensures a.Valid() && a.sink == old(a.sink) + Sent(old(a.since), events, a.maxSize, a.eval, a.layout)
  {
    hide Sent, Last, Texts, Reversed;
    ghost var total := a.sink + Sent(a.since, events, a.maxSize, a.eval, a.layout);
    for i := 0 to |events|
      invariant a.Valid()
      invariant a.sink + Sent(a.since, events[i..], a.maxSize, a.eval, a.layout) == total
    {
      ghost var since, sink := a.since, a.sink;
      assert events[i..] == [events[i]] + events[i + 1..];
      a.Append(events[i]);
      SentAfter(sink, since, events[i], events[i + 1..], a.maxSize, a.eval, a.layout);
      assert sink + [] == sink;
    }
    NothingLeft(a.since, a.maxSize, a.eval, a.layout);
  }

  /** What has been sent and what is still to be sent, around one event. */
  lemma SentAfter<T>(sink: seq<string>, since: seq<T>, x: T, rest: seq<T>, n: nat,
                     trigger: T -> bool, layout: T -> string)
    ensures sink + Sent(since, [x] + rest, n, trigger, layout) ==
      if trigger(x) then sink + [Texts(Last(since + [x], n), layout)] + Sent([], rest, n, trigger, layout)
      else sink + Sent(since + [x], rest, n, trigger, layout)
  {
    hide Sent, Last, Texts;
    SentStep(since, x, rest, n, trigger, layout);
  }

  lemma NothingLeft<T>(since: seq<T>, n: nat, trigger: T -> bool, layout: T -> string)
    ensures Sent(since, [], n, trigger, layout) == []
  {
  }
}
