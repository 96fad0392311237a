/** The category hierarchy: what the tree of categories means by name (CategoryNames), and the lazily
    built objects themselves (Category). */
module CategoryNames {
  import opened Text

  const INFO: int := 600
  const NOTSET: int := 800

  function ParentName(name: string): (p: string)
    requires name != ""
    ensures |p| < |name|
  {
    var dot := FindLast(name, '.', |name| - 1);
    if dot == -1 then "" else name[..dot]
  }

  /** The fields of one category. A is the type of appenders. */
  datatype Node<A> = Node(priority: int, additive: bool, appenders: set<A>)

  type View<A> = map<string, Node<A>>

  /** A newly created category. */
  function NewNode<A>(name: string): Node<A> {
    Node(if name == "" then INFO else NOTSET, true, {})
  }

  /** A category that does not exist yet counts as newly created. */
  function NodeOf<A>(v: View<A>, name: string): Node<A> {
    if name in v then v[name] else NewNode(name)
  }

  /** The root always has a priority. */
  predicate RootSet<A>(v: View<A>) { NodeOf(v, "").priority < NOTSET }

  /** The priority a category logs with: its own, or else its parent's. */
  function Effective<A>(v: View<A>, name: string): int
    decreases |name|
  {
    var p := NodeOf(v, name).priority;
    if p < NOTSET || name == "" then p else Effective(v, ParentName(name))
  }

  /** How often an event logged to a category reaches an appender. */
  function Times<A>(v: View<A>, name: string, a: A): nat
    decreases |name|
  {
    var c := NodeOf(v, name);
    (if a in c.appenders then 1 else 0) + if c.additive && name != "" then Times(v, ParentName(name), a) else 0
  }

  /** The name and its ancestors. */
  function Ancestors(name: string): set<string>
    decreases |name|
  {
    {name} + if name == "" then {} else Ancestors(ParentName(name))
  }

  /** The names that a name extends: itself, the root's, and every part of it in front of a dot. */
  predicate DottedPrefix(a: string, name: string) {
    a == name || a == "" || (|a| < |name| && name[..|a|] == a && name[|a|] == '.')
  }

  /** Above a name, the dotted prefixes are those of its parent. */
  lemma ParentPrefixes(a: string, name: string)
    requires name != ""
    ensures DottedPrefix(a, name) <==> a == name || DottedPrefix(a, ParentName(name))
    ensures DottedPrefix(a, name) && a != name ==> |a| <= |ParentName(name)|
  {
    var dot := FindLast(name, '.', |name| - 1);
    if dot == -1 {
      assert forall k :: 0 <= k < |name| ==> name[k] != '.';
    } else {
      var p := name[..dot];
      if |a| < dot { assert name[..|a|] == p[..|a|] && name[|a|] == p[|a|]; }
    }
  }

  /** The ancestors of a name, found through its parents, are exactly its dotted prefixes. */
  lemma {:induction false} AncestorsExact(name: string, a: string)
    ensures a in Ancestors(name) <==> DottedPrefix(a, name)
    decreases |name|
  {
    if name != "" {
      ParentPrefixes(a, name);
      AncestorsExact(ParentName(name), a);
    }
  }

  /** a is the nearest dotted prefix of name that has a priority. */
  ghost predicate Nearest<A>(v: View<A>, name: string, a: string) {
    && DottedPrefix(a, name) && NodeOf(v, a).priority < NOTSET
    && forall b :: DottedPrefix(b, name) && |b| > |a| ==> NodeOf(v, b).priority >= NOTSET
  }

  /** The effective priority is the priority of the nearest dotted prefix that has one. */
  lemma {:induction false} EffectiveIsNearest<A>(v: View<A>, name: string) returns (a: string)
    requires RootSet(v)
    ensures Nearest(v, name, a) && Effective(v, name) == NodeOf(v, a).priority < NOTSET
    decreases |name|
  {
    if NodeOf(v, name).priority < NOTSET {
      a := name;
    } else {
      a := EffectiveIsNearest(v, ParentName(name));
      ParentPrefixes(a, name);
      forall b | DottedPrefix(b, name) && |b| > |a| ensures NodeOf(v, b).priority >= NOTSET {
        ParentPrefixes(b, name);
      }
    }
  }

  /** An event logged to name passes a: a is a dotted prefix, and everything longer is additive. */
  ghost predicate Passes<A>(v: View<A>, name: string, a: string) {
    DottedPrefix(a, name) && forall b :: DottedPrefix(b, name) && |b| > |a| ==> NodeOf(v, b).additive
  }

  lemma PassesParent<A>(v: View<A>, name: string, a: string)
    requires name != ""
    ensures Passes(v, name, a) <==> a == name || (NodeOf(v, name).additive && Passes(v, ParentName(name), a))
  {
    ParentPrefixes(a, name);
    forall b ensures DottedPrefix(b, name) <==> b == name || DottedPrefix(b, ParentName(name)) {
      ParentPrefixes(b, name);
    }
    assert DottedPrefix(name, name);
  }

  /** An event reaches exactly the appenders of the categories up to and including the first one that
      is not additive. */
  lemma {:induction false} ReachedExactly<A>(v: View<A>, name: string, a: A)
    ensures Times(v, name, a) > 0 <==> exists c :: Passes(v, name, c) && a in NodeOf(v, c).appenders
    decreases |name|
  {
    if name == "" {
      assert Passes(v, name, name);
    } else {
      var p := ParentName(name);
      ReachedExactly(v, p, a);
      forall c ensures Passes(v, name, c) <==> c == name || (NodeOf(v, name).additive && Passes(v, p, c)) {
        PassesParent(v, name, c);
      }
    }
  }

  /** The categories that hand an event logged to name to the appender. */
  ghost function Holders<A>(v: View<A>, name: string, a: A): set<string> {
    set c | c in Ancestors(name) && Passes(v, name, c) && a in NodeOf(v, c).appenders
  }

  lemma HoldersStep<A>(v: View<A>, name: string, a: A)
    requires name != ""
    ensures var above := if NodeOf(v, name).additive then Holders(v, ParentName(name), a) else {};
      name !in above && Holders(v, name, a) == above + if a in NodeOf(v, name).appenders then {name} else {}
  {
    hide Passes, ParentName, DottedPrefix;
    var p := ParentName(name);
    AncestorsExact(p, name);
    LongerThanParent(name);
    forall c ensures Passes(v, name, c) <==> c == name || (NodeOf(v, name).additive && Passes(v, p, c)) {
      PassesParent(v, name, c);
    }
    forall c | Passes(v, p, c) ensures c in Ancestors(p) {
      PassesPrefix(v, p, c);
      AncestorsExact(p, c);
    }
  }

  lemma PassesPrefix<A>(v: View<A>, name: string, a: string)
    requires Passes(v, name, a)
    ensures DottedPrefix(a, name)
  {
  }

  lemma LongerThanParent(name: string)
    requires name != ""
    ensures !DottedPrefix(name, ParentName(name))
  {
  }

  /** An event reaches an appender once for each of those categories that has it. */
  lemma {:induction false} TimesExactly<A>(v: View<A>, name: string, a: A)
    ensures Times(v, name, a) == |Holders(v, name, a)|
    ensures forall c :: c in Holders(v, name, a) <==> Passes(v, name, c) && a in NodeOf(v, c).appenders
    decreases |name|
  {
    forall c ensures c in Holders(v, name, a) <==> Passes(v, name, c) && a in NodeOf(v, c).appenders {
      AncestorsExact(name, c);
    }
    hide Passes, Ancestors, ParentName, DottedPrefix;
    if name == "" {
      OnlyRoot(v, a);
    } else {
      HoldersStep(v, name, a);
      hide Holders;
      TimesExactly(v, ParentName(name), a);
    }
  }

  lemma OnlyRoot<A>(v: View<A>, a: A)
    ensures Holders(v, "", a) == if a in NodeOf(v, "").appenders then {""} else {}
  {
    assert Passes(v, "", "");
  }

  /** A category that nobody has configured logs with priority INFO, which is 600, whatever its name, and its
      events reach no appender. */
  lemma {:induction false} Unconfigured<A>(name: string, a: A)
    ensures Effective<A>(map[], name) == 600 && Times(map[], name, a) == 0
    decreases |name|
  {
    if name != "" { Unconfigured(ParentName(name), a); }
  }
}

/** Whole runs of getInstance and setPriority calls, by name. */
module CategoryRuns {
  import opened CategoryNames

  /** setPriority is called on what getInstance gives. */
  datatype Call = GetInstance(name: string) | SetPriority(name: string, priority: int)

  /** The view after getInstance: the name and its ancestors exist. */
  function Created<A>(v: View<A>, name: string): View<A> {
    map n | n in v.Keys + Ancestors(name) :: NodeOf(v, n)
  }

  predicate Accepted(name: string, p: int) { p < NOTSET || name != "" }

  function Do<A>(v: View<A>, c: Call): View<A> {
    var w := Created(v, c.name);
    match c
    case GetInstance(_) => w
    case SetPriority(name, p) => if Accepted(name, p) then w[name := w[name].(priority := p)] else w
  }

  function After<A>(v: View<A>, calls: seq<Call>): View<A>
    decreases |calls|
  {
    if calls == [] then v else After(Do(v, calls[0]), calls[1..])
  }

  /** The priority a name was last set to. */
  function LastSet(calls: seq<Call>, name: string, default: int): int
    decreases |calls|
  {
    if calls == [] then default
    else
      var c := calls[0];
      LastSet(calls[1..], name,
        if c.SetPriority? && c.name == name && Accepted(name, c.priority) then c.priority else default)
  }

  /** Every existing name's parent exists. */
  ghost predicate Closed<A>(v: View<A>) {
    forall n :: n in v && n != "" ==> ParentName(n) in v
  }

  lemma CreatedMeans<A>(v: View<A>, name: string, n: string)
    ensures NodeOf(Created(v, name), n) == NodeOf(v, n)
  {
  }

  lemma CreatedClosed<A>(v: View<A>, name: string)
    requires Closed(v)
    ensures Closed(Created(v, name))
  {
    forall n | n in Created(v, name) && n != "" ensures ParentName(n) in Created(v, name) {
      AncestorsExact(name, n);
      AncestorsExact(name, ParentName(n));
      ParentPrefixes(ParentName(n), n);
      if DottedPrefix(n, name) { PrefixOfPrefix(ParentName(n), n, name); }
    }
  }

  lemma PrefixOfPrefix(a: string, b: string, c: string)
    requires DottedPrefix(a, b) && DottedPrefix(b, c)
    ensures DottedPrefix(a, c)
  {
    if |a| < |b| < |c| { assert c[..|a|] == b[..|a|] && c[|a|] == b[|a|]; }
  }

  /** After any run the tree is closed under parents, the root has a priority, and every name has the
      priority it was last set to: creating categories, in whatever order, changes nothing. */
  lemma {:induction false} RunMeans<A>(v: View<A>, calls: seq<Call>, name: string)
    requires Closed(v) && RootSet(v)
    ensures var w := After(v, calls);
      && Closed(w) && RootSet(w)
      && NodeOf(w, name).priority == LastSet(calls, name, NodeOf(v, name).priority)
    decreases |calls|
  {
    if calls != [] {
      var c := calls[0];
      CreatedClosed(v, c.name);
      CreatedMeans(v, c.name, name);
      CreatedMeans(v, c.name, "");
      AncestorsExact(c.name, c.name);
      RunMeans(Do(v, c), calls[1..], name);
    }
  }

  /** The effective priority after any run is the one its nearest dotted prefix with a priority was last
      set to. */
  lemma RunEffective<A>(v: View<A>, calls: seq<Call>, name: string) returns (a: string)
    requires Closed(v) && RootSet(v)
    ensures DottedPrefix(a, name)
    ensures Effective(After(v, calls), name) == LastSet(calls, a, NodeOf(v, a).priority) < NOTSET
    ensures forall b :: DottedPrefix(b, name) && |b| > |a| ==> LastSet(calls, b, NodeOf(v, b).priority) >= NOTSET
  {
    RunMeans(v, calls, name);
    a := EffectiveIsNearest(After(v, calls), name);
    RunMeans(v, calls, a);
    forall b | DottedPrefix(b, name) && |b| > |a| ensures LastSet(calls, b, NodeOf(v, b).priority) >= NOTSET {
      RunMeans(v, calls, b);
    }
  }

  lemma CreatedAlready<A>(v: View<A>, name: string)
    requires Ancestors(name) <= v.Keys
    ensures Created(v, name) == v
  {
  }

  /** A new category is created after its parent. */
  lemma CreatedLast<A>(v: View<A>, name: string)
    requires name !in v
    ensures var w := if name == "" then v else Created(v, ParentName(name));
      name !in w && Created(v, name) == w[name := NewNode(name)]
  {
    if name != "" { AncestorsExact(ParentName(name), name); }
  }
}

module Category {
  import opened Text
  import Runs = CategoryRuns
  import opened CategoryNames

  /** An appender, with the events it was given. */
  class Appender {
    var received: seq<string>

    constructor ()
      ensures received == []
    {
      received := [];
    }

    method DoAppend(event: string)
      modifies this
      ensures received == old(received) + [event]
    {
      received := received + [event];
    }
  }

  class Category {
    const name: string
    const parent: Category?
    var priority: int
    var additive: bool
    var appenders: set<Appender>

    constructor (name: string, parent: Category?, priority: int)
      ensures this.name == name && this.parent == parent
      ensures this.priority == priority && additive && appenders == {}
    {
      this.name, this.parent, this.priority, additive, appenders := name, parent, priority, true, {};
    }

    ghost function View(): Node<Appender>
      reads this
    {
      Node(priority, additive, appenders)
    }

    /** Refused, by an exception, for the root and a priority from NOTSET on. */
    method SetPriority(p: int, ghost h: HierarchyMaintainer) returns (ok: bool)
      requires h.Valid() && h.Has(this)
      modifies this`priority
      ensures h.Valid() && ok == (p < NOTSET || name != "")
      ensures h.View() == if ok then old(h.View())[name := old(View()).(priority := p)] else old(h.View())
    {
      hide ParentName, FindLast;
      ok := p < NOTSET || parent != null;
      if ok { priority := p; }
    }

    method SetAdditivity(additivity: bool, ghost h: HierarchyMaintainer)
      requires h.Valid() && h.Has(this)
      modifies this`additive
      ensures h.Valid() && h.View() == old(h.View())[name := old(View()).(additive := additivity)]
    {
      hide ParentName, FindLast;
      additive := additivity;
    }

    method AddAppender(appender: Appender, ghost h: HierarchyMaintainer)
      requires h.Valid() && h.Has(this)
      modifies this`appenders
      ensures h.Valid()
      ensures h.View() == old(h.View())[name := old(View()).(appenders := old(appenders) + {appender})]
    {
      hide ParentName, FindLast;
      if appender !in appenders {
        appenders := appenders + {appender};
      } else {
        assert appenders + {appender} == appenders;
      }
    }

    /** Never runs past the root. */
    method GetChainedPriority(ghost h: HierarchyMaintainer) returns (p: int)
      requires h.Valid() && h.Has(this)
      ensures p == Effective(h.View(), name) < NOTSET
    {
      hide ParentName, FindLast;
      var c: Category := this;
      while c.priority >= NOTSET
        invariant h.Has(c) && Effective(h.View(), c.name) == Effective(h.View(), name)
        decreases |c.name|
      {
        assert NodeOf(h.View(), c.name) == c.View();
        c := c.parent;
      }
      assert NodeOf(h.View(), c.name) == c.View();
      p := c.priority;
    }

    /** The loop over the appenders of this category, in any order. */
    method CallOwnAppenders(event: string)
      modifies appenders
      ensures forall a :: a in appenders ==> a.received == old(a.received) + [event]
    {
      var todo := appenders;
      while todo != {}
        invariant todo <= appenders
        invariant forall a :: a in appenders ==>
          a.received == if a in todo then old(a.received) else old(a.received) + [event]
        decreases |todo|
      {
        var a :| a in todo;
        a.DoAppend(event);
        todo := todo - {a};
      }
    }

    /** Gives the event to the appenders of this category, and then of its parents while they are
        additive. */
    method CallAppenders(event: string, ghost h: HierarchyMaintainer)
      requires h.Valid() && h.Has(this)
      modifies h.AllAppenders()
      ensures forall a :: a in h.AllAppenders() ==>
        a.received == old(a.received) + Copies(event, Times(h.View(), name, a))
      decreases |name|
    {
      hide ParentName, FindLast, Times, Copies;
      ghost var v, all := h.View(), h.AllAppenders();
      assert NodeOf(v, name) == View() && appenders <= all;
      CallOwnAppenders(event);
      if additive && parent != null {
        label Own:
        parent.CallAppenders(event, h);
        forall a | a in all ensures a.received == old(a.received) + Copies(event, Times(v, name, a)) {
          PassedOn(v, name, a, event, old(a.received), old@Own(a.received), a.received);
        }
      } else {
        forall a | a in all ensures a.received == old(a.received) + Copies(event, Times(v, name, a)) {
          KeptHere(v, name, a, event, old(a.received), a.received);
        }
      }
    }
  }

  function Copies(event: string, n: nat): seq<string> { seq(n, _ => event) }

  lemma PassedOn<A>(v: View<A>, name: string, a: A, event: string, was: seq<string>, own: seq<string>, now: seq<string>)
    requires name != "" && NodeOf(v, name).additive
    requires own == if a in NodeOf(v, name).appenders then was + [event] else was
    requires now == own + Copies(event, Times(v, ParentName(name), a))
    ensures now == was + Copies(event, Times(v, name, a))
  {
  }

  lemma KeptHere<A>(v: View<A>, name: string, a: A, event: string, was: seq<string>, now: seq<string>)
    requires name == "" || !NodeOf(v, name).additive
    requires now == if a in NodeOf(v, name).appenders then was + [event] else was
    ensures now == was + Copies(event, Times(v, name, a))
  {
  }

  class HierarchyMaintainer {
    var categoryMap: map<string, Category>

    constructor ()
      ensures Valid() && categoryMap == map[]
    {
      categoryMap := map[];
    }

    /** The map is closed under parents, and the root has a priority. */
    ghost predicate Valid()
      reads this, categoryMap.Values
    {
      forall n :: n in categoryMap ==>
        var c := categoryMap[n];
        c.name == n &&
        if n == "" then c.parent == null && c.priority < NOTSET
        else ParentName(n) in categoryMap && c.parent == categoryMap[ParentName(n)]
    }

    ghost predicate Has(c: Category)
      reads this
    {
      c.name in categoryMap && categoryMap[c.name] == c
    }

    ghost function View(): View<Appender>
      reads this, categoryMap.Values
    {
      map n | n in categoryMap :: categoryMap[n].View()
    }

    ghost function AllAppenders(): set<Appender>
      reads this, categoryMap.Values
    {
      set n, a | n in categoryMap && a in categoryMap[n].appenders :: a
    }

    /** Finds a category, or creates it under its parent, which is found or created first. Existing
        categories stay as they are, exactly the ancestors are created, and what any name means,
        existing or not, does not change. */
    method GetInstance(name: string) returns (c: Category)
      requires Valid()
      modifies this
      ensures Valid() && Has(c) && c.name == name
      ensures View() == Runs.Created(old(View()), name)
      ensures forall n :: n in old(categoryMap) ==> n in categoryMap && categoryMap[n] == old(categoryMap[n])
      ensures forall n :: n in categoryMap && n !in old(categoryMap) ==> fresh(categoryMap[n])
      decreases |name|
    {
      hide Runs.Created, NodeOf, NewNode;
      if name in categoryMap {
        c := categoryMap[name];
        AncestorsThere(name);
        Runs.CreatedAlready(View(), name);
        return;
      }
      Runs.CreatedLast(View(), name);
      if name == "" {
        c := Create(name, null, INFO);
        return;
      }
      var dotIndex := FindLast(name, '.', |name| - 1);
      var parentName := if dotIndex == -1 then "" else name[..dotIndex];
      var parent := GetInstance(parentName);
      c := Create(name, parent, NOTSET);
    }

    /** The allocation and the store of GetInstance. */
    method Create(name: string, parent: Category?, priority: int) returns (c: Category)
      requires Valid() && name !in View()
      requires if name == "" then parent == null && priority == INFO
        else priority == NOTSET && parent != null && parent.name == ParentName(name) && Has(parent)
      modifies this
      ensures Valid() && c.name == name && fresh(c) && categoryMap == old(categoryMap)[name := c]
      ensures View() == old(View())[name := NewNode(name)]
    {
      hide ParentName, FindLast;
      c := new Category(name, parent, priority);
      categoryMap := categoryMap[name := c];
    }

    lemma {:induction false} AncestorsThere(name: string)
      requires Valid() && name in categoryMap
      ensures Ancestors(name) <= categoryMap.Keys
      decreases |name|
    {
      if name != "" { AncestorsThere(ParentName(name)); }
    }
  }
}
