/** What the tree walk and the `preparing` cascade do to native listeners,
    as functions. The state is every registered component's log of the
    listeners it attached (by token) together with the table of listeners
    attached to document nodes. A walk in the context of component `w`
    appends each listener it attaches to `w`'s log and adds it to the table;
    a component built on the way first fires `preparing`, which empties the
    log of every component the cascade reaches and takes their listeners
    out of the table. The runtime's methods are proved to leave exactly the
    state these functions give. */
module Listeners {
  import opened Values
  import opened Dom
  import opened Templates
  import opened Walks

  /** The listeners of a sequence, as a set. */
  function ListenerSet(ls: seq<Listener>): (r: set<Listener>)
    ensures forall l :: l in r <==> l in ls
  {
    if ls == [] then {} else ListenerSet(ls[..|ls| - 1]) + {ls[|ls| - 1]}
  }

  /** The native listeners of the runtime: each registered component's log,
      by token, and the table of listeners attached to nodes. */
  datatype Natives = Natives(logs: map<string, seq<Listener>>, table: set<Listener>)

  /** Listeners `ls` attached while component `w` walks: each one is added to
      the table, and `w`'s `eventAttached` handler appends it to `w`'s log. */
  function AttachL(st: Natives, w: string, ls: seq<Listener>): Natives {
    Natives(if w in st.logs then st.logs[w := st.logs[w] + ls] else st.logs, st.table + ListenerSet(ls))
  }

  /** The first half of the `preparing` handler of component `u`: its
      logged listeners are removed from the table and its log is emptied. */
  function DetachL(st: Natives, u: string): Natives {
    if u in st.logs then Natives(st.logs[u := []], st.table - ListenerSet(st.logs[u])) else st
  }

  // ---------------------------------------------------------------------
  // The `preparing` cascade

  /** `fire('preparing')` on component `u` over document `body`: detach,
      then, while `fuel` lasts, fire it on every registered component whose
      marked nodes lie below one of `u`'s marked nodes. */
  function PrepareL(body: seq<Node>, u: string, fuel: nat, st: Natives): Natives
    decreases fuel, 1, 0
  {
    var detached := DetachL(st, u);
    if fuel > 0 then PrepareAllL(body, DescendantsF(body, u), fuel - 1, detached) else detached
  }

  /** `preparing` fired on the component of every token of `ds`, in order. */
  function PrepareAllL(body: seq<Node>, ds: seq<string>, fuel: nat, st: Natives): Natives
    decreases fuel, 2, |ds|
  {
    if ds == [] then st
    else PrepareTokenL(body, ds[|ds| - 1], fuel, PrepareAllL(body, ds[..|ds| - 1], fuel, st))
  }

  /** `preparing` fired on the component registered under `u`, if any. */
  function PrepareTokenL(body: seq<Node>, u: string, fuel: nat, st: Natives): Natives
    decreases fuel, 1, 1
  {
    if u in st.logs then PrepareL(body, u, fuel, st) else st
  }

  /** The tokens the cascade fired on `u` reaches: `u` itself and, while
      `fuel` lasts, what is reached from each registered token below `u`'s
      marked nodes (`keys` are the registered tokens). */
  function Reach(body: seq<Node>, keys: set<string>, u: string, fuel: nat): set<string>
    decreases fuel, 1, 0
  {
    {u} + (if fuel > 0 then ReachAll(body, keys, DescendantsF(body, u), fuel - 1) else {})
  }

  function ReachAll(body: seq<Node>, keys: set<string>, ds: seq<string>, fuel: nat): set<string>
    decreases fuel, 2, |ds|
  {
    if ds == [] then {}
    else ReachAll(body, keys, ds[..|ds| - 1], fuel) + ReachToken(body, keys, ds[|ds| - 1], fuel)
  }

  function ReachToken(body: seq<Node>, keys: set<string>, u: string, fuel: nat): set<string>
    decreases fuel, 1, 1
  {
    if u in keys then Reach(body, keys, u, fuel) else {}
  }

  /** The listeners logged, in `logs`, by a component whose token is in `r`. */
  function Removed(logs: map<string, seq<Listener>>, r: set<string>): set<Listener> {
    set t, l | t in logs && t in r && l in logs[t] :: l
  }

  /** From `st` to `st'` exactly the components of `r` were swept: the
      registered ones have empty logs, every other log is as it was, and
      the table lost exactly the listeners the swept components had logged. */
  predicate Swept(st: Natives, st': Natives, r: set<string>) {
    st'.logs.Keys == st.logs.Keys &&
    (forall t :: t in st.logs && t !in r ==> st'.logs[t] == st.logs[t]) &&
    (forall t :: t in st.logs && t in r ==> st'.logs[t] == []) &&
    st'.table == st.table - Removed(st.logs, r)
  }

  lemma {:induction false} SweptRefl(st: Natives)
    ensures Swept(st, st, {})
  {
    assert Removed(st.logs, {}) == {};
  }

  /** Detaching a registered component sweeps exactly that component. */
  lemma {:induction false} SweptDetach(st: Natives, u: string)
    requires u in st.logs
    ensures Swept(st, DetachL(st, u), {u})
  {
    var st' := DetachL(st, u);
    assert Removed(st.logs, {u}) == ListenerSet(st.logs[u]) by {
      forall l | l in ListenerSet(st.logs[u])
        ensures l in Removed(st.logs, {u})
      {
        assert u in st.logs && u in {u} && l in st.logs[u];
      }
    }
  }

  /** Two sweeps in a row sweep the union. */
  lemma {:induction false} SweptTrans(st0: Natives, st1: Natives, st2: Natives, r1: set<string>, r2: set<string>)
    requires Swept(st0, st1, r1) && Swept(st1, st2, r2)
    ensures Swept(st0, st2, r1 + r2)
  {
    forall l | l in Removed(st0.logs, r1 + r2) && l !in Removed(st0.logs, r1)
      ensures l in Removed(st1.logs, r2)
    {
      var t :| t in st0.logs && t in r1 + r2 && l in st0.logs[t];
      assert t !in r1 && t in r2;
      assert st1.logs[t] == st0.logs[t];
    }
    forall l | l in Removed(st1.logs, r2)
      ensures l in Removed(st0.logs, r1 + r2)
    {
      var t :| t in st1.logs && t in r2 && l in st1.logs[t];
      assert t !in r1;
      assert st1.logs[t] == st0.logs[t];
    }
  }

  /** A sweep of `r` is a sweep of any larger set that adds only
      unregistered tokens. */
  lemma {:induction false} SweptWiden(st: Natives, st': Natives, r: set<string>, r': set<string>)
    requires Swept(st, st', r) && r <= r'
    requires forall t :: t in r' && t !in r ==> t !in st.logs
    ensures Swept(st, st', r')
  {
    assert Removed(st.logs, r') == Removed(st.logs, r);
  }

  /** The cascade fired on registered component `u` sweeps exactly the
      components it reaches: each of their logs ends empty, no other log
      changes, and the table loses exactly what they had logged. */
  lemma {:induction false} PrepareSweeps(body: seq<Node>, u: string, fuel: nat, st: Natives)
    requires u in st.logs
    ensures Swept(st, PrepareL(body, u, fuel, st), Reach(body, st.logs.Keys, u, fuel))
    decreases fuel, 1, 0
  {
    var detached := DetachL(st, u);
    SweptDetach(st, u);
    if fuel > 0 {
      var ds := DescendantsF(body, u);
      PrepareAllSweeps(body, ds, fuel - 1, detached);
      SweptTrans(st, detached, PrepareAllL(body, ds, fuel - 1, detached), {u},
        ReachAll(body, st.logs.Keys, ds, fuel - 1));
    }
  }

  lemma {:induction false} PrepareAllSweeps(body: seq<Node>, ds: seq<string>, fuel: nat, st: Natives)
    ensures Swept(st, PrepareAllL(body, ds, fuel, st), ReachAll(body, st.logs.Keys, ds, fuel))
    decreases fuel, 2, |ds|
  {
    if ds == [] {
      SweptRefl(st);
    } else {
      var pre := ds[..|ds| - 1];
      var mid := PrepareAllL(body, pre, fuel, st);
      PrepareAllSweeps(body, pre, fuel, st);
      PrepareTokenSweeps(body, ds[|ds| - 1], fuel, mid);
      SweptTrans(st, mid, PrepareTokenL(body, ds[|ds| - 1], fuel, mid),
        ReachAll(body, st.logs.Keys, pre, fuel), ReachToken(body, st.logs.Keys, ds[|ds| - 1], fuel));
    }
  }

  lemma {:induction false} PrepareTokenSweeps(body: seq<Node>, u: string, fuel: nat, st: Natives)
    ensures Swept(st, PrepareTokenL(body, u, fuel, st), ReachToken(body, st.logs.Keys, u, fuel))
    decreases fuel, 1, 1
  {
    if u in st.logs {
      PrepareSweeps(body, u, fuel, st);
    } else {
      SweptRefl(st);
    }
  }

  // ---------------------------------------------------------------------
  // The walk

  /** `traverseChildren` of a forest by component `w` with props `p` (see
      `Walks.WalkF`): the children are walked from the last to the first. */
  function WalkL(c: Ctx, body: seq<Node>, w: string, p: Props, nodes: seq<Node>, inElement: bool, fuel: nat,
                 st: Natives): Natives
    decreases fuel, 4, SizeF(nodes), 2
  {
    if nodes == [] then st
    else
      assert SizeF(nodes) == SizeN(nodes[0]) + SizeF(nodes[1..]);
      ChildL(c, body, w, p, nodes[0], inElement, fuel, WalkL(c, body, w, p, nodes[1..], inElement, fuel, st))
  }

  /** One node: an element has its handler attributes attached in `w`'s
      context and then its children walked; a text the walk visits has its
      resolution's assets resolved; anything else changes nothing. */
  function ChildL(c: Ctx, body: seq<Node>, w: string, p: Props, n: Node, inElement: bool, fuel: nat,
                  st: Natives): Natives
    decreases fuel, 4, SizeN(n), 1
  {
    match n
    case Element(id, tag, attrs, children) =>
      WalkL(c, body, w, p, children, tag != "SCRIPT", fuel, AttachL(st, w, AttachedBy(attrs, p, c.resolve, id)))
    case Text(t) =>
      if inElement && !StaticText(c.resolve(p, t), t) then PartsL(c, body, w, p, c.resolve(p, t), fuel, st) else st
    case Comment(_) => st
  }

  /** `replaceNode`'s loop: the assets resolved in order. */
  function PartsL(c: Ctx, body: seq<Node>, w: string, p: Props, assets: seq<Asset>, fuel: nat, st: Natives): Natives
    decreases fuel, 1, 0, |assets|
  {
    if assets == [] then st
    else NodeL(c, body, w, p, assets[|assets| - 1], fuel, PartsL(c, body, w, p, assets[..|assets| - 1], fuel, st))
  }

  /** `resolveNode` of one asset: a function's nodes and an element's
      children are walked in `w`'s context; a registered component is
      built and its nodes are then walked in `w`'s context. */
  function NodeL(c: Ctx, body: seq<Node>, w: string, p: Props, a: Asset, fuel: nat, st: Natives): Natives
    decreases fuel, 0, 0, 0
  {
    match a
    case AStr(_) => st
    case AFn(f) =>
      if fuel > 0 then WalkL(c, body, w, p, c.call(f), false, fuel - 1, st) else st
    case ABlock(u) =>
      if u in c.comps && fuel > 0 then
        WalkL(c, body, w, p, BuildF(c, u, fuel - 1), false, fuel - 1, BuildL(c, body, u, fuel - 1, st))
      else st
    case ANode(n) =>
      if n.Element? && fuel > 0 then WalkL(c, body, w, p, n.children, n.tag != "SCRIPT", fuel - 1, st) else st
    case AOther => st
  }

  /** `build` of component `u`: `preparing` fired on it, then its rendered
      nodes, top-level elements marked, walked in its own context. */
  function BuildL(c: Ctx, body: seq<Node>, u: string, fuel: nat, st: Natives): Natives
    requires u in c.comps
    decreases fuel, 5, 0, 0
  {
    var b := c.comps[u];
    WalkL(c, body, u, b.props, MarkAll(b.render(b.props), Some(u)), false, fuel, PrepareL(body, u, fuel, st))
  }

  /** The walk of a suffix, one node at a time (the last node first). */
  lemma {:induction false} WalkLStep(c: Ctx, body: seq<Node>, w: string, p: Props, nodes: seq<Node>, inElement: bool,
                                     fuel: nat, i: nat, st: Natives)
    requires i < |nodes|
    ensures WalkL(c, body, w, p, nodes[i..], inElement, fuel, st) ==
      ChildL(c, body, w, p, nodes[i], inElement, fuel, WalkL(c, body, w, p, nodes[i + 1..], inElement, fuel, st))
  {
    assert nodes[i..][0] == nodes[i];
    assert nodes[i..][1..] == nodes[i + 1..];
  }

  /** A forest with nothing to resolve attaches nothing and builds nothing:
      its walk leaves every log and the table as they were. */
  lemma {:induction false} WalkStaticL(c: Ctx, body: seq<Node>, w: string, p: Props, nodes: seq<Node>, inElement: bool,
                                       fuel: nat, st: Natives)
    requires StaticF(nodes, inElement, p, c.resolve)
    ensures WalkL(c, body, w, p, nodes, inElement, fuel, st) == st
    decreases nodes
  {
    if nodes != [] {
      assert StaticN(nodes[0], inElement, p, c.resolve);
      assert StaticF(nodes[1..], inElement, p, c.resolve) by {
        forall i | 0 <= i < |nodes[1..]|
          ensures StaticN(nodes[1..][i], inElement, p, c.resolve)
        {
          assert nodes[1..][i] == nodes[i + 1];
        }
      }
      WalkStaticL(c, body, w, p, nodes[1..], inElement, fuel, st);
      match nodes[0]
      case Element(id, tag, attrs, children) =>
        StaticAttrsUntouched(attrs, p, c.resolve, id);
        assert AttachL(st, w, []) == st by {
          assert ListenerSet([]) == {};
          if w in st.logs {
            assert st.logs[w] + [] == st.logs[w];
            assert st.logs[w := st.logs[w] + []] == st.logs;
          }
        }
        WalkStaticL(c, body, w, p, children, tag != "SCRIPT", fuel, st);
      case Text(_) =>
      case Comment(_) =>
    }
  }

  /** `updated` on component `u`: the lone asset `u` is resolved, so `u`
      fires `preparing` (its old listeners leave its log and the table,
      along with those of every component the cascade reaches), then its
      build walks its rendered nodes and the resolution walks them again,
      both in `u`'s context. */
  lemma {:induction false} UpdatedL(c: Ctx, body: seq<Node>, u: string, fuel: nat, st: Natives)
    requires u in c.comps && u in st.logs && fuel > 0
    ensures var b := c.comps[u]; var prepared := PrepareL(body, u, fuel - 1, st);
      PartsL(c, body, u, b.props, [ABlock(u)], fuel, st) ==
        WalkL(c, body, u, b.props, BuildF(c, u, fuel - 1), false, fuel - 1,
          WalkL(c, body, u, b.props, MarkAll(b.render(b.props), Some(u)), false, fuel - 1, prepared)) &&
      Swept(st, prepared, Reach(body, st.logs.Keys, u, fuel - 1)) &&
      prepared.logs[u] == [] && ListenerSet(st.logs[u]) !! prepared.table
  {
    var b := c.comps[u];
    assert [ABlock(u)][..0] == [] && [ABlock(u)][0] == ABlock(u);
    assert PartsL(c, body, u, b.props, [ABlock(u)], fuel, st) == NodeL(c, body, u, b.props, ABlock(u), fuel, st);
    PrepareSweeps(body, u, fuel - 1, st);
    var prepared := PrepareL(body, u, fuel - 1, st);
    assert BuildL(c, body, u, fuel - 1, st) ==
      WalkL(c, body, u, b.props, MarkAll(b.render(b.props), Some(u)), false, fuel - 1, prepared);
    assert u in Reach(body, st.logs.Keys, u, fuel - 1);
    forall l | l in ListenerSet(st.logs[u])
      ensures l !in prepared.table
    {
      assert l in Removed(st.logs, Reach(body, st.logs.Keys, u, fuel - 1));
    }
  }
}
