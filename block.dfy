/** The component runtime: identity tokens, the registry of live components,
    prop patching, the per-component event bus and its three built-in
    handlers (`updated`, `eventAttached`, `preparing`), building a
    component's nodes, and the tree walk that resolves placeholders in text
    and attributes. */
module Blocks {
  import opened Values
  import opened Dom
  import opened Uid
  import opened Templates
  import opened Walks
  import opened Listeners

  /** The events a component's bus carries. `EventAttached` holds the
      attachment record its handler stores. */
  datatype BusEvent =
    | Preparing
    | Rendered
    | Mounted
    | Updated
    | EventAttached(listener: Listener)

  /** How many `updated` events a log holds. */
  function Updates(log: seq<BusEvent>): nat {
    if log == [] then 0
    else Updates(log[..|log| - 1]) + (if log[|log| - 1].Updated? then 1 else 0)
  }

  /** Appending one event counts one more `updated` exactly when it is one. */
  lemma {:induction false} UpdatesSnoc(log: seq<BusEvent>, e: BusEvent)
    ensures Updates(log + [e]) == Updates(log) + (if e.Updated? then 1 else 0)
  {
    assert (log + [e])[..|log|] == log;
  }

  /** `b` is `a` followed by further events, none of them `updated`. */
  predicate Grows(a: seq<BusEvent>, b: seq<BusEvent>) {
    a <= b && Updates(b) == Updates(a)
  }

  lemma {:induction false} GrowsTrans(a: seq<BusEvent>, b: seq<BusEvent>, c: seq<BusEvent>)
    requires Grows(a, b) && Grows(b, c)
    ensures Grows(a, c)
  {
  }

  /** The log entries of a run of `eventAttached` events. */
  function AttachEvents(ls: seq<Listener>): (r: seq<BusEvent>)
    ensures |r| == |ls|
    ensures Updates(r) == 0
  {
    if ls == [] then []
    else
      var r := AttachEvents(ls[..|ls| - 1]) + [EventAttached(ls[|ls| - 1])];
      UpdatesSnoc(AttachEvents(ls[..|ls| - 1]), EventAttached(ls[|ls| - 1]));
      r
  }

  lemma {:induction false} UpdatesConcat(a: seq<BusEvent>, b: seq<BusEvent>)
    ensures Updates(a + b) == Updates(a) + Updates(b)
    decreases |b|
  {
    if b == [] {
      assert a + b == a;
    } else {
      var b' := b[..|b| - 1];
      assert a + b == (a + b') + [b[|b| - 1]];
      UpdatesSnoc(a + b', b[|b| - 1]);
      UpdatesSnoc(b', b[|b| - 1]);
      assert b' + [b[|b| - 1]] == b;
      UpdatesConcat(a, b');
    }
  }

  /** One step of the attribute walk, read off the specification functions. */
  lemma {:induction false} AttrStepUnfold(attrs: seq<Attr>, i: nat, props: Props, resolve: Resolver, node: NodeId)
    requires i < |attrs|
    ensures ResolvedAttrs(attrs[i..], props, resolve) ==
      AfterStep(attrs[i], Step(attrs[i], props, resolve)) + ResolvedAttrs(attrs[i + 1..], props, resolve)
    ensures AttachedBy(attrs[i..], props, resolve, node) ==
      AttachedBy(attrs[i + 1..], props, resolve, node) + ListenersOf(Step(attrs[i], props, resolve), node)
  {
    assert attrs[i..][0] == attrs[i];
    assert attrs[i..][1..] == attrs[i + 1..];
  }

  /** One step of the attribute walk keeps the loop's account of the
      attribute list, the native-listener log, the bus log and the listener
      table: what has been walked is described by the specification
      functions on the walked suffix. */
  lemma {:induction false} AttrWalkStep(attrs: seq<Attr>, i: nat, p: Props, rs: Resolver, id: NodeId,
                     r0: seq<Attr>, r1: seq<Attr>,
                     e: seq<Listener>, e0: seq<Listener>, e1: seq<Listener>,
                     f: seq<BusEvent>, f0: seq<BusEvent>, f1: seq<BusEvent>,
                     s: set<Listener>, s0: set<Listener>, s1: set<Listener>)
    requires i < |attrs|
    requires r0 == attrs[..i + 1] + ResolvedAttrs(attrs[i + 1..], p, rs)
    requires e0 == e + AttachedBy(attrs[i + 1..], p, rs, id)
    requires f0 == f + AttachEvents(AttachedBy(attrs[i + 1..], p, rs, id))
    requires s0 == s + ListenerSet(AttachedBy(attrs[i + 1..], p, rs, id))
    requires i < |r0|
    requires r1 == r0[..i] + AfterStep(r0[i], Step(r0[i], p, rs)) + r0[i + 1..]
    requires e1 == e0 + ListenersOf(Step(r0[i], p, rs), id)
    requires f1 == f0 + AttachEvents(ListenersOf(Step(r0[i], p, rs), id))
    requires s1 == s0 + ListenerSet(ListenersOf(Step(r0[i], p, rs), id))
    ensures r1 == attrs[..i] + ResolvedAttrs(attrs[i..], p, rs)
    ensures e1 == e + AttachedBy(attrs[i..], p, rs, id)
    ensures f1 == f + AttachEvents(AttachedBy(attrs[i..], p, rs, id))
    ensures s1 == s + ListenerSet(AttachedBy(attrs[i..], p, rs, id))
  {
    assert r0[i] == attrs[..i + 1][i] == attrs[i];
    AttrWalkAttrs(attrs, i, p, rs, r0, r1);
    AttrWalkLogs(attrs, i, p, rs, id, e, e0, e1, f, f0, f1, s, s0, s1);
  }

  lemma {:induction false} AttrWalkAttrs(attrs: seq<Attr>, i: nat, p: Props, rs: Resolver, r0: seq<Attr>, r1: seq<Attr>)
    requires i < |attrs| && i < |r0|
    requires r0 == attrs[..i + 1] + ResolvedAttrs(attrs[i + 1..], p, rs)
    requires r1 == r0[..i] + AfterStep(attrs[i], Step(attrs[i], p, rs)) + r0[i + 1..]
    ensures r1 == attrs[..i] + ResolvedAttrs(attrs[i..], p, rs)
  {
    AttrStepUnfold(attrs, i, p, rs, 0);
    var kept := AfterStep(attrs[i], Step(attrs[i], p, rs));
    var rest := ResolvedAttrs(attrs[i + 1..], p, rs);
    assert r0[..i] == attrs[..i];
    assert r0[i + 1..] == rest;
    ConcatAssoc(attrs[..i], kept, rest);
  }

  lemma {:induction false} AttrWalkLogs(attrs: seq<Attr>, i: nat, p: Props, rs: Resolver, id: NodeId,
                     e: seq<Listener>, e0: seq<Listener>, e1: seq<Listener>,
                     f: seq<BusEvent>, f0: seq<BusEvent>, f1: seq<BusEvent>,
                     s: set<Listener>, s0: set<Listener>, s1: set<Listener>)
    requires i < |attrs|
    requires e0 == e + AttachedBy(attrs[i + 1..], p, rs, id)
    requires f0 == f + AttachEvents(AttachedBy(attrs[i + 1..], p, rs, id))
    requires s0 == s + ListenerSet(AttachedBy(attrs[i + 1..], p, rs, id))
    requires e1 == e0 + ListenersOf(Step(attrs[i], p, rs), id)
    requires f1 == f0 + AttachEvents(ListenersOf(Step(attrs[i], p, rs), id))
    requires s1 == s0 + ListenerSet(ListenersOf(Step(attrs[i], p, rs), id))
    ensures e1 == e + AttachedBy(attrs[i..], p, rs, id)
    ensures f1 == f + AttachEvents(AttachedBy(attrs[i..], p, rs, id))
    ensures s1 == s + ListenerSet(AttachedBy(attrs[i..], p, rs, id))
  {
    AttrStepUnfold(attrs, i, p, rs, id);
    var done := AttachedBy(attrs[i + 1..], p, rs, id);
    var added := ListenersOf(Step(attrs[i], p, rs), id);
    ConcatAssoc(e, done, added);
    LogStep(done, added, f, f0, f1, s, s0, s1);
  }

  lemma {:induction false} LogStep(done: seq<Listener>, added: seq<Listener>,
                f: seq<BusEvent>, f0: seq<BusEvent>, f1: seq<BusEvent>,
                s: set<Listener>, s0: set<Listener>, s1: set<Listener>)
    requires |added| <= 1
    requires f0 == f + AttachEvents(done) && f1 == f0 + AttachEvents(added)
    requires s0 == s + ListenerSet(done) && s1 == s0 + ListenerSet(added)
    ensures f1 == f + AttachEvents(done + added)
    ensures s1 == s + ListenerSet(done + added)
  {
    AttachEventsConcat(done, added);
    ConcatAssoc(f, AttachEvents(done), AttachEvents(added));
    ListenerSetConcat(done, added);
  }

  lemma {:induction false} AttachEventsConcat(done: seq<Listener>, added: seq<Listener>)
    requires |added| <= 1
    ensures AttachEvents(done + added) == AttachEvents(done) + AttachEvents(added)
  {
    if added == [] {
      assert done + added == done;
      assert AttachEvents(done) + [] == AttachEvents(done);
    } else {
      var l := added[0];
      assert added == [l];
      assert (done + [l])[..|done|] == done;
      assert AttachEvents([l]) == [EventAttached(l)];
    }
  }

  lemma {:induction false} ListenerSetConcat(done: seq<Listener>, added: seq<Listener>)
    ensures ListenerSet(done + added) == ListenerSet(done) + ListenerSet(added)
  {
    assert forall l :: l in done + added <==> l in done || l in added;
  }

  /** `n` copies of an event. */
  function Repeat(e: BusEvent, n: nat): (r: seq<BusEvent>)
    ensures |r| == n
    ensures forall i :: 0 <= i < n ==> r[i] == e
  {
    if n == 0 then [] else Repeat(e, n - 1) + [e]
  }

  /** `log` ends with `tail`. */
  predicate EndsWith(log: seq<BusEvent>, tail: seq<BusEvent>) {
    |tail| <= |log| && log[|log| - |tail|..] == tail
  }

  lemma {:induction false} AppendEndsWith(log: seq<BusEvent>, tail: seq<BusEvent>)
    ensures EndsWith(log + tail, tail)
  {
    assert (log + tail)[|log|..] == tail;
  }

  /** A component whose own nodes are in the document after replacing them
      by a fragment that holds it was fired `mounted` last. */
  lemma {:induction false} SelfMounted(body: seq<Node>, frag: seq<Node>, u: string, log: seq<BusEvent>)
    requires CountF(body, u) == CountF(frag, u) && CountF(frag, u) >= 1
    requires EndsWith(log, Repeat(Mounted, MountsFor([u], u, body)))
    ensures CountF(body, u) >= 1 && log[|log| - 1] == Mounted
  {
    assert [u][..0] == [];
    assert Occurrences([u], u) == 1;
  }

  lemma {:induction false} SoleToken(u: string, registered: set<string>)
    requires u in registered
    ensures BlockTokens([ABlock(u)], registered) == [u]
  {
    assert [ABlock(u)][..0] == [];
  }

  /** How often `u` occurs in `us`. */
  function Occurrences(us: seq<string>, u: string): nat {
    if us == [] then 0
    else Occurrences(us[..|us| - 1], u) + (if us[|us| - 1] == u then 1 else 0)
  }

  /** The number of `mounted` events a component with token `u` receives
      from the mount step of a replacement whose block assets are `us`:
      one per occurrence, provided it has a node in the document. */
  function MountsFor(us: seq<string>, u: string, body: seq<Node>): nat {
    if CountF(body, u) > 0 then Occurrences(us, u) else 0
  }

  /** The mount count of one more asset token. */
  lemma {:induction false} MountsSnoc(us: seq<string>, k: nat, body: seq<Node>)
    requires k < |us|
    ensures forall x :: (MountsFor(us[..k + 1], x, body) ==
      MountsFor(us[..k], x, body) + (if us[k] == x && CountF(body, x) > 0 then 1 else 0))
  {
    assert us[..k + 1][..k] == us[..k];
  }

  /** `mounted` events are not `updated` events. */
  lemma {:induction false} MountedGrows(log: seq<BusEvent>, n: nat)
    ensures Grows(log, log + Repeat(Mounted, n))
  {
    if n > 0 {
      MountedGrows(log, n - 1);
      UpdatesSnoc(log + Repeat(Mounted, n - 1), Mounted);
      assert log + Repeat(Mounted, n) == log + Repeat(Mounted, n - 1) + [Mounted];
    } else {
      assert log + Repeat(Mounted, n) == log;
    }
  }

  /** The tokens of the assets that are registered components, in order. */
  function BlockTokens(assets: seq<Asset>, registered: set<string>): (r: seq<string>)
    ensures forall u :: u in r ==> u in registered
  {
    if assets == [] then []
    else
      var last := assets[|assets| - 1];
      BlockTokens(assets[..|assets| - 1], registered) +
        (if last.ABlock? && last.uid in registered then [last.uid] else [])
  }

  /** The text of the string assets, concatenated. */
  function Joined(assets: seq<Asset>): string {
    if assets == [] then ""
    else
      var last := assets[|assets| - 1];
      Joined(assets[..|assets| - 1]) + (if last.AStr? then last.s else "")
  }

  /** `rand(1, 99999)` yields every draw. */
  predicate DrawsInRange(draws: seq<(nat, nat)>) {
    forall i :: 0 <= i < |draws| ==> 1 <= draws[i].0 <= 99999 && 1 <= draws[i].1 <= 99999
  }

  /** Some pair of draws yields a token not yet taken, so the do-while of
      `generateUid` stops. */
  predicate HasFresh(draws: seq<(nat, nat)>, taken: set<string>) {
    exists i :: 0 <= i < |draws| && Token(draws[i].0, draws[i].1) !in taken
  }

  /** Component `b`, with props `bp`, renders at least one element, and its
      token resolves to itself both in its own context and in the context
      of the host whose props are `host`: resolving `b` as an asset of the
      host leaves a node carrying its marker. */
  predicate Mountable(resolve: Resolver, host: Props, b: Block, bp: Props) {
    KeepsToken(resolve, bp, b.uid) && KeepsToken(resolve, host, b.uid) &&
    exists i :: 0 <= i < |b.render(bp)| && b.render(bp)[i].Element?
  }

  /** A top-level node keeps the marker `u` through a walk in a context
      where the text `u` resolves to itself. */
  predicate KeepsToken(resolve: Resolver, props: Props, u: string) {
    StaticText(resolve(props, u), u)
  }

  lemma {:induction false} MarkerNotEvent()
    ensures !IsEventAttr(Marker)
  {
    assert Marker[1] == 'a';
  }

  /** An element carrying marker `u` still carries it after its attributes
      are walked in a context where `u` resolves to itself. */
  lemma {:induction false} TaggedSurvivesWalk(n: Node, m: Node, props: Props, resolve: Resolver, u: string)
    requires Tagged(n, u) && SameTop(n, m, props, resolve) && KeepsToken(resolve, props, u)
    ensures Tagged(m, u)
  {
    MarkerNotEvent();
    NonEventAttrResolved(n.attrs, props, resolve, Marker);
  }

  /** A component asset walked again in the host's context (props `p`):
      every top-level node the component renders is still there, in place,
      with its attributes resolved by the build and again by the walk. */
  lemma {:induction false} RebuiltTop(c: Ctx, p: Props, u: string, fuel: nat)
    requires u in c.comps
    ensures var b := c.comps[u]; var built := BuildF(c, u, fuel); var elem := WalkF(c, p, built, false, fuel);
      |built| == |elem| == |b.render(b.props)| &&
      forall i :: 0 <= i < |elem| ==>
        SameTop(MarkTop(b.render(b.props)[i], Some(u)), built[i], b.props, c.resolve) &&
        SameTop(built[i], elem[i], p, c.resolve)
  {
    BuildTop(c, u, fuel);
    WalkTop(c, p, BuildF(c, u, fuel), fuel);
  }

  /** The token survives both walks where it resolves to itself. */
  lemma {:induction false} RebuiltTagged(c: Ctx, p: Props, u: string, fuel: nat)
    requires u in c.comps
    requires KeepsToken(c.resolve, c.comps[u].props, u) && KeepsToken(c.resolve, p, u)
    ensures var elem := WalkF(c, p, BuildF(c, u, fuel), false, fuel);
      forall i :: 0 <= i < |elem| && elem[i].Element? ==> Tagged(elem[i], u)
  {
    var b := c.comps[u];
    var built := BuildF(c, u, fuel);
    var elem := WalkF(c, p, built, false, fuel);
    RebuiltTop(c, p, u, fuel);
    forall i | 0 <= i < |elem| && elem[i].Element?
      ensures Tagged(elem[i], u)
    {
      var n := MarkTop(b.render(b.props)[i], Some(u));
      assert SameTop(n, built[i], b.props, c.resolve) && SameTop(built[i], elem[i], p, c.resolve);
      TaggedSurvivesWalk(n, built[i], b.props, c.resolve, u);
      TaggedSurvivesWalk(built[i], elem[i], p, c.resolve, u);
    }
  }

  /** So a component that renders an element has a node carrying its
      token after both walks. */
  lemma {:induction false} RebuiltCounts(c: Ctx, p: Props, u: string, fuel: nat, i: nat)
    requires u in c.comps
    requires KeepsToken(c.resolve, c.comps[u].props, u) && KeepsToken(c.resolve, p, u)
    requires i < |c.comps[u].render(c.comps[u].props)| && c.comps[u].render(c.comps[u].props)[i].Element?
    ensures CountF(WalkF(c, p, BuildF(c, u, fuel), false, fuel), u) >= 1
  {
    var elem := WalkF(c, p, BuildF(c, u, fuel), false, fuel);
    RebuiltTop(c, p, u, fuel);
    RebuiltTagged(c, p, u, fuel);
    assert elem[i].Element?;
    assert At(elem, [i]) == elem[i];
    TaggedAtCounts(elem, [i], u);
  }

  lemma {:induction false} SizeBound(f: seq<Node>, i: nat)
    requires i < |f|
    ensures SizeN(f[i]) <= SizeF(f)
  {
    if i > 0 {
      SizeBound(f[1..], i - 1);
    }
  }

  /** `b` is `a` followed by `preparing` events only. */
  predicate OnlyPreparing(a: seq<BusEvent>, b: seq<BusEvent>) {
    a <= b && forall i :: |a| <= i < |b| ==> b[i] == Preparing
  }

  /** `preparing` events are not `updated` events. */
  lemma {:induction false} PreparingGrows(a: seq<BusEvent>, b: seq<BusEvent>)
    requires OnlyPreparing(a, b)
    ensures Grows(a, b)
    decreases |b|
  {
    if |b| > |a| {
      var b' := b[..|b| - 1];
      assert OnlyPreparing(a, b');
      PreparingGrows(a, b');
      assert b == b' + [b[|b| - 1]];
      UpdatesSnoc(b', b[|b| - 1]);
    } else {
      assert a == b;
    }
  }

  /** The bus log of every registered component. */
  ghost function Logs(env: Env): map<Block, seq<BusEvent>>
    reads env`instances, env.Blocks()`fired
  {
    map b | b in env.Blocks() :: b.fired
  }

  /** The native-listener log of every registered component. */
  ghost function Attached(env: Env): map<Block, seq<Listener>>
    reads env`instances, env.Blocks()`nativeEvents
  {
    map b | b in env.Blocks() :: b.nativeEvents
  }

  /** The native listeners of the runtime as the reference functions of
      `Listeners` see them: each registered component's log, by token, and
      the listener table. */
  ghost function NativeOf(env: Env): Natives
    reads env`instances, env`listeners, env.Blocks()`nativeEvents
  {
    Natives(map u | u in env.instances :: env.instances[u].nativeEvents, env.listeners)
  }

  /** Only component `t`'s log may differ from the logs `m0`. */
  lemma {:induction false} LogsUpdated(env: Env, t: Block, m0: map<string, seq<Listener>>)
    requires env.Valid() && env.Has(t)
    requires m0.Keys == env.instances.Keys
    requires forall u :: u in env.instances && u != t.uid ==> env.instances[u].nativeEvents == m0[u]
    ensures NativeOf(env).logs == m0[t.uid := t.nativeEvents]
  {
  }

  /** What a cascade of `preparing` may do to the runtime, from the bus
      logs `f0`, the native-listener logs `n0` and the listener table `s0`
      to `f1`, `n1`, `s1`, over the same components: a bus log only gains
      `preparing` events; a native-listener log is kept or emptied;
      listeners are only removed, none of an emptied log is left, and each
      one removed was in a log that is now empty. */
  predicate PreparedBy(f0: map<Block, seq<BusEvent>>, n0: map<Block, seq<Listener>>, s0: set<Listener>,
                       f1: map<Block, seq<BusEvent>>, n1: map<Block, seq<Listener>>, s1: set<Listener>)
  {
    f1.Keys == f0.Keys && n0.Keys == f0.Keys && n1.Keys == f0.Keys && s1 <= s0 &&
    (forall b :: b in f0 ==> OnlyPreparing(f0[b], f1[b])) &&
    (forall b :: b in n0 ==> n1[b] == n0[b] || n1[b] == []) &&
    (forall b, l :: b in n0 && n1[b] == [] && l in n0[b] ==> l !in s1) &&
    (forall l :: l in s0 && l !in s1 ==> exists b :: b in n0 && n1[b] == [] && l in n0[b])
  }

  /** Every component registered (in `insts`) under a token of `us` has
      an empty native-listener log and a bus log longer than in `f0`. */
  predicate Emptied(f0: map<Block, seq<BusEvent>>, f1: map<Block, seq<BusEvent>>, n1: map<Block, seq<Listener>>,
                    insts: map<string, Block>, us: seq<string>)
  {
    forall u :: u in us && u in insts ==>
      insts[u] in f0 && insts[u] in f1 && insts[u] in n1 && n1[insts[u]] == [] && f0[insts[u]] < f1[insts[u]]
  }

  /** A further cascade that empties the log of the component under `u`
      extends the emptied tokens by `u`. */
  lemma {:induction false} EmptiedStep(f0: map<Block, seq<BusEvent>>, n0: map<Block, seq<Listener>>, s0: set<Listener>,
                                       f1: map<Block, seq<BusEvent>>, n1: map<Block, seq<Listener>>, s1: set<Listener>,
                                       f2: map<Block, seq<BusEvent>>, n2: map<Block, seq<Listener>>, s2: set<Listener>,
                                       insts: map<string, Block>, us: seq<string>, u: string)
    requires PreparedBy(f0, n0, s0, f1, n1, s1) && PreparedBy(f1, n1, s1, f2, n2, s2)
    requires Emptied(f0, f1, n1, insts, us)
    requires u in insts ==> insts[u] in f1 && insts[u] in n2 && n2[insts[u]] == [] && f1[insts[u]] < f2[insts[u]]
    ensures Emptied(f0, f2, n2, insts, us + [u])
  {
    forall v | v in us + [u] && v in insts
      ensures insts[v] in f0 && insts[v] in f2 && insts[v] in n2 && n2[insts[v]] == [] && f0[insts[v]] < f2[insts[v]]
    {
      var b := insts[v];
      if v in us {
        assert OnlyPreparing(f1[b], f2[b]);
      } else {
        assert v == u;
        assert OnlyPreparing(f0[b], f1[b]);
      }
    }
  }

  lemma {:induction false} PreparedRefl(f0: map<Block, seq<BusEvent>>, n0: map<Block, seq<Listener>>, s0: set<Listener>)
    requires n0.Keys == f0.Keys
    ensures PreparedBy(f0, n0, s0, f0, n0, s0)
  {
  }

  /** Two cascades in a row are a cascade. */
  lemma {:induction false} PreparedTrans(f0: map<Block, seq<BusEvent>>, n0: map<Block, seq<Listener>>, s0: set<Listener>,
                                         f1: map<Block, seq<BusEvent>>, n1: map<Block, seq<Listener>>, s1: set<Listener>,
                                         f2: map<Block, seq<BusEvent>>, n2: map<Block, seq<Listener>>, s2: set<Listener>)
    requires PreparedBy(f0, n0, s0, f1, n1, s1) && PreparedBy(f1, n1, s1, f2, n2, s2)
    ensures PreparedBy(f0, n0, s0, f2, n2, s2)
  {
    forall b | b in f0
      ensures OnlyPreparing(f0[b], f2[b])
    {
      assert OnlyPreparing(f0[b], f1[b]) && OnlyPreparing(f1[b], f2[b]);
      forall i | |f0[b]| <= i < |f2[b]|
        ensures f2[b][i] == Preparing
      {
        if i < |f1[b]| {
          assert f2[b][i] == f1[b][i];
        }
      }
    }
    forall l | l in s0 && l !in s2
      ensures exists b :: b in n0 && n2[b] == [] && l in n0[b]
    {
      if l in s1 {
        var b :| b in n1 && n2[b] == [] && l in n1[b];
        assert n1[b] == n0[b];
      } else {
        var b :| b in n0 && n1[b] == [] && l in n0[b];
        assert n2[b] == [];
      }
    }
  }

  /** The first half of the `preparing` handler of component `t` as a
      cascade: `preparing` logged on `t`, `t`'s logged listeners removed
      and its log emptied. */
  lemma {:induction false} DetachPrepared(t: Block, f0: map<Block, seq<BusEvent>>, n0: map<Block, seq<Listener>>, s0: set<Listener>,
                                          f1: map<Block, seq<BusEvent>>, n1: map<Block, seq<Listener>>, s1: set<Listener>)
    requires t in f0 && n0.Keys == f0.Keys && f1.Keys == f0.Keys && n1.Keys == f0.Keys
    requires f1[t] == f0[t] + [Preparing] && n1[t] == [] && s1 == s0 - ListenerSet(n0[t])
    requires forall b :: b in f0 && b != t ==> f1[b] == f0[b] && n1[b] == n0[b]
    ensures PreparedBy(f0, n0, s0, f1, n1, s1)
  {
    forall l | l in s0 && l !in s1
      ensures exists b :: b in n0 && n1[b] == [] && l in n0[b]
    {
      assert t in n0 && n1[t] == [] && l in n0[t];
    }
  }

  /** A cascade read back on the components: every bus log has grown
      without an `updated`, every native-listener log is kept or emptied,
      and the listener table has only shrunk. */
  lemma {:induction false} PreparedHeap(env: Env, f0: map<Block, seq<BusEvent>>, n0: map<Block, seq<Listener>>, s0: set<Listener>)
    requires PreparedBy(f0, n0, s0, Logs(env), Attached(env), env.listeners)
    ensures env.listeners <= s0
    ensures forall b :: b in env.Blocks() ==> Grows(f0[b], b.fired) && (b.nativeEvents == n0[b] || b.nativeEvents == [])
  {
    forall b | b in env.Blocks()
      ensures Grows(f0[b], b.fired)
    {
      PreparingGrows(f0[b], Logs(env)[b]);
    }
  }

  /** The process-wide state the runtime shares: the set of tokens handed
      out, the registry of instances, the document body, the native
      listeners attached to document nodes, and the collaborators whose code
      is not part of this model (the template engine, `objIntersect`, and
      calling a function placeholder as a renderer). */
  class Env {
    var uids: set<string>
    ghost var issued: seq<string>
    var instances: map<string, Block>
    var body: seq<Node>
    var listeners: set<Listener>
    const resolve: Resolver
    const objIntersect: (Props, Props) -> bool
    const call: FnId -> seq<Node>

    /** Tokens are handed out once each, the token set is exactly what was
        handed out, and every registered instance sits under its own token. */
    ghost predicate Valid()
      reads this`uids, this`issued, this`instances
    {
      (forall i, j :: 0 <= i < j < |issued| ==> issued[i] != issued[j]) &&
      (forall u :: u in uids <==> u in issued) &&
      (forall u :: u in instances ==> u in uids && instances[u].uid == u) &&
      (forall b :: b in instances.Values ==> b.uid in instances && instances[b.uid] == b)
    }

    function Blocks(): set<Block>
      reads this`instances
    {
      instances.Values
    }

    predicate Has(b: Block)
      reads this`instances
    {
      b.uid in instances && instances[b.uid] == b
    }

    /** What a walk reads from the runtime: the template engine, the
        function renderers, and every registered component with its
        current props. */
    ghost function Snap(): Ctx
      reads this`instances, Blocks()`props
    {
      Ctx(resolve, call, map u | u in instances :: Comp(instances[u].render, instances[u].props))
    }

    constructor (resolve: Resolver, objIntersect: (Props, Props) -> bool, call: FnId -> seq<Node>, body: seq<Node>)
      ensures Valid() && uids == {} && instances == map[] && issued == []
      ensures this.body == body && listeners == {}
      ensures this.resolve == resolve && this.objIntersect == objIntersect && this.call == call
    {
      this.resolve := resolve;
      this.objIntersect := objIntersect;
      this.call := call;
      this.body := body;
      uids := {};
      issued := [];
      instances := map[];
      listeners := {};
    }

    /** `generateUid`: draw pairs until one yields a token not yet taken,
        then record it. */
    method GenerateUid(draws: seq<(nat, nat)>) returns (uid: string)
      requires Valid() && DrawsInRange(draws) && HasFresh(draws, uids)
      modifies this`uids, this`issued
      ensures Valid()
      ensures uid !in old(uids)
      ensures uids == old(uids) + {uid} && issued == old(issued) + [uid]
      ensures var k := FirstFresh(draws, old(uids)); uid == Token(draws[k].0, draws[k].1)
      ensures ParseToken(uid).Some? && 1 <= ParseToken(uid).value.0 <= 99999 && 1 <= ParseToken(uid).value.1 <= 99999
    {
      var k := 0;
      uid := Token(draws[0].0, draws[0].1);
      while uid in uids
        invariant k < |draws| && uid == Token(draws[k].0, draws[k].1)
        invariant forall j :: 0 <= j < k ==> Token(draws[j].0, draws[j].1) in uids
        decreases |draws| - k
      {
        ghost var i :| 0 <= i < |draws| && Token(draws[i].0, draws[i].1) !in uids;
        assert k < i;
        k := k + 1;
        uid := Token(draws[k].0, draws[k].1);
      }
      ghost var first := FirstFresh(draws, uids);
      assert !(first < k) && !(k < first);
      TokenRoundTrip(draws[k].0, draws[k].1);
      assert uid !in issued;
      uids := uids + {uid};
      issued := issued + [uid];
    }
  }

  /** A component. Its token and render function are fixed at construction;
      its props, native-listener log, bus log and last built fragment change. */
  class Block {
    const uid: string
    const render: Props -> seq<Node>
    var props: Props
    var nativeEvents: seq<Listener>
    var fired: seq<BusEvent>
    var element: seq<Node>

    /** Takes a fresh token, registers the instance under it, and starts
        with an empty native-listener log and an empty bus. */
    constructor (env: Env, props: Props, render: Props -> seq<Node>, draws: seq<(nat, nat)>)
      requires env.Valid() && DrawsInRange(draws) && HasFresh(draws, env.uids)
      modifies env`uids, env`issued, env`instances
      ensures env.Valid()
      ensures uid !in old(env.uids) && env.uids == old(env.uids) + {uid}
      ensures env.instances == old(env.instances)[uid := this]
      ensures this.props == props && this.render == render
      ensures nativeEvents == [] && fired == [] && element == []
    {
      this.props := props;
      var u := env.GenerateUid(draws);
      uid := u;
      this.render := render;
      nativeEvents := [];
      fired := [];
      element := [];
      new;
      env.instances := env.instances[uid := this];
    }

    /** Firing an event whose only handler effect is the log entry. */
    method FireLogged(e: BusEvent)
      requires e == Rendered || e == Mounted
      modifies this`fired
      ensures fired == old(fired) + [e]
      ensures Grows(old(fired), fired)
    {
      UpdatesSnoc(fired, e);
      fired := fired + [e];
    }

    /** `fire('eventAttached', data)`: the handler appends the record to
        the native-listener log. */
    method FireAttached(l: Listener)
      modifies this`fired, this`nativeEvents
      ensures fired == old(fired) + [EventAttached(l)]
      ensures nativeEvents == old(nativeEvents) + [l]
      ensures Grows(old(fired), fired)
    {
      UpdatesSnoc(fired, EventAttached(l));
      fired := fired + [EventAttached(l)];
      nativeEvents := nativeEvents + [l];
    }

    /** `fire('preparing')`: the handler detaches every logged listener,
        empties the log and fires `preparing` on every registered component
        whose marked nodes lie below one of this component's marked nodes.
        The cascade is bounded by `fuel`. */
    method FirePreparing(env: Env, fuel: nat)
      requires env.Valid() && env.Has(this)
      modifies env`listeners, env.Blocks()`fired, env.Blocks()`nativeEvents
      ensures PreparedBy(old(Logs(env)), old(Attached(env)), old(env.listeners), Logs(env), Attached(env), env.listeners)
      ensures nativeEvents == []
      ensures env.listeners <= old(env.listeners)
      ensures forall l :: l in old(nativeEvents) ==> l !in env.listeners
      ensures old(fired) + [Preparing] <= fired
      ensures forall b :: b in env.Blocks() ==> Grows(old(b.fired), b.fired)
      ensures forall b :: b in env.Blocks() ==> b.nativeEvents == old(b.nativeEvents) || b.nativeEvents == []
      ensures fuel > 0 ==> forall u :: u in DescendantsF(env.body, uid) && u in env.instances ==>
        env.instances[u].nativeEvents == [] && old(env.instances[u].fired) < env.instances[u].fired
      ensures NativeOf(env) == PrepareL(env.body, uid, fuel, old(NativeOf(env)))
      ensures forall b :: b in env.Blocks() && b.uid !in Reach(env.body, env.instances.Keys, uid, fuel) ==>
        b.fired == old(b.fired) && b.nativeEvents == old(b.nativeEvents)
      decreases fuel, 1, 0
    {
      ghost var f0, n0, s0 := Logs(env), Attached(env), env.listeners;
      ghost var st0 := NativeOf(env);
      DetachSelf(env);
      ghost var f1, n1, s1 := Logs(env), Attached(env), env.listeners;
      assert NativeOf(env) == DetachL(st0, uid);
      label detached:
      PrepareDescendants(env, fuel);
      PreparedTrans(f0, n0, s0, f1, n1, s1, Logs(env), Attached(env), env.listeners);
      UpdatesSnoc(old(fired), Preparing);
      forall b | b in env.Blocks()
        ensures Grows(old(b.fired), b.fired) && (b.nativeEvents == old(b.nativeEvents) || b.nativeEvents == [])
        ensures b.uid !in Reach(env.body, env.instances.Keys, uid, fuel) ==>
          b.fired == old(b.fired) && b.nativeEvents == old(b.nativeEvents)
      {
        assert Grows(old@detached(b.fired), b.fired);
        if b != this {
          assert b.fired == old@detached(b.fired) ==> b.fired == old(b.fired);
        }
      }
      forall u | fuel > 0 && u in DescendantsF(env.body, uid) && u in env.instances
        ensures old(env.instances[u].fired) < env.instances[u].fired
      {
        assert old(env.instances[u].fired) <= old@detached(env.instances[u].fired);
      }
    }

    /** The second half of the `preparing` handler (`listDescendants`):
        `preparing` fired on the component of every token marked below one
        of this component's marked nodes, while fuel lasts. */
    method PrepareDescendants(env: Env, fuel: nat)
      requires env.Valid() && env.Has(this)
      modifies env`listeners, env.Blocks()`fired, env.Blocks()`nativeEvents
      ensures PreparedBy(old(Logs(env)), old(Attached(env)), old(env.listeners), Logs(env), Attached(env), env.listeners)
      ensures fuel > 0 ==> forall u :: u in DescendantsF(env.body, uid) && u in env.instances ==>
        env.instances[u].nativeEvents == [] && old(env.instances[u].fired) < env.instances[u].fired
      ensures NativeOf(env) ==
        if fuel > 0 then PrepareAllL(env.body, DescendantsF(env.body, uid), fuel - 1, old(NativeOf(env))) else old(NativeOf(env))
      ensures env.listeners <= old(env.listeners)
      ensures forall b :: b in env.Blocks() ==> Grows(old(b.fired), b.fired)
      ensures forall b :: b in env.Blocks() ==> b.nativeEvents == old(b.nativeEvents) || b.nativeEvents == []
      ensures forall b :: b in env.Blocks() && b.uid !in Reach(env.body, env.instances.Keys, uid, fuel) ==>
        b.fired == old(b.fired) && b.nativeEvents == old(b.nativeEvents)
      decreases fuel, 0
    {
      if fuel > 0 {
        PrepareAll(env, DescendantsF(env.body, uid), fuel - 1);
      } else {
        PreparedRefl(Logs(env), Attached(env), env.listeners);
      }
    }

    /** The first half of the `preparing` handler as a cascade step:
        `preparing` logged, then this component's logged listeners removed
        and its log emptied. */
    method DetachSelf(env: Env)
      requires env.Valid() && env.Has(this)
      modifies env`listeners, this`fired, this`nativeEvents
      ensures PreparedBy(old(Logs(env)), old(Attached(env)), old(env.listeners), Logs(env), Attached(env), env.listeners)
      ensures fired == old(fired) + [Preparing] && nativeEvents == []
      ensures env.listeners == old(env.listeners) - ListenerSet(old(nativeEvents))
      ensures NativeOf(env) == DetachL(old(NativeOf(env)), uid)
    {
      ghost var f0, n0, s0 := Logs(env), Attached(env), env.listeners;
      ghost var st0 := NativeOf(env);
      fired := fired + [Preparing];
      DetachAll(env);
      LogsUpdated(env, this, st0.logs);
      assert Logs(env).Keys == f0.Keys && Attached(env).Keys == f0.Keys;
      DetachPrepared(this, f0, n0, s0, Logs(env), Attached(env), env.listeners);
    }

    /** The loop of the `preparing` handler: every logged listener is
        removed from its node, then the log is emptied. */
    method DetachAll(env: Env)
      modifies env`listeners, this`nativeEvents
      ensures nativeEvents == []
      ensures env.listeners == old(env.listeners) - ListenerSet(old(nativeEvents))
    {
      var i := 0;
      while i < |nativeEvents|
        invariant 0 <= i <= |nativeEvents|
        invariant env.listeners == old(env.listeners) - ListenerSet(nativeEvents[..i])
        modifies env`listeners
      {
        assert nativeEvents[..i + 1][..i] == nativeEvents[..i];
        env.listeners := env.listeners - {nativeEvents[i]};
        i := i + 1;
      }
      assert nativeEvents[..i] == nativeEvents;
      nativeEvents := [];
    }

    /** `listDescendants(block => block.fire('preparing'))`: fire
        `preparing` on the registered component of every token in `ds`. */
    method PrepareAll(env: Env, ds: seq<string>, fuel: nat)
      requires env.Valid()
      modifies env`listeners, env.Blocks()`fired, env.Blocks()`nativeEvents
      ensures PreparedBy(old(Logs(env)), old(Attached(env)), old(env.listeners), Logs(env), Attached(env), env.listeners)
      ensures env.listeners <= old(env.listeners)
      ensures forall b :: b in env.Blocks() ==> Grows(old(b.fired), b.fired)
      ensures forall b :: b in env.Blocks() ==> b.nativeEvents == old(b.nativeEvents) || b.nativeEvents == []
      ensures forall u :: u in ds && u in env.instances ==>
        env.instances[u].nativeEvents == [] && old(env.instances[u].fired) < env.instances[u].fired
      ensures NativeOf(env) == PrepareAllL(env.body, ds, fuel, old(NativeOf(env)))
      ensures forall b :: b in env.Blocks() && b.uid !in ReachAll(env.body, env.instances.Keys, ds, fuel) ==>
        b.fired == old(b.fired) && b.nativeEvents == old(b.nativeEvents)
      decreases fuel, 2
    {
      ghost var f0, n0, s0 := Logs(env), Attached(env), env.listeners;
      ghost var st0 := NativeOf(env);
      PreparedRefl(f0, n0, s0);
      ghost var insts := env.instances;
      for k := 0 to |ds|
        invariant env.instances == insts
        invariant PreparedBy(f0, n0, s0, Logs(env), Attached(env), env.listeners)
        invariant Emptied(f0, Logs(env), Attached(env), insts, ds[..k])
        invariant NativeOf(env) == PrepareAllL(env.body, ds[..k], fuel, st0)
        invariant forall b :: b in env.Blocks() && b.uid !in ReachAll(env.body, insts.Keys, ds[..k], fuel) ==>
          b.fired == f0[b] && b.nativeEvents == n0[b]
      {
        PrepareNext(env, ds, k, fuel, f0, n0, s0, st0);
      }
      assert ds[..|ds|] == ds;
      PreparedHeap(env, f0, n0, s0);
    }

    /** One iteration of `listDescendants`: `preparing` on the component of
        `ds[k]`, extending the account of the cascade since `f0`, `n0`, `s0`
        (`st0` for the reference state) from `ds[..k]` to `ds[..k + 1]`. */
    method PrepareNext(env: Env, ds: seq<string>, k: nat, fuel: nat, ghost f0: map<Block, seq<BusEvent>>,
                       ghost n0: map<Block, seq<Listener>>, ghost s0: set<Listener>, ghost st0: Natives)
      requires env.Valid() && k < |ds|
      requires PreparedBy(f0, n0, s0, Logs(env), Attached(env), env.listeners)
      requires Emptied(f0, Logs(env), Attached(env), env.instances, ds[..k])
      requires NativeOf(env) == PrepareAllL(env.body, ds[..k], fuel, st0)
      requires forall b :: b in env.Blocks() && b.uid !in ReachAll(env.body, env.instances.Keys, ds[..k], fuel) ==>
        b.fired == f0[b] && b.nativeEvents == n0[b]
      modifies env`listeners, env.Blocks()`fired, env.Blocks()`nativeEvents
      ensures PreparedBy(f0, n0, s0, Logs(env), Attached(env), env.listeners)
      ensures Emptied(f0, Logs(env), Attached(env), env.instances, ds[..k + 1])
      ensures NativeOf(env) == PrepareAllL(env.body, ds[..k + 1], fuel, st0)
      ensures forall b :: b in env.Blocks() && b.uid !in ReachAll(env.body, env.instances.Keys, ds[..k + 1], fuel) ==>
        b.fired == f0[b] && b.nativeEvents == n0[b]
      decreases fuel, 1, 2
    {
      assert ds[..k + 1] == ds[..k] + [ds[k]];
      assert ds[..k + 1][..k] == ds[..k];
      ghost var f1, n1, s1 := Logs(env), Attached(env), env.listeners;
      label step:
      PrepareToken(env, ds[k], fuel);
      EmptiedStep(f0, n0, s0, f1, n1, s1, Logs(env), Attached(env), env.listeners, env.instances, ds[..k], ds[k]);
      PreparedTrans(f0, n0, s0, f1, n1, s1, Logs(env), Attached(env), env.listeners);
      forall b | b in env.Blocks() && b.uid !in ReachAll(env.body, env.instances.Keys, ds[..k + 1], fuel)
        ensures b.fired == f0[b] && b.nativeEvents == n0[b]
      {
        assert b.fired == old@step(b.fired) && b.nativeEvents == old@step(b.nativeEvents);
      }
    }

    /** One step of `listDescendants`: `preparing` on the component
        registered under `u`, if there is one. */
    method PrepareToken(env: Env, u: string, fuel: nat)
      requires env.Valid()
      modifies env`listeners, env.Blocks()`fired, env.Blocks()`nativeEvents
      ensures PreparedBy(old(Logs(env)), old(Attached(env)), old(env.listeners), Logs(env), Attached(env), env.listeners)
      ensures u in env.instances ==>
        var b := env.instances[u];
        b in Logs(env) && b in Attached(env) && Attached(env)[b] == [] && old(Logs(env))[b] < Logs(env)[b]
      ensures NativeOf(env) == PrepareTokenL(env.body, u, fuel, old(NativeOf(env)))
      ensures forall b :: b in env.Blocks() && b.uid !in ReachToken(env.body, env.instances.Keys, u, fuel) ==>
        b.fired == old(b.fired) && b.nativeEvents == old(b.nativeEvents)
      decreases fuel, 1, 1
    {
      if u in env.instances {
        var b := env.instances[u];
        b.FirePreparing(env, fuel);
        assert b in env.Blocks();
      } else {
        PreparedRefl(Logs(env), Attached(env), env.listeners);
      }
    }

    /** `buildNode`: moves the parsed nodes one by one from the holder into
        a fresh fragment, passing each through the tagging callback. */
    method BuildNode(markup: seq<Node>, tag: Option<string>) returns (frag: seq<Node>)
      ensures |frag| == |markup|
      ensures forall i :: 0 <= i < |markup| ==> frag[i] == MarkTop(markup[i], tag)
      ensures frag == MarkAll(markup, tag)
    {
      var holder := markup;
      frag := [];
      while |holder| != 0
        invariant |frag| + |holder| == |markup|
        invariant holder == markup[|frag|..]
        invariant forall i :: 0 <= i < |frag| ==> frag[i] == MarkTop(markup[i], tag)
      {
        var node := holder[0];
        node := MarkTop(node, tag);
        frag := frag + [node];
        holder := holder[1..];
      }
    }

    /** `traverseAttributes`: walks the attributes of element `id` from the
        last to the first (see `TraverseAttribute` for one step). */
    method TraverseAttributes(env: Env, id: NodeId, attrs: seq<Attr>) returns (r: seq<Attr>)
      modifies env`listeners, this`fired, this`nativeEvents
      ensures r == ResolvedAttrs(attrs, props, env.resolve)
      ensures nativeEvents == old(nativeEvents) + AttachedBy(attrs, props, env.resolve, id)
      ensures fired == old(fired) + AttachEvents(AttachedBy(attrs, props, env.resolve, id))
      ensures Grows(old(fired), fired)
      ensures env.listeners == old(env.listeners) + ListenerSet(AttachedBy(attrs, props, env.resolve, id))
    {
      var p, rs := props, env.resolve;
      r := attrs;
      var i := |attrs|;
      while i > 0
        invariant 0 <= i <= |attrs|
        invariant r == attrs[..i] + ResolvedAttrs(attrs[i..], p, rs)
        invariant nativeEvents == old(nativeEvents) + AttachedBy(attrs[i..], p, rs, id)
        invariant fired == old(fired) + AttachEvents(AttachedBy(attrs[i..], p, rs, id))
        invariant env.listeners == old(env.listeners) + ListenerSet(AttachedBy(attrs[i..], p, rs, id))
      {
        i := i - 1;
        ghost var r0, events0, fired0, listeners0 := r, nativeEvents, fired, env.listeners;
        r := TraverseAttribute(env, id, r, i);
        AttrWalkStep(attrs, i, p, rs, id, r0, r, old(nativeEvents), events0, nativeEvents,
          old(fired), fired0, fired, old(env.listeners), listeners0, env.listeners);
      }
      assert attrs[..0] == [] && attrs[0..] == attrs;
      UpdatesConcat(old(fired), AttachEvents(AttachedBy(attrs, p, rs, id)));
    }

    /** The body of the attribute walk for attribute `i`: an `on*` attribute
        whose value resolves to a function is attached as a native listener,
        removed, and announced with `eventAttached`; any other attribute
        takes its resolved string when that differs from its value. */
    method TraverseAttribute(env: Env, id: NodeId, r: seq<Attr>, i: nat) returns (r': seq<Attr>)
      requires i < |r|
      modifies env`listeners, this`fired, this`nativeEvents
      ensures r' == r[..i] + AfterStep(r[i], Step(r[i], props, env.resolve)) + r[i + 1..]
      ensures nativeEvents == old(nativeEvents) + ListenersOf(Step(r[i], props, env.resolve), id)
      ensures fired == old(fired) + AttachEvents(ListenersOf(Step(r[i], props, env.resolve), id))
      ensures env.listeners == old(env.listeners) + ListenerSet(ListenersOf(Step(r[i], props, env.resolve), id))
    {
      var name, value := r[i].name, r[i].value;
      var assets := env.resolve(props, value);
      r' := r;
      if IsEventAttr(name) {
        if |assets| > 0 && assets[0].AFn? {
          var l := Listener(id, name[2..], assets[0].f);
          env.listeners := env.listeners + {l};
          r' := r[..i] + r[i + 1..];
          FireAttached(l);
        }
      } else if |assets| > 0 && assets[0].AStr? && assets[0].s != value {
        r' := r[..i] + [Attr(name, assets[0].s)] + r[i + 1..];
      }
      assert r == r[..i] + [r[i]] + r[i + 1..];
    }

    /** `build`: fire `preparing`, build the rendered markup with every
        top-level element marked with this component's token, walk it in the
        component's own context, keep it as `element`, fire `rendered`. */
    method Build(env: Env, fuel: nat) returns (frag: seq<Node>)
      requires env.Valid() && env.Has(this)
      modifies env`body, env`listeners, env.Blocks()`fired, env.Blocks()`nativeEvents, env.Blocks()`element
      ensures env.body == old(env.body)
      ensures forall b :: b in env.Blocks() ==> Grows(old(b.fired), b.fired)
      ensures frag == BuildF(env.Snap(), uid, fuel)
      ensures element == frag
      ensures |frag| == |render(props)|
      ensures forall i :: 0 <= i < |frag| ==> SameTop(MarkTop(render(props)[i], Some(uid)), frag[i], props, env.resolve)
      ensures forall i :: 0 <= i < |frag| ==> (frag[i].Element? <==> render(props)[i].Element?)
      ensures KeepsToken(env.resolve, props, uid) ==>
        forall i :: 0 <= i < |frag| && frag[i].Element? ==> Tagged(frag[i], uid)
      ensures old(fired) + [Preparing] <= fired && fired[|fired| - 1] == Rendered
      ensures NativeOf(env) == BuildL(env.Snap(), env.body, uid, fuel, old(NativeOf(env)))
      decreases fuel, 5, 1, 0
    {
      FirePreparing(env, fuel);
      frag := BuildElement(env, fuel);
      assert env.Snap().comps[uid] == Comp(render, props);
    }

    /** The part of `build` after `preparing`: the rendered markup, its
        top-level elements marked, walked in this component's context, kept
        as `element`, then `rendered` fired. */
    method BuildElement(env: Env, fuel: nat) returns (frag: seq<Node>)
      requires env.Valid() && env.Has(this)
      modifies env`body, env`listeners, env.Blocks()`fired, env.Blocks()`nativeEvents, env.Blocks()`element
      ensures env.body == old(env.body)
      ensures forall b :: b in env.Blocks() ==> Grows(old(b.fired), b.fired)
      ensures frag == BuildF(env.Snap(), uid, fuel)
      ensures element == frag
      ensures |frag| == |render(props)|
      ensures forall i :: 0 <= i < |frag| ==> SameTop(MarkTop(render(props)[i], Some(uid)), frag[i], props, env.resolve)
      ensures forall i :: 0 <= i < |frag| ==> (frag[i].Element? <==> render(props)[i].Element?)
      ensures KeepsToken(env.resolve, props, uid) ==>
        forall i :: 0 <= i < |frag| && frag[i].Element? ==> Tagged(frag[i], uid)
      ensures old(fired) < fired && fired[|fired| - 1] == Rendered
      ensures NativeOf(env) == WalkL(env.Snap(), env.body, uid, props, MarkAll(render(props), Some(uid)), false, fuel, old(NativeOf(env)))
      decreases fuel, 5, 0, 1
    {
      frag := WalkRendered(env, fuel);
      ghost var c, st := env.Snap(), NativeOf(env);
      label walked:
      element := frag;
      assert env.Snap() == c;
      assert NativeOf(env) == st;
      UpdatesSnoc(fired, Rendered);
      fired := fired + [Rendered];
      assert env.Snap() == c;
      assert NativeOf(env) == st;
      forall b | b in env.Blocks()
        ensures Grows(old(b.fired), b.fired)
      {
        assert Grows(old(b.fired), old@walked(b.fired));
      }
    }

    /** The rendered nodes, top-level elements marked, walked in this
        component's context. */
    method WalkRendered(env: Env, fuel: nat) returns (frag: seq<Node>)
      requires env.Valid() && env.Has(this)
      modifies env`body, env`listeners, env.Blocks()`fired, env.Blocks()`nativeEvents, env.Blocks()`element
      ensures env.body == old(env.body)
      ensures forall b :: b in env.Blocks() ==> Grows(old(b.fired), b.fired)
      ensures frag == BuildF(env.Snap(), uid, fuel)
      ensures |frag| == |render(props)|
      ensures forall i :: 0 <= i < |frag| ==> SameTop(MarkTop(render(props)[i], Some(uid)), frag[i], props, env.resolve)
      ensures forall i :: 0 <= i < |frag| ==> (frag[i].Element? <==> render(props)[i].Element?)
      ensures KeepsToken(env.resolve, props, uid) ==>
        forall i :: 0 <= i < |frag| && frag[i].Element? ==> Tagged(frag[i], uid)
      ensures NativeOf(env) == WalkL(env.Snap(), env.body, uid, props, MarkAll(render(props), Some(uid)), false, fuel, old(NativeOf(env)))
      decreases fuel, 5, 0, 0
    {
      var built := BuildNode(render(props), Some(uid));
      frag := TraverseChildren(env, built, false, fuel);
      assert env.Snap().comps[uid] == Comp(render, props);
      if KeepsToken(env.resolve, props, uid) {
        forall i | 0 <= i < |frag| && frag[i].Element?
          ensures Tagged(frag[i], uid)
        {
          TaggedSurvivesWalk(built[i], frag[i], props, env.resolve, uid);
        }
      }
    }

    /** `resolveNode`: the node an asset of a resolved text becomes. A
        string becomes a text node; a function is called as a renderer and
        its nodes walked; a component is built and then walked again in this
        component's context; an element has its children walked; anything
        else becomes an empty text node. */
    method ResolveNode(env: Env, asset: Asset, fuel: nat) returns (elem: seq<Node>)
      requires env.Valid() && env.Has(this)
      modifies env`body, env`listeners, env.Blocks()`fired, env.Blocks()`nativeEvents, env.Blocks()`element
      ensures env.body == old(env.body)
      ensures forall b :: b in env.Blocks() ==> Grows(old(b.fired), b.fired)
      ensures elem == NodeF(env.Snap(), props, asset, fuel)
      ensures asset.AStr? ==> elem == [Text(asset.s)]
      ensures (asset.AOther? || (asset.ABlock? && asset.uid !in env.instances) ||
               (asset.ANode? && !asset.node.Element?)) ==> elem == [Text("")]
      ensures asset.AFn? && fuel > 0 ==>
        |elem| == |env.call(asset.f)| &&
        forall i :: 0 <= i < |elem| ==> SameTop(env.call(asset.f)[i], elem[i], props, env.resolve)
      ensures asset.ANode? && asset.node.Element? && fuel > 0 ==>
        |elem| == 1 && elem[0].Element? && elem[0] == asset.node.(children := elem[0].children)
      ensures asset.ABlock? && asset.uid in env.instances && fuel > 0 ==>
        var b := env.instances[asset.uid];
        |elem| == |b.render(b.props)| &&
        (forall i :: 0 <= i < |elem| ==> (elem[i].Element? <==> b.render(b.props)[i].Element?)) &&
        (KeepsToken(env.resolve, b.props, b.uid) && KeepsToken(env.resolve, props, b.uid) ==>
          forall i :: 0 <= i < |elem| && elem[i].Element? ==> Tagged(elem[i], b.uid))
      ensures (asset.ABlock? && asset.uid in env.instances && fuel > 0 &&
        Mountable(env.resolve, props, env.instances[asset.uid], env.instances[asset.uid].props)) ==>
        CountF(elem, asset.uid) >= 1
      ensures NativeOf(env) == NodeL(env.Snap(), env.body, uid, props, asset, fuel, old(NativeOf(env)))
      decreases fuel, 0, 0, 0
    {
      elem := [Text("")];
      match asset
      case AStr(s) =>
        elem := [Text(s)];
      case AFn(f) =>
        if fuel > 0 {
          elem := ResolveRenderer(env, f, fuel - 1);
        }
      case ABlock(u) =>
        if u in env.instances && fuel > 0 {
          elem := ResolveBlock(env, env.instances[u], fuel - 1);
        }
      case ANode(n) =>
        if n.Element? && fuel > 0 {
          elem := ResolveElement(env, n, fuel - 1);
        }
      case AOther =>
    }

    /** A function asset: called as a renderer, its nodes are walked in this
        component's context. */
    method ResolveRenderer(env: Env, f: FnId, fuel: nat) returns (elem: seq<Node>)
      requires env.Valid() && env.Has(this)
      modifies env`body, env`listeners, env.Blocks()`fired, env.Blocks()`nativeEvents, env.Blocks()`element
      ensures env.body == old(env.body)
      ensures forall b :: b in env.Blocks() ==> Grows(old(b.fired), b.fired)
      ensures elem == WalkF(env.Snap(), props, env.call(f), false, fuel)
      ensures |elem| == |env.call(f)|
      ensures forall i :: 0 <= i < |elem| ==> SameTop(env.call(f)[i], elem[i], props, env.resolve)
      ensures forall i :: 0 <= i < |elem| ==> (elem[i].Element? <==> env.call(f)[i].Element?)
      ensures NativeOf(env) == WalkL(env.Snap(), env.body, uid, props, env.call(f), false, fuel, old(NativeOf(env)))
      decreases fuel, 6, 0, 0
    {
      var built := BuildNode(env.call(f), None);
      assert built == env.call(f);
      elem := TraverseChildren(env, built, false, fuel);
    }

    /** A component asset: the component is built, and its nodes are walked
        again in this component's context. */
    method ResolveBlock(env: Env, b: Block, fuel: nat) returns (elem: seq<Node>)
      requires env.Valid() && env.Has(this) && env.Has(b)
      modifies env`body, env`listeners, env.Blocks()`fired, env.Blocks()`nativeEvents, env.Blocks()`element
      ensures env.body == old(env.body)
      ensures forall b :: b in env.Blocks() ==> Grows(old(b.fired), b.fired)
      ensures elem == WalkF(env.Snap(), props, BuildF(env.Snap(), b.uid, fuel), false, fuel)
      ensures |elem| == |b.render(b.props)|
      ensures var built := BuildF(env.Snap(), b.uid, fuel);
        |built| == |elem| && forall i :: 0 <= i < |elem| ==>
          SameTop(MarkTop(b.render(b.props)[i], Some(b.uid)), built[i], b.props, env.resolve) &&
          SameTop(built[i], elem[i], props, env.resolve)
      ensures forall i :: 0 <= i < |elem| ==> (elem[i].Element? <==> b.render(b.props)[i].Element?)
      ensures KeepsToken(env.resolve, b.props, b.uid) && KeepsToken(env.resolve, props, b.uid) ==>
        forall i :: 0 <= i < |elem| && elem[i].Element? ==> Tagged(elem[i], b.uid)
      ensures Mountable(env.resolve, props, b, b.props) ==> CountF(elem, b.uid) >= 1
      ensures NativeOf(env) == WalkL(env.Snap(), env.body, uid, props, BuildF(env.Snap(), b.uid, fuel), false, fuel,
        BuildL(env.Snap(), env.body, b.uid, fuel, old(NativeOf(env))))
      decreases fuel, 6, 0, 0
    {
      var u := b.uid;
      var built := b.Build(env, fuel);
      ghost var c := env.Snap();
      label built:
      elem := TraverseChildren(env, built, false, fuel);
      assert env.Snap() == c;
      forall b' | b' in env.Blocks()
        ensures Grows(old(b'.fired), b'.fired)
      {
        GrowsTrans(old(b'.fired), old@built(b'.fired), b'.fired);
      }
      assert c.comps[u] == Comp(b.render, b.props);
      RebuiltTop(c, props, u, fuel);
      if KeepsToken(env.resolve, b.props, u) && KeepsToken(env.resolve, props, u) {
        RebuiltTagged(c, props, u, fuel);
        if Mountable(env.resolve, props, b, b.props) {
          var i :| 0 <= i < |b.render(b.props)| && b.render(b.props)[i].Element?;
          RebuiltCounts(c, props, u, fuel, i);
        }
      }
    }

    /** An element asset: its children are walked in this component's
        context; the element itself is kept. */
    method ResolveElement(env: Env, n: Node, fuel: nat) returns (elem: seq<Node>)
      requires env.Valid() && env.Has(this) && n.Element?
      modifies env`body, env`listeners, env.Blocks()`fired, env.Blocks()`nativeEvents, env.Blocks()`element
      ensures env.body == old(env.body)
      ensures forall b :: b in env.Blocks() ==> Grows(old(b.fired), b.fired)
      ensures elem == [n.(children := WalkF(env.Snap(), props, n.children, n.tag != "SCRIPT", fuel))]
      ensures |elem| == 1 && elem[0].Element? && elem[0] == n.(children := elem[0].children)
      ensures StaticF(n.children, n.tag != "SCRIPT", props, env.resolve) ==> elem == [n]
      ensures NativeOf(env) == WalkL(env.Snap(), env.body, uid, props, n.children, n.tag != "SCRIPT", fuel, old(NativeOf(env)))
      decreases fuel, 6, 0, 0
    {
      var children := TraverseChildren(env, n.children, n.tag != "SCRIPT", fuel);
      elem := [n.(children := children)];
    }

    /** `replaceNode`: resolve every asset into one fragment, normalise it,
        put it in place of the node (`at`, a path in the document; `None`
        for a node outside the document), then fire `mounted` on every
        component asset that has a node in the document. */
    method ReplaceNode(env: Env, at: Option<Path>, assets: seq<Asset>, fuel: nat) returns (frag: seq<Node>)
      requires env.Valid() && env.Has(this)
      requires at.Some? ==> ValidPath(env.body, at.value)
      modifies env`body, env`listeners, env.Blocks()`fired, env.Blocks()`nativeEvents, env.Blocks()`element
      ensures frag == FragmentF(env.Snap(), props, assets, fuel)
      ensures Normalized(frag)
      ensures (forall k :: 0 <= k < |assets| ==> assets[k].AStr?) ==> TextOf(frag) == Joined(assets)
      ensures at.None? ==> env.body == old(env.body)
      ensures at.Some? ==> env.body == ReplaceAt(old(env.body), at.value, frag)
      ensures forall b :: b in env.Blocks() ==> Grows(old(b.fired), b.fired)
      ensures forall b :: b in env.Blocks() ==>
        EndsWith(b.fired, Repeat(Mounted, MountsFor(BlockTokens(assets, env.instances.Keys), b.uid, env.body)))
      ensures fuel > 0 ==> forall k :: 0 <= k < |assets| && assets[k].ABlock? && old(MountsIn(env, assets[k].uid)) ==>
        CountF(frag, assets[k].uid) >= 1
      ensures NativeOf(env) == PartsL(env.Snap(), old(env.body), uid, props, assets, fuel, old(NativeOf(env)))
      decreases fuel, 2, 0, 0
    {
      var blocks;
      frag, blocks := ResolveFragment(env, assets, fuel);
      label resolved:
      if at.Some? {
        env.body := ReplaceAt(env.body, at.value, frag);
      }
      ghost var c := env.Snap();
      assert c == old@resolved(env.Snap());
      MountLive(env, blocks);
      forall b | b in env.Blocks()
        ensures Grows(old(b.fired), b.fired)
      {
        GrowsTrans(old(b.fired), old@resolved(b.fired), b.fired);
      }
      assert env.Snap() == c;
    }

    /** The fragment `replaceNode` builds: the assets resolved in order and
        adjacent texts merged, with the tokens of the component assets. */
    method ResolveFragment(env: Env, assets: seq<Asset>, fuel: nat) returns (frag: seq<Node>, blocks: seq<string>)
      requires env.Valid() && env.Has(this)
      modifies env`body, env`listeners, env.Blocks()`fired, env.Blocks()`nativeEvents, env.Blocks()`element
      ensures frag == FragmentF(env.Snap(), props, assets, fuel)
      ensures Normalized(frag)
      ensures env.body == old(env.body)
      ensures forall b :: b in env.Blocks() ==> Grows(old(b.fired), b.fired)
      ensures blocks == BlockTokens(assets, env.instances.Keys)
      ensures (forall k :: 0 <= k < |assets| ==> assets[k].AStr?) ==> TextOf(frag) == Joined(assets)
      ensures fuel > 0 ==> forall k :: 0 <= k < |assets| && assets[k].ABlock? && old(MountsIn(env, assets[k].uid)) ==>
        CountF(frag, assets[k].uid) >= 1
      ensures NativeOf(env) == PartsL(env.Snap(), env.body, uid, props, assets, fuel, old(NativeOf(env)))
      decreases fuel, 1, 1, 0
    {
      var parts;
      parts, blocks := ResolveAll(env, assets, fuel);
      frag := Normalize(parts);
      NormalizeKeepsText(parts);
      forall u {
        NormalizeKeepsMarkers(parts, u);
      }
    }

    /** The loop of `replaceNode`: resolve the assets in order into one
        sequence of nodes and list the component assets. */
    method ResolveAll(env: Env, assets: seq<Asset>, fuel: nat) returns (parts: seq<Node>, blocks: seq<string>)
      requires env.Valid() && env.Has(this)
      modifies env`body, env`listeners, env.Blocks()`fired, env.Blocks()`nativeEvents, env.Blocks()`element
      ensures env.body == old(env.body)
      ensures forall b :: b in env.Blocks() ==> Grows(old(b.fired), b.fired)
      ensures parts == PartsF(env.Snap(), props, assets, fuel)
      ensures blocks == BlockTokens(assets, env.instances.Keys)
      ensures (forall k :: 0 <= k < |assets| ==> assets[k].AStr?) ==> TextOf(parts) == Joined(assets)
      ensures fuel > 0 ==> forall k :: 0 <= k < |assets| && assets[k].ABlock? && old(MountsIn(env, assets[k].uid)) ==>
        CountF(parts, assets[k].uid) >= 1
      ensures NativeOf(env) == PartsL(env.Snap(), env.body, uid, props, assets, fuel, old(NativeOf(env)))
      decreases fuel, 1, 0, 0
    {
      ghost var live := LiveNow(env);
      ghost var c := env.Snap();
      parts := [];
      blocks := [];
      for k := 0 to |assets|
        invariant env.Snap() == c
        invariant parts == PartsF(c, props, assets[..k], fuel)
        invariant NativeOf(env) == PartsL(c, old(env.body), uid, props, assets[..k], fuel, old(NativeOf(env)))
        invariant env.body == old(env.body)
        invariant forall b :: b in env.Blocks() ==> Grows(old(b.fired), b.fired)
        invariant LiveSet(env, live)
        invariant blocks == BlockTokens(assets[..k], env.instances.Keys)
        invariant (forall j :: 0 <= j < k ==> assets[j].AStr?) ==> TextOf(parts) == Joined(assets[..k])
        invariant fuel > 0 ==> forall j :: 0 <= j < k && assets[j].ABlock? && assets[j].uid in live ==>
          CountF(parts, assets[j].uid) >= 1
      {
        assert assets[..k + 1][..k] == assets[..k] && assets[..k + 1][k] == assets[k];
        label step:
        parts, blocks := ResolveInto(env, assets, k, parts, blocks, fuel, live);
        forall b | b in env.Blocks()
          ensures Grows(old(b.fired), b.fired)
        {
          GrowsTrans(old(b.fired), old@step(b.fired), b.fired);
        }
      }
      assert assets[..|assets|] == assets;
    }

    /** Component `u` is registered, and resolving it as an asset of this
        component leaves a node carrying its marker. */
    ghost predicate MountsIn(env: Env, u: string)
      reads this`props, env`instances, env.Blocks()`props
    {
      u in env.instances && Mountable(env.resolve, props, env.instances[u], env.instances[u].props)
    }

    /** The tokens in `live` are exactly those of `MountsIn`. */
    ghost predicate LiveSet(env: Env, live: set<string>)
      reads this`props, env`instances, env.Blocks()`props
    {
      forall u :: u in live <==> MountsIn(env, u)
    }

    ghost method LiveNow(env: Env) returns (live: set<string>)
      ensures LiveSet(env, live)
    {
      live := set u | u in env.instances && MountsIn(env, u);
    }

    /** One iteration of the loop of `replaceNode`: list asset `a` if it is
        a registered component, then append what it resolves to. */
    method ResolveInto(env: Env, assets: seq<Asset>, k: nat, parts: seq<Node>, blocks: seq<string>, fuel: nat,
                       ghost live: set<string>)
      returns (parts': seq<Node>, blocks': seq<string>)
      requires env.Valid() && env.Has(this) && k < |assets| && LiveSet(env, live)
      requires blocks == BlockTokens(assets[..k], env.instances.Keys)
      requires (forall j :: 0 <= j < k ==> assets[j].AStr?) ==> TextOf(parts) == Joined(assets[..k])
      requires fuel > 0 ==> forall j :: 0 <= j < k && assets[j].ABlock? && assets[j].uid in live ==>
        CountF(parts, assets[j].uid) >= 1
      modifies env`body, env`listeners, env.Blocks()`fired, env.Blocks()`nativeEvents, env.Blocks()`element
      ensures env.body == old(env.body) && LiveSet(env, live)
      ensures forall b :: b in env.Blocks() ==> Grows(old(b.fired), b.fired)
      ensures parts' == parts + NodeF(env.Snap(), props, assets[k], fuel)
      ensures env.Snap() == old(env.Snap())
      ensures blocks' == BlockTokens(assets[..k + 1], env.instances.Keys)
      ensures (forall j :: 0 <= j < k + 1 ==> assets[j].AStr?) ==> TextOf(parts') == Joined(assets[..k + 1])
      ensures fuel > 0 ==> forall j :: 0 <= j < k + 1 && assets[j].ABlock? && assets[j].uid in live ==>
        CountF(parts', assets[j].uid) >= 1
      ensures NativeOf(env) == NodeL(env.Snap(), env.body, uid, props, assets[k], fuel, old(NativeOf(env)))
      decreases fuel, 0, 0, 1
    {
      var a := assets[k];
      assert assets[..k + 1][..k] == assets[..k] && assets[..k + 1][k] == a;
      blocks' := blocks;
      if a.ABlock? && a.uid in env.instances {
        blocks' := blocks + [a.uid];
      }
      var elem := ResolveNode(env, a, fuel);
      TextOfConcat(parts, elem);
      parts' := parts + elem;
      if a.AStr? {
        assert TextOf(elem) == a.s;
      }
      if fuel > 0 {
        forall j | 0 <= j < k + 1 && assets[j].ABlock? && assets[j].uid in live
          ensures CountF(parts', assets[j].uid) >= 1
        {
          CountConcat(parts, elem, assets[j].uid);
          if j == k {
            assert CountF(elem, a.uid) >= 1;
          }
        }
      }
    }

    /** `traverseText`: a text that resolves to itself is left alone;
        otherwise it is replaced by its resolution. */
    method TraverseText(env: Env, t: string, fuel: nat) returns (frag: seq<Node>)
      requires env.Valid() && env.Has(this)
      modifies env`body, env`listeners, env.Blocks()`fired, env.Blocks()`nativeEvents, env.Blocks()`element
      ensures env.body == old(env.body)
      ensures forall b :: b in env.Blocks() ==> Grows(old(b.fired), b.fired)
      ensures StaticText(env.resolve(props, t), t) ==>
        frag == [Text(t)] && env.listeners == old(env.listeners) &&
        forall b :: b in env.Blocks() ==> b.fired == old(b.fired) && b.nativeEvents == old(b.nativeEvents)
      ensures !StaticText(env.resolve(props, t), t) ==>
        frag == FragmentF(env.Snap(), props, env.resolve(props, t), fuel) && Normalized(frag)
      ensures StaticText(env.resolve(props, t), t) ==> NativeOf(env) == old(NativeOf(env))
      ensures !StaticText(env.resolve(props, t), t) ==>
        NativeOf(env) == PartsL(env.Snap(), env.body, uid, props, env.resolve(props, t), fuel, old(NativeOf(env)))
      decreases fuel, 3, 0, 0
    {
      var assets := env.resolve(props, t);
      if |assets| == 1 && assets[0] == AStr(t) {
        frag := [Text(t)];
      } else {
        frag := ReplaceNode(env, None, assets, fuel);
      }
    }

    /** `traverseChildren`: walks the children from the last to the first
        (see `TraverseChild` for one child); the nodes a child turns into
        take its place. */
    method TraverseChildren(env: Env, nodes: seq<Node>, inElement: bool, fuel: nat) returns (r: seq<Node>)
      requires env.Valid() && env.Has(this)
      modifies env`body, env`listeners, env.Blocks()`fired, env.Blocks()`nativeEvents, env.Blocks()`element
      ensures env.body == old(env.body)
      ensures forall b :: b in env.Blocks() ==> Grows(old(b.fired), b.fired)
      ensures r == WalkF(env.Snap(), props, nodes, inElement, fuel)
      ensures StaticF(nodes, inElement, props, env.resolve) ==> r == nodes
      ensures !inElement ==> (|r| == |nodes| &&
        forall i :: 0 <= i < |nodes| ==> SameTop(nodes[i], r[i], props, env.resolve))
      ensures NativeOf(env) == WalkL(env.Snap(), env.body, uid, props, nodes, inElement, fuel, old(NativeOf(env)))
      ensures StaticF(nodes, inElement, props, env.resolve) ==> NativeOf(env) == old(NativeOf(env))
      decreases fuel, 4, SizeF(nodes), 3
    {
      r := WalkChildren(env, nodes, inElement, fuel);
      ghost var c := env.Snap();
      if StaticF(nodes, inElement, props, c.resolve) {
        WalkStatic(c, props, nodes, inElement, fuel);
        WalkStaticL(c, env.body, uid, props, nodes, inElement, fuel, old(NativeOf(env)));
      }
      if !inElement {
        WalkTop(c, props, nodes, fuel);
      }
    }

    /** The loop of `traverseChildren`: the nodes are walked from the last
        to the first, each replaced in place by what its walk gives. */
    method WalkChildren(env: Env, nodes: seq<Node>, inElement: bool, fuel: nat) returns (r: seq<Node>)
      requires env.Valid() && env.Has(this)
      modifies env`body, env`listeners, env.Blocks()`fired, env.Blocks()`nativeEvents, env.Blocks()`element
      ensures env.body == old(env.body)
      ensures forall b :: b in env.Blocks() ==> Grows(old(b.fired), b.fired)
      ensures r == WalkF(env.Snap(), props, nodes, inElement, fuel)
      ensures NativeOf(env) == WalkL(env.Snap(), env.body, uid, props, nodes, inElement, fuel, old(NativeOf(env)))
      decreases fuel, 4, SizeF(nodes), 2
    {
      ghost var c := env.Snap();
      var p := props;
      r := nodes;
      var i := |nodes|;
      while i > 0
        invariant 0 <= i <= |nodes|
        invariant env.Snap() == c
        invariant r == nodes[..i] + WalkF(c, p, nodes[i..], inElement, fuel)
        invariant NativeOf(env) == WalkL(c, old(env.body), uid, p, nodes[i..], inElement, fuel, old(NativeOf(env)))
        invariant env.body == old(env.body)
        invariant forall b :: b in env.Blocks() ==> Grows(old(b.fired), b.fired)
      {
        i := i - 1;
        SizeBound(nodes, i);
        ghost var r0 := r;
        label step:
        var out := TraverseChild(env, nodes[i], inElement, fuel);
        forall b | b in env.Blocks()
          ensures Grows(old(b.fired), b.fired)
        {
          GrowsTrans(old(b.fired), old@step(b.fired), b.fired);
        }
        r := r[..i] + out + r[i + 1..];
        WalkSplice(c, p, nodes, inElement, fuel, i, r0, out, r);
        WalkLStep(c, env.body, uid, p, nodes, inElement, fuel, i, old(NativeOf(env)));
      }
      assert nodes[..0] == [] && nodes[0..] == nodes;
    }

    /** The body of the child walk for one child `n`: an element gets its
        attributes and then its own children walked; a text is walked only
        directly inside an element other than SCRIPT (`inElement`);
        anything else stays. */
    method TraverseChild(env: Env, n: Node, inElement: bool, fuel: nat) returns (out: seq<Node>)
      requires env.Valid() && env.Has(this)
      modifies env`body, env`listeners, env.Blocks()`fired, env.Blocks()`nativeEvents, env.Blocks()`element
      ensures env.body == old(env.body)
      ensures forall b :: b in env.Blocks() ==> Grows(old(b.fired), b.fired)
      ensures out == ChildF(env.Snap(), props, n, inElement, fuel)
      ensures env.Snap() == old(env.Snap())
      ensures StaticN(n, inElement, props, env.resolve) ==> out == [n]
      ensures n.Element? ==> |out| == 1 && SameTop(n, out[0], props, env.resolve)
      ensures !n.Element? && !inElement ==> out == [n]
      ensures NativeOf(env) == ChildL(env.Snap(), env.body, uid, props, n, inElement, fuel, old(NativeOf(env)))
      decreases fuel, 4, SizeN(n), 1
    {
      out := [n];
      match n
      case Element(_, _, _, _) =>
        var m := TraverseElement(env, n, fuel);
        out := [m];
      case Text(t) =>
        if inElement {
          out := TraverseText(env, t, fuel);
        }
      case Comment(_) =>
    }

    /** An element: its attributes are walked, then its own children. */
    method TraverseElement(env: Env, n: Node, fuel: nat) returns (m: Node)
      requires env.Valid() && env.Has(this) && n.Element?
      modifies env`body, env`listeners, env.Blocks()`fired, env.Blocks()`nativeEvents, env.Blocks()`element
      ensures env.body == old(env.body)
      ensures forall b :: b in env.Blocks() ==> Grows(old(b.fired), b.fired)
      ensures m == Element(n.id, n.tag, ResolvedAttrs(n.attrs, props, env.resolve),
                           WalkF(env.Snap(), props, n.children, n.tag != "SCRIPT", fuel))
      ensures StaticN(n, true, props, env.resolve) ==> m == n
      ensures SameTop(n, m, props, env.resolve)
      ensures NativeOf(env) == WalkL(env.Snap(), env.body, uid, props, n.children, n.tag != "SCRIPT", fuel,
        AttachL(old(NativeOf(env)), uid, AttachedBy(n.attrs, props, env.resolve, n.id)))
      decreases fuel, 4, SizeN(n), 0
    {
      ghost var st0 := NativeOf(env);
      var attrs' := TraverseAttributes(env, n.id, n.attrs);
      LogsUpdated(env, this, st0.logs);
      assert NativeOf(env) == AttachL(st0, uid, AttachedBy(n.attrs, props, env.resolve, n.id));
      label walked:
      var children' := TraverseChildren(env, n.children, n.tag != "SCRIPT", fuel);
      forall b | b in env.Blocks() ensures Grows(old(b.fired), b.fired)
      {
        GrowsTrans(old(b.fired), old@walked(b.fired), b.fired);
      }
      if StaticN(n, true, props, env.resolve) {
        StaticAttrsUntouched(n.attrs, props, env.resolve, n.id);
      }
      m := Element(n.id, n.tag, attrs', children');
    }

    /** `replaceMultipleNodes`: every node of the document marked `sel`
        except the first (document order) is removed, from the last one
        backwards, and the first is replaced by the resolution of the
        assets. Without a marked node nothing happens. */
    method ReplaceMultipleNodes(env: Env, sel: string, assets: seq<Asset>, fuel: nat) returns (frag: seq<Node>)
      requires env.Valid() && env.Has(this)
      modifies env`body, env`listeners, env.Blocks()`fired, env.Blocks()`nativeEvents, env.Blocks()`element
      ensures forall b :: b in env.Blocks() ==> Grows(old(b.fired), b.fired)
      ensures Marked(old(env.body), sel) == [] ==>
        frag == [] && env.body == old(env.body) && env.listeners == old(env.listeners) &&
        forall b :: b in env.Blocks() ==>
          b.fired == old(b.fired) && b.nativeEvents == old(b.nativeEvents) && b.element == old(b.element)
      ensures Marked(old(env.body), sel) != [] ==> frag == FragmentF(env.Snap(), props, assets, fuel)
      ensures Marked(old(env.body), sel) != [] ==>
        var first := Marked(old(env.body), sel)[0];
        ValidPath(KeepFirstMarked(old(env.body), sel), first) &&
        env.body == ReplaceAt(KeepFirstMarked(old(env.body), sel), first, frag) &&
        CountF(env.body, sel) == CountF(frag, sel)
      ensures Marked(old(env.body), sel) != [] ==> Normalized(frag)
      ensures Marked(old(env.body), sel) != [] && fuel > 0 ==>
        forall k :: 0 <= k < |assets| && assets[k].ABlock? && old(MountsIn(env, assets[k].uid)) ==>
          CountF(frag, assets[k].uid) >= 1
      ensures Marked(old(env.body), sel) != [] ==> forall b :: b in env.Blocks() ==>
        EndsWith(b.fired, Repeat(Mounted, MountsFor(BlockTokens(assets, env.instances.Keys), b.uid, env.body)))
      ensures Marked(old(env.body), sel) != [] ==>
        NativeOf(env) == PartsL(env.Snap(), KeepFirstMarked(old(env.body), sel), uid, props, assets, fuel, old(NativeOf(env)))
    {
      frag := [];
      if Marked(env.body, sel) != [] {
        frag := ReplaceMarked(env, sel, assets, fuel);
      }
    }

    /** `replaceMultipleNodes` when the selector matches: every match but
        the first is removed, and the first is replaced. */
    method ReplaceMarked(env: Env, sel: string, assets: seq<Asset>, fuel: nat) returns (frag: seq<Node>)
      requires env.Valid() && env.Has(this) && Marked(env.body, sel) != []
      modifies env`body, env`listeners, env.Blocks()`fired, env.Blocks()`nativeEvents, env.Blocks()`element
      ensures forall b :: b in env.Blocks() ==> Grows(old(b.fired), b.fired)
      ensures frag == FragmentF(env.Snap(), props, assets, fuel)
      ensures var first := Marked(old(env.body), sel)[0];
        ValidPath(KeepFirstMarked(old(env.body), sel), first) &&
        env.body == ReplaceAt(KeepFirstMarked(old(env.body), sel), first, frag) &&
        CountF(env.body, sel) == CountF(frag, sel)
      ensures Normalized(frag)
      ensures fuel > 0 ==>
        forall k :: 0 <= k < |assets| && assets[k].ABlock? && old(MountsIn(env, assets[k].uid)) ==>
          CountF(frag, assets[k].uid) >= 1
      ensures forall b :: b in env.Blocks() ==>
        EndsWith(b.fired, Repeat(Mounted, MountsFor(BlockTokens(assets, env.instances.Keys), b.uid, env.body)))
      ensures NativeOf(env) == PartsL(env.Snap(), KeepFirstMarked(old(env.body), sel), uid, props, assets, fuel, old(NativeOf(env)))
    {
      ghost var live := LiveNow(env);
      ghost var st0 := NativeOf(env);
      var first := RemoveDuplicates(env, sel);
      assert LiveSet(env, live);
      ghost var kept := env.body;
      assert NativeOf(env) == st0 && kept == KeepFirstMarked(old(env.body), sel);
      label removed:
      frag := ReplaceNode(env, Some(first), assets, fuel);
      assert NativeOf(env) == PartsL(env.Snap(), kept, uid, props, assets, fuel, st0);
      ReplaceSoleMarked(kept, first, frag, sel);
      forall b | b in env.Blocks()
        ensures Grows(old(b.fired), b.fired)
      {
        assert old(b.fired) == old@removed(b.fired);
      }
    }

    /** The loop of `replaceMultipleNodes`: the marked nodes are removed from
        the last one (document order) back to the second; the first one is
        left where it was, as the only marked node. */
    method RemoveDuplicates(env: Env, sel: string) returns (first: Path)
      requires Marked(env.body, sel) != []
      modifies env`body
      ensures first == Marked(old(env.body), sel)[0]
      ensures env.body == KeepFirstMarked(old(env.body), sel)
      ensures Marked(env.body, sel) == [first]
    {
      var ps := Marked(env.body, sel);
      var i := |ps| - 1;
      while i > 0
        invariant 0 <= i < |ps|
        invariant Marked(env.body, sel) == ps[..i + 1]
        invariant KeepFirstMarked(env.body, sel) == KeepFirstMarked(old(env.body), sel)
      {
        DropLastMarked(env.body, sel, ps, i);
        env.body := RemoveAt(env.body, ps[i]);
        i := i - 1;
      }
      first := ps[0];
      assert Marked(env.body, sel) == [first];
    }

    /** `fire('updated')`: the handler puts a fresh build of this component
        in place of its nodes in the document. */
    method FireUpdated(env: Env, fuel: nat)
      requires env.Valid() && env.Has(this)
      modifies env`body, env`listeners, env.Blocks()`fired, env.Blocks()`nativeEvents, env.Blocks()`element
      ensures old(fired) + [Updated] <= fired
      ensures Updates(fired) == Updates(old(fired)) + 1
      ensures forall b :: b in env.Blocks() && b != this ==> Grows(old(b.fired), b.fired)
      ensures Marked(old(env.body), uid) == [] ==>
        env.body == old(env.body) && fired == old(fired) + [Updated] && env.listeners == old(env.listeners) &&
        forall b :: b in env.Blocks() ==>
          b.nativeEvents == old(b.nativeEvents) && b.element == old(b.element) && (b != this ==> b.fired == old(b.fired))
      ensures Marked(old(env.body), uid) != [] ==>
        var first := Marked(old(env.body), uid)[0];
        var frag := FragmentF(env.Snap(), props, [ABlock(uid)], fuel);
        ValidPath(KeepFirstMarked(old(env.body), uid), first) && Normalized(frag) &&
        env.body == ReplaceAt(KeepFirstMarked(old(env.body), uid), first, frag) &&
        CountF(env.body, uid) == CountF(frag, uid) &&
        (fuel > 0 ==>
           Heads(frag) == ResolveHeads(ResolveHeads(MarkHeads(Heads(render(props)), uid), props, env.resolve), props, env.resolve))
      ensures Marked(old(env.body), uid) != [] && fuel > 0 && old(MountsIn(env, uid)) ==>
        CountF(env.body, uid) >= 1 && fired[|fired| - 1] == Mounted
      ensures Marked(old(env.body), uid) != [] ==>
        NativeOf(env) == PartsL(env.Snap(), KeepFirstMarked(old(env.body), uid), uid, props, [ABlock(uid)], fuel, old(NativeOf(env)))
    {
      ghost var mounts := MountsIn(env, uid);
      ghost var st0 := NativeOf(env);
      var logged := fired + [Updated];
      UpdatesSnoc(fired, Updated);
      fired := logged;
      assert NativeOf(env) == st0;
      assert mounts == MountsIn(env, uid);
      assert this in env.Blocks();
      SoleToken(uid, env.instances.Keys);
      var frag := ReplaceMultipleNodes(env, uid, [ABlock(uid)], fuel);
      assert Grows(logged, fired);
      if Marked(old(env.body), uid) != [] {
        if fuel > 0 {
          assert env.Snap().comps[uid] == Comp(render, props);
          UpdatedHeads(env.Snap(), uid, fuel);
        }
        if fuel > 0 && mounts {
          assert [ABlock(uid)][0].uid == uid;
          SelfMounted(env.body, frag, uid, fired);
        }
      }
    }

    /** `setProps`: unless `objIntersect` reports the patch as already
        applied, the patch is merged into the props (its keys take its
        values, the others keep theirs) and `updated` is fired. */
    method SetProps(env: Env, patch: Props, fuel: nat)
      requires env.Valid() && env.Has(this)
      modifies this`props, env`body, env`listeners, env.Blocks()`fired, env.Blocks()`nativeEvents, env.Blocks()`element
      ensures env.objIntersect(old(props), patch) ==>
        props == old(props) && env.body == old(env.body) && env.listeners == old(env.listeners) &&
        forall b :: b in env.Blocks() ==>
          b.fired == old(b.fired) && b.nativeEvents == old(b.nativeEvents) && b.element == old(b.element)
      ensures !env.objIntersect(old(props), patch) ==>
        (forall k :: k in patch ==> k in props && props[k] == patch[k]) &&
        (forall k :: k in old(props) && k !in patch ==> k in props && props[k] == old(props)[k]) &&
        props.Keys == old(props).Keys + patch.Keys && props == old(props) + patch &&
        old(fired) + [Updated] <= fired && Updates(fired) == Updates(old(fired)) + 1
      ensures forall b :: b in env.Blocks() && b != this ==> Grows(old(b.fired), b.fired)
      ensures !env.objIntersect(old(props), patch) && Marked(old(env.body), uid) == [] ==>
        env.body == old(env.body) && fired == old(fired) + [Updated] && env.listeners == old(env.listeners) &&
        forall b :: b in env.Blocks() ==>
          b.nativeEvents == old(b.nativeEvents) && b.element == old(b.element) && (b != this ==> b.fired == old(b.fired))
      ensures !env.objIntersect(old(props), patch) && Marked(old(env.body), uid) != [] ==>
        var first := Marked(old(env.body), uid)[0];
        var frag := FragmentF(env.Snap(), props, [ABlock(uid)], fuel);
        ValidPath(KeepFirstMarked(old(env.body), uid), first) && Normalized(frag) &&
        env.body == ReplaceAt(KeepFirstMarked(old(env.body), uid), first, frag) &&
        CountF(env.body, uid) == CountF(frag, uid) &&
        (fuel > 0 ==>
           Heads(frag) == ResolveHeads(ResolveHeads(MarkHeads(Heads(render(props)), uid), props, env.resolve), props, env.resolve))
      ensures !env.objIntersect(old(props), patch) && Marked(old(env.body), uid) != [] ==>
        NativeOf(env) == PartsL(env.Snap(), KeepFirstMarked(old(env.body), uid), uid, props, [ABlock(uid)], fuel, old(NativeOf(env)))
    {
      if !env.objIntersect(props, patch) {
        ghost var st0 := NativeOf(env);
        props := props + patch;
        assert NativeOf(env) == st0;
        FireUpdated(env, fuel);
      }
    }

    /** `refresh`: fire `updated` unconditionally. */
    method Refresh(env: Env, fuel: nat)
      requires env.Valid() && env.Has(this)
      modifies env`body, env`listeners, env.Blocks()`fired, env.Blocks()`nativeEvents, env.Blocks()`element
      ensures old(fired) + [Updated] <= fired
      ensures Updates(fired) == Updates(old(fired)) + 1
      ensures forall b :: b in env.Blocks() && b != this ==> Grows(old(b.fired), b.fired)
      ensures Marked(old(env.body), uid) == [] ==>
        env.body == old(env.body) && fired == old(fired) + [Updated] && env.listeners == old(env.listeners) &&
        forall b :: b in env.Blocks() ==>
          b.nativeEvents == old(b.nativeEvents) && b.element == old(b.element) && (b != this ==> b.fired == old(b.fired))
      ensures Marked(old(env.body), uid) != [] ==>
        var first := Marked(old(env.body), uid)[0];
        var frag := FragmentF(env.Snap(), props, [ABlock(uid)], fuel);
        ValidPath(KeepFirstMarked(old(env.body), uid), first) && Normalized(frag) &&
        env.body == ReplaceAt(KeepFirstMarked(old(env.body), uid), first, frag) &&
        CountF(env.body, uid) == CountF(frag, uid) &&
        (fuel > 0 ==>
           Heads(frag) == ResolveHeads(ResolveHeads(MarkHeads(Heads(render(props)), uid), props, env.resolve), props, env.resolve))
      ensures Marked(old(env.body), uid) != [] && fuel > 0 && old(MountsIn(env, uid)) ==>
        CountF(env.body, uid) >= 1 && fired[|fired| - 1] == Mounted
      ensures Marked(old(env.body), uid) != [] ==>
        NativeOf(env) == PartsL(env.Snap(), KeepFirstMarked(old(env.body), uid), uid, props, [ABlock(uid)], fuel, old(NativeOf(env)))
    {
      FireUpdated(env, fuel);
    }

    /** The mount step of `replaceNode`: fire `mounted` on each block asset
        that has a node in the document. */
    method MountLive(env: Env, us: seq<string>)
      requires env.Valid()
      requires forall u :: u in us ==> u in env.instances
      modifies env.Blocks()`fired
      ensures forall b :: b in env.Blocks() ==>
        b.fired == old(b.fired) + Repeat(Mounted, MountsFor(us, b.uid, env.body))
      ensures forall b :: b in env.Blocks() ==> Grows(old(b.fired), b.fired)
      ensures forall b :: b in env.Blocks() ==> EndsWith(b.fired, Repeat(Mounted, MountsFor(us, b.uid, env.body)))
      ensures env.Snap() == old(env.Snap())
    {
      for k := 0 to |us|
        invariant forall b :: b in env.Blocks() ==>
          b.fired == old(b.fired) + Repeat(Mounted, MountsFor(us[..k], b.uid, env.body))
      {
        MountsSnoc(us, k, env.body);
        var u := us[k];
        if CountF(env.body, u) > 0 {
          assert u in us;
          var b := env.instances[u];
          b.FireLogged(Mounted);
        }
      }
      assert us[..|us|] == us;
      forall b | b in env.Blocks()
        ensures Grows(old(b.fired), b.fired)
        ensures EndsWith(b.fired, Repeat(Mounted, MountsFor(us, b.uid, env.body)))
      {
        MountedGrows(old(b.fired), MountsFor(us, b.uid, env.body));
        AppendEndsWith(old(b.fired), Repeat(Mounted, MountsFor(us, b.uid, env.body)));
      }
    }
  }
}
