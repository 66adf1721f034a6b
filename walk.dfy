/** The tree walk of a component, and everything it resolves on the way, as
    functions of what the walk reads: the template engine, the renderers
    that function placeholders stand for, and the registered components with
    their props. None of these change while a walk runs, so the nodes a walk
    produces are a function of them; the runtime's methods are proved to
    produce exactly these nodes. `fuel` bounds the nesting of resolved
    placeholders in the same way as in the runtime. */
module Walks {
  import opened Values
  import opened Dom
  import opened Templates

  /** A registered component as a walk sees it: its render function and its
      current props. */
  datatype Comp = Comp(render: Props -> seq<Node>, props: Props)

  /** What a walk reads. */
  datatype Ctx = Ctx(resolve: Resolver, call: FnId -> seq<Node>, comps: map<string, Comp>)

  /** The node a build callback produces: when a token is given, a top-level
      element gets the marker attribute set to it; anything else passes
      through. */
  function MarkTop(n: Node, tag: Option<string>): (m: Node)
    ensures m.Element? <==> n.Element?
    ensures tag.Some? && n.Element? ==>
      Tagged(m, tag.value) && m.id == n.id && m.tag == n.tag && m.children == n.children &&
      forall name :: name != Marker ==> GetAttr(m.attrs, name) == GetAttr(n.attrs, name)
    ensures !(tag.Some? && n.Element?) ==> m == n
  {
    if tag.Some? && n.Element? then n.(attrs := SetAttr(n.attrs, Marker, tag.value)) else n
  }

  /** The build callback applied to every top-level node. */
  function MarkAll(f: seq<Node>, tag: Option<string>): seq<Node> {
    seq(|f|, i requires 0 <= i < |f| => MarkTop(f[i], tag))
  }

  /** How a top-level node comes out of a walk that does not visit top-level
      text: an element keeps its identity and tag and gets its attributes
      resolved; text and comments are untouched. */
  predicate SameTop(n: Node, m: Node, props: Props, resolve: Resolver) {
    if n.Element? then
      m.Element? && m.id == n.id && m.tag == n.tag && m.attrs == ResolvedAttrs(n.attrs, props, resolve)
    else m == n
  }

  // ---------------------------------------------------------------------
  // The walk

  /** `traverseChildren` of a forest in the context of a component with
      props `p`: every node is replaced by what `ChildF` makes of it.
      `inElement` says whether the forest is the children of an element
      other than SCRIPT. */
  function WalkF(c: Ctx, p: Props, nodes: seq<Node>, inElement: bool, fuel: nat): seq<Node>
    decreases fuel, 4, SizeF(nodes), 2
  {
    if nodes == [] then []
    else ChildF(c, p, nodes[0], inElement, fuel) + WalkF(c, p, nodes[1..], inElement, fuel)
  }

  /** One node of the walk: an element gets its attributes resolved and its
      children walked; a text inside an element other than SCRIPT that does
      not resolve to itself becomes the fragment of its resolution; anything
      else stays. */
  function ChildF(c: Ctx, p: Props, n: Node, inElement: bool, fuel: nat): seq<Node>
    decreases fuel, 4, SizeN(n), 1
  {
    match n
    case Element(id, tag, attrs, children) =>
      [Element(id, tag, ResolvedAttrs(attrs, p, c.resolve), WalkF(c, p, children, tag != "SCRIPT", fuel))]
    case Text(t) =>
      if inElement && !StaticText(c.resolve(p, t), t) then FragmentF(c, p, c.resolve(p, t), fuel) else [n]
    case Comment(_) => [n]
  }

  /** The fragment `replaceNode` puts in place of a node: the assets
      resolved in order, then normalised. */
  function FragmentF(c: Ctx, p: Props, assets: seq<Asset>, fuel: nat): seq<Node>
    decreases fuel, 1, 1, 0
  {
    Normalize(PartsF(c, p, assets, fuel))
  }

  /** The assets resolved in order, before normalisation. */
  function PartsF(c: Ctx, p: Props, assets: seq<Asset>, fuel: nat): seq<Node>
    decreases fuel, 1, 0, |assets|
  {
    if assets == [] then []
    else PartsF(c, p, assets[..|assets| - 1], fuel) + NodeF(c, p, assets[|assets| - 1], fuel)
  }

  /** `resolveNode` of one asset: a string is a text node; a function's
      nodes are walked; a registered component is built and its nodes are
      walked again in the host's context; an element has its children
      walked; anything else, and anything below the nesting bound, is an
      empty text node. */
  function NodeF(c: Ctx, p: Props, a: Asset, fuel: nat): seq<Node>
    decreases fuel, 0, 0, 0
  {
    match a
    case AStr(s) => [Text(s)]
    case AFn(f) =>
      if fuel > 0 then WalkF(c, p, c.call(f), false, fuel - 1) else [Text("")]
    case ABlock(u) =>
      if u in c.comps && fuel > 0 then WalkF(c, p, BuildF(c, u, fuel - 1), false, fuel - 1) else [Text("")]
    case ANode(n) =>
      if n.Element? && fuel > 0 then [n.(children := WalkF(c, p, n.children, n.tag != "SCRIPT", fuel - 1))]
      else [Text("")]
    case AOther => [Text("")]
  }

  /** `build` of component `u`: its rendered nodes, top-level elements
      marked with its token, walked in its own context. */
  function BuildF(c: Ctx, u: string, fuel: nat): seq<Node>
    requires u in c.comps
    decreases fuel, 5, 0, 0
  {
    var b := c.comps[u];
    WalkF(c, b.props, MarkAll(b.render(b.props), Some(u)), false, fuel)
  }

  // ---------------------------------------------------------------------
  // What the walk keeps

  /** The walk of a suffix, one node at a time. */
  lemma {:induction false} WalkStep(c: Ctx, p: Props, nodes: seq<Node>, inElement: bool, fuel: nat, i: nat)
    requires i < |nodes|
    ensures WalkF(c, p, nodes[i..], inElement, fuel) ==
      ChildF(c, p, nodes[i], inElement, fuel) + WalkF(c, p, nodes[i + 1..], inElement, fuel)
  {
    assert nodes[i..][0] == nodes[i];
    assert nodes[i..][1..] == nodes[i + 1..];
  }

  /** One step of a loop that walks the nodes from the last to the first:
      the nodes below `i` are untouched and the walked suffix is the walk of
      that suffix. */
  lemma {:induction false} WalkSplice(c: Ctx, p: Props, nodes: seq<Node>, inElement: bool, fuel: nat, i: nat,
                                      r0: seq<Node>, out: seq<Node>, r1: seq<Node>)
    requires i < |nodes|
    requires r0 == nodes[..i + 1] + WalkF(c, p, nodes[i + 1..], inElement, fuel)
    requires out == ChildF(c, p, nodes[i], inElement, fuel)
    requires r1 == r0[..i] + out + r0[i + 1..]
    ensures r1 == nodes[..i] + WalkF(c, p, nodes[i..], inElement, fuel)
  {
    WalkStep(c, p, nodes, inElement, fuel, i);
    assert r0[..i] == nodes[..i];
    assert r0[i + 1..] == WalkF(c, p, nodes[i + 1..], inElement, fuel);
  }

  /** Outside an element every node keeps its place: an element keeps its
      identity and tag and gets its attributes resolved, and text and
      comments stay as they are. */
  lemma {:induction false} WalkTop(c: Ctx, p: Props, nodes: seq<Node>, fuel: nat)
    ensures |WalkF(c, p, nodes, false, fuel)| == |nodes|
    ensures forall i :: 0 <= i < |nodes| ==> SameTop(nodes[i], WalkF(c, p, nodes, false, fuel)[i], p, c.resolve)
  {
    if nodes != [] {
      WalkTop(c, p, nodes[1..], fuel);
      var r := WalkF(c, p, nodes, false, fuel);
      var rest := WalkF(c, p, nodes[1..], false, fuel);
      assert r == ChildF(c, p, nodes[0], false, fuel) + rest;
      forall i | 0 <= i < |nodes|
        ensures SameTop(nodes[i], r[i], p, c.resolve)
      {
        if i > 0 {
          assert r[i] == rest[i - 1] && nodes[i] == nodes[1..][i - 1];
        }
      }
    }
  }

  /** A static forest comes out of the walk unchanged. */
  lemma {:induction false} WalkStatic(c: Ctx, p: Props, nodes: seq<Node>, inElement: bool, fuel: nat)
    requires StaticF(nodes, inElement, p, c.resolve)
    ensures WalkF(c, p, nodes, inElement, fuel) == nodes
    decreases nodes
  {
    if nodes != [] {
      assert StaticN(nodes[0], inElement, p, c.resolve);
      assert StaticF(nodes[1..], inElement, p, c.resolve) by {
        forall i | 0 <= i < |nodes[1..]|
          ensures StaticN(nodes[1..][i], inElement, p, c.resolve)
        {
          assert nodes[1..][i] == nodes[i + 1];
        }
      }
      WalkStatic(c, p, nodes[1..], inElement, fuel);
      assert [nodes[0]] + nodes[1..] == nodes;
      match nodes[0]
      case Element(id, tag, attrs, children) =>
        StaticAttrsUntouched(attrs, p, c.resolve, id);
        WalkStatic(c, p, children, tag != "SCRIPT", fuel);
      case Text(_) =>
      case Comment(_) =>
    }
  }

  // ---------------------------------------------------------------------
  // Elements at any depth

  /** The identity, tag and attributes of every element of a forest, at any
      depth. */
  function ElemsF(f: seq<Node>): set<(NodeId, string, seq<Attr>)>
    decreases f, 1
  {
    if f == [] then {} else ElemsN(f[0]) + ElemsF(f[1..])
  }

  function ElemsN(n: Node): set<(NodeId, string, seq<Attr>)>
    decreases n, 0
  {
    if n.Element? then {(n.id, n.tag, n.attrs)} + ElemsF(n.children) else {}
  }

  lemma {:induction false} ElemsConcat(a: seq<Node>, b: seq<Node>)
    ensures ElemsF(a + b) == ElemsF(a) + ElemsF(b)
    decreases a
  {
    if a == [] {
      assert a + b == b;
    } else {
      assert (a + b)[0] == a[0] && (a + b)[1..] == a[1..] + b;
      ElemsConcat(a[1..], b);
    }
  }

  /** The walk drops no element, at any depth: every element of the forest
      is in the result, with its identity and tag, and with its attributes
      resolved in the walking component's context. */
  lemma {:induction false} WalkKeepsElements(c: Ctx, p: Props, nodes: seq<Node>, inElement: bool, fuel: nat)
    ensures forall e :: e in ElemsF(nodes) ==>
      (e.0, e.1, ResolvedAttrs(e.2, p, c.resolve)) in ElemsF(WalkF(c, p, nodes, inElement, fuel))
    decreases nodes
  {
    if nodes != [] {
      var n := nodes[0];
      var out := ChildF(c, p, n, inElement, fuel);
      var rest := WalkF(c, p, nodes[1..], inElement, fuel);
      WalkKeepsElements(c, p, nodes[1..], inElement, fuel);
      ElemsConcat(out, rest);
      if n.Element? {
        WalkKeepsElements(c, p, n.children, n.tag != "SCRIPT", fuel);
        var m := out[0];
        assert out == [m] && ElemsF(out) == ElemsN(m) + ElemsF([]);
      }
    }
  }

  // ---------------------------------------------------------------------
  // Top-level elements

  /** The identity, tag and attributes of the top-level elements of a
      forest, in order. */
  function Heads(f: seq<Node>): seq<(NodeId, string, seq<Attr>)>
  {
    if f == [] then []
    else (if f[0].Element? then [(f[0].id, f[0].tag, f[0].attrs)] else []) + Heads(f[1..])
  }

  /** Every attribute list resolved in the context `p`. */
  function ResolveHeads(hs: seq<(NodeId, string, seq<Attr>)>, p: Props, resolve: Resolver): seq<(NodeId, string, seq<Attr>)>
  {
    if hs == [] then [] else [(hs[0].0, hs[0].1, ResolvedAttrs(hs[0].2, p, resolve))] + ResolveHeads(hs[1..], p, resolve)
  }

  /** Every attribute list with the marker set to `u`. */
  function MarkHeads(hs: seq<(NodeId, string, seq<Attr>)>, u: string): seq<(NodeId, string, seq<Attr>)>
  {
    if hs == [] then [] else [(hs[0].0, hs[0].1, SetAttr(hs[0].2, Marker, u))] + MarkHeads(hs[1..], u)
  }

  /** Normalisation merges and drops text only: the top-level elements stay,
      in order. */
  lemma {:induction false} NormalizeKeepsHeads(f: seq<Node>)
    ensures Heads(Normalize(f)) == Heads(f)
    decreases f
  {
    if f != [] {
      var rest := Normalize(f[1..]);
      NormalizeKeepsHeads(f[1..]);
      match f[0]
      case Text(s) =>
        if s != "" && rest != [] && rest[0].Text? {
          assert Heads(rest) == Heads(rest[1..]);
          assert ([Text(s + rest[0].text)] + rest[1..])[1..] == rest[1..];
        } else if s != "" {
          assert ([Text(s)] + rest)[1..] == rest;
        }
      case Element(id, tag, attrs, children) =>
        assert ([Element(id, tag, attrs, Normalize(children))] + rest)[1..] == rest;
      case Comment(_) =>
        assert ([f[0]] + rest)[1..] == rest;
    }
  }

  lemma {:induction false} HeadsConcat(a: seq<Node>, b: seq<Node>)
    ensures Heads(a + b) == Heads(a) + Heads(b)
    decreases a
  {
    if a == [] {
      assert a + b == b;
    } else {
      assert (a + b)[0] == a[0] && (a + b)[1..] == a[1..] + b;
      HeadsConcat(a[1..], b);
    }
  }

  lemma {:induction false} ResolveHeadsConcat(a: seq<(NodeId, string, seq<Attr>)>, b: seq<(NodeId, string, seq<Attr>)>,
                                              p: Props, resolve: Resolver)
    ensures ResolveHeads(a + b, p, resolve) == ResolveHeads(a, p, resolve) + ResolveHeads(b, p, resolve)
    decreases a
  {
    if a == [] {
      assert a + b == b;
    } else {
      assert (a + b)[0] == a[0] && (a + b)[1..] == a[1..] + b;
      ResolveHeadsConcat(a[1..], b, p, resolve);
    }
  }

  lemma {:induction false} MarkHeadsConcat(a: seq<(NodeId, string, seq<Attr>)>, b: seq<(NodeId, string, seq<Attr>)>, u: string)
    ensures MarkHeads(a + b, u) == MarkHeads(a, u) + MarkHeads(b, u)
    decreases a
  {
    if a == [] {
      assert a + b == b;
    } else {
      assert (a + b)[0] == a[0] && (a + b)[1..] == a[1..] + b;
      MarkHeadsConcat(a[1..], b, u);
    }
  }

  /** Outside an element the walk keeps the top-level elements, in order,
      and resolves their attributes. */
  lemma {:induction false} WalkHeads(c: Ctx, p: Props, nodes: seq<Node>, fuel: nat)
    ensures Heads(WalkF(c, p, nodes, false, fuel)) == ResolveHeads(Heads(nodes), p, c.resolve)
  {
    if nodes != [] {
      WalkHeads(c, p, nodes[1..], fuel);
      var n := nodes[0];
      var out := ChildF(c, p, n, false, fuel);
      var rest := WalkF(c, p, nodes[1..], false, fuel);
      HeadsConcat(out, rest);
      assert nodes == [n] + nodes[1..];
      HeadsConcat([n], nodes[1..]);
      ResolveHeadsConcat(Heads([n]), Heads(nodes[1..]), p, c.resolve);
      assert [n][1..] == [] && out[1..] == [];
    }
  }

  /** Marking keeps the top-level elements, in order, and sets their
      marker. */
  lemma {:induction false} MarkHeadsAll(f: seq<Node>, u: string)
    ensures Heads(MarkAll(f, Some(u))) == MarkHeads(Heads(f), u)
  {
    if f != [] {
      MarkHeadsAll(f[1..], u);
      var m := MarkAll(f, Some(u));
      assert m[1..] == MarkAll(f[1..], Some(u));
      assert m == [m[0]] + m[1..] && f == [f[0]] + f[1..];
      HeadsConcat([m[0]], m[1..]);
      HeadsConcat([f[0]], f[1..]);
      MarkHeadsConcat(Heads([f[0]]), Heads(f[1..]), u);
      assert [m[0]][1..] == [] && [f[0]][1..] == [];
    }
  }

  /** The fragment `updated` puts in place of component `u`'s nodes: its
      top-level elements are exactly the top-level elements `u` renders,
      in order, each marked with `u`'s token and with its attributes
      resolved twice in `u`'s context (once by the build, once by the walk
      of the resolved asset). */
  lemma {:induction false} UpdatedHeads(c: Ctx, u: string, fuel: nat)
    requires u in c.comps && fuel > 0
    ensures var b := c.comps[u];
      Heads(FragmentF(c, b.props, [ABlock(u)], fuel)) ==
      ResolveHeads(ResolveHeads(MarkHeads(Heads(b.render(b.props)), u), b.props, c.resolve), b.props, c.resolve)
  {
    var b := c.comps[u];
    var built := BuildF(c, u, fuel - 1);
    BlockFragment(c, u, fuel);
    NormalizeKeepsHeads(WalkF(c, b.props, built, false, fuel - 1));
    WalkHeads(c, b.props, built, fuel - 1);
    BuildHeads(c, u, fuel - 1);
  }

  /** The fragment of a lone component placeholder is that component's
      build, walked once more and normalised. */
  lemma {:induction false} BlockFragment(c: Ctx, u: string, fuel: nat)
    requires u in c.comps && fuel > 0
    ensures var b := c.comps[u];
      FragmentF(c, b.props, [ABlock(u)], fuel) == Normalize(WalkF(c, b.props, BuildF(c, u, fuel - 1), false, fuel - 1))
  {
    var b := c.comps[u];
    var walked := WalkF(c, b.props, BuildF(c, u, fuel - 1), false, fuel - 1);
    assert [ABlock(u)][..0] == [];
    assert PartsF(c, b.props, [ABlock(u)], fuel) == [] + walked;
    assert [] + walked == walked;
  }

  /** A build's top-level elements are the rendered ones, marked with the
      token and with their attributes resolved. */
  lemma {:induction false} BuildHeads(c: Ctx, u: string, fuel: nat)
    requires u in c.comps
    ensures var b := c.comps[u];
      Heads(BuildF(c, u, fuel)) == ResolveHeads(MarkHeads(Heads(b.render(b.props)), u), b.props, c.resolve)
  {
    var b := c.comps[u];
    WalkHeads(c, b.props, MarkAll(b.render(b.props), Some(u)), fuel);
    MarkHeadsAll(b.render(b.props), u);
  }

  /** A build keeps every rendered top-level node in place: elements keep
      their identity and tag and carry the token with the attributes
      resolved in the component's context; text and comments stay. */
  lemma {:induction false} BuildTop(c: Ctx, u: string, fuel: nat)
    requires u in c.comps
    ensures var b := c.comps[u]; var r := BuildF(c, u, fuel);
      |r| == |b.render(b.props)| &&
      forall i :: 0 <= i < |r| ==> SameTop(MarkTop(b.render(b.props)[i], Some(u)), r[i], b.props, c.resolve)
  {
    var b := c.comps[u];
    WalkTop(c, b.props, MarkAll(b.render(b.props), Some(u)), fuel);
  }
}
