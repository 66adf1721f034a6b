/** What the template engine hands back for a string, and what the tree walk
    of a component does with one element's attributes, stated as functions
    of the attribute list. The engine itself is a parameter (`Resolver`):
    its source is not part of this model. */
module Templates {
  import opened Values
  import opened Dom

  /** One piece of a resolved string: a literal string, a function value, a
      nested component (by its identity token), a DOM element, or anything
      else. */
  datatype Asset =
    | AStr(s: string)
    | AFn(f: FnId)
    | ABlock(uid: string)
    | ANode(node: Node)
    | AOther

  /** `Templator.resolve` of a component whose props are the first argument. */
  type Resolver = (Props, string) -> seq<Asset>

  /** `attrName.slice(0, 2) === 'on'`. */
  predicate IsEventAttr(name: string) {
    |name| >= 2 && name[..2] == "on"
  }

  /** A text whose resolution is the one-element sequence holding that very
      text: the walk leaves such a text node alone. */
  predicate StaticText(assets: seq<Asset>, t: string) {
    |assets| == 1 && assets[0] == AStr(t)
  }

  /** What the walk does with one attribute. */
  datatype AttrStep =
    | Keep
    | Rewrite(value: string)
    | Attach(eventType: string, callback: FnId)

  /** The decision for one attribute, from what its value resolves to (only
      the first asset matters). */
  function StepOf(a: Attr, assets: seq<Asset>): (s: AttrStep)
    ensures s.Attach? <==> IsEventAttr(a.name) && |assets| > 0 && assets[0].AFn?
    ensures s.Attach? ==> s == Attach(a.name[2..], assets[0].f)
    ensures s.Rewrite? <==> !IsEventAttr(a.name) && |assets| > 0 && assets[0].AStr? && assets[0].s != a.value
    ensures s.Rewrite? ==> s.value == assets[0].s
  {
    if IsEventAttr(a.name) then
      if |assets| > 0 && assets[0].AFn? then Attach(a.name[2..], assets[0].f) else Keep
    else if |assets| > 0 && assets[0].AStr? && assets[0].s != a.value then Rewrite(assets[0].s)
    else Keep
  }

  function Step(a: Attr, props: Props, resolve: Resolver): AttrStep {
    StepOf(a, resolve(props, a.value))
  }

  /** An attribute that the walk turns into a native listener. */
  predicate IsHandler(a: Attr, props: Props, resolve: Resolver) {
    Step(a, props, resolve).Attach?
  }

  /** The value a non-event attribute ends up with: the first asset when it
      is a string, the old value otherwise. */
  function ResolvedValue(v: string, props: Props, resolve: Resolver): string {
    var assets := resolve(props, v);
    if |assets| > 0 && assets[0].AStr? then assets[0].s else v
  }

  /** What one attribute leaves on the element after its step. */
  function AfterStep(a: Attr, s: AttrStep): seq<Attr> {
    match s
    case Keep => [a]
    case Rewrite(v) => [Attr(a.name, v)]
    case Attach(_, _) => []
  }

  /** The listener one step attaches to element `node`, if any. */
  function ListenersOf(s: AttrStep, node: NodeId): seq<Listener> {
    if s.Attach? then [Listener(node, s.eventType, s.callback)] else []
  }

  /** The attribute list after the walk: handlers removed, other attributes
      rewritten where their resolution differs. */
  function ResolvedAttrs(attrs: seq<Attr>, props: Props, resolve: Resolver): (r: seq<Attr>)
    ensures |r| <= |attrs|
    ensures attrs != [] && !IsHandler(attrs[0], props, resolve) ==> r != [] && r[0].name == attrs[0].name
    ensures attrs != [] && IsHandler(attrs[0], props, resolve) ==> |r| < |attrs|
  {
    if attrs == [] then []
    else
      AfterStep(attrs[0], Step(attrs[0], props, resolve)) + ResolvedAttrs(attrs[1..], props, resolve)
  }

  /** The listeners the walk attaches to element `node`, in the order it
      attaches them: the walk goes from the last attribute to the first. */
  function AttachedBy(attrs: seq<Attr>, props: Props, resolve: Resolver, node: NodeId): (r: seq<Listener>)
    ensures |r| <= |attrs|
    ensures attrs != [] && IsHandler(attrs[0], props, resolve) ==>
      var s := Step(attrs[0], props, resolve);
      r != [] && r[|r| - 1] == Listener(node, s.eventType, s.callback)
  {
    if attrs == [] then []
    else
      AttachedBy(attrs[1..], props, resolve, node) + ListenersOf(Step(attrs[0], props, resolve), node)
  }

  /** Every attribute is either stripped into exactly one listener or kept
      (possibly rewritten). */
  lemma {:induction false} AttachedCount(attrs: seq<Attr>, props: Props, resolve: Resolver, node: NodeId)
    ensures |ResolvedAttrs(attrs, props, resolve)| + |AttachedBy(attrs, props, resolve, node)| == |attrs|
  {
    if attrs != [] {
      AttachedCount(attrs[1..], props, resolve, node);
    }
  }

  /** No attribute that resolves to a callback survives the walk. */
  lemma {:induction false} HandlersStripped(attrs: seq<Attr>, props: Props, resolve: Resolver)
    ensures forall a :: a in ResolvedAttrs(attrs, props, resolve) ==> !IsHandler(a, props, resolve)
  {
    if attrs != [] {
      HandlersStripped(attrs[1..], props, resolve);
    }
  }

  /** An `on*` attribute whose value does not resolve to a function is left
      exactly as it was. */
  lemma {:induction false} InertEventAttrsKept(attrs: seq<Attr>, props: Props, resolve: Resolver)
    ensures forall a :: a in attrs && IsEventAttr(a.name) && !IsHandler(a, props, resolve) ==>
      a in ResolvedAttrs(attrs, props, resolve)
  {
    if attrs != [] {
      InertEventAttrsKept(attrs[1..], props, resolve);
    }
  }

  /** A listener is attached exactly for each handler attribute, on the
      walked element, with the event type after the `on` prefix. */
  lemma {:induction false} AttachedAreHandlers(attrs: seq<Attr>, props: Props, resolve: Resolver, node: NodeId, l: Listener)
    ensures l in AttachedBy(attrs, props, resolve, node) <==>
      l.node == node && exists a :: a in attrs && Step(a, props, resolve) == Attach(l.eventType, l.callback)
  {
    if attrs != [] {
      AttachedAreHandlers(attrs[1..], props, resolve, node, l);
      var s := Step(attrs[0], props, resolve);
      if l.node == node && s == Attach(l.eventType, l.callback) {
        assert l in AttachedBy(attrs, props, resolve, node);
      }
      if exists a :: a in attrs[1..] && Step(a, props, resolve) == Attach(l.eventType, l.callback) {
        var a :| a in attrs[1..] && Step(a, props, resolve) == Attach(l.eventType, l.callback);
        assert a in attrs;
      }
    }
  }

  /** A non-event attribute keeps its name; it is looked up as before and
      holds its resolved value. */
  lemma {:induction false} NonEventAttrResolved(attrs: seq<Attr>, props: Props, resolve: Resolver, name: string)
    requires !IsEventAttr(name)
    ensures GetAttr(ResolvedAttrs(attrs, props, resolve), name) ==
      match GetAttr(attrs, name)
      case None => None
      case Some(v) => Some(ResolvedValue(v, props, resolve))
  {
    if attrs != [] {
      NonEventAttrResolved(attrs[1..], props, resolve, name);
      var a := attrs[0];
      var kept := AfterStep(a, Step(a, props, resolve));
      var rest := ResolvedAttrs(attrs[1..], props, resolve);
      assert ResolvedAttrs(attrs, props, resolve) == kept + rest;
      if a.name == name {
        assert kept == [Attr(name, ResolvedValue(a.value, props, resolve))];
        assert GetAttr(attrs, name) == Some(a.value);
      } else {
        assert GetAttr(attrs, name) == GetAttr(attrs[1..], name);
        if kept == [] {
          assert kept + rest == rest;
        } else {
          assert kept[0].name == a.name;
          assert (kept + rest)[0] == kept[0] && (kept + rest)[1..] == rest;
        }
      }
    }
  }

  /** When no attribute resolves to something new, the walk changes nothing
      and attaches nothing. */
  lemma {:induction false} StaticAttrsUntouched(attrs: seq<Attr>, props: Props, resolve: Resolver, node: NodeId)
    requires forall a :: a in attrs ==> Step(a, props, resolve) == Keep
    ensures ResolvedAttrs(attrs, props, resolve) == attrs
    ensures AttachedBy(attrs, props, resolve, node) == []
  {
    if attrs != [] {
      assert attrs[0] in attrs;
      StaticAttrsUntouched(attrs[1..], props, resolve, node);
      assert [attrs[0]] + attrs[1..] == attrs;
    }
  }

  /** A forest the walk leaves unchanged: every attribute is kept as is and
      every text it visits (a text directly inside an element other than
      SCRIPT) is static. */
  predicate StaticF(f: seq<Node>, inElement: bool, props: Props, resolve: Resolver)
    decreases f, 1
  {
    forall i :: 0 <= i < |f| ==> StaticN(f[i], inElement, props, resolve)
  }

  predicate StaticN(n: Node, inElement: bool, props: Props, resolve: Resolver)
    decreases n, 0
  {
    match n
    case Element(_, tag, attrs, children) =>
      (forall a :: a in attrs ==> Step(a, props, resolve) == Keep) &&
      StaticF(children, tag != "SCRIPT", props, resolve)
    case Text(t) => inElement ==> StaticText(resolve(props, t), t)
    case Comment(_) => true
  }
}
