/** An abstract document tree: what the component runtime reads from and
    writes to the browser DOM. Elements carry an identity (so that native
    listeners can name the node they sit on), a tag, an ordered attribute
    list and children; text and comment nodes carry their data. A forest
    `seq<Node>` stands for the children of a container (the document body,
    a fragment, an element). */
module Dom {
  import opened Values

  type NodeId = nat

  datatype Attr = Attr(name: string, value: string)

  datatype Node =
    | Element(id: NodeId, tag: string, attrs: seq<Attr>, children: seq<Node>)
    | Text(text: string)
    | Comment(text: string)

  /** A native listener registered with `addEventListener` on a node. */
  datatype Listener = Listener(node: NodeId, eventType: string, callback: FnId)

  /** The attribute that ties a rendered root node to its component. */
  const Marker: string := "data-blockuid"

  /** `getAttribute(name)`. */
  function GetAttr(attrs: seq<Attr>, name: string): (r: Option<string>)
    ensures r.None? <==> forall i :: 0 <= i < |attrs| ==> attrs[i].name != name
    ensures r.Some? ==> Attr(name, r.value) in attrs
  {
    if attrs == [] then None
    else if attrs[0].name == name then Some(attrs[0].value)
    else GetAttr(attrs[1..], name)
  }

  /** `setAttribute(name, v)`: an existing attribute keeps its place and takes
      the new value; otherwise the attribute is appended. */
  function SetAttr(attrs: seq<Attr>, name: string, v: string): (r: seq<Attr>)
    ensures GetAttr(r, name) == Some(v)
    ensures forall n :: n != name ==> GetAttr(r, n) == GetAttr(attrs, n)
    ensures |r| == if GetAttr(attrs, name).Some? then |attrs| else |attrs| + 1
  {
    if attrs == [] then [Attr(name, v)]
    else if attrs[0].name == name then [Attr(name, v)] + attrs[1..]
    else [attrs[0]] + SetAttr(attrs[1..], name, v)
  }

  /** The node matches the selector `[data-blockuid=uid]`. */
  predicate Tagged(n: Node, uid: string) {
    n.Element? && GetAttr(n.attrs, Marker) == Some(uid)
  }

  // ---------------------------------------------------------------------
  // Sizes (for termination of tree walks)

  function SizeF(f: seq<Node>): nat
    decreases f, 1
  {
    if f == [] then 0 else SizeN(f[0]) + SizeF(f[1..])
  }

  function SizeN(n: Node): nat
    decreases n, 0
  {
    1 + if n.Element? then SizeF(n.children) else 0
  }

  lemma {:induction false} ChildrenSmaller(f: seq<Node>, i: nat)
    requires i < |f| && f[i].Element?
    ensures SizeF(f[i].children) < SizeF(f)
  {
    if i > 0 {
      ChildrenSmaller(f[1..], i - 1);
    }
  }

  // ---------------------------------------------------------------------
  // Counting the nodes that carry a given marker

  function CountF(f: seq<Node>, uid: string): nat
    decreases f, 1
  {
    if f == [] then 0 else CountN(f[0], uid) + CountF(f[1..], uid)
  }

  function CountN(n: Node, uid: string): nat
    decreases n, 0
  {
    (if Tagged(n, uid) then 1 else 0) + (if n.Element? then CountF(n.children, uid) else 0)
  }

  lemma {:induction false} CountConcat(a: seq<Node>, b: seq<Node>, uid: string)
    ensures CountF(a + b, uid) == CountF(a, uid) + CountF(b, uid)
  {
    if a == [] {
      assert a + b == b;
    } else {
      assert (a + b)[1..] == a[1..] + b;
      CountConcat(a[1..], b, uid);
    }
  }

  /** Splits a forest around position k. */
  lemma {:induction false} CountSplit(f: seq<Node>, k: nat, uid: string)
    requires k < |f|
    ensures CountF(f, uid) == CountF(f[..k], uid) + CountN(f[k], uid) + CountF(f[k+1..], uid)
  {
    assert f == f[..k] + ([f[k]] + f[k+1..]);
    CountConcat(f[..k], [f[k]] + f[k+1..], uid);
    assert ([f[k]] + f[k+1..])[1..] == f[k+1..];
  }

  // ---------------------------------------------------------------------
  // Paths: a node of a forest is named by the child indices leading to it.

  type Path = seq<nat>

  predicate ValidPath(f: seq<Node>, p: Path)
    decreases p
  {
    |p| >= 1 && p[0] < |f| &&
    (|p| > 1 ==> f[p[0]].Element? && ValidPath(f[p[0]].children, p[1..]))
  }

  function At(f: seq<Node>, p: Path): Node
    requires ValidPath(f, p)
    decreases p
  {
    if |p| == 1 then f[p[0]] else At(f[p[0]].children, p[1..])
  }

  /** `removeChild` of the node at `p` from its parent. */
  function RemoveAt(f: seq<Node>, p: Path): (r: seq<Node>)
    requires ValidPath(f, p)
    decreases p
  {
    var k := p[0];
    if |p| == 1 then f[..k] + f[k+1..]
    else f[k := f[k].(children := RemoveAt(f[k].children, p[1..]))]
  }

  /** `replaceChild(fragment, node)`: the fragment's nodes take the place of
      the node at `p`, in order. */
  function ReplaceAt(f: seq<Node>, p: Path, frag: seq<Node>): (r: seq<Node>)
    requires ValidPath(f, p)
    decreases p
  {
    var k := p[0];
    if |p| == 1 then f[..k] + frag + f[k+1..]
    else f[k := f[k].(children := ReplaceAt(f[k].children, p[1..], frag))]
  }

  // ---------------------------------------------------------------------
  // `querySelectorAll('[data-blockuid=uid]')`: the paths of the marked
  // nodes in document order. `base` is the index of f[0] in its container.

  function Under(k: nat, ps: seq<Path>): (r: seq<Path>)
    ensures |r| == |ps|
    ensures forall j :: 0 <= j < |ps| ==> r[j] == [k] + ps[j]
  {
    seq(|ps|, j requires 0 <= j < |ps| => [k] + ps[j])
  }

  function MarkedF(f: seq<Node>, uid: string, base: nat): (r: seq<Path>)
    decreases f, 1
  {
    if f == [] then [] else MarkedN(f[0], uid, base) + MarkedF(f[1..], uid, base + 1)
  }

  function MarkedN(n: Node, uid: string, k: nat): (r: seq<Path>)
    decreases n, 0
  {
    (if Tagged(n, uid) then [[k]] else []) +
    (if n.Element? then Under(k, MarkedF(n.children, uid, 0)) else [])
  }

  /** The marked nodes of a document, in document order. */
  function Marked(f: seq<Node>, uid: string): (r: seq<Path>)
    ensures |r| == CountF(f, uid)
  {
    MarkedCount(f, uid, 0);
    MarkedF(f, uid, 0)
  }

  lemma {:induction false} MarkedSoundAll(f: seq<Node>, uid: string)
    ensures forall p :: p in MarkedF(f, uid, 0) ==> ValidPath(f, p) && Tagged(At(f, p), uid)
  {
    forall p | p in MarkedF(f, uid, 0)
      ensures ValidPath(f, p) && Tagged(At(f, p), uid)
    {
      MarkedSound(f, uid, 0, p);
      assert [p[0] - 0] + p[1..] == p;
    }
  }

  lemma {:induction false} MarkedConcat(a: seq<Node>, b: seq<Node>, uid: string, base: nat)
    ensures MarkedF(a + b, uid, base) == MarkedF(a, uid, base) + MarkedF(b, uid, base + |a|)
  {
    if a == [] {
      assert a + b == b;
    } else {
      var ab := a + b;
      assert ab[0] == a[0] && ab[1..] == a[1..] + b;
      MarkedUnfold(ab, uid, base);
      MarkedUnfold(a, uid, base);
      MarkedConcat(a[1..], b, uid, base + 1);
      ConcatAssoc(MarkedN(a[0], uid, base), MarkedF(a[1..], uid, base + 1), MarkedF(b, uid, base + |a|));
    }
  }

  lemma {:induction false} MarkedSplit(f: seq<Node>, k: nat, uid: string)
    requires k < |f|
    ensures MarkedF(f, uid, 0) ==
            MarkedF(f[..k], uid, 0) + MarkedN(f[k], uid, k) + MarkedF(f[k+1..], uid, k + 1)
  {
    var pre, rest := f[..k], f[k..];
    assert f == pre + rest;
    MarkedConcat(pre, rest, uid, 0);
    MarkedUnfold(rest, uid, k);
    assert rest[0] == f[k] && rest[1..] == f[k+1..];
    ConcatAssoc(MarkedF(pre, uid, 0), MarkedN(f[k], uid, k), MarkedF(f[k+1..], uid, k + 1));
  }

  lemma {:induction false} ConcatAssoc<T>(a: seq<T>, b: seq<T>, c: seq<T>)
    ensures a + (b + c) == a + b + c
  {
  }

  lemma {:induction false} MarkedUnfold(f: seq<Node>, uid: string, base: nat)
    requires f != []
    ensures MarkedF(f, uid, base) == MarkedN(f[0], uid, base) + MarkedF(f[1..], uid, base + 1)
  {
  }

  /** The list has one entry per marked node, whatever the offset. */
  lemma {:induction false} MarkedCount(f: seq<Node>, uid: string, base: nat)
    ensures |MarkedF(f, uid, base)| == CountF(f, uid)
    decreases f, 1
  {
    if f != [] {
      MarkedCountN(f[0], uid, base);
      MarkedCount(f[1..], uid, base + 1);
    }
  }

  lemma {:induction false} MarkedCountN(n: Node, uid: string, k: nat)
    ensures |MarkedN(n, uid, k)| == CountN(n, uid)
    decreases n, 0
  {
    if n.Element? {
      MarkedCount(n.children, uid, 0);
    }
  }

  /** Every listed path starts inside the forest's index range and leads to
      a node that carries the marker. */
  lemma {:induction false} MarkedSound(f: seq<Node>, uid: string, base: nat, p: Path)
    requires p in MarkedF(f, uid, base)
    ensures |p| >= 1 && base <= p[0] < base + |f|
    ensures ValidPath(f, [p[0] - base] + p[1..])
    ensures Tagged(At(f, [p[0] - base] + p[1..]), uid)
    decreases f, 1
  {
    assert f != [];
    if p in MarkedN(f[0], uid, base) {
      MarkedSoundN(f[0], uid, base, p);
      HeadPath(f, p[1..]);
      assert [p[0] - base] + p[1..] == [0] + p[1..];
    } else {
      assert p in MarkedF(f[1..], uid, base + 1);
      MarkedSound(f[1..], uid, base + 1, p);
      var i: nat := p[0] - (base + 1);
      ShiftPath(f, i, p[1..]);
    }
  }

  /** A path into the first node of a forest. */
  lemma {:induction false} HeadPath(f: seq<Node>, rest: Path)
    requires f != [] && (rest != [] ==> f[0].Element? && ValidPath(f[0].children, rest))
    ensures ValidPath(f, [0] + rest)
    ensures At(f, [0] + rest) == if rest == [] then f[0] else At(f[0].children, rest)
  {
    var r := [0] + rest;
    assert r[0] == 0 && r[1..] == rest;
  }

  /** A path into the tail of a forest, seen from the whole forest. */
  lemma {:induction false} ShiftPath(f: seq<Node>, i: nat, rest: Path)
    requires f != [] && ValidPath(f[1..], [i] + rest)
    ensures ValidPath(f, [i + 1] + rest) && At(f, [i + 1] + rest) == At(f[1..], [i] + rest)
  {
    var q, r := [i] + rest, [i + 1] + rest;
    assert q[0] == i && q[1..] == rest;
    assert r[0] == i + 1 && r[1..] == rest;
    assert f[i + 1] == f[1..][i];
  }

  lemma {:induction false} MarkedSoundN(n: Node, uid: string, k: nat, p: Path)
    requires p in MarkedN(n, uid, k)
    ensures |p| >= 1 && p[0] == k
    ensures |p| == 1 ==> Tagged(n, uid)
    ensures |p| > 1 ==> n.Element? && ValidPath(n.children, p[1..]) && Tagged(At(n.children, p[1..]), uid)
    decreases n, 0
  {
    if !(Tagged(n, uid) && p == [k]) {
      assert n.Element?;
      var ps := MarkedF(n.children, uid, 0);
      assert p in Under(k, ps);
      InUnder(k, ps, p);
      MarkedSound(n.children, uid, 0, p[1..]);
      assert [p[1..][0] - 0] + p[1..][1..] == p[1..];
    }
  }

  lemma {:induction false} InUnder(k: nat, ps: seq<Path>, p: Path)
    requires p in Under(k, ps)
    ensures |p| >= 1 && p[0] == k && p[1..] in ps
  {
    var j :| 0 <= j < |ps| && Under(k, ps)[j] == p;
    assert p[1..] == ps[j];
  }

  /** The first index of every path in the list of a forest lies within
      that forest. */
  lemma {:induction false} MarkedBounds(f: seq<Node>, uid: string, base: nat, p: Path)
    requires p in MarkedF(f, uid, base)
    ensures |p| >= 1 && base <= p[0] < base + |f|
  {
    MarkedSound(f, uid, base, p);
  }

  /** Which part of a three-part list its last entry comes from. */
  lemma {:induction false} LastOfThree<T>(xs: seq<T>, pre: seq<T>, mid: seq<T>, post: seq<T>)
    requires xs == pre + mid + post && xs != []
    ensures post != [] ==> xs[|xs| - 1] == post[|post| - 1]
    ensures post == [] && mid != [] ==> xs[|xs| - 1] == mid[|mid| - 1]
    ensures post == [] && mid == [] ==> xs[|xs| - 1] == pre[|pre| - 1]
    ensures post == [] ==> xs == pre + mid
  {
    if post == [] {
      assert xs == pre + mid;
    }
  }

  /** Where the last marked node of a forest sits: under the top-level node
      at its first index k, with nothing marked after position k. */
  lemma {:induction false} LastMarkedSplit(f: seq<Node>, uid: string)
    requires Marked(f, uid) != []
    ensures var ps := Marked(f, uid); var q := ps[|ps| - 1];
      |q| >= 1 && q[0] < |f| &&
      CountF(f[q[0]+1..], uid) == 0 &&
      MarkedN(f[q[0]], uid, q[0]) != [] &&
      MarkedN(f[q[0]], uid, q[0])[|MarkedN(f[q[0]], uid, q[0])| - 1] == q &&
      ps == MarkedF(f[..q[0]], uid, 0) + MarkedN(f[q[0]], uid, q[0])
  {
    var ps := Marked(f, uid);
    var q := ps[|ps| - 1];
    MarkedBounds(f, uid, 0, q);
    var k := q[0];
    MarkedSplit(f, k, uid);
    var pre, mid, post := MarkedF(f[..k], uid, 0), MarkedN(f[k], uid, k), MarkedF(f[k+1..], uid, k + 1);
    LastOfThree(ps, pre, mid, post);
    if post != [] {
      MarkedBounds(f[k+1..], uid, k + 1, post[|post| - 1]);
      assert false;
    }
    if mid == [] {
      MarkedBounds(f[..k], uid, 0, pre[|pre| - 1]);
      assert false;
    }
    MarkedCount(f[k+1..], uid, k + 1);
  }

  /** Removing the last marked node (in document order) removes exactly the
      last entry of the list: it has no marked descendants, and nodes before
      it in document order keep their paths. */
  lemma {:induction false} RemoveLastMarked(f: seq<Node>, uid: string)
    requires Marked(f, uid) != []
    ensures ValidPath(f, Marked(f, uid)[|Marked(f, uid)| - 1])
    ensures Marked(RemoveAt(f, Marked(f, uid)[|Marked(f, uid)| - 1]), uid) ==
            Marked(f, uid)[..|Marked(f, uid)| - 1]
    decreases f, 1
  {
    var ps := Marked(f, uid);
    var q := ps[|ps| - 1];
    LastMarkedSplit(f, uid);
    var k := q[0];
    var pre, mid := MarkedF(f[..k], uid, 0), MarkedN(f[k], uid, k);
    if |q| == 1 {
      RemoveLastTop(f, uid, k, pre, mid);
    } else {
      RemoveLastBelow(f, uid, q, pre, mid);
    }
  }

  /** The last marked node lies below top-level node q[0]: it is the last
      marked node of that node's children. */
  lemma {:induction false} RemoveLastBelow(f: seq<Node>, uid: string, q: Path, pre: seq<Path>, mid: seq<Path>)
    requires |q| > 1 && q[0] < |f| && CountF(f[q[0]+1..], uid) == 0
    requires pre == MarkedF(f[..q[0]], uid, 0) && mid == MarkedN(f[q[0]], uid, q[0])
    requires mid != [] && mid[|mid| - 1] == q
    requires Marked(f, uid) == pre + mid
    ensures ValidPath(f, q)
    ensures Marked(RemoveAt(f, q), uid) == Marked(f, uid)[..|Marked(f, uid)| - 1]
    decreases f, 0
  {
    DeepLastShape(f, uid, q, mid);
    var ch := f[q[0]].children;
    var xs := MarkedF(ch, uid, 0);
    RemoveLastMarked(ch, uid);
    RemoveLastDeep(f, uid, q, pre, mid, xs);
  }

  /** A last marked path of length above one runs through the children of
      its top-level element, ending at their last marked path. */
  lemma {:induction false} DeepLastShape(f: seq<Node>, uid: string, q: Path, mid: seq<Path>)
    requires |q| > 1 && q[0] < |f| && mid == MarkedN(f[q[0]], uid, q[0])
    requires mid != [] && mid[|mid| - 1] == q
    ensures f[q[0]].Element?
    ensures MarkedF(f[q[0]].children, uid, 0) != []
    ensures var xs := MarkedF(f[q[0]].children, uid, 0); xs[|xs| - 1] == q[1..]
  {
    var k := q[0];
    if !f[k].Element? {
      assert false;
    }
    var xs := MarkedF(f[k].children, uid, 0);
    var t := if Tagged(f[k], uid) then [[k]] else [];
    assert mid == t + Under(k, xs);
    if xs == [] {
      assert false;
    }
    assert q == [k] + xs[|xs| - 1];
  }

  /** The last marked node is a top-level node of the forest. */
  lemma {:induction false} RemoveLastTop(f: seq<Node>, uid: string, k: nat, pre: seq<Path>, mid: seq<Path>)
    requires k < |f| && CountF(f[k+1..], uid) == 0
    requires pre == MarkedF(f[..k], uid, 0) && mid == MarkedN(f[k], uid, k)
    requires mid != [] && mid[|mid| - 1] == [k]
    requires Marked(f, uid) == pre + mid
    ensures ValidPath(f, [k])
    ensures Marked(RemoveAt(f, [k]), uid) == Marked(f, uid)[..|Marked(f, uid)| - 1]
  {
    TopMarkedAlone(f[k], uid, k, mid);
    RemoveTopUnmarked(f, uid, k);
    assert (pre + mid)[..|pre + mid| - 1] == pre;
  }

  /** A node whose last listed path is its own has no marked descendant. */
  lemma {:induction false} TopMarkedAlone(n: Node, uid: string, k: nat, mid: seq<Path>)
    requires mid == MarkedN(n, uid, k) && mid != [] && mid[|mid| - 1] == [k]
    ensures mid == [[k]]
  {
    if n.Element? {
      var xs := MarkedF(n.children, uid, 0);
      assert mid == (if Tagged(n, uid) then [[k]] else []) + Under(k, xs);
      if xs != [] {
        MarkedBounds(n.children, uid, 0, xs[|xs| - 1]);
        assert false;
      }
    }
  }

  /** Removing top-level node k, with nothing marked after it, leaves the
      paths listed before it. */
  lemma {:induction false} RemoveTopUnmarked(f: seq<Node>, uid: string, k: nat)
    requires k < |f| && CountF(f[k+1..], uid) == 0
    ensures ValidPath(f, [k])
    ensures Marked(RemoveAt(f, [k]), uid) == MarkedF(f[..k], uid, 0)
  {
    var g := f[..k] + f[k+1..];
    assert RemoveAt(f, [k]) == g;
    MarkedConcat(f[..k], f[k+1..], uid, 0);
    MarkedCount(f[k+1..], uid, k);
  }

  /** The last marked node lies strictly below the top-level node k. */
  lemma {:induction false} RemoveLastDeep(f: seq<Node>, uid: string, q: Path, pre: seq<Path>, mid: seq<Path>, xs: seq<Path>)
    requires |q| > 1 && q[0] < |f| && f[q[0]].Element?
    requires CountF(f[q[0]+1..], uid) == 0
    requires pre == MarkedF(f[..q[0]], uid, 0) && mid == MarkedN(f[q[0]], uid, q[0])
    requires Marked(f, uid) == pre + mid
    requires xs == MarkedF(f[q[0]].children, uid, 0) && xs != []
    requires ValidPath(f[q[0]].children, q[1..])
    requires Marked(RemoveAt(f[q[0]].children, q[1..]), uid) == xs[..|xs| - 1]
    ensures ValidPath(f, q)
    ensures Marked(RemoveAt(f, q), uid) == Marked(f, uid)[..|Marked(f, uid)| - 1]
  {
    RemoveBelowTop(f, uid, q, xs);
    DropLastConcat(pre, mid);
  }

  /** Removing a node strictly below top-level node q[0] (with nothing
      marked after q[0]) drops the last entry of that node's own list. */
  lemma {:induction false} RemoveBelowTop(f: seq<Node>, uid: string, q: Path, xs: seq<Path>)
    requires |q| > 1 && q[0] < |f| && f[q[0]].Element?
    requires CountF(f[q[0]+1..], uid) == 0
    requires xs == MarkedF(f[q[0]].children, uid, 0) && xs != []
    requires ValidPath(f[q[0]].children, q[1..])
    requires Marked(RemoveAt(f[q[0]].children, q[1..]), uid) == xs[..|xs| - 1]
    ensures ValidPath(f, q) && MarkedN(f[q[0]], uid, q[0]) != []
    ensures Marked(RemoveAt(f, q), uid) ==
      MarkedF(f[..q[0]], uid, 0) + MarkedN(f[q[0]], uid, q[0])[..|MarkedN(f[q[0]], uid, q[0])| - 1]
  {
    var k := q[0];
    var c' := RemoveAt(f[k].children, q[1..]);
    var n' := f[k].(children := c');
    RemoveDeepShape(f, q);
    assert RemoveAt(f, q) == f[..k] + [n'] + f[k+1..];
    assert MarkedF(n'.children, uid, 0) == xs[..|xs| - 1];
    ChildRemoved(f[k], n', uid, k, xs);
    SpliceMarked(f, k, n', uid);
  }

  lemma {:induction false} DropLastConcat<T>(a: seq<T>, b: seq<T>)
    requires b != []
    ensures (a + b)[..|a + b| - 1] == a + b[..|b| - 1]
  {
  }

  lemma {:induction false} RemoveDeepShape(f: seq<Node>, q: Path)
    requires |q| > 1 && q[0] < |f| && f[q[0]].Element?
    requires ValidPath(f[q[0]].children, q[1..])
    ensures ValidPath(f, q)
    ensures RemoveAt(f, q) ==
            f[..q[0]] + [f[q[0]].(children := RemoveAt(f[q[0]].children, q[1..]))] + f[q[0]+1..]
  {
    var k := q[0];
    assert ValidPath(f, q);
    var x := f[k].(children := RemoveAt(f[k].children, q[1..]));
    assert RemoveAt(f, q) == f[k := x];
    var r := f[..k] + [x] + f[k+1..];
    assert |r| == |f|;
    assert forall i :: 0 <= i < |f| ==> r[i] == f[k := x][i];
  }

  /** Putting a node n' at position k, with nothing marked after k. */
  lemma {:induction false} SpliceMarked(f: seq<Node>, k: nat, n': Node, uid: string)
    requires k < |f| && CountF(f[k+1..], uid) == 0
    ensures Marked(f[..k] + [n'] + f[k+1..], uid) == MarkedF(f[..k], uid, 0) + MarkedN(n', uid, k)
  {
    assert f[..k] + [n'] + f[k+1..] == f[..k] + ([n'] + f[k+1..]);
    MarkedConcat(f[..k], [n'] + f[k+1..], uid, 0);
    assert ([n'] + f[k+1..])[1..] == f[k+1..];
    MarkedCount(f[k+1..], uid, k + 1);
  }

  /** Dropping the last marked entry below a node drops the last entry of
      the node's own list. */
  lemma {:induction false} ChildRemoved(n: Node, n': Node, uid: string, k: nat, xs: seq<Path>)
    requires n.Element? && n'.Element? && n'.attrs == n.attrs
    requires xs == MarkedF(n.children, uid, 0) && xs != []
    requires MarkedF(n'.children, uid, 0) == xs[..|xs| - 1]
    ensures MarkedN(n, uid, k) != []
    ensures MarkedN(n', uid, k) == MarkedN(n, uid, k)[..|MarkedN(n, uid, k)| - 1]
  {
    var t := if Tagged(n, uid) then [[k]] else [];
    assert Tagged(n', uid) == Tagged(n, uid);
    assert MarkedN(n, uid, k) == t + Under(k, xs);
    assert MarkedN(n', uid, k) == t + Under(k, xs[..|xs| - 1]);
    assert Under(k, xs[..|xs| - 1]) == Under(k, xs)[..|xs| - 1];
    assert (t + Under(k, xs))[..|t| + |xs| - 1] == t + Under(k, xs)[..|xs| - 1];
  }

  /** When exactly one node carries the marker, replacing that node by a
      fragment leaves exactly the fragment's marked nodes in the forest. */
  lemma {:induction false} ReplaceSoleMarked(f: seq<Node>, p: Path, frag: seq<Node>, uid: string)
    requires ValidPath(f, p) && Tagged(At(f, p), uid) && CountF(f, uid) == 1
    ensures CountF(ReplaceAt(f, p, frag), uid) == CountF(frag, uid)
    decreases p
  {
    var k := p[0];
    CountSplit(f, k, uid);
    if |p| == 1 {
      assert CountN(f[k], uid) >= 1;
      CountConcat(f[..k], frag, uid);
      CountConcat(f[..k] + frag, f[k+1..], uid);
    } else {
      var ch := f[k].children;
      TaggedAtCounts(ch, p[1..], uid);
      assert CountN(f[k], uid) >= CountF(ch, uid);
      assert !Tagged(f[k], uid);
      ReplaceSoleMarked(ch, p[1..], frag, uid);
      var n' := f[k].(children := ReplaceAt(ch, p[1..], frag));
      var r := ReplaceAt(f, p, frag);
      assert r == f[..k] + [n'] + f[k+1..];
      assert r[..k] == f[..k] && r[k] == n' && r[k+1..] == f[k+1..];
      CountSplit(r, k, uid);
    }
  }

  /** Removing a node is replacing it by the empty fragment. */
  lemma {:induction false} RemoveIsReplaceEmpty(f: seq<Node>, p: Path)
    requires ValidPath(f, p)
    ensures RemoveAt(f, p) == ReplaceAt(f, p, [])
    decreases p
  {
    var k := p[0];
    if |p| == 1 {
      assert f[..k] + [] + f[k+1..] == f[..k] + f[k+1..];
    } else {
      RemoveIsReplaceEmpty(f[k].children, p[1..]);
    }
  }

  /** Replacing the node at `p` by a fragment trades the marked nodes of
      that node's subtree for those of the fragment; the rest of the forest
      keeps its marked nodes. */
  lemma {:induction false} ReplaceAtCount(f: seq<Node>, p: Path, frag: seq<Node>, uid: string)
    requires ValidPath(f, p)
    ensures CountF(ReplaceAt(f, p, frag), uid) + CountN(At(f, p), uid) == CountF(f, uid) + CountF(frag, uid)
    decreases p
  {
    var k := p[0];
    CountSplit(f, k, uid);
    if |p| == 1 {
      CountConcat(f[..k], frag, uid);
      CountConcat(f[..k] + frag, f[k+1..], uid);
    } else {
      var ch := f[k].children;
      ReplaceAtCount(ch, p[1..], frag, uid);
      var n' := f[k].(children := ReplaceAt(ch, p[1..], frag));
      var r := ReplaceAt(f, p, frag);
      assert Tagged(n', uid) == Tagged(f[k], uid);
      assert r[..k] == f[..k] && r[k] == n' && r[k+1..] == f[k+1..];
      CountSplit(r, k, uid);
    }
  }

  /** A forest with a marked node at a valid path counts at least one. */
  lemma {:induction false} TaggedAtCounts(f: seq<Node>, p: Path, uid: string)
    requires ValidPath(f, p) && Tagged(At(f, p), uid)
    ensures CountF(f, uid) >= 1
    decreases p
  {
    CountSplit(f, p[0], uid);
    if |p| > 1 {
      TaggedAtCounts(f[p[0]].children, p[1..], uid);
    }
  }

  // ---------------------------------------------------------------------
  // `Node.normalize()`: no empty text nodes, no adjacent text nodes, in the
  // whole subtree.

  predicate Normalized(f: seq<Node>)
    decreases f
  {
    (forall i :: 0 <= i < |f| ==> f[i].Text? ==> f[i].text != "") &&
    (forall i :: 0 <= i < |f| - 1 ==> !(f[i].Text? && f[i + 1].Text?)) &&
    (forall i :: 0 <= i < |f| ==> f[i].Element? ==> Normalized(f[i].children))
  }

  function Normalize(f: seq<Node>): (r: seq<Node>)
    ensures Normalized(r)
    ensures f != [] && r != [] && r[0].Text? ==> f[0].Text?
    decreases f
  {
    if f == [] then []
    else
      var rest := Normalize(f[1..]);
      match f[0]
      case Text(s) =>
        if s == "" then rest
        else if rest != [] && rest[0].Text? then [Text(s + rest[0].text)] + rest[1..]
        else [Text(s)] + rest
      case Element(id, tag, attrs, children) =>
        [Element(id, tag, attrs, Normalize(children))] + rest
      case Comment(_) =>
        [f[0]] + rest
  }

  /** `textContent` of a forest: the text of its text nodes, in document order. */
  function TextOf(f: seq<Node>): string
    decreases f, 1
  {
    if f == [] then "" else TextOfN(f[0]) + TextOf(f[1..])
  }

  function TextOfN(n: Node): string
    decreases n, 0
  {
    match n
    case Text(s) => s
    case Element(_, _, _, children) => TextOf(children)
    case Comment(_) => ""
  }

  /** Normalisation keeps the text content. */
  lemma {:induction false} NormalizeKeepsText(f: seq<Node>)
    ensures TextOf(Normalize(f)) == TextOf(f)
    decreases f
  {
    if f != [] {
      var rest := Normalize(f[1..]);
      NormalizeKeepsText(f[1..]);
      match f[0]
      case Text(s) =>
        if s != "" && rest != [] && rest[0].Text? {
          assert rest == [rest[0]] + rest[1..];
          assert TextOf(rest) == rest[0].text + TextOf(rest[1..]);
          assert ([Text(s + rest[0].text)] + rest[1..])[1..] == rest[1..];
        } else if s != "" {
          assert ([Text(s)] + rest)[1..] == rest;
        }
      case Element(id, tag, attrs, children) =>
        NormalizeKeepsText(children);
        assert ([Element(id, tag, attrs, Normalize(children))] + rest)[1..] == rest;
      case Comment(_) =>
        assert ([f[0]] + rest)[1..] == rest;
    }
  }

  /** Normalisation keeps every element and its marker. */
  lemma {:induction false} NormalizeKeepsMarkers(f: seq<Node>, uid: string)
    ensures CountF(Normalize(f), uid) == CountF(f, uid)
    decreases f
  {
    if f != [] {
      var rest := Normalize(f[1..]);
      NormalizeKeepsMarkers(f[1..], uid);
      match f[0]
      case Text(s) =>
        if s != "" && rest != [] && rest[0].Text? {
          assert rest == [rest[0]] + rest[1..];
          assert CountF(rest, uid) == CountF(rest[1..], uid);
          assert ([Text(s + rest[0].text)] + rest[1..])[1..] == rest[1..];
        } else if s != "" {
          assert ([Text(s)] + rest)[1..] == rest;
        }
      case Element(id, tag, attrs, children) =>
        NormalizeKeepsMarkers(children, uid);
        assert ([Element(id, tag, attrs, Normalize(children))] + rest)[1..] == rest;
      case Comment(_) =>
        assert ([f[0]] + rest)[1..] == rest;
    }
  }

  /** A normalised forest is its own normal form, so normalising twice is the
      same as normalising once. */
  lemma {:induction false} NormalizeIdempotent(f: seq<Node>)
    requires Normalized(f)
    ensures Normalize(f) == f
    decreases f
  {
    if f != [] {
      assert Normalized(f[1..]) by {
        forall i | 0 <= i < |f[1..]| && f[1..][i].Element?
          ensures Normalized(f[1..][i].children)
        {
          assert f[1..][i] == f[i + 1];
        }
      }
      NormalizeIdempotent(f[1..]);
      match f[0]
      case Text(s) =>
        if |f| > 1 {
          assert !f[1].Text?;
        }
      case Element(id, tag, attrs, children) =>
        NormalizeIdempotent(children);
      case Comment(_) =>
    }
  }

  // ---------------------------------------------------------------------
  // The component tokens found below the nodes marked with `uid`: what
  // `listDescendants` visits, in visiting order.

  /** Values of `data-blockuid` (when non-empty) of every element, in document order. */
  function TokensF(f: seq<Node>): (r: seq<string>)
    ensures forall t :: t in r ==> t != ""
    decreases f, 1
  {
    if f == [] then [] else TokensN(f[0]) + TokensF(f[1..])
  }

  function TokensN(n: Node): (r: seq<string>)
    ensures forall t :: t in r ==> t != ""
    ensures !n.Element? ==> r == []
    decreases n, 0
  {
    if !n.Element? then []
    else
      var own := GetAttr(n.attrs, Marker);
      (if own.Some? && own.value != "" then [own.value] else []) + TokensF(n.children)
  }

  /** For every node marked `uid` (document order), the tokens of the marked
      elements strictly below it. */
  function DescendantsF(f: seq<Node>, uid: string): (r: seq<string>)
    ensures forall t :: t in r ==> t in TokensF(f)
    decreases f, 1
  {
    if f == [] then [] else DescendantsN(f[0], uid) + DescendantsF(f[1..], uid)
  }

  function DescendantsN(n: Node, uid: string): (r: seq<string>)
    ensures n.Element? ==> forall t :: t in r ==> t in TokensF(n.children)
    ensures !n.Element? ==> r == []
    decreases n, 0
  {
    if !n.Element? then []
    else (if Tagged(n, uid) then TokensF(n.children) else []) + DescendantsF(n.children, uid)
  }

  /** A component that has no node in the document has no descendants to
      visit. */
  lemma {:induction false} NoMarkerNoDescendants(f: seq<Node>, uid: string)
    requires CountF(f, uid) == 0
    ensures DescendantsF(f, uid) == []
    decreases f, 1
  {
    if f != [] {
      NoMarkerNoDescendantsN(f[0], uid);
      NoMarkerNoDescendants(f[1..], uid);
    }
  }

  lemma {:induction false} NoMarkerNoDescendantsN(n: Node, uid: string)
    requires CountN(n, uid) == 0
    ensures DescendantsN(n, uid) == []
    decreases n, 0
  {
    if n.Element? {
      NoMarkerNoDescendants(n.children, uid);
    }
  }

  /** `textContent` of a concatenation. */
  lemma {:induction false} TextOfConcat(a: seq<Node>, b: seq<Node>)
    ensures TextOf(a + b) == TextOf(a) + TextOf(b)
    decreases a
  {
    if a == [] {
      assert a + b == b;
    } else {
      assert (a + b)[1..] == a[1..] + b;
      TextOfConcat(a[1..], b);
    }
  }

  // ---------------------------------------------------------------------
  // Pruning duplicates: removing marked nodes from the last one backwards
  // until only the first is left.

  /** The forest with every node marked `uid` removed except the first one
      in document order; that one stays where it was. */
  function KeepFirstMarked(f: seq<Node>, uid: string): (r: seq<Node>)
    ensures Marked(r, uid) == if Marked(f, uid) == [] then [] else [Marked(f, uid)[0]]
    ensures Marked(f, uid) == [] ==> r == f
    ensures Marked(f, uid) != [] ==>
      ValidPath(r, Marked(f, uid)[0]) && Tagged(At(r, Marked(f, uid)[0]), uid) && CountF(r, uid) == 1
    decreases |Marked(f, uid)|
  {
    var ps := Marked(f, uid);
    if |ps| <= 1 then
      if ps == [] then f
      else
        var p := ps[0];
        MarkedSound(f, uid, 0, p);
        assert [p[0] - 0] + p[1..] == p;
        MarkedCount(f, uid, 0);
        f
    else
      RemoveLastMarked(f, uid);
      KeepFirstMarked(RemoveAt(f, ps[|ps| - 1]), uid)
  }

  /** One step of removing duplicates: dropping the last of i+1 listed
      nodes leaves the first i listed and does not change what keeping the
      first one gives. */
  lemma {:induction false} DropLastMarked(f: seq<Node>, uid: string, ps: seq<Path>, i: nat)
    requires 0 < i < |ps| && Marked(f, uid) == ps[..i + 1]
    ensures ValidPath(f, ps[i])
    ensures Marked(RemoveAt(f, ps[i]), uid) == ps[..i]
    ensures KeepFirstMarked(RemoveAt(f, ps[i]), uid) == KeepFirstMarked(f, uid)
  {
    var qs := ps[..i + 1];
    assert qs[|qs| - 1] == ps[i] && qs[..|qs| - 1] == ps[..i];
    RemoveLastMarked(f, uid);
  }
}
