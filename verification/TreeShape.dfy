/** The shape of the left-child/right-sibling trees of ds.c, apart from the memory that
    holds them: forests of nodes, what linking and unlinking make of them, and the links
    that memory must hold to represent them. */
module TreeShape {
  import Basics

  /** The three links embedded in a user's record. */
  class Node {
    var parent: Node?
    var child: Node?
    var sibling: Node?

    constructor ()
      ensures parent == null && child == null && sibling == null
    {
      parent, child, sibling := null, null, null;
    }
  }

  /** A chain of siblings: the first node, the chain of its children, the siblings after it. */
  datatype Forest = Empty | Grove(node: Node, kids: Forest, next: Forest)

  ghost function Nodes(f: Forest): set<Node> {
    match f
    case Empty => {}
    case Grove(n, kids, next) => {n} + Nodes(kids) + Nodes(next)
  }

  /** No node occurs twice. */
  ghost predicate Distinct(f: Forest) {
    match f
    case Empty => true
    case Grove(n, kids, next) =>
      && n !in Nodes(kids) && n !in Nodes(next) && Nodes(kids) !! Nodes(next)
      && Distinct(kids) && Distinct(next)
  }

  function Head(f: Forest): Node? { if f.Empty? then null else f.node }

  // ----- links

  datatype Links = Links(parent: Node?, child: Node?, sibling: Node?)

  /** The links `m` represent the forest, whose top nodes have this parent. */
  ghost predicate Linked(f: Forest, parent: Node?, m: map<Node, Links>) {
    match f
    case Empty => true
    case Grove(n, kids, next) =>
      && n in m && m[n] == Links(parent, Head(kids), Head(next))
      && Linked(kids, n, m) && Linked(next, parent, m)
  }

  lemma {:induction false} LinkedFrame(f: Forest, parent: Node?, m: map<Node, Links>, m': map<Node, Links>)
    requires Linked(f, parent, m)
    requires forall n <- Nodes(f) :: n in m' && (n in m ==> m'[n] == m[n])
    ensures Linked(f, parent, m')
  {
    if f.Grove? {
      LinkedFrame(f.kids, f.node, m, m');
      LinkedFrame(f.next, parent, m, m');
    }
  }

  // ----- traversal orders

  ghost function Preorder(f: Forest): seq<Node> {
    match f
    case Empty => []
    case Grove(n, kids, next) => [n] + Preorder(kids) + Preorder(next)
  }

  /** Children, then siblings, then the node itself. */
  ghost function ClearOrder(f: Forest): seq<Node> {
    match f
    case Empty => []
    case Grove(n, kids, next) => ClearOrder(kids) + ClearOrder(next) + [n]
  }

  ghost function Bag(f: Forest): multiset<Node> {
    match f
    case Empty => multiset{}
    case Grove(n, kids, next) => multiset{n} + Bag(kids) + Bag(next)
  }

  lemma {:induction false} BagOfOrders(f: Forest)
    ensures multiset(Preorder(f)) == Bag(f) && multiset(ClearOrder(f)) == Bag(f)
  {
    if f.Grove? {
      BagOfOrders(f.kids);
      BagOfOrders(f.next);
    }
  }

  lemma {:induction false} BagOnce(f: Forest)
    requires Distinct(f)
    ensures forall n :: Bag(f)[n] == if n in Nodes(f) then 1 else 0
  {
    if f.Grove? {
      BagOnce(f.kids);
      BagOnce(f.next);
    }
  }

  /** Both orders list every node exactly once. */
  lemma OrdersListOnce(f: Forest, n: Node)
    requires Distinct(f)
    ensures multiset(Preorder(f))[n] == (if n in Nodes(f) then 1 else 0)
    ensures multiset(ClearOrder(f))[n] == (if n in Nodes(f) then 1 else 0)
  {
    BagOfOrders(f);
    BagOnce(f);
  }

  /** The first node of the sequence that the test accepts. */
  ghost function FirstMatch(ns: seq<Node>, test: Node -> bool): Node? {
    var i := Basics.First(ns, test);
    if i < |ns| then ns[i] else null
  }

  lemma FirstMatchConcat(a: seq<Node>, b: seq<Node>, test: Node -> bool)
    ensures FirstMatch(a + b, test) == if FirstMatch(a, test) != null then FirstMatch(a, test) else FirstMatch(b, test)
  {
    var i, j := Basics.First(a, test), Basics.First(a + b, test);
    assert i < |a| ==> (a + b)[i] == a[i];
    if i == |a| && j < |a + b| {
      assert b[j - |a|] == (a + b)[j];
    }
    var k := Basics.First(b, test);
    assert k < |b| ==> (a + b)[|a| + k] == b[k];
  }

  lemma {:induction false} InOrders(f: Forest)
    ensures forall n <- Nodes(f) :: n in Preorder(f) && n in ClearOrder(f)
    ensures forall n <- Preorder(f) :: n in Nodes(f)
    ensures forall n <- ClearOrder(f) :: n in Nodes(f)
  {
    if f.Grove? {
      InOrders(f.kids);
      InOrders(f.next);
    }
  }

  // ----- finding places

  /** The chain that starts at `p`. */
  ghost function At(f: Forest, p: Node): (r: Forest)
    requires p in Nodes(f)
    ensures r.Grove? && r.node == p && Nodes(r) <= Nodes(f)
  {
    if f.node == p then f else if p in Nodes(f.kids) then At(f.kids, p) else At(f.next, p)
  }

  /** The parent recorded for `x`. */
  ghost function ParentOf(f: Forest, parent: Node?, x: Node): Node?
    requires x in Nodes(f)
  {
    if f.node == x then parent
    else if x in Nodes(f.kids) then ParentOf(f.kids, f.node, x)
    else ParentOf(f.next, parent, x)
  }

  lemma {:induction false} AtLinked(f: Forest, parent: Node?, m: map<Node, Links>, p: Node)
    requires Linked(f, parent, m) && Distinct(f) && p in Nodes(f)
    ensures Distinct(At(f, p)) && Linked(At(f, p), ParentOf(f, parent, p), m)
  {
    if f.node != p {
      if p in Nodes(f.kids) { AtLinked(f.kids, f.node, m, p); } else { AtLinked(f.next, parent, m, p); }
    }
  }

  /** The node `x` with its descendants, detached. */
  ghost function Cut(f: Forest, x: Node): (r: Forest)
    requires x in Nodes(f)
    ensures r.Grove? && r.node == x && r.next.Empty?
  {
    Grove(x, At(f, x).kids, Empty)
  }

  /** The nodes of a chain, without their descendants. */
  ghost function Chain(f: Forest): seq<Node> {
    match f
    case Empty => []
    case Grove(n, kids, next) => [n] + Chain(next)
  }

  lemma {:induction false} ChainInNodes(f: Forest)
    ensures forall n <- Chain(f) :: n in Nodes(f)
  {
    if f.Grove? { ChainInNodes(f.next); }
  }

  // ----- what comes before what

  /** Wherever the two nodes are listed, the first comes before the second. */
  ghost predicate Ordered(ns: seq<Node>, a: Node, b: Node) {
    forall i, j :: 0 <= i < |ns| && 0 <= j < |ns| && ns[i] == a && ns[j] == b ==> i < j
  }

  lemma OrderedInside(pre: seq<Node>, mid: seq<Node>, post: seq<Node>, a: Node, b: Node)
    requires Ordered(mid, a, b) && a !in pre && a !in post && b !in pre && b !in post
    ensures Ordered(pre + mid + post, a, b)
  {
    var ns := pre + mid + post;
    forall i, j | 0 <= i < |ns| && 0 <= j < |ns| && ns[i] == a && ns[j] == b ensures i < j {
      PartOf(pre, mid, post, i);
      PartOf(pre, mid, post, j);
    }
  }

  lemma PartOf(pre: seq<Node>, mid: seq<Node>, post: seq<Node>, i: nat)
    requires i < |pre + mid + post|
    ensures var x := (pre + mid + post)[i];
      if i < |pre| then x in pre else if i < |pre| + |mid| then x == mid[i - |pre|] else x in post
  {
    var ns := pre + mid + post;
    if i < |pre| {
      assert ns[i] == pre[i];
    } else if i >= |pre| + |mid| {
      assert ns[i] == post[i - |pre| - |mid|];
    }
  }

  lemma OrderedAcross(front: seq<Node>, back: seq<Node>, a: Node, b: Node)
    requires a !in back && b !in front
    ensures Ordered(front + back, a, b)
  {
    var ns := front + back;
    assert ns == front + [] + back;
    forall i, j | 0 <= i < |ns| && 0 <= j < |ns| && ns[i] == a && ns[j] == b ensures i < j {
      PartOf(front, [], back, i);
      PartOf(front, [], back, j);
    }
  }

  /** The search lists every node before its descendants, and these before the siblings
      behind the node and their descendants. */
  lemma {:induction false} SearchOrder(f: Forest, n: Node, d: Node, e: Node)
    requires Distinct(f) && n in Nodes(f)
    ensures d in Nodes(At(f, n).kids) ==> Ordered(Preorder(f), n, d)
    ensures e in Nodes(At(f, n).next) ==> Ordered(Preorder(f), n, e)
    ensures d in Nodes(At(f, n).kids) && e in Nodes(At(f, n).next) ==> Ordered(Preorder(f), d, e)
  {
    var own, kids, next := [f.node], Preorder(f.kids), Preorder(f.next);
    InOrders(f.kids);
    InOrders(f.next);
    if f.node == n {
      assert Preorder(f) == own + (kids + next);
      if d in Nodes(f.kids) { OrderedAcross(own, kids + next, n, d); }
      if e in Nodes(f.next) { OrderedAcross(own, kids + next, n, e); }
      if d in Nodes(f.kids) && e in Nodes(f.next) { OrderedAcross(own + kids, next, d, e); }
    } else if n in Nodes(f.kids) {
      SearchOrder(f.kids, n, d, e);
      AllInside(f.kids, own, next, n, d, e, kids);
    } else {
      SearchOrder(f.next, n, d, e);
      AllInside(f.next, own + kids, [], n, d, e, next);
      assert own + kids + next + [] == own + kids + next;
    }
  }

  /** What is ordered in one part of a list is ordered in the whole. */
  lemma AllInside(f: Forest, pre: seq<Node>, post: seq<Node>, n: Node, d: Node, e: Node, mid: seq<Node>)
    requires n in Nodes(f) && forall x <- Nodes(f) :: x !in pre && x !in post
    ensures d in Nodes(At(f, n).kids) && Ordered(mid, n, d) ==> Ordered(pre + mid + post, n, d)
    ensures e in Nodes(At(f, n).next) && Ordered(mid, n, e) ==> Ordered(pre + mid + post, n, e)
    ensures d in Nodes(At(f, n).kids) && e in Nodes(At(f, n).next) && Ordered(mid, d, e) ==>
      Ordered(pre + mid + post, d, e)
    ensures d in Nodes(At(f, n).kids) && Ordered(mid, d, n) ==> Ordered(pre + mid + post, d, n)
    ensures e in Nodes(At(f, n).next) && Ordered(mid, e, n) ==> Ordered(pre + mid + post, e, n)
  {
    AtNodes(f, n);
    if Ordered(mid, n, d) && d in Nodes(f) { OrderedInside(pre, mid, post, n, d); }
    if Ordered(mid, n, e) && e in Nodes(f) { OrderedInside(pre, mid, post, n, e); }
    if Ordered(mid, d, e) && d in Nodes(f) && e in Nodes(f) { OrderedInside(pre, mid, post, d, e); }
    if Ordered(mid, d, n) && d in Nodes(f) { OrderedInside(pre, mid, post, d, n); }
    if Ordered(mid, e, n) && e in Nodes(f) { OrderedInside(pre, mid, post, e, n); }
  }

  /** Clearing lists the descendants of a node first, then the siblings behind it and their
      descendants, then the node. */
  lemma {:induction false} ClearsInOrder(f: Forest, n: Node, d: Node, e: Node)
    requires Distinct(f) && n in Nodes(f)
    ensures d in Nodes(At(f, n).kids) ==> Ordered(ClearOrder(f), d, n)
    ensures e in Nodes(At(f, n).next) ==> Ordered(ClearOrder(f), e, n)
    ensures d in Nodes(At(f, n).kids) && e in Nodes(At(f, n).next) ==> Ordered(ClearOrder(f), d, e)
  {
    var kids, next, own := ClearOrder(f.kids), ClearOrder(f.next), [f.node];
    InOrders(f.kids);
    InOrders(f.next);
    if f.node == n {
      if d in Nodes(f.kids) { OrderedAcross(kids + next, own, d, n); }
      if e in Nodes(f.next) { OrderedAcross(kids + next, own, e, n); }
      if d in Nodes(f.kids) && e in Nodes(f.next) {
        assert ClearOrder(f) == kids + (next + own);
        OrderedAcross(kids, next + own, d, e);
      }
    } else if n in Nodes(f.kids) {
      ClearsInOrder(f.kids, n, d, e);
      AllInside(f.kids, [], next + own, n, d, e, kids);
      assert [] + kids + (next + own) == kids + next + own;
    } else {
      ClearsInOrder(f.next, n, d, e);
      AllInside(f.next, kids, own, n, d, e, next);
    }
  }

  // ----- appending a child

  ghost function AppendLast(f: Forest, sub: Forest): Forest {
    match f
    case Empty => sub
    case Grove(n, kids, next) => Grove(n, kids, AppendLast(next, sub))
  }

  /** `sub` becomes the last child of `p`. */
  ghost function AppendChild(f: Forest, p: Node, sub: Forest): Forest {
    match f
    case Empty => Empty
    case Grove(n, kids, next) =>
      if n == p then Grove(n, AppendLast(kids, sub), next)
      else Grove(n, AppendChild(kids, p, sub), AppendChild(next, p, sub))
  }

  ghost function LastOf(f: Forest): Node
    requires f.Grove?
  {
    if f.next.Empty? then f.node else LastOf(f.next)
  }

  lemma {:induction false} LastInNodes(f: Forest)
    requires f.Grove?
    ensures LastOf(f) in Nodes(f)
  {
    if f.next.Grove? { LastInNodes(f.next); }
  }

  lemma {:induction false} AppendLastLinked(f: Forest, parent: Node?, sub: Forest,
                                            m: map<Node, Links>, m': map<Node, Links>)
    requires Linked(f, parent, m) && Distinct(f) && f.Grove?
    requires Linked(sub, parent, m')
    requires forall n <- Nodes(f) ::
      n in m && n in m' && m'[n] == (if n == LastOf(f) then m[n].(sibling := Head(sub)) else m[n])
    ensures Linked(AppendLast(f, sub), parent, m')
  {
    LastInNodes(f);
    if f.next.Grove? {
      LastInNodes(f.next);
      LinkedFrame(f.kids, f.node, m, m');
      AppendLastLinked(f.next, parent, sub, m, m');
    } else {
      LinkedFrame(f.kids, f.node, m, m');
    }
  }

  lemma {:induction false} AbsentChild(f: Forest, p: Node, sub: Forest)
    requires p !in Nodes(f)
    ensures AppendChild(f, p, sub) == f
  {
    if f.Grove? {
      AbsentChild(f.kids, p, sub);
      AbsentChild(f.next, p, sub);
    }
  }

  /** The links of `n` after `x` was linked as last child of `p`. */
  ghost function LinkedTo(f: Forest, p: Node, x: Node, n: Node, links: Links): Links
    requires p in Nodes(f)
  {
    var kids := At(f, p).kids;
    if kids.Empty? then (if n == p then links.(child := x) else links)
    else (if n == LastOf(kids) then links.(sibling := x) else links)
  }

  lemma {:induction false} AppendChildLinked(f: Forest, parent: Node?, p: Node, sub: Forest,
                                             m: map<Node, Links>, m': map<Node, Links>)
    requires Linked(f, parent, m) && Distinct(f) && p in Nodes(f) && sub.Grove?
    requires Linked(sub, p, m')
    requires forall n <- Nodes(f) :: n in m && n in m' && m'[n] == LinkedTo(f, p, sub.node, n, m[n])
    ensures Linked(AppendChild(f, p, sub), parent, m')
  {
    var kids := At(f, p).kids;
    if kids.Grove? { LastInNodes(kids); AtNodes(f, p); }
    if f.node == p {
      LinkedFrame(f.next, parent, m, m');
      if kids.Grove? {
        AppendLastLinked(kids, p, sub, m, m');
      }
    } else if p in Nodes(f.kids) {
      AtNodes(f.kids, p);
      AppendChildLinked(f.kids, f.node, p, sub, m, m');
      AbsentChild(f.next, p, sub);
      LinkedFrame(f.next, parent, m, m');
      HeadKept(f.kids, p, sub);
    } else {
      AtNodes(f.next, p);
      AppendChildLinked(f.next, parent, p, sub, m, m');
      AbsentChild(f.kids, p, sub);
      LinkedFrame(f.kids, f.node, m, m');
      HeadKept(f.next, p, sub);
    }
  }

  lemma AtNodes(f: Forest, p: Node)
    requires p in Nodes(f)
    ensures Nodes(At(f, p).kids) <= Nodes(At(f, p)) <= Nodes(f)
  {
  }

  lemma HeadKept(f: Forest, p: Node, sub: Forest)
    ensures Head(AppendChild(f, p, sub)) == Head(f)
  {
  }

  // ----- removing a node with its descendants

  ghost function Remove(f: Forest, x: Node): Forest {
    match f
    case Empty => Empty
    case Grove(n, kids, next) =>
      if n == x then next else Grove(n, Remove(kids, x), Remove(next, x))
  }

  lemma {:induction false} RemoveAbsent(f: Forest, x: Node)
    requires x !in Nodes(f)
    ensures Remove(f, x) == f
  {
    if f.Grove? {
      RemoveAbsent(f.kids, x);
      RemoveAbsent(f.next, x);
    }
  }

  /** The links of a node after `x`, whose links were `of`, was passed over. */
  function Bypassed(links: Links, x: Node, of: Links): Links {
    Links(links.parent,
          if links.child == x then of.sibling else links.child,
          if links.sibling == x then of.sibling else links.sibling)
  }

  lemma {:induction false} RemoveLinked(f: Forest, parent: Node?, x: Node, m: map<Node, Links>, m': map<Node, Links>)
    requires Linked(f, parent, m) && Distinct(f) && x in Nodes(f) && x in m
    requires forall n <- Nodes(f) :: n in m && (n != x ==> n in m' && m'[n] == Bypassed(m[n], x, m[x]))
    ensures Linked(Remove(f, x), parent, m')
  {
    if f.node == x {
      PointersOnce(f.next, parent, m, x);
      LinkedFrame(f.next, parent, m, m');
    } else if x in Nodes(f.kids) {
      RemoveLinked(f.kids, f.node, x, m, m');
      RemoveAbsent(f.next, x);
      PointersOnce(f.next, parent, m, x);
      LinkedFrame(f.next, parent, m, m');
    } else {
      RemoveLinked(f.next, parent, x, m, m');
      RemoveAbsent(f.kids, x);
      PointersOnce(f.kids, f.node, m, x);
      LinkedFrame(f.kids, f.node, m, m');
    }
  }

  /** Nothing in the chain points at `x` if `x` is its head or not in it; otherwise exactly
      one link does. */
  lemma {:induction false} PointersOnce(f: Forest, parent: Node?, m: map<Node, Links>, x: Node)
    requires Linked(f, parent, m) && Distinct(f)
    ensures forall n <- Nodes(f) :: n in m
    ensures x !in Nodes(f) || x == f.node ==> forall n <- Nodes(f) :: m[n].child != x && m[n].sibling != x
    ensures x in Nodes(f) && x != f.node ==> exists n <- Nodes(f) :: m[n].child == x || m[n].sibling == x
    ensures forall a, b :: a in Nodes(f) && b in Nodes(f) && m[a].child == x && m[b].child == x ==> a == b
    ensures forall a, b :: a in Nodes(f) && b in Nodes(f) && m[a].sibling == x && m[b].sibling == x ==> a == b
    ensures forall a, b :: a in Nodes(f) && b in Nodes(f) && m[a].child == x ==> m[b].sibling != x
  {
    if f.Grove? {
      PointersOnce(f.kids, f.node, m, x);
      PointersOnce(f.next, parent, m, x);
    }
  }

  // ----- what the two changes amount to

  lemma {:induction false} NodesAppendLast(f: Forest, sub: Forest)
    ensures Nodes(AppendLast(f, sub)) == Nodes(f) + Nodes(sub)
    ensures Chain(AppendLast(f, sub)) == Chain(f) + Chain(sub)
    ensures Preorder(AppendLast(f, sub)) == Preorder(f) + Preorder(sub)
    ensures Distinct(f) && Distinct(sub) && Nodes(f) !! Nodes(sub) ==> Distinct(AppendLast(f, sub))
  {
    if f.Grove? { NodesAppendLast(f.next, sub); }
  }

  lemma {:induction false} NodesAppendChild(f: Forest, p: Node, sub: Forest)
    requires Distinct(f) && Distinct(sub) && Nodes(f) !! Nodes(sub)
    ensures Nodes(AppendChild(f, p, sub)) == if p in Nodes(f) then Nodes(f) + Nodes(sub) else Nodes(f)
    ensures Distinct(AppendChild(f, p, sub))
  {
    if f.Grove? {
      NodesAppendLast(f.kids, sub);
      NodesAppendChild(f.kids, p, sub);
      NodesAppendChild(f.next, p, sub);
    }
  }

  /** After linking, the children of `p` are the old ones in order and then the new one,
      and every other node has the children it had. */
  lemma {:induction false} ChildrenAfterLink(f: Forest, p: Node, sub: Forest, n: Node)
    requires Distinct(f) && Distinct(sub) && Nodes(f) !! Nodes(sub) && p in Nodes(f) && n in Nodes(f)
    ensures n in Nodes(AppendChild(f, p, sub))
    ensures Chain(At(AppendChild(f, p, sub), n).kids)
      == if n == p then Chain(At(f, p).kids) + Chain(sub) else Chain(At(f, n).kids)
  {
    NodesAppendChild(f, p, sub);
    NodesAppendLast(f.kids, sub);
    NodesAppendChild(f.kids, p, sub);
    NodesAppendChild(f.next, p, sub);
    if p !in Nodes(f.kids) { AbsentChild(f.kids, p, sub); }
    if p !in Nodes(f.next) { AbsentChild(f.next, p, sub); }
    if f.node == n {
      if n != p && p in Nodes(f.kids) { ChainKept(f.kids, p, sub); }
    } else if n in Nodes(f.kids) {
      if f.node == p {
        AtInFront(f.kids, sub, n);
      } else if p in Nodes(f.kids) {
        ChildrenAfterLink(f.kids, p, sub, n);
      }
    } else if f.node != p && p in Nodes(f.next) {
      ChildrenAfterLink(f.next, p, sub, n);
    }
  }

  lemma {:induction false} ChainKept(f: Forest, p: Node, sub: Forest)
    ensures Chain(AppendChild(f, p, sub)) == Chain(f)
  {
    if f.Grove? { ChainKept(f.next, p, sub); }
  }

  lemma {:induction false} AtInFront(f: Forest, sub: Forest, n: Node)
    requires n in Nodes(f)
    ensures n in Nodes(AppendLast(f, sub)) && At(AppendLast(f, sub), n).kids == At(f, n).kids
  {
    NodesAppendLast(f, sub);
    if f.node != n && n !in Nodes(f.kids) {
      AtInFront(f.next, sub, n);
    }
  }

  lemma {:induction false} NodesRemove(f: Forest, x: Node)
    requires Distinct(f) && x in Nodes(f)
    ensures Nodes(Remove(f, x)) == Nodes(f) - Nodes(Cut(f, x))
    ensures Distinct(Remove(f, x))
  {
    if f.node == x {
      assert Nodes(Cut(f, x)) == {x} + Nodes(f.kids);
    } else if x in Nodes(f.kids) {
      NodesRemove(f.kids, x);
      RemoveAbsent(f.next, x);
      assert Cut(f, x) == Cut(f.kids, x);
    } else {
      NodesRemove(f.next, x);
      RemoveAbsent(f.kids, x);
      assert Cut(f, x) == Cut(f.next, x);
      CutInside(f.next, x);
    }
  }

  lemma CutInside(f: Forest, x: Node)
    requires x in Nodes(f)
    ensures Nodes(Cut(f, x)) <= Nodes(f)
  {
    AtNodes(f, x);
  }

  /** In preorder, the node with its descendants is one block; removing takes out that
      block and leaves the rest in place. */
  lemma {:induction false} RemoveTakesBlock(f: Forest, x: Node) returns (before: seq<Node>, after: seq<Node>)
    requires Distinct(f) && x in Nodes(f)
    ensures Preorder(f) == before + Preorder(Cut(f, x)) + after
    ensures Preorder(Remove(f, x)) == before + after
  {
    if f.node == x {
      before, after := [], Preorder(f.next);
    } else if x in Nodes(f.kids) {
      before, after := RemoveTakesBlock(f.kids, x);
      RemoveAbsent(f.next, x);
      Around([f.node], before, Preorder(Cut(f.kids, x)), after, Preorder(f.next));
      before, after := [f.node] + before, after + Preorder(f.next);
    } else {
      before, after := RemoveTakesBlock(f.next, x);
      RemoveAbsent(f.kids, x);
      Around([f.node] + Preorder(f.kids), before, Preorder(Cut(f.next, x)), after, []);
      before := [f.node] + Preorder(f.kids) + before;
    }
  }

  lemma Around<T>(a: seq<T>, b: seq<T>, c: seq<T>, d: seq<T>, e: seq<T>)
    ensures a + (b + c + d) + e == (a + b) + c + (d + e)
    ensures a + (b + d) + e == (a + b) + (d + e)
    ensures e == [] ==> a + (b + c + d) == (a + b) + c + d && a + (b + d) == (a + b) + d
  {
  }

  function WithoutNode(ns: seq<Node>, x: Node): seq<Node> {
    if ns == [] then [] else (if ns[0] == x then [] else [ns[0]]) + WithoutNode(ns[1..], x)
  }

  lemma {:induction false} WithoutAbsent(ns: seq<Node>, x: Node)
    requires x !in ns
    ensures WithoutNode(ns, x) == ns
  {
    if ns != [] { WithoutAbsent(ns[1..], x); }
  }

  /** A chain after removal is the chain without the removed node, in the same order. */
  lemma {:induction false} ChainAfterRemove(f: Forest, x: Node)
    requires Distinct(f)
    ensures Chain(Remove(f, x)) == WithoutNode(Chain(f), x)
  {
    if f.Grove? {
      ChainAfterRemove(f.next, x);
      assert Chain(f)[1..] == Chain(f.next);
      if f.node == x {
        ChainInNodes(f.next);
        WithoutAbsent(Chain(f.next), x);
      }
    }
  }

  /** After unlinking `x`, every node that is left has the children it had, in the same
      order, except that `x` is gone. */
  lemma {:induction false} ChildrenAfterUnlink(f: Forest, x: Node, n: Node)
    requires Distinct(f) && x in Nodes(f) && n in Nodes(Remove(f, x))
    ensures n in Nodes(f) && Chain(At(Remove(f, x), n).kids) == WithoutNode(Chain(At(f, n).kids), x)
  {
    NodesRemove(f, x);
    if f.node == x {
      AbsentBelow(f.next, x, n);
    } else {
      RemoveAbsentBoth(f, x);
      if n == f.node {
        ChainAfterRemove(f.kids, x);
      } else if x in Nodes(f.kids) {
        NodesRemove(f.kids, x);
        if n in Nodes(Remove(f.kids, x)) {
          ChildrenAfterUnlink(f.kids, x, n);
        } else {
          AbsentBelow(f.next, x, n);
        }
      } else {
        NodesRemove(f.next, x);
        if n in Nodes(f.kids) {
          AbsentBelow(f.kids, x, n);
        } else {
          ChildrenAfterUnlink(f.next, x, n);
        }
      }
    }
  }

  lemma RemoveAbsentBoth(f: Forest, x: Node)
    requires f.Grove?
    ensures x !in Nodes(f.kids) ==> Remove(f.kids, x) == f.kids
    ensures x !in Nodes(f.next) ==> Remove(f.next, x) == f.next
  {
    if x !in Nodes(f.kids) { RemoveAbsent(f.kids, x); }
    if x !in Nodes(f.next) { RemoveAbsent(f.next, x); }
  }

  lemma AbsentBelow(f: Forest, x: Node, n: Node)
    requires x !in Nodes(f) && n in Nodes(f)
    ensures WithoutNode(Chain(At(f, n).kids), x) == Chain(At(f, n).kids)
  {
    AtNodes(f, n);
    ChainInNodes(At(f, n).kids);
    WithoutAbsent(Chain(At(f, n).kids), x);
  }

  /** Unlinking undoes linking. */
  lemma {:induction false} RemoveUndoesAppend(f: Forest, p: Node, sub: Forest)
    requires Distinct(f) && Distinct(sub) && Nodes(f) !! Nodes(sub) && sub.Grove? && sub.next.Empty?
    ensures Remove(AppendChild(f, p, sub), sub.node) == f
  {
    if f.Grove? {
      RemoveAbsentBoth(f, sub.node);
      RemoveUndoesAppend(f.kids, p, sub);
      RemoveUndoesAppend(f.next, p, sub);
      RemoveUndoesAppendLast(f.kids, sub);
    }
  }

  lemma {:induction false} RemoveUndoesAppendLast(f: Forest, sub: Forest)
    requires Distinct(f) && Nodes(f) !! Nodes(sub) && sub.Grove? && sub.next.Empty?
    ensures Remove(AppendLast(f, sub), sub.node) == f
  {
    if f.Grove? {
      RemoveAbsentBoth(f, sub.node);
      RemoveUndoesAppendLast(f.next, sub);
    }
  }

  /** And what was linked is what is cut out. */
  lemma {:induction false} CutOfAppended(f: Forest, p: Node, sub: Forest)
    requires Distinct(f) && Distinct(sub) && Nodes(f) !! Nodes(sub) && sub.Grove? && sub.next.Empty? && p in Nodes(f)
    ensures sub.node in Nodes(AppendChild(f, p, sub)) && Cut(AppendChild(f, p, sub), sub.node) == sub
  {
    NodesAppendChild(f, p, sub);
    NodesAppendLast(f.kids, sub);
    NodesAppendChild(f.kids, p, sub);
    if f.node == p {
      CutOfLast(f.kids, sub);
    } else if p in Nodes(f.kids) {
      CutOfAppended(f.kids, p, sub);
    } else {
      AbsentChild(f.kids, p, sub);
      CutOfAppended(f.next, p, sub);
    }
  }

  lemma {:induction false} CutOfLast(f: Forest, sub: Forest)
    requires Nodes(f) !! Nodes(sub) && sub.Grove? && sub.next.Empty?
    ensures sub.node in Nodes(AppendLast(f, sub)) && Cut(AppendLast(f, sub), sub.node) == sub
  {
    NodesAppendLast(f, sub);
    if f.Grove? { CutOfLast(f.next, sub); }
  }
}
