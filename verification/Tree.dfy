/** The trees of ds.c in memory: linking, finding, unlinking and clearing in place. */
module Tree {
  import opened TreeShape

  /** Memory represents the forest, whose top nodes have this parent. */
  ghost predicate InMemory(f: Forest, parent: Node?)
    reads Nodes(f)
  {
    match f
    case Empty => true
    case Grove(n, kids, next) =>
      && n.parent == parent && n.child == Head(kids) && n.sibling == Head(next)
      && InMemory(kids, n) && InMemory(next, parent)
  }

  /** Memory holds the links that are recorded. */
  ghost predicate Held(m: map<Node, Links>)
    reads m.Keys
  {
    forall n <- m.Keys :: m[n] == Links(n.parent, n.child, n.sibling)
  }

  lemma Record(ns: set<Node>) returns (m: map<Node, Links>)
    ensures m.Keys == ns && Held(m)
  {
    m := map[];
    if ns != {} {
      var n :| n in ns;
      m := Record(ns - {n});
      m := m[n := Links(n.parent, n.child, n.sibling)];
    }
  }

  lemma {:induction false} FromMemory(f: Forest, parent: Node?, m: map<Node, Links>)
    requires InMemory(f, parent) && Held(m) && Nodes(f) <= m.Keys
    ensures Linked(f, parent, m)
  {
    if f.Grove? {
      FromMemory(f.kids, f.node, m);
      FromMemory(f.next, parent, m);
    }
  }

  lemma {:induction false} ToMemory(f: Forest, parent: Node?, m: map<Node, Links>)
    requires Linked(f, parent, m) && Held(m)
    ensures InMemory(f, parent)
  {
    if f.Grove? {
      ToMemory(f.kids, f.node, m);
      ToMemory(f.next, parent, m);
    }
  }

  /** A single node with its descendants, linked to nothing else. */
  ghost predicate Detached(sub: Forest)
    reads Nodes(sub)
  {
    sub.Grove? && sub.next.Empty? && Distinct(sub) && InMemory(sub, null)
  }

  /** Where a pointer to a chain is kept. */
  datatype Place = RootOf | ChildOf(node: Node) | SiblingOf(node: Node)

  /** A tree: the variable that `root` points at, and the shape that its nodes represent. */
  class Tree {
    var root: Node?
    ghost var shape: Forest
    /** The nodes handed to the clearing function so far, in order. */
    ghost var cleared: seq<Node>

    ghost predicate Valid()
      reads this, Nodes(shape)
    {
      && root == Head(shape)
      && (shape.Grove? ==> shape.next.Empty?)
      && Distinct(shape)
      && InMemory(shape, null)
    }

    constructor ()
      ensures Valid() && shape == Empty && cleared == []
    {
      root := null;
      shape := Empty;
      cleared := [];
    }

    /** Links the detached node `ptr`, with the descendants it has, as last child of `parent`,
        or as root of an empty tree.  Without a parent a tree that has a root is left alone. */
    method Link(parent: Node?, ptr: Node?, ghost sub: Forest)
      requires Valid()
      requires ptr != null ==> Detached(sub) && sub.node == ptr && Nodes(sub) !! Nodes(shape)
      requires root != null && parent != null ==> parent in Nodes(shape)
      modifies this`root, this`shape, Nodes(shape), if ptr == null then {} else {ptr}
      ensures Valid()
      ensures shape ==
        if ptr == null then old(shape)
        else if old(shape).Empty? then sub
        else if parent == null then old(shape)
        else AppendChild(old(shape), parent, sub)
    {
      if ptr == null {
        return;
      }
      if root == null {
        root := ptr;
        shape := sub;
        return;
      }
      if parent != null {
        ghost var m := Record(Nodes(shape) + Nodes(sub));
        FromMemory(shape, null, m);
        FromMemory(sub, null, m);
        ghost var m' := LinkBelow(parent, ptr, shape, sub, m);
        LinkKeeps(shape, parent, sub, m, m');
        shape := AppendChild(shape, parent, sub);
        ToMemory(shape, null, m');
      }
    }

    /** Finds from `parent`, or from the root, the first node that the test accepts and takes
        it out of the tree together with its descendants. */
    method Unlink(parent: Node?, test: Node -> bool) returns (ptr: Node?)
      requires Valid()
      requires parent != null ==> parent in Nodes(shape)
      modifies this`root, this`shape, Nodes(shape)
      ensures Valid()
      ensures ptr == FirstMatch(Preorder(if parent == null then old(shape) else At(old(shape), parent)), test)
      ensures var start := if parent != null then parent else old(root);
        start != null && test(start) ==> ptr == start
      ensures ptr == null ==> shape == old(shape)
      ensures ptr != null ==>
        && ptr in Nodes(old(shape))
        && shape == Remove(old(shape), ptr)
        && Detached(Cut(old(shape), ptr))
    {
      ptr := Search(parent, test);
      if ptr != null {
        Detach(ptr);
      }
    }

    /** The first node that the test accepts, from `parent` or from the root. */
    method Search(parent: Node?, test: Node -> bool) returns (ptr: Node?)
      requires Valid() && (parent != null ==> parent in Nodes(shape))
      ensures ptr == FirstMatch(Preorder(if parent == null then shape else At(shape, parent)), test)
      ensures Valid() && (ptr != null ==> ptr in Nodes(shape))
      ensures var start := if parent != null then parent else root;
        start != null && test(start) ==> ptr == start
    {
      ghost var m := Record(Nodes(shape));
      FromMemory(shape, null, m);
      ghost var start, above := From(shape, m, parent);
      ptr := Find(if parent != null then parent else root, test, start, above, m);
      InOrders(start);
      ToMemory(shape, null, m);
    }

    /** Takes a node of the tree out, with its descendants. */
    method Detach(ptr: Node)
      requires Valid() && ptr in Nodes(shape)
      modifies this`root, this`shape, Nodes(shape)
      ensures Valid() && shape == Remove(old(shape), ptr) && Detached(Cut(old(shape), ptr))
    {
      ghost var m := Record(Nodes(shape));
      FromMemory(shape, null, m);
      ghost var m' := TakeOut(ptr, m);
      TwoTrees(shape, ptr, m, m');
      shape := Remove(shape, ptr);
    }

    /** Empties the tree, handing each node once to the clearing function, which may free it. */
    method Clear()
      requires Valid() && forall n <- Nodes(shape) :: n !in cleared
      modifies this, Nodes(shape)
      ensures Valid() && shape == Empty
      ensures cleared == old(cleared) + ClearOrder(old(shape))
    {
      ghost var m := Record(Nodes(shape));
      FromMemory(shape, null, m);
      ClearFrom(RootOf, shape, null, m);
      shape := Empty;
    }

    /** Clears the chain that starts at the place.  No place in a node that was handed to the
        clearing function is read or written. */
    method ClearFrom(place: Place, ghost f: Forest, ghost parent: Node?, ghost m: map<Node, Links>)
      requires forall n <- Nodes(f) :: n !in cleared
      requires place.RootOf? || place.node !in Nodes(f) + set n <- cleared
      requires Linked(f, parent, m) && Held(m) && m.Keys == Nodes(f) && Distinct(f)
      requires Kept(place) == Head(f)
      modifies this`cleared, Nodes(f), InRoot(place)`root, InChild(place)`child, InSibling(place)`sibling
      ensures cleared == old(cleared) + ClearOrder(f)
      ensures Kept(place) == null
      decreases f, 1
    {
      var ptr := Load(place);
      if ptr != null {
        ClearBelow(ptr, f, parent, m);
        cleared := cleared + [f.node];
        InOrders(f);
        Erase(place);
      }
    }

    /** Clears what hangs from a node: first its children, then its siblings. */
    method ClearBelow(node: Node, ghost f: Forest, ghost parent: Node?, ghost m: map<Node, Links>)
      requires forall n <- Nodes(f) :: n !in cleared
      requires Linked(f, parent, m) && Held(m) && m.Keys == Nodes(f) && Distinct(f)
      requires f.Grove? && node == f.node
      modifies this`cleared, Nodes(f)
      ensures cleared + [node] == old(cleared) + ClearOrder(f)
      ensures node !in cleared
      decreases f, 0
    {
      ghost var before := cleared;
      ghost var mk, mn := Apart(f, parent, m);
      ClearAt(ChildOf(node), f.kids, node, mk);
      ClearAt(SiblingOf(node), f.next, parent, mn);
      Regroup(before, ClearOrder(f.kids), ClearOrder(f.next), [node]);
    }

    /** Clears the chain at a place, if there is one. */
    method ClearAt(place: Place, ghost f: Forest, ghost parent: Node?, ghost m: map<Node, Links>)
      requires forall n <- Nodes(f) :: n !in cleared
      requires !place.RootOf? && place.node !in Nodes(f) + set n <- cleared
      requires Linked(f, parent, m) && Held(m) && m.Keys == Nodes(f) && Distinct(f)
      requires Kept(place) == Head(f)
      modifies this`cleared, Nodes(f), InRoot(place)`root, InChild(place)`child, InSibling(place)`sibling
      ensures cleared == old(cleared) + ClearOrder(f)
      decreases f, 2
    {
      var first := Load(place);
      if first != null {
        ClearFrom(place, f, parent, m);
      }
    }

    /** The pointer kept at the place. */
    ghost function Kept(place: Place): Node?
      reads this, InChild(place), InSibling(place)
    {
      match place
      case RootOf => root
      case ChildOf(n) => n.child
      case SiblingOf(n) => n.sibling
    }

    ghost function InRoot(place: Place): set<Tree> { if place.RootOf? then {this} else {} }
    ghost function InChild(place: Place): set<Node> { if place.ChildOf? then {place.node} else {} }
    ghost function InSibling(place: Place): set<Node> { if place.SiblingOf? then {place.node} else {} }

    method Load(place: Place) returns (r: Node?)
      requires place.RootOf? || place.node !in cleared
      ensures r == Kept(place)
    {
      match place
      case RootOf => r := root;
      case ChildOf(n) => r := n.child;
      case SiblingOf(n) => r := n.sibling;
    }

    method Erase(place: Place)
      requires place.RootOf? || place.node !in cleared
      modifies InRoot(place)`root, InChild(place)`child, InSibling(place)`sibling
      ensures Kept(place) == null
    {
      match place
      case RootOf => root := null;
      case ChildOf(n) => n.child := null;
      case SiblingOf(n) => n.sibling := null;
    }

    /** Sets the links that take `ptr` out. */
    method TakeOut(ptr: Node, ghost m: map<Node, Links>) returns (ghost m': map<Node, Links>)
      requires root == Head(shape) && (shape.Grove? ==> shape.next.Empty?) && Distinct(shape)
      requires Linked(shape, null, m) && Held(m) && m.Keys == Nodes(shape) && ptr in Nodes(shape)
      modifies this`root, Nodes(shape)
      ensures root == if ptr == old(root) then null else old(root)
      ensures m'.Keys == m.Keys && Held(m') && Skipped(shape, ptr, m, m')
      ensures m'[ptr] == m[ptr].(parent := null, sibling := null)
    {
      if ptr == root {
        root := null;
        PointersOnce(shape, null, m, ptr);
        m' := m;
      } else {
        m' := PassOver(ptr, shape, m);
      }
      m' := SetParent(ptr, null, m');
      m' := SetSibling(ptr, null, m');
    }
  }

  lemma Regroup<T>(a: seq<T>, b: seq<T>, c: seq<T>, d: seq<T>)
    ensures a + b + c + d == a + (b + c + d)
  {
  }

  lemma Apart(f: Forest, parent: Node?, m: map<Node, Links>) returns (mk: map<Node, Links>, mn: map<Node, Links>)
    requires f.Grove? && Linked(f, parent, m) && m.Keys == Nodes(f) && Distinct(f)
    ensures Linked(f.kids, f.node, mk) && mk.Keys == Nodes(f.kids)
    ensures Linked(f.next, parent, mn) && mn.Keys == Nodes(f.next)
    ensures Held(m) ==> Held(mk) && Held(mn)
    ensures forall n <- ClearOrder(f.kids) :: n in Nodes(f.kids)
    ensures forall n <- ClearOrder(f.next) :: n in Nodes(f.next)
  {
    mk := m - ({f.node} + Nodes(f.next));
    mn := m - ({f.node} + Nodes(f.kids));
    LinkedFrame(f.kids, f.node, m, mk);
    LinkedFrame(f.next, parent, m, mn);
    InOrders(f.kids);
    InOrders(f.next);
  }

  /** Where a search starts: at a node of the tree, or at its root. */
  lemma From(f: Forest, m: map<Node, Links>, parent: Node?) returns (start: Forest, above: Node?)
    requires Linked(f, null, m) && Distinct(f) && (parent != null ==> parent in Nodes(f))
    ensures start == (if parent == null then f else At(f, parent)) && Nodes(start) <= Nodes(f)
    ensures Head(start) == (if parent == null then Head(f) else parent) && Linked(start, above, m)
  {
    start, above := f, null;
    if parent != null {
      start, above := At(f, parent), ParentOf(f, null, parent);
      AtLinked(f, null, m, parent);
    }
  }

  lemma KidsLinked(f: Forest, parent: Node?, m: map<Node, Links>, p: Node)
    requires Linked(f, parent, m) && Distinct(f) && p in Nodes(f)
    ensures Linked(At(f, p).kids, p, m) && Nodes(At(f, p).kids) <= Nodes(f)
    ensures p in m && m[p].child == Head(At(f, p).kids) && Distinct(At(f, p)) && p !in Nodes(At(f, p).kids)
  {
    AtLinked(f, parent, m, p);
    AtNodes(f, p);
  }

  /** The records before and after the top node of `sub` was made the last child of `p`. */
  ghost predicate Attached(f: Forest, p: Node, sub: Forest, m: map<Node, Links>, m': map<Node, Links>)
    requires p in Nodes(f) && sub.Grove?
  {
    && (forall n <- Nodes(f) :: n in m && n in m' && m'[n] == LinkedTo(f, p, sub.node, n, m[n]))
    && (forall n <- Nodes(sub) :: n in m && n in m' && m'[n] == if n == sub.node then m[n].(parent := p) else m[n])
  }

  lemma LinkKeeps(f: Forest, p: Node, sub: Forest, m: map<Node, Links>, m': map<Node, Links>)
    requires Linked(f, null, m) && Distinct(f) && p in Nodes(f) && Nodes(f) !! Nodes(sub)
    requires Linked(sub, null, m) && Distinct(sub) && sub.Grove? && sub.next.Empty?
    requires Attached(f, p, sub, m, m')
    ensures Linked(AppendChild(f, p, sub), null, m')
    ensures Distinct(AppendChild(f, p, sub))
    ensures Nodes(AppendChild(f, p, sub)) == Nodes(f) + Nodes(sub)
    ensures Head(AppendChild(f, p, sub)) == Head(f)
    ensures f.next.Empty? && f.node in Nodes(f) ==> AppendChild(f, p, sub).next.Empty?
  {
    LinkedFrame(sub.kids, sub.node, m, m');
    NodesAppendChild(f, p, sub);
    AppendChildLinked(f, null, p, sub, m, m');
  }

  lemma UnlinkKeeps(f: Forest, x: Node, m: map<Node, Links>, m': map<Node, Links>)
    requires Linked(f, null, m) && Distinct(f) && x in Nodes(f) && f.next.Empty?
    requires x in m && Skipped(f, x, m, m') && x in m' && m'[x] == m[x].(parent := null, sibling := null)
    ensures Linked(Remove(f, x), null, m') && Distinct(Remove(f, x)) && Nodes(Remove(f, x)) <= Nodes(f)
    ensures Remove(f, x).Grove? ==> Remove(f, x).next.Empty?
    ensures Head(Remove(f, x)) == if x == f.node then null else f.node
    ensures Linked(Cut(f, x), null, m') && Distinct(Cut(f, x)) && Nodes(Cut(f, x)) <= Nodes(f)
  {
    RemoveLinked(f, null, x, m, m');
    NodesRemove(f, x);
    KidsLinked(f, null, m, x);
    var kids := At(f, x).kids;
    PointersOnce(kids, x, m, x);
    LinkedFrame(kids, x, m, m');
    CutInside(f, x);
  }

  /** Memory then holds the rest of the tree, and the node with its descendants. */
  lemma TwoTrees(f: Forest, x: Node, m: map<Node, Links>, m': map<Node, Links>)
    requires Linked(f, null, m) && Distinct(f) && x in Nodes(f) && f.next.Empty? && Held(m')
    requires x in m && Skipped(f, x, m, m') && x in m' && m'[x] == m[x].(parent := null, sibling := null)
    ensures InMemory(Remove(f, x), null) && Distinct(Remove(f, x)) && Detached(Cut(f, x))
    ensures Remove(f, x).Grove? ==> Remove(f, x).next.Empty?
    ensures Head(Remove(f, x)) == if x == f.node then null else f.node
    ensures Nodes(Remove(f, x)) <= Nodes(f)
  {
    UnlinkKeeps(f, x, m, m');
    ToMemory(Cut(f, x), null, m');
    ToMemory(Remove(f, x), null, m');
  }

  /** The first node that the test accepts: a node, then its descendants, then the
      siblings after it. */
  method Find(start: Node?, test: Node -> bool, ghost f: Forest, ghost parent: Node?, ghost m: map<Node, Links>)
    returns (r: Node?)
    requires start == Head(f) && Linked(f, parent, m) && Held(m)
    ensures r == FirstMatch(Preorder(f), test)
    ensures start != null && test(start) ==> r == start
    decreases f
  {
    r := null;
    if start != null {
      if test(start) {
        assert Preorder(f)[0] == start;
        return start;
      }
      if start.child != null {
        r := Find(start.child, test, f.kids, start, m);
      }
      FindSplits(f, test);
      if r == null && start.sibling != null {
        r := Find(start.sibling, test, f.next, parent, m);
      }
    }
  }

  lemma SplitSearch(n: Node, a: seq<Node>, b: seq<Node>, test: Node -> bool)
    requires !test(n)
    ensures FirstMatch([n] + a + b, test)
      == if FirstMatch(a, test) != null then FirstMatch(a, test) else FirstMatch(b, test)
  {
    FirstMatchConcat([n] + a, b, test);
    FirstMatchConcat([n], a, test);
    assert FirstMatch([n], test) == null;
  }

  lemma FindSplits(f: Forest, test: Node -> bool)
    requires f.Grove? && !test(f.node)
    ensures FirstMatch(Preorder(f), test) ==
      if FirstMatch(Preorder(f.kids), test) != null then FirstMatch(Preorder(f.kids), test)
      else FirstMatch(Preorder(f.next), test)
  {
    SplitSearch(f.node, Preorder(f.kids), Preorder(f.next), test);
  }

  // Each link is written together with its record.

  method SetParent(n: Node, to: Node?, ghost m: map<Node, Links>) returns (ghost m': map<Node, Links>)
    requires n in m && Held(m)
    modifies n`parent
    ensures n.parent == to && m' == m[n := m[n].(parent := to)] && Held(m')
  {
    n.parent := to;
    m' := m[n := m[n].(parent := to)];
  }

  method SetChild(n: Node, to: Node?, ghost m: map<Node, Links>) returns (ghost m': map<Node, Links>)
    requires n in m && Held(m)
    modifies n`child
    ensures n.child == to && m' == m[n := m[n].(child := to)] && Held(m')
  {
    n.child := to;
    m' := m[n := m[n].(child := to)];
  }

  method SetSibling(n: Node, to: Node?, ghost m: map<Node, Links>) returns (ghost m': map<Node, Links>)
    requires n in m && Held(m)
    modifies n`sibling
    ensures n.sibling == to && m' == m[n := m[n].(sibling := to)] && Held(m')
  {
    n.sibling := to;
    m' := m[n := m[n].(sibling := to)];
  }

  /** Sets the links that make the top node of `sub` the last child of `parent`. */
  method LinkBelow(parent: Node, ptr: Node, ghost f: Forest, ghost sub: Forest, ghost m: map<Node, Links>)
    returns (ghost m': map<Node, Links>)
    requires Held(m) && m.Keys == Nodes(f) + Nodes(sub)
    requires Linked(f, null, m) && Distinct(f) && parent in Nodes(f) && Nodes(f) !! Nodes(sub)
    requires sub.Grove? && sub.node == ptr
    modifies Nodes(f), ptr
    ensures m'.Keys == m.Keys && Held(m') && Attached(f, parent, sub, m, m')
  {
    ghost var kids := At(f, parent).kids;
    KidsLinked(f, null, m, parent);
    m' := SetParent(ptr, parent, m);
    if parent.child == null {
      m' := SetChild(parent, ptr, m');
      AttachedFirst(f, parent, sub, m, m');
    } else {
      LinkedFrame(kids, parent, m, m');
      LastInNodes(kids);
      var current := Last(parent.child, kids, parent, m');
      m' := SetSibling(current, ptr, m');
      AttachedLast(f, parent, sub, m, m');
    }
  }

  lemma AttachedFirst(f: Forest, p: Node, sub: Forest, m: map<Node, Links>, m': map<Node, Links>)
    requires Distinct(f) && p in Nodes(f) && Nodes(f) !! Nodes(sub) && sub.Grove?
    requires m.Keys == Nodes(f) + Nodes(sub) && At(f, p).kids.Empty?
    requires m' == m[sub.node := m[sub.node].(parent := p)][p := m[p].(child := sub.node)]
    ensures Attached(f, p, sub, m, m')
  {
  }

  lemma AttachedLast(f: Forest, p: Node, sub: Forest, m: map<Node, Links>, m': map<Node, Links>)
    requires Distinct(f) && p in Nodes(f) && Nodes(f) !! Nodes(sub) && sub.Grove?
    requires m.Keys == Nodes(f) + Nodes(sub) && At(f, p).kids.Grove? && LastOf(At(f, p).kids) in Nodes(f)
    requires var last := LastOf(At(f, p).kids);
      m' == m[sub.node := m[sub.node].(parent := p)][last := m[last].(sibling := sub.node)]
    ensures Attached(f, p, sub, m, m')
  {
  }

  /** Walks a chain to its last node. */
  method Last(first: Node, ghost f: Forest, ghost parent: Node?, ghost m: map<Node, Links>) returns (current: Node)
    requires f.Grove? && first == f.node && Linked(f, parent, m) && Held(m)
    ensures current == LastOf(f)
  {
    current := first;
    ghost var rest := f;
    while current.sibling != null
      invariant rest.Grove? && current == rest.node && LastOf(rest) == LastOf(f)
      invariant Linked(rest, parent, m)
      decreases rest
    {
      current := current.sibling;
      rest := rest.next;
    }
  }

  lemma {:induction false} ParentChain(f: Forest, parent: Node?, m: map<Node, Links>, x: Node)
    requires Linked(f, parent, m) && Distinct(f) && x in Nodes(f)
    ensures x in m
    ensures var q := m[x].parent;
      if x in Chain(f) then q == parent else q != null && q in Nodes(f) && x in Chain(At(f, q).kids)
  {
    ChainInNodes(f);
    if f.node != x {
      if x in Nodes(f.kids) {
        ChainInNodes(f.next);
        ParentChain(f.kids, f.node, m, x);
      } else {
        ParentChain(f.next, parent, m, x);
      }
    }
  }

  /** The records before and after `x` was passed over, apart from the record of `x`. */
  ghost predicate Skipped(f: Forest, x: Node, m: map<Node, Links>, m': map<Node, Links>)
    requires x in m
  {
    forall n <- Nodes(f) :: n in m && n in m' && (n != x ==> m'[n] == Bypassed(m[n], x, m[x]))
  }

  lemma SkippedBy(f: Forest, x: Node, y: Node, m: map<Node, Links>, m': map<Node, Links>)
    requires Linked(f, null, m) && Distinct(f) && x in Nodes(f) && y in Nodes(f) && x in m && y in m
    requires
      || (m[y].child == x && m' == m[y := m[y].(child := m[x].sibling)])
      || (m[y].sibling == x && m' == m[y := m[y].(sibling := m[x].sibling)])
    ensures Skipped(f, x, m, m')
  {
    PointersOnce(f, null, m, x);
  }

  /** Makes the link to `ptr`, of its parent or of the sibling before it, skip `ptr`. */
  method PassOver(ptr: Node, ghost f: Forest, ghost m: map<Node, Links>) returns (ghost m': map<Node, Links>)
    requires Linked(f, null, m) && Held(m) && m.Keys == Nodes(f) && Distinct(f) && f.Grove? && f.next.Empty?
    requires ptr in Nodes(f) && ptr != f.node
    modifies Nodes(f)
    ensures m'.Keys == m.Keys && Held(m') && Skipped(f, ptr, m, m') && m'[ptr] == m[ptr]
  {
    m' := m;
    ParentChain(f, null, m, ptr);
    assert Chain(f) == [f.node];
    ghost var q: Node := ptr.parent;
    KidsLinked(f, null, m, q);
    ghost var rest := At(f, q).kids;
    var previous: Node? := null;
    var current := ptr.parent.child;
    while current != null
      invariant current == Head(rest) && Linked(rest, q, m) && Distinct(rest) && Nodes(rest) <= Nodes(f)
      invariant m'.Keys == m.Keys && Held(m') && m'[ptr] == m[ptr]
      invariant forall n <- Nodes(rest) :: m'[n] == m[n]
      invariant if ptr in Chain(rest) then m' == m else Skipped(f, ptr, m, m')
      invariant if previous == null then m[q].child == current && rest == At(f, q).kids
                else previous in Nodes(f) && previous !in Nodes(rest) && m[previous].sibling == current
      decreases rest
    {
      ChainInNodes(rest.next);
      if current == ptr {
        if previous == null {
          m' := SetChild(current.parent, current.sibling, m');
          SkippedBy(f, ptr, q, m, m');
        } else {
          m' := SetSibling(previous, current.sibling, m');
          SkippedBy(f, ptr, previous, m, m');
        }
      }
      previous := current;
      current := current.sibling;
      rest := rest.next;
    }
  }
}
