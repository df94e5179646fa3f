/** The visual tree as an arena of elements, the per-element layout state the engine
    mutates, and the parent-chain geometry every upward walk and downward pass relies on. */
module VisualTree {
  import opened Values
  import opened LayoutFlags

  /** Whether the element implements the custom-clipping interface, and if so whether it
      allows clipping to its layout slot. */
  datatype Clipping = NotCustomClipping | CustomClipping(allowClippingToLayoutSlot: bool)

  /** What the layout engine reads about an element but never changes: its place in the
      tree and its configuration. `depth` is the length of its parent chain. */
  datatype Element = Element(
    parent: Option<NodeId>,
    children: seq<NodeId>,
    depth: nat,
    isFrameworkElement: bool,
    isVisualTreeRoot: bool,
    collapsed: bool,
    interceptInvalidate: bool,
    clipping: Clipping)

  /** The arena. `height` bounds every element's depth. */
  datatype Tree = Tree(elements: map<NodeId, Element>, height: nat)

  /** Parents exist one level up, children name their parent, depths stay within the
      height, and the visual-tree root has no parent. */
  predicate WF(t: Tree) {
    forall id | id in t.elements ::
      && t.elements[id].depth <= t.height
      && (t.elements[id].parent.Some? ==>
            && t.elements[id].parent.value in t.elements
            && t.elements[t.elements[id].parent.value].depth + 1 == t.elements[id].depth)
      && (forall c | c in t.elements[id].children ::
            c in t.elements && t.elements[c].parent == Some(id))
      && (t.elements[id].isVisualTreeRoot ==> t.elements[id].parent.None?)
  }

  /** The length of `id`'s parent chain; every downward pass and upward walk decreases on it. */
  function Depth(t: Tree, id: NodeId): nat
    requires id in t.elements
  {
    t.elements[id].depth
  }

  /** The layout state of one element. `renderSize` is the backing field of RenderSize;
      `desiredSize` is what the last MeasureCore produced. */
  datatype NodeLayout = NodeLayout(
    flags: Flags,
    lastAvailableSize: Size,
    layoutSlot: Rect,
    desiredSize: Size,
    renderSize: Size)

  /** What the engine does that is visible outside the element's own state. */
  datatype Event =
    | WindowMeasureInvalidated
    | MeasureCoreCalled(node: NodeId, availableSize: Size)
    | MeasureFailureLogged(node: NodeId)
    | ArrangeCoreCalled(node: NodeId, finalRect: Rect)
    | VisualShown(node: NodeId)
    | VisualHidden(node: NodeId)
    | SizeChanged(node: NodeId, previous: Size, current: Size)

  /** The mutable side: every element's layout state, the process-wide
      "laying out the visual-tree root" flag, and the events emitted so far. */
  datatype Layout = Layout(
    nodes: map<NodeId, NodeLayout>,
    layoutingVisualTreeRoot: bool,
    log: seq<Event>)

  predicate Fits(t: Tree, s: Layout) {
    s.nodes.Keys == t.elements.Keys
  }

  datatype Fault = MeasuredWithNaN(node: NodeId) | MeasureCoreFailed(node: NodeId) | ArrangeCoreFailed(node: NodeId)

  /** How a layout call ended: the state it left, and the exception it threw, if any. */
  datatype Completion = Completion(layout: Layout, fault: Option<Fault>)

  function WithFlags(s: Layout, id: NodeId, flags: Flags): (r: Layout)
    requires id in s.nodes
    ensures r.nodes.Keys == s.nodes.Keys
  {
    s.(nodes := s.nodes[id := s.nodes[id].(flags := flags)])
  }

  function SetFlagAt(s: Layout, id: NodeId, flag: Flags): (r: Layout)
    requires id in s.nodes
    ensures r.nodes.Keys == s.nodes.Keys
  {
    WithFlags(s, id, SetLayoutFlag(s.nodes[id].flags, flag))
  }

  function ClearFlagsAt(s: Layout, id: NodeId, flag: Flags): (r: Layout)
    requires id in s.nodes
    ensures r.nodes.Keys == s.nodes.Keys
  {
    WithFlags(s, id, ClearLayoutFlags(s.nodes[id].flags, flag))
  }

  function Emit(s: Layout, e: Event): Layout {
    s.(log := s.log + [e])
  }

  /** The strict ancestors of `id`, nearest first. */
  function Ancestors(t: Tree, id: NodeId): (anc: seq<NodeId>)
    requires WF(t) && id in t.elements
    ensures forall j | 0 <= j < |anc| :: anc[j] in t.elements && Depth(t, anc[j]) < Depth(t, id)
    ensures forall i, j | 0 <= i < j < |anc| :: Depth(t, anc[j]) < Depth(t, anc[i])
    ensures id !in anc
    decreases Depth(t, id)
  {
    match t.elements[id].parent
    case None => []
    case Some(p) => [p] + Ancestors(t, p)
  }

  /** `id` followed by its ancestors: the path from `id` up to the top of its tree. */
  function Lineage(t: Tree, id: NodeId): (l: seq<NodeId>)
    requires WF(t) && id in t.elements
    ensures |l| > 0 && l[0] == id
    ensures forall j | 0 <= j < |l| :: l[j] in t.elements && Depth(t, l[j]) <= Depth(t, id)
    ensures forall i, j | 0 <= i < j < |l| :: Depth(t, l[j]) < Depth(t, l[i])
  {
    [id] + Ancestors(t, id)
  }

  /** The parentless element at the top of `id`'s parent chain. */
  function Top(t: Tree, id: NodeId): (top: NodeId)
    requires WF(t) && id in t.elements
    ensures top in t.elements && t.elements[top].parent.None?
    decreases Depth(t, id)
  {
    match t.elements[id].parent
    case None => id
    case Some(p) => Top(t, p)
  }

  /** `n` lies in the subtree rooted at `a` (`a` itself included). */
  ghost predicate InSubtree(t: Tree, a: NodeId, n: NodeId)
    requires WF(t) && n in t.elements
  {
    a in Lineage(t, n)
  }

  /** `n` and `a` lie on one root path: one is an ancestor-or-self of the other. */
  ghost predicate Related(t: Tree, a: NodeId, n: NodeId)
    requires WF(t) && a in t.elements && n in t.elements
  {
    a in Lineage(t, n) || n in Lineage(t, a)
  }

  /** Moving up from an element of a lineage stays in the lineage. */
  lemma {:induction false} LineageClosedUpward(t: Tree, n: NodeId, a: NodeId)
    requires WF(t) && n in t.elements && a in Lineage(t, n)
    ensures t.elements[a].parent.Some? ==> t.elements[a].parent.value in Lineage(t, n)
    decreases Depth(t, n)
  {
    if a != n {
      var q := t.elements[n].parent.value;
      assert Lineage(t, n) == [n] + Lineage(t, q);
      LineageClosedUpward(t, q, a);
    }
  }

  /** A lineage holds at most one element per depth. */
  lemma LineageDepthUnique(t: Tree, n: NodeId, a: NodeId, b: NodeId)
    requires WF(t) && n in t.elements && a in Lineage(t, n) && b in Lineage(t, n)
    requires Depth(t, a) == Depth(t, b)
    ensures a == b
  {
    var l := Lineage(t, n);
    var i :| 0 <= i < |l| && l[i] == a;
    var j :| 0 <= j < |l| && l[j] == b;
  }

  /** Each element of a lineage is the parent of the one before it. */
  lemma {:induction false} LineageLinks(t: Tree, n: NodeId, j: nat)
    requires WF(t) && n in t.elements && j < |Lineage(t, n)|
    ensures j + 1 < |Lineage(t, n)| ==> t.elements[Lineage(t, n)[j]].parent == Some(Lineage(t, n)[j + 1])
    ensures j + 1 == |Lineage(t, n)| ==> t.elements[Lineage(t, n)[j]].parent.None?
    decreases Depth(t, n)
  {
    if j > 0 {
      var q := t.elements[n].parent.value;
      assert Lineage(t, n) == [n] + Lineage(t, q);
      LineageLinks(t, q, j - 1);
    }
  }

  /** Whatever is related to a child is related to its parent. */
  lemma RelatedThroughChild(t: Tree, id: NodeId, c: NodeId, n: NodeId)
    requires WF(t) && id in t.elements && c in t.elements && n in t.elements
    requires t.elements[c].parent == Some(id)
    requires Related(t, c, n)
    ensures Related(t, id, n)
  {
    assert Lineage(t, c) == [c] + Lineage(t, id);
    if c in Lineage(t, n) {
      LineageClosedUpward(t, n, c);
    }
  }

  /** Two distinct elements at the same depth are unrelated, and so are their subtrees. */
  lemma SiblingSubtreesDisjoint(t: Tree, c: NodeId, d: NodeId, n: NodeId)
    requires WF(t) && c in t.elements && d in t.elements && n in t.elements
    requires c != d && Depth(t, c) == Depth(t, d)
    requires c in Lineage(t, n)
    ensures !Related(t, d, n)
  {
    if d in Lineage(t, n) {
      LineageDepthUnique(t, n, c, d);
    }
  }

  /** Events appended in two steps are the events appended by the first, then the second. */
  lemma AppendedSplit(a: seq<Event>, b: seq<Event>, c: seq<Event>)
    requires a <= b && b <= c
    ensures a <= c && c[|a|..] == b[|a|..] + c[|b|..]
  {
    assert c[..|b|] == b;
    assert c[..|a|] == b[..|a|] == a;
  }
}
