/** DoMeasure's path-only branch followed all the way down: a measure-dirty element below a
    chain of path-dirty ancestors has its MeasureCore called when the top of the chain is
    measured, and no element of the chain has its own MeasureCore called. */
module PathMeasure {
  import opened Values
  import opened LayoutFlags
  import opened VisualTree
  import opened MeasurePass
  import opened MeasureProperties

  /** Measured with its last available size, the element takes DoMeasure's path-only branch:
      it is measurable with that size, measured before, not measure-dirty, and path-dirty. */
  predicate PathOnly(t: Tree, s: Layout, n: NodeId)
    requires n in t.elements && n in s.nodes
  {
    && Measurable(t, n, s.nodes[n].lastAvailableSize)
    && !NeedsRecompute(s, n, s.nodes[n].lastAvailableSize)
    && IsMeasurePathDirty(s.nodes[n].flags)
  }

  /** No child of `p` is listed twice. */
  predicate DistinctChildren(t: Tree, p: NodeId)
    requires p in t.elements
  {
    forall i, j | 0 <= i < j < |t.elements[p].children| ::
      t.elements[p].children[i] != t.elements[p].children[j]
  }

  /** `d` lies strictly below `a` and the path-only branch leads from `a` down to it: going
      up from `d`, every element is listed once among its parent's children, and every
      parent met before `a` takes the path-only branch. */
  ghost predicate ReachedThroughPath(t: Tree, s: Layout, a: NodeId, d: NodeId)
    requires WF(t) && Fits(t, s) && d in t.elements
    decreases Depth(t, d)
  {
    && t.elements[d].parent.Some?
    && var p := t.elements[d].parent.value;
       && d in t.elements[p].children && DistinctChildren(t, p)
       && (p == a || (PathOnly(t, s, p) && ReachedThroughPath(t, s, a, p)))
  }

  /** No MeasureCore call among `events` is on `n`. */
  predicate NoCoreCallOn(events: seq<Event>, n: NodeId) {
    forall e | e in events && e.MeasureCoreCalled? :: e.node != n
  }

  /** No MeasureCore call among `events` is on an element from `d`'s parent up to `a`. */
  ghost predicate NoCallsOnChain(t: Tree, events: seq<Event>, a: NodeId, d: NodeId)
    requires WF(t) && d in t.elements
    decreases Depth(t, d)
  {
    && t.elements[d].parent.Some?
    && var p := t.elements[d].parent.value;
       && NoCoreCallOn(events, p)
       && (p == a || NoCallsOnChain(t, events, a, p))
  }

  /** What `r`, run from `s`, did on the way from `a` down to `d`: unless it failed, it
      called `d`'s MeasureCore with `d`'s last available size, and it called the MeasureCore
      of no element from `a` down to `d`'s parent. */
  ghost predicate CalledThroughPath(t: Tree, s: Layout, r: Completion, a: NodeId, d: NodeId)
    requires WF(t) && Fits(t, s) && d in t.elements
  {
    && s.log <= r.layout.log
    && CoreCalledUnlessFailed(s, r, d)
    && NoCallsOnChain(t, r.layout.log[|s.log|..], a, d)
  }

  /** The path-only branch reaches every measure-dirty element below a chain of path-only
      elements: measuring the top `a` of the chain with its last available size calls the
      MeasureCore of `d` (unless some measure failed first), and calls the MeasureCore of no
      element of the chain, `a` included. */
  lemma {:induction false} PathOnlyReachesDirty(t: Tree, s: Layout, a: NodeId, d: NodeId,
                                                flavor: BuildFlavor, core: MeasureCore)
    requires WF(t) && Fits(t, s) && a in t.elements && d in t.elements
    requires PathOnly(t, s, a) && ReachedThroughPath(t, s, a, d)
    requires IsMeasureDirty(s.nodes[d].flags) && Measurable(t, d, s.nodes[d].lastAvailableSize)
    ensures CalledThroughPath(t, s, Measure(t, s, a, s.nodes[a].lastAvailableSize, flavor, core), a, d)
    decreases t.height - Depth(t, a), 1
  {
    var s1, r := PathOnlyUnfolds(t, s, a, flavor, core);
    ReachedBelow(t, s, a, d);
    ReachedPastTop(t, s, s1, a, d);
    LoopReachesDirty(t, s1, a, d, flavor, core, r);
    CalledFromUnfolded(t, s, s1, r, Measure(t, s, a, s.nodes[a].lastAvailableSize, flavor, core), a, d);
  }

  /** A stale path flag is dropped: when no child of a path-only element is dirty, measuring
      it with its last available size clears its path flag and nothing else, calls no
      MeasureCore and logs nothing. */
  lemma StalePathCleared(t: Tree, s: Layout, a: NodeId, flavor: BuildFlavor, core: MeasureCore)
    requires WF(t) && Fits(t, s) && a in t.elements && PathOnly(t, s, a)
    requires forall c | c in t.elements[a].children :: !IsMeasureOrMeasurePathDirty(s.nodes[c].flags)
    ensures var m := Measure(t, s, a, s.nodes[a].lastAvailableSize, flavor, core);
      && m.fault == None && m.layout.log == s.log
      && m.layout.nodes == s.nodes[a := s.nodes[a].(flags := ClearLayoutFlags(s.nodes[a].flags, MeasureDirtyPath))]
  {
    var s1, r := PathOnlyUnfolds(t, s, a, flavor, core);
    CleanChildrenSkipped(t, s1, a, 0, flavor, core);
  }

  /** The path-only loop over children none of which is dirty does nothing. */
  lemma {:induction false} CleanChildrenSkipped(t: Tree, s: Layout, a: NodeId, i: nat, flavor: BuildFlavor, core: MeasureCore)
    requires WF(t) && Fits(t, s) && a in t.elements && i <= |t.elements[a].children|
    requires forall c | c in t.elements[a].children :: !IsMeasureOrMeasurePathDirty(s.nodes[c].flags)
    ensures MeasureDirtyChildren(t, s, a, i, flavor, core) == Completion(s, None)
    decreases |t.elements[a].children| - i
  {
    if i < |t.elements[a].children| {
      var next := CleanChildStep(t, s, a, i, flavor, core);
      CleanChildrenSkipped(t, s, a, next, flavor, core);
    }
  }

  /** The path-only loop of `a` reaches `d` and calls no MeasureCore on the chain. */
  lemma {:induction false} LoopReachesDirty(t: Tree, s: Layout, a: NodeId, d: NodeId,
                                            flavor: BuildFlavor, core: MeasureCore, r: Completion)
    requires WF(t) && Fits(t, s) && a in t.elements && d in t.elements
    requires ReachedThroughPath(t, s, a, d)
    requires IsMeasureDirty(s.nodes[d].flags) && Measurable(t, d, s.nodes[d].lastAvailableSize)
    requires r == MeasureDirtyChildren(t, s, a, 0, flavor, core)
    ensures CalledThroughPath(t, s, r, a, d)
    decreases t.height - Depth(t, a), 0, |t.elements[a].children|, 2
  {
    var c, j := ChildTowards(t, s, a, d);
    if c == d {
      VisitsDirtyFrom(t, s, a, 0, flavor, core, j, r);
    } else {
      VisitsPathFrom(t, s, a, 0, j, d, flavor, core, r);
    }
    LiftToParent(t, s, r, a, c, d);
  }

  /** The path-only loop of `a`, from index `i`, reaches the path-only child listed at `j`
      and everything the path-only branch leads to below it. */
  lemma {:induction false} VisitsPathFrom(t: Tree, s: Layout, a: NodeId, i: nat, j: nat, d: NodeId,
                                          flavor: BuildFlavor, core: MeasureCore, r: Completion)
    requires WF(t) && Fits(t, s) && a in t.elements && d in t.elements
    requires i <= j < |t.elements[a].children| && DistinctChildren(t, a)
    requires t.elements[a].children[j] in t.elements
    requires PathOnly(t, s, t.elements[a].children[j]) && ReachedThroughPath(t, s, t.elements[a].children[j], d)
    requires IsMeasureDirty(s.nodes[d].flags) && Measurable(t, d, s.nodes[d].lastAvailableSize)
    requires r == MeasureDirtyChildren(t, s, a, i, flavor, core)
    ensures CalledThroughPath(t, s, r, t.elements[a].children[j], d)
    decreases t.height - Depth(t, a), 0, |t.elements[a].children| - i, 1
  {
    var children := t.elements[a].children;
    var c := children[j];
    var b := children[i];
    IsMeasureOrMeasurePathDirtyIff(s.nodes[c].flags);
    if !IsMeasureOrMeasurePathDirty(s.nodes[b].flags) {
      var next := CleanChildStep(t, s, a, i, flavor, core);
      VisitsPathFrom(t, s, a, next, j, d, flavor, core, r);
    } else if i == j {
      VisitsPathHere(t, s, a, i, d, flavor, core, r);
    } else {
      VisitsPathLater(t, s, a, i, j, d, flavor, core, r);
    }
  }

  /** The child reached is the path-only one: its own measure does the work, and the rest
      of the loop stays out of its subtree. */
  lemma {:induction false} VisitsPathHere(t: Tree, s: Layout, a: NodeId, i: nat, d: NodeId,
                                          flavor: BuildFlavor, core: MeasureCore, r: Completion)
    requires WF(t) && Fits(t, s) && a in t.elements && d in t.elements
    requires i < |t.elements[a].children| && DistinctChildren(t, a)
    requires t.elements[a].children[i] in t.elements
    requires PathOnly(t, s, t.elements[a].children[i]) && ReachedThroughPath(t, s, t.elements[a].children[i], d)
    requires IsMeasureDirty(s.nodes[d].flags) && Measurable(t, d, s.nodes[d].lastAvailableSize)
    requires r == MeasureDirtyChildren(t, s, a, i, flavor, core)
    ensures CalledThroughPath(t, s, r, t.elements[a].children[i], d)
    decreases t.height - Depth(t, a), 0, |t.elements[a].children| - i, 0
  {
    var c := t.elements[a].children[i];
    IsMeasureOrMeasurePathDirtyIff(s.nodes[c].flags);
    var m := Measure(t, s, c, s.nodes[c].lastAvailableSize, flavor, core);
    DirtyChildStep(t, s, a, i, flavor, core);
    var rest := MeasureDirtyChildren(t, m.layout, a, i + 1, flavor, core);
    PathOnlyReachesDirty(t, s, c, d, flavor, core);
    if m.fault.None? {
      PassedChildUntouched(t, m.layout, a, i + 1, flavor, core, c, rest);
    }
    ComposeAfterOwn(t, s, m, rest, r, c, d);
  }

  /** The measure of a sibling listed at `i` leaves the chain from the path-only child
      listed at `j` down to `d` as it was, and calls no MeasureCore in that child's subtree. */
  lemma SiblingFrame(t: Tree, s: Layout, r: Layout, a: NodeId, i: nat, j: nat, d: NodeId)
    requires WF(t) && Fits(t, s) && a in t.elements && d in t.elements
    requires i < j < |t.elements[a].children| && DistinctChildren(t, a)
    requires t.elements[a].children[i] in t.elements && t.elements[a].children[j] in t.elements
    requires MeasureEffect(t, t.elements[a].children[i], s, r, false)
    requires PathOnly(t, s, t.elements[a].children[j]) && ReachedThroughPath(t, s, t.elements[a].children[j], d)
    ensures var c := t.elements[a].children[j];
      && Fits(t, r) && s.log <= r.log && r.nodes[d] == s.nodes[d]
      && PathOnly(t, r, c) && ReachedThroughPath(t, r, c, d)
      && forall e | e in r.log[|s.log|..] && e.MeasureCoreCalled? :: e.node in t.elements && c !in Lineage(t, e.node)
  {
    var children := t.elements[a].children;
    var c := children[j];
    var b := children[i];
    SiblingsSameDepth(t, a, c, b);
    SiblingSubtreeKept(t, s, r, c, b);
    ReachedBelow(t, s, c, d);
    ReachedFrame(t, s, r, c, d);
  }

  /** The path-only child's own measure `m`, then a rest of the loop that stays out of its
      subtree, make up what the loop step `r` did. */
  lemma ComposeAfterOwn(t: Tree, s: Layout, m: Completion, rest: Completion, r: Completion, c: NodeId, d: NodeId)
    requires WF(t) && Fits(t, s) && c in t.elements && d in t.elements
    requires CalledThroughPath(t, s, m, c, d)
    requires m.fault == None ==> m.layout.log <= rest.layout.log
    requires m.fault == None ==> forall e | e in rest.layout.log[|m.layout.log|..] && e.MeasureCoreCalled? ::
      e.node in t.elements && c !in Lineage(t, e.node)
    requires r == if m.fault.Some? then m else rest
    ensures CalledThroughPath(t, s, r, c, d)
  {
    if m.fault == None {
      AppendedSplit(s.log, m.layout.log, rest.layout.log);
      ChainCallsJoin(t, m.layout.log[|s.log|..], rest.layout.log[|s.log|..], c, d);
      if rest.fault == None {
        EventSurvives(s.log, m.layout.log, rest.layout.log, MeasureCoreCalled(d, s.nodes[d].lastAvailableSize), true);
      }
    }
  }

  /** A sibling's measure `m` that stays out of the path-only child's subtree, then a rest of
      the loop that does the work, make up what the loop step `r` did. */
  lemma ComposeAfterSibling(t: Tree, s: Layout, m: Completion, rest: Completion, r: Completion, c: NodeId, d: NodeId)
    requires WF(t) && Fits(t, s) && Fits(t, m.layout) && c in t.elements && d in t.elements
    requires s.log <= m.layout.log && m.layout.nodes[d] == s.nodes[d]
    requires forall e | e in m.layout.log[|s.log|..] && e.MeasureCoreCalled? ::
      e.node in t.elements && c !in Lineage(t, e.node)
    requires CalledThroughPath(t, m.layout, rest, c, d)
    requires r == if m.fault.Some? then m else rest
    ensures CalledThroughPath(t, s, r, c, d)
  {
    var later := rest.layout.log[|m.layout.log|..];
    if m.fault == None {
      AppendedSplit(s.log, m.layout.log, rest.layout.log);
      ChainCallsJoin(t, later, rest.layout.log[|s.log|..], c, d);
      if rest.fault == None {
        EventSurvives(s.log, m.layout.log, rest.layout.log, MeasureCoreCalled(d, s.nodes[d].lastAvailableSize), false);
      }
    } else {
      ChainCallsJoin(t, later, m.layout.log[|s.log|..], c, d);
    }
  }

  /** The child reached is a dirty sibling of the path-only one: its measure stays out of the
      path-only child's subtree, and the rest of the loop does the work. */
  lemma {:induction false} VisitsPathLater(t: Tree, s: Layout, a: NodeId, i: nat, j: nat, d: NodeId,
                                           flavor: BuildFlavor, core: MeasureCore, r: Completion)
    requires WF(t) && Fits(t, s) && a in t.elements && d in t.elements
    requires i < j < |t.elements[a].children| && DistinctChildren(t, a)
    requires IsMeasureOrMeasurePathDirty(s.nodes[t.elements[a].children[i]].flags)
    requires t.elements[a].children[j] in t.elements
    requires PathOnly(t, s, t.elements[a].children[j]) && ReachedThroughPath(t, s, t.elements[a].children[j], d)
    requires IsMeasureDirty(s.nodes[d].flags) && Measurable(t, d, s.nodes[d].lastAvailableSize)
    requires r == MeasureDirtyChildren(t, s, a, i, flavor, core)
    ensures CalledThroughPath(t, s, r, t.elements[a].children[j], d)
    decreases t.height - Depth(t, a), 0, |t.elements[a].children| - i, 0
  {
    var c := t.elements[a].children[j];
    var m, next, rest := DirtyChildMeasured(t, s, a, i, flavor, core);
    SiblingFrame(t, s, m.layout, a, i, j, d);
    VisitsPathFrom(t, m.layout, a, next, j, d, flavor, core, rest);
    ComposeAfterSibling(t, s, m, rest, r, c, d);
  }

  /** The unfolding of Measure on a path-only element: the loop over its children, run from
      the layout in which its path flag has just been cleared (and, for a visual-tree root,
      the root-layout flag raised). */
  lemma PathOnlyUnfolds(t: Tree, s: Layout, a: NodeId, flavor: BuildFlavor, core: MeasureCore)
      returns (s1: Layout, r: Completion)
    requires WF(t) && Fits(t, s) && a in t.elements && PathOnly(t, s, a)
    ensures Fits(t, s1) && s1.log == s.log
    ensures s1.nodes == s.nodes[a := s.nodes[a].(flags := ClearLayoutFlags(s.nodes[a].flags, MeasureDirtyPath))]
    ensures r == MeasureDirtyChildren(t, s1, a, 0, flavor, core)
    ensures var m := Measure(t, s, a, s.nodes[a].lastAvailableSize, flavor, core);
      m.fault == r.fault && m.layout.log == r.layout.log && m.layout.nodes == r.layout.nodes
  {
    var available := s.nodes[a].lastAvailableSize;
    MeasureIsEntered(t, s, a, available, flavor, core);
    EnteredOnPath(t, s, a, flavor, core);
    s1 := PathCleared(t, s, a);
    r := MeasureDirtyChildren(t, s1, a, 0, flavor, core);
  }

  /** The layout the path-only loop starts from: the element's path flag cleared and, for a
      visual-tree root, the root-layout flag raised. */
  function PathCleared(t: Tree, s: Layout, a: NodeId): (s1: Layout)
    requires WF(t) && Fits(t, s) && a in t.elements
    ensures Fits(t, s1) && s1.log == s.log
    ensures s1.nodes == s.nodes[a := s.nodes[a].(flags := ClearLayoutFlags(s.nodes[a].flags, MeasureDirtyPath))]
  {
    var entered := if t.elements[a].isVisualTreeRoot then s.(layoutingVisualTreeRoot := true) else s;
    ClearFlagsAt(entered, a, MeasureDirtyPath)
  }

  /** Past the entry checks, a path-only element runs the loop over its children. */
  lemma EnteredOnPath(t: Tree, s: Layout, a: NodeId, flavor: BuildFlavor, core: MeasureCore)
    requires WF(t) && Fits(t, s) && a in t.elements && PathOnly(t, s, a)
    ensures var m := MeasureEntered(t, s, a, s.nodes[a].lastAvailableSize, flavor, core);
      var r := MeasureDirtyChildren(t, PathCleared(t, s, a), a, 0, flavor, core);
      m.fault == r.fault && m.layout.log == r.layout.log && m.layout.nodes == r.layout.nodes
  {
    var available := s.nodes[a].lastAvailableSize;
    var entered := if t.elements[a].isVisualTreeRoot then s.(layoutingVisualTreeRoot := true) else s;
    EnteredIsDoMeasure(t, s, a, available, flavor, core);
    DoMeasureOnPath(t, entered, a, available, flavor, core);
  }

  /** A measurable element is measured past the entry checks. */
  lemma MeasureIsEntered(t: Tree, s: Layout, a: NodeId, available: Size, flavor: BuildFlavor, core: MeasureCore)
    requires WF(t) && Fits(t, s) && a in t.elements && Measurable(t, a, available)
    ensures Measure(t, s, a, available, flavor, core) == MeasureEntered(t, s, a, available, flavor, core)
  {
  }

  /** Past the entry checks, an element is measured by DoMeasure, with the root-layout flag
      raised for a visual-tree root, which changes neither the fault nor the log. */
  lemma EnteredIsDoMeasure(t: Tree, s: Layout, a: NodeId, available: Size, flavor: BuildFlavor, core: MeasureCore)
    requires WF(t) && Fits(t, s) && a in t.elements
    ensures var entered := if t.elements[a].isVisualTreeRoot then s.(layoutingVisualTreeRoot := true) else s;
      var c := MeasureEntered(t, s, a, available, flavor, core);
      var c' := DoMeasure(t, entered, a, available, flavor, core);
      c.fault == c'.fault && c.layout.log == c'.layout.log && c.layout.nodes == c'.layout.nodes
  {
  }

  /** DoMeasure on an element that needs no recompute but is path-dirty: the loop over its
      children, from the layout with its path flag cleared. */
  lemma DoMeasureOnPath(t: Tree, s: Layout, a: NodeId, available: Size, flavor: BuildFlavor, core: MeasureCore)
    requires WF(t) && Fits(t, s) && a in t.elements
    requires !NeedsRecompute(s, a, available) && IsMeasurePathDirty(s.nodes[a].flags)
    ensures DoMeasure(t, s, a, available, flavor, core) ==
      MeasureDirtyChildren(t, ClearFlagsAt(s, a, MeasureDirtyPath), a, 0, flavor, core)
  {
    FirstMeasureAlreadyMarked(s, a);
  }

  /** Marking the first measure of an element measured before changes nothing. */
  lemma FirstMeasureAlreadyMarked(s: Layout, a: NodeId)
    requires a in s.nodes && IsFirstMeasureDone(s.nodes[a].flags)
    ensures MarkFirstMeasure(s, a) == s
  {
  }

  /** The child of `a` on the way down to `d`, where it is listed, and what the chain says
      about it. */
  lemma {:induction false} ChildTowards(t: Tree, s: Layout, a: NodeId, d: NodeId) returns (c: NodeId, j: nat)
    requires WF(t) && Fits(t, s) && a in t.elements && d in t.elements
    requires ReachedThroughPath(t, s, a, d)
    ensures j < |t.elements[a].children| && t.elements[a].children[j] == c && c in t.elements
    ensures t.elements[c].parent == Some(a) && DistinctChildren(t, a)
    ensures c != d ==> PathOnly(t, s, c) && ReachedThroughPath(t, s, c, d)
    decreases Depth(t, d)
  {
    var p := t.elements[d].parent.value;
    if p == a {
      c := d;
    } else {
      var c', j' := ChildTowards(t, s, a, p);
      c := c';
      if c' != p {
        assert p != c';
      }
    }
    j :| 0 <= j < |t.elements[a].children| && t.elements[a].children[j] == c;
  }

  /** A chain leads down from `a`: `a` is a strict ancestor of `d`. */
  lemma {:induction false} ReachedBelow(t: Tree, s: Layout, a: NodeId, d: NodeId)
    requires WF(t) && Fits(t, s) && a in t.elements && d in t.elements
    requires ReachedThroughPath(t, s, a, d)
    ensures a in Lineage(t, d) && a != d
    decreases Depth(t, d)
  {
    var p := t.elements[d].parent.value;
    assert Lineage(t, d) == [d] + Lineage(t, p);
    if p != a {
      ReachedBelow(t, s, a, p);
    }
  }

  /** A chain below `c` reads the same in a layout that agrees on `c`'s subtree. */
  lemma {:induction false} ReachedFrame(t: Tree, s: Layout, s': Layout, c: NodeId, d: NodeId)
    requires WF(t) && Fits(t, s) && Fits(t, s') && c in t.elements && d in t.elements
    requires forall n | n in t.elements && c in Lineage(t, n) :: s'.nodes[n] == s.nodes[n]
    requires ReachedThroughPath(t, s, c, d)
    ensures ReachedThroughPath(t, s', c, d)
    decreases Depth(t, d)
  {
    var p := t.elements[d].parent.value;
    if p != c {
      ReachedFrame(t, s, s', c, p);
      ReachedBelow(t, s, c, p);
      assert s'.nodes[p] == s.nodes[p];
    }
  }

  /** A chain free of calls in `events` stays free of them in any `joined` whose other calls
      lie outside `c`'s subtree. */
  lemma {:induction false} ChainCallsJoin(t: Tree, events: seq<Event>, joined: seq<Event>, c: NodeId, d: NodeId)
    requires WF(t) && c in t.elements && d in t.elements
    requires NoCallsOnChain(t, events, c, d)
    requires forall e | e in joined && e.MeasureCoreCalled? ::
      e in events || (e.node in t.elements && c !in Lineage(t, e.node))
    ensures NoCallsOnChain(t, joined, c, d) && c in Lineage(t, d)
    decreases Depth(t, d)
  {
    var p := t.elements[d].parent.value;
    assert Lineage(t, d) == [d] + Lineage(t, p);
    if p != c {
      ChainCallsJoin(t, events, joined, c, p);
    }
    assert c in Lineage(t, p);
  }

  /** A chain from `c` whose parent is `a` extends to `a` when `a` has no call either. */
  lemma {:induction false} ChainExtends(t: Tree, events: seq<Event>, a: NodeId, c: NodeId, d: NodeId)
    requires WF(t) && a in t.elements && c in t.elements && d in t.elements
    requires t.elements[c].parent == Some(a) && NoCoreCallOn(events, a)
    requires NoCallsOnChain(t, events, c, d)
    ensures NoCallsOnChain(t, events, a, d)
    decreases Depth(t, d)
  {
    var p := t.elements[d].parent.value;
    if p != a && p != c {
      ChainExtends(t, events, a, c, p);
    }
  }

  /** Measuring a sibling `b` of `c` leaves all of `c`'s subtree as it was and calls no
      MeasureCore there. */
  lemma SiblingSubtreeKept(t: Tree, s: Layout, r: Layout, c: NodeId, b: NodeId)
    requires WF(t) && Fits(t, s) && c in t.elements && b in t.elements
    requires c != b && Depth(t, c) == Depth(t, b)
    requires MeasureEffect(t, b, s, r, false)
    ensures Fits(t, r) && s.log <= r.log
    ensures forall n | n in t.elements && c in Lineage(t, n) :: r.nodes[n] == s.nodes[n]
    ensures forall e | e in r.log[|s.log|..] && e.MeasureCoreCalled? :: e.node in t.elements && c !in Lineage(t, e.node)
  {
    assert c in Lineage(t, c);
    SiblingIsolated(t, s, r, c, b, c);
    forall n | n in t.elements && c in Lineage(t, n)
      ensures r.nodes[n] == s.nodes[n]
    {
      SiblingIsolated(t, s, r, c, b, n);
    }
  }

  /** After the loop has passed `c`, the rest of it calls no MeasureCore in `c`'s subtree. */
  lemma PassedChildUntouched(t: Tree, s: Layout, a: NodeId, next: nat, flavor: BuildFlavor, core: MeasureCore,
                             c: NodeId, rest: Completion)
    requires WF(t) && Fits(t, s) && a in t.elements && 0 < next <= |t.elements[a].children|
    requires DistinctChildren(t, a) && t.elements[a].children[next - 1] == c && c in t.elements
    requires rest == MeasureDirtyChildren(t, s, a, next, flavor, core)
    ensures s.log <= rest.layout.log
    ensures forall e | e in rest.layout.log[|s.log|..] && e.MeasureCoreCalled? :: e.node in t.elements && c !in Lineage(t, e.node)
  {
    var children := t.elements[a].children;
    assert c !in children[next..];
    assert c in Lineage(t, c);
    MeasureDirtyChildrenSkipsClean(t, s, a, next, flavor, core, c, c);
  }

  /** What the loop of `a` did on the way from its child `c` down to `d` is what it did on
      the way from `a`, since the loop calls no MeasureCore of `a`. */
  lemma LiftToParent(t: Tree, s: Layout, r: Completion, a: NodeId, c: NodeId, d: NodeId)
    requires WF(t) && Fits(t, s) && a in t.elements && c in t.elements && d in t.elements
    requires t.elements[c].parent == Some(a)
    requires c == d ==> s.log <= r.layout.log && CoreCalledUnlessFailed(s, r, d)
    requires c != d ==> CalledThroughPath(t, s, r, c, d)
    requires MeasureEffect(t, a, s, r.layout, true)
    ensures CalledThroughPath(t, s, r, a, d)
  {
    var events := r.layout.log[|s.log|..];
    assert CoreCallsIn(t, a, events, true);
    assert NoCoreCallOn(events, a);
    if c != d {
      ChainExtends(t, events, a, c, d);
    }
  }

  /** Clearing the top's own flags leaves the chain below it as it was. */
  lemma {:induction false} ReachedPastTop(t: Tree, s: Layout, s': Layout, a: NodeId, d: NodeId)
    requires WF(t) && Fits(t, s) && Fits(t, s') && a in t.elements && d in t.elements
    requires a in s'.nodes && s'.nodes == s.nodes[a := s'.nodes[a]]
    requires ReachedThroughPath(t, s, a, d)
    ensures ReachedThroughPath(t, s', a, d) && s'.nodes[d] == s.nodes[d]
    decreases Depth(t, d)
  {
    ReachedBelow(t, s, a, d);
    var p := t.elements[d].parent.value;
    if p != a {
      ReachedPastTop(t, s, s', a, p);
    }
  }

  /** What the loop did from the unfolded layout is what Measure did. */
  lemma CalledFromUnfolded(t: Tree, s: Layout, s1: Layout, r: Completion, m: Completion, a: NodeId, d: NodeId)
    requires WF(t) && Fits(t, s) && Fits(t, s1) && d in t.elements
    requires s1.log == s.log && s1.nodes[d] == s.nodes[d]
    requires m.fault == r.fault && m.layout.log == r.layout.log
    requires CalledThroughPath(t, s1, r, a, d)
    ensures CalledThroughPath(t, s, m, a, d)
  {
  }
}
