/** Properties of the measure pass that relate several calls: which MeasureCore calls a
    measure makes, which children the path-only branch visits and which it leaves alone,
    and that a measure settles. */
module MeasureProperties {
  import opened Values
  import opened LayoutFlags
  import opened VisualTree
  import opened Invalidation
  import opened MeasurePass

  /** An element's own MeasureCore runs exactly when the element is measurable (a framework
      element, a size without NaN, not collapsed) and needs a recompute (measure-dirty,
      never measured, or a new available size); when it runs it is given that size. */
  lemma MeasureCoreRunsIff(t: Tree, s: Layout, id: NodeId, available: Size, flavor: BuildFlavor, core: MeasureCore)
    requires WF(t) && Fits(t, s) && id in t.elements
    ensures var c := Measure(t, s, id, available, flavor, core);
      && s.log <= c.layout.log
      && ((exists e | e in c.layout.log[|s.log|..] :: e.MeasureCoreCalled? && e.node == id) <==>
            Measurable(t, id, available) && NeedsRecompute(s, id, available))
      && (Measurable(t, id, available) && NeedsRecompute(s, id, available) ==>
            MeasureCoreCalled(id, available) in c.layout.log[|s.log|..])
  {
    var c := Measure(t, s, id, available, flavor, core);
    var appended := c.layout.log[|s.log|..];
    if Measurable(t, id, available) && NeedsRecompute(s, id, available) {
      assert appended[0] == MeasureCoreCalled(id, available);
    } else if Measurable(t, id, available) {
      assert CoreCallsIn(t, id, appended, true);
    } else {
      assert appended == [];
    }
  }

  /** Unless `r` failed, it appended a MeasureCore call on `c` with `c`'s last available
      size in `s`. */
  ghost predicate CoreCalledUnlessFailed(s: Layout, r: Completion, c: NodeId)
    requires c in s.nodes
  {
    r.fault == None ==>
      s.log <= r.layout.log && MeasureCoreCalled(c, s.nodes[c].lastAvailableSize) in r.layout.log[|s.log|..]
  }

  /** One step of the path-only loop, at a dirty child. */
  lemma DirtyChildStep(t: Tree, s: Layout, id: NodeId, i: nat, flavor: BuildFlavor, core: MeasureCore)
    requires WF(t) && Fits(t, s) && id in t.elements && i < |t.elements[id].children|
    requires IsMeasureOrMeasurePathDirty(s.nodes[t.elements[id].children[i]].flags)
    ensures var d := t.elements[id].children[i];
      var c1 := Measure(t, s, d, s.nodes[d].lastAvailableSize, flavor, core);
      && Fits(t, c1.layout)
      && MeasureDirtyChildren(t, s, id, i, flavor, core) ==
           if c1.fault.Some? then c1 else MeasureDirtyChildren(t, c1.layout, id, i + 1, flavor, core)
  {
  }

  /** One step of the path-only loop, at a clean child. */
  lemma CleanChildStep(t: Tree, s: Layout, id: NodeId, i: nat, flavor: BuildFlavor, core: MeasureCore)
      returns (next: nat)
    requires WF(t) && Fits(t, s) && id in t.elements && i < |t.elements[id].children|
    requires !IsMeasureOrMeasurePathDirty(s.nodes[t.elements[id].children[i]].flags)
    ensures next == i + 1 && next <= |t.elements[id].children|
    ensures MeasureDirtyChildren(t, s, id, i, flavor, core) == MeasureDirtyChildren(t, s, id, next, flavor, core)
  {
    next := i + 1;
  }

  /** One step of the path-only loop at a dirty child, with the child's measure `m` known
      only by its effect, and `rest` the remainder of the loop after it. */
  lemma DirtyChildMeasured(t: Tree, s: Layout, id: NodeId, i: nat, flavor: BuildFlavor, core: MeasureCore)
      returns (m: Completion, next: nat, rest: Completion)
    requires WF(t) && Fits(t, s) && id in t.elements && i < |t.elements[id].children|
    requires IsMeasureOrMeasurePathDirty(s.nodes[t.elements[id].children[i]].flags)
    ensures t.elements[id].children[i] in t.elements
    ensures Fits(t, m.layout) && MeasureEffect(t, t.elements[id].children[i], s, m.layout, false)
    ensures next == i + 1 && next <= |t.elements[id].children|
    ensures rest == MeasureDirtyChildren(t, m.layout, id, next, flavor, core)
    ensures MeasureDirtyChildren(t, s, id, i, flavor, core) == if m.fault.Some? then m else rest
  {
    var d := t.elements[id].children[i];
    m := Measure(t, s, d, s.nodes[d].lastAvailableSize, flavor, core);
    DirtyChildStep(t, s, id, i, flavor, core);
    next := i + 1;
    rest := MeasureDirtyChildren(t, m.layout, id, next, flavor, core);
  }

  /** Two children of one parent have the same depth. */
  lemma SiblingsSameDepth(t: Tree, id: NodeId, c: NodeId, d: NodeId)
    requires WF(t) && c in t.elements && d in t.elements
    requires t.elements[c].parent == Some(id) && t.elements[d].parent == Some(id)
    ensures Depth(t, c) == Depth(t, d)
  {
  }

  /** The loop from index `i` on does not re-measure child `c`: `c` is clean (neither
      measure-dirty nor path-dirty), or it is not listed from `i` on. */
  predicate NotAhead(t: Tree, s: Layout, id: NodeId, i: nat, c: NodeId)
    requires id in t.elements && c in s.nodes && i <= |t.elements[id].children|
  {
    !IsMeasureOrMeasurePathDirty(s.nodes[c].flags) || c !in t.elements[id].children[i..]
  }

  /** The path-only loop leaves alone a child that is clean, or that it has already passed:
      nothing in the child's subtree changes and nothing there has its MeasureCore called. */
  lemma {:induction false} MeasureDirtyChildrenSkipsClean(t: Tree, s: Layout, id: NodeId, i: nat,
                                                          flavor: BuildFlavor, core: MeasureCore, c: NodeId, n: NodeId)
    requires WF(t) && Fits(t, s) && id in t.elements && i <= |t.elements[id].children|
    requires c in t.elements && t.elements[c].parent == Some(id)
    requires NotAhead(t, s, id, i, c)
    requires n in t.elements && c in Lineage(t, n)
    ensures var r := MeasureDirtyChildren(t, s, id, i, flavor, core);
      && r.layout.nodes[n] == s.nodes[n]
      && s.log <= r.layout.log
      && forall e | e in r.layout.log[|s.log|..] && e.MeasureCoreCalled? :: e.node in t.elements && c !in Lineage(t, e.node)
    decreases |t.elements[id].children| - i, 1
  {
    var children := t.elements[id].children;
    if i < |children| {
      if IsMeasureOrMeasurePathDirty(s.nodes[children[i]].flags) {
        SkipsCleanDirtyStep(t, s, id, i, flavor, core, c, n);
      } else {
        var next := CleanChildStep(t, s, id, i, flavor, core);
        assert children[next..] == children[i..][1..];
        MeasureDirtyChildrenSkipsClean(t, s, id, next, flavor, core, c, n);
      }
    }
  }

  /** The step of MeasureDirtyChildrenSkipsClean that measures a dirty sibling. */
  lemma {:induction false} SkipsCleanDirtyStep(t: Tree, s: Layout, id: NodeId, i: nat,
                                               flavor: BuildFlavor, core: MeasureCore, c: NodeId, n: NodeId)
    requires WF(t) && Fits(t, s) && id in t.elements && i < |t.elements[id].children|
    requires IsMeasureOrMeasurePathDirty(s.nodes[t.elements[id].children[i]].flags)
    requires c in t.elements && t.elements[c].parent == Some(id)
    requires NotAhead(t, s, id, i, c)
    requires n in t.elements && c in Lineage(t, n)
    ensures var r := MeasureDirtyChildren(t, s, id, i, flavor, core);
      && r.layout.nodes[n] == s.nodes[n]
      && s.log <= r.layout.log
      && forall e | e in r.layout.log[|s.log|..] && e.MeasureCoreCalled? :: e.node in t.elements && c !in Lineage(t, e.node)
    decreases |t.elements[id].children| - i, 0
  {
    var children := t.elements[id].children;
    var d := children[i];
    var m, next, rest := DirtyChildMeasured(t, s, id, i, flavor, core);
    assert children[i..][0] == d && children[next..] == children[i..][1..];
    assert c != d;
    SiblingsSameDepth(t, id, c, d);
    SiblingIsolated(t, s, m.layout, c, d, n);
    if m.fault.None? {
      assert c in Lineage(t, c);
      SiblingIsolated(t, s, m.layout, c, d, c);
      MeasureDirtyChildrenSkipsClean(t, m.layout, id, next, flavor, core, c, n);
      UntouchedCompose(t, s, m.layout, rest.layout, c, n);
    }
  }

  lemma UntouchedCompose(t: Tree, s: Layout, m: Layout, r: Layout, c: NodeId, n: NodeId)
    requires WF(t) && c in t.elements && n in s.nodes && n in m.nodes && n in r.nodes
    requires m.nodes[n] == s.nodes[n] && r.nodes[n] == m.nodes[n]
    requires s.log <= m.log && m.log <= r.log
    requires forall e | e in m.log[|s.log|..] && e.MeasureCoreCalled? :: e.node in t.elements && c !in Lineage(t, e.node)
    requires forall e | e in r.log[|m.log|..] && e.MeasureCoreCalled? :: e.node in t.elements && c !in Lineage(t, e.node)
    ensures r.nodes[n] == s.nodes[n] && s.log <= r.log
    ensures forall e | e in r.log[|s.log|..] && e.MeasureCoreCalled? :: e.node in t.elements && c !in Lineage(t, e.node)
  {
    AppendedSplit(s.log, m.log, r.log);
  }

  /** Measuring a sibling `d` of `c` changes nothing in `c`'s subtree and calls no
      MeasureCore there. */
  lemma SiblingIsolated(t: Tree, s: Layout, r: Layout, c: NodeId, d: NodeId, n: NodeId)
    requires WF(t) && Fits(t, s) && c in t.elements && d in t.elements && n in t.elements
    requires c != d && Depth(t, c) == Depth(t, d) && c in Lineage(t, n)
    requires MeasureEffect(t, d, s, r, false)
    ensures r.nodes[n] == s.nodes[n]
    ensures forall e | e in r.log[|s.log|..] && e.MeasureCoreCalled? :: e.node in t.elements && c !in Lineage(t, e.node)
  {
    SiblingSubtreesDisjoint(t, c, d, n);
    forall e | e in r.log[|s.log|..] && e.MeasureCoreCalled?
      ensures e.node in t.elements && c !in Lineage(t, e.node)
    {
      if c in Lineage(t, e.node) {
        LineageDepthUnique(t, e.node, c, d);
      }
    }
  }

  /** The path-only loop re-measures every measure-dirty child it reaches, with that child's
      own last available size: unless some measure failed, each measure-dirty, measurable
      child from index `i` on has its MeasureCore called with its last available size. */
  lemma MeasureDirtyChildrenVisitsDirty(t: Tree, s: Layout, id: NodeId, i: nat,
                                        flavor: BuildFlavor, core: MeasureCore, j: nat)
    requires WF(t) && Fits(t, s) && id in t.elements && i <= j < |t.elements[id].children|
    requires var c := t.elements[id].children[j];
      IsMeasureDirty(s.nodes[c].flags) && Measurable(t, c, s.nodes[c].lastAvailableSize)
    ensures CoreCalledUnlessFailed(s, MeasureDirtyChildren(t, s, id, i, flavor, core), t.elements[id].children[j])
  {
    VisitsDirtyFrom(t, s, id, i, flavor, core, j, MeasureDirtyChildren(t, s, id, i, flavor, core));
  }

  /** MeasureDirtyChildrenVisitsDirty, by induction on the loop index, for the loop's
      result `r`. */
  lemma {:induction false} VisitsDirtyFrom(t: Tree, s: Layout, id: NodeId, i: nat,
                                           flavor: BuildFlavor, core: MeasureCore, j: nat, r: Completion)
    requires WF(t) && Fits(t, s) && id in t.elements && i <= j < |t.elements[id].children|
    requires var c := t.elements[id].children[j];
      IsMeasureDirty(s.nodes[c].flags) && Measurable(t, c, s.nodes[c].lastAvailableSize)
    requires r == MeasureDirtyChildren(t, s, id, i, flavor, core)
    ensures CoreCalledUnlessFailed(s, r, t.elements[id].children[j])
    decreases |t.elements[id].children| - i, 1
  {
    var children := t.elements[id].children;
    IsMeasureOrMeasurePathDirtyIff(s.nodes[children[i]].flags);
    if IsMeasureOrMeasurePathDirty(s.nodes[children[i]].flags) {
      if children[i] == children[j] {
        VisitsDirtyHere(t, s, id, i, flavor, core);
      } else {
        VisitsDirtyLater(t, s, id, i, flavor, core, j, r);
      }
    } else {
      IsMeasureOrMeasurePathDirtyIff(s.nodes[children[j]].flags);
      assert IsMeasureOrMeasurePathDirty(s.nodes[children[j]].flags);
      assert i != j;
      var next := CleanChildStep(t, s, id, i, flavor, core);
      VisitsDirtyFrom(t, s, id, next, flavor, core, j, r);
    }
  }

  /** The child reached is the measure-dirty one: its own measure calls its MeasureCore. */
  lemma VisitsDirtyHere(t: Tree, s: Layout, id: NodeId, i: nat, flavor: BuildFlavor, core: MeasureCore)
    requires WF(t) && Fits(t, s) && id in t.elements && i < |t.elements[id].children|
    requires var c := t.elements[id].children[i];
      IsMeasureDirty(s.nodes[c].flags) && Measurable(t, c, s.nodes[c].lastAvailableSize)
    ensures CoreCalledUnlessFailed(s, MeasureDirtyChildren(t, s, id, i, flavor, core), t.elements[id].children[i])
  {
    var c := t.elements[id].children[i];
    IsMeasureOrMeasurePathDirtyIff(s.nodes[c].flags);
    var c1 := Measure(t, s, c, s.nodes[c].lastAvailableSize, flavor, core);
    DirtyChildStep(t, s, id, i, flavor, core);
    var r := MeasureDirtyChildren(t, c1.layout, id, i + 1, flavor, core);
    MeasureCoreRunsIff(t, s, c, s.nodes[c].lastAvailableSize, flavor, core);
    EventSurvives(s.log, c1.layout.log, r.layout.log, MeasureCoreCalled(c, s.nodes[c].lastAvailableSize), true);
  }

  /** The child reached is another, dirty one: its measure leaves the measure-dirty child as
      it was, and the rest of the loop reaches it. */
  lemma {:induction false} VisitsDirtyLater(t: Tree, s: Layout, id: NodeId, i: nat,
                                            flavor: BuildFlavor, core: MeasureCore, j: nat, r: Completion)
    requires WF(t) && Fits(t, s) && id in t.elements && i <= j < |t.elements[id].children|
    requires IsMeasureOrMeasurePathDirty(s.nodes[t.elements[id].children[i]].flags)
    requires t.elements[id].children[i] != t.elements[id].children[j]
    requires var c := t.elements[id].children[j];
      IsMeasureDirty(s.nodes[c].flags) && Measurable(t, c, s.nodes[c].lastAvailableSize)
    requires r == MeasureDirtyChildren(t, s, id, i, flavor, core)
    ensures CoreCalledUnlessFailed(s, r, t.elements[id].children[j])
    decreases |t.elements[id].children| - i, 0
  {
    var m, next, rest := DirtyChildMeasured(t, s, id, i, flavor, core);
    SiblingKeepsChild(t, s, m.layout, id, i, j);
    assert i != j;
    VisitsDirtyFrom(t, m.layout, id, next, flavor, core, j, rest);
    VisitsDirtyRest(s, m, rest, r, t.elements[id].children[j]);
  }

  /** Measuring one child leaves a sibling's own layout state as it was. */
  lemma SiblingKeepsChild(t: Tree, s: Layout, s': Layout, id: NodeId, i: nat, j: nat)
    requires WF(t) && Fits(t, s) && id in t.elements && i < |t.elements[id].children| && j < |t.elements[id].children|
    requires t.elements[id].children[i] != t.elements[id].children[j]
    requires t.elements[id].children[i] in t.elements
    requires MeasureEffect(t, t.elements[id].children[i], s, s', false)
    ensures var c := t.elements[id].children[j]; c in s.nodes && c in s'.nodes && s'.nodes[c] == s.nodes[c]
  {
    var c := t.elements[id].children[j];
    var d := t.elements[id].children[i];
    assert c in Lineage(t, c);
    SiblingsSameDepth(t, id, c, d);
    SiblingIsolated(t, s, s', c, d, c);
  }

  /** A call made by the rest of the loop, after a sibling's measure `m` that left the
      child as it was, is a call made by the whole loop. */
  lemma VisitsDirtyRest(s: Layout, m: Completion, r: Completion, whole: Completion, c: NodeId)
    requires c in s.nodes && c in m.layout.nodes && m.layout.nodes[c] == s.nodes[c]
    requires s.log <= m.layout.log
    requires CoreCalledUnlessFailed(m.layout, r, c)
    requires whole == if m.fault.Some? then m else r
    ensures CoreCalledUnlessFailed(s, whole, c)
  {
    if m.fault.None? && r.fault == None {
      EventSurvives(s.log, m.layout.log, r.layout.log, MeasureCoreCalled(c, s.nodes[c].lastAvailableSize), false);
    }
  }

  /** An event appended by the first of two steps, or by the second, was appended by both. */
  lemma EventSurvives(a: seq<Event>, b: seq<Event>, c: seq<Event>, e: Event, first: bool)
    requires a <= b && b <= c
    requires if first then e in b[|a|..] else e in c[|b|..]
    ensures a <= c && e in c[|a|..]
  {
    AppendedSplit(a, b, c);
  }

  /** A measure settles: once a recompute whose MeasureCore neither failed nor
      re-invalidated the element has run, measuring the element again with the same size
      changes nothing and calls no MeasureCore. */
  lemma MeasureSettles(t: Tree, s: Layout, id: NodeId, available: Size, flavor: BuildFlavor, core: MeasureCore)
    requires WF(t) && Fits(t, s) && id in t.elements
    requires Measurable(t, id, available) && NeedsRecompute(s, id, available)
    requires var seen := MeasureCoreSees(t, s, id, available);
      core(id, available, seen).Measured? && !core(id, available, seen).invalidatesItself
    ensures var c1 := Measure(t, s, id, available, flavor, core);
      Measure(t, c1.layout, id, available, flavor, core) == Completion(c1.layout, None)
  {
    var c1 := Measure(t, s, id, available, flavor, core);
    var before := s.nodes[id].(flags := SetLayoutFlag(s.nodes[id].flags, FirstMeasureDone));
    assert RecomputeOutcome(t, id, before, available, flavor, core, MeasureCoreSees(t, s, id, available), c1);
    assert !NeedsRecompute(c1.layout, id, available);
    assert !IsMeasurePathDirty(c1.layout.nodes[id].flags);
  }

  /** A measure invalidation is what makes the next measure do work: after it, measuring a
      measurable element that does not intercept invalidation calls its MeasureCore with
      the size it is given. */
  lemma InvalidateThenMeasureRuns(t: Tree, s: Layout, id: NodeId, available: Size, flavor: BuildFlavor, core: MeasureCore)
    requires WF(t) && Fits(t, s) && id in t.elements
    requires Measurable(t, id, available) && !t.elements[id].interceptInvalidate
    ensures var s' := InvalidateMeasure(t, s, id);
      && Fits(t, s')
      && NeedsRecompute(s', id, available)
      && MeasureCoreCalled(id, available) in Measure(t, s', id, available, flavor, core).layout.log[|s'.log|..]
  {
    var s' := InvalidateMeasure(t, s, id);
    MeasureCoreRunsIff(t, s', id, available, flavor, core);
  }
  /** The root-layout flag during a measure: a measurable visual-tree root hands its
      MeasureCore the flag raised, any other element hands over the flag as it found it;
      afterwards a measurable root leaves it lowered on every way out, a failed MeasureCore
      included, and any other measure leaves it as it was. */
  lemma MeasureRootFlag(t: Tree, s: Layout, id: NodeId, available: Size, flavor: BuildFlavor, core: MeasureCore)
    requires WF(t) && Fits(t, s) && id in t.elements
    ensures MeasureCoreSees(t, s, id, available).layoutingVisualTreeRoot ==
      (t.elements[id].isVisualTreeRoot || s.layoutingVisualTreeRoot)
    ensures var c := Measure(t, s, id, available, flavor, core);
      && (t.elements[id].isVisualTreeRoot && Measurable(t, id, available) ==> !c.layout.layoutingVisualTreeRoot)
      && (!t.elements[id].isVisualTreeRoot || !Measurable(t, id, available) ==>
            c.layout.layoutingVisualTreeRoot == s.layoutingVisualTreeRoot)
  {
  }

  /** What a recomputed element's MeasureCore is given: the element is no longer
      measure-dirty or path-dirty, so that it can re-invalidate itself, and is marked as
      measured; its other flags and fields and every other element are as they were, and
      the log ends with the call itself. */
  lemma MeasureCoreSeesItselfCleared(t: Tree, s: Layout, id: NodeId, available: Size)
    requires WF(t) && Fits(t, s) && id in t.elements
    ensures var seen := MeasureCoreSees(t, s, id, available);
      && seen.nodes.Keys == s.nodes.Keys
      && (forall n | n in s.nodes && n != id :: seen.nodes[n] == s.nodes[n])
      && seen.nodes[id] == s.nodes[id].(flags := seen.nodes[id].flags)
      && !IsMeasureDirty(seen.nodes[id].flags) && !IsMeasurePathDirty(seen.nodes[id].flags)
      && IsFirstMeasureDone(seen.nodes[id].flags)
      && seen.nodes[id].flags & !SeenFlags == s.nodes[id].flags & !SeenFlags
      && seen.log == s.log + [MeasureCoreCalled(id, available)]
  {
    SeenLayout(t, s, id, available);
    SeenFlagsOf(s.nodes[id].flags);
  }

  /** The flags a MeasureCore call changes on its own element before it runs. */
  const SeenFlags: Flags := MeasureDirty | MeasureDirtyPath | FirstMeasureDone

  /** The layout MeasureCore is given, as one update of the element's flags and one event. */
  lemma SeenLayout(t: Tree, s: Layout, id: NodeId, available: Size)
    requires id in t.elements && id in s.nodes
    ensures var seen := MeasureCoreSees(t, s, id, available);
      var f := s.nodes[id].flags;
      && seen.nodes == s.nodes[id := s.nodes[id].(flags := ClearLayoutFlags(SetLayoutFlag(f, FirstMeasureDone), MeasureDirty | MeasureDirtyPath))]
      && seen.log == s.log + [MeasureCoreCalled(id, available)]
  {
    var entered := if t.elements[id].isVisualTreeRoot then s.(layoutingVisualTreeRoot := true) else s;
    MarkedInput(entered, id, available);
  }

  /** Marking an element as measured and then clearing its measure flags, as one update. */
  lemma MarkedInput(s: Layout, id: NodeId, available: Size)
    requires id in s.nodes
    ensures var seen := MeasureCoreInput(MarkFirstMeasure(s, id), id, available);
      var f := s.nodes[id].flags;
      && seen.nodes == s.nodes[id := s.nodes[id].(flags := ClearLayoutFlags(SetLayoutFlag(f, FirstMeasureDone), MeasureDirty | MeasureDirtyPath))]
      && seen.log == s.log + [MeasureCoreCalled(id, available)]
  {
    var marked := MarkFirstMeasure(s, id);
    var f := s.nodes[id].flags;
    MarkedFlags(f, marked.nodes[id].flags);
    assert marked.nodes == s.nodes[id := s.nodes[id].(flags := SetLayoutFlag(f, FirstMeasureDone))];
  }

  lemma MarkedFlags(f: Flags, marked: Flags)
    requires OnlyGains(f, marked, FirstMeasureDone) && IsFirstMeasureDone(marked)
    ensures marked == SetLayoutFlag(f, FirstMeasureDone)
  {
  }

  lemma SeenFlagsOf(f: Flags)
    ensures var seen := ClearLayoutFlags(SetLayoutFlag(f, FirstMeasureDone), MeasureDirty | MeasureDirtyPath);
      && !IsMeasureDirty(seen) && !IsMeasurePathDirty(seen) && IsFirstMeasureDone(seen)
      && seen & !SeenFlags == f & !SeenFlags
  {
  }

  /** Resetting an element's flags to those of a fresh element makes the next measure
      recompute it: a measurable element then has its MeasureCore called, whatever the size. */
  lemma ResetThenMeasureRuns(t: Tree, s: Layout, id: NodeId, available: Size, flavor: BuildFlavor, core: MeasureCore)
    requires WF(t) && Fits(t, s) && id in t.elements && Measurable(t, id, available)
    ensures var s' := WithFlags(s, id, ResetLayoutFlags());
      && Fits(t, s')
      && NeedsRecompute(s', id, available)
      && MeasureCoreCalled(id, available) in Measure(t, s', id, available, flavor, core).layout.log[|s'.log|..]
  {
    var s' := WithFlags(s, id, ResetLayoutFlags());
    assert !IsFirstMeasureDone(s'.nodes[id].flags);
    MeasureCoreRunsIff(t, s', id, available, flavor, core);
  }

  /** A parent and one collapsed framework-element child, both measured once at zero size
      and clean. */
  function CollapsedChildTree(): (t: Tree)
    ensures WF(t) && 1 in t.elements && t.elements[1].parent == Some(0)
  {
    var parent := Element(None, [1], 0, true, false, false, false, NotCustomClipping);
    var child := Element(Some(0), [], 1, true, false, true, false, NotCustomClipping);
    Tree(map[0 := parent, 1 := child], 1)
  }

  /** Both elements clean, measured once, at zero size. */
  function CollapsedChildLayout(): (s: Layout)
    ensures Fits(CollapsedChildTree(), s)
  {
    var clean := NodeLayout(FirstMeasureDone, ZeroSize, DefaultRect, ZeroSize, ZeroSize);
    Layout(map[0 := clean, 1 := clean], false, [])
  }

  /** The collapsed branch of Measure marks the element measure-dirty on a new size without
      walking up to its parent, so it can leave a dirty element under a clean parent: the
      invariant every invalidation preserves does not survive a measure. */
  lemma CollapsedMeasureBreaksPathInvariant(flavor: BuildFlavor, core: MeasureCore)
    ensures var t := CollapsedChildTree();
      var s := CollapsedChildLayout();
      && PathInvariant(t, s)
      && var c := Measure(t, s, 1, Size(Finite(1), Finite(1)), flavor, core);
         && Fits(t, c.layout)
         && IsMeasureDirty(c.layout.nodes[1].flags)
         && !IsMeasureOrMeasurePathDirty(c.layout.nodes[0].flags)
         && !PathInvariant(t, c.layout)
  {
    var t := CollapsedChildTree();
    var s := CollapsedChildLayout();
    CollapsedChildMarked(flavor, core);
    CollapsedChildStartsClean();
    CollapsedChildLeftDirty();
  }

  /** Before the measure nothing is dirty, so the invariant holds. */
  lemma CollapsedChildStartsClean()
    ensures PathInvariant(CollapsedChildTree(), CollapsedChildLayout())
  {
    var s := CollapsedChildLayout();
    assert forall n | n in s.nodes :: !IsMeasureOrMeasurePathDirty(s.nodes[n].flags);
  }

  /** After it the child is measure-dirty under a clean parent. */
  lemma CollapsedChildLeftDirty()
    ensures var t := CollapsedChildTree();
      var r := SetFlagAt(CollapsedChildLayout(), 1, MeasureDirty);
      && Fits(t, r)
      && IsMeasureDirty(r.nodes[1].flags)
      && !IsMeasureOrMeasurePathDirty(r.nodes[0].flags)
      && !PathInvariant(t, r)
  {
    var r := SetFlagAt(CollapsedChildLayout(), 1, MeasureDirty);
    assert IsMeasureDirty(r.nodes[1].flags);
  }

  /** Measuring the collapsed child at a new size only marks it measure-dirty. */
  lemma CollapsedChildMarked(flavor: BuildFlavor, core: MeasureCore)
    ensures var t := CollapsedChildTree();
      var s := CollapsedChildLayout();
      Measure(t, s, 1, Size(Finite(1), Finite(1)), flavor, core) == Completion(SetFlagAt(s, 1, MeasureDirty), None)
  {
  }
}
