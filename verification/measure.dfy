/** The measure pass: Measure's entry checks, the visual-tree-root wrapper, and DoMeasure's
    three branches (recompute, path-only recursion into dirty children, nothing). */
module MeasurePass {
  import opened Values
  import opened LayoutFlags
  import opened VisualTree
  import opened Invalidation

  /** What an element's MeasureCore override did: produced a desired size, possibly
      re-invalidating its own measure on the way, or threw. */
  datatype MeasureCoreResult = Measured(desiredSize: Size, invalidatesItself: bool) | MeasureCoreThrew

  /** The virtual MeasureCore of each element, as an oracle. It is given the layout state as
      it stands when it is called, root-layout flag included. */
  type MeasureCore = (NodeId, Size, Layout) -> MeasureCoreResult

  /** Debug builds wrap MeasureCore in a catch that logs and swallows the exception; other
      builds let it propagate. */
  datatype BuildFlavor = DebugBuild | ReleaseBuild

  /** The flags the measure of a descendant may add to an ancestor. */
  const DescendantGain: Flags := MeasureDirtyPath | ArrangeDirty

  /** The layout a recompute hands to MeasureCore: the element's measure and path flags
      cleared first, so that MeasureCore can re-invalidate the element, and the call logged. */
  function MeasureCoreInput(s: Layout, id: NodeId, available: Size): (r: Layout)
    requires id in s.nodes
    ensures r.nodes.Keys == s.nodes.Keys
  {
    Emit(ClearFlagsAt(s, id, MeasureDirty | MeasureDirtyPath), MeasureCoreCalled(id, available))
  }

  function SetLastAvailableSize(s: Layout, id: NodeId, size: Size): (r: Layout)
    requires id in s.nodes
    ensures r.nodes.Keys == s.nodes.Keys
  {
    s.(nodes := s.nodes[id := s.nodes[id].(lastAvailableSize := size)])
  }

  function SetDesiredSize(s: Layout, id: NodeId, size: Size): (r: Layout)
    requires id in s.nodes
    ensures r.nodes.Keys == s.nodes.Keys
  {
    s.(nodes := s.nodes[id := s.nodes[id].(desiredSize := size)])
  }

  /** The elements Measure does anything for: framework elements, measured with a size
      without NaN, that are not collapsed. */
  predicate Measurable(t: Tree, id: NodeId, available: Size)
    requires id in t.elements
  {
    t.elements[id].isFrameworkElement && !HasNaN(available) && !t.elements[id].collapsed
  }

  /** DoMeasure's recompute condition: dirty, never measured, or a new available size. */
  predicate NeedsRecompute(s: Layout, id: NodeId, available: Size)
    requires id in s.nodes
  {
    || IsMeasureDirty(s.nodes[id].flags)
    || !IsFirstMeasureDone(s.nodes[id].flags)
    || available != s.nodes[id].lastAvailableSize
  }

  /** Every MeasureCore call among `events` is on an element of `id`'s subtree (a strict
      descendant when `strict`). */
  ghost predicate CoreCallsIn(t: Tree, id: NodeId, events: seq<Event>, strict: bool)
    requires WF(t)
  {
    forall e | e in events && e.MeasureCoreCalled? ::
      e.node in t.elements && id in Lineage(t, e.node) && (strict ==> e.node != id)
  }

  /** What measuring `id` (or, when `strict`, only its children) may do: append events whose
      MeasureCore calls lie in the subtree, change nothing off `id`'s root path, and on the
      ancestors (and `id` itself when `strict`) only add path and arrange flags. */
  ghost predicate MeasureEffect(t: Tree, id: NodeId, s: Layout, r: Layout, strict: bool)
    requires WF(t) && Fits(t, s) && id in t.elements
  {
    && r.nodes.Keys == s.nodes.Keys
    && s.log <= r.log
    && CoreCallsIn(t, id, r.log[|s.log|..], strict)
    && (forall n | n in s.nodes && !Related(t, id, n) :: r.nodes[n] == s.nodes[n])
    && (forall n | n in (if strict then Lineage(t, id) else Ancestors(t, id)) ::
          && r.nodes[n] == s.nodes[n].(flags := r.nodes[n].flags)
          && OnlyGains(s.nodes[n].flags, r.nodes[n].flags, DescendantGain))
  }

  lemma MeasureEffectRefl(t: Tree, id: NodeId, s: Layout, strict: bool)
    requires WF(t) && Fits(t, s) && id in t.elements
    ensures MeasureEffect(t, id, s, s, strict)
  {
    forall n | n in (if strict then Lineage(t, id) else Ancestors(t, id))
      ensures OnlyGains(s.nodes[n].flags, s.nodes[n].flags, DescendantGain)
    {
      OnlyGainsReflexive(s.nodes[n].flags, DescendantGain);
    }
  }

  lemma MeasureEffectTrans(t: Tree, id: NodeId, s: Layout, m: Layout, r: Layout, strict: bool)
    requires WF(t) && Fits(t, s) && id in t.elements && Fits(t, m)
    requires MeasureEffect(t, id, s, m, strict) && MeasureEffect(t, id, m, r, strict)
    ensures MeasureEffect(t, id, s, r, strict)
  {
    AppendedSplit(s.log, m.log, r.log);
    forall n | n in (if strict then Lineage(t, id) else Ancestors(t, id))
      ensures OnlyGains(s.nodes[n].flags, r.nodes[n].flags, DescendantGain)
    {
      OnlyGainsTransitive(s.nodes[n].flags, m.nodes[n].flags, r.nodes[n].flags, DescendantGain);
    }
  }

  /** What measuring a child does is what measuring the parent's children may do. */
  lemma ChildEffectLifts(t: Tree, id: NodeId, c: NodeId, s: Layout, r: Layout)
    requires WF(t) && Fits(t, s) && id in t.elements && c in t.elements
    requires t.elements[c].parent == Some(id)
    requires MeasureEffect(t, c, s, r, false)
    ensures MeasureEffect(t, id, s, r, true)
  {
    assert Lineage(t, c) == [c] + Lineage(t, id);
    assert Ancestors(t, c) == Lineage(t, id);
    forall n | n in s.nodes && !Related(t, id, n)
      ensures r.nodes[n] == s.nodes[n]
    {
      if Related(t, c, n) {
        RelatedThroughChild(t, id, c, n);
      }
    }
    forall e | e in r.log[|s.log|..] && e.MeasureCoreCalled?
      ensures e.node in t.elements && id in Lineage(t, e.node) && e.node != id
    {
      LineageClosedUpward(t, e.node, c);
    }
  }

  /** A change to `id` alone followed by a children pass is a measure of `id`. */
  lemma OwnChangeThenChildren(t: Tree, id: NodeId, s: Layout, s': Layout, r: Layout)
    requires WF(t) && Fits(t, s) && id in t.elements
    requires id in s'.nodes && s'.nodes == s.nodes[id := s'.nodes[id]] && s'.log == s.log
    requires Fits(t, s') && MeasureEffect(t, id, s', r, true)
    ensures MeasureEffect(t, id, s, r, false)
  {
    assert Lineage(t, id) == [id] + Ancestors(t, id);
    forall e | e in r.log[|s.log|..] && e.MeasureCoreCalled?
      ensures e.node in t.elements && id in Lineage(t, e.node)
    {
    }
  }

  /** A change to `id` alone followed by a measure of `id` is a measure of `id`. */
  lemma OwnChangeThenMeasure(t: Tree, id: NodeId, s: Layout, s': Layout, r: Layout)
    requires WF(t) && Fits(t, s) && id in t.elements
    requires id in s'.nodes && s'.nodes == s.nodes[id := s'.nodes[id]] && s'.log == s.log
    requires Fits(t, s') && MeasureEffect(t, id, s', r, false)
    ensures MeasureEffect(t, id, s, r, false)
  {
    MeasureEffectRefl(t, id, s', true);
    OwnChangeThenChildren(t, id, s, s', s');
    MeasureEffectTrans(t, id, s, s', r, false);
  }

  /** The flags a recompute may clear or set on the element itself. */
  const RecomputedFlags: Flags := MeasureDirty | MeasureDirtyPath | ArrangeDirty

  /** What a recompute leaves on the element itself, `before` being its record when the
      recompute starts, and `seen` the layout MeasureCore is given: its other flags and its
      slot and render size are kept, it is no longer path-dirty, and then by MeasureCore's
      outcome: on success the desired and
      available sizes are recorded, it is measure-dirty exactly when MeasureCore
      re-invalidated it (and does not intercept), and arrange-dirty unless it intercepts; on
      failure it is not measure-dirty, its arrange flag and desired size are kept, and debug
      builds swallow the failure and record the available size while other builds
      propagate it and record nothing. */
  ghost predicate RecomputeOutcome(t: Tree, id: NodeId, before: NodeLayout, available: Size,
                                   flavor: BuildFlavor, core: MeasureCore, seen: Layout, c: Completion)
    requires id in t.elements && id in c.layout.nodes
  {
    var after := c.layout.nodes[id];
    var intercept := t.elements[id].interceptInvalidate;
    && after.flags & !RecomputedFlags == before.flags & !RecomputedFlags
    && !IsMeasurePathDirty(after.flags)
    && after.layoutSlot == before.layoutSlot
    && after.renderSize == before.renderSize
    && match core(id, available, seen)
       case Measured(desired, again) =>
         && c.fault == None
         && after.desiredSize == desired
         && after.lastAvailableSize == available
         && (IsMeasureDirty(after.flags) <==> again && !intercept)
         && (!intercept ==> IsArrangeDirty(after.flags))
       case MeasureCoreThrew =>
         && !IsMeasureDirty(after.flags)
         && (IsArrangeDirty(after.flags) <==> IsArrangeDirty(before.flags))
         && after.desiredSize == before.desiredSize
         && (if flavor == DebugBuild then
               c.fault == None && after.lastAvailableSize == available
             else
               c.fault == Some(MeasureCoreFailed(id)) && after.lastAvailableSize == before.lastAvailableSize)
  }

  lemma RecomputedOwnFlags(f: Flags, f3: Flags, f4: Flags, dirty: bool, arranged: bool)
    requires OnlyGains(ClearLayoutFlags(f, MeasureDirty | MeasureDirtyPath), f3, MeasureDirty)
    requires IsMeasureDirty(f3) == dirty
    requires OnlyGains(f3, f4, ArrangeDirty) && (arranged ==> IsArrangeDirty(f4))
    ensures f4 & !RecomputedFlags == f & !RecomputedFlags
    ensures !IsMeasurePathDirty(f4) && IsMeasureDirty(f4) == dirty && (arranged ==> IsArrangeDirty(f4))
  {
  }

  lemma ClearedOwnFlags(f: Flags, g: Flags)
    requires g == ClearLayoutFlags(f, MeasureDirty | MeasureDirtyPath)
    ensures g & !RecomputedFlags == f & !RecomputedFlags
    ensures !IsMeasurePathDirty(g) && !IsMeasureDirty(g) && (IsArrangeDirty(g) <==> IsArrangeDirty(f))
  {
  }

  /** The successful recompute's effect on the element itself. */
  lemma RecomputedOwnNode(t: Tree, s: Layout, id: NodeId, available: Size, desired: Size, again: bool,
                          s1: Layout, s2: Layout, s3: Layout, s4: Layout, r: Layout)
    requires WF(t) && Fits(t, s) && id in t.elements
    requires s1 == Emit(ClearFlagsAt(s, id, MeasureDirty | MeasureDirtyPath), MeasureCoreCalled(id, available))
    requires s2 == SetDesiredSize(s1, id, desired)
    requires s3 == if again then InvalidateMeasure(t, s2, id) else s2
    requires s4 == InvalidateArrange(t, s3, id)
    requires r == SetLastAvailableSize(s4, id, available)
    ensures id in r.nodes
    ensures var before := s.nodes[id]; var after := r.nodes[id];
      && after.flags & !RecomputedFlags == before.flags & !RecomputedFlags
      && !IsMeasurePathDirty(after.flags)
      && after.layoutSlot == before.layoutSlot && after.renderSize == before.renderSize
      && after.desiredSize == desired && after.lastAvailableSize == available
      && (IsMeasureDirty(after.flags) <==> again && !t.elements[id].interceptInvalidate)
      && (!t.elements[id].interceptInvalidate ==> IsArrangeDirty(after.flags))
  {
    var intercept := t.elements[id].interceptInvalidate;
    var f1 := s2.nodes[id].flags;
    assert f1 == ClearLayoutFlags(s.nodes[id].flags, MeasureDirty | MeasureDirtyPath);
    if !again || intercept {
      assert s3.nodes[id].flags == f1;
      OnlyGainsReflexive(f1, MeasureDirty);
    }
    RecomputedOwnFlags(s.nodes[id].flags, s3.nodes[id].flags, s4.nodes[id].flags, again && !intercept, !intercept);
  }

  /** The recompute branch: clear the element's measure flags, call MeasureCore, and on
      success record the desired size, let a self-invalidation stand, invalidate arrange and
      record the available size. A failure is logged and swallowed in debug builds (the
      available size is still recorded) and propagates otherwise. */
  function Recompute(t: Tree, s: Layout, id: NodeId, available: Size, flavor: BuildFlavor, core: MeasureCore): (c: Completion)
    requires WF(t) && Fits(t, s) && id in t.elements
    ensures MeasureEffect(t, id, s, c.layout, false)
    ensures c.layout.layoutingVisualTreeRoot == s.layoutingVisualTreeRoot
    ensures |s.log| < |c.layout.log| && c.layout.log[|s.log|] == MeasureCoreCalled(id, available)
    ensures id in c.layout.nodes
    ensures RecomputeOutcome(t, id, s.nodes[id], available, flavor, core, MeasureCoreInput(s, id, available), c)
  {
    var s1 := MeasureCoreInput(s, id, available);
    match core(id, available, s1)
    case Measured(desired, again) =>
      var s2 := SetDesiredSize(s1, id, desired);
      var s3 := if again then InvalidateMeasure(t, s2, id) else s2;
      var s4 := InvalidateArrange(t, s3, id);
      var r := SetLastAvailableSize(s4, id, available);
      MeasuredBranch(t, s, id, available, flavor, core, desired, again, s1, s2, s3, s4, r);
      Completion(r, None)
    case MeasureCoreThrew =>
      var c := if flavor == DebugBuild then
        Completion(SetLastAvailableSize(Emit(s1, MeasureFailureLogged(id)), id, available), None)
      else
        Completion(s1, Some(MeasureCoreFailed(id)));
      ThrewBranch(t, s, id, available, flavor, core, s1, c);
      c
  }

  lemma MeasuredBranch(t: Tree, s: Layout, id: NodeId, available: Size, flavor: BuildFlavor, core: MeasureCore,
                       desired: Size, again: bool, s1: Layout, s2: Layout, s3: Layout, s4: Layout, r: Layout)
    requires WF(t) && Fits(t, s) && id in t.elements
    requires core(id, available, s1) == Measured(desired, again)
    requires s1 == Emit(ClearFlagsAt(s, id, MeasureDirty | MeasureDirtyPath), MeasureCoreCalled(id, available))
    requires s2 == SetDesiredSize(s1, id, desired)
    requires s3 == if again then InvalidateMeasure(t, s2, id) else s2
    requires s4 == InvalidateArrange(t, s3, id)
    requires r == SetLastAvailableSize(s4, id, available)
    ensures MeasureEffect(t, id, s, r, false)
    ensures r.layoutingVisualTreeRoot == s.layoutingVisualTreeRoot
    ensures |s.log| < |r.log| && r.log[|s.log|] == MeasureCoreCalled(id, available)
    ensures id in r.nodes && RecomputeOutcome(t, id, s.nodes[id], available, flavor, core, s1, Completion(r, None))
  {
    RecomputedEffect(t, s, id, available, s1, s2, s3, s4, r);
    RecomputedOwnNode(t, s, id, available, desired, again, s1, s2, s3, s4, r);
  }

  lemma ThrewBranch(t: Tree, s: Layout, id: NodeId, available: Size, flavor: BuildFlavor, core: MeasureCore,
                    s1: Layout, c: Completion)
    requires WF(t) && Fits(t, s) && id in t.elements
    requires core(id, available, s1) == MeasureCoreThrew
    requires s1 == Emit(ClearFlagsAt(s, id, MeasureDirty | MeasureDirtyPath), MeasureCoreCalled(id, available))
    requires c == if flavor == DebugBuild then
        Completion(SetLastAvailableSize(Emit(s1, MeasureFailureLogged(id)), id, available), None)
      else
        Completion(s1, Some(MeasureCoreFailed(id)))
    ensures MeasureEffect(t, id, s, c.layout, false)
    ensures c.layout.layoutingVisualTreeRoot == s.layoutingVisualTreeRoot
    ensures |s.log| < |c.layout.log| && c.layout.log[|s.log|] == MeasureCoreCalled(id, available)
    ensures id in c.layout.nodes && RecomputeOutcome(t, id, s.nodes[id], available, flavor, core, s1, c)
  {
    RecomputeEffect(t, s, id, available, s1, c.layout);
    ClearedOwnFlags(s.nodes[id].flags, c.layout.nodes[id].flags);
  }

  /** The successful recompute's states, step by step, stay within a measure's effect. */
  lemma RecomputedEffect(t: Tree, s: Layout, id: NodeId, available: Size, s1: Layout, s2: Layout, s3: Layout, s4: Layout, r: Layout)
    requires WF(t) && Fits(t, s) && id in t.elements
    requires s1 == Emit(ClearFlagsAt(s, id, MeasureDirty | MeasureDirtyPath), MeasureCoreCalled(id, available))
    requires id in s2.nodes && s2.nodes == s1.nodes[id := s2.nodes[id]] && s2.log == s1.log
    requires s2.layoutingVisualTreeRoot == s.layoutingVisualTreeRoot
    requires Fits(t, s2) && InvalidationFrame(t, id, s2, s3, MeasureDirty, MeasureDirtyPath)
    requires Fits(t, s3) && InvalidationFrame(t, id, s3, s4, ArrangeDirty, ArrangeDirty)
    requires id in s4.nodes && id in r.nodes && r.nodes == s4.nodes[id := r.nodes[id]] && r.log == s4.log
    requires r.layoutingVisualTreeRoot == s4.layoutingVisualTreeRoot
    ensures MeasureEffect(t, id, s, r, false)
    ensures r.layoutingVisualTreeRoot == s.layoutingVisualTreeRoot
    ensures |s.log| < |r.log| && r.log[|s.log|] == MeasureCoreCalled(id, available)
  {
    RecomputedLog(s1.log, s3.log, s4.log);
    forall n | n in Ancestors(t, id)
      ensures r.nodes[n] == s.nodes[n].(flags := r.nodes[n].flags)
      ensures OnlyGains(s.nodes[n].flags, r.nodes[n].flags, DescendantGain)
    {
      assert s2.nodes[n] == s.nodes[n] && r.nodes[n] == s4.nodes[n];
      AncestorGainsCompose(s.nodes[n], s3.nodes[n], s4.nodes[n]);
    }
    assert id in Lineage(t, id);
    forall n | n in s.nodes && n !in Lineage(t, id)
      ensures r.nodes[n] == s.nodes[n]
    {
      assert s2.nodes[n] == s.nodes[n];
      assert s4.nodes[n] == s2.nodes[n];
    }
    RecomputeEffect(t, s, id, available, s1, r);
  }

  lemma RecomputedLog(a: seq<Event>, b: seq<Event>, c: seq<Event>)
    requires b == a || b == a + [WindowMeasureInvalidated]
    requires c == b || c == b + [WindowMeasureInvalidated]
    ensures a <= c && forall e | e in c[|a|..] :: !e.MeasureCoreCalled?
  {
  }

  /** An ancestor that gained only MeasureDirtyPath and then only ArrangeDirty gained only
      descendant flags. */
  lemma AncestorGainsCompose(a: NodeLayout, b: NodeLayout, c: NodeLayout)
    requires b == a.(flags := b.flags) && OnlyGains(a.flags, b.flags, MeasureDirtyPath)
    requires c == b.(flags := c.flags) && OnlyGains(b.flags, c.flags, ArrangeDirty)
    ensures c == a.(flags := c.flags) && OnlyGains(a.flags, c.flags, DescendantGain)
  {
    OnlyGainsWiden(a.flags, b.flags, MeasureDirtyPath, DescendantGain);
    OnlyGainsWiden(b.flags, c.flags, ArrangeDirty, DescendantGain);
    OnlyGainsTransitive(a.flags, b.flags, c.flags, DescendantGain);
  }


  /** Clearing the element's flags, logging its MeasureCore call, and then changes confined
      to its lineage that add no further MeasureCore call, stay within a measure's effect. */
  lemma RecomputeEffect(t: Tree, s: Layout, id: NodeId, available: Size, s1: Layout, r: Layout)
    requires WF(t) && Fits(t, s) && id in t.elements
    requires s1 == Emit(ClearFlagsAt(s, id, MeasureDirty | MeasureDirtyPath), MeasureCoreCalled(id, available))
    requires r.nodes.Keys == s.nodes.Keys
    requires s1.log <= r.log
    requires forall e | e in r.log[|s1.log|..] :: !e.MeasureCoreCalled?
    requires forall n | n in s.nodes && n !in Lineage(t, id) :: r.nodes[n] == s.nodes[n]
    requires forall n | n in Ancestors(t, id) ::
      && r.nodes[n] == s.nodes[n].(flags := r.nodes[n].flags)
      && OnlyGains(s.nodes[n].flags, r.nodes[n].flags, DescendantGain)
    ensures MeasureEffect(t, id, s, r, false)
    ensures |s.log| < |r.log| && r.log[|s.log|] == MeasureCoreCalled(id, available)
  {
    AppendedSplit(s.log, s1.log, r.log);
    assert s1.log[|s.log|..] == [MeasureCoreCalled(id, available)];
    assert r.log[|s.log|] == s1.log[|s.log|];
  }

  /** Measures an element. Models Measure. */
  function Measure(t: Tree, s: Layout, id: NodeId, available: Size, flavor: BuildFlavor, core: MeasureCore): (c: Completion)
    requires WF(t) && Fits(t, s) && id in t.elements
    ensures MeasureEffect(t, id, s, c.layout, false)
    ensures c.layout.layoutingVisualTreeRoot ==
      (if t.elements[id].isVisualTreeRoot && Measurable(t, id, available) then false else s.layoutingVisualTreeRoot)
    ensures !t.elements[id].isFrameworkElement ==> c == Completion(s, None)
    ensures t.elements[id].isFrameworkElement && HasNaN(available) ==> c == Completion(s, Some(MeasuredWithNaN(id)))
    ensures t.elements[id].isFrameworkElement && !HasNaN(available) && t.elements[id].collapsed ==>
      c == Completion(MeasureCollapsed(t, s, id, available), None)
    ensures Measurable(t, id, available) ==>
      MeasuredOutcome(t, s, id, available, flavor, core, MeasureCoreSees(t, s, id, available), c)
    decreases t.height - Depth(t, id), 4, 0
  {
    var e := t.elements[id];
    if !e.isFrameworkElement then
      MeasureEffectRefl(t, id, s, false);
      Completion(s, None)
    else if HasNaN(available) then
      MeasureEffectRefl(t, id, s, false);
      Completion(s, Some(MeasuredWithNaN(id)))
    else if e.collapsed then
      Completion(MeasureCollapsed(t, s, id, available), None)
    else
      MeasureEntered(t, s, id, available, flavor, core)
  }

  /** Measure past its entry checks: the visual-tree root through its wrapper, any other
      element through DoMeasure. */
  function MeasureEntered(t: Tree, s: Layout, id: NodeId, available: Size, flavor: BuildFlavor, core: MeasureCore): (c: Completion)
    requires WF(t) && Fits(t, s) && id in t.elements
    ensures MeasureEffect(t, id, s, c.layout, false)
    ensures c.layout.layoutingVisualTreeRoot == (if t.elements[id].isVisualTreeRoot then false else s.layoutingVisualTreeRoot)
    ensures MeasuredOutcome(t, s, id, available, flavor, core, MeasureCoreSees(t, s, id, available), c)
    decreases t.height - Depth(t, id), 3, 0
  {
    if t.elements[id].isVisualTreeRoot then
      var c := MeasureVisualTreeRoot(t, s, id, available, flavor, core);
      SeenOnEntry(t, s, id, available, flavor, core, s.(layoutingVisualTreeRoot := true), c);
      c
    else
      var c := DoMeasure(t, s, id, available, flavor, core);
      SeenOnEntry(t, s, id, available, flavor, core, s, c);
      c
  }

  /** The outcome of a measure that entered `id` in `entered` is the outcome of Measure. */
  lemma SeenOnEntry(t: Tree, s: Layout, id: NodeId, available: Size, flavor: BuildFlavor, core: MeasureCore,
                    entered: Layout, c: Completion)
    requires WF(t) && Fits(t, s) && id in t.elements
    requires entered == if t.elements[id].isVisualTreeRoot then s.(layoutingVisualTreeRoot := true) else s
    requires MeasuredOutcome(t, s, id, available, flavor, core, MeasureCoreInput(MarkFirstMeasure(entered, id), id, available), c)
    ensures MeasuredOutcome(t, s, id, available, flavor, core, MeasureCoreSees(t, s, id, available), c)
  {
  }

  /** A collapsed element is not measured: given its last size nothing happens; given
      another it only becomes measure-dirty, with no MeasureCore call, no propagation to its
      ancestors and no record of the new size. */
  function MeasureCollapsed(t: Tree, s: Layout, id: NodeId, available: Size): (r: Layout)
    requires WF(t) && Fits(t, s) && id in t.elements
    ensures MeasureEffect(t, id, s, r, false)
    ensures r.log == s.log && r.layoutingVisualTreeRoot == s.layoutingVisualTreeRoot
    ensures forall n | n in s.nodes && n != id :: r.nodes[n] == s.nodes[n]
    ensures r.nodes[id] == s.nodes[id].(flags := r.nodes[id].flags)
    ensures OnlyGains(s.nodes[id].flags, r.nodes[id].flags, MeasureDirty)
    ensures IsMeasureDirty(r.nodes[id].flags) <==>
      IsMeasureDirty(s.nodes[id].flags) || available != s.nodes[id].lastAvailableSize
  {
    if available == s.nodes[id].lastAvailableSize then
      KeptMeasureState(t, s, id);
      s
    else
      MarkedMeasureDirty(t, s, id);
      SetFlagAt(s, id, MeasureDirty)
  }

  /** Leaving the layout as it is is a measure effect that keeps `id`'s flags. */
  lemma KeptMeasureState(t: Tree, s: Layout, id: NodeId)
    requires WF(t) && Fits(t, s) && id in t.elements
    ensures MeasureEffect(t, id, s, s, false)
    ensures OnlyGains(s.nodes[id].flags, s.nodes[id].flags, MeasureDirty)
  {
    MeasureEffectRefl(t, id, s, false);
    OnlyGainsReflexive(s.nodes[id].flags, MeasureDirty);
  }

  /** Setting MeasureDirty on `id` alone is a measure effect that changes only `id`'s flags. */
  lemma MarkedMeasureDirty(t: Tree, s: Layout, id: NodeId)
    requires WF(t) && Fits(t, s) && id in t.elements
    ensures var r := SetFlagAt(s, id, MeasureDirty);
      && MeasureEffect(t, id, s, r, false)
      && r.log == s.log && r.layoutingVisualTreeRoot == s.layoutingVisualTreeRoot
      && (forall n | n in s.nodes && n != id :: r.nodes[n] == s.nodes[n])
      && r.nodes[id] == s.nodes[id].(flags := r.nodes[id].flags)
      && OnlyGains(s.nodes[id].flags, r.nodes[id].flags, MeasureDirty)
      && IsMeasureDirty(r.nodes[id].flags)
  {
    var r := SetFlagAt(s, id, MeasureDirty);
    MeasureEffectRefl(t, id, s, true);
    assert Fits(t, r);
    OwnChangeThenChildren(t, id, s, r, r);
    SetOnlyGains(s.nodes[id].flags, MeasureDirty);
  }

  /** The layout an element's MeasureCore is given when Measure recomputes it: for a
      visual-tree root the root-layout flag is raised, the first measure is marked, and then
      the recompute clears the measure flags and logs the call. */
  function MeasureCoreSees(t: Tree, s: Layout, id: NodeId, available: Size): Layout
    requires id in t.elements && id in s.nodes
  {
    var entered := if t.elements[id].isVisualTreeRoot then s.(layoutingVisualTreeRoot := true) else s;
    MeasureCoreInput(MarkFirstMeasure(entered, id), id, available)
  }

  /** DoMeasure with the process-wide root-layout flag raised, and lowered again on every
      exit. Models MeasureVisualTreeRoot. */
  function MeasureVisualTreeRoot(t: Tree, s: Layout, id: NodeId, available: Size, flavor: BuildFlavor, core: MeasureCore): (c: Completion)
    requires WF(t) && Fits(t, s) && id in t.elements
    ensures MeasureEffect(t, id, s, c.layout, false)
    ensures MeasuredOutcome(t, s, id, available, flavor, core,
      MeasureCoreInput(MarkFirstMeasure(s.(layoutingVisualTreeRoot := true), id), id, available), c)
    ensures !c.layout.layoutingVisualTreeRoot
    decreases t.height - Depth(t, id), 2, 0
  {
    var c := DoMeasure(t, s.(layoutingVisualTreeRoot := true), id, available, flavor, core);
    c.(layout := c.layout.(layoutingVisualTreeRoot := false))
  }

  /** Sets FirstMeasureDone on `id` if it is not yet set; nothing else changes. */
  function MarkFirstMeasure(s: Layout, id: NodeId): (r: Layout)
    requires id in s.nodes
    ensures id in r.nodes && r.nodes == s.nodes[id := r.nodes[id]]
    ensures r.log == s.log && r.layoutingVisualTreeRoot == s.layoutingVisualTreeRoot
    ensures r.nodes[id] == s.nodes[id].(flags := r.nodes[id].flags)
    ensures IsFirstMeasureDone(r.nodes[id].flags)
    ensures OnlyGains(s.nodes[id].flags, r.nodes[id].flags, FirstMeasureDone)
  {
    if IsFirstMeasureDone(s.nodes[id].flags) then
      OnlyGainsReflexive(s.nodes[id].flags, FirstMeasureDone);
      s
    else
      SetOnlyGains(s.nodes[id].flags, FirstMeasureDone);
      SetFlagAt(s, id, FirstMeasureDone)
  }

  /** What DoMeasure does to the measured element, as seen in the layout it leaves (the
      root-layout flag aside): the element ends with FirstMeasureDone; when it is
      measure-dirty, was never measured, or is given a new size, the first event is its
      MeasureCore call with that size and the recompute leaves its RecomputeOutcome, `seen`
      being the layout MeasureCore is given;
      otherwise its own MeasureCore is not called, its record changes only in its flags,
      which lose the path flag and may regain only what its children's measures propagate;
      and a clean element given its last size is left untouched. */
  ghost predicate MeasuredOutcome(t: Tree, s: Layout, id: NodeId, available: Size, flavor: BuildFlavor,
                                  core: MeasureCore, seen: Layout, c: Completion)
    requires WF(t) && Fits(t, s) && id in t.elements
  {
    && id in c.layout.nodes && IsFirstMeasureDone(c.layout.nodes[id].flags)
    && s.log <= c.layout.log
    && (NeedsRecompute(s, id, available) ==>
          && |s.log| < |c.layout.log| && c.layout.log[|s.log|] == MeasureCoreCalled(id, available)
          && RecomputeOutcome(t, id, s.nodes[id].(flags := SetLayoutFlag(s.nodes[id].flags, FirstMeasureDone)),
                              available, flavor, core, seen, c))
    && (!NeedsRecompute(s, id, available) ==>
          && CoreCallsIn(t, id, c.layout.log[|s.log|..], true)
          && c.layout.nodes[id] == s.nodes[id].(flags := c.layout.nodes[id].flags)
          && OnlyGains(ClearLayoutFlags(s.nodes[id].flags, MeasureDirtyPath), c.layout.nodes[id].flags, DescendantGain))
    && (!NeedsRecompute(s, id, available) && !IsMeasurePathDirty(s.nodes[id].flags) ==>
          c.layout.nodes == s.nodes && c.layout.log == s.log && c.fault == None)
  }

  /** Models DoMeasure: marks the first measure, then MeasureCore runs exactly when the
      element is measure-dirty, was never measured, or is given a new size; otherwise a
      path-dirty element clears its path flag and re-measures its dirty children without
      calling its own MeasureCore, and a clean one does nothing at all. */
  function DoMeasure(t: Tree, s: Layout, id: NodeId, available: Size, flavor: BuildFlavor, core: MeasureCore): (c: Completion)
    requires WF(t) && Fits(t, s) && id in t.elements
    ensures MeasureEffect(t, id, s, c.layout, false)
    ensures c.layout.layoutingVisualTreeRoot == s.layoutingVisualTreeRoot
    ensures MeasuredOutcome(t, s, id, available, flavor, core, MeasureCoreInput(MarkFirstMeasure(s, id), id, available), c)
    decreases t.height - Depth(t, id), 1, 0
  {
    var s0 := MarkFirstMeasure(s, id);
    if NeedsRecompute(s, id, available) then
      var c := Recompute(t, s0, id, available, flavor, core);
      RecomputeBranch(t, s, id, available, flavor, core, s0, c);
      c
    else if IsMeasurePathDirty(s.nodes[id].flags) then
      var s1 := ClearFlagsAt(s0, id, MeasureDirtyPath);
      var c := MeasureDirtyChildren(t, s1, id, 0, flavor, core);
      PathBranch(t, s, id, available, s0, s1, c);
      c
    else
      MeasureEffectRefl(t, id, s0, false);
      assert s0 == s;
      Completion(s0, None)
  }

  lemma RecomputeBranch(t: Tree, s: Layout, id: NodeId, available: Size, flavor: BuildFlavor, core: MeasureCore,
                        s0: Layout, c: Completion)
    requires WF(t) && Fits(t, s) && id in t.elements
    requires s0 == MarkFirstMeasure(s, id) && Fits(t, s0)
    requires MeasureEffect(t, id, s0, c.layout, false)
    requires |s0.log| < |c.layout.log| && c.layout.log[|s0.log|] == MeasureCoreCalled(id, available)
    requires id in c.layout.nodes
    requires RecomputeOutcome(t, id, s0.nodes[id], available, flavor, core, MeasureCoreInput(s0, id, available), c)
    ensures MeasureEffect(t, id, s, c.layout, false)
    ensures IsFirstMeasureDone(c.layout.nodes[id].flags)
    ensures |s.log| < |c.layout.log| && c.layout.log[|s.log|] == MeasureCoreCalled(id, available)
    ensures RecomputeOutcome(t, id, s.nodes[id].(flags := SetLayoutFlag(s.nodes[id].flags, FirstMeasureDone)),
                             available, flavor, core, MeasureCoreInput(s0, id, available), c)
  {
    OwnChangeThenMeasure(t, id, s, s0, c.layout);
    assert s0.nodes[id] == s.nodes[id].(flags := SetLayoutFlag(s.nodes[id].flags, FirstMeasureDone));
    KeptFirstMeasure(s0.nodes[id].flags, c.layout.nodes[id].flags);
  }

  lemma KeptFirstMeasure(f: Flags, g: Flags)
    requires IsFirstMeasureDone(f) && g & !RecomputedFlags == f & !RecomputedFlags
    ensures IsFirstMeasureDone(g)
  {
  }

  lemma GainedFirstMeasure(f: Flags, g: Flags, allowed: Flags)
    requires IsFirstMeasureDone(f) && OnlyGains(f, g, allowed)
    ensures IsFirstMeasureDone(g)
  {
  }

  lemma PathBranch(t: Tree, s: Layout, id: NodeId, available: Size, s0: Layout, s1: Layout, c: Completion)
    requires WF(t) && Fits(t, s) && id in t.elements
    requires !NeedsRecompute(s, id, available)
    requires s0 == MarkFirstMeasure(s, id) && s1 == ClearFlagsAt(s0, id, MeasureDirtyPath)
    requires Fits(t, s1) && MeasureEffect(t, id, s1, c.layout, true)
    ensures MeasureEffect(t, id, s, c.layout, false)
    ensures id in c.layout.nodes && IsFirstMeasureDone(c.layout.nodes[id].flags)
    ensures CoreCallsIn(t, id, c.layout.log[|s.log|..], true)
    ensures c.layout.nodes[id] == s.nodes[id].(flags := c.layout.nodes[id].flags)
    ensures OnlyGains(ClearLayoutFlags(s.nodes[id].flags, MeasureDirtyPath), c.layout.nodes[id].flags, DescendantGain)
  {
    assert s0 == s;
    assert s1.nodes == s.nodes[id := s1.nodes[id]];
    OwnChangeThenChildren(t, id, s, s1, c.layout);
    assert id in Lineage(t, id);
    GainedFirstMeasure(s1.nodes[id].flags, c.layout.nodes[id].flags, DescendantGain);
  }

  /** The path-only branch's loop: re-measure, each with its own last available size, the
      children that are measure-dirty or path-dirty when reached, from index `i` on; stop at
      the first exception. */
  function MeasureDirtyChildren(t: Tree, s: Layout, id: NodeId, i: nat, flavor: BuildFlavor, core: MeasureCore): (c: Completion)
    requires WF(t) && Fits(t, s) && id in t.elements && i <= |t.elements[id].children|
    ensures MeasureEffect(t, id, s, c.layout, true)
    ensures c.layout.layoutingVisualTreeRoot == s.layoutingVisualTreeRoot
    decreases t.height - Depth(t, id), 0, |t.elements[id].children| - i
  {
    var children := t.elements[id].children;
    if i == |children| then
      MeasureEffectRefl(t, id, s, true);
      Completion(s, None)
    else
      var child := children[i];
      if IsMeasureOrMeasurePathDirty(s.nodes[child].flags) then
        var c1 := Measure(t, s, child, s.nodes[child].lastAvailableSize, flavor, core);
        ChildEffectLifts(t, id, child, s, c1.layout);
        if c1.fault.Some? then
          c1
        else
          var c2 := MeasureDirtyChildren(t, c1.layout, id, i + 1, flavor, core);
          MeasureEffectTrans(t, id, s, c1.layout, c2.layout, true);
          c2
      else
        MeasureDirtyChildren(t, s, id, i + 1, flavor, core)
  }
}
