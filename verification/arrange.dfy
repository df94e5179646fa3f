/** The arrange pass: Arrange's entry checks (not a framework element, an empty or
    collapsed slot, nothing to do), the visual-tree-root wrapper, and DoArrange, which
    stores the slot and clears ArrangeDirty before it hands over to ArrangeCore. */
module ArrangePass {
  import opened Values
  import opened LayoutFlags
  import opened VisualTree
  import opened Invalidation

  /** What an element's ArrangeCore override did: arranged, possibly re-invalidating its own
      arrange on the way, or threw. */
  datatype ArrangeCoreResult = Arranged(invalidatesItself: bool) | ArrangeCoreThrew

  /** The virtual ArrangeCore of each element, as an oracle. It is handed the final rect and
      the layout state as it stands when it is called, so that what indirect code can read
      during the call (the element's slot, its flags, the root-layout flag) is part of
      what it may depend on. */
  type ArrangeCore = (NodeId, Rect, Layout) -> ArrangeCoreResult

  function SetLayoutSlot(s: Layout, id: NodeId, slot: Rect): (r: Layout)
    requires id in s.nodes
    ensures r.nodes.Keys == s.nodes.Keys
  {
    s.(nodes := s.nodes[id := s.nodes[id].(layoutSlot := slot)])
  }

  /** Arrange's first early exit: the element is collapsed, or the rect is `default(Rect)`
      and the element either does not implement custom clipping or allows clipping to its
      layout slot. */
  predicate ClipsToEmptySlot(e: Element, finalRect: Rect) {
    || e.collapsed
    || (finalRect == DefaultRect && (e.clipping.NotCustomClipping? || e.clipping.allowClippingToLayoutSlot))
  }

  /** Arrange's second early exit: not arrange-dirty and asked for the slot it already has. */
  predicate ArrangeUpToDate(s: Layout, id: NodeId, finalRect: Rect)
    requires id in s.nodes
  {
    !IsArrangeDirty(s.nodes[id].flags) && finalRect == s.nodes[id].layoutSlot
  }

  /** The elements Arrange does real work for: it reaches DoArrange. */
  predicate Arrangeable(t: Tree, s: Layout, id: NodeId, finalRect: Rect)
    requires id in t.elements && id in s.nodes
  {
    && t.elements[id].isFrameworkElement
    && !ClipsToEmptySlot(t.elements[id], finalRect)
    && !ArrangeUpToDate(s, id, finalRect)
  }

  /** What any arrange of `id` may do: append events, none of them a MeasureCore call; change
      only `id`'s flags and slot, and there of the flags only ArrangeDirty; and on the
      ancestors only add ArrangeDirty. */
  ghost predicate ArrangeEffect(t: Tree, id: NodeId, s: Layout, r: Layout)
    requires WF(t) && Fits(t, s) && id in t.elements
  {
    && r.nodes.Keys == s.nodes.Keys
    && s.log <= r.log
    && (forall e | e in r.log[|s.log|..] :: !e.MeasureCoreCalled?)
    && (forall n | n in s.nodes && n !in Lineage(t, id) :: r.nodes[n] == s.nodes[n])
    && r.nodes[id] == s.nodes[id].(flags := r.nodes[id].flags, layoutSlot := r.nodes[id].layoutSlot)
    && r.nodes[id].flags & !ArrangeDirty == s.nodes[id].flags & !ArrangeDirty
    && (forall n | n in Ancestors(t, id) ::
          && r.nodes[n] == s.nodes[n].(flags := r.nodes[n].flags)
          && OnlyGains(s.nodes[n].flags, r.nodes[n].flags, ArrangeDirty))
  }

  /** Events that are all notifications to the window that it needs a new measure pass. */
  predicate OnlyWindowNotices(log: seq<Event>) {
    forall k | 0 <= k < |log| :: log[k] == WindowMeasureInvalidated
  }

  /** The empty-slot exit: the slot is recorded, the visual hidden and ArrangeDirty
      cleared, and nothing else happens. */
  function HideEmptySlot(s: Layout, id: NodeId, finalRect: Rect): (r: Layout)
    requires id in s.nodes
    ensures r.nodes.Keys == s.nodes.Keys
    ensures r.log == s.log + [VisualHidden(id)] && r.layoutingVisualTreeRoot == s.layoutingVisualTreeRoot
    ensures forall n | n in s.nodes && n != id :: r.nodes[n] == s.nodes[n]
    ensures r.nodes[id] == s.nodes[id].(flags := r.nodes[id].flags, layoutSlot := finalRect)
    ensures r.nodes[id].flags & !ArrangeDirty == s.nodes[id].flags & !ArrangeDirty
    ensures !IsArrangeDirty(r.nodes[id].flags)
  {
    var r := ClearFlagsAt(Emit(SetLayoutSlot(s, id, finalRect), VisualHidden(id)), id, ArrangeDirty);
    var nd := SlotStoredNode(s.nodes[id], finalRect);
    assert r.nodes == s.nodes[id := nd];
    r
  }

  /** The layout state ArrangeCore runs in: the visual shown, the new slot stored and
      ArrangeDirty cleared, all before the call, so that indirect code reading the slot sees
      the new one and ArrangeCore may re-invalidate the element. */
  function ArrangeCoreInput(t: Tree, s: Layout, id: NodeId, finalRect: Rect): (v: Layout)
    requires WF(t) && Fits(t, s) && id in t.elements
    ensures Fits(t, v) && ArrangeEffect(t, id, s, v)
    ensures v.log == s.log + [VisualShown(id), ArrangeCoreCalled(id, finalRect)]
    ensures v.layoutingVisualTreeRoot == s.layoutingVisualTreeRoot
    ensures forall n | n in s.nodes && n != id :: v.nodes[n] == s.nodes[n]
    ensures v.nodes[id].layoutSlot == finalRect && !IsArrangeDirty(v.nodes[id].flags)
  {
    var s1 := SetLayoutSlot(Emit(s, VisualShown(id)), id, finalRect);
    var v := Emit(ClearFlagsAt(s1, id, ArrangeDirty), ArrangeCoreCalled(id, finalRect));
    SlotStored(t, id, s, finalRect, [VisualShown(id), ArrangeCoreCalled(id, finalRect)], v);
    v
  }

  /** What DoArrange leaves behind, given the state `s` it started from: ArrangeCore ran in
      ArrangeCoreInput; if it returned, the element is arrange-dirty exactly when it
      re-invalidated itself and does not intercept invalidation, and nothing failed; if it
      threw, the failure propagates and the state is the one the call saw. The slot is the
      new one either way. */
  ghost predicate ArrangedOutcome(t: Tree, s: Layout, id: NodeId, finalRect: Rect, core: ArrangeCore, c: Completion)
    requires WF(t) && Fits(t, s) && id in t.elements
  {
    && id in c.layout.nodes
    && c.layout.nodes[id].layoutSlot == finalRect
    && s.log + [VisualShown(id), ArrangeCoreCalled(id, finalRect)] <= c.layout.log
    && OnlyWindowNotices(c.layout.log[|s.log| + 2..])
    && match core(id, finalRect, ArrangeCoreInput(t, s, id, finalRect))
       case Arranged(again) =>
         && c.fault == None
         && (IsArrangeDirty(c.layout.nodes[id].flags) <==> again && !t.elements[id].interceptInvalidate)
       case ArrangeCoreThrew =>
         && c.fault == Some(ArrangeCoreFailed(id))
         && c.layout.nodes == ArrangeCoreInput(t, s, id, finalRect).nodes
         && c.layout.log == s.log + [VisualShown(id), ArrangeCoreCalled(id, finalRect)]
  }

  function DoArrange(t: Tree, s: Layout, id: NodeId, finalRect: Rect, core: ArrangeCore): (c: Completion)
    requires WF(t) && Fits(t, s) && id in t.elements
    ensures ArrangeEffect(t, id, s, c.layout)
    ensures c.layout.layoutingVisualTreeRoot == s.layoutingVisualTreeRoot
    ensures ArrangedOutcome(t, s, id, finalRect, core, c)
  {
    var v := ArrangeCoreInput(t, s, id, finalRect);
    match core(id, finalRect, v)
    case Arranged(again) =>
      var r := if again then InvalidateArrange(t, v, id) else v;
      ReArranged(t, s, id, finalRect, v, again, r);
      Completion(r, None)
    case ArrangeCoreThrew =>
      ThrewArrange(t, s, id, finalRect, v);
      Completion(v, Some(ArrangeCoreFailed(id)))
  }

  /** The root of the visual tree sets the process-wide flag around DoArrange and resets
      it on every way out, the exceptional one included. */
  function ArrangeVisualTreeRoot(t: Tree, s: Layout, id: NodeId, finalRect: Rect, core: ArrangeCore): (c: Completion)
    requires WF(t) && Fits(t, s) && id in t.elements
    ensures ArrangeEffect(t, id, s, c.layout)
    ensures !c.layout.layoutingVisualTreeRoot
    ensures ArrangedOutcome(t, s.(layoutingVisualTreeRoot := true), id, finalRect, core, c)
  {
    var c := DoArrange(t, s.(layoutingVisualTreeRoot := true), id, finalRect, core);
    c.(layout := c.layout.(layoutingVisualTreeRoot := false))
  }

  /** The state DoArrange starts from: the root of the visual tree raises the flag first. */
  function ArrangeEntry(t: Tree, s: Layout, id: NodeId): (s': Layout)
    requires id in t.elements
    ensures s'.nodes == s.nodes && s'.log == s.log
    ensures s'.layoutingVisualTreeRoot == (t.elements[id].isVisualTreeRoot || s.layoutingVisualTreeRoot)
  {
    if t.elements[id].isVisualTreeRoot then s.(layoutingVisualTreeRoot := true) else s
  }

  function Arrange(t: Tree, s: Layout, id: NodeId, finalRect: Rect, core: ArrangeCore): (c: Completion)
    requires WF(t) && Fits(t, s) && id in t.elements
    ensures ArrangeEffect(t, id, s, c.layout)
    ensures c.layout.layoutingVisualTreeRoot ==
      (if t.elements[id].isVisualTreeRoot && Arrangeable(t, s, id, finalRect) then false else s.layoutingVisualTreeRoot)
    ensures !t.elements[id].isFrameworkElement ==> c == Completion(s, None)
    ensures t.elements[id].isFrameworkElement && ClipsToEmptySlot(t.elements[id], finalRect) ==>
      c == Completion(HideEmptySlot(s, id, finalRect), None)
    ensures (t.elements[id].isFrameworkElement && !ClipsToEmptySlot(t.elements[id], finalRect)
             && ArrangeUpToDate(s, id, finalRect)) ==> c == Completion(s, None)
    ensures Arrangeable(t, s, id, finalRect) ==> ArrangedOutcome(t, ArrangeEntry(t, s, id), id, finalRect, core, c)
  {
    var e := t.elements[id];
    if !e.isFrameworkElement then
      ArrangeEffectRefl(t, id, s);
      Completion(s, None)
    else if ClipsToEmptySlot(e, finalRect) then
      var r := HideEmptySlot(s, id, finalRect);
      HiddenIsArrangeEffect(t, id, s, finalRect, r);
      Completion(r, None)
    else if ArrangeUpToDate(s, id, finalRect) then
      ArrangeEffectRefl(t, id, s);
      Completion(s, None)
    else if e.isVisualTreeRoot then
      ArrangeVisualTreeRoot(t, s, id, finalRect, core)
    else
      DoArrange(t, s, id, finalRect, core)
  }

  lemma ArrangeEffectRefl(t: Tree, id: NodeId, s: Layout)
    requires WF(t) && Fits(t, s) && id in t.elements
    ensures ArrangeEffect(t, id, s, s)
  {
    forall n | n in Ancestors(t, id)
      ensures OnlyGains(s.nodes[n].flags, s.nodes[n].flags, ArrangeDirty)
    {
      OnlyGainsReflexive(s.nodes[n].flags, ArrangeDirty);
    }
  }

  /** A change confined to `id`'s slot and ArrangeDirty bit, with events appended that are
      not MeasureCore calls, is an arrange effect. */
  lemma OwnArrangeChange(t: Tree, id: NodeId, s: Layout, r: Layout)
    requires WF(t) && Fits(t, s) && id in t.elements
    requires id in r.nodes && r.nodes == s.nodes[id := r.nodes[id]]
    requires r.nodes[id] == s.nodes[id].(flags := r.nodes[id].flags, layoutSlot := r.nodes[id].layoutSlot)
    requires r.nodes[id].flags & !ArrangeDirty == s.nodes[id].flags & !ArrangeDirty
    requires s.log <= r.log && forall e | e in r.log[|s.log|..] :: !e.MeasureCoreCalled?
    ensures ArrangeEffect(t, id, s, r)
  {
    forall n | n in Ancestors(t, id)
      ensures r.nodes[n] == s.nodes[n].(flags := r.nodes[n].flags)
      ensures OnlyGains(s.nodes[n].flags, r.nodes[n].flags, ArrangeDirty)
    {
      assert n != id;
      OnlyGainsReflexive(s.nodes[n].flags, ArrangeDirty);
    }
  }

  lemma HiddenIsArrangeEffect(t: Tree, id: NodeId, s: Layout, finalRect: Rect, r: Layout)
    requires WF(t) && Fits(t, s) && id in t.elements
    requires r == HideEmptySlot(s, id, finalRect)
    ensures ArrangeEffect(t, id, s, r)
  {
    assert r.nodes == s.nodes[id := r.nodes[id]];
    assert r.log[|s.log|..] == [VisualHidden(id)];
    OwnArrangeChange(t, id, s, r);
  }

  /** Storing a slot and clearing ArrangeDirty on `id`, with events appended that are not
      MeasureCore calls. */
  lemma SlotStored(t: Tree, id: NodeId, s: Layout, slot: Rect, extra: seq<Event>, r: Layout)
    requires WF(t) && Fits(t, s) && id in t.elements
    requires r.nodes == ClearFlagsAt(SetLayoutSlot(s, id, slot), id, ArrangeDirty).nodes
    requires r.log == s.log + extra && forall k | 0 <= k < |extra| :: !extra[k].MeasureCoreCalled?
    ensures Fits(t, r) && ArrangeEffect(t, id, s, r)
    ensures forall n | n in s.nodes && n != id :: r.nodes[n] == s.nodes[n]
    ensures r.nodes[id].layoutSlot == slot && !IsArrangeDirty(r.nodes[id].flags)
  {
    var nd := SlotStoredNode(s.nodes[id], slot);
    assert r.nodes == s.nodes[id := nd];
    assert r.log[|s.log|..] == extra;
    OwnArrangeChange(t, id, s, r);
  }

  /** One element's state once its slot is stored and ArrangeDirty cleared. */
  function SlotStoredNode(before: NodeLayout, slot: Rect): (after: NodeLayout)
    ensures after == before.(flags := after.flags, layoutSlot := after.layoutSlot)
    ensures after.flags & !ArrangeDirty == before.flags & !ArrangeDirty
    ensures after.layoutSlot == slot && !IsArrangeDirty(after.flags)
  {
    before.(flags := ClearLayoutFlags(before.flags, ArrangeDirty), layoutSlot := slot)
  }

  /** The bits other than ArrangeDirty survive a change that only adds ArrangeDirty. */
  lemma GainedArrangeOnly(f: Flags, g: Flags, h: Flags)
    requires g & !ArrangeDirty == f & !ArrangeDirty && OnlyGains(g, h, ArrangeDirty)
    ensures h & !ArrangeDirty == f & !ArrangeDirty
  {
  }

  /** One arrange effect after another is an arrange effect. */
  lemma ArrangeEffectTrans(t: Tree, id: NodeId, s: Layout, v: Layout, r: Layout)
    requires WF(t) && Fits(t, s) && Fits(t, v) && id in t.elements
    requires ArrangeEffect(t, id, s, v) && ArrangeEffect(t, id, v, r)
    ensures ArrangeEffect(t, id, s, r)
  {
    AppendedSplit(s.log, v.log, r.log);
    forall n | n in Ancestors(t, id)
      ensures r.nodes[n] == s.nodes[n].(flags := r.nodes[n].flags)
      ensures OnlyGains(s.nodes[n].flags, r.nodes[n].flags, ArrangeDirty)
    {
      OnlyGainsTransitive(s.nodes[n].flags, v.nodes[n].flags, r.nodes[n].flags, ArrangeDirty);
    }
  }

  /** What an arrange invalidation of the element itself may change is an arrange effect. */
  lemma InvalidationIsArrangeEffect(t: Tree, id: NodeId, v: Layout, r: Layout)
    requires WF(t) && Fits(t, v) && id in t.elements
    requires InvalidationFrame(t, id, v, r, ArrangeDirty, ArrangeDirty)
    ensures Fits(t, r) && ArrangeEffect(t, id, v, r)
    ensures v.log <= r.log && OnlyWindowNotices(r.log[|v.log|..])
  {
    GainedArrangeOnly(v.nodes[id].flags, v.nodes[id].flags, r.nodes[id].flags);
    assert r.log[|v.log|..] == [] || r.log[|v.log|..] == [WindowMeasureInvalidated];
  }

  /** ArrangeCore returned: re-invalidation of the element (when it asked for it) is an
      arrange invalidation starting from the state the call saw. */
  lemma ReArranged(t: Tree, s: Layout, id: NodeId, finalRect: Rect, v: Layout, again: bool, r: Layout)
    requires WF(t) && Fits(t, s) && id in t.elements
    requires v == ArrangeCoreInput(t, s, id, finalRect)
    requires r == if again then InvalidateArrange(t, v, id) else v
    ensures ArrangeEffect(t, id, s, r) && r.layoutingVisualTreeRoot == s.layoutingVisualTreeRoot
    ensures id in r.nodes && r.nodes[id].layoutSlot == finalRect
    ensures v.log <= r.log && OnlyWindowNotices(r.log[|v.log|..])
    ensures IsArrangeDirty(r.nodes[id].flags) <==> again && !t.elements[id].interceptInvalidate
  {
    if again {
      if t.elements[id].interceptInvalidate {
        assert r == v;
      } else {
        InvalidatedAfterInput(t, s, id, v, r);
      }
    } else {
      assert r == v;
    }
  }

  /** The arrange invalidation of an element that does not intercept, run from the state its
      ArrangeCore saw. */
  lemma InvalidatedAfterInput(t: Tree, s: Layout, id: NodeId, v: Layout, r: Layout)
    requires WF(t) && Fits(t, s) && id in t.elements && Fits(t, v) && ArrangeEffect(t, id, s, v)
    requires r == InvalidateArrange(t, v, id)
    ensures ArrangeEffect(t, id, s, r) && r.layoutingVisualTreeRoot == v.layoutingVisualTreeRoot
    ensures id in r.nodes && r.nodes[id].layoutSlot == v.nodes[id].layoutSlot
    ensures v.log <= r.log && OnlyWindowNotices(r.log[|v.log|..])
    ensures !t.elements[id].interceptInvalidate ==> IsArrangeDirty(r.nodes[id].flags)
  {
    InvalidationIsArrangeEffect(t, id, v, r);
    ArrangeEffectTrans(t, id, s, v, r);
  }

  /** ArrangeCore threw: the state is the one the call saw. */
  lemma ThrewArrange(t: Tree, s: Layout, id: NodeId, finalRect: Rect, v: Layout)
    requires WF(t) && Fits(t, s) && id in t.elements
    requires v == ArrangeCoreInput(t, s, id, finalRect)
    ensures v.log[|s.log| + 2..] == []
  {
  }
}
