/** Properties of the arrange pass that relate several calls: when ArrangeCore runs, that an
    arrange settles, that the empty-slot exit repeats, and that an arrange invalidation is
    what makes the next arrange do work. */
module ArrangeProperties {
  import opened Values
  import opened LayoutFlags
  import opened VisualTree
  import opened Invalidation
  import opened ArrangePass

  /** An element's ArrangeCore runs exactly when the element is arrangeable (a framework
      element, a slot that is neither empty nor collapsed, and arrange work to do), and then
      with the rect it was given; no other ArrangeCore is called. */
  lemma ArrangeCoreRunsIff(t: Tree, s: Layout, id: NodeId, finalRect: Rect, core: ArrangeCore)
    requires WF(t) && Fits(t, s) && id in t.elements
    ensures var c := Arrange(t, s, id, finalRect, core);
      && s.log <= c.layout.log
      && (ArrangeCoreCalled(id, finalRect) in c.layout.log[|s.log|..] <==> Arrangeable(t, s, id, finalRect))
      && OnlyArrangeCoreOf(c.layout.log[|s.log|..], id, finalRect)
  {
    var c := Arrange(t, s, id, finalRect, core);
    if Arrangeable(t, s, id, finalRect) {
      ArrangeableAppends(t, s, id, finalRect, core);
    } else if t.elements[id].isFrameworkElement && ClipsToEmptySlot(t.elements[id], finalRect) {
      assert c.layout.log[|s.log|..] == [VisualHidden(id)];
    } else {
      assert c.layout.log[|s.log|..] == [];
    }
  }

  /** Every ArrangeCore call among `events` is the one on `id` with `finalRect`. */
  predicate OnlyArrangeCoreOf(events: seq<Event>, id: NodeId, finalRect: Rect) {
    forall k | 0 <= k < |events| && events[k].ArrangeCoreCalled? :: events[k] == ArrangeCoreCalled(id, finalRect)
  }

  /** What an arrange that reaches DoArrange appends: the visual shown, the one ArrangeCore
      call, then window notifications only. */
  lemma ArrangeableAppends(t: Tree, s: Layout, id: NodeId, finalRect: Rect, core: ArrangeCore)
    requires WF(t) && Fits(t, s) && id in t.elements
    requires Arrangeable(t, s, id, finalRect)
    ensures var c := Arrange(t, s, id, finalRect, core);
      && s.log <= c.layout.log
      && ArrangeCoreCalled(id, finalRect) in c.layout.log[|s.log|..]
      && OnlyArrangeCoreOf(c.layout.log[|s.log|..], id, finalRect)
  {
    var c := Arrange(t, s, id, finalRect, core);
    assert ArrangedOutcome(t, ArrangeEntry(t, s, id), id, finalRect, core, c);
    NoticesAfterCall(s.log, c.layout.log, id, finalRect);
  }

  /** A log that continues `before` with the visual shown, one ArrangeCore call and then
      window notifications only. */
  lemma NoticesAfterCall(before: seq<Event>, after: seq<Event>, id: NodeId, finalRect: Rect)
    requires before + [VisualShown(id), ArrangeCoreCalled(id, finalRect)] <= after
    requires OnlyWindowNotices(after[|before| + 2..])
    ensures before <= after
    ensures ArrangeCoreCalled(id, finalRect) in after[|before|..]
    ensures OnlyArrangeCoreOf(after[|before|..], id, finalRect)
  {
    var appended := after[|before|..];
    assert after[..|before|] == before by {
      assert after[..|before|] == (before + [VisualShown(id), ArrangeCoreCalled(id, finalRect)])[..|before|];
    }
    assert appended[1] == ArrangeCoreCalled(id, finalRect);
    assert forall k | 2 <= k < |appended| :: appended[k] == after[|before| + 2..][k - 2];
  }

  /** An arrange settles: once an arrange with a non-empty slot has left the element clean,
      arranging it again with the same rect changes nothing and calls no ArrangeCore, whatever
      ArrangeCore would do. This covers an ArrangeCore that threw, since ArrangeDirty is
      cleared before the call. */
  lemma ArrangeSettles(t: Tree, s: Layout, id: NodeId, finalRect: Rect, core: ArrangeCore, core': ArrangeCore)
    requires WF(t) && Fits(t, s) && id in t.elements
    requires t.elements[id].isFrameworkElement && !ClipsToEmptySlot(t.elements[id], finalRect)
    ensures var c := Arrange(t, s, id, finalRect, core);
      !IsArrangeDirty(c.layout.nodes[id].flags) ==>
        && Fits(t, c.layout)
        && Arrange(t, c.layout, id, finalRect, core') == Completion(c.layout, None)
  {
    var c := Arrange(t, s, id, finalRect, core);
    assert c.layout.nodes[id].layoutSlot == finalRect;
  }

  /** Whether an arrange leaves the element dirty: only when its ArrangeCore returned after
      re-invalidating the element, and the element does not intercept invalidation. */
  lemma ArrangeLeavesDirtyIff(t: Tree, s: Layout, id: NodeId, finalRect: Rect, core: ArrangeCore)
    requires WF(t) && Fits(t, s) && id in t.elements
    requires Arrangeable(t, s, id, finalRect)
    ensures var c := Arrange(t, s, id, finalRect, core);
      var seen := ArrangeCoreInput(t, ArrangeEntry(t, s, id), id, finalRect);
      && c.layout.nodes[id].layoutSlot == finalRect
      && (IsArrangeDirty(c.layout.nodes[id].flags) <==>
            core(id, finalRect, seen) == Arranged(true) && !t.elements[id].interceptInvalidate)
      && (c.fault.Some? <==> core(id, finalRect, seen) == ArrangeCoreThrew)
  {
    var c := Arrange(t, s, id, finalRect, core);
    var seen := ArrangeCoreInput(t, ArrangeEntry(t, s, id), id, finalRect);
    if core(id, finalRect, seen) == ArrangeCoreThrew {
      assert c.layout.nodes == seen.nodes;
    }
  }

  /** The empty-slot exit repeats: arranging the element again with the same rect leaves
      every element's state as it was and hides the visual once more. */
  lemma EmptySlotRepeats(t: Tree, s: Layout, id: NodeId, finalRect: Rect, core: ArrangeCore, core': ArrangeCore)
    requires WF(t) && Fits(t, s) && id in t.elements
    requires t.elements[id].isFrameworkElement && ClipsToEmptySlot(t.elements[id], finalRect)
    ensures var c := Arrange(t, s, id, finalRect, core);
      var c' := Arrange(t, c.layout, id, finalRect, core');
      && c'.fault == None
      && c'.layout.nodes == c.layout.nodes
      && c'.layout.log == c.layout.log + [VisualHidden(id)]
  {
    var r1 := HideEmptySlot(s, id, finalRect);
    assert Arrange(t, s, id, finalRect, core) == Completion(r1, None);
    HideEmptySlotRepeats(r1, id, finalRect);
  }

  /** Hiding an element whose slot is already the empty one, and which is already clean,
      changes no element's state. */
  lemma HideEmptySlotRepeats(s: Layout, id: NodeId, finalRect: Rect)
    requires id in s.nodes
    requires s.nodes[id].layoutSlot == finalRect && !IsArrangeDirty(s.nodes[id].flags)
    ensures HideEmptySlot(s, id, finalRect).nodes == s.nodes
  {
    var r := HideEmptySlot(s, id, finalRect);
    SameOutsideArrangeDirty(s.nodes[id].flags, r.nodes[id].flags);
    assert r.nodes[id] == s.nodes[id];
  }

  /** Two flag sets that agree outside ArrangeDirty and both lack it are equal. */
  lemma SameOutsideArrangeDirty(f: Flags, g: Flags)
    requires f & !ArrangeDirty == g & !ArrangeDirty
    requires !IsArrangeDirty(f) && !IsArrangeDirty(g)
    ensures f == g
  {
  }

  /** An arrange invalidation is what makes the next arrange do work: after it, arranging
      an element that does not intercept invalidation and is given a non-empty slot calls
      its ArrangeCore, whatever the rect. */
  lemma InvalidateThenArrangeRuns(t: Tree, s: Layout, id: NodeId, finalRect: Rect, core: ArrangeCore)
    requires WF(t) && Fits(t, s) && id in t.elements
    requires t.elements[id].isFrameworkElement && !t.elements[id].interceptInvalidate
    requires !ClipsToEmptySlot(t.elements[id], finalRect)
    ensures var s' := InvalidateArrange(t, s, id);
      && Fits(t, s')
      && Arrangeable(t, s', id, finalRect)
      && ArrangeCoreCalled(id, finalRect) in Arrange(t, s', id, finalRect, core).layout.log[|s'.log|..]
  {
    var s' := InvalidateArrange(t, s, id);
    var c := Arrange(t, s', id, finalRect, core);
    assert c.layout.log[|s'.log|..][1] == ArrangeCoreCalled(id, finalRect);
  }

  /** The root-layout flag: a visual-tree root raises it for the duration of its
      ArrangeCore and leaves it lowered on every way out, a throwing ArrangeCore included;
      other elements leave it as they found it. */
  lemma ArrangeRootFlag(t: Tree, s: Layout, id: NodeId, finalRect: Rect, core: ArrangeCore)
    requires WF(t) && Fits(t, s) && id in t.elements
    requires Arrangeable(t, s, id, finalRect)
    ensures ArrangeCoreInput(t, ArrangeEntry(t, s, id), id, finalRect).layoutingVisualTreeRoot ==
      (t.elements[id].isVisualTreeRoot || s.layoutingVisualTreeRoot)
    ensures var c := Arrange(t, s, id, finalRect, core);
      && (t.elements[id].isVisualTreeRoot ==> !c.layout.layoutingVisualTreeRoot)
      && (!t.elements[id].isVisualTreeRoot ==> c.layout.layoutingVisualTreeRoot == s.layoutingVisualTreeRoot)
  {
  }
}
