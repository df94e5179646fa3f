/** Upward invalidation: InvalidateMeasure with its path walk, and InvalidateArrange. */
module Invalidation {
  import opened Values
  import opened LayoutFlags
  import opened VisualTree

  predicate ChainIn(s: Layout, chain: seq<NodeId>) {
    forall j | 0 <= j < |chain| :: chain[j] in s.nodes
  }

  /** How many leading elements of `chain` the measure path walk marks: it stops at the
      first element that is already measure-dirty or path-dirty. */
  function MeasurePathReach(s: Layout, chain: seq<NodeId>): (k: nat)
    requires ChainIn(s, chain)
    ensures k <= |chain|
    ensures forall j | 0 <= j < k :: !IsMeasureOrMeasurePathDirty(s.nodes[chain[j]].flags)
    ensures k < |chain| ==> IsMeasureOrMeasurePathDirty(s.nodes[chain[k]].flags)
  {
    if chain == [] || IsMeasureOrMeasurePathDirty(s.nodes[chain[0]].flags) then 0
    else 1 + MeasurePathReach(s, chain[1..])
  }

  /** How many leading elements of `chain` the arrange walk marks: it stops at the first
      element that intercepts invalidation or is already arrange-dirty. */
  function ArrangeReach(t: Tree, s: Layout, chain: seq<NodeId>): (k: nat)
    requires ChainIn(s, chain) && forall j | 0 <= j < |chain| :: chain[j] in t.elements
    ensures k <= |chain|
    ensures forall j | 0 <= j < k ::
      !t.elements[chain[j]].interceptInvalidate && !IsArrangeDirty(s.nodes[chain[j]].flags)
    ensures k < |chain| ==>
      t.elements[chain[k]].interceptInvalidate || IsArrangeDirty(s.nodes[chain[k]].flags)
  {
    if chain == [] || t.elements[chain[0]].interceptInvalidate || IsArrangeDirty(s.nodes[chain[0]].flags) then 0
    else 1 + ArrangeReach(t, s, chain[1..])
  }

  /** `r` is `s` with `flag` set on exactly the first `k` elements of `chain`. */
  ghost predicate FlagSetOnPrefix(s: Layout, chain: seq<NodeId>, k: nat, flag: Flags, r: Layout)
    requires ChainIn(s, chain) && k <= |chain|
  {
    && r.nodes.Keys == s.nodes.Keys
    && r.layoutingVisualTreeRoot == s.layoutingVisualTreeRoot
    && (forall j | 0 <= j < k ::
          r.nodes[chain[j]] == s.nodes[chain[j]].(flags := SetLayoutFlag(s.nodes[chain[j]].flags, flag)))
    && (forall n | n in s.nodes && n !in chain[..k] :: r.nodes[n] == s.nodes[n])
  }

  /** The measure path walk over `chain` (whose last element has `top` above it, or is it):
      path flags on the clean prefix, and the window notified only when the walk ran off the
      top of a tree whose top element is the visual-tree root. */
  ghost predicate MeasurePathInvalidated(t: Tree, s: Layout, chain: seq<NodeId>, top: NodeId, r: Layout)
    requires ChainIn(s, chain) && top in t.elements
  {
    var k := MeasurePathReach(s, chain);
    && FlagSetOnPrefix(s, chain, k, MeasureDirtyPath, r)
    && r.log == s.log + (if k == |chain| && t.elements[top].isVisualTreeRoot then [WindowMeasureInvalidated] else [])
  }

  /** The arrange walk from `id`: ArrangeDirty on the lineage up to the first element that
      intercepts or is already arrange-dirty, and the window notified exactly when every
      element up to the parentless top was marked. */
  ghost predicate ArrangeInvalidated(t: Tree, s: Layout, id: NodeId, r: Layout)
    requires WF(t) && Fits(t, s) && id in t.elements
  {
    var chain := Lineage(t, id);
    var k := ArrangeReach(t, s, chain);
    && FlagSetOnPrefix(s, chain, k, ArrangeDirty, r)
    && r.log == s.log + (if k == |chain| then [WindowMeasureInvalidated] else [])
  }

  /** What any invalidation of `id` may do: change only `id`'s lineage, and there only by
      gaining flags (`selfGain` on `id`, `ancestorGain` above it), perhaps notifying the window. */
  ghost predicate InvalidationFrame(t: Tree, id: NodeId, s: Layout, r: Layout, selfGain: Flags, ancestorGain: Flags)
    requires WF(t) && Fits(t, s) && id in t.elements
  {
    && r.nodes.Keys == s.nodes.Keys
    && r.layoutingVisualTreeRoot == s.layoutingVisualTreeRoot
    && (r.log == s.log || r.log == s.log + [WindowMeasureInvalidated])
    && (forall n | n in s.nodes && n !in Lineage(t, id) :: r.nodes[n] == s.nodes[n])
    && r.nodes[id] == s.nodes[id].(flags := r.nodes[id].flags)
    && OnlyGains(s.nodes[id].flags, r.nodes[id].flags, selfGain)
    && (forall n | n in Ancestors(t, id) ::
          && r.nodes[n] == s.nodes[n].(flags := r.nodes[n].flags)
          && OnlyGains(s.nodes[n].flags, r.nodes[n].flags, ancestorGain))
  }

  lemma {:induction false} MeasurePathReachFrame(s: Layout, s': Layout, chain: seq<NodeId>)
    requires ChainIn(s, chain) && ChainIn(s', chain)
    requires forall j | 0 <= j < |chain| :: s'.nodes[chain[j]].flags == s.nodes[chain[j]].flags
    ensures MeasurePathReach(s', chain) == MeasurePathReach(s, chain)
  {
    if chain != [] {
      MeasurePathReachFrame(s, s', chain[1..]);
    }
  }

  lemma {:induction false} ArrangeReachFrame(t: Tree, s: Layout, s': Layout, chain: seq<NodeId>)
    requires ChainIn(s, chain) && ChainIn(s', chain) && forall j | 0 <= j < |chain| :: chain[j] in t.elements
    requires forall j | 0 <= j < |chain| :: s'.nodes[chain[j]].flags == s.nodes[chain[j]].flags
    ensures ArrangeReach(t, s', chain) == ArrangeReach(t, s, chain)
  {
    if chain != [] {
      ArrangeReachFrame(t, s, s', chain[1..]);
    }
  }

  /** Marking `id` and then a prefix of `chain` marks a prefix of `[id] + chain`. */
  lemma FlagSetOnPrefixCons(s: Layout, id: NodeId, chain: seq<NodeId>, k: nat, flag: Flags, r: Layout)
    requires id in s.nodes && id !in chain && ChainIn(s, chain) && k <= |chain|
    requires FlagSetOnPrefix(SetFlagAt(s, id, flag), chain, k, flag, r)
    ensures FlagSetOnPrefix(s, [id] + chain, k + 1, flag, r)
  {
    var s1 := SetFlagAt(s, id, flag);
    var c := [id] + chain;
    assert c[..k + 1] == [id] + chain[..k];
    assert id !in chain[..k];
    forall j | 0 <= j < k + 1
      ensures r.nodes[c[j]] == s.nodes[c[j]].(flags := SetLayoutFlag(s.nodes[c[j]].flags, flag))
    {
      if j > 0 {
        assert c[j] == chain[j - 1];
      }
    }
  }

  /** Every element of the chain either gained `flag` or kept its state; nothing off the
      chain changed. */
  lemma FlagSetOnPrefixFrame(s: Layout, chain: seq<NodeId>, k: nat, flag: Flags, r: Layout)
    requires ChainIn(s, chain) && k <= |chain| && FlagSetOnPrefix(s, chain, k, flag, r)
    ensures forall n | n in s.nodes && n !in chain :: r.nodes[n] == s.nodes[n]
    ensures forall n | n in chain ::
      && r.nodes[n] == s.nodes[n].(flags := r.nodes[n].flags)
      && OnlyGains(s.nodes[n].flags, r.nodes[n].flags, flag)
  {
    forall n | n in chain
      ensures r.nodes[n] == s.nodes[n].(flags := r.nodes[n].flags)
      ensures OnlyGains(s.nodes[n].flags, r.nodes[n].flags, flag)
    {
      FlagSetOnPrefixAt(s, chain, k, flag, r, n);
    }
  }

  lemma FlagSetOnPrefixAt(s: Layout, chain: seq<NodeId>, k: nat, flag: Flags, r: Layout, n: NodeId)
    requires ChainIn(s, chain) && k <= |chain| && FlagSetOnPrefix(s, chain, k, flag, r)
    requires n in chain
    ensures r.nodes[n] == s.nodes[n].(flags := r.nodes[n].flags)
    ensures OnlyGains(s.nodes[n].flags, r.nodes[n].flags, flag)
  {
    if n in chain[..k] {
      PrefixElementGains(s, chain, k, flag, r, n);
    } else {
      OffPrefixElementKept(s, chain, k, flag, r, n);
    }
  }

  lemma PrefixElementGains(s: Layout, chain: seq<NodeId>, k: nat, flag: Flags, r: Layout, n: NodeId)
    requires ChainIn(s, chain) && k <= |chain| && FlagSetOnPrefix(s, chain, k, flag, r)
    requires n in chain[..k]
    ensures n in s.nodes && r.nodes[n] == s.nodes[n].(flags := r.nodes[n].flags)
    ensures OnlyGains(s.nodes[n].flags, r.nodes[n].flags, flag)
  {
    var j :| 0 <= j < k && chain[..k][j] == n;
    assert chain[j] == n;
    NodeGains(s.nodes[n], r.nodes[n], flag);
  }

  lemma OffPrefixElementKept(s: Layout, chain: seq<NodeId>, k: nat, flag: Flags, r: Layout, n: NodeId)
    requires ChainIn(s, chain) && k <= |chain| && FlagSetOnPrefix(s, chain, k, flag, r)
    requires n in chain && n !in chain[..k]
    ensures n in s.nodes && r.nodes[n] == s.nodes[n].(flags := r.nodes[n].flags)
    ensures OnlyGains(s.nodes[n].flags, r.nodes[n].flags, flag)
  {
    var i :| 0 <= i < |chain| && chain[i] == n;
    NodeKept(s.nodes[n], r.nodes[n], flag);
  }

  lemma NodeGains(before: NodeLayout, after: NodeLayout, flag: Flags)
    requires after == before.(flags := SetLayoutFlag(before.flags, flag))
    ensures after == before.(flags := after.flags) && OnlyGains(before.flags, after.flags, flag)
  {
    SetOnlyGains(before.flags, flag);
  }

  lemma NodeKept(before: NodeLayout, after: NodeLayout, flag: Flags)
    requires after == before
    ensures after == before.(flags := after.flags) && OnlyGains(before.flags, after.flags, flag)
  {
    OnlyGainsReflexive(before.flags, flag);
  }

  /** Setting a flag on `id` leaves a chain that does not hold `id` as it was. */
  lemma SetFlagAtOffChain(s: Layout, id: NodeId, flag: Flags, chain: seq<NodeId>)
    requires id in s.nodes && ChainIn(s, chain) && id !in chain
    ensures ChainIn(SetFlagAt(s, id, flag), chain)
    ensures forall j | 0 <= j < |chain| :: SetFlagAt(s, id, flag).nodes[chain[j]] == s.nodes[chain[j]]
  {
  }

  /** One step of the measure path walk: marking a clean `id` and walking on from its parent
      is the walk over `id`'s whole lineage. */
  lemma MeasurePathStep(t: Tree, s: Layout, id: NodeId, r: Layout)
    requires WF(t) && Fits(t, s) && id in t.elements
    requires !IsMeasureOrMeasurePathDirty(s.nodes[id].flags)
    requires MeasurePathInvalidated(t, SetFlagAt(s, id, MeasureDirtyPath), Ancestors(t, id), Top(t, id), r)
    ensures MeasurePathInvalidated(t, s, Lineage(t, id), Top(t, id), r)
  {
    var s1 := SetFlagAt(s, id, MeasureDirtyPath);
    var anc := Ancestors(t, id);
    var lineage := Lineage(t, id);
    assert lineage[1..] == anc;
    SetFlagAtOffChain(s, id, MeasureDirtyPath, anc);
    MeasurePathReachFrame(s, s1, anc);
    var k := MeasurePathReach(s1, anc);
    assert MeasurePathReach(s, lineage) == k + 1;
    assert s1.log == s.log && |lineage| == |anc| + 1;
    FlagSetOnPrefixCons(s, id, anc, k, MeasureDirtyPath, r);
  }

  /** One step of the arrange walk. */
  lemma ArrangeStep(t: Tree, s: Layout, id: NodeId, p: NodeId, r: Layout)
    requires WF(t) && Fits(t, s) && id in t.elements
    requires t.elements[id].parent == Some(p)
    requires !t.elements[id].interceptInvalidate && !IsArrangeDirty(s.nodes[id].flags)
    requires Fits(t, SetFlagAt(s, id, ArrangeDirty))
    requires ArrangeInvalidated(t, SetFlagAt(s, id, ArrangeDirty), p, r)
    ensures ArrangeInvalidated(t, s, id, r)
  {
    var s1 := SetFlagAt(s, id, ArrangeDirty);
    var chain := Lineage(t, p);
    assert Lineage(t, id) == [id] + chain;
    ArrangeReachFrame(t, s, s1, chain);
    assert Lineage(t, id)[1..] == chain;
    FlagSetOnPrefixCons(s, id, chain, ArrangeReach(t, s1, chain), ArrangeDirty, r);
  }

  /** Marks the element's own MeasureDirty and walks the path flag up its ancestors.
      Models InvalidateMeasure. */
  function InvalidateMeasure(t: Tree, s: Layout, id: NodeId): (r: Layout)
    requires WF(t) && Fits(t, s) && id in t.elements
    ensures t.elements[id].interceptInvalidate || IsMeasureDirty(s.nodes[id].flags) ==> r == s
    ensures !t.elements[id].interceptInvalidate && !IsMeasureDirty(s.nodes[id].flags) ==>
      MeasurePathInvalidated(t, SetFlagAt(s, id, MeasureDirty), Ancestors(t, id), Top(t, id), r)
    ensures !t.elements[id].interceptInvalidate ==> IsMeasureDirty(r.nodes[id].flags)
    ensures InvalidationFrame(t, id, s, r, MeasureDirty, MeasureDirtyPath)
  {
    if t.elements[id].interceptInvalidate || IsMeasureDirty(s.nodes[id].flags) then
      OnlyGainsReflexive(s.nodes[id].flags, MeasureDirty);
      forall n | n in Ancestors(t, id) ensures OnlyGains(s.nodes[n].flags, s.nodes[n].flags, MeasureDirtyPath) {
        OnlyGainsReflexive(s.nodes[n].flags, MeasureDirtyPath);
      }
      s
    else
      var r := InvalidateParentMeasurePath(t, SetFlagAt(s, id, MeasureDirty), id);
      InvalidateMeasureFrame(t, s, id, r);
      r
  }

  lemma InvalidateMeasureFrame(t: Tree, s: Layout, id: NodeId, r: Layout)
    requires WF(t) && Fits(t, s) && id in t.elements
    requires MeasurePathInvalidated(t, SetFlagAt(s, id, MeasureDirty), Ancestors(t, id), Top(t, id), r)
    ensures IsMeasureDirty(r.nodes[id].flags)
    ensures InvalidationFrame(t, id, s, r, MeasureDirty, MeasureDirtyPath)
  {
    var s1 := SetFlagAt(s, id, MeasureDirty);
    var anc := Ancestors(t, id);
    FlagSetOnPrefixFrame(s1, anc, MeasurePathReach(s1, anc), MeasureDirtyPath, r);
    SetOnlyGains(s.nodes[id].flags, MeasureDirty);
    assert r.nodes[id] == s1.nodes[id];
  }

  /** The path walk on one element: stop if it is already measure- or path-dirty, otherwise
      mark it path-dirty and go on to its parent. Models InvalidateMeasurePath. */
  function InvalidateMeasurePath(t: Tree, s: Layout, id: NodeId): (r: Layout)
    requires WF(t) && Fits(t, s) && id in t.elements
    ensures MeasurePathInvalidated(t, s, Lineage(t, id), Top(t, id), r)
    decreases Depth(t, id), 1
  {
    if IsMeasureOrMeasurePathDirty(s.nodes[id].flags) then
      s
    else
      var r := InvalidateParentMeasurePath(t, SetFlagAt(s, id, MeasureDirtyPath), id);
      MeasurePathStep(t, s, id, r);
      r
  }

  /** Continues the path walk at the parent, or, on a parentless visual-tree root, notifies
      the window. Models InvalidateParentMeasurePath. */
  function InvalidateParentMeasurePath(t: Tree, s: Layout, id: NodeId): (r: Layout)
    requires WF(t) && Fits(t, s) && id in t.elements
    ensures MeasurePathInvalidated(t, s, Ancestors(t, id), Top(t, id), r)
    decreases Depth(t, id), 0
  {
    match t.elements[id].parent
    case Some(p) => InvalidateMeasurePath(t, s, p)
    case None => if t.elements[id].isVisualTreeRoot then Emit(s, WindowMeasureInvalidated) else s
  }

  /** Marks ArrangeDirty on the element and, through the parent's own InvalidateArrange,
      on its ancestors; a parentless element notifies the window. Models InvalidateArrange. */
  function InvalidateArrange(t: Tree, s: Layout, id: NodeId): (r: Layout)
    requires WF(t) && Fits(t, s) && id in t.elements
    ensures ArrangeInvalidated(t, s, id, r)
    ensures !t.elements[id].interceptInvalidate ==> IsArrangeDirty(r.nodes[id].flags)
    ensures InvalidationFrame(t, id, s, r, ArrangeDirty, ArrangeDirty)
    decreases Depth(t, id)
  {
    var r :=
      if t.elements[id].interceptInvalidate || IsArrangeDirty(s.nodes[id].flags) then
        s
      else
        var s1 := SetFlagAt(s, id, ArrangeDirty);
        (match t.elements[id].parent
         case Some(p) =>
           var r := InvalidateArrange(t, s1, p);
           ArrangeStep(t, s, id, p, r);
           r
         case None =>
           Emit(s1, WindowMeasureInvalidated));
    InvalidateArrangeFrame(t, s, id, r);
    r
  }

  lemma InvalidateArrangeFrame(t: Tree, s: Layout, id: NodeId, r: Layout)
    requires WF(t) && Fits(t, s) && id in t.elements
    requires ArrangeInvalidated(t, s, id, r)
    ensures !t.elements[id].interceptInvalidate ==> IsArrangeDirty(r.nodes[id].flags)
    ensures InvalidationFrame(t, id, s, r, ArrangeDirty, ArrangeDirty)
  {
    var chain := Lineage(t, id);
    FlagSetOnPrefixFrame(s, chain, ArrangeReach(t, s, chain), ArrangeDirty, r);
    assert chain[0] == id;
  }

  /** Invalidating a second time changes nothing. */
  lemma InvalidateMeasureIdempotent(t: Tree, s: Layout, id: NodeId)
    requires WF(t) && Fits(t, s) && id in t.elements
    ensures InvalidateMeasure(t, InvalidateMeasure(t, s, id), id) == InvalidateMeasure(t, s, id)
  {
  }

  lemma InvalidateArrangeIdempotent(t: Tree, s: Layout, id: NodeId)
    requires WF(t) && Fits(t, s) && id in t.elements
    ensures InvalidateArrange(t, InvalidateArrange(t, s, id), id) == InvalidateArrange(t, s, id)
  {
  }

  /** On a lineage where nothing intercepts and nothing is arrange-dirty yet, InvalidateArrange
      marks every element up to the top and notifies the window. */
  lemma InvalidateArrangeMarksWholeLineage(t: Tree, s: Layout, id: NodeId)
    requires WF(t) && Fits(t, s) && id in t.elements
    requires forall n | n in Lineage(t, id) ::
      !t.elements[n].interceptInvalidate && !IsArrangeDirty(s.nodes[n].flags)
    ensures forall n | n in Lineage(t, id) :: IsArrangeDirty(InvalidateArrange(t, s, id).nodes[n].flags)
    ensures InvalidateArrange(t, s, id).log == s.log + [WindowMeasureInvalidated]
  {
    var chain := Lineage(t, id);
    var r := InvalidateArrange(t, s, id);
    var k := ArrangeReach(t, s, chain);
    assert k == |chain|;
    forall n | n in chain ensures IsArrangeDirty(r.nodes[n].flags) {
      var j :| 0 <= j < |chain| && chain[j] == n;
    }
  }

  /** The short-circuit invariant of the measure walk: above a measure- or path-dirty
      element, the parent is measure- or path-dirty too. */
  ghost predicate PathInvariant(t: Tree, s: Layout)
    requires WF(t) && Fits(t, s)
  {
    forall n | n in s.nodes && t.elements[n].parent.Some? && IsMeasureOrMeasurePathDirty(s.nodes[n].flags) ::
      IsMeasureOrMeasurePathDirty(s.nodes[t.elements[n].parent.value].flags)
  }

  /** The arrange walk's counterpart: above an arrange-dirty element, the parent is
      arrange-dirty or intercepts invalidation. */
  ghost predicate ArrangeInvariant(t: Tree, s: Layout)
    requires WF(t) && Fits(t, s)
  {
    forall n | n in s.nodes && t.elements[n].parent.Some? && IsArrangeDirty(s.nodes[n].flags) ::
      || IsArrangeDirty(s.nodes[t.elements[n].parent.value].flags)
      || t.elements[t.elements[n].parent.value].interceptInvalidate
  }

  /** Flags that only grow keep every dirty bit. */
  lemma OnlyGainsKeepsDirty(before: Flags, after: Flags, allowed: Flags)
    requires OnlyGains(before, after, allowed)
    ensures IsMeasureOrMeasurePathDirty(before) ==> IsMeasureOrMeasurePathDirty(after)
    ensures IsArrangeDirty(before) ==> IsArrangeDirty(after)
    ensures IsMeasureDirty(before) ==> IsMeasureDirty(after)
    ensures IsFirstMeasureDone(before) ==> IsFirstMeasureDone(after)
  {
  }

  lemma SetPathMakesDirty(flags: Flags)
    ensures IsMeasureOrMeasurePathDirty(SetLayoutFlag(flags, MeasureDirtyPath))
  {
  }

  /** Stopping the walk at the first dirty ancestor is sound: InvalidateMeasure preserves
      the path invariant, so everything above the stopping point is already marked. */
  lemma {:induction false} InvalidateMeasurePreservesPathInvariant(t: Tree, s: Layout, id: NodeId)
    requires WF(t) && Fits(t, s) && id in t.elements && PathInvariant(t, s)
    ensures PathInvariant(t, InvalidateMeasure(t, s, id))
  {
    var r := InvalidateMeasure(t, s, id);
    if !t.elements[id].interceptInvalidate && !IsMeasureDirty(s.nodes[id].flags) {
      forall n | n in r.nodes && t.elements[n].parent.Some? && IsMeasureOrMeasurePathDirty(r.nodes[n].flags)
        ensures IsMeasureOrMeasurePathDirty(r.nodes[t.elements[n].parent.value].flags)
      {
        PathInvariantAfterWalk(t, s, id, r, n);
      }
    }
  }

  /** The path invariant at one element after a walk that started by marking `id`. */
  lemma PathInvariantAfterWalk(t: Tree, s: Layout, id: NodeId, r: Layout, n: NodeId)
    requires WF(t) && Fits(t, s) && id in t.elements && PathInvariant(t, s)
    requires MeasurePathInvalidated(t, SetFlagAt(s, id, MeasureDirty), Ancestors(t, id), Top(t, id), r)
    requires InvalidationFrame(t, id, s, r, MeasureDirty, MeasureDirtyPath)
    requires n in r.nodes && t.elements[n].parent.Some? && IsMeasureOrMeasurePathDirty(r.nodes[n].flags)
    ensures IsMeasureOrMeasurePathDirty(r.nodes[t.elements[n].parent.value].flags)
  {
    var l := Lineage(t, id);
    if n in l {
      var j :| 0 <= j < |l| && l[j] == n;
      PathInvariantOnLineage(t, s, id, r, j);
    } else {
      var p := t.elements[n].parent.value;
      assert r.nodes[n] == s.nodes[n];
      assert IsMeasureOrMeasurePathDirty(s.nodes[p].flags);
      if p == id {
        OnlyGainsKeepsDirty(s.nodes[p].flags, r.nodes[p].flags, MeasureDirty);
      } else if p in Ancestors(t, id) {
        OnlyGainsKeepsDirty(s.nodes[p].flags, r.nodes[p].flags, MeasureDirtyPath);
      } else {
        assert p !in l;
      }
    }
  }

  lemma PathInvariantOnLineage(t: Tree, s: Layout, id: NodeId, r: Layout, j: nat)
    requires WF(t) && Fits(t, s) && id in t.elements && PathInvariant(t, s)
    requires MeasurePathInvalidated(t, SetFlagAt(s, id, MeasureDirty), Ancestors(t, id), Top(t, id), r)
    requires InvalidationFrame(t, id, s, r, MeasureDirty, MeasureDirtyPath)
    requires j < |Lineage(t, id)| && t.elements[Lineage(t, id)[j]].parent.Some?
    requires IsMeasureOrMeasurePathDirty(r.nodes[Lineage(t, id)[j]].flags)
    ensures IsMeasureOrMeasurePathDirty(r.nodes[t.elements[Lineage(t, id)[j]].parent.value].flags)
  {
    var s1 := SetFlagAt(s, id, MeasureDirty);
    var l := Lineage(t, id);
    var anc := Ancestors(t, id);
    var k := MeasurePathReach(s1, anc);
    LineageLinks(t, id, j);
    assert j < |anc|;
    var p := anc[j];
    assert p == t.elements[l[j]].parent.value;
    if j < k {
      assert r.nodes[p].flags == SetLayoutFlag(s1.nodes[p].flags, MeasureDirtyPath) by {
        assert FlagSetOnPrefix(s1, anc, k, MeasureDirtyPath, r);
      }
      SetPathMakesDirty(s1.nodes[p].flags);
    } else {
      if j == k {
        assert IsMeasureOrMeasurePathDirty(s1.nodes[p].flags);
      } else {
        var n := anc[j - 1];
        assert n !in anc[..k];
        assert n == l[j];
        assert r.nodes[n] == s1.nodes[n] == s.nodes[n];
        assert IsMeasureOrMeasurePathDirty(s.nodes[p].flags);
      }
      assert s1.nodes[p] == s.nodes[p];
      OnlyGainsKeepsDirty(s.nodes[p].flags, r.nodes[p].flags, MeasureDirtyPath);
    }
  }

  /** InvalidateArrange keeps the arrange-dirty region closed upward up to intercepting
      elements. */
  lemma {:induction false} InvalidateArrangePreservesArrangeInvariant(t: Tree, s: Layout, id: NodeId)
    requires WF(t) && Fits(t, s) && id in t.elements && ArrangeInvariant(t, s)
    ensures ArrangeInvariant(t, InvalidateArrange(t, s, id))
  {
    var r := InvalidateArrange(t, s, id);
    var l := Lineage(t, id);
    var k := ArrangeReach(t, s, l);
    forall n | n in r.nodes && t.elements[n].parent.Some? && IsArrangeDirty(r.nodes[n].flags)
      ensures IsArrangeDirty(r.nodes[t.elements[n].parent.value].flags)
           || t.elements[t.elements[n].parent.value].interceptInvalidate
    {
      var p := t.elements[n].parent.value;
      assert p in r.nodes;
      if n in l[..k] {
        var j :| 0 <= j < k && l[j] == n;
        LineageLinks(t, id, j);
        assert p == l[j + 1];
        if j + 1 < k {
          assert r.nodes[p].flags == SetLayoutFlag(s.nodes[p].flags, ArrangeDirty);
        } else {
          OnlyGainsKeepsDirty(s.nodes[p].flags, r.nodes[p].flags, ArrangeDirty);
        }
      } else {
        assert r.nodes[n] == s.nodes[n];
        if p in l {
          OnlyGainsKeepsDirty(s.nodes[p].flags, r.nodes[p].flags, ArrangeDirty);
        }
      }
    }
  }
}
