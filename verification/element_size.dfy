/** The two size accessors of an element: DesiredSize, which hides a collapsed element's
    measured size, and RenderSize, whose setter raises SizeChanged only on a real change. */
module ElementSize {
  import opened Values
  import opened LayoutFlags
  import opened VisualTree
  import opened MeasurePass

  /** DesiredSize as callers see it: zero for a collapsed element, otherwise what the last
      MeasureCore produced. */
  function DesiredSize(t: Tree, s: Layout, id: NodeId): (d: Size)
    requires id in t.elements && id in s.nodes
    ensures t.elements[id].collapsed ==> d == ZeroSize
  {
    if t.elements[id].collapsed then ZeroSize else s.nodes[id].desiredSize
  }

  /** RenderSize's getter: zero for a collapsed element, otherwise the stored size. */
  function RenderSize(t: Tree, s: Layout, id: NodeId): (d: Size)
    requires id in t.elements && id in s.nodes
    ensures t.elements[id].collapsed ==> d == ZeroSize
  {
    if t.elements[id].collapsed then ZeroSize else s.nodes[id].renderSize
  }

  /** Whether setting `value` raises SizeChanged: the stored size changes and the element is
      a framework element. */
  predicate RaisesSizeChanged(t: Tree, s: Layout, id: NodeId, value: Size)
    requires id in t.elements && id in s.nodes
  {
    value != s.nodes[id].renderSize && t.elements[id].isFrameworkElement
  }

  /** RenderSize's setter: the value is stored whatever the element's visibility, and a
      framework element whose stored size changed raises SizeChanged with the previous and
      the new size. */
  function SetRenderSize(t: Tree, s: Layout, id: NodeId, value: Size): (r: Layout)
    requires id in t.elements && id in s.nodes
    ensures r.nodes.Keys == s.nodes.Keys && r.layoutingVisualTreeRoot == s.layoutingVisualTreeRoot
    ensures r.nodes[id] == s.nodes[id].(renderSize := value)
    ensures forall n | n in s.nodes && n != id :: r.nodes[n] == s.nodes[n]
    ensures s.log <= r.log && |r.log| <= |s.log| + 1
    ensures |r.log| == |s.log| + 1 ==> r.log[|s.log|] == SizeChanged(id, s.nodes[id].renderSize, value)
  {
    var previous := s.nodes[id].renderSize;
    var r := s.(nodes := s.nodes[id := s.nodes[id].(renderSize := value)]);
    if value != previous && t.elements[id].isFrameworkElement then
      Emit(r, SizeChanged(id, previous, value))
    else
      r
  }

  /** SizeChanged is raised exactly when the stored size changes on a framework element. */
  lemma SizeChangedIff(t: Tree, s: Layout, id: NodeId, value: Size)
    requires id in t.elements && id in s.nodes
    ensures var r := SetRenderSize(t, s, id, value);
      (exists e | e in r.log[|s.log|..] :: e.SizeChanged?) <==> RaisesSizeChanged(t, s, id, value)
  {
    var r := SetRenderSize(t, s, id, value);
    if RaisesSizeChanged(t, s, id, value) {
      assert r.log[|s.log|..][0].SizeChanged?;
    } else {
      assert r.log[|s.log|..] == [];
    }
  }

  /** What the setter stores the getter returns, unless the element is collapsed. */
  lemma RenderSizeRoundTrip(t: Tree, s: Layout, id: NodeId, value: Size)
    requires id in t.elements && id in s.nodes
    ensures RenderSize(t, SetRenderSize(t, s, id, value), id) ==
      (if t.elements[id].collapsed then ZeroSize else value)
  {
  }

  /** Setting the size an element already has changes nothing and raises nothing; so
      setting the same size twice is the same as setting it once. */
  lemma SetRenderSizeIdempotent(t: Tree, s: Layout, id: NodeId, value: Size)
    requires id in t.elements && id in s.nodes
    ensures var r := SetRenderSize(t, s, id, value);
      SetRenderSize(t, r, id, value) == r
  {
    var r := SetRenderSize(t, s, id, value);
    assert r.nodes[id := r.nodes[id].(renderSize := value)] == r.nodes;
  }

  /** Writing back what the getter returns for a visible element is a no-op. */
  lemma SetRenderSizeToCurrent(t: Tree, s: Layout, id: NodeId)
    requires id in t.elements && id in s.nodes && !t.elements[id].collapsed
    ensures SetRenderSize(t, s, id, RenderSize(t, s, id)) == s
  {
    assert s.nodes[id := s.nodes[id].(renderSize := s.nodes[id].renderSize)] == s.nodes;
  }

  /** After a measure that recomputed a visible element successfully, DesiredSize is what its
      MeasureCore produced; a collapsed element reports zero whatever Measure did. */
  lemma MeasuredDesiredSize(t: Tree, s: Layout, id: NodeId, available: Size, flavor: BuildFlavor, core: MeasureCore)
    requires WF(t) && Fits(t, s) && id in t.elements
    ensures var c := Measure(t, s, id, available, flavor, core);
      && Fits(t, c.layout)
      && (t.elements[id].collapsed ==> DesiredSize(t, c.layout, id) == ZeroSize)
      && var result := core(id, available, MeasureCoreSees(t, s, id, available));
         (Measurable(t, id, available) && NeedsRecompute(s, id, available) && result.Measured? ==>
            DesiredSize(t, c.layout, id) == result.desiredSize)
  {
    var c := Measure(t, s, id, available, flavor, core);
    if Measurable(t, id, available) && NeedsRecompute(s, id, available) {
      var before := s.nodes[id].(flags := SetLayoutFlag(s.nodes[id].flags, FirstMeasureDone));
      assert RecomputeOutcome(t, id, before, available, flavor, core, MeasureCoreSees(t, s, id, available), c);
    }
  }
}
