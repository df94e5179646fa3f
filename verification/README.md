# Uno `UIElement` layout state machine, in Dafny

This project models the incremental layout core of Uno Platform's `UIElement`
(`src/Uno.UI/UI/Xaml/UIElement.Layout.netstd.cs`), the part that decides what a layout pass
has to redo. It covers:

- **The layout flag byte.** `MeasureDirty` 0x01, `MeasureDirtyPath` 0x02,
  `FirstMeasureDone` 0x04 and `ArrangeDirty` 0x10, with the get, set, clear and reset
  helpers (`layout_flags.dfy`).
- **Upward invalidation** (`invalidation.dfy`).
  - `InvalidateMeasure` marks the element, then walks `MeasureDirtyPath` up its ancestors.
    The walk stops at the first ancestor that is already measure- or path-dirty.
  - `InvalidateArrange` marks `ArrangeDirty` through the parent's own `InvalidateArrange`.
    It stops at an intercepting or already arrange-dirty element.
  - Either walk may notify the window.
- **The measure pass** (`measure.dfy`, `measure_properties.dfy`, `path_measure.dfy`).
  - `Measure` first rejects non-framework elements and NaN sizes, and handles collapsed
    elements.
  - `MeasureVisualTreeRoot` raises the root-layout flag and always lowers it again.
  - `DoMeasure` takes one of three branches: a full recompute around `MeasureCore`, a
    path-only re-measure of the dirty children, or nothing.
- **The arrange pass** (`arrange.dfy`, `arrange_properties.dfy`).
  - `Arrange` takes one of two early exits: the empty-slot exit or the nothing-to-do exit.
  - `ArrangeVisualTreeRoot` wraps the root's arrange in the root-layout flag.
  - `DoArrange` stores the slot and clears `ArrangeDirty` before `ArrangeCore` runs.
- **The size accessors** `DesiredSize` and `RenderSize` (`element_size.dfy`).

The visual tree is an immutable arena, `Tree`. For each element it holds the parent, the
children, the depth, and the configuration the engine reads:

- whether it is a framework element;
- whether it is the visual-tree root;
- whether it is collapsed;
- `ShouldInterceptInvalidate`;
- the custom-clipping interface.

Everything the engine mutates lives in a `Layout`:

- per element: its flags, last available size, layout slot, desired size and render size;
- the process-wide root-layout flag;
- a log of the effects visible outside the elements. These are MeasureCore and ArrangeCore
  calls, window measure notifications, visuals shown and hidden, failures logged and
  `SizeChanged`.

Every operation is a pure function from a `Layout` to a new `Layout`, or to a `Completion`,
which also records the exception the call ended with, if any. `MeasureCore` and
`ArrangeCore` are oracles. An oracle may return normally, possibly after re-invalidating
its own element, or throw. Each oracle also receives the layout state at the moment of the
call. This makes checkable the promises that the element's dirty flags are cleared (and, for
arrange, the new slot stored) before the call, and that a visual-tree root runs its
`MeasureCore` and `ArrangeCore` with the root-layout flag raised.

Three places where the model follows the code rather than intuition:

- The measure path walk does not consult ancestors' `ShouldInterceptInvalidate`. The arrange
  walk does, because it recurses through each parent's `InvalidateArrange`.
- The arrange walk notifies the window from any parentless element. The measure walk notifies
  it only from a parentless visual-tree root.
- The catch around `MeasureCore` exists only in debug builds (`#if DEBUG`). A debug build
  logs the failure, swallows it and still records the available size. Any other build lets
  the exception propagate and records nothing. The build flavour is a parameter
  (`BuildFlavor`).

## Model

All source paths are `src/Uno.UI/UI/Xaml/UIElement.Layout.netstd.cs`.

| member | source | states |
|---|---|---|
| LayoutFlags.SetLayoutFlag | src/Uno.UI/UI/Xaml/UIElement.Layout.netstd.cs:68 | afterwards every bit of the flag is set and no other bit changed |
| LayoutFlags.ClearLayoutFlags | src/Uno.UI/UI/Xaml/UIElement.Layout.netstd.cs:74 | afterwards no bit of the flag is set and every other bit is as before |
| LayoutFlags.ResetLayoutFlags | src/Uno.UI/UI/Xaml/UIElement.Layout.netstd.cs:48-80 | the starting flags have none of the four layout flags set |
| LayoutFlags.SetLayoutFlagIdempotent | src/Uno.UI/UI/Xaml/UIElement.Layout.netstd.cs:68 | setting a flag twice is the same as setting it once |
| LayoutFlags.ClearAfterSetRestoresOtherBits | src/Uno.UI/UI/Xaml/UIElement.Layout.netstd.cs:68-74 | setting then clearing a flag equals only clearing it, so the other bits survive the pair |
| LayoutFlags.IsMeasureOrMeasurePathDirtyIff | src/Uno.UI/UI/Xaml/UIElement.Layout.netstd.cs:82-98 | the "any of the two" test holds exactly when the element is measure-dirty or path-dirty |
| Invalidation.MeasurePathReach | src/Uno.UI/UI/Xaml/UIElement.Layout.netstd.cs:124-135 | the walk's reach: every element before it is clean, and the one at it (if any) is measure- or path-dirty |
| Invalidation.ArrangeReach | src/Uno.UI/UI/Xaml/UIElement.Layout.netstd.cs:150-166 | the arrange walk's reach: every element before it is clean and not intercepting, and the one at it intercepts or is already arrange-dirty |
| Invalidation.InvalidateMeasure | src/Uno.UI/UI/Xaml/UIElement.Layout.netstd.cs:106-121 | no change when intercepting or already measure-dirty; otherwise the element becomes measure-dirty and the path walk runs from its parent; only its lineage changes, and only by gaining flags |
| Invalidation.InvalidateMeasurePath | src/Uno.UI/UI/Xaml/UIElement.Layout.netstd.cs:124-135 | path flag on exactly the clean prefix of the lineage; everything else kept; the window notified only when the walk runs off the top of a tree whose top is the visual-tree root |
| Invalidation.InvalidateParentMeasurePath | src/Uno.UI/UI/Xaml/UIElement.Layout.netstd.cs:137-148 | the same walk over the strict ancestors; a parentless element notifies the window only if it is the visual-tree root |
| Invalidation.InvalidateArrange | src/Uno.UI/UI/Xaml/UIElement.Layout.netstd.cs:150-171 | ArrangeDirty on exactly the lineage prefix up to the first intercepting or arrange-dirty element; above it nothing changes; the window is notified exactly when the whole lineage was marked; a non-intercepting element ends arrange-dirty |
| Invalidation.InvalidateMeasureIdempotent | src/Uno.UI/UI/Xaml/UIElement.Layout.netstd.cs:106-121 | a second InvalidateMeasure changes nothing |
| Invalidation.InvalidateArrangeIdempotent | src/Uno.UI/UI/Xaml/UIElement.Layout.netstd.cs:150-171 | a second InvalidateArrange changes nothing |
| Invalidation.InvalidateArrangeMarksWholeLineage | src/Uno.UI/UI/Xaml/UIElement.Layout.netstd.cs:150-171 | on a clean, non-intercepting lineage every element up to the top becomes arrange-dirty and the window is notified once |
| Invalidation.InvalidateMeasurePreservesPathInvariant | src/Uno.UI/UI/Xaml/UIElement.Layout.netstd.cs:124-148 | stopping at the first dirty ancestor is sound for invalidations: if every dirty element's parent is dirty before an InvalidateMeasure, the same holds after (Measure's collapsed branch does not keep this, see MeasureProperties.CollapsedMeasureBreaksPathInvariant) |
| Invalidation.InvalidateArrangePreservesArrangeInvariant | src/Uno.UI/UI/Xaml/UIElement.Layout.netstd.cs:150-171 | if every arrange-dirty element's parent is arrange-dirty or intercepting before, the same holds after |
| MeasurePass.Measure | src/Uno.UI/UI/Xaml/UIElement.Layout.netstd.cs:173-206 | non-framework element: no-op; NaN width or height: the NaN error with nothing changed; collapsed: the collapsed handling; otherwise DoMeasure's outcome, with the root-layout flag lowered after a root; only MeasureCores in its subtree run, and only its subtree and ancestors change, the ancestors only by gaining path or arrange flags |
| MeasurePass.MeasureCollapsed | src/Uno.UI/UI/Xaml/UIElement.Layout.netstd.cs:185-195 | no event, no change to any other element or to the available size; the element ends measure-dirty exactly when it was or the size differs from its last one |
| MeasurePass.MeasureVisualTreeRoot | src/Uno.UI/UI/Xaml/UIElement.Layout.netstd.cs:214-225 | DoMeasure's outcome, with the root-layout flag lowered afterwards whatever happened |
| MeasurePass.MarkFirstMeasure | src/Uno.UI/UI/Xaml/UIElement.Layout.netstd.cs:231-235 | FirstMeasureDone ends set, only that bit may be gained, and nothing else changes |
| MeasurePass.Recompute | src/Uno.UI/UI/Xaml/UIElement.Layout.netstd.cs:237-264 | the first event is the MeasureCore call; on success the sizes are recorded, the element is measure-dirty exactly when it re-invalidated itself without intercepting, and arrange-dirty unless it intercepts; on failure debug builds swallow and record the size, other builds propagate and record nothing |
| MeasurePass.DoMeasure | src/Uno.UI/UI/Xaml/UIElement.Layout.netstd.cs:227-287 | FirstMeasureDone set; recompute exactly when dirty, never measured or given a new size; otherwise no own MeasureCore, the path flag cleared, and a clean element given its last size left untouched |
| MeasurePass.MeasureDirtyChildren | src/Uno.UI/UI/Xaml/UIElement.Layout.netstd.cs:274-284 | only MeasureCores of strict descendants run; off the element's root path nothing changes; the element and its ancestors only gain path or arrange flags |
| MeasureProperties.MeasureCoreRunsIff | src/Uno.UI/UI/Xaml/UIElement.Layout.netstd.cs:227-246 | an element's own MeasureCore runs exactly when it is measurable and needs a recompute, and then with the given size |
| MeasureProperties.MeasureDirtyChildrenSkipsClean | src/Uno.UI/UI/Xaml/UIElement.Layout.netstd.cs:266-285 | a clean child's subtree is left untouched and none of its MeasureCores runs |
| MeasureProperties.MeasureDirtyChildrenVisitsDirty | src/Uno.UI/UI/Xaml/UIElement.Layout.netstd.cs:266-285 | unless a measure fails, every measure-dirty, measurable child is re-measured with its own last available size |
| MeasureProperties.MeasureRootFlag | src/Uno.UI/UI/Xaml/UIElement.Layout.netstd.cs:214-225 | a measurable visual-tree root's MeasureCore runs with the root-layout flag raised, and the flag is lowered afterwards on every exit, a failed MeasureCore included; other elements leave it as they found it |
| MeasureProperties.MeasureCoreSeesItselfCleared | src/Uno.UI/UI/Xaml/UIElement.Layout.netstd.cs:229-248 | when MeasureCore is called, its element is marked measured and is neither measure-dirty nor path-dirty, so it can re-invalidate itself; nothing else has changed |
| MeasureProperties.ResetThenMeasureRuns | src/Uno.UI/UI/Xaml/UIElement.Layout.netstd.cs:229-237 | an element whose flags are reset to those of a fresh element is recomputed by its next measure, whatever the size |
| MeasureProperties.CollapsedMeasureBreaksPathInvariant | src/Uno.UI/UI/Xaml/UIElement.Layout.netstd.cs:185-195 | measuring a collapsed element with a new size marks it measure-dirty under a clean parent, so after a measure a dirty element's parent need not be dirty |
| PathMeasure.PathOnlyReachesDirty | src/Uno.UI/UI/Xaml/UIElement.Layout.netstd.cs:266-285 | measuring the top of a chain of path-dirty, clean elements with its last size calls the MeasureCore of a measure-dirty element at the bottom, unless a measure fails first, and calls no MeasureCore of any element of the chain |
| PathMeasure.StalePathCleared | src/Uno.UI/UI/Xaml/UIElement.Layout.netstd.cs:266-285 | a path-dirty element none of whose children is dirty, measured with its last size, only loses its path flag: no MeasureCore runs and nothing is logged |
| MeasureProperties.MeasureSettles | src/Uno.UI/UI/Xaml/UIElement.Layout.netstd.cs:227-264 | after a recompute that neither failed nor re-invalidated, a second measure with the same size is a no-op |
| MeasureProperties.InvalidateThenMeasureRuns | src/Uno.UI/UI/Xaml/UIElement.Layout.netstd.cs:106-121 | after InvalidateMeasure on a non-intercepting measurable element, the next measure calls its MeasureCore |
| ArrangePass.HideEmptySlot | src/Uno.UI/UI/Xaml/UIElement.Layout.netstd.cs:305-310 | the slot becomes the rect, ArrangeDirty is cleared, the visual is hidden, and no other bit, field or element changes |
| ArrangePass.ArrangeCoreInput | src/Uno.UI/UI/Xaml/UIElement.Layout.netstd.cs:349-359 | when ArrangeCore is called, the visual is shown, the new slot is stored and ArrangeDirty is cleared, and nothing else has changed |
| ArrangePass.DoArrange | src/Uno.UI/UI/Xaml/UIElement.Layout.netstd.cs:347-360 | the slot is the rect; if ArrangeCore returns, the element is arrange-dirty exactly when it re-invalidated itself without intercepting; if it throws, the exception propagates and the state is the one the call saw |
| ArrangePass.ArrangeVisualTreeRoot | src/Uno.UI/UI/Xaml/UIElement.Layout.netstd.cs:334-345 | DoArrange run with the root-layout flag raised, and the flag lowered afterwards on every exit |
| ArrangePass.Arrange | src/Uno.UI/UI/Xaml/UIElement.Layout.netstd.cs:294-327 | non-framework element: no-op; collapsed or empty slot: the empty-slot exit; clean with the same slot: no-op; otherwise DoArrange's outcome; never a MeasureCore call, and only the element's slot and ArrangeDirty change, plus ArrangeDirty on ancestors |
| ArrangeProperties.ArrangeCoreRunsIff | src/Uno.UI/UI/Xaml/UIElement.Layout.netstd.cs:294-359 | ArrangeCore runs exactly when the element is arrangeable, and the only ArrangeCore call is the element's own, with the rect |
| ArrangeProperties.ArrangeSettles | src/Uno.UI/UI/Xaml/UIElement.Layout.netstd.cs:313-316 | once an arrange with a non-empty slot leaves the element clean, arranging it again with the same rect is a no-op whatever ArrangeCore would do |
| ArrangeProperties.ArrangeLeavesDirtyIff | src/Uno.UI/UI/Xaml/UIElement.Layout.netstd.cs:356-359 | after DoArrange the element is arrange-dirty exactly when its ArrangeCore returned after re-invalidating it and it does not intercept; the arrange faults exactly when ArrangeCore threw |
| ArrangeProperties.EmptySlotRepeats | src/Uno.UI/UI/Xaml/UIElement.Layout.netstd.cs:301-311 | a second empty-slot arrange with the same rect changes no element and only hides the visual again |
| ArrangeProperties.InvalidateThenArrangeRuns | src/Uno.UI/UI/Xaml/UIElement.Layout.netstd.cs:313-316 | after InvalidateArrange, a non-intercepting framework element with a non-empty slot is arranged: its ArrangeCore runs whatever the rect |
| ArrangeProperties.ArrangeRootFlag | src/Uno.UI/UI/Xaml/UIElement.Layout.netstd.cs:334-345 | a root's ArrangeCore runs with the root-layout flag raised, and the flag is lowered afterwards; other elements leave it as they found it |
| ElementSize.DesiredSize | src/Uno.UI/UI/Xaml/UIElement.Layout.netstd.cs:14 | a collapsed element reports a zero desired size |
| ElementSize.RenderSize | src/Uno.UI/UI/Xaml/UIElement.Layout.netstd.cs:374 | a collapsed element reports a zero render size |
| ElementSize.SetRenderSize | src/Uno.UI/UI/Xaml/UIElement.Layout.netstd.cs:375-391 | the value is stored whatever the visibility, nothing else changes, and at most one event is raised, a SizeChanged carrying the previous and the new size |
| ElementSize.SizeChangedIff | src/Uno.UI/UI/Xaml/UIElement.Layout.netstd.cs:380-390 | SizeChanged is raised exactly when the stored size changes on a framework element |
| ElementSize.RenderSizeRoundTrip | src/Uno.UI/UI/Xaml/UIElement.Layout.netstd.cs:372-391 | the getter returns what the setter stored, or zero for a collapsed element |
| ElementSize.SetRenderSizeIdempotent | src/Uno.UI/UI/Xaml/UIElement.Layout.netstd.cs:375-391 | setting the same size a second time changes nothing and raises nothing |
| ElementSize.SetRenderSizeToCurrent | src/Uno.UI/UI/Xaml/UIElement.Layout.netstd.cs:372-391 | writing back what a visible element's getter returns is a no-op |
| ElementSize.MeasuredDesiredSize | src/Uno.UI/UI/Xaml/UIElement.Layout.netstd.cs:14 | after a successful recompute DesiredSize is what MeasureCore produced; a collapsed element reports zero whatever Measure did |

## Left out

- `MeasureCore` and `ArrangeCore` bodies: they are virtual. The base class throws and the
  real implementations live in `FrameworkElement`, which is not part of this model. Each is
  an oracle of the element, the size or rect, and the layout at the call. An oracle does not itself measure or arrange children. So the model does not follow
  a `MeasureCore` that re-enters `Measure` on its children. The only re-entrancy modelled is
  self-invalidation.
- `ShowVisual`/`HideVisual` are platform rendering hooks. They appear only as
  `VisualShown`/`VisualHidden` events.
- `Window.InvalidateMeasure` is an external scheduler. It appears only as a
  `WindowMeasureInvalidated` event.
- `LayoutInformation` storage (`SetAvailableSize`, `SetLayoutSlot`), `GetParent`,
  `GetChildren` and `ICustomClippingElement` are plain fields of the element or of its
  layout record.
- `_log.Error` in debug builds appears only as a `MeasureFailureLogged` event. The
  `Console.WriteLine("!!")` diagnostic and the `Debug.Assert` checks on negative render
  sizes have no counterpart.
- Doubles: sizes and rects are opaque (`Finite`, `Infinity`, `NaN`) and compared
  structurally. The model therefore does not reproduce IEEE comparison quirks: NaN compares
  equal to itself here, and there is no negative zero. This matters only for the
  `availableSize == LastAvailableSize`, `finalRect == default`, `finalRect == LayoutSlot`
  and `_size != previousSize` tests.
- `SetActualSize` and the dispatch of `SizeChanged` to handlers: the setter only records
  that `SizeChanged(previous, new)` is raised.
- Visibility and the tree shape are fixed for the duration of a call, so
  `ElementSize.RenderSizeRoundTrip` cannot say what a collapsed element reports once made
  visible again.
- The model's well-formedness assumes that a visual-tree root has no parent.
- `src/Uno.UI/UI/Xaml/UIElement.net.cs`, a stub of the same class for a test platform with
  constant `false` dirty flags and counters, is not part of this model.
- Concurrency: layout runs on the UI thread, and the model is sequential.
