/** The per-element layout flag byte and its get/set/clear helpers. */
module LayoutFlags {

  type Flags = bv8

  /** The element itself must be measured again. */
  const MeasureDirty: Flags := 0x01
  /** Some descendant must be measured again; the element itself need not. */
  const MeasureDirtyPath: Flags := 0x02
  /** The element has been measured at least once. */
  const FirstMeasureDone: Flags := 0x04
  /** The element must be arranged again. */
  const ArrangeDirty: Flags := 0x10

  const DefaultStartingLayoutFlags: Flags := 0

  /** Every bit of `flag` is set. */
  predicate GetLayoutFlag(flags: Flags, flag: Flags) {
    flags & flag == flag
  }

  /** At least one bit of `flag` is set. */
  predicate GetAnyFlag(flags: Flags, flag: Flags) {
    flags & flag != 0
  }

  /** Sets every bit of `flag` and no other. */
  function SetLayoutFlag(flags: Flags, flag: Flags): (r: Flags)
    ensures GetLayoutFlag(r, flag)
    ensures r & !flag == flags & !flag
  {
    flags | flag
  }

  /** Clears every bit of `flag` and no other. */
  function ClearLayoutFlags(flags: Flags, flag: Flags): (r: Flags)
    ensures !GetAnyFlag(r, flag)
    ensures r & !flag == flags & !flag
  {
    flags & !flag
  }

  /** The flags of a freshly constructed element. */
  function ResetLayoutFlags(): (r: Flags)
    ensures !GetAnyFlag(r, MeasureDirty | MeasureDirtyPath | FirstMeasureDone | ArrangeDirty)
  {
    DefaultStartingLayoutFlags
  }

  predicate IsMeasureDirty(flags: Flags) {
    GetLayoutFlag(flags, MeasureDirty)
  }

  predicate IsMeasurePathDirty(flags: Flags) {
    GetLayoutFlag(flags, MeasureDirtyPath)
  }

  predicate IsMeasureOrMeasurePathDirty(flags: Flags) {
    GetAnyFlag(flags, MeasureDirty | MeasureDirtyPath)
  }

  predicate IsArrangeDirty(flags: Flags) {
    GetLayoutFlag(flags, ArrangeDirty)
  }

  predicate IsFirstMeasureDone(flags: Flags) {
    GetLayoutFlag(flags, FirstMeasureDone)
  }

  /** `after` keeps every bit of `before` and gains only bits of `allowed`. */
  predicate OnlyGains(before: Flags, after: Flags, allowed: Flags) {
    && after & before == before
    && after & !(before | allowed) == 0
  }

  lemma SetLayoutFlagIdempotent(flags: Flags, flag: Flags)
    ensures SetLayoutFlag(SetLayoutFlag(flags, flag), flag) == SetLayoutFlag(flags, flag)
  {
  }

  lemma ClearAfterSetRestoresOtherBits(flags: Flags, flag: Flags)
    ensures ClearLayoutFlags(SetLayoutFlag(flags, flag), flag) == ClearLayoutFlags(flags, flag)
  {
  }

  lemma IsMeasureOrMeasurePathDirtyIff(flags: Flags)
    ensures IsMeasureOrMeasurePathDirty(flags) <==> IsMeasureDirty(flags) || IsMeasurePathDirty(flags)
  {
  }

  lemma SetOnlyGains(flags: Flags, flag: Flags)
    ensures OnlyGains(flags, SetLayoutFlag(flags, flag), flag)
  {
  }

  lemma OnlyGainsReflexive(flags: Flags, allowed: Flags)
    ensures OnlyGains(flags, flags, allowed)
  {
  }

  lemma OnlyGainsWiden(before: Flags, after: Flags, allowed: Flags, wider: Flags)
    requires OnlyGains(before, after, allowed) && allowed & wider == allowed
    ensures OnlyGains(before, after, wider)
  {
  }

  lemma OnlyGainsTransitive(a: Flags, b: Flags, c: Flags, allowed: Flags)
    requires OnlyGains(a, b, allowed) && OnlyGains(b, c, allowed)
    ensures OnlyGains(a, c, allowed)
  {
  }
}
