/**
 * Selection terms and their resolution against the length of one record's
 * element sequence (`Selection`, `to_concrete_index` and `to_concrete_range`
 * in the library crate).
 */
module Selections {
  import opened Common

  /** One comma-separated term of a selection: a logical index or a range of them. */
  datatype Selection = Single(index: int) | Range(start: Option<int>, end: Option<int>)

  /**
   * A half-open span `start..end` over an element sequence (Rust's `Range<usize>`).
   * Nothing forces `start <= end`: resolution can produce inverted spans.
   */
  datatype Span = Span(start: nat, end: nat)

  predicate Inverted(sp: Span) { sp.start > sp.end }

  /**
   * Maps a logical index onto a position of a sequence of `numFields`
   * elements: non-negative indices count from the front, negative ones from
   * the back, and anything outside the sequence resolves to nothing.
   */
  function ToConcreteIndex(selection: int, numFields: nat): (r: Option<nat>)
    ensures r.Some? <==> -(numFields as int) <= selection < numFields
    ensures r.Some? ==> r.value < numFields
    ensures 0 <= selection < numFields ==> r == Some(selection)
    ensures selection < 0 && numFields + selection >= 0 ==> r == Some(numFields + selection)
  {
    if 0 <= selection < numFields then Some(selection)
    else if selection < 0 && numFields + selection >= 0 then Some(numFields + selection)
    else None
  }

  /**
   * Every position of a non-empty sequence is named by exactly two logical
   * indices: itself and itself minus the length.
   */
  lemma ResolvesTo(selection: int, numFields: nat, position: nat)
    requires position < numFields
    ensures ToConcreteIndex(selection, numFields) == Some(position)
            <==> selection == position || selection == position as int - numFields
  {
  }

  /** A range bound: the resolved position when present and in range, else `default`. */
  function ResolveBound(bound: Option<int>, numFields: nat, default: nat): (r: nat)
    requires default <= numFields
    ensures r <= numFields
  {
    match bound
    case None => default
    case Some(index) =>
      match ToConcreteIndex(index, numFields)
      case None => default
      case Some(position) => position
  }

  /**
   * Materializes a selection term as a span over `numFields` elements. Both
   * ends always lie within the sequence; a single index gives a span of at
   * most one element, which is empty exactly when the index resolves to
   * nothing.
   */
  function ToConcreteRange(selection: Selection, numFields: nat): (r: Span)
    ensures r.start <= numFields && r.end <= numFields
    ensures selection.Single? ==> r.start <= r.end <= r.start + 1
    ensures selection.Single? ==> (r.start < r.end <==> ToConcreteIndex(selection.index, numFields).Some?)
    ensures selection.Single? && r.start < r.end ==> ToConcreteIndex(selection.index, numFields) == Some(r.start)
  {
    match selection
    case Single(column) =>
      (match ToConcreteIndex(column, numFields)
       case None => Span(0, 0)
       case Some(index) => Span(index, index + 1))
    case Range(start, end) =>
      Span(ResolveBound(start, numFields, 0), ResolveBound(end, numFields, numFields))
  }

  /**
   * The ends of a range: an omitted or out-of-range start becomes 0, an
   * omitted or out-of-range end becomes the length, and a bound that
   * resolves gives its position.
   */
  lemma RangeEnds(start: Option<int>, end: Option<int>, numFields: nat)
    ensures var r := ToConcreteRange(Range(start, end), numFields);
            && (start.None? || ToConcreteIndex(start.value, numFields).None? ==> r.start == 0)
            && (start.Some? && ToConcreteIndex(start.value, numFields).Some? ==> r.start == ToConcreteIndex(start.value, numFields).value)
            && (end.None? || ToConcreteIndex(end.value, numFields).None? ==> r.end == numFields)
            && (end.Some? && ToConcreteIndex(end.value, numFields).Some? ==> r.end == ToConcreteIndex(end.value, numFields).value)
  {
  }

  /** `-k..` starts `k` elements before the end, or at the front when there are fewer. */
  lemma FromEnd(k: nat, numFields: nat)
    requires k >= 1
    ensures ToConcreteRange(Range(Some(-(k as int)), None), numFields)
            == Span(if k <= numFields then numFields - k else 0, numFields)
  {
  }

  /** `..` selects the whole sequence, and so does `..n` on `n` elements. */
  lemma WholeRange(numFields: nat)
    ensures ToConcreteRange(Range(None, None), numFields) == Span(0, numFields)
    ensures ToConcreteRange(Range(None, Some(numFields)), numFields) == Span(0, numFields)
  {
  }

  /**
   * A span comes out inverted exactly when the term is a range with both
   * bounds present, both resolving, and the start resolving past the end.
   */
  lemma InvertedIff(selection: Selection, numFields: nat)
    ensures Inverted(ToConcreteRange(selection, numFields)) <==>
      && selection.Range? && selection.start.Some? && selection.end.Some?
      && ToConcreteIndex(selection.start.value, numFields).Some?
      && ToConcreteIndex(selection.end.value, numFields).Some?
      && ToConcreteIndex(selection.start.value, numFields).value > ToConcreteIndex(selection.end.value, numFields).value
  {
  }

  /** `3..1` on four elements resolves to the inverted span `3..1`. */
  lemma DescendingRangeInverts()
    ensures ToConcreteRange(Range(Some(3), Some(1)), 4) == Span(3, 1)
    ensures Inverted(ToConcreteRange(Range(Some(3), Some(1)), 4))
  {
  }
}
