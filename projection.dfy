/**
 * The per-record body of `cuts`: every selection term is materialized as a
 * span against the record's length, the record is sliced once per term and
 * the slices are concatenated in term order; the result is then written out
 * element by element, each followed by the output delimiter, and the record
 * ends with a newline.
 */
module Projection {
  import opened Common
  import opened Seqs
  import opened Selections

  /**
   * Rust's slice indexing `elements[start..end]` panics when the span starts
   * after it ends; the panic carries both ends.
   */
  datatype Panic = SliceIndexOrderFail(start: nat, end: nat)

  /**
   * The selected elements of one record, or the panic of the first term
   * whose span is inverted.
   */
  function Project<T>(selections: seq<Selection>, elements: seq<T>): (r: Result<seq<T>, Panic>)
    ensures r.Ok? <==> forall i :: 0 <= i < |selections| ==> !Inverted(ToConcreteRange(selections[i], |elements|))
    ensures r.Err? ==> exists k :: 0 <= k < |selections| && FirstInverted(selections, |elements|, k)
                               && r.error == PanicOf(ToConcreteRange(selections[k], |elements|))
    decreases |selections|
  {
    if selections == [] then Ok([])
    else
      var span := ToConcreteRange(selections[0], |elements|);
      if Inverted(span) then Err(PanicOf(span))
      else
        match Project(selections[1..], elements)
        case Err(p) =>
          assert exists k :: 0 <= k < |selections| - 1 && FirstInverted(selections[1..], |elements|, k)
                             && p == PanicOf(ToConcreteRange(selections[1..][k], |elements|));
          var k :| 0 <= k < |selections| - 1 && FirstInverted(selections[1..], |elements|, k)
                   && p == PanicOf(ToConcreteRange(selections[1..][k], |elements|));
          assert FirstInverted(selections, |elements|, k + 1);
          Err(p)
        case Ok(rest) => Ok(elements[span.start..span.end] + rest)
  }

  /** The panic a slice with an inverted span raises. */
  function PanicOf(span: Span): Panic { SliceIndexOrderFail(span.start, span.end) }

  /** Term `k` is the first whose span over `numFields` elements is inverted. */
  predicate FirstInverted(selections: seq<Selection>, numFields: nat, k: nat)
    requires k < |selections|
  {
    && Inverted(ToConcreteRange(selections[k], numFields))
    && forall i :: 0 <= i < k ==> !Inverted(ToConcreteRange(selections[i], numFields))
  }

  /** The positions a non-inverted span covers, in ascending order; none for an inverted one. */
  function SpanPositions(span: Span): (ps: seq<nat>)
    ensures |ps| == if Inverted(span) then 0 else span.end - span.start
    ensures forall k :: 0 <= k < |ps| ==> ps[k] == span.start + k
    ensures forall p :: p in ps <==> !Inverted(span) && span.start <= p < span.end
    ensures forall a, b :: 0 <= a < b < |ps| ==> ps[a] < ps[b]
  {
    if Inverted(span) then []
    else
      var ps := seq(span.end - span.start, k requires 0 <= k < span.end - span.start => span.start + k);
      assert forall p :: span.start <= p < span.end ==> p in ps by {
        forall p | span.start <= p < span.end
          ensures p in ps
        {
          assert ps[p - span.start] == p;
        }
      }
      ps
  }

  /** The positions of a record that a selection picks, term after term. */
  function Positions(selections: seq<Selection>, numFields: nat): (ps: seq<nat>)
    ensures forall k :: 0 <= k < |ps| ==> ps[k] < numFields
    decreases |selections|
  {
    if selections == [] then []
    else SpanPositions(ToConcreteRange(selections[0], numFields)) + Positions(selections[1..], numFields)
  }

  /**
   * A successful projection is the record read at the picked positions: its
   * k-th element is the element at the k-th position of `Positions`.
   */
  lemma {:induction false} ProjectAtPositions<T>(selections: seq<Selection>, elements: seq<T>)
    requires Project(selections, elements).Ok?
    ensures var out := Project(selections, elements).value;
            var ps := Positions(selections, |elements|);
            |out| == |ps| && forall k :: 0 <= k < |ps| ==> out[k] == elements[ps[k]]
    decreases |selections|
  {
    if selections != [] {
      ProjectAtPositions(selections[1..], elements);
      var span := ToConcreteRange(selections[0], |elements|);
      var head := elements[span.start..span.end];
      var rest := Project(selections[1..], elements).value;
      var out := Project(selections, elements).value;
      assert out == head + rest;
      var ps := Positions(selections, |elements|);
      var hp := SpanPositions(span);
      assert ps == hp + Positions(selections[1..], |elements|);
      forall k | 0 <= k < |ps|
        ensures out[k] == elements[ps[k]]
      {
        if k < |head| {
          assert out[k] == head[k] == elements[span.start + k];
        } else {
          assert out[k] == rest[k - |head|];
        }
      }
    }
  }

  /**
   * Projection follows term order: the terms of `a` followed by those of `b`
   * select what `a` selects followed by what `b` selects, and the first panic
   * of `a` wins over any of `b`.
   */
  lemma {:induction false} ProjectAppend<T>(a: seq<Selection>, b: seq<Selection>, elements: seq<T>)
    ensures Project(a + b, elements) ==
      match Project(a, elements)
      case Err(p) => Err(p)
      case Ok(x) =>
        match Project(b, elements)
        case Err(p) => Err(p)
        case Ok(y) => Ok(x + y)
    decreases |a|
  {
    if a == [] {
      assert a + b == b;
      match Project(b, elements)
      case Err(p) =>
      case Ok(y) => assert [] + y == y;
    } else {
      assert (a + b)[0] == a[0];
      assert (a + b)[1..] == a[1..] + b;
      ProjectAppend(a[1..], b, elements);
      var span := ToConcreteRange(a[0], |elements|);
      if !Inverted(span) {
        match Project(a[1..], elements)
        case Err(p) =>
        case Ok(x) =>
          match Project(b, elements)
          case Err(p) =>
          case Ok(y) =>
            var head := elements[span.start..span.end];
            assert head + (x + y) == (head + x) + y;
      }
    }
  }

  /** A term listed twice contributes its elements twice. */
  lemma SelectTwice<T>(selections: seq<Selection>, elements: seq<T>)
    requires Project(selections, elements).Ok?
    ensures var out := Project(selections, elements).value;
            Project(selections + selections, elements) == Ok(out + out)
  {
    ProjectAppend(selections, selections, elements);
  }

  /** `..` selects the whole record, unchanged. */
  lemma ProjectWhole<T>(elements: seq<T>)
    ensures Project([Range(None, None)], elements) == Ok(elements)
  {
    var sels := [Range(None, None)];
    assert ToConcreteRange(sels[0], |elements|) == Span(0, |elements|);
    assert sels[1..] == [];
    assert elements[0..|elements|] + [] == elements;
  }

  /** An out-of-range single index contributes nothing. */
  lemma ProjectOutOfRange<T>(index: int, elements: seq<T>)
    requires index >= |elements| || index < -|elements|
    ensures Project([Single(index)], elements) == Ok([])
  {
    var sels := [Single(index)];
    assert sels[1..] == [];
    assert ToConcreteRange(sels[0], |elements|) == Span(0, 0);
    assert Project(sels[1..], elements) == Ok([]);
    assert elements[0..0] + [] == [];
  }

  /** A one-term selection whose span `start..end` is not inverted is that slice of the record. */
  lemma ProjectOne<T>(selection: Selection, elements: seq<T>, start: nat, end: nat)
    requires ToConcreteRange(selection, |elements|) == Span(start, end)
    requires start <= end
    ensures Project([selection], elements) == Ok(elements[start..end])
  {
    var sels := [selection];
    assert sels[1..] == [];
    assert elements[start..end] + [] == elements[start..end];
  }

  /** `..n` selects the first `n` elements, or all of them when there are fewer. */
  lemma FirstElements<T>(n: nat, elements: seq<T>)
    ensures Project([Range(None, Some(n))], elements)
            == Ok(elements[..if n < |elements| then n else |elements|])
  {
    var end := if n < |elements| then n else |elements|;
    ProjectOne(Range(None, Some(n)), elements, 0, end);
  }

  /** `..-k` selects all but the last `k` elements; past the front it selects everything. */
  lemma AllButLast<T>(k: nat, elements: seq<T>)
    requires k >= 1
    ensures Project([Range(None, Some(-(k as int)))], elements)
            == Ok(elements[..if k <= |elements| then |elements| - k else |elements|])
  {
    var end := if k <= |elements| then |elements| - k else |elements|;
    ProjectOne(Range(None, Some(-(k as int))), elements, 0, end);
  }

  /** `-k..` selects the last `k` elements, or all of them when there are fewer. */
  lemma LastElements<T>(k: nat, elements: seq<T>)
    requires k >= 1
    ensures k <= |elements| ==> Project([Range(Some(-(k as int)), None)], elements) == Ok(elements[|elements| - k..])
    ensures k > |elements| ==> Project([Range(Some(-(k as int)), None)], elements) == Ok(elements)
  {
    var n := |elements|;
    var start := if k <= n then n - k else 0;
    FromEnd(k, n);
    ProjectOne(Range(Some(-(k as int)), None), elements, start, n);
    assert elements[start..n] == elements[start..];
  }

  /** `1,2,-2` on five elements selects the second, the third and the second from last, in that order. */
  lemma SinglesInOrder<T>(elements: seq<T>)
    requires |elements| == 5
    ensures Project([Single(1), Single(2), Single(-2)], elements) == Ok([elements[1], elements[2], elements[3]])
  {
    var sels := [Single(1), Single(2), Single(-2)];
    assert sels[1..] == [Single(2), Single(-2)] && sels[1..][1..] == [Single(-2)];
    ProjectOne(Single(-2), elements, 3, 4);
    var third := elements[3..4];
    assert Project(sels[1..], elements) == Ok(elements[2..3] + third);
    assert Project(sels, elements) == Ok(elements[1..2] + (elements[2..3] + third));
    assert elements[1..2] + (elements[2..3] + third) == [elements[1], elements[2], elements[3]];
  }

  /** The newline byte that ends every output record. */
  const NEWLINE: byte := 10

  /** The selected elements, each followed by the output delimiter. */
  function RenderElements(output: seq<seq<byte>>, outDelimiter: seq<byte>): (r: seq<byte>)
    ensures output != [] ==> |outDelimiter| <= |r| && r[|r| - |outDelimiter|..] == outDelimiter
    decreases |output|
  {
    if output == [] then []
    else
      var head := output[0] + outDelimiter;
      var rest := RenderElements(output[1..], outDelimiter);
      assert (head + rest)[|head + rest| - |outDelimiter|..] == outDelimiter by {
        if rest == [] {
          assert head + rest == head;
        } else {
          assert (head + rest)[|head + rest| - |outDelimiter|..] == rest[|rest| - |outDelimiter|..];
        }
      }
      head + rest
  }

  /** The bytes one record produces: each element followed by the output delimiter, then a newline. */
  function Render(output: seq<seq<byte>>, outDelimiter: seq<byte>): (r: seq<byte>)
    ensures |r| >= 1 && r[|r| - 1] == NEWLINE
  {
    RenderElements(output, outDelimiter) + [NEWLINE]
  }

  lemma {:induction false} RenderElementsSnoc(output: seq<seq<byte>>, x: seq<byte>, outDelimiter: seq<byte>)
    ensures RenderElements(output + [x], outDelimiter) == RenderElements(output, outDelimiter) + x + outDelimiter
    decreases |output|
  {
    if output == [] {
      assert output + [x] == [x];
      assert [x][1..] == [];
    } else {
      assert (output + [x])[0] == output[0];
      assert (output + [x])[1..] == output[1..] + [x];
      RenderElementsSnoc(output[1..], x, outDelimiter);
    }
  }

  /**
   * Rendering is the delimiter-joined elements with the delimiter once more
   * after the last element, then the newline; a record with nothing selected
   * renders as the newline alone.
   */
  lemma RenderIsJoinWithTrailing(output: seq<seq<byte>>, outDelimiter: seq<byte>)
    ensures output == [] ==> Render(output, outDelimiter) == [NEWLINE]
    ensures output != [] ==> Render(output, outDelimiter) == Join(output, outDelimiter) + outDelimiter + [NEWLINE]
  {
    if output != [] {
      RenderElementsIsJoin(output, outDelimiter);
    }
  }

  lemma {:induction false} RenderElementsIsJoin(output: seq<seq<byte>>, outDelimiter: seq<byte>)
    requires output != []
    ensures RenderElements(output, outDelimiter) == Join(output, outDelimiter) + outDelimiter
    decreases |output|
  {
    if |output| == 1 {
      assert output[1..] == [];
    } else {
      RenderElementsIsJoin(output[1..], outDelimiter);
    }
  }

  /** The length of a rendered record: the elements, one delimiter per element, one newline. */
  lemma RenderLength(output: seq<seq<byte>>, outDelimiter: seq<byte>)
    ensures |Render(output, outDelimiter)| == |Flatten(output)| + |output| * |outDelimiter| + 1
  {
    RenderElementsLength(output, outDelimiter);
  }

  /** The written elements take the element bytes plus one delimiter per element. */
  lemma {:induction false} RenderElementsLength(output: seq<seq<byte>>, outDelimiter: seq<byte>)
    ensures |RenderElements(output, outDelimiter)| == |Flatten(output)| + |output| * |outDelimiter|
    decreases |output|
  {
    if output != [] {
      var rest := RenderElements(output[1..], outDelimiter);
      RenderElementsLength(output[1..], outDelimiter);
      assert RenderElements(output, outDelimiter) == output[0] + outDelimiter + rest;
      assert Flatten(output) == output[0] + Flatten(output[1..]);
      MulStep(|output|, |outDelimiter|);
    }
  }

  lemma MulStep(n: nat, d: nat)
    requires n >= 1
    ensures n * d == d + (n - 1) * d
  {
  }

  /** If neither the elements nor the delimiter hold a newline, the rendered record holds exactly one, at its end. */
  lemma {:induction false} RenderOneNewline(output: seq<seq<byte>>, outDelimiter: seq<byte>)
    requires NEWLINE !in outDelimiter
    requires forall i :: 0 <= i < |output| ==> NEWLINE !in output[i]
    ensures Count(NEWLINE, Render(output, outDelimiter)) == 1
    ensures Render(output, outDelimiter)[|Render(output, outDelimiter)| - 1] == NEWLINE
    decreases |output|
  {
    var body := RenderElements(output, outDelimiter);
    assert Count(NEWLINE, body) == 0 by {
      if output != [] {
        RenderOneNewline(output[1..], outDelimiter);
        var rest := RenderElements(output[1..], outDelimiter);
        CountAppend(NEWLINE, rest, [NEWLINE]);
        assert Count(NEWLINE, [NEWLINE]) == 1;
        CountAbsent(NEWLINE, output[0]);
        CountAbsent(NEWLINE, outDelimiter);
        CountAppend(NEWLINE, output[0], outDelimiter);
        CountAppend(NEWLINE, output[0] + outDelimiter, rest);
      }
    }
    CountAppend(NEWLINE, body, [NEWLINE]);
  }

  /**
   * Writes one record as the output loop does: for each element, the element
   * and then the delimiter, and finally a newline.
   */
  method WriteRecord(output: seq<seq<byte>>, outDelimiter: seq<byte>) returns (written: seq<byte>)
    ensures written == Render(output, outDelimiter)
  {
    written := [];
    for i := 0 to |output|
      invariant written == RenderElements(output[..i], outDelimiter)
    {
      RenderElementsSnoc(output[..i], output[i], outDelimiter);
      assert output[..i + 1] == output[..i] + [output[i]];
      written := written + output[i];
      written := written + outDelimiter;
    }
    assert output[..|output|] == output;
    written := written + [NEWLINE];
  }
}
