/**
 * The `cuts` entry point of the library crate: the configuration, the choice
 * of tokenizer, and the loop that projects and writes every record in input
 * order. Standard input is given as its two views, the decoded lines (for
 * the field and character tokenizers) and the raw bytes (for the byte
 * tokenizer); standard output is the byte sequence written.
 */
module Pipeline {
  import opened Common
  import opened Seqs
  import opened Selections
  import opened Tokenizers
  import opened Projection
  import opened Utf8

  datatype SelectionType = Fields | Bytes | Characters

  /**
   * The run's configuration. `delimiter` stands for the compiled delimiter
   * pattern and gives the fields a line splits into.
   */
  datatype Config = Config(
    selections: seq<Selection>,
    delimiter: string -> seq<string>,
    outDelimiter: seq<byte>,
    trimmed: bool,
    onlyDelimited: bool,
    selectionType: SelectionType)

  /** Standard input, as lines already read (line ends removed) and as raw bytes. */
  datatype Stdin = Stdin(lines: seq<string>, bytes: seq<byte>)

  /** The records the configured tokenizer produces. */
  function Items(config: Config, trim: string -> string, stdin: Stdin): (r: seq<seq<seq<byte>>>)
    ensures config.selectionType == Bytes ==> |r| == 1 && |r[0]| == |stdin.bytes| && Flatten(r[0]) == stdin.bytes
    ensures config.selectionType == Bytes ==> forall i :: 0 <= i < |stdin.bytes| ==> r[0][i] == [stdin.bytes[i]]
    ensures config.selectionType == Characters ==> |r| == |stdin.lines|
    ensures config.selectionType == Characters ==>
              var lines := Lines(stdin.lines, config.trimmed, trim);
              forall i :: 0 <= i < |r| ==> DecodeUtf8(Flatten(r[i])) == Some(lines[i])
    ensures config.selectionType == Fields ==> |r| <= |stdin.lines|
    ensures config.selectionType == Fields && !config.onlyDelimited ==> |r| == |stdin.lines|
    ensures config.selectionType == Fields ==>
              var lines := Lines(stdin.lines, config.trimmed, trim);
              var kept := if config.onlyDelimited then Delimited(lines, config.delimiter) else lines;
              |r| == |kept| && forall i :: 0 <= i < |r| ==> RecordOf(r[i], config.delimiter(kept[i]))
  {
    match config.selectionType
    case Fields =>
      var lines := Lines(stdin.lines, config.trimmed, trim);
      FieldItemsKept(lines, config.delimiter);
      FieldItems(lines, config.delimiter, config.onlyDelimited)
    case Bytes => ByteItems(stdin.bytes)
    case Characters => CharItems(Lines(stdin.lines, config.trimmed, trim))
  }

  /** What a run writes, and the panic that ended it early, if any. */
  datatype Outcome = Outcome(written: seq<byte>, panic: Option<Panic>)

  /**
   * The run over a sequence of records: each record's rendering in order,
   * until a record whose projection panics; nothing of that record and
   * nothing after it is written.
   */
  function Run(selections: seq<Selection>, items: seq<seq<seq<byte>>>, outDelimiter: seq<byte>): (r: Outcome)
    ensures r.panic.None? ==> |r.written| >= |items|
    decreases |items|
  {
    if items == [] then Outcome([], None)
    else
      match Project(selections, items[0])
      case Err(p) => Outcome([], Some(p))
      case Ok(output) =>
        var rest := Run(selections, items[1..], outDelimiter);
        Outcome(Render(output, outDelimiter) + rest.written, rest.panic)
  }

  /** A run ends without a panic exactly when every record projects. */
  lemma {:induction false} RunPanicIff(selections: seq<Selection>, items: seq<seq<seq<byte>>>, outDelimiter: seq<byte>)
    ensures Run(selections, items, outDelimiter).panic.None?
            <==> forall i :: 0 <= i < |items| ==> Project(selections, items[i]).Ok?
    decreases |items|
  {
    if items != [] {
      RunPanicIff(selections, items[1..], outDelimiter);
      assert forall i :: 1 <= i < |items| ==> items[i] == items[1..][i - 1];
    }
  }

  /** One step of a run: the first record either panics, writing nothing, or is rendered before the rest. */
  lemma RunStep(selections: seq<Selection>, items: seq<seq<seq<byte>>>, outDelimiter: seq<byte>)
    requires items != []
    ensures Project(selections, items[0]).Err? ==>
              Run(selections, items, outDelimiter) == Outcome([], Some(Project(selections, items[0]).error))
    ensures Project(selections, items[0]).Ok? ==>
              var rest := Run(selections, items[1..], outDelimiter);
              Run(selections, items, outDelimiter)
              == Outcome(Render(Project(selections, items[0]).value, outDelimiter) + rest.written, rest.panic)
  {
  }

  /**
   * When nothing panics and neither the records nor the output delimiter
   * hold a newline byte, a run writes exactly one line per record.
   */
  lemma {:induction false} OneLinePerRecord(selections: seq<Selection>, items: seq<seq<seq<byte>>>, outDelimiter: seq<byte>)
    requires Run(selections, items, outDelimiter).panic.None?
    requires NEWLINE !in outDelimiter
    requires forall i, j :: 0 <= i < |items| && 0 <= j < |items[i]| ==> NEWLINE !in items[i][j]
    ensures Count(NEWLINE, Run(selections, items, outDelimiter).written) == |items|
    decreases |items|
  {
    if items != [] {
      var elements := items[0];
      var output := Project(selections, elements).value;
      ProjectAtPositions(selections, elements);
      var ps := Positions(selections, |elements|);
      assert forall k :: 0 <= k < |output| ==> NEWLINE !in output[k] by {
        forall k | 0 <= k < |output|
          ensures NEWLINE !in output[k]
        {
          assert output[k] == elements[ps[k]];
        }
      }
      RenderOneNewline(output, outDelimiter);
      assert forall i, j :: 0 <= i < |items[1..]| && 0 <= j < |items[1..][i]| ==> NEWLINE !in items[1..][i][j] by {
        forall i, j | 0 <= i < |items[1..]| && 0 <= j < |items[1..][i]|
          ensures NEWLINE !in items[1..][i][j]
        {
          assert items[1..][i] == items[i + 1];
        }
      }
      OneLinePerRecord(selections, items[1..], outDelimiter);
      CountAppend(NEWLINE, Render(output, outDelimiter), Run(selections, items[1..], outDelimiter).written);
    }
  }

  /** A run over two blocks of records is the run over the first, then, if it did not panic, over the second. */
  lemma {:induction false} RunAppend(selections: seq<Selection>, a: seq<seq<seq<byte>>>, b: seq<seq<seq<byte>>>, outDelimiter: seq<byte>)
    ensures var ra := Run(selections, a, outDelimiter);
            var rb := Run(selections, b, outDelimiter);
            Run(selections, a + b, outDelimiter)
            == if ra.panic.Some? then ra else Outcome(ra.written + rb.written, rb.panic)
    decreases |a|
  {
    if a == [] {
      assert a + b == b;
    } else {
      assert (a + b)[0] == a[0];
      assert (a + b)[1..] == a[1..] + b;
      RunStep(selections, a, outDelimiter);
      RunStep(selections, a + b, outDelimiter);
      RunAppend(selections, a[1..], b, outDelimiter);
      var projected := Project(selections, a[0]);
      if projected.Ok? {
        var head := Render(projected.value, outDelimiter);
        var ra := Run(selections, a[1..], outDelimiter);
        var rb := Run(selections, b, outDelimiter);
        assert head + (ra.written + rb.written) == (head + ra.written) + rb.written;
      }
    }
  }

  /**
   * The body of `cuts`: tokenizes standard input and, for every record in
   * turn, projects it and writes it, stopping at the first panic.
   */
  method Cuts(config: Config, trim: string -> string, stdin: Stdin) returns (written: seq<byte>, panic: Option<Panic>)
    ensures Outcome(written, panic) == Run(config.selections, Items(config, trim, stdin), config.outDelimiter)
  {
    var items := Items(config, trim, stdin);
    written, panic := WriteRecords(config.selections, items, config.outDelimiter);
  }

  /** The loop of `cuts`: projects and writes each record in order, stopping at the first panic. */
  method WriteRecords(selections: seq<Selection>, items: seq<seq<seq<byte>>>, outDelimiter: seq<byte>)
    returns (written: seq<byte>, panic: Option<Panic>)
    ensures Outcome(written, panic) == Run(selections, items, outDelimiter)
  {
    written, panic := [], None;
    var i := 0;
    while i < |items|
      invariant 0 <= i <= |items|
      invariant var rest := Run(selections, items[i..], outDelimiter);
                Run(selections, items, outDelimiter) == Outcome(written + rest.written, rest.panic)
    {
      ghost var before := Run(selections, items[i..], outDelimiter);
      ghost var after := Run(selections, items[i + 1..], outDelimiter);
      RunStep(selections, items[i..], outDelimiter);
      assert items[i..][0] == items[i] && items[i..][1..] == items[i + 1..];
      var projected := Project(selections, items[i]);
      match projected
      case Err(p) =>
        panic := Some(p);
        assert before == Outcome([], panic);
        assert written + [] == written;
        return;
      case Ok(output) =>
        var line := WriteRecord(output, outDelimiter);
        assert before == Outcome(line + after.written, after.panic);
        assert written + (line + after.written) == (written + line) + after.written;
        written := written + line;
      i := i + 1;
    }
  }
}
