/**
 * The three tokenizers of the library crate, each turning input into
 * records, a record being its sequence of elements (each a byte string):
 * delimiter-separated fields of each line, the Unicode scalar values of each
 * line, or every byte of the whole input as one record.
 *
 * The delimiter is a compiled regular expression in the source; here it is
 * an arbitrary total function from a line to its fields. Likewise the
 * trimming of a line is a function parameter.
 */
module Tokenizers {
  import opened Common
  import opened Seqs
  import opened Utf8

  /** The lines handed to a line-based tokenizer: trimmed when `trimmed` is set. */
  function Lines(lines: seq<string>, trimmed: bool, trim: string -> string): (r: seq<string>)
    ensures |r| == |lines|
    ensures forall i :: 0 <= i < |lines| ==> r[i] == if trimmed then trim(lines[i]) else lines[i]
    ensures !trimmed ==> r == lines
  {
    seq(|lines|, i requires 0 <= i < |lines| => if trimmed then trim(lines[i]) else lines[i])
  }

  /** `record` holds one element per field, in order, each decoding to its field. */
  predicate RecordOf(record: seq<seq<byte>>, fields: seq<string>)
  {
    |record| == |fields| && forall j :: 0 <= j < |fields| ==> DecodeUtf8(record[j]) == Some(fields[j])
  }

  /**
   * The record for one line already split into `fields`: with
   * `onlyDelimited` set, a line that split into a single field (it contains
   * no delimiter) yields no record; otherwise every field becomes one
   * element, its UTF-8 bytes, in order.
   */
  function FieldRecord(fields: seq<string>, onlyDelimited: bool): (r: Option<seq<seq<byte>>>)
    ensures r.None? <==> onlyDelimited && |fields| == 1
    ensures r.Some? ==> RecordOf(r.value, fields)
  {
    if |fields| == 1 && onlyDelimited then None
    else
      var elements := seq(|fields|, i requires 0 <= i < |fields| => EncodeString(fields[i]));
      assert forall i :: 0 <= i < |fields| ==> DecodeUtf8(elements[i]) == Some(fields[i]) by {
        forall i | 0 <= i < |fields| {
          EncodeDecodeString(fields[i]);
        }
      }
      Some(elements)
  }

  /** The lines that field mode keeps with `onlyDelimited` set: those not split into a single field, in order. */
  function Delimited(lines: seq<string>, delimiter: string -> seq<string>): (r: seq<string>)
    ensures |r| <= |lines|
    ensures forall line :: line in r <==> line in lines && |delimiter(line)| != 1
    decreases |lines|
  {
    if lines == [] then []
    else if |delimiter(lines[0])| == 1 then Delimited(lines[1..], delimiter)
    else [lines[0]] + Delimited(lines[1..], delimiter)
  }

  /**
   * Field mode over a sequence of lines: one record per line, in order,
   * except the lines that `FieldRecord` drops; each record holds the line's
   * fields.
   */
  function FieldItems(lines: seq<string>, delimiter: string -> seq<string>, onlyDelimited: bool)
    : (r: seq<seq<seq<byte>>>)
    ensures |r| <= |lines|
    ensures !onlyDelimited ==> |r| == |lines|
    ensures !onlyDelimited ==> forall i :: 0 <= i < |lines| ==> RecordOf(r[i], delimiter(lines[i]))
    ensures onlyDelimited ==> forall i :: 0 <= i < |r| ==> |r[i]| != 1
    decreases |lines|
  {
    if lines == [] then []
    else FieldKept(delimiter(lines[0]), onlyDelimited) + FieldItems(lines[1..], delimiter, onlyDelimited)
  }

  /** The records one line contributes in field mode: none when the line is dropped, else its one record. */
  function FieldKept(fields: seq<string>, onlyDelimited: bool): (r: seq<seq<seq<byte>>>)
    ensures onlyDelimited && |fields| == 1 ==> r == []
    ensures !(onlyDelimited && |fields| == 1) ==> |r| == 1 && RecordOf(r[0], fields)
  {
    match FieldRecord(fields, onlyDelimited)
    case None => []
    case Some(record) => [record]
  }

  /** With `onlyDelimited` set, field mode is field mode over the lines that contain the delimiter. */
  lemma {:induction false} FieldItemsOnlyDelimited(lines: seq<string>, delimiter: string -> seq<string>)
    ensures FieldItems(lines, delimiter, true) == FieldItems(Delimited(lines, delimiter), delimiter, false)
    decreases |lines|
  {
    if lines != [] {
      FieldItemsOnlyDelimited(lines[1..], delimiter);
      var rest := Delimited(lines[1..], delimiter);
      if |delimiter(lines[0])| != 1 {
        var kept := [lines[0]] + rest;
        assert kept[0] == lines[0] && kept[1..] == rest;
      }
    }
  }

  /** With `onlyDelimited` set, record `i` holds the fields of the `i`-th line that `Delimited` keeps. */
  lemma FieldItemsKept(lines: seq<string>, delimiter: string -> seq<string>)
    ensures var r := FieldItems(lines, delimiter, true);
            var kept := Delimited(lines, delimiter);
            |r| == |kept| && forall i :: 0 <= i < |r| ==> RecordOf(r[i], delimiter(kept[i]))
  {
    FieldItemsOnlyDelimited(lines, delimiter);
  }

  /** Field mode keeps the order of lines: the records of two blocks of lines are those of each block. */
  lemma {:induction false} FieldItemsAppend(a: seq<string>, b: seq<string>, delimiter: string -> seq<string>, onlyDelimited: bool)
    ensures FieldItems(a + b, delimiter, onlyDelimited)
            == FieldItems(a, delimiter, onlyDelimited) + FieldItems(b, delimiter, onlyDelimited)
    decreases |a|
  {
    if a == [] {
      assert a + b == b;
    } else {
      var ab := a + b;
      assert ab[0] == a[0];
      assert ab[1..] == a[1..] + b;
      FieldItemsAppend(a[1..], b, delimiter, onlyDelimited);
      var here := FieldKept(delimiter(a[0]), onlyDelimited);
      var restA := FieldItems(a[1..], delimiter, onlyDelimited);
      var restB := FieldItems(b, delimiter, onlyDelimited);
      calc {
        FieldItems(ab, delimiter, onlyDelimited);
        here + FieldItems(a[1..] + b, delimiter, onlyDelimited);
        here + (restA + restB);
        (here + restA) + restB;
      }
    }
  }

  /** Character mode on one line: one element per scalar value, each its complete UTF-8 form. */
  function Chars(line: string): (r: seq<seq<byte>>)
    ensures |r| == |line|
    ensures forall i :: 0 <= i < |line| ==> 1 <= |r[i]| <= 4 && DecodeUtf8(r[i]) == Some([line[i]])
  {
    var elements := seq(|line|, i requires 0 <= i < |line| => EncodeScalar(line[i]));
    assert forall i :: 0 <= i < |line| ==> DecodeUtf8(elements[i]) == Some([line[i]]) by {
      forall i | 0 <= i < |line| {
        EncodeDecodeOne(line[i]);
      }
    }
    elements
  }

  /** The elements of a line in character mode concatenate to the line's UTF-8 bytes. */
  lemma {:induction false} CharsConcatenate(line: string)
    ensures Flatten(Chars(line)) == EncodeString(line)
    ensures DecodeUtf8(Flatten(Chars(line))) == Some(line)
    decreases |line|
  {
    if line != [] {
      CharsConcatenate(line[1..]);
      assert Chars(line)[1..] == Chars(line[1..]);
    }
    EncodeDecodeString(line);
  }

  /** Character mode over a sequence of lines: one record per line. */
  function CharItems(lines: seq<string>): (r: seq<seq<seq<byte>>>)
    ensures |r| == |lines|
    ensures forall i :: 0 <= i < |lines| ==> DecodeUtf8(Flatten(r[i])) == Some(lines[i])
  {
    var records := seq(|lines|, i requires 0 <= i < |lines| => Chars(lines[i]));
    assert forall i :: 0 <= i < |lines| ==> DecodeUtf8(Flatten(records[i])) == Some(lines[i]) by {
      forall i | 0 <= i < |lines| {
        CharsConcatenate(lines[i]);
      }
    }
    records
  }

  /** Byte mode: the whole input is one record holding one single-byte element per byte, in order. */
  function ByteItems(input: seq<byte>): (r: seq<seq<seq<byte>>>)
    ensures |r| == 1 && |r[0]| == |input|
    ensures forall i :: 0 <= i < |input| ==> r[0][i] == [input[i]]
    ensures Flatten(r[0]) == input
  {
    var record := seq(|input|, i requires 0 <= i < |input| => [input[i]]);
    FlattenSingletons(record, input);
    [record]
  }
}
