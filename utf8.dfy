/**
 * UTF-8 as defined in section 3 of RFC 3629: the encoding of one Unicode
 * scalar value (what `char::encode_utf8` writes), the encoding of a whole
 * string (what `String::into_bytes` yields), and a strict decoder that
 * rejects overlong forms, surrogates and values past U+10FFFF.
 */
module Utf8 {
  import opened Common

  /** A byte of the form 10xxxxxx. */
  predicate IsContinuation(b: byte) { 0x80 <= b < 0xC0 }

  /** The six payload bits of a continuation byte. */
  function Payload(b: byte): int { b as int - 0x80 }

  /** Number of bytes RFC 3629 uses for a scalar value, by its range. */
  function EncodedLength(c: char): (n: nat)
  {
    var cp := c as int;
    if cp < 0x80 then 1 else if cp < 0x800 then 2 else if cp < 0x10000 then 3 else 4
  }

  /**
   * The UTF-8 form of one scalar value: a lead byte whose high bits give the
   * length (0xxxxxxx, 110xxxxx, 1110xxxx or 11110xxx) followed by
   * continuation bytes carrying six bits each, most significant first.
   */
  function EncodeScalar(c: char): (r: seq<byte>)
    ensures |r| == EncodedLength(c)
    ensures |r| == 1 ==> r[0] < 0x80
    ensures |r| == 2 ==> 0xC2 <= r[0] < 0xE0
    ensures |r| == 3 ==> 0xE0 <= r[0] < 0xF0
    ensures |r| == 4 ==> 0xF0 <= r[0] < 0xF5
    ensures forall i :: 1 <= i < |r| ==> IsContinuation(r[i])
  {
    var cp := c as int;
    var low := cp % 64;
    var q1 := cp / 64;
    if cp < 0x80 then
      [cp]
    else if cp < 0x800 then
      [0xC0 + q1, 0x80 + low]
    else
      var mid := q1 % 64;
      var q2 := q1 / 64;
      if cp < 0x10000 then
        [0xE0 + q2, 0x80 + mid, 0x80 + low]
      else
        [0xF0 + q2 / 64, 0x80 + q2 % 64, 0x80 + mid, 0x80 + low]
  }

  /** The UTF-8 encoding of a whole string, scalar after scalar. */
  function EncodeString(s: string): (r: seq<byte>)
    ensures |s| <= |r| <= 4 * |s|
    decreases |s|
  {
    if s == [] then [] else EncodeScalar(s[0]) + EncodeString(s[1..])
  }

  /**
   * Decodes the scalar value at the front of `bs`, with the number of bytes
   * it occupies; `None` when the front is not a well-formed UTF-8 sequence.
   */
  function DecodeFirst(bs: seq<byte>): (r: Option<(char, nat)>)
    ensures r.Some? ==> 1 <= r.value.1 <= |bs| && r.value.1 <= 4
  {
    if bs == [] then None
    else
      var b0 := bs[0] as int;
      if b0 < 0x80 then
        Some((b0 as char, 1))
      else if 0xC2 <= b0 < 0xE0 then
        if |bs| < 2 || !IsContinuation(bs[1]) then None
        else Some((((b0 - 0xC0) * 64 + Payload(bs[1])) as char, 2))
      else if 0xE0 <= b0 < 0xF0 then
        if |bs| < 3 || !IsContinuation(bs[1]) || !IsContinuation(bs[2]) then None
        else
          var cp := ((b0 - 0xE0) * 64 + Payload(bs[1])) * 64 + Payload(bs[2]);
          if cp < 0x800 || 0xD800 <= cp < 0xE000 then None else Some((cp as char, 3))
      else if 0xF0 <= b0 < 0xF5 then
        if |bs| < 4 || !IsContinuation(bs[1]) || !IsContinuation(bs[2]) || !IsContinuation(bs[3]) then None
        else
          var cp := (((b0 - 0xF0) * 64 + Payload(bs[1])) * 64 + Payload(bs[2])) * 64 + Payload(bs[3]);
          if cp < 0x10000 || cp > 0x10FFFF then None else Some((cp as char, 4))
      else
        None
  }

  /** Decodes a whole byte sequence; `None` unless it is well-formed UTF-8. */
  function DecodeUtf8(bs: seq<byte>): Option<string>
    decreases |bs|
  {
    if bs == [] then Some([])
    else
      match DecodeFirst(bs)
      case None => None
      case Some((c, n)) =>
        match DecodeUtf8(bs[n..])
        case None => None
        case Some(s) => Some([c] + s)
  }

  /** The decoder reads back exactly the scalar value that was encoded, and nothing after it. */
  lemma EncodeDecodeScalar(c: char, rest: seq<byte>)
    ensures DecodeFirst(EncodeScalar(c) + rest) == Some((c, EncodedLength(c)))
  {
    var cp := c as int;
    var e := EncodeScalar(c);
    var bs := e + rest;
    assert bs[..|e|] == e;
    var low := cp % 64;
    var q1 := cp / 64;
    assert cp == q1 * 64 + low;
    if cp < 0x80 {
    } else if cp < 0x800 {
      assert bs[0] == 0xC0 + q1 && bs[1] == 0x80 + low;
    } else {
      var mid := q1 % 64;
      var q2 := q1 / 64;
      assert q1 == q2 * 64 + mid;
      if cp < 0x10000 {
        assert bs[0] == 0xE0 + q2 && bs[1] == 0x80 + mid && bs[2] == 0x80 + low;
        assert ((bs[0] as int - 0xE0) * 64 + Payload(bs[1])) * 64 + Payload(bs[2]) == cp;
      } else {
        var top := q2 / 64;
        assert q2 == top * 64 + q2 % 64;
        assert bs[0] == 0xF0 + top && bs[1] == 0x80 + q2 % 64;
        assert bs[2] == 0x80 + mid && bs[3] == 0x80 + low;
        assert (((bs[0] as int - 0xF0) * 64 + Payload(bs[1])) * 64 + Payload(bs[2])) * 64 + Payload(bs[3]) == cp;
      }
    }
  }

  /** One encoded scalar value decodes to the one-character string. */
  lemma EncodeDecodeOne(c: char)
    ensures DecodeUtf8(EncodeScalar(c)) == Some([c])
  {
    var e := EncodeScalar(c);
    EncodeDecodeScalar(c, []);
    assert e + [] == e;
    assert e[|e|..] == [];
    assert DecodeUtf8(e[|e|..]) == Some([]);
    assert [c] + [] == [c];
  }

  /** Decoding an encoded string gives the string back: the encoding is well-formed and unambiguous. */
  lemma {:induction false} EncodeDecodeString(s: string)
    ensures DecodeUtf8(EncodeString(s)) == Some(s)
    decreases |s|
  {
    if s != [] {
      var e := EncodeScalar(s[0]);
      var tail := EncodeString(s[1..]);
      EncodeDecodeScalar(s[0], tail);
      assert (e + tail)[|e|..] == tail;
      EncodeDecodeString(s[1..]);
      assert [s[0]] + s[1..] == s;
    }
  }

  /** Encoding distributes over concatenation of strings. */
  lemma {:induction false} EncodeStringAppend(a: string, b: string)
    ensures EncodeString(a + b) == EncodeString(a) + EncodeString(b)
    decreases |a|
  {
    if a == [] {
      assert a + b == b;
    } else {
      assert (a + b)[0] == a[0];
      assert (a + b)[1..] == a[1..] + b;
      EncodeStringAppend(a[1..], b);
    }
  }
}
