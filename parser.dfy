/**
 * The selection parser of the command-line program: a selection such as
 * `1,2,-2` or `..-1` becomes its ordered terms, or the error of the first
 * component that does not parse.
 */
module SelectionParser {
  import opened Common
  import opened Seqs
  import opened Selections

  /** The program's errors; `InvalidDelimiter` comes from compiling the delimiter pattern, not from this parser. */
  datatype CutsError =
    | NonIntegerSelection(text: string)
    | MalformedSelection(text: string)
    | InvalidDelimiter(text: string)

  /** The range of `isize` on a 64-bit target. */
  const ISIZE_MIN: int := -0x8000_0000_0000_0000
  const ISIZE_MAX: int := 0x7FFF_FFFF_FFFF_FFFF

  predicate IsDigit(c: char) { '0' <= c <= '9' }

  predicate AllDigits(s: string) { forall i :: 0 <= i < |s| ==> IsDigit(s[i]) }

  /** The value of a string of decimal digits, most significant first. */
  function DigitsValue(ds: string): nat
    requires AllDigits(ds)
    decreases |ds|
  {
    if ds == [] then 0 else DigitsValue(ds[..|ds| - 1]) * 10 + (ds[|ds| - 1] as int - '0' as int)
  }

  predicate InIsize(n: int) { ISIZE_MIN <= n <= ISIZE_MAX }

  /** The text after an optional leading `+` or `-`. */
  function Magnitude(s: string): string
  {
    if |s| > 0 && (s[0] == '+' || s[0] == '-') then s[1..] else s
  }

  /** Text in Rust's integer syntax: an optional sign followed by at least one ASCII digit. */
  predicate IntegerText(s: string)
  {
    Magnitude(s) != [] && AllDigits(Magnitude(s))
  }

  /** The integer that text in integer syntax denotes. */
  function SignedValue(s: string): int
    requires IntegerText(s)
  {
    if s[0] == '-' then -(DigitsValue(Magnitude(s)) as int) else DigitsValue(Magnitude(s))
  }

  /**
   * Rust's `isize` parsing: one optional `+` or `-`, then at least one ASCII
   * digit and nothing else, with a value that fits `isize`. Any failure is a
   * `NonIntegerSelection` carrying the text.
   */
  function ParseInt(s: string): (r: Result<int, CutsError>)
    ensures r.Ok? <==> IntegerText(s) && InIsize(SignedValue(s))
    ensures r.Ok? ==> r.value == SignedValue(s)
    ensures r.Err? ==> r.error == NonIntegerSelection(s)
    ensures r.Ok? ==> ISIZE_MIN <= r.value <= ISIZE_MAX
    ensures r.Ok? ==> |s| >= 1 && forall i :: 0 <= i < |s| ==> IsDigit(s[i]) || (i == 0 && s[i] in "+-")
    ensures r.Ok? ==> (r.value < 0 ==> s[0] == '-')
    ensures |s| >= 1 && AllDigits(s) ==> (r.Ok? <==> DigitsValue(s) <= ISIZE_MAX)
  {
    var negative := |s| > 0 && s[0] == '-';
    var digits := if |s| > 0 && (s[0] == '+' || s[0] == '-') then s[1..] else s;
    if digits == [] || !AllDigits(digits) then Err(NonIntegerSelection(s))
    else
      var magnitude := DigitsValue(digits);
      var value: int := if negative then -(magnitude as int) else magnitude;
      if ISIZE_MIN <= value <= ISIZE_MAX then Ok(value) else Err(NonIntegerSelection(s))
  }

  /** `k` zero digits. */
  function Zeros(k: nat): (z: string)
    ensures |z| == k && AllDigits(z)
  {
    seq(k, i requires 0 <= i < k => '0')
  }

  /** A leading zero digit does not change the value of a digit string. */
  lemma {:induction false} LeadingZeroValue(d: string)
    requires AllDigits(d)
    ensures AllDigits("0" + d) && DigitsValue("0" + d) == DigitsValue(d)
    decreases |d|
  {
    var x := "0" + d;
    assert AllDigits(x) by {
      assert forall i :: 1 <= i < |x| ==> x[i] == d[i - 1];
    }
    if d == [] {
      assert x[..0] == "";
    } else {
      var init := d[..|d| - 1];
      assert AllDigits(init);
      assert x[..|x| - 1] == "0" + init;
      assert x[|x| - 1] == d[|d| - 1];
      LeadingZeroValue(init);
    }
  }

  /** Any number of leading zeros does not change the value of a digit string. */
  lemma {:induction false} LeadingZerosValue(k: nat, d: string)
    requires AllDigits(d)
    ensures AllDigits(Zeros(k) + d) && DigitsValue(Zeros(k) + d) == DigitsValue(d)
    decreases k
  {
    assert AllDigits(Zeros(k) + d) by {
      assert forall i :: 0 <= i < |Zeros(k) + d| ==> (Zeros(k) + d)[i] == if i < k then '0' else d[i - k];
    }
    if k == 0 {
      assert Zeros(k) + d == d;
    } else {
      LeadingZerosValue(k - 1, d);
      assert Zeros(k) + d == "0" + (Zeros(k - 1) + d);
      LeadingZeroValue(Zeros(k - 1) + d);
    }
  }

  /** Unsigned digit text parses to its value when that fits `isize`. */
  lemma ParseDigits(d: string)
    requires d != [] && AllDigits(d) && DigitsValue(d) <= ISIZE_MAX
    ensures ParseInt(d) == Ok(DigitsValue(d))
    ensures ParseInt("+" + d) == Ok(DigitsValue(d))
    ensures ParseInt("-" + d) == Ok(-(DigitsValue(d) as int))
  {
    assert Magnitude(d) == d by { assert IsDigit(d[0]); }
    assert Magnitude("+" + d) == d;
    assert Magnitude("-" + d) == d;
  }

  /** Leading zeros are accepted and ignored, after an optional sign too: `007`, `+007` and `-007`. */
  lemma ParseLeadingZeros(k: nat, n: nat)
    requires n <= ISIZE_MAX
    ensures ParseInt(Zeros(k) + FormatNat(n)) == Ok(n)
    ensures ParseInt("+" + (Zeros(k) + FormatNat(n))) == Ok(n)
    ensures ParseInt("-" + (Zeros(k) + FormatNat(n))) == Ok(-(n as int))
  {
    LeadingZerosValue(k, FormatNat(n));
    ParseDigits(Zeros(k) + FormatNat(n));
  }

  /** `-0` is zero. */
  lemma NegativeZero()
    ensures ParseInt("-0") == Ok(0)
  {
    assert Magnitude("-0") == "0";
    assert "0"[..0] == "";
  }

  /** A sign alone, or nothing at all, is not an integer. */
  lemma SignWithoutDigits()
    ensures ParseInt("") == Err(NonIntegerSelection(""))
    ensures ParseInt("+") == Err(NonIntegerSelection("+"))
    ensures ParseInt("-") == Err(NonIntegerSelection("-"))
  {
    assert Magnitude("+") == [] && Magnitude("-") == [];
  }

  /** A range bound: empty text is an omitted bound, anything else must parse as an integer. */
  function ParseRangeBound(s: string): (r: Result<Option<int>, CutsError>)
    ensures r == Ok(None) <==> s == []
    ensures s != [] ==> (r.Ok? <==> ParseInt(s).Ok?)
    ensures s != [] && r.Ok? ==> r.value == Some(ParseInt(s).value)
    ensures r.Err? ==> r.error == NonIntegerSelection(s)
  {
    if s == [] then Ok(None)
    else
      match ParseInt(s)
      case Err(e) => Err(e)
      case Ok(n) => Ok(Some(n))
  }

  /**
   * One component, split on `..`: one part is a single index, two parts are
   * a range (start bound checked first), more parts are malformed.
   */
  function ParseSelection(selection: string): (r: Result<Selection, CutsError>)
    ensures r.Err? ==> r.error.NonIntegerSelection? || r.error == MalformedSelection(selection)
  {
    var parts := SplitOn(selection, "..");
    if |parts| == 1 then
      match ParseInt(parts[0])
      case Err(e) => Err(e)
      case Ok(n) => Ok(Single(n))
    else if |parts| == 2 then
      match ParseRangeBound(parts[0])
      case Err(e) => Err(e)
      case Ok(start) =>
        match ParseRangeBound(parts[1])
        case Err(e) => Err(e)
        case Ok(end) => Ok(Range(start, end))
    else
      Err(MalformedSelection(selection))
  }

  /**
   * The three shapes of a component: without `..` it is a single index;
   * with one `..` it is `start..end` and a range of both bounds, the start's
   * error reported first; with more it is malformed, and only then.
   */
  lemma ParseSelectionCases(selection: string)
    ensures var r := ParseSelection(selection);
      && (!Contains(selection, "..") ==>
        && (r.Ok? <==> ParseInt(selection).Ok?)
        && (r.Ok? ==> r.value == Single(ParseInt(selection).value))
        && (r.Err? ==> r.error == NonIntegerSelection(selection)))
    ensures var r := ParseSelection(selection);
      |SplitOn(selection, "..")| == 2 ==>
      var start, end := SplitOn(selection, "..")[0], SplitOn(selection, "..")[1];
      && selection == start + ".." + end
      && (r.Ok? <==> ParseRangeBound(start).Ok? && ParseRangeBound(end).Ok?)
      && (r.Ok? ==> r.value == Range(ParseRangeBound(start).value, ParseRangeBound(end).value))
      && (r.Err? ==> r.error == NonIntegerSelection(if ParseRangeBound(start).Err? then start else end))
    ensures |SplitOn(selection, "..")| >= 3 <==> ParseSelection(selection) == Err(MalformedSelection(selection))
  {
    var parts := SplitOn(selection, "..");
    SplitSingleIff(selection, "..");
    JoinSplit(selection, "..");
    if |parts| == 2 {
      assert Join(parts, "..") == parts[0] + ".." + parts[1] by {
        assert parts[1..] == [parts[1]];
      }
    }
  }

  /**
   * Collecting results in order, as `collect` into a `Result` does: all the
   * values when every result is `Ok`, otherwise the first error.
   */
  function Collect<T, E>(results: seq<Result<T, E>>): (r: Result<seq<T>, E>)
    ensures r.Ok? <==> forall i :: 0 <= i < |results| ==> results[i].Ok?
    ensures r.Ok? ==> |r.value| == |results|
    ensures r.Ok? ==> forall i :: 0 <= i < |results| ==> results[i] == Ok(r.value[i])
    ensures r.Err? ==> exists k :: 0 <= k < |results| && FirstError(results, k) && results[k] == Err(r.error)
    decreases |results|
  {
    if results == [] then Ok([])
    else
      match results[0]
      case Err(e) =>
        assert FirstError(results, 0);
        Err(e)
      case Ok(v) =>
        var tail := results[1..];
        match Collect(tail)
        case Err(e) =>
          assert exists k :: 0 <= k < |results| && FirstError(results, k) && results[k] == Err(e) by {
            var k :| 0 <= k < |tail| && FirstError(tail, k) && tail[k] == Err(e);
            assert FirstError(results, k + 1);
          }
          Err(e)
        case Ok(vs) =>
          var all := [v] + vs;
          assert forall i :: 0 <= i < |vs| ==> all[i + 1] == vs[i];
          Ok(all)
  }

  /** Result `k` is the first error. */
  predicate FirstError<T, E>(results: seq<Result<T, E>>, k: nat)
    requires k < |results|
  {
    results[k].Err? && forall i :: 0 <= i < k ==> results[i].Ok?
  }

  /** Results that are each `Ok` of the matching value collect to exactly those values. */
  lemma CollectAll<T, E>(results: seq<Result<T, E>>, vs: seq<T>)
    requires |results| == |vs|
    requires forall i :: 0 <= i < |vs| ==> results[i] == Ok(vs[i])
    ensures Collect(results) == Ok(vs)
  {
    var r := Collect(results);
    assert r.Ok?;
    assert forall i :: 0 <= i < |vs| ==> r.value[i] == vs[i] by {
      forall i | 0 <= i < |vs|
        ensures r.value[i] == vs[i]
      {
        assert results[i] == Ok(r.value[i]);
      }
    }
    assert r.value == vs;
  }

  /** Component `k` is the first that fails to parse. */
  predicate FirstFailure(components: seq<string>, k: nat)
    requires k < |components|
  {
    && ParseSelection(components[k]).Err?
    && forall i :: 0 <= i < k ==> ParseSelection(components[i]).Ok?
  }

  /** The result of parsing each component, in order. */
  function ParseEach(components: seq<string>): (rs: seq<Result<Selection, CutsError>>)
    ensures |rs| == |components|
    ensures forall i :: 0 <= i < |components| ==> rs[i] == ParseSelection(components[i])
  {
    seq(|components|, i requires 0 <= i < |components| => ParseSelection(components[i]))
  }

  /**
   * Parses a whole selection: one term per `,`-separated component, term `i`
   * from component `i`, or the error of the first component that fails.
   */
  function ParseSelections(selections: string): (r: Result<seq<Selection>, CutsError>)
    ensures r.Ok? <==> forall i :: 0 <= i < |SplitOn(selections, ",")| ==> ParseSelection(SplitOn(selections, ",")[i]).Ok?
    ensures r.Ok? ==> |r.value| == |SplitOn(selections, ",")| == Count(',', selections) + 1
    ensures r.Ok? ==> forall i :: 0 <= i < |r.value| ==> ParseSelection(SplitOn(selections, ",")[i]) == Ok(r.value[i])
    ensures r.Err? ==> exists k :: 0 <= k < |SplitOn(selections, ",")| && FirstFailure(SplitOn(selections, ","), k)
                               && ParseSelection(SplitOn(selections, ",")[k]) == Err(r.error)
  {
    var parts := SplitOn(selections, ",");
    SplitCount(selections, ',');
    var results := ParseEach(parts);
    var r := Collect(results);
    assert r.Err? ==> exists k :: 0 <= k < |parts| && FirstFailure(parts, k) && ParseSelection(parts[k]) == Err(r.error) by {
      if r.Err? {
        var k :| 0 <= k < |results| && FirstError(results, k) && results[k] == Err(r.error);
        assert FirstFailure(parts, k);
      }
    }
    r
  }

  // ---------------------------------------------------------------------------
  // Printing terms back as text, the inverse of parsing.

  function DigitChar(d: nat): (c: char)
    requires d < 10
    ensures IsDigit(c) && c as int - '0' as int == d
  {
    ('0' as int + d) as char
  }

  /** The shortest decimal digits of `n`. */
  function FormatNat(n: nat): (s: string)
    ensures |s| >= 1 && AllDigits(s) && DigitsValue(s) == n
    decreases n
  {
    if n < 10 then [DigitChar(n)]
    else
      var s := FormatNat(n / 10) + [DigitChar(n % 10)];
      assert s[..|s| - 1] == FormatNat(n / 10);
      s
  }

  /** An integer as decimal text, with a leading `-` when negative. */
  function FormatInt(n: int): string
  {
    if n < 0 then "-" + FormatNat(-n) else FormatNat(n)
  }

  function FormatBound(b: Option<int>): string
  {
    match b
    case None => ""
    case Some(n) => FormatInt(n)
  }

  function FormatSelection(t: Selection): string
  {
    match t
    case Single(n) => FormatInt(n)
    case Range(start, end) => FormatBound(start) + ".." + FormatBound(end)
  }

  function FormatSelections(ts: seq<Selection>): string
  {
    Join(seq(|ts|, i requires 0 <= i < |ts| => FormatSelection(ts[i])), ",")
  }

  /** The values a term carries all fit `isize`. */
  predicate Representable(t: Selection)
  {
    match t
    case Single(n) => InIsize(n)
    case Range(start, end) =>
      (start.None? || InIsize(start.value)) && (end.None? || InIsize(end.value))
  }

  lemma FormatIntChars(n: int)
    ensures FormatInt(n) != []
    ensures '.' !in FormatInt(n) && ',' !in FormatInt(n)
  {
    var s := FormatInt(n);
    var m := if n < 0 then -n else n;
    assert AllDigits(FormatNat(m));
    if n < 0 {
      assert forall i :: 1 <= i < |s| ==> s[i] == FormatNat(m)[i - 1];
    }
  }

  /** Every representable integer, printed in decimal, parses back to itself. */
  lemma ParseFormatInt(n: int)
    requires InIsize(n)
    ensures ParseInt(FormatInt(n)) == Ok(n)
  {
    var s := FormatInt(n);
    if n < 0 {
      assert s[1..] == FormatNat(-n);
    } else {
      assert IsDigit(FormatNat(n)[0]);
    }
  }

  /** A leading `+` is accepted. */
  lemma ParsePlus(n: nat)
    requires n <= ISIZE_MAX
    ensures ParseInt("+" + FormatNat(n)) == Ok(n)
  {
    var s := "+" + FormatNat(n);
    assert s[0] == '+';
    assert s[1..] == FormatNat(n);
  }

  /** A magnitude past the largest `isize` is an error. */
  lemma ParseOverflow(n: nat)
    requires n > ISIZE_MAX
    ensures ParseInt(FormatNat(n)) == Err(NonIntegerSelection(FormatNat(n)))
  {
  }

  /** A negative value below the smallest `isize` is an error. */
  lemma ParseNegativeOverflow(n: nat)
    requires n > -ISIZE_MIN
    ensures ParseInt("-" + FormatNat(n)) == Err(NonIntegerSelection("-" + FormatNat(n)))
  {
    var s := "-" + FormatNat(n);
    assert s[0] == '-';
    assert s[1..] == FormatNat(n);
  }

  lemma ParseFormatBound(b: Option<int>)
    requires b.None? || InIsize(b.value)
    ensures ParseRangeBound(FormatBound(b)) == Ok(b)
  {
    if b.Some? {
      ParseFormatInt(b.value);
      FormatIntChars(b.value);
    }
  }

  lemma FormatSelectionChars(t: Selection)
    ensures ',' !in FormatSelection(t)
  {
    match t
    case Single(n) => FormatIntChars(n);
    case Range(start, end) =>
      if start.Some? { FormatIntChars(start.value); }
      if end.Some? { FormatIntChars(end.value); }
  }

  /** Every representable term, printed, parses back to itself. */
  lemma ParseFormatSelection(t: Selection)
    requires Representable(t)
    ensures ParseSelection(FormatSelection(t)) == Ok(t)
  {
    match t
    case Single(n) =>
      FormatIntChars(n);
      NotContains(FormatInt(n), "..");
      ParseSelectionCases(FormatInt(n));
      ParseFormatInt(n);
    case Range(start, end) =>
      var a, b := FormatBound(start), FormatBound(end);
      if start.Some? { FormatIntChars(start.value); }
      if end.Some? { FormatIntChars(end.value); }
      assert Join([a, b], "..") == a + ".." + b by {
        assert [a, b][1..] == [b];
      }
      SplitJoin([a, b], "..");
      ParseSelectionCases(a + ".." + b);
      ParseFormatBound(start);
      ParseFormatBound(end);
  }

  /** Every non-empty list of representable terms, printed comma-separated, parses back to itself. */
  lemma ParseFormatSelections(ts: seq<Selection>)
    requires |ts| >= 1
    requires forall i :: 0 <= i < |ts| ==> Representable(ts[i])
    ensures ParseSelections(FormatSelections(ts)) == Ok(ts)
  {
    var texts := seq(|ts|, i requires 0 <= i < |ts| => FormatSelection(ts[i]));
    forall i | 0 <= i < |ts|
      ensures ',' !in texts[i] && ParseSelection(texts[i]) == Ok(ts[i])
    {
      FormatSelectionChars(ts[i]);
      ParseFormatSelection(ts[i]);
    }
    SplitJoin(texts, ",");
    CollectAll(ParseEach(texts), ts);
  }

  // ---------------------------------------------------------------------------
  // Error cases and worked examples.

  /** An empty selection fails on its empty component: the one-part path parses an integer. */
  lemma EmptySelection()
    ensures ParseSelections("") == Err(NonIntegerSelection(""))
  {
    assert SplitOn("", ",") == [""];
  }

  /** A trailing comma adds an empty last component, which fails as a non-integer. */
  lemma TrailingComma(selections: string)
    requires ParseSelections(selections).Ok?
    ensures ParseSelections(selections + ",") == Err(NonIntegerSelection(""))
  {
    var parts := SplitOn(selections, ",");
    SplitTrailing(selections, ',');
    var all := SplitOn(selections + ",", ",");
    assert all == parts + [""];
    assert ParseSelection("") == Err(NonIntegerSelection("")) by {
      NotContains("", "..");
    }
    var r := ParseSelections(selections + ",");
    assert !r.Ok? by {
      assert all[|all| - 1] == "";
    }
    var k :| 0 <= k < |all| && FirstFailure(all, k) && ParseSelection(all[k]) == Err(r.error);
    assert forall i :: 0 <= i < |parts| ==> all[i] == parts[i];
    assert k == |parts|;
  }

  /** `..` alone selects everything: both bounds omitted. */
  lemma OpenRange()
    ensures ParseSelection("..") == Ok(Range(None, None))
  {
    assert Join(["", ""], "..") == "..";
    SplitJoin(["", ""], "..");
  }

  /** `1...2` splits as `1` and `.2` (leftmost match first), and `.2` is not an integer. */
  lemma ThreeDots()
    ensures ParseSelection("1...2") == Err(NonIntegerSelection(".2"))
  {
    var s := "1...2";
    var t3, t4 := s[3..], s[4..];
    assert t4 == "2" && t3 == ".2";
    assert SplitOn(t4, "..") == [t4];
    assert t3[..2] != ".." by { assert t3[..2][1] == '2'; }
    assert t3[1..] == t4;
    assert SplitOn(t3, "..") == [[t3[0]] + t4];
    assert [t3[0]] + t4 == t3;
    assert s[1..][..2] == ".." && s[1..][2..] == t3;
    assert SplitOn(s[1..], "..") == [""] + [t3];
    assert s[..2] != ".." by { assert s[..2][0] == '1'; }
    assert SplitOn(s, "..") == [[s[0]] + ""] + [t3];
    assert [s[0]] + "" == "1";
    assert ParseInt("1") == Ok(1) by {
      assert "1"[..0] == "";
    }
    assert !AllDigits(t3) by {
      assert t3[0] == '.';
    }
  }

  /** `1.5..2` is cut at its only `..`, and the bound `1.5` is not an integer. */
  lemma FractionalBound()
    ensures ParseSelection("1.5..2") == Err(NonIntegerSelection("1.5"))
  {
    SplitFractional();
    assert !AllDigits("1.5") by { assert "1.5"[1] == '.'; }
  }

  /** The only cut in `1.5..2` is at its `..`: a single `.` does not start a cut. */
  lemma SplitFractional()
    ensures SplitOn("1.5..2", "..") == ["1.5", "2"]
  {
    var s := "1.5..2";
    var t1, t2, t3, t5 := s[1..], s[2..], s[3..], s[5..];
    assert t5 == "2" && SplitOn(t5, "..") == [t5];
    assert t3[..2] == ".." && t3[2..] == t5;
    assert SplitOn(t3, "..") == ["", "2"];
    assert t2[..2] != ".." by { assert t2[..2][0] == '5'; }
    assert t2[1..] == t3 && [t2[0]] + "" == "5";
    assert SplitOn(t2, "..") == ["5", "2"];
    assert t1[..2] != ".." by { assert t1[..2][1] == '5'; }
    assert t1[1..] == t2 && [t1[0]] + "5" == ".5";
    assert SplitOn(t1, "..") == [".5", "2"];
    assert s[..2] != ".." by { assert s[..2][0] == '1'; }
    assert s[1..] == t1 && [s[0]] + ".5" == "1.5";
  }

  /** `...` is `..` followed by the end bound `.`, which is not an integer. */
  lemma DotsOnly()
    ensures ParseSelection("...") == Err(NonIntegerSelection("."))
  {
    var s := "...";
    assert s[..2] == ".." && s[2..] == ".";
    assert SplitOn(".", "..") == ["."];
    assert SplitOn(s, "..") == ["", "."];
    assert !AllDigits(".") by { assert "."[0] == '.'; }
  }

  /** `1...` is `1`, then `..`, then the end bound `.`, which is not an integer. */
  lemma TrailingDot()
    ensures ParseSelection("1...") == Err(NonIntegerSelection("."))
  {
    var s := "1...";
    var t := s[1..];
    assert t == "..." && t[..2] == ".." && t[2..] == ".";
    assert SplitOn(".", "..") == ["."];
    assert SplitOn(t, "..") == ["", "."];
    assert s[..2] != ".." by { assert s[..2][0] == '1'; }
    assert [s[0]] + "" == "1";
    assert SplitOn(s, "..") == ["1", "."];
    assert ParseInt("1") == Ok(1) by {
      assert "1"[..0] == "";
    }
    assert !AllDigits(".") by { assert "."[0] == '.'; }
  }

  /** A component with two `..` is malformed and the error carries the whole component. */
  lemma TwoRanges()
    ensures ParseSelection("1..2..3") == Err(MalformedSelection("1..2..3"))
  {
    var parts := ["1", "2", "3"];
    assert Join(parts, "..") == "1..2..3" by {
      assert parts[1..] == ["2", "3"];
      assert parts[1..][1..] == ["3"];
    }
    SplitJoin(parts, "..");
  }
}
