/**
 * The order table: cells as the sheet or the extractor hands them over, the four-column row,
 * and what a read of the sheet (`get_data`) turns them into.
 */
module Cells {
  import opened Strings

  /** The headers written whenever the app creates or clears the table. */
  const Columns: seq<string> := ["FullOrder", "FlagNumber", "TruckID", "Color"]

  /** 2^53: every whole number up to this size is a float, and `str()` prints it as digits followed by ".0". */
  const MaxExactWhole: int := 0x20_0000_0000_0000

  /** The whole numbers a float cell can hold exactly. */
  type ExactWhole = n: int | -MaxExactWhole <= n <= MaxExactWhole

  /** One cell value. A sheet column that holds numbers arrives as integers, or as floats when pandas widens it. */
  datatype Cell =
    | Text(text: string)
    | Integer(value: int)
    | WholeFloat(whole: ExactWhole)  // a float holding a whole number: 351.0

  /** A row as stored in the sheet or returned by the extractor, one cell per canonical column. */
  datatype Row = Row(fullOrder: Cell, flagNumber: Cell, truckId: Cell, color: Cell)

  /** A row as a read returns it: every cell turned into trimmed text. */
  datatype Record = Record(fullOrder: string, flagNumber: string, truckId: string, color: string)

  /** The result of a read: the column headers and the records in sheet order. */
  datatype Table = Table(columns: seq<string>, records: seq<Record>)

  predicate IsDigit(c: char) {
    '0' <= c <= '9'
  }

  /** The decimal digits of `n`, most significant first, without leading zeros. */
  function Digits(n: nat): (r: string)
    ensures r != [] && forall i :: 0 <= i < |r| ==> IsDigit(r[i])
  {
    if n < 10 then [('0' as int + n) as char]
    else Digits(n / 10) + [('0' as int + n % 10) as char]
  }

  /** Python's str() of an int. */
  function Decimal(n: int): (r: string)
    ensures r != [] && IsDigit(r[|r| - 1]) && IsTrimmed(r)
    ensures forall i :: 0 <= i < |r| ==> r[i] != '.'
  {
    if n < 0 then "-" + Digits(-n) else Digits(n)
  }

  /** The number a string of decimal digits denotes, most significant digit first. */
  function DigitsValue(s: string): nat {
    if s == [] then 0
    else 10 * DigitsValue(s[..|s| - 1]) + (if IsDigit(s[|s| - 1]) then s[|s| - 1] as int - '0' as int else 0)
  }

  /** Python's int() of what str() printed: an optional minus sign, then digits. */
  function ParseDecimal(s: string): int {
    if s != [] && s[0] == '-' then -(DigitsValue(s[1..]) as int) else DigitsValue(s)
  }

  /** Reading the digits back gives the number. */
  lemma {:induction false} DigitsRoundTrip(n: nat)
    ensures DigitsValue(Digits(n)) == n
  {
    if n >= 10 {
      var d := Digits(n);
      var front := Digits(n / 10);
      assert d == front + [('0' as int + n % 10) as char];
      assert d[..|d| - 1] == front;
      DigitsRoundTrip(n / 10);
    }
  }

  /** `str()` of an int loses nothing: parsing it back gives the int, so distinct ints print differently. */
  lemma DecimalRoundTrip(n: int)
    ensures ParseDecimal(Decimal(n)) == n
  {
    if n < 0 {
      assert Decimal(n)[1..] == Digits(-n);
      DigitsRoundTrip(-n);
    } else {
      assert IsDigit(Digits(n)[0]);
      DigitsRoundTrip(n);
    }
  }

  /** `astype(str)`: the text pandas shows for a cell. */
  function CellText(c: Cell): (r: string)
    ensures c.Integer? ==> ParseDecimal(r) == c.value && forall i :: 0 <= i < |r| ==> r[i] != '.'
    ensures c.WholeFloat? ==> EndsWith(r, ".0") && ParseDecimal(r[..|r| - 2]) == c.whole
    ensures c.WholeFloat? ==> forall i :: 0 <= i < |r| - 2 ==> r[i] != '.'
  {
    match c
    case Text(s) => s
    case Integer(n) => DecimalRoundTrip(n); Decimal(n)
    case WholeFloat(n) =>
      DecimalRoundTrip(n);
      var r := Decimal(n) + ".0";
      assert r[..|r| - 2] == Decimal(n) && r[|r| - 2..] == ".0";
      r
  }

  /**
   * `re.sub(r'\.0$', '', s)`. Python's `$` matches at the very end and also just before a
   * final newline, and the pattern can match at most once.
   */
  function DropFloatSuffix(s: string): (r: string)
    ensures EndsWith(s, ".0") ==> s == r + ".0"
    ensures !EndsWith(s, ".0") && EndsWith(s, ".0\n") ==> r != [] && r[|r| - 1] == '\n' && s == r[..|r| - 1] + ".0\n"
    ensures !EndsWith(s, ".0") && !EndsWith(s, ".0\n") ==> r == s
  {
    if EndsWith(s, ".0") then s[..|s| - 2]
    else if EndsWith(s, ".0\n") then s[..|s| - 3] + "\n"
    else s
  }

  /** The per-cell normalisation of a read: drop one float artifact, then strip. */
  function NormaliseText(s: string): (r: string)
    ensures IsTrimmed(r) && |r| <= |s|
  {
    Strip(DropFloatSuffix(s))
  }

  function NormaliseCell(c: Cell): (r: string)
    ensures IsTrimmed(r)
  {
    NormaliseText(CellText(c))
  }

  /** A read turns every cell of a row into normalised text. */
  function NormaliseRow(row: Row): (r: Record)
    ensures IsTrimmed(r.fullOrder) && IsTrimmed(r.flagNumber) && IsTrimmed(r.truckId) && IsTrimmed(r.color)
  {
    Record(NormaliseCell(row.fullOrder), NormaliseCell(row.flagNumber),
           NormaliseCell(row.truckId), NormaliseCell(row.color))
  }

  /**
   * `get_data`: an empty sheet reads as an empty table with the canonical headers, whatever
   * header (if any) the sheet holds; otherwise every cell is normalised, row order kept.
   */
  function ReadSheet(header: seq<string>, rows: seq<Row>): (t: Table)
    ensures |t.records| == |rows|
    ensures rows == [] ==> t == Table(Columns, [])
    ensures rows != [] ==> t.columns == header
    ensures forall i :: 0 <= i < |rows| ==> t.records[i] == NormaliseRow(rows[i])
  {
    if rows == [] then Table(Columns, [])
    else Table(header, seq(|rows|, i requires 0 <= i < |rows| => NormaliseRow(rows[i])))
  }

  /** A value ending in ".0" loses exactly that suffix and is then stripped. */
  lemma NormaliseDropsOneArtifact(s: string)
    ensures NormaliseText(s + ".0") == Strip(s)
  {
    assert (s + ".0")[..|s|] == s;
  }

  /** The same holds when the ".0" sits just before one final newline. */
  lemma NormaliseDropsArtifactBeforeNewline(s: string)
    ensures NormaliseText(s + ".0\n") == Strip(s)
  {
    var u := s + ".0\n";
    assert !EndsWith(u, ".0") by { assert u[|u| - 1] == '\n'; }
    assert u[|u| - 3..] == ".0\n";
    assert u[..|u| - 3] == s;
    StripTrailingSpace(s, '\n');
  }

  /** Without a float artifact, normalising is just stripping. */
  lemma NormaliseWithoutArtifact(s: string)
    requires !EndsWith(s, ".0") && !EndsWith(s, ".0\n")
    ensures NormaliseText(s) == Strip(s)
  {
  }

  /** Appending ".0" to trimmed text leaves it trimmed. */
  lemma TrimmedWithArtifact(s: string)
    requires IsTrimmed(s)
    ensures IsTrimmed(s + ".0")
  {
    var u := s + ".0";
    assert u[|u| - 1] == '0';
    if s != [] { assert u[0] == s[0]; } else { assert u[0] == '.'; }
  }

  /**
   * Only one artifact goes per read, so normalising is not idempotent: "1.0.0" reads as "1.0",
   * and reading that again gives "1".
   */
  lemma {:induction false} NormaliseNotIdempotent(s: string)
    requires IsTrimmed(s)
    ensures NormaliseText(s + ".0" + ".0") == s + ".0"
    ensures NormaliseText(NormaliseText(s + ".0" + ".0")) == s
    ensures NormaliseText(NormaliseText(s + ".0" + ".0")) != NormaliseText(s + ".0" + ".0")
  {
    TwoArtifactsLoseOne(s);
    NormaliseTrimmedArtifact(s);
    assert |s + ".0"| != |s|;
  }

  /** Of two trailing ".0" artifacts a read removes only the last. */
  lemma TwoArtifactsLoseOne(s: string)
    requires IsTrimmed(s)
    ensures NormaliseText(s + ".0" + ".0") == s + ".0"
  {
    NormaliseDropsOneArtifact(s + ".0");
    TrimmedWithArtifact(s);
    StripTrimmed(s + ".0");
  }

  /** Trimmed text with one artifact reads as the text. */
  lemma NormaliseTrimmedArtifact(s: string)
    requires IsTrimmed(s)
    ensures NormaliseText(s + ".0") == s
  {
    NormaliseDropsOneArtifact(s);
    StripTrimmed(s);
  }

  /** A numeric cell reads as the integer's decimal text, whether pandas stored it as int or as float. */
  lemma {:induction false} NumericCellsReadAsDecimal(n: int)
    ensures NormaliseCell(Integer(n)) == Decimal(n)
    ensures -MaxExactWhole <= n <= MaxExactWhole ==> NormaliseCell(WholeFloat(n)) == Decimal(n)
  {
    var d := Decimal(n);
    NoDotNoArtifact(d);
    NormaliseWithoutArtifact(d);
    StripTrimmed(d);
    NormaliseTrimmedArtifact(d);
  }

  /** Text without a "." holds no float artifact. */
  lemma NoDotNoArtifact(d: string)
    requires forall i :: 0 <= i < |d| ==> d[i] != '.'
    ensures !EndsWith(d, ".0") && !EndsWith(d, ".0\n")
  {
    if |d| >= 2 {
      assert d[|d| - 2..][0] == d[|d| - 2];
    }
    if |d| >= 3 {
      assert d[|d| - 3..][0] == d[|d| - 3];
    }
  }

  /** The digits of 351, kept apart so that the example below stays cheap to prove. */
  lemma DecimalOf351()
    ensures Decimal(351) == "351"
  {
    assert Digits(3) == ['3'];
    assert Digits(35) == Digits(3) + ['5'];
    assert Digits(351) == Digits(35) + ['1'];
  }

  /** The float cell 351.0 reads back as "351", the same text as the integer cell 351. */
  lemma FloatArtifactExample()
    ensures NormaliseCell(WholeFloat(351)) == "351"
    ensures NormaliseCell(Integer(351)) == "351"
  {
    NumericCellsReadAsDecimal(351);
    DecimalOf351();
  }
}
