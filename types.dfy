/**
 * Spreadsheet values and the processed-row record (types.ts), together with the
 * two number conversions the calculator applies to cells: `parseFloat` of a
 * cell and the `toFixed(2)` rounding of an average.
 */
module Types {
  import opened Wrappers

  /** One cell of a sheet as the spreadsheet library hands it over: a number,
      a string, a boolean, or a hole (`undefined`) where the sheet has no value. */
  datatype Cell = Number(value: real) | Text(text: string) | Boolean(flag: bool) | Blank

  /** A row is positionally indexed from column 0; a table's first row is its header. */
  type Row = seq<Cell>
  type Table = seq<Row>

  /** A data row together with the best-of average computed for it. */
  datatype ProcessedRow = ProcessedRow(originalRow: Row, calculatedAvg: real)

  /** How `parseFloat` reads a string: `None` stands for `NaN`. The decimal
      grammar it accepts is not part of this model, so it is a parameter. */
  type TextParser = string -> Option<real>

  /** `parseFloat(cell)`: a number reads back as itself, a string goes through the
      text parser, and a boolean or a hole is `NaN`. */
  function ParseFloat(c: Cell, parseText: TextParser): (r: Option<real>)
    ensures c.Number? ==> r == Some(c.value)
    ensures (c.Boolean? || c.Blank?) ==> r == None
  {
    match c
    case Number(x) => Some(x)
    case Text(s) => parseText(s)
    case Boolean(_) => None
    case Blank => None
  }

  /** Magnitude from which `toFixed` falls back to the plain number-to-string conversion. */
  const FixedLimit: real := 1000000000000000000000.0

  /** `parseFloat(x.toFixed(2))` on exact reals: below 10^21 in magnitude the
      magnitude is rounded to the nearest hundredth, ties going to the larger
      magnitude, and the sign is put back; from 10^21 on the value is unchanged. */
  function Round2(x: real): (r: real)
    ensures -FixedLimit < x < FixedLimit ==> -1.0 / 200.0 <= r - x <= 1.0 / 200.0
    ensures x <= -FixedLimit || FixedLimit <= x ==> r == x
    ensures (x >= 0.0 ==> r >= 0.0) && (x <= 0.0 ==> r <= 0.0)
  {
    if x <= -FixedLimit || FixedLimit <= x then x
    else if x >= 0.0 then (x * 100.0 + 0.5).Floor as real / 100.0
    else -((-x * 100.0 + 0.5).Floor as real / 100.0)
  }

  /** `n` hundredths, with `n` the floor of `100 * x + 1/2`, lies within half a
      hundredth of `x`, ties going up. */
  lemma NearestHundredthUp(x: real, n: int)
    requires n == (x * 100.0 + 0.5).Floor
    ensures -1.0 / 200.0 < n as real / 100.0 - x <= 1.0 / 200.0
  {
  }

  lemma WholeHundredths(r: real, m: int)
    requires r == m as real / 100.0
    ensures (r * 100.0).Floor as real == r * 100.0
  {
    assert r * 100.0 == m as real;
  }

  /** Below 10^21 in magnitude the result is a whole number of hundredths, the
      nearest one to `x`; a tie goes away from zero (up for a positive `x`, down
      for a negative one, as `toFixed` rounds the magnitude). */
  lemma Round2Hundredths(x: real)
    requires -FixedLimit < x < FixedLimit
    ensures (Round2(x) * 100.0).Floor as real == Round2(x) * 100.0
    ensures x >= 0.0 ==> -1.0 / 200.0 < Round2(x) - x <= 1.0 / 200.0
    ensures x < 0.0 ==> -1.0 / 200.0 <= Round2(x) - x < 1.0 / 200.0
  {
    if x >= 0.0 {
      var n := (x * 100.0 + 0.5).Floor;
      assert Round2(x) == n as real / 100.0;
      NearestHundredthUp(x, n);
      WholeHundredths(Round2(x), n);
    } else {
      var n := (-x * 100.0 + 0.5).Floor;
      assert Round2(x) == (-n) as real / 100.0;
      NearestHundredthUp(-x, n);
      WholeHundredths(Round2(x), -n);
    }
  }

  /** A value that already has at most two decimals is left unchanged by the rounding. */
  lemma Round2Exact(m: int)
    ensures Round2(m as real / 100.0) == m as real / 100.0
  {
    var x := m as real / 100.0;
    if x <= -FixedLimit || FixedLimit <= x {
    } else if x >= 0.0 {
      assert x * 100.0 + 0.5 == m as real + 0.5;
      assert (x * 100.0 + 0.5).Floor == m;
    } else {
      assert -x * 100.0 + 0.5 == -m as real + 0.5;
      assert (-x * 100.0 + 0.5).Floor == -m;
    }
  }

  /** Rounding twice is the same as rounding once. */
  lemma Round2Idempotent(x: real)
    ensures Round2(Round2(x)) == Round2(x)
  {
    if x <= -FixedLimit || FixedLimit <= x {
    } else if x >= 0.0 {
      Round2Exact((x * 100.0 + 0.5).Floor);
    } else {
      var m := (-x * 100.0 + 0.5).Floor;
      assert Round2(x) == (-m) as real / 100.0;
      Round2Exact(-m);
    }
  }
}
