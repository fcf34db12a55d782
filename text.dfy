/** The strings the drafts build from numbers: a square's element id
    `row + ',' + col`, which the click handlers take apart again with
    `split(',')` and `parseInt`, and the decimal text a numbered square shows. */
module Text {

  predicate IsDigit(c: char)
  {
    '0' <= c <= '9'
  }

  predicate IsDigits(s: string)
  {
    forall k :: 0 <= k < |s| ==> IsDigit(s[k])
  }

  function Digit(d: nat): (c: char)
    requires d < 10
    ensures IsDigit(c)
  {
    (48 + d) as char
  }

  /** A natural number as JavaScript's `toString` writes it: base 10, no leading zeros. */
  function Decimal(n: nat): (s: string)
    ensures 1 <= |s| && IsDigits(s)
    ensures |s| > 1 ==> s[0] != '0'
    decreases n
  {
    if n < 10 then [Digit(n)] else Decimal(n / 10) + [Digit(n % 10)]
  }

  /** `parseInt` of a string of decimal digits. */
  function ParseDecimal(s: string): nat
    requires IsDigits(s)
  {
    if s == [] then 0
    else ParseDecimal(s[..|s| - 1]) * 10 + (s[|s| - 1] as int - 48)
  }

  /** Reading back the decimal text of a number gives the number. */
  lemma {:induction false} DecimalRoundTrip(n: nat)
    ensures ParseDecimal(Decimal(n)) == n
    decreases n
  {
    if n >= 10 {
      DecimalRoundTrip(n / 10);
      var s := Decimal(n);
      assert s[..|s| - 1] == Decimal(n / 10);
    }
  }

  /** The position of the first comma of `s`, or `|s|` when there is none. */
  function FirstComma(s: string): (k: nat)
    ensures k <= |s| && (k < |s| ==> s[k] == ',')
    ensures forall t :: 0 <= t < k ==> s[t] != ','
  {
    if s == [] || s[0] == ',' then 0 else 1 + FirstComma(s[1..])
  }

  /** The element id of the square in `row`, `col`: `row + ',' + col`. */
  function Id(row: nat, col: nat): string
  {
    Decimal(row) + "," + Decimal(col)
  }

  /** What a click handler recovers from an element id:
      `parseInt(id.split(',')[0])` and `parseInt(id.split(',')[1])`. */
  function ParseId(id: string): (nat, nat)
    requires FirstComma(id) < |id|
    requires IsDigits(id[..FirstComma(id)]) && IsDigits(id[FirstComma(id) + 1..])
  {
    var k := FirstComma(id);
    (ParseDecimal(id[..k]), ParseDecimal(id[k + 1..]))
  }

  /** An element id `row + ',' + col` of a square on a grid of `height` rows and
      `width` columns: two non-empty runs of digits around the first comma,
      naming a row and a column on the grid. */
  predicate IsSquareId(id: string, height: nat, width: nat)
  {
    var k := FirstComma(id);
    0 < k < |id| - 1 && IsDigits(id[..k]) && IsDigits(id[k + 1..])
    && ParseId(id).0 < height && ParseId(id).1 < width
  }

  /** An element id parses back to the row and column it was built from. */
  lemma {:induction false} IdRoundTrip(row: nat, col: nat)
    ensures FirstComma(Id(row, col)) == |Decimal(row)|
    ensures IsDigits(Id(row, col)[..|Decimal(row)|]) && IsDigits(Id(row, col)[|Decimal(row)| + 1..])
    ensures ParseId(Id(row, col)) == (row, col)
  {
    var a, b := Decimal(row), Decimal(col);
    var id := Id(row, col);
    CommaAfterDigits(a, b);
    assert id[..|a|] == a;
    assert id[|a| + 1..] == b;
    DecimalRoundTrip(row);
    DecimalRoundTrip(col);
  }

  lemma {:induction false} CommaAfterDigits(a: string, b: string)
    requires IsDigits(a)
    ensures FirstComma(a + "," + b) == |a|
  {
    if a != [] {
      assert (a + "," + b)[1..] == a[1..] + "," + b;
      CommaAfterDigits(a[1..], b);
    }
  }
}
