/**
 * The `App` record and the name under which its package file is stored:
 * `'%010d.dat' % self.id`.
 */
module Apps {
  import opened Wrappers

  /** An uploaded application package; `id` is None until the row is flushed. */
  datatype App = App(id: Option<int>)

  /** `'%d' % None` raises `TypeError`. */
  datatype FormatError = IdNotSet

  const WIDTH: nat := 10
  const SUFFIX: string := ".dat"

  predicate IsDigit(c: char) {
    '0' <= c <= '9'
  }

  predicate AllDigits(s: string) {
    forall i :: 0 <= i < |s| ==> IsDigit(s[i])
  }

  function Pow10(k: nat): (p: nat)
    ensures p >= 1
  {
    if k == 0 then 1 else 10 * Pow10(k - 1)
  }

  /** The shortest decimal numeral of `n`. */
  function Decimal(n: nat): (s: string)
    ensures |s| >= 1 && AllDigits(s)
  {
    if n < 10 then [(48 + n) as char] else Decimal(n / 10) + [(48 + n % 10) as char]
  }

  /** The value of a numeral, read most significant digit first. */
  function NumeralValue(s: string): (n: nat)
    requires AllDigits(s)
  {
    if s == [] then 0 else 10 * NumeralValue(s[..|s| - 1]) + (s[|s| - 1] as int - 48)
  }

  function Zeros(k: nat): (s: string)
    ensures |s| == k && AllDigits(s)
  {
    if k == 0 then [] else Zeros(k - 1) + ['0']
  }

  /**
   * Python's `'%0*d' % (width, n)`: a '-' for a negative number, then zeros,
   * then the decimal numeral of |n|, so that the whole is at least `width`
   * characters (the sign counts towards the width).
   */
  function ZeroPadded(n: int, width: nat): string {
    var sign := if n < 0 then "-" else "";
    var digits := Decimal(if n < 0 then -n else n);
    var fill := if |sign| + |digits| < width then width - |sign| - |digits| else 0;
    sign + Zeros(fill) + digits
  }

  /** `App.path_format`. */
  function PathFormat(app: App): (r: Result<string, FormatError>)
    ensures r.Failure? <==> app.id.None?
    ensures r.Success? ==> |r.value| >= WIDTH + |SUFFIX| && r.value[|r.value| - |SUFFIX|..] == SUFFIX
  {
    match app.id
    case None => Failure(IdNotSet)
    case Some(n) => Success(ZeroPadded(n, WIDTH) + SUFFIX)
  }

  /**
   * Reads an id back from a stored file name: an optional '-', one or more
   * decimal digits, then ".dat".
   */
  function ParsePath(p: string): (r: Option<int>)
  {
    if |p| < |SUFFIX| || p[|p| - |SUFFIX|..] != SUFFIX then None else ParseNumber(p[..|p| - |SUFFIX|])
  }

  /** An optional '-' followed by one or more decimal digits. */
  function ParseNumber(s: string): (r: Option<int>)
  {
    if |s| > 1 && s[0] == '-' && AllDigits(s[1..]) then Some(0 - NumeralValue(s[1..]) as int)
    else if |s| > 0 && AllDigits(s) then Some(NumeralValue(s))
    else None
  }

  lemma ParsePathSuffix(body: string)
    ensures ParsePath(body + SUFFIX) == ParseNumber(body)
  {
    var p := body + SUFFIX;
    assert p[|p| - |SUFFIX|..] == SUFFIX;
    assert p[..|p| - |SUFFIX|] == body;
  }

  lemma {:induction false} NumeralValueDecimal(n: nat)
    ensures NumeralValue(Decimal(n)) == n
  {
    if n >= 10 {
      var s := Decimal(n);
      assert s[..|s| - 1] == Decimal(n / 10);
      NumeralValueDecimal(n / 10);
    }
  }

  lemma {:induction false} NumeralValueZeros(k: nat)
    ensures NumeralValue(Zeros(k)) == 0
  {
    if k > 0 {
      assert Zeros(k)[..k - 1] == Zeros(k - 1);
      NumeralValueZeros(k - 1);
    }
  }

  /** Leading zeros do not change the value of a numeral. */
  lemma {:induction false} NumeralValueLeadingZeros(k: nat, s: string)
    requires AllDigits(s)
    ensures AllDigits(Zeros(k) + s) && NumeralValue(Zeros(k) + s) == NumeralValue(s)
  {
    var t := Zeros(k) + s;
    assert AllDigits(t) by {
      forall i | 0 <= i < |t| ensures IsDigit(t[i]) {
        if i >= k { assert t[i] == s[i - k]; }
      }
    }
    if s == [] {
      assert t == Zeros(k);
      NumeralValueZeros(k);
    } else {
      var s' := s[..|s| - 1];
      assert t[..|t| - 1] == Zeros(k) + s';
      NumeralValueLeadingZeros(k, s');
    }
  }

  /** A zero-filled numeral of `n` is a numeral whose value is `n`. */
  lemma ZeroFilledNumeral(n: nat, fill: nat)
    ensures var numeral := Zeros(fill) + Decimal(n);
      |numeral| > 0 && AllDigits(numeral) && NumeralValue(numeral) == n
  {
    NumeralValueLeadingZeros(fill, Decimal(n));
    NumeralValueDecimal(n);
  }

  lemma ParseNumeral(numeral: string)
    requires |numeral| > 0 && AllDigits(numeral)
    ensures ParseNumber(numeral) == Some(NumeralValue(numeral))
    ensures ParseNumber("-" + numeral) == Some(0 - NumeralValue(numeral))
  {
    assert numeral[0] != '-' by { assert IsDigit(numeral[0]); }
    assert ("-" + numeral)[1..] == numeral;
  }

  /** Round trip: the stored file name gives back the id it was made from. */
  lemma PathFormatRoundTrip(app: App)
    requires app.id.Some?
    ensures PathFormat(app).Success? && ParsePath(PathFormat(app).value) == app.id
  {
    var n := app.id.value;
    var m: nat := if n < 0 then -n else n;
    var sign := if n < 0 then "-" else "";
    var digits := Decimal(m);
    var fill := if |sign| + |digits| < WIDTH then WIDTH - |sign| - |digits| else 0;
    var numeral := Zeros(fill) + digits;
    var body := ZeroPadded(n, WIDTH);
    assert body == sign + numeral;
    assert ParseNumber(body) == Some(n) by {
      ZeroFilledNumeral(m, fill);
      ParseNumeral(numeral);
      if n >= 0 {
        assert sign + numeral == numeral;
      }
    }
    assert PathFormat(app).value == body + SUFFIX;
    ParsePathSuffix(body);
  }

  /** A numeral of `n < 10^k` has at most `k` digits. */
  lemma {:induction false} DecimalLength(n: nat, k: nat)
    requires k >= 1 && n < Pow10(k)
    ensures |Decimal(n)| <= k
  {
    if n >= 10 {
      DecimalLength(n / 10, k - 1);
    }
  }

  /** Every id from 0 to 10^10 - 1 gives ten digits and ".dat": 14 characters. */
  lemma PathFormatFixedWidth(app: App)
    requires app.id.Some? && 0 <= app.id.value < 10_000_000_000
    ensures PathFormat(app).Success?
    ensures var p := PathFormat(app).value;
      |p| == 14 && AllDigits(p[..WIDTH]) && p[WIDTH..] == SUFFIX
  {
    var n := app.id.value;
    assert Pow10(WIDTH) == 10_000_000_000;
    DecimalLength(n, WIDTH);
    var digits := Decimal(n);
    var numeral := Zeros(WIDTH - |digits|) + digits;
    ZeroFilledNumeral(n, WIDTH - |digits|);
    assert ZeroPadded(n, WIDTH) == numeral;
    var p := numeral + SUFFIX;
    assert p[..WIDTH] == numeral && p[WIDTH..] == SUFFIX;
  }

  /**
   * For every id the file name is exactly as long as `'%010d'` makes it:
   * the sign and the digits of the magnitude, filled with zeros up to ten
   * characters and never beyond, followed by ".dat".
   */
  lemma PathFormatLength(app: App)
    requires app.id.Some?
    ensures PathFormat(app).Success?
    ensures var n := app.id.value;
      var unpadded := (if n < 0 then 1 else 0) + |Decimal(if n < 0 then -n else n)|;
      |PathFormat(app).value| == |SUFFIX| + (if unpadded < WIDTH then WIDTH else unpadded)
  {
    var n := app.id.value;
    var sign := if n < 0 then "-" else "";
    var digits := Decimal(if n < 0 then -n else n);
    var fill := if |sign| + |digits| < WIDTH then WIDTH - |sign| - |digits| else 0;
    assert ZeroPadded(n, WIDTH) == sign + Zeros(fill) + digits;
  }
}
