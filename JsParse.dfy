/** JavaScript's `parseInt(text, 10)`, as the time-jar component uses it to read
    the minutes typed into its input field.  `NaN` is `None`; every other
    outcome is the integer read.  Only decimal text is modelled. */
module JsParse {

  datatype Option<T> = None | Some(value: T)

  /** The characters `parseInt` skips before the number: ECMAScript's
      WhiteSpace and LineTerminator code points. */
  predicate IsJsSpace(c: char)
  {
    var n := c as int;
    n == 0x09 || n == 0x0A || n == 0x0B || n == 0x0C || n == 0x0D || n == 0x20 ||
    n == 0xA0 || n == 0x1680 || (0x2000 <= n <= 0x200A) || n == 0x2028 ||
    n == 0x2029 || n == 0x202F || n == 0x205F || n == 0x3000 || n == 0xFEFF
  }

  predicate IsDigit(c: char)
  {
    '0' <= c <= '9'
  }

  predicate AllDigits(s: string)
  {
    forall i :: 0 <= i < |s| ==> IsDigit(s[i])
  }

  /** The text with its leading white space removed. */
  function TrimStart(s: string): (r: string)
    ensures |r| <= |s| && r == s[|s| - |r|..]
    ensures r == [] || !IsJsSpace(r[0])
    ensures forall i :: 0 <= i < |s| - |r| ==> IsJsSpace(s[i])
  {
    if s != [] && IsJsSpace(s[0]) then TrimStart(s[1..]) else s
  }

  /** The longest prefix of `s` made of decimal digits. */
  function DigitRun(s: string): (r: string)
    ensures |r| <= |s| && r == s[..|r|]
    ensures AllDigits(r)
    ensures |r| == |s| || !IsDigit(s[|r|])
  {
    if s != [] && IsDigit(s[0]) then [s[0]] + DigitRun(s[1..]) else []
  }

  function DigitValue(c: char): (d: nat)
    requires IsDigit(c)
    ensures d < 10
  {
    c as int - '0' as int
  }

  /** The number a run of decimal digits denotes, most significant first. */
  function DigitsValue(ds: string): (n: nat)
    requires AllDigits(ds)
  {
    if ds == [] then 0 else 10 * DigitsValue(ds[..|ds| - 1]) + DigitValue(ds[|ds| - 1])
  }

  /** `parseInt(s, 10)`: skip white space, read an optional sign, then the
      longest run of digits; anything after that run is ignored, and no digit
      at all gives `NaN`. */
  function ParseInt(s: string): (r: Option<int>)
    ensures r.None? <==> DigitRun(Unsigned(TrimStart(s))) == []
  {
    var t := TrimStart(s);
    var ds := DigitRun(Unsigned(t));
    if ds == [] then None
    else
      var v: int := DigitsValue(ds);
      Some(if t[0] == '-' then -v else v)
  }

  /** What follows an optional leading sign. */
  function Unsigned(t: string): (r: string)
    ensures r == t || (t != [] && (t[0] == '-' || t[0] == '+') && r == t[1..])
  {
    if t != [] && (t[0] == '-' || t[0] == '+') then t[1..] else t
  }

  /** The decimal text of a natural number, as a number input holds it. */
  function Decimal(n: nat): (r: string)
    ensures r != [] && AllDigits(r)
  {
    if n < 10 then [DigitChar(n)] else Decimal(n / 10) + [DigitChar(n % 10)]
  }

  function DigitChar(d: nat): (c: char)
    requires d < 10
    ensures IsDigit(c) && DigitValue(c) == d
  {
    ('0' as int + d) as char
  }

  lemma {:induction false} DecimalValue(n: nat)
    ensures DigitsValue(Decimal(n)) == n
  {
    if n >= 10 {
      DecimalValue(n / 10);
      var ds := Decimal(n);
      assert ds[..|ds| - 1] == Decimal(n / 10);
    }
  }

  lemma {:induction false} DigitRunStopsAtNonDigit(ds: string, rest: string)
    requires AllDigits(ds)
    requires rest == [] || !IsDigit(rest[0])
    ensures DigitRun(ds + rest) == ds
  {
    if ds != [] {
      assert (ds + rest)[1..] == ds[1..] + rest;
      DigitRunStopsAtNonDigit(ds[1..], rest);
    }
  }

  /** Text that starts with a digit has nothing to trim and no sign. */
  lemma StartsWithDigit(s: string)
    requires s != [] && IsDigit(s[0])
    ensures TrimStart(s) == s && Unsigned(s) == s
  {
    assert !IsJsSpace(s[0]);
  }

  /** A run of digits, followed by anything that is not a digit, reads as the
      number the run denotes. */
  lemma ParseDigits(ds: string, rest: string)
    requires ds != [] && AllDigits(ds)
    requires rest == [] || !IsDigit(rest[0])
    ensures ParseInt(ds + rest) == Some(DigitsValue(ds))
  {
    var s := ds + rest;
    assert s[0] == ds[0];
    StartsWithDigit(s);
    DigitRunStopsAtNonDigit(ds, rest);
  }

  /** Reading back the decimal text of `n` gives `n`, whatever non-digit text
      follows it (`parseInt("12abc", 10)` is 12). */
  lemma ParseDecimal(n: nat, rest: string)
    requires rest == [] || !IsDigit(rest[0])
    ensures ParseInt(Decimal(n) + rest) == Some(n)
  {
    ParseDigits(Decimal(n), rest);
    DecimalValue(n);
  }

  /** Text that starts with a minus sign has nothing to trim, and the sign is
      dropped before the digits are read. */
  lemma StartsWithMinus(s: string)
    requires s != [] && s[0] == '-'
    ensures TrimStart(s) == s && Unsigned(s) == s[1..]
  {
    assert !IsJsSpace(s[0]);
  }

  /** A minus sign put in front of text that starts with a digit negates
      the number that text reads as. */
  lemma ParseNegates(t: string)
    requires t != [] && IsDigit(t[0])
    ensures ParseInt(t).Some?
    ensures ParseInt("-" + t) == Some(-ParseInt(t).value)
  {
    var s := "-" + t;
    assert s != [] && s[0] == '-' && s[1..] == t;
    StartsWithMinus(s);
    StartsWithDigit(t);
  }

  /** Leading white space does not change what is read. */
  lemma ParseSkipsSpace(c: char, s: string)
    requires IsJsSpace(c)
    ensures ParseInt([c] + s) == ParseInt(s)
  {
    var u := [c] + s;
    assert u != [] && IsJsSpace(u[0]) && u[1..] == s;
    assert TrimStart(u) == TrimStart(s);
  }

  /** The empty field (the input's initial and cleared value) reads as `NaN`. */
  lemma ParseEmpty()
    ensures ParseInt("") == None
  {
  }
}
