/** Decimal text of integers: the `%d` verb of `fmt.Sprintf` (also `strconv.Itoa`)
    and the parser `strconv.Atoi`, over unbounded integers. */
module Decimal {
  import opened Results

  predicate IsDigit(c: char) {
    '0' <= c <= '9'
  }

  predicate AllDigits(s: string) {
    forall i :: 0 <= i < |s| ==> IsDigit(s[i])
  }

  function DigitChar(d: int): (c: char)
    requires 0 <= d < 10
    ensures IsDigit(c)
  {
    ('0' as int + d) as char
  }

  function DigitValue(c: char): (d: int)
    requires IsDigit(c)
    ensures 0 <= d < 10
  {
    c as int - '0' as int
  }

  /** Base-10 digits of `n`, most significant first, with no leading zero. */
  function Digits(n: nat): (s: string)
    ensures |s| >= 1 && AllDigits(s)
    ensures s[0] == '0' <==> n == 0
    decreases n
  {
    if n < 10 then [DigitChar(n)] else Digits(n / 10) + [DigitChar(n % 10)]
  }

  /** `fmt.Sprintf("%d", n)`: a minus sign for negative numbers, then the digits. */
  function Format(n: int): (s: string)
    ensures |s| >= 1 && IsDigit(s[|s| - 1])
    ensures s[0] == '-' <==> n < 0
    ensures forall i :: 0 <= i < |s| ==> s[i] != '\n' && s[i] != '\r'
  {
    if n < 0 then "-" + Digits(-n) else Digits(n)
  }

  /** Value of a run of decimal digits, most significant first. */
  function DigitsValue(s: string): nat
    requires AllDigits(s)
    decreases |s|
  {
    if s == [] then 0 else DigitsValue(s[..|s| - 1]) * 10 + DigitValue(s[|s| - 1])
  }

  /** The text `strconv.Atoi` accepts: an optional `+` or `-`, then at least
      one decimal digit and nothing else (no blanks, no underscores). */
  predicate IsInteger(s: string) {
    var body := if |s| > 0 && (s[0] == '+' || s[0] == '-') then s[1..] else s;
    |body| > 0 && AllDigits(body)
  }

  /** `strconv.Atoi` without its 64-bit range check. */
  function Atoi(s: string): (r: Result<int>)
    ensures r.Ok? <==> IsInteger(s)
    ensures r.Err? ==> r.error == InvalidSyntax(s)
    ensures r.Ok? && r.value < 0 ==> s[0] == '-'
    ensures r.Ok? && r.value > 0 ==> s[0] != '-'
  {
    var signed := |s| > 0 && (s[0] == '+' || s[0] == '-');
    var body := if signed then s[1..] else s;
    if |body| == 0 || !AllDigits(body) then Err(InvalidSyntax(s))
    else
      var v: int := DigitsValue(body);
      if s[0] == '-' then Ok(-v) else Ok(v)
  }

  lemma {:induction false} DigitsRoundTrip(n: nat)
    ensures DigitsValue(Digits(n)) == n
    decreases n
  {
    if n >= 10 {
      var s := Digits(n);
      assert s[..|s| - 1] == Digits(n / 10);
      DigitsRoundTrip(n / 10);
    }
  }

  /** Parsing what `%d` printed gives back the number: the checkpoint line of
      every slot value is read back as that value. */
  lemma FormatRoundTrip(n: int)
    ensures Atoi(Format(n)) == Ok(n)
  {
    if n < 0 {
      DigitsRoundTrip(-n);
      assert Format(n)[1..] == Digits(-n);
    } else {
      DigitsRoundTrip(n);
    }
  }
}
