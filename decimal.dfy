/** The text the read routine leaves in the sysfs buffer: the reported value
    in decimal followed by a newline, as `sprintf(buf, "%d\n", v)` writes it.
    `Parse` is what a reader of the attribute does with that text. */
module Decimal {

  datatype Option<T> = None | Some(value: T)

  predicate IsDigit(c: char)
  {
    '0' <= c <= '9'
  }

  predicate AllDigits(s: string)
  {
    forall k :: 0 <= k < |s| ==> IsDigit(s[k])
  }

  function DigitChar(d: nat): (c: char)
    requires d < 10
    ensures IsDigit(c) && (c as int) - ('0' as int) == d
  {
    ('0' as int + d) as char
  }

  /** The shortest decimal spelling of `n`: never empty, digits only, and
      without a leading zero unless `n` is zero. */
  function Digits(n: nat): (s: string)
    ensures |s| >= 1 && AllDigits(s)
    ensures n > 0 ==> s[0] != '0'
    decreases n
  {
    if n < 10 then [DigitChar(n)] else Digits(n / 10) + [DigitChar(n % 10)]
  }

  /** The number a string of decimal digits spells. */
  function ValueOf(s: string): nat
    requires AllDigits(s)
    decreases |s|
  {
    if s == [] then 0 else ValueOf(s[..|s| - 1]) * 10 + ((s[|s| - 1] as int) - ('0' as int))
  }

  /** `sprintf("%d\n", v)`. */
  function Format(v: int): string
  {
    (if v < 0 then "-" + Digits(-v) else Digits(v)) + "\n"
  }

  /** A line holding one optionally negative decimal integer, or `None`. */
  function Parse(s: string): Option<int>
  {
    if |s| < 2 || s[|s| - 1] != '\n' then None
    else
      var body := s[..|s| - 1];
      if body[0] == '-' then
        if |body| >= 2 && AllDigits(body[1..]) then Some(0 - ValueOf(body[1..])) else None
      else if AllDigits(body) then Some(ValueOf(body))
      else None
  }

  lemma {:induction false} ValueOfDigits(n: nat)
    ensures ValueOf(Digits(n)) == n
    decreases n
  {
    var s := Digits(n);
    if n >= 10 {
      ValueOfDigits(n / 10);
      assert s[..|s| - 1] == Digits(n / 10);
    }
  }

  /** Reading the attribute's text back gives the value the driver reported,
      the timeout value -1 included. */
  lemma FormatRoundTrip(v: int)
    ensures Parse(Format(v)) == Some(v)
  {
    var s := Format(v);
    var body := s[..|s| - 1];
    if v < 0 {
      assert body == "-" + Digits(-v);
      assert body[1..] == Digits(-v);
      ValueOfDigits(-v);
    } else {
      assert body == Digits(v);
      ValueOfDigits(v);
    }
  }
}
