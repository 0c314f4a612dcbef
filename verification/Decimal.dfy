/** Decimal printing (printf's %d and %lu, Python's str) and the reader that undoes it. */
module Decimal {

  datatype Option<+T> = None | Some(value: T)

  predicate IsDigit(c: char) {
    '0' <= c <= '9'
  }

  function Digit(d: nat): char
    requires d < 10
  {
    ('0' as int + d) as char
  }

  function DigitValue(c: char): nat
    requires IsDigit(c)
  {
    c as int - '0' as int
  }

  /** The digits of n, most significant first, with no leading zero. */
  function Digits(n: nat): string {
    if n < 10 then [Digit(n)] else Digits(n / 10) + [Digit(n % 10)]
  }

  function FormatInt(i: int): string {
    if i < 0 then "-" + Digits(-i) else Digits(i)
  }

  /** Consumes every leading digit, accumulating onto acc. */
  function ReadDigits(s: string, acc: nat): (nat, string) {
    if s != [] && IsDigit(s[0]) then ReadDigits(s[1..], 10 * acc + DigitValue(s[0])) else (acc, s)
  }

  function ReadNat(s: string): Option<(nat, string)> {
    if s != [] && IsDigit(s[0]) then Some(ReadDigits(s, 0)) else None
  }

  /** An optional minus sign and at least one digit. */
  function ReadInt(s: string): Option<(int, string)> {
    if s != [] && s[0] == '-' then
      match ReadNat(s[1..])
      case Some((n, rest)) => Some((-(n as int), rest))
      case None => None
    else
      match ReadNat(s)
      case Some((n, rest)) => Some((n as int, rest))
      case None => None
  }

  predicate NoLeadingDigit(s: string) {
    s == [] || !IsDigit(s[0])
  }

  lemma {:induction false} DigitsAreDigits(n: nat)
    ensures |Digits(n)| > 0
    ensures forall c <- Digits(n) :: IsDigit(c)
    ensures n > 0 ==> Digits(n)[0] != '0'
  {
    if n >= 10 {
      DigitsAreDigits(n / 10);
    }
  }

  lemma {:induction false} ReadDigitsOfDigits(n: nat, rest: string)
    ensures ReadDigits(Digits(n) + rest, 0) == ReadDigits(rest, n)
  {
    if n < 10 {
      assert ([Digit(n)] + rest)[1..] == rest;
    } else {
      var last := [Digit(n % 10)];
      ReadDigitsOfDigits(n / 10, last + rest);
      assert Digits(n) + rest == Digits(n / 10) + (last + rest);
      assert (last + rest)[1..] == rest;
    }
  }

  /** Reading back a printed integer gives the integer and exactly the text after it. */
  lemma ReadIntOfFormat(i: int, rest: string)
    requires NoLeadingDigit(rest)
    ensures ReadInt(FormatInt(i) + rest) == Some((i, rest))
  {
    var n := if i < 0 then -i else i;
    ReadNatOfDigits(n, rest);
    if i < 0 {
      assert (FormatInt(i) + rest)[1..] == Digits(n) + rest;
    }
  }

  lemma ReadNatOfDigits(n: nat, rest: string)
    requires NoLeadingDigit(rest)
    ensures ReadNat(Digits(n) + rest) == Some((n, rest))
    ensures Digits(n) != [] && IsDigit((Digits(n) + rest)[0])
  {
    DigitsAreDigits(n);
    ReadDigitsOfDigits(n, rest);
    var s := Digits(n) + rest;
    assert s[0] == Digits(n)[0] && s[0] in Digits(n);
  }
}
