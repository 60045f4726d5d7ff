/**
 * Parsing an unsigned 64-bit decimal, as Rust's `u64::from_str` does it:
 * an optional leading '+', then one or more ASCII digits read left to right,
 * each digit checked before the running value is checked for overflow.
 */
module Decimal {
  import opened Errors

  const U64_MAX: nat := 0xFFFF_FFFF_FFFF_FFFF

  predicate IsDigit(c: char)
  {
    '0' <= c <= '9'
  }

  predicate AllDigits(s: string)
  {
    forall i :: 0 <= i < |s| ==> IsDigit(s[i])
  }

  function DigitValue(c: char): nat
    requires IsDigit(c)
  {
    c as int - '0' as int
  }

  function DigitChar(d: nat): (c: char)
    requires d < 10
  {
    ('0' as int + d) as char
  }

  /** The value of the digits `d` appended to the decimal number `acc`. */
  function Horner(acc: nat, d: string): nat
    requires AllDigits(d)
    decreases |d|
  {
    if d == [] then acc else Horner(acc * 10 + DigitValue(d[0]), d[1..])
  }

  /** The value of a string of digits. */
  function Value(d: string): nat
    requires AllDigits(d)
  {
    Horner(0, d)
  }

  /** The digit loop of `from_str`: reject a non-digit, then reject a value beyond `U64_MAX`. */
  function Accumulate(d: string, acc: nat): (r: Result<nat>)
    requires acc <= U64_MAX
    ensures r.Ok? ==> r.value <= U64_MAX
    decreases |d|
  {
    if d == [] then Ok(acc)
    else if !IsDigit(d[0]) then Err(ParseIntError(InvalidDigit))
    else
      var next := acc * 10 + DigitValue(d[0]);
      if next > U64_MAX then Err(ParseIntError(PosOverflow))
      else Accumulate(d[1..], next)
  }

  /** `u64::from_str`. A lone sign is an invalid digit; a '-' in front is never accepted. */
  function ParseU64(s: string): (r: Result<nat>)
    ensures r.Ok? ==> r.value <= U64_MAX
  {
    if s == [] then Err(ParseIntError(Empty))
    else if s == "+" || s == "-" then Err(ParseIntError(InvalidDigit))
    else Accumulate(if s[0] == '+' then s[1..] else s, 0)
  }

  /** The shortest decimal representation of `n`. */
  function DecimalString(n: nat): (s: string)
    ensures |s| > 0 && AllDigits(s)
  {
    if n < 10 then [DigitChar(n)] else DecimalString(n / 10) + [DigitChar(n % 10)]
  }

  lemma {:induction false} HornerGrows(acc: nat, d: string)
    requires AllDigits(d)
    ensures Horner(acc, d) >= acc
    decreases |d|
  {
    if d != [] {
      HornerGrows(acc * 10 + DigitValue(d[0]), d[1..]);
    }
  }

  /** Over digits only, the loop yields the value unless that value overflows. */
  lemma {:induction false} AccumulateDigits(d: string, acc: nat)
    requires acc <= U64_MAX && AllDigits(d)
    ensures Accumulate(d, acc) ==
      if Horner(acc, d) <= U64_MAX then Ok(Horner(acc, d)) else Err(ParseIntError(PosOverflow))
    decreases |d|
  {
    if d != [] {
      var next := acc * 10 + DigitValue(d[0]);
      HornerGrows(next, d[1..]);
      if next <= U64_MAX {
        AccumulateDigits(d[1..], next);
      }
    }
  }

  /** A non-digit anywhere makes the loop fail (with overflow, if that comes first). */
  lemma {:induction false} AccumulateNonDigit(d: string, acc: nat)
    requires acc <= U64_MAX && !AllDigits(d)
    ensures Accumulate(d, acc).Err?
    decreases |d|
  {
    if IsDigit(d[0]) {
      var next := acc * 10 + DigitValue(d[0]);
      if next <= U64_MAX {
        assert !AllDigits(d[1..]) by {
          var i :| 0 <= i < |d| && !IsDigit(d[i]);
          assert d[1..][i - 1] == d[i];
        }
        AccumulateNonDigit(d[1..], next);
      }
    }
  }

  /**
   * Exactly the strings of one or more digits, optionally preceded by '+', whose
   * value fits in 64 bits parse; they parse to that value.
   */
  lemma ParseU64Ok(s: string, n: nat)
    ensures ParseU64(s) == Ok(n) <==>
      var d := if |s| > 0 && s[0] == '+' then s[1..] else s;
      d != [] && AllDigits(d) && Value(d) == n && n <= U64_MAX
  {
    var d := if |s| > 0 && s[0] == '+' then s[1..] else s;
    if s != [] && s != "+" && s != "-" {
      if AllDigits(d) {
        AccumulateDigits(d, 0);
      } else {
        AccumulateNonDigit(d, 0);
      }
    } else if s == "-" {
      assert !IsDigit(d[0]);
    }
  }

  lemma {:induction false} HornerSnoc(acc: nat, d: string, c: char)
    requires AllDigits(d) && IsDigit(c)
    ensures AllDigits(d + [c])
    ensures Horner(acc, d + [c]) == Horner(acc, d) * 10 + DigitValue(c)
    decreases |d|
  {
    if d != [] {
      assert (d + [c])[1..] == d[1..] + [c];
      HornerSnoc(acc * 10 + DigitValue(d[0]), d[1..], c);
    }
  }

  lemma {:induction false} ValueOfDecimalString(n: nat)
    ensures Value(DecimalString(n)) == n
    decreases n
  {
    if n >= 10 {
      ValueOfDecimalString(n / 10);
      HornerSnoc(0, DecimalString(n / 10), DigitChar(n % 10));
    } else {
      var c := DigitChar(n);
      assert DecimalString(n) == [c] && [c][1..] == [];
      assert Horner(DigitValue(c), []) == DigitValue(c) == n;
    }
  }

  /** Every value up to `U64_MAX`, written in decimal, with or without '+', parses back to itself. */
  lemma ParseDecimalString(n: nat)
    requires n <= U64_MAX
    ensures ParseU64(DecimalString(n)) == Ok(n)
    ensures ParseU64("+" + DecimalString(n)) == Ok(n)
  {
    ValueOfDecimalString(n);
    ParseU64Ok(DecimalString(n), n);
    assert ("+" + DecimalString(n))[1..] == DecimalString(n);
    ParseU64Ok("+" + DecimalString(n), n);
  }
}
