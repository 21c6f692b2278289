/**
 `i64::from_str_radix` (and `str::parse::<i64>`, which is the radix-10 case) as the
 Rust standard library implements it, next to an independent description of the
 texts it accepts and the number each one denotes; plus the decimal and
 hexadecimal renderings of a number, which it inverts.
 */
module ParseInt {
  import opened Wrappers
  import opened Int64

  /** The kinds of `ParseIntError` that parsing into `i64` can report. */
  datatype IntErrorKind = Empty | InvalidDigit | PosOverflow | NegOverflow

  type Radix = r: nat | 2 <= r <= 36 witness 10

  /** `char::to_digit`: ASCII digits, then letters of either case from 10 upward. */
  function DigitOf(c: char, radix: Radix): (d: Option<nat>)
    ensures d.Some? ==> d.value < radix
  {
    var v :=
      if '0' <= c <= '9' then c as int - '0' as int
      else if 'a' <= c <= 'z' then c as int - 'a' as int + 10
      else if 'A' <= c <= 'Z' then c as int - 'A' as int + 10
      else 36;
    if v < radix then Some(v) else None
  }

  predicate IsDigit(c: char, radix: Radix)
  {
    DigitOf(c, radix).Some?
  }

  predicate AllDigits(s: string, radix: Radix)
  {
    forall i :: 0 <= i < |s| ==> IsDigit(s[i], radix)
  }

  /** Positional value of the digits `ds` read after an already accumulated magnitude `acc`. */
  function Horner(acc: nat, ds: string, radix: Radix): (v: nat)
    requires AllDigits(ds, radix)
    ensures v >= acc
    decreases |ds|
  {
    if |ds| == 0 then acc
    else
      assert acc * radix >= acc;
      Horner(acc * radix + DigitOf(ds[0], radix).value, ds[1..], radix)
  }

  /** The number a non-empty run of digits denotes. */
  function Magnitude(ds: string, radix: Radix): nat
    requires AllDigits(ds, radix)
  {
    Horner(0, ds, radix)
  }

  /** One more digit at the end multiplies what came before by the radix. */
  lemma {:induction false} HornerAppend(acc: nat, ds: string, c: char, radix: Radix)
    requires AllDigits(ds, radix) && IsDigit(c, radix)
    ensures AllDigits(ds + [c], radix)
    ensures Horner(acc, ds + [c], radix) == Horner(acc, ds, radix) * radix + DigitOf(c, radix).value
    decreases |ds|
  {
    var s := ds + [c];
    assert forall i :: 0 <= i < |s| ==> s[i] == if i < |ds| then ds[i] else c;
    if |ds| > 0 {
      assert s[1..] == ds[1..] + [c];
      HornerAppend(acc * radix + DigitOf(ds[0], radix).value, ds[1..], c, radix);
    } else {
      assert s[1..] == [];
    }
  }

  /** The shape `from_str_radix` accepts, whatever the range: an optional sign
      followed by at least one digit. */
  predicate WellFormed(s: string, radix: Radix)
  {
    && |s| > 0
    && if s[0] == '+' || s[0] == '-' then |s| > 1 && AllDigits(s[1..], radix) else AllDigits(s, radix)
  }

  /** The integer a well-formed text denotes. */
  function Denoted(s: string, radix: Radix): int
    requires WellFormed(s, radix)
  {
    if s[0] == '-' then -(Magnitude(s[1..], radix) as int)
    else if s[0] == '+' then Magnitude(s[1..], radix)
    else Magnitude(s, radix)
  }

  /** The text is well formed and denotes an `i64`. */
  predicate Parses(s: string, radix: Radix)
  {
    WellFormed(s, radix) && InRange(Denoted(s, radix))
  }

  function Abs(x: int): nat
  {
    if x < 0 then -x else x
  }

  function Signed(positive: bool, magnitude: nat): int
  {
    if positive then magnitude else -(magnitude as int)
  }

  /** Length of the longest prefix of `ds` made of digits of the radix. */
  function LeadingDigits(ds: string, radix: Radix): (k: nat)
    ensures k <= |ds| && AllDigits(ds[..k], radix)
    ensures k < |ds| ==> !IsDigit(ds[k], radix)
    decreases |ds|
  {
    if |ds| == 0 || !IsDigit(ds[0], radix) then 0
    else
      var k := LeadingDigits(ds[1..], radix);
      assert ds[..k + 1] == [ds[0]] + ds[1..][..k];
      k + 1
  }

  /** Reading the leading digits of `ds` starts with its first digit. */
  lemma LeadingDigitsStep(acc: nat, ds: string, radix: Radix)
    requires |ds| > 0 && IsDigit(ds[0], radix)
    ensures LeadingDigits(ds, radix) == LeadingDigits(ds[1..], radix) + 1
    ensures var k := LeadingDigits(ds[1..], radix);
      Horner(acc, ds[..k + 1], radix) == Horner(acc * radix + DigitOf(ds[0], radix).value, ds[1..][..k], radix)
  {
    var k := LeadingDigits(ds[1..], radix);
    assert ds[..k + 1][1..] == ds[1..][..k];
  }

  /** The checked digit loop of `from_str_radix`: per digit, the digit is validated
      first, then `acc * radix` and the addition (or, for a negative number, the
      subtraction) of the digit must stay inside `i64`. The first failure wins. */
  function Accumulate(acc: i64, ds: string, radix: Radix, positive: bool): (r: Result<i64, IntErrorKind>)
    requires if positive then acc >= 0 else acc <= 0
    ensures r.Ok? <==> AllDigits(ds, radix) && InRange(Signed(positive, Horner(Abs(acc), ds, radix)))
    ensures r.Ok? ==> r.value == Signed(positive, Horner(Abs(acc), ds, radix))
    ensures r.Err? ==> r.error == InvalidDigit || r.error == (if positive then PosOverflow else NegOverflow)
    decreases |ds|
  {
    if |ds| == 0 then Ok(acc)
    else
      match DigitOf(ds[0], radix)
      case None => Err(InvalidDigit)
      case Some(d) =>
        var next := if positive then acc * radix + d else acc * radix - d;
        StepKeepsSign(acc, d, radix, positive);
        assert AllDigits(ds, radix) <==> AllDigits(ds[1..], radix) by {
          assert forall i :: 0 < i < |ds| ==> ds[i] == ds[1..][i - 1];
        }
        if InRange(next) then Accumulate(next, ds[1..], radix, positive)
        else Err(if positive then PosOverflow else NegOverflow)
  }

  /** One step of the loop keeps the sign of the accumulator and appends `d` to its magnitude. */
  lemma StepKeepsSign(acc: int, d: nat, radix: Radix, positive: bool)
    requires if positive then acc >= 0 else acc <= 0
    ensures var next := if positive then acc * radix + d else acc * radix - d;
      (if positive then next >= 0 else next <= 0) && Abs(next) == Abs(acc) * radix + d
  {
  }

  /** The loop overflows exactly when the digits before the first invalid one
      already denote a number outside `i64`; otherwise a failure is `InvalidDigit`. */
  lemma {:induction false} AccumulateOverflow(acc: i64, ds: string, radix: Radix, positive: bool)
    requires if positive then acc >= 0 else acc <= 0
    ensures var k := LeadingDigits(ds, radix);
      Accumulate(acc, ds, radix, positive) == Err(if positive then PosOverflow else NegOverflow) <==>
      !InRange(Signed(positive, Horner(Abs(acc), ds[..k], radix)))
    decreases |ds|
  {
    var overflow := if positive then PosOverflow else NegOverflow;
    if |ds| == 0 || !IsDigit(ds[0], radix) {
      assert ds[..LeadingDigits(ds, radix)] == [];
    } else {
      var d := DigitOf(ds[0], radix).value;
      var next := if positive then acc * radix + d else acc * radix - d;
      LeadingDigitsStep(Abs(acc), ds, radix);
      var rest := ds[1..][..LeadingDigits(ds[1..], radix)];
      StepKeepsSign(acc, d, radix, positive);
      if InRange(next) {
        assert Accumulate(acc, ds, radix, positive) == Accumulate(next, ds[1..], radix, positive);
        AccumulateOverflow(next, ds[1..], radix, positive);
      } else {
        assert Accumulate(acc, ds, radix, positive) == Err(overflow);
        assert Horner(Abs(next), rest, radix) >= Abs(next);
      }
    }
  }

  /** `i64::from_str_radix(s, radix)`. */
  function FromStrRadix(s: string, radix: Radix): (r: Result<i64, IntErrorKind>)
    ensures r.Ok? <==> Parses(s, radix)
    ensures r.Ok? ==> r.value == Denoted(s, radix)
    ensures r == Err(Empty) <==> |s| == 0
  {
    if |s| == 0 then Err(Empty)
    else if (s[0] == '+' || s[0] == '-') && |s| == 1 then Err(InvalidDigit)
    else if s[0] == '+' then Accumulate(0, s[1..], radix, true)
    else if s[0] == '-' then Accumulate(0, s[1..], radix, false)
    else Accumulate(0, s, radix, true)
  }

  /** The text after an optional leading sign. */
  function Unsigned(s: string): string
  {
    if |s| > 0 && (s[0] == '+' || s[0] == '-') then s[1..] else s
  }

  /** The overflow a text of this sign reports. */
  function OverflowKind(s: string): IntErrorKind
  {
    if |s| > 0 && s[0] == '-' then NegOverflow else PosOverflow
  }

  /** The signed value of the digits before the first character that is not a digit. */
  function LeadValue(s: string, radix: Radix): int
  {
    var u := Unsigned(s);
    Signed(!(|s| > 0 && s[0] == '-'), Magnitude(u[..LeadingDigits(u, radix)], radix))
  }

  /** Which error a text that does not parse gives: an overflow exactly when the
      digits before the first bad character already leave `i64`, and otherwise
      `InvalidDigit` (a lone sign, or a bad character reached in range). */
  lemma FromStrRadixErrorKind(s: string, radix: Radix)
    ensures FromStrRadix(s, radix) == Err(OverflowKind(s)) <==> !InRange(LeadValue(s, radix))
    ensures FromStrRadix(s, radix) == Err(InvalidDigit) <==>
      |s| > 0 && !Parses(s, radix) && InRange(LeadValue(s, radix))
  {
    var u := Unsigned(s);
    var positive := !(|s| > 0 && s[0] == '-');
    if |u| == 0 {
      assert u[..LeadingDigits(u, radix)] == [];
    } else {
      AccumulateOverflow(0, u, radix, positive);
    }
  }

  /** The lower-case digit character for `d`, as `{}` and `{:x}` print it. */
  function DigitChar(d: nat, radix: Radix): (c: char)
    requires d < radix
    ensures DigitOf(c, radix) == Some(d)
  {
    if d < 10 then ('0' as int + d) as char else ('a' as int + d - 10) as char
  }

  /** The shortest digit string of `n` in the given radix. */
  function Digits(n: nat, radix: Radix): (s: string)
    ensures |s| > 0 && AllDigits(s, radix)
    ensures Magnitude(s, radix) == n
    decreases n
  {
    if n < radix then
      var c := DigitChar(n, radix);
      assert Horner(0, [c], radix) == Horner(DigitOf(c, radix).value, [c][1..], radix);
      [c]
    else
      var prefix := Digits(n / radix, radix);
      var last := DigitChar(n % radix, radix);
      HornerAppend(0, prefix, last, radix);
      DivMod(n, radix);
      prefix + [last]
  }

  lemma DivMod(n: nat, radix: Radix)
    ensures (n / radix) * radix + n % radix == n
  {
  }

  /** `n.to_string()` for an `i64`. */
  function FormatDecimal(n: i64): string
  {
    if n < 0 then "-" + Digits(-(n as int), 10) else Digits(n, 10)
  }

  /** A decimal rendering is digits, with a leading `-` for a negative number. */
  lemma FormatDecimalChars(n: i64)
    ensures var s := FormatDecimal(n);
      && |s| > 0 && IsDigit(s[|s| - 1], 10)
      && forall k :: 0 <= k < |s| ==> IsDigit(s[k], 10) || (k == 0 && s[k] == '-')
  {
    var ds := Digits(if n < 0 then -(n as int) else n, 10);
    assert FormatDecimal(n) == if n < 0 then "-" + ds else ds;
  }

  /** ASCII upper-case letters folded to lower case; every other character kept. */
  function AsciiLower(c: char): char
  {
    if 'A' <= c <= 'Z' then (c as int - 'A' as int + 'a' as int) as char else c
  }

  /** `char::to_digit`: a character is a digit of the radix exactly when, folded to
      lower case, it is the rendering of some value below the radix, and it then
      stands for that value. */
  lemma DigitOfSpec(c: char, radix: Radix)
    ensures DigitOf(c, radix).Some? ==> DigitChar(DigitOf(c, radix).value, radix) == AsciiLower(c)
    ensures (exists k: nat :: k < radix && DigitChar(k, radix) == AsciiLower(c)) ==> DigitOf(c, radix).Some?
  {
    if exists k: nat :: k < radix && DigitChar(k, radix) == AsciiLower(c) {
      var k: nat :| k < radix && DigitChar(k, radix) == AsciiLower(c);
      assert DigitOf(AsciiLower(c), radix) == Some(k);
    }
  }

  /** Parsing inverts decimal rendering. */
  lemma ParseFormatDecimal(n: i64)
    ensures FromStrRadix(FormatDecimal(n), 10) == Ok(n)
  {
  }

  /** Parsing inverts hexadecimal rendering of a non-negative `i64`. */
  lemma ParseDigitsHex(n: nat)
    requires n <= MAX
    ensures FromStrRadix(Digits(n, 16), 16) == Ok(n)
  {
  }
}
