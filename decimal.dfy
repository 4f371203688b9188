/** Rust's `str::parse::<usize>()` on a 64-bit target: an optional leading
    `+`, then decimal digits, with the value checked against 2^64 after every
    digit. Used for the offsets of `--filter` and both numbers of `--data`. */
module Decimal {
  import opened Wrappers

  /** One more than the largest `usize` (64-bit target). */
  const USIZE_LIMIT: nat := 0x1_0000_0000_0000_0000

  /** The kinds of `ParseIntError` an unsigned parse can produce. */
  datatype IntErrorKind = Empty | InvalidDigit | PosOverflow

  predicate IsDigit(c: char) { '0' <= c <= '9' }

  predicate AllDigits(s: string) { forall i :: 0 <= i < |s| ==> IsDigit(s[i]) }

  function DigitValue(c: char): (d: nat)
    requires IsDigit(c)
    ensures d < 10
  {
    c as int - '0' as int
  }

  function DigitChar(d: nat): (c: char)
    requires d < 10
    ensures IsDigit(c) && DigitValue(c) == d
  {
    ('0' as int + d) as char
  }

  /** Reference value of a digit string read after the value `acc`. */
  function FoldDigits(s: string, acc: nat): nat
    requires AllDigits(s)
  {
    if s == [] then acc else FoldDigits(s[1..], acc * 10 + DigitValue(s[0]))
  }

  lemma {:induction false} FoldAtLeast(s: string, acc: nat)
    requires AllDigits(s)
    ensures FoldDigits(s, acc) >= acc
  {
    if s != [] {
      FoldAtLeast(s[1..], acc * 10 + DigitValue(s[0]));
    }
  }

  /** The digit loop of `from_str_radix`: the first non-digit is an invalid
      digit, and a running value that reaches 2^64 is an overflow. */
  function Scan(s: string, acc: nat): (r: Result<nat, IntErrorKind>)
    requires acc < USIZE_LIMIT
    ensures r.Ok? <==> AllDigits(s) && FoldDigits(s, acc) < USIZE_LIMIT
    ensures r.Ok? ==> r.value == FoldDigits(s, acc)
    decreases |s|
  {
    if s == [] then Ok(acc)
    else if !IsDigit(s[0]) then Err(InvalidDigit)
    else
      var a := acc * 10 + DigitValue(s[0]);
      if a >= USIZE_LIMIT then
        assert AllDigits(s) ==> FoldDigits(s, acc) >= a by {
          if AllDigits(s) { FoldAtLeast(s[1..], a); }
        }
        Err(PosOverflow)
      else
        assert AllDigits(s) <==> AllDigits(s[1..]) by {
          if AllDigits(s[1..]) {
            forall i | 0 <= i < |s| ensures IsDigit(s[i]) {
              if i > 0 { assert s[i] == s[1..][i - 1]; }
            }
          }
        }
        Scan(s[1..], a)
  }

  /** The digits left once the optional leading `+` is taken off. */
  function Body(s: string): string
  {
    if |s| > 0 && s[0] == '+' then s[1..] else s
  }

  /** The strings `usize::from_str` accepts. */
  predicate WellFormed(s: string)
  {
    |Body(s)| > 0 && AllDigits(Body(s)) && FoldDigits(Body(s), 0) < USIZE_LIMIT
  }

  /** `usize::from_str`: accepts exactly the well-formed strings, giving the
      value of their digits; the empty string is `Empty`. */
  function ParseUsize(s: string): (r: Result<nat, IntErrorKind>)
    ensures r.Ok? <==> WellFormed(s)
    ensures r.Ok? ==> r.value == FoldDigits(Body(s), 0) && r.value < USIZE_LIMIT
    ensures s == [] ==> r == Err(Empty)
  {
    if s == [] then Err(Empty)
    else if |s| == 1 && (s[0] == '+' || s[0] == '-') then Err(InvalidDigit)
    else if s[0] == '+' then Scan(s[1..], 0)
    else Scan(s, 0)
  }

  /** Decimal rendering without leading zeros, the partner of `ParseUsize`. */
  function ToDecimal(n: nat): (s: string)
    ensures |s| > 0 && AllDigits(s)
  {
    if n < 10 then [DigitChar(n)] else ToDecimal(n / 10) + [DigitChar(n % 10)]
  }

  lemma {:induction false} FoldSnoc(s: string, c: char, acc: nat)
    requires AllDigits(s) && IsDigit(c)
    ensures AllDigits(s + [c])
    ensures FoldDigits(s + [c], acc) == FoldDigits(s, acc) * 10 + DigitValue(c)
  {
    assert AllDigits(s + [c]) by {
      forall i | 0 <= i < |s + [c]| ensures IsDigit((s + [c])[i]) {
        if i < |s| { assert (s + [c])[i] == s[i]; }
      }
    }
    if s == [] {
      assert s + [c] == [c];
      assert [c][1..] == [];
    } else {
      assert (s + [c])[1..] == s[1..] + [c];
      FoldSnoc(s[1..], c, acc * 10 + DigitValue(s[0]));
    }
  }

  lemma {:induction false} FoldToDecimal(n: nat)
    ensures FoldDigits(ToDecimal(n), 0) == n
  {
    if n < 10 {
      assert [DigitChar(n)][1..] == [];
    } else {
      FoldToDecimal(n / 10);
      FoldSnoc(ToDecimal(n / 10), DigitChar(n % 10), 0);
    }
  }

  /** Every `usize` survives rendering and parsing. */
  lemma ParseToDecimal(n: nat)
    requires n < USIZE_LIMIT
    ensures ParseUsize(ToDecimal(n)) == Ok(n)
  {
    FoldToDecimal(n);
    assert ToDecimal(n)[0] != '+';
  }
}
