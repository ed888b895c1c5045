/** Decimal numerals: how Go prints integers (`strconv.Itoa`, the padded fields of `Format`) and
    how it reads them (`strconv.Atoi`). */
module Digits {

  const DIGITS := "0123456789"

  const MAX_INT64: int := 0x7FFF_FFFF_FFFF_FFFF
  const MAX_UINT64: int := 0xFFFF_FFFF_FFFF_FFFF

  predicate IsDigit(c: char) {
    '0' <= c <= '9'
  }

  function DigitValue(c: char): (d: nat)
    requires IsDigit(c)
    ensures d < 10
  {
    c as int - '0' as int
  }

  function Digit(d: nat): (c: char)
    requires d < 10
    ensures IsDigit(c) && DigitValue(c) == d
  {
    DIGITS[d]
  }

  predicate AllDigits(s: string) {
    forall i :: 0 <= i < |s| ==> IsDigit(s[i])
  }

  /** The number a digit string denotes; leading zeros do not matter. */
  function Number(s: string): nat
    requires AllDigits(s)
  {
    if s == [] then 0 else 10 * Number(s[..|s| - 1]) + DigitValue(s[|s| - 1])
  }

  function Decimal(n: nat): string {
    if n < 10 then [Digit(n)] else Decimal(n / 10) + [Digit(n % 10)]
  }

  function Itoa(n: int): string {
    if n < 0 then "-" + Decimal(-n) else Decimal(n)
  }

  function Zeros(n: nat): string {
    if n == 0 then "" else "0" + Zeros(n - 1)
  }

  /** Zero-padded to at least `width` digits, never cut. */
  function Pad(n: nat, width: nat): string {
    var s := Decimal(n);
    if |s| < width then Zeros(width - |s|) + s else s
  }

  function PadSigned(n: int, width: nat): string {
    if n < 0 then "-" + Pad(-n, width) else Pad(n, width)
  }

  lemma {:induction false} NumberOfDecimal(n: nat)
    ensures AllDigits(Decimal(n)) && Number(Decimal(n)) == n && |Decimal(n)| > 0
  {
    if n < 10 {
      assert [Digit(n)][..0] == [];
    } else {
      NumberOfDecimal(n / 10);
      var s := Decimal(n / 10);
      assert (s + [Digit(n % 10)])[..|s|] == s;
    }
  }

  lemma {:induction false} LeadingZeros(k: nat, s: string)
    requires AllDigits(s)
    ensures |Zeros(k)| == k && AllDigits(Zeros(k) + s) && Number(Zeros(k) + s) == Number(s)
    decreases |s| + k
  {
    if s == [] {
      assert Zeros(k) + [] == Zeros(k);
      if k > 0 {
        LeadingZeros(k - 1, []);
        OnlyZeros(k);
      }
    } else {
      var n := |s| - 1;
      LeadingZeros(k, s[..n]);
      assert (Zeros(k) + s)[..k + n] == Zeros(k) + s[..n];
      assert Zeros(k) + s == (Zeros(k) + s[..n]) + [s[n]];
    }
  }

  lemma {:induction false} OnlyZeros(k: nat)
    ensures |Zeros(k)| == k && AllDigits(Zeros(k)) && Number(Zeros(k)) == 0
    ensures k > 0 ==> Zeros(k) == Zeros(k - 1) + "0"
  {
    if k == 0 {
    } else {
      OnlyZeros(k - 1);
      if k > 1 {
        assert "0" + (Zeros(k - 2) + "0") == ("0" + Zeros(k - 2)) + "0";
      }
      assert Zeros(k)[..k - 1] == Zeros(k - 1);
    }
  }

  lemma NumberOfPad(n: nat, width: nat)
    ensures AllDigits(Pad(n, width)) && Number(Pad(n, width)) == n
    ensures |Pad(n, width)| == if |Decimal(n)| < width then width else |Decimal(n)|
  {
    NumberOfDecimal(n);
    if |Decimal(n)| < width {
      LeadingZeros(width - |Decimal(n)|, Decimal(n));
    }
  }

  function Power10(k: nat): nat {
    if k == 0 then 1 else 10 * Power10(k - 1)
  }

  /** A number below 10^k takes at most k digits (and one digit at least). */
  lemma {:induction false} DecimalLength(n: nat, k: nat)
    requires k > 0
    ensures |Decimal(n)| <= k <==> n < Power10(k)
  {
    if n < 10 {
      PowerPositive(k - 1);
    } else if k > 1 {
      DecimalLength(n / 10, k - 1);
      assert n / 10 < Power10(k - 1) <==> n < 10 * Power10(k - 1);
    } else {
      NumberOfDecimal(n / 10);
    }
  }

  lemma {:induction false} PowerPositive(k: nat)
    ensures Power10(k) >= 1
  {
    if k == 0 {
    } else {
      PowerPositive(k - 1);
    }
  }

  // -- reading --

  /** What a parse gives: the value returned and whether the error was nil.  Callers that drop the
      error use the value all the same. */
  datatype Parsed = Parsed(value: int, ok: bool)

  /** `strconv.ParseUint(s, 10, 64)` from an accumulated value: digits left to right, stopping at the
      first non-digit or at the first digit that does not fit. */
  function ScanUint(s: string, acc: nat): Parsed {
    if s == [] then Parsed(acc, true)
    else if !IsDigit(s[0]) then Parsed(0, false)
    else
      var n := 10 * acc + DigitValue(s[0]);
      if n > MAX_UINT64 then Parsed(MAX_UINT64, false) else ScanUint(s[1..], n)
  }

  /** `strconv.ParseInt(s, 10, 64)`, which `strconv.Atoi` agrees with: zero on a syntax error, the
      nearest representable value on a range error. */
  function Atoi(s: string): Parsed {
    if s == [] then Parsed(0, false)
    else
      var negative := s[0] == '-';
      var body := if s[0] == '-' || s[0] == '+' then s[1..] else s;
      if body == [] then Parsed(0, false)
      else
        var u := ScanUint(body, 0);
        if !u.ok && u.value != MAX_UINT64 then Parsed(0, false)
        else if !negative && u.value > MAX_INT64 then Parsed(MAX_INT64, false)
        else if negative && u.value > MAX_INT64 + 1 then Parsed(-MAX_INT64 - 1, false)
        else Parsed(if negative then -u.value else u.value, true)
  }

  function NumberFrom(s: string, acc: nat): nat
    requires AllDigits(s)
  {
    if s == [] then acc else NumberFrom(s[1..], 10 * acc + DigitValue(s[0]))
  }

  lemma {:induction false} NumberFromLast(s: string, c: char, acc: nat)
    requires AllDigits(s) && IsDigit(c)
    ensures NumberFrom(s + [c], acc) == 10 * NumberFrom(s, acc) + DigitValue(c)
  {
    if s == [] {
      assert [c][1..] == [];
    } else {
      NumberFromLast(s[1..], c, 10 * acc + DigitValue(s[0]));
      assert (s + [c])[1..] == s[1..] + [c];
    }
  }

  lemma {:induction false} NumberFromZero(s: string)
    requires AllDigits(s)
    ensures NumberFrom(s, 0) == Number(s)
  {
    if s == [] {
    } else {
      var n := |s| - 1;
      NumberFromZero(s[..n]);
      NumberFromLast(s[..n], s[n], 0);
      assert s == s[..n] + [s[n]];
    }
  }

  lemma {:induction false} NumberFromGrows(s: string, acc: nat)
    requires AllDigits(s)
    ensures NumberFrom(s, acc) >= acc
  {
    if s == [] {
    } else {
      NumberFromGrows(s[1..], 10 * acc + DigitValue(s[0]));
    }
  }

  lemma {:induction false} ScanDigits(s: string, acc: nat)
    requires AllDigits(s) && acc <= MAX_UINT64
    ensures ScanUint(s, acc)
         == if NumberFrom(s, acc) <= MAX_UINT64 then Parsed(NumberFrom(s, acc), true) else Parsed(MAX_UINT64, false)
  {
    if s == [] {
    } else {
      var n := 10 * acc + DigitValue(s[0]);
      if n <= MAX_UINT64 {
        ScanDigits(s[1..], n);
      } else {
        NumberFromGrows(s[1..], n);
      }
    }
  }

  function Clamp64(n: int): int {
    if n > MAX_INT64 then MAX_INT64 else n
  }

  /** A digit string reads as its number, held at the largest 64-bit integer. */
  lemma AtoiDigits(s: string)
    requires AllDigits(s) && s != []
    ensures Atoi(s) == Parsed(Clamp64(Number(s)), Number(s) <= MAX_INT64)
  {
    assert IsDigit(s[0]);
    NumberFromZero(s);
    ScanDigits(s, 0);
  }

  /** An integer is an optional sign and at least one digit. */
  function Unsigned(s: string): string {
    if s != [] && (s[0] == '-' || s[0] == '+') then s[1..] else s
  }

  predicate Readable(s: string) {
    Unsigned(s) != [] && AllDigits(Unsigned(s))
  }

  /** The integer a readable string stands for. */
  function IntegerOf(s: string): int
    requires Readable(s)
  {
    var n: int := Number(Unsigned(s));
    if s[0] == '-' then -n else n
  }

  lemma {:induction false} ScanFails(s: string, acc: nat)
    requires !AllDigits(s)
    ensures !ScanUint(s, acc).ok
  {
    if s == [] {
    } else if IsDigit(s[0]) {
      assert s == [s[0]] + s[1..];
      ScanFails(s[1..], 10 * acc + DigitValue(s[0]));
    }
  }

  /** Reading succeeds exactly on the readable strings whose integer fits 64 bits. */
  lemma AtoiExactly(s: string)
    ensures Atoi(s).ok <==> Readable(s) && -MAX_INT64 - 1 <= IntegerOf(s) <= MAX_INT64
    ensures Atoi(s).ok ==> Atoi(s).value == IntegerOf(s)
  {
    var body := Unsigned(s);
    if body == [] {
    } else if AllDigits(body) {
      NumberFromZero(body);
      ScanDigits(body, 0);
    } else {
      ScanFails(body, 0);
      ScanValue(body, 0);
    }
  }

  lemma {:induction false} ScanValue(s: string, acc: nat)
    ensures !ScanUint(s, acc).ok ==> ScanUint(s, acc).value in {0, MAX_UINT64}
  {
    if s == [] {
    } else if IsDigit(s[0]) {
      ScanValue(s[1..], 10 * acc + DigitValue(s[0]));
    }
  }

  /** Printing then reading gives the integer back, over the whole 64-bit range. */
  lemma AtoiOfItoa(n: int)
    requires -MAX_INT64 - 1 <= n <= MAX_INT64
    ensures Atoi(Itoa(n)) == Parsed(n, true)
  {
    if n >= 0 {
      NumberOfDecimal(n);
      AtoiDigits(Decimal(n));
    } else {
      NumberOfDecimal(-n);
      var s := Decimal(-n);
      NumberFromZero(s);
      ScanDigits(s, 0);
      assert ("-" + s)[1..] == s;
    }
  }
}
