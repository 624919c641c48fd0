/** Positional numerals as the C++ library writes and reads them: `std::to_string`, the decimal and
    hexadecimal stream formats, and `std::from_chars` for a signed 64-bit target. */
module Numerals {
  import opened Types

  type Base = b: int | b == 10 || b == 16 witness 10

  function DigitChar(d: int): char
    requires 0 <= d < 16
  {
    if d < 10 then ('0' as int + d) as char else ('a' as int + (d - 10)) as char
  }

  function DigitValue(c: char): int {
    if '0' <= c <= '9' then c as int - '0' as int
    else if 'a' <= c <= 'f' then c as int - 'a' as int + 10
    else 16
  }

  predicate AllDigits(s: string, base: Base) {
    forall i :: 0 <= i < |s| ==> DigitValue(s[i]) < base
  }

  function Numeral(n: nat, base: Base): string {
    if n < base then [DigitChar(n)] else Numeral(n / base, base) + [DigitChar(n % base)]
  }

  function NumeralValue(s: string, base: Base): nat
    requires AllDigits(s, base)
  {
    if s == "" then 0
    else
      assert DigitValue(s[|s| - 1]) < base;
      NumeralValue(s[..|s| - 1], base) * base + DigitValue(s[|s| - 1])
  }

  function Decimal(i: int): string {
    if i < 0 then "-" + Numeral(-i, 10) else Numeral(i, 10)
  }

  /** `std::from_chars` on the whole of `text`: an optional minus sign, at least one digit, nothing
      else, and a value that fits. */
  function ParseInt64(text: string): Option<Int64> {
    var negative := text != "" && text[0] == '-';
    var digits := if negative then text[1..] else text;
    if digits == "" || !AllDigits(digits, 10) then None
    else
      var magnitude: int := NumeralValue(digits, 10);
      var v: int := if negative then -magnitude else magnitude;
      if INT64_MIN <= v <= INT64_MAX then Some(v) else None
  }

  lemma DigitAppended(s: string, d: int, base: Base)
    requires AllDigits(s, base) && 0 <= d < base
    ensures AllDigits(s + [DigitChar(d)], base)
    ensures NumeralValue(s + [DigitChar(d)], base) == NumeralValue(s, base) * base + d
  {
    assert DigitValue(DigitChar(d)) == d;
    assert (s + [DigitChar(d)])[..|s|] == s;
  }

  lemma Division(n: nat, base: Base)
    ensures n / base * base + n % base == n
  {
    if base == 10 {
      assert n / 10 * 10 + n % 10 == n;
    } else {
      assert n / 16 * 16 + n % 16 == n;
    }
  }

  lemma {:induction false} NumeralRoundTrip(n: nat, base: Base)
    ensures Numeral(n, base) != "" && AllDigits(Numeral(n, base), base)
    ensures NumeralValue(Numeral(n, base), base) == n
  {
    hide DigitChar, DigitValue;
    if n < base {
      DigitAppended("", n, base);
      assert "" + [DigitChar(n)] == Numeral(n, base);
    } else {
      var q, r := n / base, n % base;
      NumeralRoundTrip(q, base);
      DigitAppended(Numeral(q, base), r, base);
      Division(n, base);
    }
  }

  lemma NoDash(s: string, base: Base)
    requires AllDigits(s, base)
    ensures '-' !in s && ':' !in s
  {
    assert DigitValue('-') == 16 == DigitValue(':');
    assert forall i :: 0 <= i < |s| ==> s[i] != '-' && s[i] != ':';
  }

  /** Reading back what `std::to_string` wrote, for every 64-bit value down to the minimum. */
  lemma DecimalRoundTrip(i: Int64)
    ensures ParseInt64(Decimal(i)) == Some(i)
    ensures ':' !in Decimal(i)
  {
    var m: int := if i < 0 then -(i as int) else i;
    NumeralRoundTrip(m, 10);
    NoDash(Numeral(m, 10), 10);
    if i >= 0 {
      assert Decimal(i)[0] in Decimal(i);
    } else {
      assert Decimal(i)[1..] == Numeral(m, 10);
    }
  }

  // ----- fixed-width hexadecimal

  function Zeros(n: nat): string {
    seq(n, _ => '0')
  }

  /** `setfill('0') << setw(width)`: pad on the left, never truncate. */
  function Padded(s: string, width: nat): string {
    if |s| >= width then s else Zeros(width - |s|) + s
  }

  lemma {:induction false} LeadingZeros(k: nat, s: string, base: Base)
    requires AllDigits(s, base)
    ensures AllDigits(Zeros(k) + s, base)
    ensures NumeralValue(Zeros(k) + s, base) == NumeralValue(s, base)
    decreases k + |s|
  {
    var t := Zeros(k) + s;
    if s != "" {
      LeadingZeros(k, s[..|s| - 1], base);
      assert t[..|t| - 1] == Zeros(k) + s[..|s| - 1];
    } else if k > 0 {
      LeadingZeros(k - 1, "", base);
      assert t[..|t| - 1] == Zeros(k - 1) + "";
    }
  }

  function Power(base: Base, k: nat): nat {
    if k == 0 then 1 else base * Power(base, k - 1)
  }

  lemma {:induction false} NumeralLength(n: nat, base: Base, k: nat)
    requires k >= 1 && n < Power(base, k)
    ensures |Numeral(n, base)| <= k
  {
    if n >= base {
      assert Power(base, 1) == base * Power(base, 0) == base;
      assert Power(base, k) == base * Power(base, k - 1);
      if base == 10 { assert n / 10 < Power(10, k - 1); } else { assert n / 16 < Power(16, k - 1); }
      NumeralLength(n / base, base, k - 1);
    }
  }

  lemma SixteenHexDigits()
    ensures Power(16, 16) == TWO_64
  {
    assert Power(16, 4) == 0x1_0000;
    assert Power(16, 8) == 0x1_0000_0000;
    assert Power(16, 12) == 0x1_0000_0000_0000;
  }

  // ----- what is written and what is accepted

  const DIGITS := "0123456789abcdef"

  /** What is left of `n` after dropping its last `places` digits. */
  function DropDigits(n: nat, base: Base, places: nat): nat {
    if places == 0 then n else DropDigits(n / base, base, places - 1)
  }

  lemma LastDigit(n: nat, base: Base)
    ensures 0 <= n % base < base
    ensures DigitChar(n % base) == DIGITS[n % base]
  {
  }

  /** A numeral is positional: the `i`-th character from the right is the digit of that place. */
  lemma {:induction false} NumeralPlaces(n: nat, base: Base, i: nat)
    requires i < |Numeral(n, base)|
    ensures 0 <= DropDigits(n, base, i) % base < base
    ensures Numeral(n, base)[|Numeral(n, base)| - 1 - i] == DIGITS[DropDigits(n, base, i) % base]
  {
    hide DigitChar;
    LastDigit(n, base);
    if n < base {
      SmallRemainder(n, base);
    } else if i > 0 {
      NumeralPlaces(n / base, base, i - 1);
    }
  }

  lemma SmallRemainder(n: nat, base: Base)
    requires n < base
    ensures n % base == n
  {
  }

  lemma {:induction false} NoDigitsLeft(n: nat, base: Base, i: nat)
    requires i >= |Numeral(n, base)|
    ensures DropDigits(n, base, i) == 0
  {
    if n < base {
      SmallQuotient(n, base);
      NoneDropped(base, i - 1);
    } else {
      NoDigitsLeft(n / base, base, i - 1);
    }
  }

  lemma {:induction false} NoneDropped(base: Base, i: nat)
    ensures DropDigits(0, base, i) == 0
  {
    if i > 0 {
      SmallQuotient(0, base);
      NoneDropped(base, i - 1);
    }
  }

  lemma SmallQuotient(n: nat, base: Base)
    requires n < base
    ensures n / base == 0
  {
  }

  /** The sixteen hexadecimal digits, from the right. */
  lemma Hex16Places(n: UInt64, i: nat)
    requires i < 16
    ensures |Hex16(n)| == 16 && 0 <= DropDigits(n, 16, i) % 16 && Hex16(n)[15 - i] == DIGITS[DropDigits(n, 16, i) % 16]
  {
    Hex16Fixed(n);
    SixteenHexDigits();
    NumeralLength(n, 16, 16);
    hide Numeral;
    if i < |Numeral(n, 16)| {
      NumeralPlaces(n, 16, i);
    } else {
      NoDigitsLeft(n, 16, i);
    }
  }

  /** Any number of zeros, and the numeral: with a minus sign for a negative value, and for zero with or
      without one. */
  ghost predicate Spells(text: string, v: int, zeros: nat) {
    || text == (if v < 0 then "-" else "") + (Zeros(zeros) + Numeral(if v < 0 then -v else v, 10))
    || (v == 0 && text == "-" + (Zeros(zeros) + Numeral(0, 10)))
  }

  /** The numeral of `m` with a digit appended, when leading zeros are not in the way. */
  lemma NumeralExtends(m: nat, d: nat)
    requires d < 10
    ensures Numeral(m * 10 + d, 10) == if m == 0 then [DigitChar(d)] else Numeral(m, 10) + [DigitChar(d)]
  {
    var n := m * 10 + d;
    assert n / 10 == m && n % 10 == d;
  }

  lemma DigitBack(c: char)
    requires DigitValue(c) < 10
    ensures DigitValue(c) >= 0 && DigitChar(DigitValue(c)) == c
  {
  }

  ghost predicate IsNumeral(text: string, v: int) {
    exists zeros: nat :: Spells(text, v, zeros)
  }

  lemma {:induction false} DigitsSpell(s: string) returns (zeros: nat)
    requires s != "" && AllDigits(s, 10)
    ensures s == Zeros(zeros) + Numeral(NumeralValue(s, 10), 10)
  {
    hide Numeral, DigitValue, DigitChar;
    var init, c := s[..|s| - 1], s[|s| - 1];
    assert AllDigits(init, 10) && DigitValue(c) < 10;
    DigitBack(c);
    NumeralExtends(NumeralValue(init, 10), DigitValue(c));
    zeros := 0;
    if init != "" {
      zeros := DigitsSpell(init);
      zeros := ZerosMerge(zeros, NumeralValue(init, 10), init, c);
    }
  }

  /** Leading zeros in front of zero are all zeros. */
  lemma ZerosMerge(before: nat, m: nat, init: string, c: char) returns (zeros: nat)
    requires init == Zeros(before) + Numeral(m, 10)
    ensures init + [c] == Zeros(zeros) + if m == 0 then [c] else Numeral(m, 10) + [c]
  {
    if m == 0 {
      zeros := before + 1;
      assert Numeral(0, 10) == ['0'];
      assert init == Zeros(zeros);
    } else {
      zeros := before;
    }
  }

  lemma ZerosAndNumeral(zeros: nat, n: nat)
    ensures var s := Zeros(zeros) + Numeral(n, 10);
            && s != "" && s[0] != '-'
            && AllDigits(s, 10) && NumeralValue(s, 10) == n
  {
    NumeralRoundTrip(n, 10);
    LeadingZeros(zeros, Numeral(n, 10), 10);
    NoDash(Zeros(zeros) + Numeral(n, 10), 10);
    assert (Zeros(zeros) + Numeral(n, 10))[0] in Zeros(zeros) + Numeral(n, 10);
  }

  /** Exactly the texts that spell a 64-bit value are accepted, as that value: anything else, from empty
      text to a number out of range, is refused. */
  lemma ParseExact(text: string, v: Int64)
    ensures ParseInt64(text) == Some(v) <==> IsNumeral(text, v)
  {
    hide Numeral, Zeros, NumeralValue, AllDigits;
    if ParseInt64(text) == Some(v) {
      if text[0] == '-' {
        var zeros := DigitsSpell(text[1..]);
        assert text == "-" + text[1..];
        assert Spells(text, v, zeros);
      } else {
        var zeros := DigitsSpell(text);
        assert "" + text == text;
        assert Spells(text, v, zeros);
      }
    }
    forall zeros: nat | Spells(text, v, zeros) ensures ParseInt64(text) == Some(v) {
      var n: nat := if v < 0 then -(v as int) else v;
      var s := Zeros(zeros) + Numeral(n, 10);
      ZerosAndNumeral(zeros, n);
      assert "" + s == s && ("-" + s)[1..] == s;
    }
  }

  function Hex16(n: UInt64): string {
    Padded(Numeral(n, 16), 16)
  }

  lemma Hex16Fixed(n: UInt64)
    ensures |Hex16(n)| == 16 && AllDigits(Hex16(n), 16) && NumeralValue(Hex16(n), 16) == n
  {
    SixteenHexDigits();
    NumeralLength(n, 16, 16);
    NumeralRoundTrip(n, 16);
    LeadingZeros(16 - |Numeral(n, 16)|, Numeral(n, 16), 16);
    assert Zeros(0) + Numeral(n, 16) == Numeral(n, 16);
  }
}
