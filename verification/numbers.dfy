/** The C library number conversions the assembler and disassembler rely
    on: `strtoll(s, NULL, 0)`, `atoi` (glibc: `(int) strtol(s, NULL, 10)`)
    and the decimal text `%llu` / `%d` produce. */
module Numbers {
  import opened Bytes

  /** `isspace` in the C locale. */
  predicate IsSpace(c: char) {
    c == ' ' || c == '\t' || c == '\n' || c == '\U{B}' || c == '\U{C}' || c == '\r'
  }

  /** The value of `c` as a digit in bases up to 36 (0-9, then a-z or A-Z);
      36 for a character that is no digit in any base. */
  function DigitValue(c: char): (d: nat)
    ensures d <= 36
    ensures d < 10 <==> '0' <= c <= '9'
  {
    if '0' <= c <= '9' then c as int - '0' as int
    else if 'a' <= c <= 'z' then c as int - 'a' as int + 10
    else if 'A' <= c <= 'Z' then c as int - 'A' as int + 10
    else 36
  }

  predicate IsDigitOf(c: char, base: nat) {
    DigitValue(c) < base
  }

  /** The number of leading characters of `s` that satisfy `IsSpace`. */
  function SpaceRun(s: string): (n: nat)
    ensures n <= |s|
    ensures forall i :: 0 <= i < n ==> IsSpace(s[i])
    ensures n < |s| ==> !IsSpace(s[n])
  {
    if |s| == 0 || !IsSpace(s[0]) then 0 else 1 + SpaceRun(s[1..])
  }

  /** The number of leading characters of `s` that are digits in `base`:
      where the conversion stops. */
  function DigitRun(s: string, base: nat): (n: nat)
    ensures n <= |s|
    ensures forall i :: 0 <= i < n ==> IsDigitOf(s[i], base)
    ensures n < |s| ==> !IsDigitOf(s[n], base)
  {
    if |s| == 0 || !IsDigitOf(s[0], base) then 0 else 1 + DigitRun(s[1..], base)
  }

  /** The value of a digit string, most significant digit first. */
  function DigitsValue(ds: string, base: nat): nat {
    if |ds| == 0 then 0 else DigitsValue(ds[..|ds| - 1], base) * base + DigitValue(ds[|ds| - 1])
  }

  /** What `strtol`-family functions make of an out-of-range magnitude:
      LLONG_MIN / LLONG_MAX (a 64-bit `long` on the platform modelled). */
  function Saturate64(negative: bool, magnitude: nat): (r: int)
    ensures -TwoTo63 <= r < TwoTo63
    ensures negative && magnitude <= TwoTo63 ==> r == -(magnitude as int)
    ensures !negative && magnitude < TwoTo63 ==> r == magnitude
    ensures negative && magnitude > TwoTo63 ==> r == -TwoTo63
    ensures !negative && magnitude >= TwoTo63 ==> r == TwoTo63 - 1
  {
    if negative then (if magnitude > TwoTo63 then -TwoTo63 else -(magnitude as int))
    else (if magnitude >= TwoTo63 then TwoTo63 - 1 else magnitude)
  }

  /** The base and digit start that base 0 chooses at position `j`: "0x" or
      "0X" followed by a hex digit selects 16, another leading 0 selects 8
      (the 0 is itself an octal digit), anything else 10. */
  function AutoBase(s: string, j: nat): (r: (nat, nat))
    ensures r.0 in {8, 10, 16} && j <= r.1
    ensures r.0 == 16 <==> j + 2 < |s| && s[j] == '0' && (s[j + 1] == 'x' || s[j + 1] == 'X') && IsDigitOf(s[j + 2], 16)
    ensures r.0 == 8 <==> j < |s| && s[j] == '0' && r.0 != 16
  {
    if j + 2 < |s| && s[j] == '0' && (s[j + 1] == 'x' || s[j + 1] == 'X') && IsDigitOf(s[j + 2], 16) then (16, j + 2)
    else if j < |s| && s[j] == '0' then (8, j)
    else (10, j)
  }

  /** Value of the leading digits of `s[from..]` in `base`. */
  function LeadingValue(s: string, from: nat, base: nat): nat
    requires from <= |s|
  {
    DigitsValue(s[from..][..DigitRun(s[from..], base)], base)
  }

  /** `strtol` / `strtoll` with base 0 (`auto`) or 10: optional leading
      whitespace, an optional sign, then digits, saturating to the 64-bit
      range. Conversion stops at the first non-digit; no digits gives 0. */
  function StrToL(s: string, auto: bool): (r: int)
    ensures -TwoTo63 <= r < TwoTo63
  {
    var i := SpaceRun(s);
    var negative := i < |s| && s[i] == '-';
    var j := if i < |s| && (s[i] == '-' || s[i] == '+') then i + 1 else i;
    var (base, from) := if auto then AutoBase(s, j) else (10, j);
    Saturate64(negative, LeadingValue(s, from, base))
  }

  /** `strtoll(s, NULL, 0)`. */
  function StrToLL(s: string): (r: int)
    ensures -TwoTo63 <= r < TwoTo63
  {
    StrToL(s, true)
  }

  /** glibc `atoi`: `(int) strtol(s, NULL, 10)`, the 64-bit result
      truncated to 32 bits. */
  function Atoi(s: string): (r: int)
    ensures -TwoTo31 <= r < TwoTo31
  {
    Wrap32(StrToL(s, false))
  }

  function DigitChar(d: nat): (c: char)
    requires d < 10
    ensures DigitValue(c) == d
  {
    ('0' as int + d) as char
  }

  /** `%llu` / `%d` of a non-negative value: its decimal digits, no
      leading zeros. */
  function DecimalString(n: nat): (s: string)
    ensures |s| >= 1
  {
    if n < 10 then [DigitChar(n)] else DecimalString(n / 10) + [DigitChar(n % 10)]
  }

  /** Every character of the decimal text is a decimal digit, it starts
      with '0' only for zero, and it reads back as `n`. */
  lemma {:induction false} DecimalStringDigits(n: nat)
    ensures forall i :: 0 <= i < |DecimalString(n)| ==> IsDigitOf(DecimalString(n)[i], 10)
    ensures DecimalString(n)[0] == '0' <==> n == 0
    ensures DigitsValue(DecimalString(n), 10) == n
  {
    if n >= 10 {
      DecimalStringDigits(n / 10);
      var s := DecimalString(n);
      assert s[..|s| - 1] == DecimalString(n / 10);
    }
  }

  /** A run of digits followed by nothing is read to its end. */
  lemma {:induction false} DigitRunAll(s: string, base: nat)
    requires forall i :: 0 <= i < |s| ==> IsDigitOf(s[i], base)
    ensures DigitRun(s, base) == |s|
  {
    if |s| > 0 {
      DigitRunAll(s[1..], base);
    }
  }

  /** `strtoll` reads back what `%llu` printed, for every value below 2^63. */
  lemma StrToLLDecimal(n: nat)
    requires n < TwoTo63
    ensures StrToLL(DecimalString(n)) == n
  {
    var s := DecimalString(n);
    DecimalStringDigits(n);
    DigitRunAll(s, 10);
    assert SpaceRun(s) == 0;
    if n == 0 {
      assert s == "0";
      assert s[0..] == s;
      DigitRunAll(s, 8);
      assert s[..1] == s;
      assert s[..0] == "";
      assert DigitsValue(s, 8) == DigitsValue("", 8) * 8 + DigitValue('0');
    } else {
      assert s[0..] == s;
      assert s[0..][..|s|] == s;
    }
  }

  /** Above 2^63 - 1, `strtoll` saturates: the decimal text of such a value
      reads back as LLONG_MAX. */
  lemma StrToLLDecimalSaturates(n: nat)
    requires TwoTo63 <= n
    ensures StrToLL(DecimalString(n)) == TwoTo63 - 1
  {
    var s := DecimalString(n);
    DecimalStringDigits(n);
    DigitRunAll(s, 10);
    assert SpaceRun(s) == 0;
    assert s[0..] == s;
    assert s[0..][..|s|] == s;
  }

  /** `atoi` reads back what `%d` printed, for every non-negative `int`. */
  lemma AtoiDecimal(n: nat)
    requires n < TwoTo31
    ensures Atoi(DecimalString(n)) == n
  {
    var s := DecimalString(n);
    DecimalStringDigits(n);
    DigitRunAll(s, 10);
    assert SpaceRun(s) == 0;
    assert s[0..] == s;
    assert s[0..][..|s|] == s;
  }

  /** A leading zero digit adds nothing to the value, in any base. */
  lemma {:induction false} LeadingZero(ds: string, base: nat)
    ensures DigitsValue("0" + ds, base) == DigitsValue(ds, base)
    decreases |ds|
  {
    var s := "0" + ds;
    if |ds| == 0 {
      assert s[..0] == "";
    } else {
      assert s[..|s| - 1] == "0" + ds[..|ds| - 1];
      assert s[|s| - 1] == ds[|ds| - 1];
      LeadingZero(ds[..|ds| - 1], base);
    }
  }

  /** Text with no leading space or sign, whose digits from where base 0
      starts them are worth `v`, converts to `v`. */
  lemma StrToLLUnsigned(s: string, base: nat, from: nat, v: nat)
    requires |s| > 0 && !IsSpace(s[0]) && s[0] != '-' && s[0] != '+'
    requires AutoBase(s, 0) == (base, from) && from <= |s|
    requires LeadingValue(s, from, base) == v && v < TwoTo63
    ensures StrToLL(s) == v
  {
    assert SpaceRun(s) == 0;
  }

  /** Text with no leading space or sign, whose leading decimal digits are
      worth `v`, is `v` to `atoi`. */
  lemma AtoiUnsigned(s: string, v: nat)
    requires |s| > 0 && !IsSpace(s[0]) && s[0] != '-' && s[0] != '+'
    requires LeadingValue(s, 0, 10) == v && v < TwoTo31
    ensures Atoi(s) == v
  {
    assert SpaceRun(s) == 0;
  }

  /** All of "0" + `ds` is digits of `base` when `ds` is. */
  lemma ZeroThenDigits(ds: string, base: nat)
    requires base > 0
    requires forall i :: 0 <= i < |ds| ==> IsDigitOf(ds[i], base)
    ensures LeadingValue("0" + ds, 0, base) == DigitsValue(ds, base)
  {
    var s := "0" + ds;
    assert forall i :: 0 < i < |s| ==> s[i] == ds[i - 1];
    DigitRunAll(s, base);
    LeadingZero(ds, base);
    assert s[0..] == s && s[0..][..|s|] == s;
  }

  /** `atoi` does not see a base prefix: "0" followed by decimal digits is
      read in base 10 ("010" is ten). */
  lemma AtoiIgnoresOctal(ds: string)
    requires forall i :: 0 <= i < |ds| ==> IsDigitOf(ds[i], 10)
    requires DigitsValue(ds, 10) < TwoTo31
    ensures Atoi("0" + ds) == DigitsValue(ds, 10)
  {
    var s := "0" + ds;
    assert s[0] == '0';
    ZeroThenDigits(ds, 10);
    AtoiUnsigned(s, DigitsValue(ds, 10));
  }

  /** `strtoll` with base 0 reads a leading 0 as octal: "0" followed by
      octal digits is their base-8 value ("010" is eight). */
  lemma StrToLLOctal(ds: string)
    requires forall i :: 0 <= i < |ds| ==> IsDigitOf(ds[i], 8)
    requires DigitsValue(ds, 8) < TwoTo63
    ensures StrToLL("0" + ds) == DigitsValue(ds, 8)
  {
    var s := "0" + ds;
    assert s[0] == '0' && (|s| > 1 ==> s[1] == ds[0]);
    ZeroThenDigits(ds, 8);
    assert AutoBase(s, 0) == (8, 0);
    StrToLLUnsigned(s, 8, 0, DigitsValue(ds, 8));
  }

  /** `strtoll` with base 0 reads "0x" or "0X" as a hex prefix: followed by
      hex digits, the text is their base-16 value ("0x10" is sixteen). */
  lemma StrToLLHex(x: char, ds: string)
    requires x == 'x' || x == 'X'
    requires |ds| >= 1 && forall i :: 0 <= i < |ds| ==> IsDigitOf(ds[i], 16)
    requires DigitsValue(ds, 16) < TwoTo63
    ensures StrToLL(['0', x] + ds) == DigitsValue(ds, 16)
  {
    var s := ['0', x] + ds;
    assert s[2] == ds[0];
    assert AutoBase(s, 0) == (16, 2);
    assert s[2..] == ds;
    DigitRunAll(ds, 16);
    assert ds[..|ds|] == ds;
    StrToLLUnsigned(s, 16, 2, DigitsValue(ds, 16));
  }

  /** A decimal text of a value below 10^k has at most k digits. */
  lemma {:induction false} DecimalStringLength(n: nat, k: nat, bound: nat)
    requires k >= 1 && bound == Pow10(k) && n < bound
    ensures |DecimalString(n)| <= k
    decreases k
  {
    if n >= 10 {
      assert Pow10(1) == 10;
      assert n / 10 < Pow10(k - 1);
      DecimalStringLength(n / 10, k - 1, Pow10(k - 1));
    }
  }

  function Pow10(k: nat): (r: nat)
    ensures r >= 1
  {
    if k == 0 then 1 else 10 * Pow10(k - 1)
  }

  lemma Pow10Twenty()
    ensures Pow10(20) > TwoTo64
  {
    assert Pow10(5) == 100000;
    assert Pow10(10) == 10000000000 by {
      assert Pow10(10) == 100000 * Pow10(5);
    }
    assert Pow10(15) == 1000000000000000 by {
      assert Pow10(15) == 100000 * Pow10(10);
    }
    assert Pow10(20) == 100000000000000000000 by {
      assert Pow10(20) == 100000 * Pow10(15);
    }
  }

  /** Every 64-bit value prints in at most 20 characters, so the
      disassembler's 32-byte buffers and the assembler's 21-byte token
      buffer hold it with its terminator. */
  lemma DecimalStringFitsU64(n: nat)
    requires n < TwoTo64
    ensures |DecimalString(n)| <= 20
  {
    Pow10Twenty();
    DecimalStringLength(n, 20, Pow10(20));
  }
}
