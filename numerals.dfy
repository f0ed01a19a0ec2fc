/** Numerals: the digit strings the engine writes (decimal slot numbers,
    hexadecimal addresses) and the hexadecimal text it reads back from the
    RTTI tables with Python's `int(s, 16)`. */
module Numerals {

  function DigitChar(d: nat): char
    requires d < 16
  {
    if d < 10 then ('0' as int + d) as char else ('a' as int + d - 10) as char
  }

  /** The value of a digit character, in either case. */
  function DigitValue(c: char): nat
  {
    if '0' <= c <= '9' then c as int - '0' as int
    else if 'a' <= c <= 'f' then c as int - 'a' as int + 10
    else if 'A' <= c <= 'F' then c as int - 'A' as int + 10
    else 0
  }

  /** The digits of `n` in `base`, most significant first, no leading zero. */
  function Digits(n: nat, base: nat): (s: string)
    requires 2 <= base <= 16
    ensures |s| >= 1
    decreases n
  {
    if n < base then [DigitChar(n)] else Digits(n / base, base) + [DigitChar(n % base)]
  }

  /** The number a digit string denotes in `base`. */
  function Value(s: string, base: nat): nat
    decreases |s|
  {
    if |s| == 0 then 0 else Value(s[..|s| - 1], base) * base + DigitValue(s[|s| - 1])
  }

  lemma DigitRoundTrip(d: nat)
    requires d < 16
    ensures DigitValue(DigitChar(d)) == d
  {
  }

  lemma ValueSnoc(p: string, c: char, base: nat)
    ensures Value(p + [c], base) == Value(p, base) * base + DigitValue(c)
  {
    assert (p + [c])[..|p|] == p;
  }

  /** Reading the digits of `n` back gives `n`. */
  lemma {:induction false} DigitsValue(n: nat, base: nat)
    requires 2 <= base <= 16
    ensures Value(Digits(n, base), base) == n
    decreases n
  {
    if n < base {
      DigitRoundTrip(n);
      ValueSnoc([], DigitChar(n), base);
      assert [] + [DigitChar(n)] == Digits(n, base);
    } else {
      var q, d := n / base, n % base;
      assert q < n && n == q * base + d && d < base by {
        DivMod(n, base);
      }
      assert Digits(n, base) == Digits(q, base) + [DigitChar(d)];
      DigitsValue(q, base);
      DigitRoundTrip(d);
      ValueSnoc(Digits(q, base), DigitChar(d), base);
    }
  }

  lemma DivMod(n: nat, base: nat)
    requires 2 <= base <= n
    ensures n / base < n && n == n / base * base + n % base && n % base < base
  {
  }

  // ---------------------------------------------------------------------
  // Hexadecimal text, as `int(s, 16)` reads it

  predicate HexDigit(c: char)
  {
    '0' <= c <= '9' || 'a' <= c <= 'f' || 'A' <= c <= 'F'
  }

  /** One or more hexadecimal digits. */
  predicate HexDigits(s: string)
    decreases |s|
  {
    |s| > 0 && HexDigit(s[0]) && (|s| == 1 || HexDigits(s[1..]))
  }

  lemma {:induction false} HexDigitsSnoc(p: string, c: char)
    requires HexDigits(p) && HexDigit(c)
    ensures HexDigits(p + [c])
    decreases |p|
  {
    assert (p + [c])[0] == p[0];
    if |p| > 1 {
      HexDigitsSnoc(p[1..], c);
      assert (p + [c])[1..] == p[1..] + [c];
    } else {
      assert (p + [c])[1..] == [c];
    }
  }

  /** `s` without a leading sign. */
  function Unsigned(s: string): string
  {
    if |s| > 0 && (s[0] == '-' || s[0] == '+') then s[1..] else s
  }

  /** `s` without a leading `0x` or `0X`. */
  function Unprefixed(s: string): string
  {
    if |s| >= 2 && s[0] == '0' && (s[1] == 'x' || s[1] == 'X') then s[2..] else s
  }

  /** The text `int(s, 16)` accepts: an optional sign, an optional `0x`
      prefix, then one or more hexadecimal digits. */
  predicate HexNumeral(s: string)
  {
    HexDigits(Unprefixed(Unsigned(s)))
  }

  /** What `int(s, 16)` returns for such a text. */
  function HexValue(s: string): int
    requires HexNumeral(s)
  {
    var m: int := Value(Unprefixed(Unsigned(s)), 16);
    if |s| > 0 && s[0] == '-' then -m else m
  }

  /** `n` in hexadecimal, lower case; with the prefix this is Python's `hex(n)`. */
  function HexText(n: int, prefixed: bool): string
  {
    (if n < 0 then "-" else "") + (if prefixed then "0x" else "") + Digits(if n < 0 then -n else n, 16)
  }

  lemma {:induction false} DigitsAreHex(n: nat)
    ensures HexDigits(Digits(n, 16))
    decreases n
  {
    if n >= 16 {
      DigitsAreHex(n / 16);
      HexDigitsSnoc(Digits(n / 16, 16), DigitChar(n % 16));
    }
  }

  /** `int(·, 16)` inverts `hex`, and reads bare digits as well. */
  lemma HexRoundTrip(n: int, prefixed: bool)
    ensures HexNumeral(HexText(n, prefixed)) && HexValue(HexText(n, prefixed)) == n
  {
    var m: nat := if n < 0 then -n else n;
    DigitsAreHex(m);
    DigitsValue(m, 16);
    StripText(n < 0, prefixed, Digits(m, 16));
  }

  /** Stripping the sign and the prefix of a signed, prefixed digit string
      leaves the digits; the text starts with '-' exactly when signed. */
  lemma StripText(negative: bool, prefixed: bool, d: string)
    requires HexDigits(d)
    ensures var s := (if negative then "-" else "") + (if prefixed then "0x" else "") + d;
      Unprefixed(Unsigned(s)) == d && ((|s| > 0 && s[0] == '-') <==> negative)
  {
    var body := (if prefixed then "0x" else "") + d;
    var s := (if negative then "-" else "") + body;
    assert Unsigned(s) == body by {
      if negative {
        assert s[1..] == body;
      } else {
        assert s == body;
        assert HexDigit(d[0]);
      }
    }
    assert Unprefixed(body) == d by {
      if prefixed {
        assert body[2..] == d;
      } else {
        assert body == d;
        if |d| >= 2 {
          assert HexDigit(d[1..][0]);
        }
      }
    }
    if !negative {
      assert s[0] == body[0];
      assert prefixed ==> body[0] == '0';
      assert !prefixed ==> HexDigit(d[0]) && body[0] == d[0];
    }
  }
}
