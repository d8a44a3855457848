/** The string round trip that the collision probe goes through:
    `BigInt.prototype.toString(16)`, `String.prototype.padStart` with a
    one-character filler, and reading the joined digits back with
    `BigInt('0x' + digits)`. */
module Hex {

  const DIGITS: string := "0123456789abcdef"

  /** 16 to the k. */
  function Pow16(k: nat): (r: nat)
    ensures r >= 1
  {
    if k == 0 then 1 else 16 * Pow16(k - 1)
  }

  /** A character that `BigInt('0x…')` accepts as a digit. */
  predicate IsHexDigit(ch: char)
  {
    '0' <= ch <= '9' || 'a' <= ch <= 'f' || 'A' <= ch <= 'F'
  }

  predicate IsHex(s: string)
  {
    forall i :: 0 <= i < |s| ==> IsHexDigit(s[i])
  }

  function DigitValue(ch: char): (d: nat)
    requires IsHexDigit(ch)
    ensures d < 16
  {
    if '0' <= ch <= '9' then ch as int - '0' as int
    else if 'a' <= ch <= 'f' then ch as int - 'a' as int + 10
    else ch as int - 'A' as int + 10
  }

  /** `n.toString(16)`: lower-case digits, most significant first, no leading zero. */
  function ToHex(n: nat): (s: string)
    ensures |s| >= 1 && IsHex(s)
  {
    if n < 16 then [DIGITS[n]] else ToHex(n / 16) + [DIGITS[n % 16]]
  }

  /** `s.padStart(len, fill)`: fill on the left up to len characters; a longer s is kept whole. */
  function PadStart(s: string, len: nat, fill: char): (r: string)
    ensures |r| == if |s| >= len then |s| else len
    ensures r[|r| - |s|..] == s
    ensures forall i :: 0 <= i < |r| - |s| ==> r[i] == fill
  {
    if |s| >= len then s else seq(len - |s|, _ => fill) + s
  }

  /** The value of the digits in `BigInt('0x' + s)`. */
  function ParseHex(s: string): nat
    requires IsHex(s)
  {
    if s == [] then 0 else ParseHex(s[..|s| - 1]) * 16 + DigitValue(s[|s| - 1])
  }

  lemma DigitRoundTrip(d: nat)
    requires d < 16
    ensures IsHexDigit(DIGITS[d]) && DigitValue(DIGITS[d]) == d
  {
  }

  /** Reading back what `toString(16)` wrote gives the number. */
  lemma {:induction false} ParseToHex(n: nat)
    ensures ParseHex(ToHex(n)) == n
  {
    DigitRoundTrip(n % 16);
    if n >= 16 {
      ParseToHex(n / 16);
      var s := ToHex(n);
      assert s[..|s| - 1] == ToHex(n / 16);
    }
  }

  /** A number below 16^k takes at most k hex digits. */
  lemma {:induction false} ToHexShort(n: nat, k: nat)
    requires k >= 1 && n < Pow16(k)
    ensures |ToHex(n)| <= k
  {
    if n >= 16 {
      ToHexShort(n / 16, k - 1);
    }
  }

  /** Joining digit strings: the left part is worth 16^|b| times its value. */
  lemma {:induction false} ParseConcat(a: string, b: string)
    requires IsHex(a) && IsHex(b)
    ensures IsHex(a + b) && ParseHex(a + b) == ParseHex(a) * Pow16(|b|) + ParseHex(b)
  {
    if b == [] {
      assert a + b == a;
    } else {
      var b' := b[..|b| - 1];
      var d := DigitValue(b[|b| - 1]);
      assert (a + b)[..|a + b| - 1] == a + b';
      assert (a + b)[|a + b| - 1] == b[|b| - 1];
      ParseConcat(a, b');
      assert ParseHex(a + b) == ParseHex(a + b') * 16 + d;
      assert ParseHex(b) == ParseHex(b') * 16 + d;
      ShiftDigit(ParseHex(a), Pow16(|b'|), ParseHex(b'), d);
    }
  }

  /** Appending one digit to a two-part number multiplies both parts by 16. */
  lemma ShiftDigit(hi: nat, scale: nat, lo: nat, d: nat)
    ensures (hi * scale + lo) * 16 + d == hi * (scale * 16) + (lo * 16 + d)
  {
  }

  /** Joining three four-digit groups after a: each group shifts the
      value read so far by four hex digits. */
  lemma ParseJoin4(a: string, b: string, c: string, d: string)
    requires IsHex(a) && IsHex(b) && IsHex(c) && IsHex(d)
    requires |b| == 4 && |c| == 4 && |d| == 4
    ensures IsHex(a + b + c + d)
    ensures ParseHex(a + b + c + d)
              == ((ParseHex(a) * 0x10000 + ParseHex(b)) * 0x10000 + ParseHex(c)) * 0x10000 + ParseHex(d)
  {
    assert Pow16(4) == 0x10000;
    ParseConcat(a, b);
    ParseConcat(a + b, c);
    ParseConcat(a + b + c, d);
  }

  /** Leading zeros add nothing. */
  lemma {:induction false} ParseZeros(k: nat)
    ensures IsHex(seq(k, _ => '0')) && ParseHex(seq(k, _ => '0')) == 0
  {
    if k > 0 {
      assert seq(k, _ => '0')[..k - 1] == seq(k - 1, _ => '0');
      ParseZeros(k - 1);
    }
  }

  /** `n.toString(16).padStart(4, '0')` for a 16-bit n: exactly four digits worth n. */
  lemma Padded4(n: nat)
    requires n < 0x10000
    ensures IsHex(PadStart(ToHex(n), 4, '0'))
    ensures |PadStart(ToHex(n), 4, '0')| == 4
    ensures ParseHex(PadStart(ToHex(n), 4, '0')) == n
  {
    assert Pow16(4) == 0x10000;
    ToHexShort(n, 4);
    ParseToHex(n);
    var s := ToHex(n);
    var zeros := seq(4 - |s|, _ => '0');
    assert PadStart(s, 4, '0') == zeros + s;
    ParseZeros(4 - |s|);
    ParseConcat(zeros, s);
  }
}
