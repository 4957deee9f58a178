/**
 Byte strings and the text forms the protocol passes around: hexadecimal,
 decimal and UTF-8. Each printer is paired with the parser the source uses and
 with the lemma that the parser undoes it.
 */
module Text {
  import opened Wrappers

  type byte = x: int | 0 <= x < 256

  type Bytes = seq<byte>

  // ---------- Hexadecimal ----------

  function HexDigit(n: nat): (c: char)
    requires n < 16
    ensures HexValue(c) == Some(n)
  {
    "0123456789abcdef"[n]
  }

  function HexValue(c: char): (v: Option<nat>)
    ensures v.Some? ==> v.value < 16
  {
    if '0' <= c <= '9' then Some(c as int - '0' as int)
    else if 'a' <= c <= 'f' then Some(c as int - 'a' as int + 10)
    else if 'A' <= c <= 'F' then Some(c as int - 'A' as int + 10)
    else None
  }

  /** `bytes.hex()` and `binascii.hexlify`. */
  function ToHex(b: Bytes): (s: string)
    ensures |s| == 2 * |b|
  {
    if b == [] then "" else [HexDigit(b[0] / 16), HexDigit(b[0] % 16)] + ToHex(b[1..])
  }

  /** The white space that `bytearray.fromhex` skips between bytes. */
  predicate IsHexSpace(c: char) {
    c in {' ', '\t', '\n', '\r', 11 as char, 12 as char}
  }

  /** `bytearray.fromhex`: pairs of digits of either case, white space allowed between pairs. */
  function FromHex(s: string): Result<Bytes>
    decreases |s|
  {
    if s == [] then Ok([])
    else if IsHexSpace(s[0]) then FromHex(s[1..])
    else if |s| == 1 || HexValue(s[0]).None? || HexValue(s[1]).None? then Err(ValueError)
    else
      var rest :- FromHex(s[2..]);
      Ok([16 * HexValue(s[0]).value + HexValue(s[1]).value] + rest)
  }

  /** `binascii.unhexlify`: no white space. */
  function Unhexlify(s: string): Result<Bytes>
    decreases |s|
  {
    if s == [] then Ok([])
    else if |s| == 1 || HexValue(s[0]).None? || HexValue(s[1]).None? then Err(ValueError)
    else
      var rest :- Unhexlify(s[2..]);
      Ok([16 * HexValue(s[0]).value + HexValue(s[1]).value] + rest)
  }

  lemma {:induction false} HexRoundTrip(b: Bytes)
    ensures FromHex(ToHex(b)) == Ok(b)
    ensures Unhexlify(ToHex(b)) == Ok(b)
  {
    if b != [] {
      HexRoundTrip(b[1..]);
      assert ToHex(b)[2..] == ToHex(b[1..]);
      assert b == [b[0]] + b[1..];
    }
  }

  /** Digits 2k and 2k+1 are the high and low half of byte k. */
  lemma {:induction false} HexDigitsOf(b: Bytes, k: nat)
    requires k < |b|
    ensures HexValue(ToHex(b)[2 * k]) == Some(b[k] / 16)
    ensures HexValue(ToHex(b)[2 * k + 1]) == Some(b[k] % 16)
  {
    if k > 0 {
      HexDigitsOf(b[1..], k - 1);
      assert ToHex(b)[2..] == ToHex(b[1..]);
      assert ToHex(b)[2 * k] == ToHex(b)[2..][2 * (k - 1)];
      assert ToHex(b)[2 * k + 1] == ToHex(b)[2..][2 * (k - 1) + 1];
    }
  }

  // ---------- Decimal ----------

  predicate IsDigit(c: char) {
    '0' <= c <= '9'
  }

  function DigitValue(c: char): nat
    requires IsDigit(c)
  {
    c as int - '0' as int
  }

  /** `str(n)` of a non-negative integer. */
  function Decimal(n: nat): (s: string)
    ensures s != []
    ensures forall i :: 0 <= i < |s| ==> IsDigit(s[i])
  {
    if n < 10 then ["0123456789"[n]] else Decimal(n / 10) + ["0123456789"[n % 10]]
  }

  /** `int(s)` of a string of plain digits. */
  function ParseDecimal(s: string): Result<nat> {
    if s == [] then Err(ValueError)
    else
      var last := s[|s| - 1];
      if !IsDigit(last) then Err(ValueError)
      else if |s| == 1 then Ok(DigitValue(last))
      else
        var front :- ParseDecimal(s[..|s| - 1]);
        Ok(10 * front + DigitValue(last))
  }

  lemma {:induction false} DecimalRoundTrip(n: nat)
    ensures ParseDecimal(Decimal(n)) == Ok(n)
  {
    if n >= 10 {
      DecimalRoundTrip(n / 10);
      assert Decimal(n)[..|Decimal(n)| - 1] == Decimal(n / 10);
    }
  }

  /** The last digit is the number modulo ten, the digits before it spell the quotient. */
  lemma DecimalDigits(n: nat)
    ensures var s := Decimal(n);
            && DigitValue(s[|s| - 1]) == n % 10
            && (n < 10 ==> |s| == 1) && (n >= 10 ==> s[..|s| - 1] == Decimal(n / 10))
  {
  }

  lemma DecimalInjective(m: nat, n: nat)
    requires Decimal(m) == Decimal(n)
    ensures m == n
  {
    DecimalRoundTrip(m);
    DecimalRoundTrip(n);
  }

  // ---------- Characters to bytes ----------

  function Utf8Char(c: char): Bytes {
    var n := c as int;
    if n < 0x80 then [n]
    else if n < 0x800 then [0xC0 + n / 64, 0x80 + n % 64]
    else if n < 0x10000 then [0xE0 + n / 4096, 0x80 + n / 64 % 64, 0x80 + n % 64]
    else [0xF0 + n / 262144 % 8, 0x80 + n / 4096 % 64, 0x80 + n / 64 % 64, 0x80 + n % 64]
  }

  /** `s.encode()`. */
  function Utf8(s: string): Bytes {
    if s == [] then [] else Utf8Char(s[0]) + Utf8(s[1..])
  }

  predicate IsAscii(s: string) {
    forall i :: 0 <= i < |s| ==> s[i] as int < 0x80
  }

  /** `b.decode()` of 7-bit text; anything else is refused. */
  function DecodeAscii(b: Bytes): Result<string> {
    if b == [] then Ok("")
    else if b[0] >= 0x80 then Err(ValueError)
    else
      var rest :- DecodeAscii(b[1..]);
      Ok([b[0] as char] + rest)
  }

  lemma {:induction false} AsciiRoundTrip(s: string)
    requires IsAscii(s)
    ensures DecodeAscii(Utf8(s)) == Ok(s)
  {
    if s != [] {
      assert IsAscii(s[1..]);
      AsciiRoundTrip(s[1..]);
      assert Utf8(s)[1..] == Utf8(s[1..]);
      assert s == [s[0]] + s[1..];
    }
  }

  /** 7-bit characters are their own bytes. */
  lemma {:induction false} AsciiBytes(s: string)
    requires IsAscii(s)
    ensures |Utf8(s)| == |s| && forall i :: 0 <= i < |s| ==> Utf8(s)[i] == s[i] as int
  {
    if s != [] {
      assert IsAscii(s[1..]);
      AsciiBytes(s[1..]);
    }
  }

  // ---------- Comma separation ----------

  /** `s.split(c)`. */
  function Split(s: string, c: char): (parts: seq<string>)
    ensures parts != []
  {
    if s == [] then [""]
    else
      var rest := Split(s[1..], c);
      if s[0] == c then [""] + rest else [[s[0]] + rest[0]] + rest[1..]
  }

  lemma {:induction false} SplitWithout(s: string, c: char)
    requires c !in s
    ensures Split(s, c) == [s]
  {
    if s != [] {
      SplitWithout(s[1..], c);
      assert s == [s[0]] + s[1..];
    }
  }

  lemma {:induction false} SplitPair(a: string, b: string, c: char)
    requires c !in a && c !in b
    ensures Split(a + [c] + b, c) == [a, b]
  {
    var s := a + [c] + b;
    if a == [] {
      assert s[1..] == b;
      SplitWithout(b, c);
    } else {
      assert s[1..] == a[1..] + [c] + b;
      SplitPair(a[1..], b, c);
      assert a == [a[0]] + a[1..];
    }
  }
}
