/**
 The hash function as a parameter. Nothing is assumed of it but its 32-byte
 output: where a hash hides two inputs, a lemma concludes with the collision.
 */
module Hashing {
  import opened Text
  import opened Wrappers

  const DIGEST_LENGTH := 32

  type Digest = d: Bytes | |d| == DIGEST_LENGTH witness seq(DIGEST_LENGTH, _ => 0)

  type HashFn = Bytes -> Digest

  /** Two different byte strings with one digest. */
  predicate Collision(hash: HashFn, x: Bytes, y: Bytes) {
    x != y && hash(x) == hash(y)
  }

  /** `int(hexdigest, 16)`: the digest as a big-endian number. */
  function BigEndian(b: Bytes): nat {
    if b == [] then 0 else 256 * BigEndian(b[..|b| - 1]) + b[|b| - 1]
  }

  /** `hash_data` of a byte string. */
  function HashData(hash: HashFn, data: Bytes): nat {
    BigEndian(hash(data))
  }

  /** `int(s, 16)` of a string of hexadecimal digits. */
  function ParseHexNumber(s: string): Result<nat> {
    if s == [] then Err(ValueError)
    else
      var last := HexValue(s[|s| - 1]);
      if last.None? then Err(ValueError)
      else if |s| == 1 then Ok(last.value)
      else
        var front :- ParseHexNumber(s[..|s| - 1]);
        Ok(16 * front + last.value)
  }

  lemma {:induction false} HexAppend(b: Bytes, last: byte)
    ensures ToHex(b + [last]) == ToHex(b) + [HexDigit(last / 16), HexDigit(last % 16)]
  {
    if b == [] {
      assert [last][1..] == [];
    } else {
      assert (b + [last])[1..] == b[1..] + [last];
      HexAppend(b[1..], last);
    }
  }

  lemma ParseDigit(s: string, digit: nat)
    requires digit < 16 && (s == [] || ParseHexNumber(s).Ok?)
    ensures ParseHexNumber(s + [HexDigit(digit)])
         == Ok(16 * (if s == [] then 0 else ParseHexNumber(s).value) + digit)
  {
    assert (s + [HexDigit(digit)])[..|s|] == s;
  }

  lemma ParseByte(s: string, b: byte)
    requires s == [] || ParseHexNumber(s).Ok?
    ensures ParseHexNumber(s + [HexDigit(b / 16), HexDigit(b % 16)])
         == Ok(256 * (if s == [] then 0 else ParseHexNumber(s).value) + b)
  {
    ParseDigit(s, b / 16);
    ParseDigit(s + [HexDigit(b / 16)], b % 16);
    assert s + [HexDigit(b / 16)] + [HexDigit(b % 16)] == s + [HexDigit(b / 16), HexDigit(b % 16)];
  }

  lemma BigEndianAppend(front: Bytes, last: byte)
    ensures BigEndian(front + [last]) == 256 * BigEndian(front) + last
  {
    assert (front + [last])[..|front|] == front;
  }

  lemma {:induction false} HexNumberOf(b: Bytes)
    requires b != []
    ensures ParseHexNumber(ToHex(b)) == Ok(BigEndian(b))
  {
    var front, last := b[..|b| - 1], b[|b| - 1];
    if front != [] {
      HexNumberOf(front);
    }
    HexAppend(front, last);
    ParseByte(ToHex(front), last);
    BigEndianAppend(front, last);
    assert b == front + [last];
  }

  /** `hash_data` is the number that the hexadecimal digits of the digest spell. */
  lemma HashDataIsHexNumber(hash: HashFn, data: Bytes)
    ensures ParseHexNumber(ToHex(hash(data))) == Ok(HashData(hash, data))
  {
    HexNumberOf(hash(data));
  }

  lemma {:induction false} BigEndianInjective(a: Bytes, b: Bytes)
    requires |a| == |b| && BigEndian(a) == BigEndian(b)
    ensures a == b
  {
    if a != [] {
      var n := |a| - 1;
      BigEndianInjective(a[..n], b[..n]);
      assert a == a[..n] + [a[n]] && b == b[..n] + [b[n]];
    }
  }

  /** Printing a hash as a number loses nothing: equal numbers are equal inputs or a collision. */
  lemma HashDataBinds(hash: HashFn, x: Bytes, y: Bytes)
    requires HashData(hash, x) == HashData(hash, y)
    ensures x == y || Collision(hash, x, y)
  {
    BigEndianInjective(hash(x), hash(y));
  }
}
