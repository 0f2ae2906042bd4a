/**
 * Bytes and their lowercase hexadecimal text, as Node's `Buffer` produces
 * (`buf.toString("hex")`) and reads (`Buffer.from(s, "hex")`) them.
 */
module Hex {

  type byte = x: int | 0 <= x < 256

  /** The lowercase digit for a value below 16, as in "0123456789abcdef". */
  function Digit(k: int): (c: char)
    requires 0 <= k < 16
    ensures IsLowerHexDigit(c)
  {
    if k < 10 then '0' + k as char else 'a' + (k - 10) as char
  }

  /** Value of one hexadecimal digit, either case; -1 for any other character. */
  function DigitValue(c: char): (v: int)
    ensures -1 <= v < 16
    ensures v == -1 <==> !('0' <= c <= '9' || 'a' <= c <= 'f' || 'A' <= c <= 'F')
  {
    if '0' <= c <= '9' then c as int - '0' as int
    else if 'a' <= c <= 'f' then c as int - 'a' as int + 10
    else if 'A' <= c <= 'F' then c as int - 'A' as int + 10
    else -1
  }

  predicate IsLowerHexDigit(c: char) {
    '0' <= c <= '9' || 'a' <= c <= 'f'
  }

  /** The text `buf.toString("hex")` yields: two lowercase digits per byte. */
  function Encode(b: seq<byte>): (s: string)
    ensures |s| == 2 * |b|
  {
    if b == [] then []
    else [Digit(b[0] / 16), Digit(b[0] % 16)] + Encode(b[1..])
  }

  /**
   * What `Buffer.from(s, "hex")` yields: one byte per pair of digits, read
   * until the first pair holding a non-digit; a lone trailing character is
   * ignored. It never fails.
   */
  function Decode(s: string): (b: seq<byte>)
    ensures |b| <= |s| / 2
  {
    if |s| < 2 then []
    else
      var hi, lo := DigitValue(s[0]), DigitValue(s[1]);
      if hi < 0 || lo < 0 then [] else [hi * 16 + lo] + Decode(s[2..])
  }

  /** Text that `Encode` can produce: even length, lowercase digits only. */
  predicate IsCanonical(s: string) {
    |s| % 2 == 0 && forall i :: 0 <= i < |s| ==> IsLowerHexDigit(s[i])
  }

  /** Each lowercase digit reads back as the value it was chosen for. */
  lemma DigitRoundTrip(k: int)
    requires 0 <= k < 16
    ensures DigitValue(Digit(k)) == k
  {
  }

  /** A lowercase digit is the digit of its own value. */
  lemma LowerDigit(c: char)
    requires IsLowerHexDigit(c)
    ensures 0 <= DigitValue(c) < 16 && Digit(DigitValue(c)) == c
  {
  }

  /** A byte splits into its high and low hex digit and is rebuilt from them. */
  lemma SplitByte(x: byte)
    ensures 0 <= x / 16 < 16 && 0 <= x % 16 < 16
    ensures (x / 16) * 16 + x % 16 == x
  {
  }

  lemma JoinDigits(hi: int, lo: int)
    requires 0 <= hi < 16 && 0 <= lo < 16
    ensures 0 <= hi * 16 + lo < 256
    ensures (hi * 16 + lo) / 16 == hi && (hi * 16 + lo) % 16 == lo
  {
  }

  /** The hex text of `[x] + rest` starts with the two digits of `x`. */
  lemma EncodeCons(x: byte, rest: seq<byte>)
    ensures Encode([x] + rest) == [Digit(x / 16), Digit(x % 16)] + Encode(rest)
  {
    assert ([x] + rest)[0] == x && ([x] + rest)[1..] == rest;
  }

  /** The text `Encode` produces is canonical. */
  lemma {:induction false} EncodeCanonical(b: seq<byte>)
    ensures IsCanonical(Encode(b))
  {
    if b != [] {
      EncodeCanonical(b[1..]);
      var s := Encode(b);
      assert s == [Digit(b[0] / 16), Digit(b[0] % 16)] + Encode(b[1..]);
      forall i | 0 <= i < |s| ensures IsLowerHexDigit(s[i]) {
        if i >= 2 {
          assert s[i] == Encode(b[1..])[i - 2];
        }
      }
    }
  }

  /** Decoding the hex text of any bytes gives those bytes back. */
  lemma {:induction false} DecodeEncode(b: seq<byte>)
    ensures Decode(Encode(b)) == b
  {
    if b != [] {
      var s := Encode(b);
      var hi, lo := b[0] / 16, b[0] % 16;
      SplitByte(b[0]);
      DigitRoundTrip(hi);
      DigitRoundTrip(lo);
      assert s == [Digit(hi), Digit(lo)] + Encode(b[1..]);
      assert s[0] == Digit(hi) && s[1] == Digit(lo);
      assert s[2..] == Encode(b[1..]);
      DecodeEncode(b[1..]);
      assert Decode(s) == [hi * 16 + lo] + Decode(s[2..]);
    }
  }

  /** The byte with digits `hi` and `lo` encodes to exactly those two digits. */
  lemma EncodePair(hi: int, lo: int, rest: seq<byte>)
    requires 0 <= hi < 16 && 0 <= lo < 16
    ensures 0 <= hi * 16 + lo < 256
    ensures Encode([hi * 16 + lo] + rest) == [Digit(hi), Digit(lo)] + Encode(rest)
  {
    JoinDigits(hi, lo);
    EncodeCons(hi * 16 + lo, rest);
  }

  /** Two leading digits decode to one byte. */
  lemma DecodePair(s: string)
    requires |s| >= 2 && 0 <= DigitValue(s[0]) && 0 <= DigitValue(s[1])
    ensures Decode(s) == [DigitValue(s[0]) * 16 + DigitValue(s[1])] + Decode(s[2..])
  {
  }

  /** Canonical hex text survives a decode followed by an encode unchanged. */
  lemma {:induction false} EncodeDecode(s: string)
    requires IsCanonical(s)
    ensures Encode(Decode(s)) == s
  {
    if |s| >= 2 {
      assert IsLowerHexDigit(s[0]) && IsLowerHexDigit(s[1]);
      assert IsCanonical(s[2..]) by {
        forall i | 0 <= i < |s[2..]| ensures IsLowerHexDigit(s[2..][i]) {
          assert s[2..][i] == s[i + 2];
        }
      }
      EncodeDecode(s[2..]);
      var hi, lo := DigitValue(s[0]), DigitValue(s[1]);
      LowerDigit(s[0]);
      LowerDigit(s[1]);
      DecodePair(s);
      EncodePair(hi, lo, Decode(s[2..]));
      assert s == [s[0], s[1]] + s[2..];
    }
  }

  /** Encoding is injective: distinct byte strings never share a hex text. */
  lemma EncodeInjective(a: seq<byte>, b: seq<byte>)
    requires Encode(a) == Encode(b)
    ensures a == b
  {
    DecodeEncode(a);
    DecodeEncode(b);
  }
}
