/** The reset token: 20 random bytes written as lower-case hexadecimal, two
    digits per byte, high nibble first (what `buffer.toString("hex")` yields). */
module Hex {

  import opened Maybe

  newtype byte = x: int | 0 <= x < 256

  /** `crypto.randomBytes(20, …)` */
  const TokenBytes: nat := 20

  const Digits: string := "0123456789abcdef"

  predicate IsHexDigit(c: char) {
    ('0' <= c <= '9') || ('a' <= c <= 'f')
  }

  function DigitChar(n: int): (c: char)
    requires 0 <= n < 16
    ensures IsHexDigit(c)
    ensures DigitValue(c) == Some(n)
  {
    Digits[n]
  }

  function DigitValue(c: char): (r: Option<int>)
    ensures r.Some? <==> IsHexDigit(c)
    ensures r.Some? ==> 0 <= r.value < 16
  {
    if '0' <= c <= '9' then Some(c as int - '0' as int)
    else if 'a' <= c <= 'f' then Some(c as int - 'a' as int + 10)
    else None
  }

  function Encode(bytes: seq<byte>): (s: string)
    ensures |s| == 2 * |bytes|
    ensures forall i :: 0 <= i < |s| ==> IsHexDigit(s[i])
  {
    if bytes == [] then []
    else [DigitChar(bytes[0] as int / 16), DigitChar(bytes[0] as int % 16)] + Encode(bytes[1..])
  }

  /** Reads pairs of lower-case hex digits back into bytes. */
  function Decode(s: string): (r: Option<seq<byte>>)
    ensures r.Some? ==> 2 * |r.value| == |s|
    decreases |s|
  {
    if s == [] then Some([])
    else if |s| == 1 then None
    else
      match (DigitValue(s[0]), DigitValue(s[1]), Decode(s[2..]))
      case (Some(hi), Some(lo), Some(rest)) => Some([(hi * 16 + lo) as byte] + rest)
      case _ => None
  }

  lemma {:induction false} DecodeEncode(bytes: seq<byte>)
    ensures Decode(Encode(bytes)) == Some(bytes)
  {
    if bytes != [] {
      var s := Encode(bytes);
      var b := bytes[0] as int;
      assert s[0] == DigitChar(b / 16) && s[1] == DigitChar(b % 16);
      assert s[2..] == Encode(bytes[1..]);
      DecodeEncode(bytes[1..]);
      Nibbles(b);
      assert [bytes[0]] + bytes[1..] == bytes;
    }
  }

  /** A byte is its high nibble times sixteen plus its low nibble. */
  lemma Nibbles(b: int)
    requires 0 <= b < 256
    ensures 0 <= b / 16 < 16 && (b / 16) * 16 + b % 16 == b
  {
  }

  /** Distinct bytes give distinct tokens. */
  lemma EncodeInjective(a: seq<byte>, b: seq<byte>)
    requires Encode(a) == Encode(b)
    ensures a == b
  {
    DecodeEncode(a);
    DecodeEncode(b);
  }
}
