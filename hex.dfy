/** Bytes and their lowercase hexadecimal text: how the ingest function turns the SHA-256
    digest into the report hash (`b.toString(16).padStart(2, '0')` per byte, joined with ''). */
module Hex {
  import opened Wrappers

  type byte = b: int | 0 <= b < 256

  predicate IsLowerHexDigit(c: char) {
    '0' <= c <= '9' || 'a' <= c <= 'f'
  }

  /** A hexadecimal digit in either case, as a regular expression `[0-9A-Fa-f]` accepts it. */
  predicate IsHexDigit(c: char) {
    '0' <= c <= '9' || 'a' <= c <= 'f' || 'A' <= c <= 'F'
  }

  /** The lowercase digit for a value below 16, the one `Number.prototype.toString(16)` writes. */
  function Digit(n: nat): (c: char)
    requires n < 16
    ensures IsLowerHexDigit(c)
  {
    if n < 10 then ('0' as int + n) as char else ('a' as int + n - 10) as char
  }

  /** The value of a hexadecimal digit in either case. */
  function DigitValue(c: char): (n: nat)
    requires IsHexDigit(c)
    ensures n < 16
  {
    if '0' <= c <= '9' then c as int - '0' as int
    else if 'a' <= c <= 'f' then c as int - 'a' as int + 10
    else c as int - 'A' as int + 10
  }

  lemma DigitRoundTrip(n: nat)
    requires n < 16
    ensures DigitValue(Digit(n)) == n
  {
  }

  /** `b.toString(16)` for a byte: the shortest lowercase hexadecimal numeral, no leading zero. */
  function ToString16(b: byte): string {
    if b < 16 then [Digit(b)] else [Digit(b / 16), Digit(b % 16)]
  }

  /** `toString(16)` of a byte is its shortest numeral: one or two lowercase digits, one exactly
      below 16, no leading zero unless the byte is 0, and the digits denote the byte. */
  lemma ToString16Numeral(b: byte)
    ensures var r := ToString16(b);
      && 1 <= |r| <= 2 && (|r| == 1 <==> b < 16)
      && (forall i :: 0 <= i < |r| ==> IsLowerHexDigit(r[i]) && IsHexDigit(r[i]))
      && (r[0] == '0' ==> b == 0)
      && b == if |r| == 1 then DigitValue(r[0]) else DigitValue(r[0]) * 16 + DigitValue(r[1])
  {
    DigitRoundTrip(b / 16);
    DigitRoundTrip(b % 16);
  }

  /** `s.padStart(2, '0')`: left-pads with '0' to length 2, leaves longer strings alone. */
  function PadStart2(s: string): string {
    if |s| >= 2 then s else seq(2 - |s|, _ => '0') + s
  }

  /** The padded text has length 2, or the original length when that is longer; it ends with
      the original text, and everything before it is '0'. */
  lemma PadStart2Shape(s: string)
    ensures var r := PadStart2(s);
      && |r| == (if |s| >= 2 then |s| else 2)
      && r[|r| - |s|..] == s
      && forall i :: 0 <= i < |r| - |s| ==> r[i] == '0'
  {
  }

  /** One byte as two lowercase hexadecimal digits, high nibble first. */
  function ByteToHex(b: byte): (r: string)
    ensures r == [Digit(b / 16), Digit(b % 16)]
  {
    PadStart2(ToString16(b))
  }

  /** `bytes.map(b => b.toString(16).padStart(2, '0')).join('')`. */
  function Encode(bytes: seq<byte>): (r: string)
    ensures |r| == 2 * |bytes|
    ensures forall i :: 0 <= i < |r| ==> IsLowerHexDigit(r[i])
  {
    if bytes == [] then [] else ByteToHex(bytes[0]) + Encode(bytes[1..])
  }

  /** Reads digit pairs back into bytes; fails on odd length or a non-digit. */
  function Decode(s: string): (r: Option<seq<byte>>)
    decreases |s|
  {
    if s == [] then Some([])
    else if |s| == 1 || !IsHexDigit(s[0]) || !IsHexDigit(s[1]) then None
    else match Decode(s[2..])
      case None => None
      case Some(rest) => Some([DigitValue(s[0]) * 16 + DigitValue(s[1])] + rest)
  }

  lemma {:induction false} DecodeEncode(bytes: seq<byte>)
    ensures Decode(Encode(bytes)) == Some(bytes)
  {
    if bytes != [] {
      var b := bytes[0];
      var s := Encode(bytes);
      assert s == [Digit(b / 16), Digit(b % 16)] + Encode(bytes[1..]);
      assert s[2..] == Encode(bytes[1..]);
      DigitRoundTrip(b / 16);
      DigitRoundTrip(b % 16);
      DecodeEncode(bytes[1..]);
      assert [b] + bytes[1..] == bytes;
    }
  }

  /** Different byte strings never give the same hexadecimal text. */
  lemma EncodeInjective(a: seq<byte>, b: seq<byte>)
    requires Encode(a) == Encode(b)
    ensures a == b
  {
    DecodeEncode(a);
    DecodeEncode(b);
  }

  /** The pair at position 2k of the text is the k-th byte. */
  lemma {:induction false} EncodeAt(bytes: seq<byte>, k: nat)
    requires k < |bytes|
    ensures Encode(bytes)[2 * k .. 2 * k + 2] == ByteToHex(bytes[k])
  {
    if k > 0 {
      EncodeAt(bytes[1..], k - 1);
      assert Encode(bytes) == ByteToHex(bytes[0]) + Encode(bytes[1..]);
      assert Encode(bytes)[2 * k .. 2 * k + 2] == Encode(bytes[1..])[2 * (k - 1) .. 2 * (k - 1) + 2];
    }
  }

  /** The texts Decode accepts are exactly the even-length strings of hexadecimal digits, in
      either case, and each pair gives one byte. */
  lemma {:induction false} DecodeAccepts(s: string)
    ensures Decode(s).Some? <==> |s| % 2 == 0 && forall i :: 0 <= i < |s| ==> IsHexDigit(s[i])
    ensures Decode(s).Some? ==> |Decode(s).value| == |s| / 2
    decreases |s|
  {
    if |s| >= 2 {
      DecodeAccepts(s[2..]);
      assert forall i :: 2 <= i < |s| ==> s[i] == s[2..][i - 2];
    }
  }
}
