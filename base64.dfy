/** Base64 as section 4 of RFC 4648 defines it (alphabet A-Z a-z 0-9 + /, '=' padding), reached
    the way the report page reaches it: `btoa(String.fromCharCode(...bytes))`. */
module Base64 {
  import opened Wrappers
  import opened Hex

  /** The character for a 6-bit value (Table 1 of RFC 4648). */
  function Alphabet(n: nat): (c: char)
    requires n < 64
  {
    if n < 26 then ('A' as int + n) as char
    else if n < 52 then ('a' as int + n - 26) as char
    else if n < 62 then ('0' as int + n - 52) as char
    else if n == 62 then '+'
    else '/'
  }

  predicate IsAlphabetChar(c: char) {
    'A' <= c <= 'Z' || 'a' <= c <= 'z' || '0' <= c <= '9' || c == '+' || c == '/'
  }

  function AlphabetIndex(c: char): (n: nat)
    requires IsAlphabetChar(c)
    ensures n < 64
  {
    if 'A' <= c <= 'Z' then c as int - 'A' as int
    else if 'a' <= c <= 'z' then c as int - 'a' as int + 26
    else if '0' <= c <= '9' then c as int - '0' as int + 52
    else if c == '+' then 62
    else 63
  }

  lemma AlphabetRoundTrip(n: nat)
    requires n < 64
    ensures IsAlphabetChar(Alphabet(n)) && AlphabetIndex(Alphabet(n)) == n
  {
  }

  /** Every 3 bytes become 4 characters; a final 1 or 2 bytes become 2 or 3 characters
      padded with '=' to 4. */
  function Encode(b: seq<byte>): (r: string)
    ensures |r| == 4 * ((|b| + 2) / 3)
  {
    if |b| == 0 then []
    else if |b| == 1 then
      [Alphabet(b[0] / 4), Alphabet(b[0] % 4 * 16), '=', '=']
    else if |b| == 2 then
      [Alphabet(b[0] / 4), Alphabet(b[0] % 4 * 16 + b[1] / 16), Alphabet(b[1] % 16 * 4), '=']
    else
      [Alphabet(b[0] / 4), Alphabet(b[0] % 4 * 16 + b[1] / 16),
       Alphabet(b[1] % 16 * 4 + b[2] / 64), Alphabet(b[2] % 64)] + Encode(b[3..])
  }

  /** Reads groups of four characters back into bytes; fails on anything Encode cannot produce
      in that position. */
  function Decode(s: string): (r: Option<seq<byte>>)
    decreases |s|
  {
    if |s| == 0 then Some([])
    else if |s| < 4 || !IsAlphabetChar(s[0]) || !IsAlphabetChar(s[1]) then None
    else
      var i0, i1 := AlphabetIndex(s[0]), AlphabetIndex(s[1]);
      var b0: byte := i0 * 4 + i1 / 16;
      if s[2] == '=' then
        if s[3] == '=' && |s| == 4 then Some([b0]) else None
      else if !IsAlphabetChar(s[2]) then None
      else
        var i2 := AlphabetIndex(s[2]);
        var b1: byte := i1 % 16 * 16 + i2 / 4;
        if s[3] == '=' then
          if |s| == 4 then Some([b0, b1]) else None
        else if !IsAlphabetChar(s[3]) then None
        else
          var b2: byte := i2 % 4 * 64 + AlphabetIndex(s[3]);
          match Decode(s[4..])
          case None => None
          case Some(rest) => Some([b0, b1, b2] + rest)
  }

  /** The 6-bit pieces of a byte pair put back together. */
  lemma Nibbles(b0: byte, b1: byte)
    ensures (b0 % 4 * 16 + b1 / 16) / 16 == b0 % 4
    ensures (b0 % 4 * 16 + b1 / 16) % 16 == b1 / 16
    ensures b0 / 4 * 4 + b0 % 4 == b0
  {
  }

  lemma Crumbs(b1: byte, b2: byte)
    ensures (b1 % 16 * 4 + b2 / 64) / 4 == b1 % 16
    ensures (b1 % 16 * 4 + b2 / 64) % 4 == b2 / 64
    ensures b1 / 16 * 16 + b1 % 16 == b1
    ensures b2 / 64 * 64 + b2 % 64 == b2
  {
  }

  lemma DecodeOne(b0: byte)
    ensures Decode(Encode([b0])) == Some([b0])
  {
    AlphabetRoundTrip(b0 / 4);
    AlphabetRoundTrip(b0 % 4 * 16);
  }

  lemma DecodeTwo(b0: byte, b1: byte)
    ensures Decode(Encode([b0, b1])) == Some([b0, b1])
  {
    var i0, i1, i2 := b0 / 4, b0 % 4 * 16 + b1 / 16, b1 % 16 * 4;
    calc {
      Decode(Encode([b0, b1]));
      Decode([Alphabet(i0), Alphabet(i1), Alphabet(i2), '=']);
      { DecodeTriple(i0, i1, i2); }
      Some([i0 * 4 + i1 / 16, i1 % 16 * 16 + i2 / 4]);
      { Nibbles(b0, b1); Crumbs(b1, 0); }
      Some([b0, b1]);
    }
  }

  /** The step Decode takes over the characters of three 6-bit values and one padding character. */
  lemma DecodeTriple(i0: nat, i1: nat, i2: nat)
    requires i0 < 64 && i1 < 64 && i2 < 64
    ensures Decode([Alphabet(i0), Alphabet(i1), Alphabet(i2), '='])
         == Some([i0 * 4 + i1 / 16, i1 % 16 * 16 + i2 / 4])
  {
    AlphabetRoundTrip(i0);
    AlphabetRoundTrip(i1);
    AlphabetRoundTrip(i2);
  }

  /** The step Decode takes over the characters of four 6-bit values. */
  lemma DecodeQuad(i0: nat, i1: nat, i2: nat, i3: nat, tail: string)
    requires i0 < 64 && i1 < 64 && i2 < 64 && i3 < 64
    ensures Decode([Alphabet(i0), Alphabet(i1), Alphabet(i2), Alphabet(i3)] + tail)
         == match Decode(tail)
            case None => None
            case Some(rest) => Some([i0 * 4 + i1 / 16, i1 % 16 * 16 + i2 / 4, i2 % 4 * 64 + i3] + rest)
  {
    AlphabetRoundTrip(i0);
    AlphabetRoundTrip(i1);
    AlphabetRoundTrip(i2);
    AlphabetRoundTrip(i3);
    var s := [Alphabet(i0), Alphabet(i1), Alphabet(i2), Alphabet(i3)] + tail;
    assert s[4..] == tail;
  }

  /** The four 6-bit pieces of three bytes put back together. */
  lemma Regather(b0: byte, b1: byte, b2: byte)
    ensures (b0 / 4) * 4 + (b0 % 4 * 16 + b1 / 16) / 16 == b0
    ensures (b0 % 4 * 16 + b1 / 16) % 16 * 16 + (b1 % 16 * 4 + b2 / 64) / 4 == b1
    ensures (b1 % 16 * 4 + b2 / 64) % 4 * 64 + b2 % 64 == b2
  {
    Nibbles(b0, b1);
    Crumbs(b1, b2);
  }

  lemma DecodeGroup(b0: byte, b1: byte, b2: byte, tail: string)
    ensures Decode([Alphabet(b0 / 4), Alphabet(b0 % 4 * 16 + b1 / 16),
                    Alphabet(b1 % 16 * 4 + b2 / 64), Alphabet(b2 % 64)] + tail)
         == match Decode(tail)
            case None => None
            case Some(rest) => Some([b0, b1, b2] + rest)
  {
    Regather(b0, b1, b2);
    DecodeQuad(b0 / 4, b0 % 4 * 16 + b1 / 16, b1 % 16 * 4 + b2 / 64, b2 % 64, tail);
  }

  /** Decoding the first group of a text of three or more bytes, and the rest as before. */
  lemma DecodeEncodeStep(b: seq<byte>)
    requires |b| > 2 && Decode(Encode(b[3..])) == Some(b[3..])
    ensures Decode(Encode(b)) == Some(b)
  {
    var b0, b1, b2, t := b[0], b[1], b[2], Encode(b[3..]);
    calc {
      Decode(Encode(b));
      { EncodeHead(b); }
      Decode([Alphabet(b0 / 4), Alphabet(b0 % 4 * 16 + b1 / 16),
              Alphabet(b1 % 16 * 4 + b2 / 64), Alphabet(b2 % 64)] + t);
      { DecodeGroup(b0, b1, b2, t); }
      Some([b0, b1, b2] + b[3..]);
      { SplitThree(b); }
      Some(b);
    }
  }

  lemma EncodeHead(b: seq<byte>)
    requires |b| > 2
    ensures Encode(b) == [Alphabet(b[0] / 4), Alphabet(b[0] % 4 * 16 + b[1] / 16),
                          Alphabet(b[1] % 16 * 4 + b[2] / 64), Alphabet(b[2] % 64)] + Encode(b[3..])
  {
  }

  lemma SplitThree<T>(b: seq<T>)
    requires |b| > 2
    ensures [b[0], b[1], b[2]] + b[3..] == b
  {
  }

  lemma DecodeEncodeShort(b: seq<byte>)
    requires 0 < |b| <= 2
    ensures Decode(Encode(b)) == Some(b)
  {
    if |b| == 1 {
      assert b == [b[0]];
      DecodeOne(b[0]);
    } else {
      assert b == [b[0], b[1]];
      DecodeTwo(b[0], b[1]);
    }
  }

  lemma {:induction false} DecodeEncode(b: seq<byte>)
    ensures Decode(Encode(b)) == Some(b)
    decreases |b|
  {
    if |b| > 2 {
      DecodeEncode(b[3..]);
      DecodeEncodeStep(b);
    } else if |b| > 0 {
      DecodeEncodeShort(b);
    }
  }

  /** A length that is a multiple of three needs no padding, an IV of 12 bytes among them. */
  lemma {:induction false} EncodeWithoutPadding(b: seq<byte>)
    requires |b| % 3 == 0
    ensures |Encode(b)| == |b| / 3 * 4
    ensures forall i :: 0 <= i < |Encode(b)| ==> IsAlphabetChar(Encode(b)[i])
    decreases |b|
  {
    if |b| > 0 {
      var s := Encode(b);
      EncodeWithoutPadding(b[3..]);
      forall i | 0 <= i < 4 ensures IsAlphabetChar(s[i]) {
        AlphabetRoundTrip(b[0] / 4);
        AlphabetRoundTrip(b[0] % 4 * 16 + b[1] / 16);
        AlphabetRoundTrip(b[1] % 16 * 4 + b[2] / 64);
        AlphabetRoundTrip(b[2] % 64);
      }
      assert forall i :: 4 <= i < |s| ==> s[i] == Encode(b[3..])[i - 4];
    }
  }

  /** Every character Encode writes is in the alphabet or is the padding character. */
  lemma {:induction false} EncodeCharacters(b: seq<byte>)
    ensures forall i :: 0 <= i < |Encode(b)| ==> IsAlphabetChar(Encode(b)[i]) || Encode(b)[i] == '='
    decreases |b|
  {
    if |b| > 0 {
      var s := Encode(b);
      AlphabetRoundTrip(b[0] / 4);
      if |b| == 1 {
        AlphabetRoundTrip(b[0] % 4 * 16);
      } else if |b| == 2 {
        AlphabetRoundTrip(b[0] % 4 * 16 + b[1] / 16);
        AlphabetRoundTrip(b[1] % 16 * 4);
      } else {
        AlphabetRoundTrip(b[0] % 4 * 16 + b[1] / 16);
        AlphabetRoundTrip(b[1] % 16 * 4 + b[2] / 64);
        AlphabetRoundTrip(b[2] % 64);
        EncodeCharacters(b[3..]);
        assert forall i :: 4 <= i < |s| ==> s[i] == Encode(b[3..])[i - 4];
      }
    }
  }

  /** `String.fromCharCode(...bytes)`: one character per byte, its code the byte's value. */
  function FromCharCodes(b: seq<byte>): (s: string)
    ensures |s| == |b|
    ensures forall i :: 0 <= i < |s| ==> s[i] as int == b[i]
  {
    seq(|b|, i requires 0 <= i < |b| => b[i] as char)
  }

  /** `btoa(s)`: the Base64 of the string's characters read as bytes; it throws (here a
      Failure) when some character is beyond U+00FF. */
  function Btoa(s: string): (r: Result<string, string>)
    ensures r.Success? <==> forall i :: 0 <= i < |s| ==> s[i] as int < 256
  {
    if forall i :: 0 <= i < |s| ==> s[i] as int < 256 then
      Success(Encode(seq(|s|, i requires 0 <= i < |s| => s[i] as int)))
    else
      Failure("InvalidCharacterError")
  }

  /** The page's two steps together are plain Base64 of the bytes, and never throw. */
  lemma BtoaFromCharCodes(b: seq<byte>)
    ensures Btoa(FromCharCodes(b)) == Success(Encode(b))
  {
    var s := FromCharCodes(b);
    assert seq(|s|, i requires 0 <= i < |s| => s[i] as int) == b;
  }
}
