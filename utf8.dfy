/**
 * Go's string-to-bytes conversion `[]byte(s)`, which setBodyString uses:
 * the UTF-8 encoding of the string's characters.
 */
module Utf8 {
  import opened Results

  /** One byte of a Go `[]byte`. */
  newtype byte = b: int | 0 <= b < 0x100

  /** The UTF-8 encoding of one character: one to four bytes. */
  function EncodeChar(c: char): (r: seq<byte>)
    ensures 1 <= |r| <= 4
    ensures |r| == 1 <==> c as int < 0x80
    ensures |r| == 1 ==> r[0] as int == c as int
  {
    var x := c as int;
    if x < 0x80 then
      [x as byte]
    else if x < 0x800 then
      [(0xC0 + x / 0x40) as byte, (0x80 + x % 0x40) as byte]
    else if x < 0x1_0000 then
      [(0xE0 + x / 0x1000) as byte, (0x80 + x / 0x40 % 0x40) as byte, (0x80 + x % 0x40) as byte]
    else
      [(0xF0 + x / 0x4_0000) as byte, (0x80 + x / 0x1000 % 0x40) as byte,
       (0x80 + x / 0x40 % 0x40) as byte, (0x80 + x % 0x40) as byte]
  }

  /** The bytes of a string: each character's encoding, in order. */
  function Encode(s: string): (r: seq<byte>)
    ensures |s| <= |r| <= 4 * |s|
    ensures r == [] <==> s == []
  {
    if s == [] then [] else EncodeChar(s[0]) + Encode(s[1..])
  }

  /** How many bytes the sequence whose first byte is `lead` occupies. */
  function Width(lead: byte): nat
  {
    if lead < 0x80 then 1 else if lead < 0xE0 then 2 else if lead < 0xF0 then 3 else 4
  }

  /** The six payload bits of a continuation byte. */
  function Payload(b: byte): int
  {
    b as int % 0x40
  }

  /** The code point carried by the sequence `b`, whose length its lead byte gives. */
  function CodePoint(b: seq<byte>): int
    requires |b| >= 1 && |b| == Width(b[0])
  {
    if |b| == 1 then b[0] as int
    else if |b| == 2 then (b[0] as int - 0xC0) * 0x40 + Payload(b[1])
    else if |b| == 3 then (b[0] as int - 0xE0) * 0x1000 + Payload(b[1]) * 0x40 + Payload(b[2])
    else (b[0] as int - 0xF0) * 0x4_0000 + Payload(b[1]) * 0x1000 + Payload(b[2]) * 0x40 + Payload(b[3])
  }

  /** True of the integers that are Unicode scalar values, the values a `char` holds. */
  predicate IsScalar(x: int)
  {
    0 <= x < 0xD800 || 0xE000 <= x < 0x11_0000
  }

  /**
   * Reads bytes back into characters, so that the encoding can be shown to
   * lose nothing; None when a sequence is cut short or carries no scalar value.
   */
  function Decode(b: seq<byte>): Option<string>
    decreases |b|
  {
    if b == [] then Some([])
    else
      var w := Width(b[0]);
      if |b| < w || !IsScalar(CodePoint(b[..w])) then None
      else
        match Decode(b[w..])
        case None => None
        case Some(rest) => Some([CodePoint(b[..w]) as char] + rest)
  }

  /** A continuation byte gives back the six bits it was built from. */
  lemma PayloadOf(p: int)
    requires 0 <= p < 0x40
    ensures Payload((0x80 + p) as byte) == p
  {
  }

  lemma TwoBytesDecode(x: int)
    requires 0x80 <= x < 0x800
    ensures var b := [(0xC0 + x / 0x40) as byte, (0x80 + x % 0x40) as byte];
      Width(b[0]) == 2 && CodePoint(b) == x
  {
    PayloadOf(x % 0x40);
  }

  lemma ThreeBytesDecode(x: int)
    requires 0x800 <= x < 0x1_0000
    ensures var b := [(0xE0 + x / 0x1000) as byte, (0x80 + x / 0x40 % 0x40) as byte, (0x80 + x % 0x40) as byte];
      Width(b[0]) == 3 && CodePoint(b) == x
  {
    var y := x / 0x40;
    assert y / 0x40 == x / 0x1000;
    PayloadOf(y % 0x40);
    PayloadOf(x % 0x40);
  }

  lemma FourBytesDecode(x: int)
    requires 0x1_0000 <= x < 0x11_0000
    ensures var b := [(0xF0 + x / 0x4_0000) as byte, (0x80 + x / 0x1000 % 0x40) as byte,
                      (0x80 + x / 0x40 % 0x40) as byte, (0x80 + x % 0x40) as byte];
      Width(b[0]) == 4 && CodePoint(b) == x
  {
    var y := x / 0x40;
    var z := y / 0x40;
    assert z == x / 0x1000;
    assert z / 0x40 == x / 0x4_0000;
    PayloadOf(z % 0x40);
    PayloadOf(y % 0x40);
    PayloadOf(x % 0x40);
  }

  /** A character's encoding announces its own length and carries its code point. */
  lemma EncodeCharDecodes(c: char)
    ensures Width(EncodeChar(c)[0]) == |EncodeChar(c)|
    ensures CodePoint(EncodeChar(c)) == c as int
  {
    var x := c as int;
    if x < 0x80 {
    } else if x < 0x800 {
      TwoBytesDecode(x);
    } else if x < 0x1_0000 {
      ThreeBytesDecode(x);
    } else {
      FourBytesDecode(x);
    }
  }

  /** Encoding a concatenation encodes the parts one after the other. */
  lemma {:induction false} EncodeAppend(s: string, t: string)
    ensures Encode(s + t) == Encode(s) + Encode(t)
  {
    if s == [] {
      assert s + t == t;
    } else {
      assert (s + t)[0] == s[0];
      assert (s + t)[1..] == s[1..] + t;
      EncodeAppend(s[1..], t);
      calc {
        Encode(s + t);
        EncodeChar(s[0]) + Encode(s[1..] + t);
        EncodeChar(s[0]) + (Encode(s[1..]) + Encode(t));
        (EncodeChar(s[0]) + Encode(s[1..])) + Encode(t);
      }
    }
  }

  /** The bytes of a string decode to exactly that string. */
  lemma {:induction false} DecodeEncode(s: string)
    ensures Decode(Encode(s)) == Some(s)
  {
    if s != [] {
      var e := EncodeChar(s[0]);
      var b := Encode(s);
      EncodeCharDecodes(s[0]);
      assert b == e + Encode(s[1..]);
      assert b[0] == e[0];
      assert b[..|e|] == e;
      assert b[|e|..] == Encode(s[1..]);
      DecodeEncode(s[1..]);
      assert [s[0]] + s[1..] == s;
    }
  }

  /** A string of ASCII characters encodes to one byte per character, equal to it. */
  lemma {:induction false} EncodeAscii(s: string)
    requires forall i :: 0 <= i < |s| ==> s[i] as int < 0x80
    ensures |Encode(s)| == |s|
    ensures forall i :: 0 <= i < |s| ==> Encode(s)[i] as int == s[i] as int
  {
    if s != [] {
      EncodeAscii(s[1..]);
      assert Encode(s) == EncodeChar(s[0]) + Encode(s[1..]);
    }
  }
}
