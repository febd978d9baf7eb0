/** UTF-8, as the archive's path records use it: `str.encode("utf-8")` when a
    table is written and the strict `bytes.decode("utf-8")` when it is read.
    Strings are sequences of Unicode scalar values; the decoder accepts
    exactly the well-formed byte sequences of Table 3-7 of the Unicode
    Standard (no overlong forms, no surrogates, nothing above U+10FFFF). */
module Utf8 {
  import opened Streams

  predicate IsContinuation(b: Byte) {
    0x80 <= b <= 0xBF
  }

  /** The UTF-8 bytes of one scalar value. */
  function EncodeChar(c: char): (r: seq<Byte>)
    ensures 1 <= |r| <= 4
  {
    var v := c as int;
    if v < 0x80 then [v]
    else if v < 0x800 then [0xC0 + v / 0x40, 0x80 + v % 0x40]
    else if v < 0x1_0000 then [0xE0 + v / 0x1000, 0x80 + (v / 0x40) % 0x40, 0x80 + v % 0x40]
    else [0xF0 + v / 0x4_0000, 0x80 + (v / 0x1000) % 0x40, 0x80 + (v / 0x40) % 0x40, 0x80 + v % 0x40]
  }

  /** `str.encode("utf-8")`. */
  function Encode(s: string): (r: seq<Byte>)
    ensures |r| >= |s|
    ensures |s| > 0 ==> |r| > 0
  {
    if |s| == 0 then [] else EncodeChar(s[0]) + Encode(s[1..])
  }

  /** The character that starts `b` and the number of bytes it takes, or None
      when `b` does not start with a well-formed UTF-8 sequence. */
  function DecodeFirst(b: seq<Byte>): (r: Option<(char, nat)>)
    requires |b| > 0
    ensures r.Some? ==> 1 <= r.value.1 <= |b|
  {
    var b0: int := b[0];
    if b0 < 0x80 then
      Some((b0 as char, 1))
    else if 0xC2 <= b0 <= 0xDF then
      if |b| >= 2 && IsContinuation(b[1]) then
        Some((((b0 - 0xC0) * 0x40 + (b[1] as int - 0x80)) as char, 2))
      else None
    else if 0xE0 <= b0 <= 0xEF then
      var lo := if b0 == 0xE0 then 0xA0 else 0x80;
      var hi := if b0 == 0xED then 0x9F else 0xBF;
      if |b| >= 3 && lo <= b[1] <= hi && IsContinuation(b[2]) then
        Some((((b0 - 0xE0) * 0x1000 + (b[1] as int - 0x80) * 0x40 + (b[2] as int - 0x80)) as char, 3))
      else None
    else if 0xF0 <= b0 <= 0xF4 then
      var lo := if b0 == 0xF0 then 0x90 else 0x80;
      var hi := if b0 == 0xF4 then 0x8F else 0xBF;
      if |b| >= 4 && lo <= b[1] <= hi && IsContinuation(b[2]) && IsContinuation(b[3]) then
        Some((((b0 - 0xF0) * 0x4_0000 + (b[1] as int - 0x80) * 0x1000 + (b[2] as int - 0x80) * 0x40 + (b[3] as int - 0x80)) as char, 4))
      else None
    else None
  }

  /** Strict `bytes.decode("utf-8")`: None where Python raises. */
  function Decode(b: seq<Byte>): (r: Option<string>)
    ensures |b| == 0 ==> r == Some([])
    decreases |b|
  {
    if |b| == 0 then Some([])
    else
      match DecodeFirst(b)
      case None => None
      case Some((c, k)) =>
        match Decode(b[k..])
        case None => None
        case Some(tail) => Some([c] + tail)
  }

  lemma SplitDigits(v: nat)
    ensures v == (v / 0x40) * 0x40 + v % 0x40
    ensures v / 0x40 == (v / 0x1000) * 0x40 + (v / 0x40) % 0x40
    ensures v / 0x1000 == (v / 0x4_0000) * 0x40 + (v / 0x1000) % 0x40
  {
  }

  /** The decoder reads back exactly the character the encoder wrote, and
      exactly the bytes it took. */
  lemma DecodeFirstEncodeChar(c: char, rest: seq<Byte>)
    ensures DecodeFirst(EncodeChar(c) + rest) == Some((c, |EncodeChar(c)|))
  {
    var v := c as int;
    if v < 0x80 {
    } else if v < 0x800 {
      DecodeTwoBytes(c, rest);
    } else if v < 0x1_0000 {
      DecodeThreeBytes(c, rest);
    } else {
      DecodeFourBytes(c, rest);
    }
  }

  lemma DecodeTwoBytes(c: char, rest: seq<Byte>)
    requires 0x80 <= c as int < 0x800
    ensures DecodeFirst(EncodeChar(c) + rest) == Some((c, 2))
  {
    SplitDigits(c as int);
  }

  lemma DecodeThreeBytes(c: char, rest: seq<Byte>)
    requires 0x800 <= c as int < 0x1_0000
    ensures DecodeFirst(EncodeChar(c) + rest) == Some((c, 3))
  {
    SplitDigits(c as int);
  }

  lemma DecodeFourBytes(c: char, rest: seq<Byte>)
    requires 0x1_0000 <= c as int
    ensures DecodeFirst(EncodeChar(c) + rest) == Some((c, 4))
  {
    SplitDigits(c as int);
  }

  /** Decoding undoes encoding for every string. */
  lemma {:induction false} DecodeEncode(s: string)
    ensures Decode(Encode(s)) == Some(s)
  {
    if |s| > 0 {
      var e := EncodeChar(s[0]);
      DecodeFirstEncodeChar(s[0], Encode(s[1..]));
      assert (e + Encode(s[1..]))[|e|..] == Encode(s[1..]);
      DecodeEncode(s[1..]);
      assert s == [s[0]] + s[1..];
    }
  }

  /** The decoder accepts only the encoder's own output: the bytes a decoded
      character took are exactly that character's encoding (no overlong or
      alternative forms). */
  lemma EncodeCharDecodeFirst(b: seq<Byte>)
    requires |b| > 0 && DecodeFirst(b).Some?
    ensures EncodeChar(DecodeFirst(b).value.0) == b[..DecodeFirst(b).value.1]
  {
    if b[0] < 0x80 {
    } else if b[0] <= 0xDF {
      TwoByteForm(b);
    } else if b[0] <= 0xEF {
      ThreeByteForm(b);
    } else {
      FourByteForm(b);
    }
  }

  lemma TwoByteForm(b: seq<Byte>)
    requires |b| > 0 && DecodeFirst(b).Some? && 0x80 <= b[0] <= 0xDF
    ensures DecodeFirst(b).value.1 == 2 && EncodeChar(DecodeFirst(b).value.0) == b[..2]
  {
    var v := DecodeFirst(b).value.0 as int;
    assert v == (b[0] as int - 0xC0) * 0x40 + (b[1] as int - 0x80);
    Digits2(b[0] as int - 0xC0, b[1] - 0x80);
    assert EncodeChar(DecodeFirst(b).value.0) == [0xC0 + v / 0x40, 0x80 + v % 0x40];
  }

  lemma ThreeByteForm(b: seq<Byte>)
    requires |b| > 0 && DecodeFirst(b).Some? && 0xE0 <= b[0] <= 0xEF
    ensures DecodeFirst(b).value.1 == 3 && EncodeChar(DecodeFirst(b).value.0) == b[..3]
  {
    var v := DecodeFirst(b).value.0 as int;
    assert v == (b[0] as int - 0xE0) * 0x1000 + (b[1] as int - 0x80) * 0x40 + (b[2] as int - 0x80);
    Digits3(b[0] as int - 0xE0, b[1] - 0x80, b[2] - 0x80);
    assert EncodeChar(DecodeFirst(b).value.0) == [0xE0 + v / 0x1000, 0x80 + (v / 0x40) % 0x40, 0x80 + v % 0x40];
  }

  lemma FourByteForm(b: seq<Byte>)
    requires |b| > 0 && DecodeFirst(b).Some? && 0xF0 <= b[0]
    ensures DecodeFirst(b).value.1 == 4 && EncodeChar(DecodeFirst(b).value.0) == b[..4]
  {
    var v := DecodeFirst(b).value.0 as int;
    assert v == (b[0] as int - 0xF0) * 0x4_0000 + (b[1] as int - 0x80) * 0x1000 + (b[2] as int - 0x80) * 0x40 + (b[3] as int - 0x80);
    Digits4(b[0] as int - 0xF0, b[1] - 0x80, b[2] - 0x80, b[3] - 0x80);
    assert EncodeChar(DecodeFirst(b).value.0) == [0xF0 + v / 0x4_0000, 0x80 + (v / 0x1000) % 0x40, 0x80 + (v / 0x40) % 0x40, 0x80 + v % 0x40];
  }

  lemma Digits2(x: nat, y: nat)
    requires y < 0x40
    ensures (x * 0x40 + y) / 0x40 == x && (x * 0x40 + y) % 0x40 == y
  {
  }

  lemma Digits3(x: nat, y: nat, z: nat)
    requires y < 0x40 && z < 0x40
    ensures var v := x * 0x1000 + y * 0x40 + z;
      v / 0x1000 == x && (v / 0x40) % 0x40 == y && v % 0x40 == z
  {
    var v := x * 0x1000 + y * 0x40 + z;
    Digits2(x * 0x40 + y, z);
    Digits2(x, y);
    assert v == (x * 0x40 + y) * 0x40 + z;
    assert v / 0x1000 == (v / 0x40) / 0x40;
  }

  lemma Digits4(w: nat, x: nat, y: nat, z: nat)
    requires x < 0x40 && y < 0x40 && z < 0x40
    ensures var v := w * 0x4_0000 + x * 0x1000 + y * 0x40 + z;
      v / 0x4_0000 == w && (v / 0x1000) % 0x40 == x && (v / 0x40) % 0x40 == y && v % 0x40 == z
  {
    var v := w * 0x4_0000 + x * 0x1000 + y * 0x40 + z;
    Digits3(w * 0x40 + x, y, z);
    Digits2(w, x);
    assert v == (w * 0x40 + x) * 0x1000 + y * 0x40 + z;
    assert v / 0x4_0000 == (v / 0x1000) / 0x40;
  }

  /** So decoding is injective: bytes that decode to `s` are `Encode(s)`. */
  lemma {:induction false} EncodeDecode(b: seq<Byte>)
    requires Decode(b).Some?
    ensures Encode(Decode(b).value) == b
    decreases |b|
  {
    if |b| > 0 {
      var c, k := DecodeFirst(b).value.0, DecodeFirst(b).value.1;
      var tail := Decode(b[k..]).value;
      assert Decode(b).value == [c] + tail;
      EncodeCharDecodeFirst(b);
      EncodeDecode(b[k..]);
      EncodeJoin(b, c, k, tail);
    }
  }

  /** A character whose encoding is the first `k` bytes of `b`, followed by
      a string whose encoding is the rest, encodes to `b`. */
  lemma EncodeJoin(b: seq<Byte>, c: char, k: nat, s: string)
    requires k <= |b| && EncodeChar(c) == b[..k] && Encode(s) == b[k..]
    ensures Encode([c] + s) == b
  {
    assert ([c] + s)[1..] == s;
    assert b == b[..k] + b[k..];
  }

  /** ASCII text encodes to one byte per character, the character's code. */
  lemma {:induction false} EncodeAscii(s: string)
    requires forall i :: 0 <= i < |s| ==> s[i] as int < 0x80
    ensures |Encode(s)| == |s|
    ensures forall i :: 0 <= i < |s| ==> Encode(s)[i] == s[i] as int
  {
    if |s| > 0 {
      var tail := s[1..];
      assert forall i :: 0 <= i < |tail| ==> tail[i] == s[i + 1];
      EncodeAscii(tail);
      assert Encode(s) == [s[0] as int] + Encode(tail);
    }
  }

  /** Every string encodes to bytes the strict decoder accepts. */
  lemma EncodedIsWellFormed(s: string)
    ensures Decode(Encode(s)).Some?
  {
    DecodeEncode(s);
  }

  /** A byte that cannot begin a UTF-8 sequence (a continuation byte, 0xC0,
      0xC1 or 0xF5 and above) makes the whole decode fail. */
  lemma BadLeadByteRejected(b: seq<Byte>)
    requires |b| > 0 && (IsContinuation(b[0]) || b[0] == 0xC0 || b[0] == 0xC1 || b[0] >= 0xF5)
    ensures Decode(b) == None
  {
  }
}
