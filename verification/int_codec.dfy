/** Fixed-width 8-byte big-endian unsigned integers, the encoding of every
    size and length in a .maj archive. */
module IntCodec {
  import opened Streams

  /** Number of bytes in an encoded integer. */
  const WIDTH: nat := 8

  /** 2^64: every encodable value is below it. */
  const LIMIT: nat := 0x1_0000_0000_0000_0000

  function Pow256(k: nat): (r: nat)
    ensures r >= 1
  {
    if k == 0 then 1 else 256 * Pow256(k - 1)
  }

  lemma Pow256Width()
    ensures Pow256(WIDTH) == LIMIT
  {
  }

  /** `to_int64`: big-endian value of a byte string of any length
      (shift the running sum left by one byte, add the next byte). */
  function ToInt64(data: seq<Byte>): (r: nat)
    ensures r < Pow256(|data|)
  {
    if |data| == 0 then 0
    else
      var v := ToInt64(data[..|data| - 1]);
      assert v <= Pow256(|data| - 1) - 1;
      assert v * 256 <= Pow256(|data|) - 256;
      v * 256 + data[|data| - 1]
  }

  /** The low `width` bytes of `n`, most significant first. */
  function Encode(n: nat, width: nat): (r: seq<Byte>)
    ensures |r| == width
  {
    if width == 0 then [] else Encode(n / 256, width - 1) + [n % 256]
  }

  /** `from_int64`: the 8-byte big-endian encoding of `n`. */
  function FromInt64(n: nat): (r: seq<Byte>)
    requires n < LIMIT
    ensures |r| == WIDTH
    ensures ToInt64(r) == n
  {
    Pow256Width();
    EncodeRoundTrip(n, WIDTH);
    Encode(n, WIDTH)
  }

  /** The encoding is big-endian: the first byte carries weight 256^7, the
      bytes after it stay below that weight, and the last byte is the low
      byte of `n`. */
  lemma FromInt64BigEndian(n: nat)
    requires n < LIMIT
    ensures var r := FromInt64(n);
      && n == r[0] * Pow256(WIDTH - 1) + ToInt64(r[1..])
      && ToInt64(r[1..]) < Pow256(WIDTH - 1)
      && r[WIDTH - 1] == n % 256
  {
    ToInt64Front(FromInt64(n));
  }

  lemma ToInt64Snoc(p: seq<Byte>, b: Byte)
    ensures ToInt64(p + [b]) == ToInt64(p) * 256 + b
  {
    assert (p + [b])[..|p|] == p;
  }

  /** Decoding an encoding gives the value back, for values that fit. */
  lemma {:induction false} EncodeRoundTrip(n: nat, width: nat)
    requires n < Pow256(width)
    ensures ToInt64(Encode(n, width)) == n
  {
    if width > 0 {
      assert n / 256 < Pow256(width - 1);
      EncodeRoundTrip(n / 256, width - 1);
      ToInt64Snoc(Encode(n / 256, width - 1), n % 256);
    }
  }

  /** Encoding a decoded byte string at its own width gives it back, so
      distinct byte strings of one width decode to distinct values. */
  lemma {:induction false} DecodeRoundTrip(s: seq<Byte>)
    ensures Encode(ToInt64(s), |s|) == s
  {
    if |s| > 0 {
      var p, b := s[..|s| - 1], s[|s| - 1];
      var v := ToInt64(p);
      assert ToInt64(s) == v * 256 + b;
      assert (v * 256 + b) / 256 == v;
      assert (v * 256 + b) % 256 == b;
      DecodeRoundTrip(p);
      assert s == p + [b];
    }
  }

  /** The first byte carries weight 256^(|s|-1): the encoding is big-endian. */
  lemma {:induction false} ToInt64Front(s: seq<Byte>)
    requires |s| > 0
    ensures ToInt64(s) == s[0] * Pow256(|s| - 1) + ToInt64(s[1..])
  {
    if |s| > 1 {
      var p, b := s[..|s| - 1], s[|s| - 1];
      ToInt64Front(p);
      assert p[1..] == s[1..][..|s| - 2];
      assert s[1..] == p[1..] + [b];
      ToInt64Snoc(p[1..], b);
      ShiftByte(s[0], Pow256(|s| - 2), ToInt64(p[1..]), b);
    }
  }

  lemma ShiftByte(a: nat, w: nat, t: nat, b: nat)
    ensures (a * w + t) * 256 + b == a * (256 * w) + (t * 256 + b)
  {
  }

  /** Any 8 bytes are the encoding of the value they decode to. */
  lemma FromInt64ToInt64(s: seq<Byte>)
    requires |s| == WIDTH
    ensures ToInt64(s) < LIMIT && FromInt64(ToInt64(s)) == s
  {
    Pow256Width();
    DecodeRoundTrip(s);
  }

  /** The accumulation loop of `to_int64`. */
  method ToInt64Loop(data: seq<Byte>) returns (sum: nat)
    ensures sum == ToInt64(data)
    ensures sum < Pow256(|data|)
  {
    sum := 0;
    var i := 0;
    while i < |data|
      invariant 0 <= i <= |data|
      invariant sum == ToInt64(data[..i])
    {
      assert data[..i + 1] == data[..i] + [data[i]];
      ToInt64Snoc(data[..i], data[i]);
      sum := sum * 256 + data[i];
      i := i + 1;
    }
    assert data[..i] == data;
  }

  /** The fill loop of `from_int64`: start from eight zero bytes and write the
      low byte of `n` at the last unfilled position until `n` is zero. */
  method FromInt64Loop(n: nat) returns (r: seq<Byte>)
    requires n < LIMIT
    ensures r == FromInt64(n)
  {
    Pow256Width();
    r := [0, 0, 0, 0, 0, 0, 0, 0];
    var unfilled: nat := WIDTH;  // the source's counter is unfilled - 1
    var m: nat := n;
    while m != 0
      invariant unfilled <= WIDTH && |r| == WIDTH
      invariant m < Pow256(unfilled)
      invariant forall k :: 0 <= k < unfilled ==> r[k] == 0
      invariant Encode(n, WIDTH) == Encode(m, unfilled) + r[unfilled..]
      decreases m
    {
      var c := unfilled - 1;
      assert Encode(m, unfilled) == Encode(m / 256, c) + [m % 256];
      r := r[c := m % 256];
      assert r[c..] == [m % 256] + r[unfilled..];
      m := m / 256;
      unfilled := c;
    }
    ZeroEncoding(unfilled);
    assert r[..unfilled] == Encode(0, unfilled);
    assert r == r[..unfilled] + r[unfilled..];
  }

  lemma {:induction false} ZeroEncoding(width: nat)
    ensures forall k :: 0 <= k < width ==> Encode(0, width)[k] == 0
  {
    if width > 0 {
      ZeroEncoding(width - 1);
    }
  }
}
