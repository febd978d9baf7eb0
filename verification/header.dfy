/** The 28-byte header at the front of every .maj archive: a 4-byte magic
    number, then the total file size, the index size and the data size,
    each as an 8-byte big-endian integer. */
module HeaderRecord {
  import opened Streams
  import opened IntCodec

  /** Bytes in a serialised header. */
  const SIZE: nat := 28

  /** Bytes in the magic number. */
  const MAGIC_LENGTH: nat := 4

  /** The magic number of a .maj archive: a zero byte, then "maj". */
  const NORMAL_MAGIC_NUMBER: seq<Byte> := [0x00, 0x6D, 0x61, 0x6A]

  datatype Header = Header(magic: seq<Byte>, fileSize: nat, indexSize: nat, dataSize: nat)

  /** The header's own consistency check: the magic number is the archive's,
      and the file is exactly header, index and data. */
  predicate Validate(h: Header) {
    h.magic == NORMAL_MAGIC_NUMBER && h.fileSize - h.indexSize - h.dataSize - SIZE == 0
  }

  /** The header fits its on-disk form: four magic bytes and sizes below 2^64. */
  predicate Encodable(h: Header) {
    |h.magic| == MAGIC_LENGTH && h.fileSize < LIMIT && h.indexSize < LIMIT && h.dataSize < LIMIT
  }

  /** The header of an archive whose index and data segments have the given
      sizes. */
  function Create(indexSize: nat, dataSize: nat): (h: Header)
    ensures Validate(h)
    ensures h.indexSize == indexSize && h.dataSize == dataSize
    ensures SIZE + indexSize + dataSize < LIMIT ==> Encodable(h)
  {
    Header(NORMAL_MAGIC_NUMBER, SIZE + dataSize + indexSize, indexSize, dataSize)
  }

  /** Validation accepts exactly the headers `Create` builds. */
  lemma ValidateIffCreated(h: Header)
    ensures Validate(h) <==> h == Create(h.indexSize, h.dataSize)
  {
  }

  /** The serialised header: magic, file size, index size, data size. */
  function Get(h: Header): (r: seq<Byte>)
    requires Encodable(h)
    ensures |r| == SIZE
    ensures r[..MAGIC_LENGTH] == h.magic
    ensures ToInt64(r[4..12]) == h.fileSize
    ensures ToInt64(r[12..20]) == h.indexSize
    ensures ToInt64(r[20..28]) == h.dataSize
  {
    var r := h.magic + FromInt64(h.fileSize) + FromInt64(h.indexSize) + FromInt64(h.dataSize);
    assert r[4..12] == FromInt64(h.fileSize);
    assert r[12..20] == FromInt64(h.indexSize);
    assert r[20..28] == FromInt64(h.dataSize);
    r
  }

  /** The condition under which the first 28 bytes of `s` are a valid header. */
  predicate WellFormedPrefix(s: seq<Byte>)
    requires |s| >= SIZE
  {
    s[..MAGIC_LENGTH] == NORMAL_MAGIC_NUMBER
    && ToInt64(s[4..12]) == SIZE + ToInt64(s[12..20]) + ToInt64(s[20..28])
  }

  /** Reads the magic number and the three sizes in turn and validates them;
      fails with ReadFailure when the stream ends before the 28th byte and with
      CorruptHeader when validation fails. Returns the header and the unread
      rest of the stream. */
  function Read(s: seq<Byte>): (r: Result<(Header, seq<Byte>)>)
    ensures |s| < SIZE ==> r == Failure(ReadFailure)
    ensures |s| >= SIZE ==> (r.Success? <==> WellFormedPrefix(s))
    ensures |s| >= SIZE && !WellFormedPrefix(s) ==> r == Failure(CorruptHeader)
    ensures r.Success? ==> Validate(r.value.0) && Encodable(r.value.0) && r.value.1 == s[SIZE..]
    ensures r.Success? ==> r.value.0 == Header(s[..4], ToInt64(s[4..12]), ToInt64(s[12..20]), ToInt64(s[20..28]))
  {
    var m :- ReadExact(s, MAGIC_LENGTH);
    var f :- ReadExact(m.1, WIDTH);
    var i :- ReadExact(f.1, WIDTH);
    var d :- ReadExact(i.1, WIDTH);
    assert m.0 == s[..4] && f.0 == s[4..12] && i.0 == s[12..20] && d.0 == s[20..28] && d.1 == s[28..];
    Pow256Width();
    var h := Header(m.0, ToInt64(f.0), ToInt64(i.0), ToInt64(d.0));
    if Validate(h) then Success((h, d.1)) else Failure(CorruptHeader)
  }

  /** Reading a serialised valid header gives it back and leaves the rest of
      the stream untouched. */
  lemma ReadGet(h: Header, rest: seq<Byte>)
    requires Encodable(h) && Validate(h)
    ensures Read(Get(h) + rest) == Success((h, rest))
  {
    var g := Get(h);
    var s := g + rest;
    assert s[..MAGIC_LENGTH] == g[..MAGIC_LENGTH];
    assert s[4..12] == g[4..12];
    assert s[12..20] == g[12..20];
    assert s[20..28] == g[20..28];
    assert s[SIZE..] == rest;
    assert WellFormedPrefix(s);
  }

  /** Whatever `Read` accepts is the serialisation of the header it returns. */
  lemma GetRead(s: seq<Byte>)
    requires Read(s).Success?
    ensures s == Get(Read(s).value.0) + Read(s).value.1
  {
    FromInt64ToInt64(s[4..12]);
    FromInt64ToInt64(s[12..20]);
    FromInt64ToInt64(s[20..28]);
    assert s == s[..4] + s[4..12] + s[12..20] + s[20..28] + s[28..];
  }

  /** The header read exactly as the source writes it: each field read takes
      whatever the stream still holds, short or empty, and the result is the
      fields together with `Validate`. */
  function ReadAsWritten(s: seq<Byte>): (r: (Header, bool))
    ensures |s| >= SIZE ==> r.1 == Read(s).Success?
    ensures Read(s).Success? ==> r.0 == Read(s).value.0
  {
    var m := ReadAtMost(s, MAGIC_LENGTH);
    var f := ReadAtMost(m.1, WIDTH);
    var i := ReadAtMost(f.1, WIDTH);
    var d := ReadAtMost(i.1, WIDTH);
    assert |s| >= SIZE ==> m.0 == s[..4] && f.0 == s[4..12] && i.0 == s[12..20] && d.0 == s[20..28];
    var h := Header(m.0, ToInt64(f.0), ToInt64(i.0), ToInt64(d.0));
    (h, Validate(h))
  }

  /** As written, a 12-byte file holding only the magic number and a file size
      of 28 passes as a valid header of an empty archive; the short read is
      not noticed. With short reads reported it is a ReadFailure. */
  lemma TruncatedHeaderAccepted()
    ensures var s := NORMAL_MAGIC_NUMBER + FromInt64(SIZE);
      && |s| == 12
      && ReadAsWritten(s) == (Header(NORMAL_MAGIC_NUMBER, SIZE, 0, 0), true)
      && Read(s) == Failure(ReadFailure)
  {
    var F := FromInt64(SIZE);
    MagicAndFileSizeOnly(NORMAL_MAGIC_NUMBER, F);
  }

  /** As written, a stream holding only a magic number and a file size reads
      as a header with zero index and data sizes. */
  lemma MagicAndFileSizeOnly(magic: seq<Byte>, f: seq<Byte>)
    requires |magic| == MAGIC_LENGTH && |f| == WIDTH
    ensures ReadAsWritten(magic + f).0 == Header(magic, ToInt64(f), 0, 0)
  {
    var s := magic + f;
    assert s[..MAGIC_LENGTH] == magic && s[MAGIC_LENGTH..] == f;
    assert f[..WIDTH] == f && f[WIDTH..] == [];
    var e: seq<Byte> := [];
    assert e[..0] == [] && e[0..] == [];
  }
}
