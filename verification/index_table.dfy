/** The index table: an ordered map from archive-relative path to file size.
    Its order is the order of the files' bytes in the data segment. Each
    entry is stored as an 8-byte path length, the UTF-8 path bytes and an
    8-byte size. */
module IndexTable {
  import opened Streams
  import opened IntCodec
  import Utf8

  datatype Entry = Entry(path: string, size: nat)

  /** Entries in insertion order, as a Python dict keeps them. */
  type Table = seq<Entry>

  /** Bytes in an encoded record besides the path: two 8-byte integers. */
  const RECORD_OVERHEAD: nat := 16

  /** The paths of the table, in order. */
  function Paths(t: Table): (r: seq<string>)
    ensures |r| == |t|
    ensures forall i :: 0 <= i < |t| ==> r[i] == t[i].path
  {
    if |t| == 0 then [] else [t[0].path] + Paths(t[1..])
  }

  predicate DistinctPaths(t: Table) {
    forall i, j :: 0 <= i < j < |t| ==> t[i].path != t[j].path
  }

  /** Dict assignment `table[path] = size`: an existing key keeps its
      position and takes the new size, a new key goes at the end. */
  function Insert(t: Table, path: string, size: nat): Table {
    if |t| == 0 then [Entry(path, size)]
    else if t[0].path == path then [Entry(path, size)] + t[1..]
    else [t[0]] + Insert(t[1..], path, size)
  }

  /** Assigning a path the table does not have appends it. */
  lemma {:induction false} InsertNew(t: Table, path: string, size: nat)
    requires path !in Paths(t)
    ensures Insert(t, path, size) == t + [Entry(path, size)]
  {
    if |t| > 0 {
      assert Paths(t) == [t[0].path] + Paths(t[1..]);
      InsertNew(t[1..], path, size);
      assert t == [t[0]] + t[1..];
      Associate3([t[0]], t[1..], [Entry(path, size)]);
    }
  }

  /** Assigning a path the table already has keeps every entry in its
      place and changes only that path's size. */
  lemma {:induction false} InsertReplaces(t: Table, path: string, size: nat)
    requires DistinctPaths(t) && path in Paths(t)
    ensures |Insert(t, path, size)| == |t|
    ensures forall i :: 0 <= i < |t| ==>
      Insert(t, path, size)[i] == (if t[i].path == path then Entry(path, size) else t[i])
  {
    assert Paths(t) == [t[0].path] + Paths(t[1..]);
    if t[0].path != path {
      assert DistinctPaths(t[1..]) by {
        forall i, j | 0 <= i < j < |t| - 1
          ensures t[1..][i].path != t[1..][j].path
        {
          assert t[1..][i] == t[i + 1] && t[1..][j] == t[j + 1];
        }
      }
      InsertReplaces(t[1..], path, size);
    }
  }

  /** After assignment the table holds the new entry and otherwise only
      entries it held before, and its paths are the old ones plus `path`. */
  lemma {:induction false} InsertMembers(t: Table, path: string, size: nat)
    ensures Entry(path, size) in Insert(t, path, size)
    ensures forall e :: e in Insert(t, path, size) ==> e == Entry(path, size) || e in t
    ensures forall p :: p in Paths(Insert(t, path, size)) <==> p in Paths(t) || p == path
  {
    if |t| > 0 {
      assert Paths(t) == [t[0].path] + Paths(t[1..]);
      if t[0].path != path {
        InsertMembers(t[1..], path, size);
        assert Paths(Insert(t, path, size)) == [t[0].path] + Paths(Insert(t[1..], path, size));
      } else {
        assert Paths(Insert(t, path, size)) == [path] + Paths(t[1..]);
      }
    }
  }

  /** Inserting keeps the paths distinct. */
  lemma InsertDistinct(t: Table, path: string, size: nat)
    requires DistinctPaths(t)
    ensures DistinctPaths(Insert(t, path, size))
  {
    if path in Paths(t) {
      InsertReplaces(t, path, size);
    } else {
      InsertNew(t, path, size);
      assert forall i :: 0 <= i < |t| ==> t[i].path == Paths(t)[i];
    }
  }

  /** The record fits its on-disk form: path byte length and size below 2^64. */
  predicate EntryEncodable(e: Entry) {
    PathFits(e.path) && e.size < LIMIT
  }

  predicate PathFits(p: string) {
    |Utf8.Encode(p)| < LIMIT
  }

  predicate Encodable(t: Table) {
    forall e :: e in t ==> EntryEncodable(e)
  }

  /** One stored record: path length, path bytes, size. */
  function EncodeEntry(e: Entry): (r: seq<Byte>)
    requires EntryEncodable(e)
    ensures |r| == RECORD_OVERHEAD + |Utf8.Encode(e.path)|
  {
    var p := Utf8.Encode(e.path);
    FromInt64(|p|) + p + FromInt64(e.size)
  }

  /** Bytes the encoded table occupies: 16 plus the path's UTF-8 length, per entry. */
  function IndexLength(t: Table): nat {
    if |t| == 0 then 0 else RECORD_OVERHEAD + |Utf8.Encode(t[0].path)| + IndexLength(t[1..])
  }

  /** The encoded table: its records concatenated in table order. */
  function Get(t: Table): (r: seq<Byte>)
    requires Encodable(t)
    ensures |r| == IndexLength(t)
  {
    if |t| == 0 then [] else EncodeEntry(t[0]) + Get(t[1..])
  }

  /** Size of the data segment: the sum of the entry sizes. */
  function GetDataLength(t: Table): nat {
    if |t| == 0 then 0 else t[0].size + GetDataLength(t[1..])
  }

  /** Reads one record: path length, path bytes, size, then decodes the
      path. Returns the entry, the number of bytes the record took and the
      rest of the stream. Fails with ReadFailure when the stream ends inside
      the record and DecodeFailure when the path is not UTF-8. */
  function ReadRecord(s: seq<Byte>): (r: Result<(Entry, nat, seq<Byte>)>)
    ensures r.Success? ==> RECORD_OVERHEAD <= r.value.1 <= |s| && r.value.2 == s[r.value.1..]
  {
    if |s| < WIDTH then Failure(ReadFailure)
    else
      var pathLen := ToInt64(s[..WIDTH]);
      if |s| < WIDTH + pathLen + WIDTH then Failure(ReadFailure)
      else
        match Utf8.Decode(s[WIDTH..WIDTH + pathLen])
        case None => Failure(DecodeFailure)
        case Some(path) =>
          Success((Entry(path, ToInt64(s[WIDTH + pathLen..WIDTH + pathLen + WIDTH])), RECORD_OVERHEAD + pathLen, s[RECORD_OVERHEAD + pathLen..]))
  }

  /** What `ReadRecord` accepts is the encoding of the entry it returns. */
  lemma ReadRecordSound(s: seq<Byte>)
    requires ReadRecord(s).Success?
    ensures var (e, n, rest) := ReadRecord(s).value;
      && EntryEncodable(e) && n == RECORD_OVERHEAD + |Utf8.Encode(e.path)|
      && EncodeEntry(e) == s[..n]
  {
    var l := s[..WIDTH];
    var pathLen := ToInt64(l);
    var k := s[WIDTH..WIDTH + pathLen];
    var z := s[WIDTH + pathLen..WIDTH + pathLen + WIDTH];
    var path := Utf8.Decode(k).value;
    var i, j, m := WIDTH, WIDTH + pathLen, RECORD_OVERHEAD + pathLen;
    EntryFromParts(l, k, z, path);
    SplitPrefix3(s, i, j, m);
    assert ReadRecord(s).value.0 == Entry(path, ToInt64(z));
    assert ReadRecord(s).value.1 == m;
  }

  /** A length field, path bytes that decode to `path`, and a size field
      are together the encoding of the entry they describe. */
  lemma EntryFromParts(l: seq<Byte>, k: seq<Byte>, z: seq<Byte>, path: string)
    requires |l| == WIDTH && |z| == WIDTH && |k| == ToInt64(l) && Utf8.Decode(k) == Some(path)
    ensures EntryEncodable(Entry(path, ToInt64(z)))
    ensures |Utf8.Encode(path)| == |k|
    ensures EncodeEntry(Entry(path, ToInt64(z))) == l + k + z
  {
    Utf8.EncodeDecode(k);
    Pow256Width();
    FromInt64ToInt64(l);
    FromInt64ToInt64(z);
  }

  /** Reads records while budget remains, taking each record's byte count off
      the budget; fails with CorruptIndex when a record runs past the budget.
      Returns the records in stream order with the unread rest. */
  function ReadRecords(s: seq<Byte>, budget: nat): (r: Result<(seq<Entry>, seq<Byte>)>)
    ensures r.Success? ==> budget <= |s| && r.value.1 == s[budget..]
    decreases budget
  {
    if budget == 0 then Success(([], s))
    else
      match ReadRecord(s)
      case Failure(err) => Failure(err)
      case Success((e, n, rest)) =>
        if budget < n then Failure(CorruptIndex)
        else
          var tail := ReadRecords(rest, budget - n);
          assert tail.Success? ==> rest[budget - n..] == s[budget..];
          Prepend([e], tail)
  }

  /** The records `ReadRecords` returns fit their on-disk form and take
      exactly the budget. */
  lemma {:induction false} ReadRecordsSound(s: seq<Byte>, budget: nat)
    requires ReadRecords(s, budget).Success?
    ensures Encodable(ReadRecords(s, budget).value.0)
    ensures IndexLength(ReadRecords(s, budget).value.0) == budget
    decreases budget
  {
    if budget > 0 {
      var (e, n, rest) := ReadRecord(s).value;
      ReadRecordSound(s);
      ReadRecordsSound(rest, budget - n);
      var tail := ReadRecords(rest, budget - n).value.0;
      assert ReadRecords(s, budget).value.0 == [e] + tail;
      assert ([e] + tail)[1..] == tail;
    }
  }

  /** The dict the records build when assigned one after another into `acc`. */
  function Collapse(acc: Table, records: seq<Entry>): Table
    decreases |records|
  {
    if |records| == 0 then acc
    else Collapse(Insert(acc, records[0].path, records[0].size), records[1..])
  }

  /** Assigning records one after another keeps the table encodable and its
      paths distinct, and its paths are those it had plus those assigned. */
  lemma {:induction false} CollapseKeeps(acc: Table, records: seq<Entry>)
    ensures Encodable(acc) && Encodable(records) ==> Encodable(Collapse(acc, records))
    ensures DistinctPaths(acc) ==> DistinctPaths(Collapse(acc, records))
    ensures forall p :: p in Paths(Collapse(acc, records)) <==> p in Paths(acc) || p in Paths(records)
    decreases |records|
  {
    if |records| > 0 {
      var e, tail := records[0], records[1..];
      var acc' := Insert(acc, e.path, e.size);
      InsertMembers(acc, e.path, e.size);
      if DistinctPaths(acc) {
        InsertDistinct(acc, e.path, e.size);
      }
      CollapseKeeps(acc', tail);
      assert Paths(records) == [e.path] + Paths(tail);
      assert forall x :: x in tail ==> x in records;
    }
  }

  /** `_IndexTable.read`: reads a table of exactly `indexSize` bytes and
      returns it with the unread rest of the stream. */
  function Read(s: seq<Byte>, indexSize: nat): (r: Result<(Table, seq<Byte>)>)
    ensures r.Success? ==> indexSize <= |s| && r.value.1 == s[indexSize..]
    ensures |s| < indexSize ==> r.Failure?
    ensures r.Success? ==> DistinctPaths(r.value.0) && Encodable(r.value.0)
  {
    var records :- ReadRecords(s, indexSize);
    ReadRecordsSound(s, indexSize);
    CollapseKeeps([], records.0);
    Success((Collapse([], records.0), records.1))
  }

  /** A stored record reads back as its entry, taking exactly its bytes. */
  lemma ReadRecordEncodeEntry(e: Entry, tail: seq<Byte>)
    requires EntryEncodable(e)
    ensures ReadRecord(EncodeEntry(e) + tail) == Success((e, RECORD_OVERHEAD + |Utf8.Encode(e.path)|, tail))
  {
    var p := Utf8.Encode(e.path);
    var l, z := FromInt64(|p|), FromInt64(e.size);
    var s := l + p + z + tail;
    Split4(l, p, z, tail);
    assert ToInt64(s[..WIDTH]) == |p|;
    Utf8.DecodeEncode(e.path);
    assert Utf8.Decode(s[WIDTH..WIDTH + |p|]) == Some(e.path);
    assert ToInt64(s[WIDTH + |p|..WIDTH + |p| + WIDTH]) == e.size;
    assert s[RECORD_OVERHEAD + |p|..] == tail;
  }

  /** `records` in front of whatever `r` read; a failure stays a failure. */
  function Prepend(records: seq<Entry>, r: Result<(seq<Entry>, seq<Byte>)>): Result<(seq<Entry>, seq<Byte>)> {
    if r.Success? then Success((records + r.value.0, r.value.1)) else Failure(r.error)
  }

  lemma PrependPrepend(t: Table, r: Result<(seq<Entry>, seq<Byte>)>)
    requires |t| > 0
    ensures Prepend([t[0]], Prepend(t[1..], r)) == Prepend(t, r)
  {
    if r.Success? {
      assert [t[0]] + (t[1..] + r.value.0) == t + r.value.0;
    }
  }

  /** One step of `ReadRecords`: when the first record fits the budget, the
      result is that record in front of what the rest of the budget reads. */
  lemma ReadRecordsUnfold(s: seq<Byte>, budget: nat) returns (e: Entry, n: nat, rest: seq<Byte>, budget': nat)
    requires ReadRecord(s).Success? && 0 < ReadRecord(s).value.1 <= budget
    ensures ReadRecord(s) == Success((e, n, rest)) && budget' == budget - n
    ensures ReadRecords(s, budget) == Prepend([e], ReadRecords(rest, budget'))
  {
    e, n, rest := ReadRecord(s).value.0, ReadRecord(s).value.1, ReadRecord(s).value.2;
    budget' := budget - n;
  }

  /** A stored record at the front of the stream is read as one step. */
  lemma {:induction false} ReadRecordsCons(e: Entry, rest: seq<Byte>, budget: nat, budget': nat)
    requires EntryEncodable(e) && budget == RECORD_OVERHEAD + |Utf8.Encode(e.path)| + budget'
    ensures ReadRecords(EncodeEntry(e) + rest, budget) == Prepend([e], ReadRecords(rest, budget'))
  {
    var s, n := EncodeEntry(e) + rest, RECORD_OVERHEAD + |Utf8.Encode(e.path)|;
    ReadRecordEncodeEntry(e, rest);
    assert ReadRecord(s) == Success((e, n, rest));
    var _, _, _, b := ReadRecordsUnfold(s, budget);
    assert b == budget';
  }

  lemma PrependEmpty(r: Result<(seq<Entry>, seq<Byte>)>)
    ensures Prepend([], r) == r
  {
    if r.Success? {
      assert [] + r.value.0 == r.value.0;
    }
  }

  /** The records of `t` are read back one by one: after them the reader
      carries on with the rest of the stream and the rest of the budget. */
  lemma {:induction false} ReadRecordsAfterGet(t: Table, s: seq<Byte>, budget: nat, total: nat)
    requires Encodable(t) && total == IndexLength(t) + budget
    ensures ReadRecords(Get(t) + s, total) == Prepend(t, ReadRecords(s, budget))
  {
    if |t| == 0 {
      assert t == [];
      assert Get(t) + s == s;
      PrependEmpty(ReadRecords(s, budget));
    } else {
      var t', rest := t[1..], Get(t[1..]) + s;
      var total' := IndexLength(t') + budget;
      GetCons(t, s);
      ReadRecordsCons(t[0], rest, total, total');
      ReadRecordsAfterGet(t', s, budget, total');
      PrependPrepend(t, ReadRecords(s, budget));
    }
  }

  /** The encoding of a non-empty table starts with its first record. */
  lemma GetCons(t: Table, s: seq<Byte>)
    requires Encodable(t) && |t| > 0
    ensures Get(t) + s == EncodeEntry(t[0]) + (Get(t[1..]) + s)
    ensures IndexLength(t) == RECORD_OVERHEAD + |Utf8.Encode(t[0].path)| + IndexLength(t[1..])
  {
    Associate3(EncodeEntry(t[0]), Get(t[1..]), s);
  }

  /** Reading the encoding of `t` gives back its records, in order, and stops
      right after them. */
  lemma ReadRecordsGet(t: Table, rest: seq<Byte>)
    requires Encodable(t)
    ensures ReadRecords(Get(t) + rest, IndexLength(t)) == Success((t, rest))
  {
    ReadRecordsAfterGet(t, rest, 0, IndexLength(t));
    assert ReadRecords(rest, 0) == Success(([], rest));
    assert t + [] == t;
  }

  /** Assigning records with new, distinct paths appends them in order. */
  lemma {:induction false} CollapseDistinct(acc: Table, records: seq<Entry>)
    requires DistinctPaths(acc + records)
    ensures Collapse(acc, records) == acc + records
    decreases |records|
  {
    DistinctSplit(acc, records);
    if |records| > 0 {
      var e := records[0];
      InsertNew(acc, e.path, e.size);
      assert (acc + [e]) + records[1..] == acc + records;
      CollapseDistinct(acc + [e], records[1..]);
    }
  }

  lemma DistinctSplit(a: Table, b: Table)
    requires DistinctPaths(a + b)
    ensures DistinctPaths(a) && DistinctPaths(b)
    ensures |b| > 0 ==> b[0].path !in Paths(a)
  {
    assert forall i :: 0 <= i < |a| ==> (a + b)[i] == a[i];
    assert forall i :: 0 <= i < |b| ==> (a + b)[|a| + i] == b[i];
  }

  /** Round trip: a table with distinct paths is read back from its own
      encoding, same entries in the same order, with the rest of the stream
      untouched. */
  lemma ReadGet(t: Table, rest: seq<Byte>)
    requires Encodable(t) && DistinctPaths(t)
    ensures Read(Get(t) + rest, IndexLength(t)) == Success((t, rest))
  {
    ReadRecordsGet(t, rest);
    assert [] + t == t;
    CollapseDistinct([], t);
  }

  /** What `Read` consumes is exactly the encoding of the records it read:
      every path re-encodes to its stored bytes and every stored integer to its
      8 bytes, so no two different inputs read as the same records. */
  lemma {:induction false} GetReadRecords(s: seq<Byte>, budget: nat)
    requires ReadRecords(s, budget).Success?
    ensures Encodable(ReadRecords(s, budget).value.0)
         && s == Get(ReadRecords(s, budget).value.0) + ReadRecords(s, budget).value.1
    decreases budget
  {
    ReadRecordsSound(s, budget);
    if budget == 0 {
      assert ReadRecords(s, budget).value.0 == [];
    } else {
      ReadRecordSound(s);
      var e, n, rest, budget' := ReadRecordsUnfold(s, budget);
      var tail := ReadRecords(rest, budget').value;
      ReadRecordsSound(rest, budget');
      GetReadRecords(rest, budget');
      GetConsEntry(e, tail.0, tail.1);
      assert s == s[..n] + rest;
    }
  }

  lemma GetConsEntry(e: Entry, tail: Table, rest: seq<Byte>)
    requires EntryEncodable(e) && Encodable(tail)
    ensures Get([e] + tail) + rest == EncodeEntry(e) + (Get(tail) + rest)
  {
    assert ([e] + tail)[1..] == tail;
    Associate3(EncodeEntry(e), Get(tail), rest);
  }

  /** A record whose path is not well-formed UTF-8 fails the whole index read
      with DecodeFailure, whatever records come before it and however much of
      the index follows it. */
  lemma {:induction false} ReadRejectsBadPath(t: Table, path: seq<Byte>, size: nat, bad: seq<Byte>, rest: seq<Byte>, extra: nat)
    requires Encodable(t)
    requires Utf8.Decode(path) == None && |path| < LIMIT && size < LIMIT
    requires bad == FromInt64(|path|) + path + FromInt64(size)
    ensures Read(Get(t) + bad + rest, IndexLength(t) + |bad| + extra) == Failure(DecodeFailure)
  {
    ReadRecordBadPath(path, size, bad, rest);
    ReadFailsAtRecord(t, bad, rest, extra);
  }

  /** A record that cannot be read, anywhere after the records of `t` and
      inside the budget, fails the index read with the record's error. */
  lemma {:induction false} ReadFailsAtRecord(t: Table, bad: seq<Byte>, rest: seq<Byte>, extra: nat)
    requires Encodable(t) && |bad| > 0
    requires ReadRecord(bad + rest).Failure?
    ensures Read(Get(t) + bad + rest, IndexLength(t) + |bad| + extra) == Failure(ReadRecord(bad + rest).error)
  {
    var x := bad + rest;
    var budget, total := |bad| + extra, IndexLength(t) + |bad| + extra;
    ReadRecordsFailsAtFirst(x, budget);
    Associate3(Get(t), bad, rest);
    ReadFailsAfterGet(t, x, Get(t) + bad + rest, budget, total);
  }

  /** A records read that fails after the records of `t` fails the index read
      over `t`'s encoding followed by it. */
  lemma ReadFailsAfterGet(t: Table, x: seq<Byte>, s: seq<Byte>, budget: nat, total: nat)
    requires Encodable(t) && s == Get(t) + x && total == IndexLength(t) + budget
    requires ReadRecords(x, budget).Failure?
    ensures Read(s, total) == Failure(ReadRecords(x, budget).error)
  {
    ReadRecordsAfterGet(t, x, budget, total);
    ReadFailsWithRecords(s, total);
  }

  /** A record that cannot be read fails the records read it starts. */
  lemma ReadRecordsFailsAtFirst(s: seq<Byte>, budget: nat)
    requires budget > 0 && ReadRecord(s).Failure?
    ensures ReadRecords(s, budget) == Failure(ReadRecord(s).error)
  {
  }

  /** The index read fails exactly as its records read does. */
  lemma ReadFailsWithRecords(s: seq<Byte>, indexSize: nat)
    requires ReadRecords(s, indexSize).Failure?
    ensures Read(s, indexSize) == Failure(ReadRecords(s, indexSize).error)
  {
  }

  /** A record whose path bytes are not UTF-8 fails with DecodeFailure. */
  lemma {:induction false} ReadRecordBadPath(path: seq<Byte>, size: nat, bad: seq<Byte>, rest: seq<Byte>)
    requires Utf8.Decode(path) == None && |path| < LIMIT && size < LIMIT
    requires bad == FromInt64(|path|) + path + FromInt64(size)
    ensures |bad| == RECORD_OVERHEAD + |path|
    ensures ReadRecord(bad + rest) == Failure(DecodeFailure)
  {
    Split4(FromInt64(|path|), path, FromInt64(size), rest);
  }

  /** What the loop as written reports after a number of iterations. */
  datatype Progress =
    | Finished(table: Table, rest: seq<Byte>)  // the budget reached exactly zero
    | Undecodable                             // a path was not UTF-8
    | StillRunning                            // the budget is still non-zero

  /** One iteration's reads exactly as written: each read takes whatever the
      stream still holds, short or empty, and nothing checks the lengths.
      Returns the bytes the loop takes off the budget (16 plus the path
      length read), the decoded path (None where decoding raises), the size
      and the rest of the stream. */
  function ReadRecordAsWritten(s: seq<Byte>): (r: (nat, Option<string>, nat, seq<Byte>))
    ensures s == [] ==> r == (RECORD_OVERHEAD, Some([]), 0, [])
  {
    var a := Min(WIDTH, |s|);
    var pathLen := ToInt64(s[..a]);
    var b := Min(a + pathLen, |s|);
    var c := Min(b + WIDTH, |s|);
    (RECORD_OVERHEAD + pathLen, Utf8.Decode(s[a..b]), ToInt64(s[b..c]), s[c..])
  }

  /** On a complete record the reads as written agree with the checked ones. */
  lemma ReadRecordAsWrittenAgrees(s: seq<Byte>, e: Entry, n: nat, rest: seq<Byte>)
    requires ReadRecord(s) == Success((e, n, rest))
    ensures ReadRecordAsWritten(s) == (n, Some(e.path), e.size, rest)
  {
  }

  /** The read loop exactly as written, run for at most `fuel` iterations:
      the budget is a plain integer that the loop decrements by 16 plus the
      path length, and the loop runs for as long as the budget is non-zero. */
  function ReadAsWritten(s: seq<Byte>, budget: int, acc: Table, fuel: nat): Progress
    decreases fuel
  {
    if budget == 0 then Finished(acc, s)
    else if fuel == 0 then StillRunning
    else
      var (taken, path, size, rest) := ReadRecordAsWritten(s);
      match path
      case None => Undecodable
      case Some(p) => ReadAsWritten(rest, budget - taken, Insert(acc, p, size), fuel - 1)
  }

  /** When the loop as written finishes, it has left a suffix of the stream
      unread, kept every path the table had, and kept the paths distinct. */
  lemma {:induction false} ReadAsWrittenFinished(s: seq<Byte>, budget: int, acc: Table, fuel: nat)
    requires ReadAsWritten(s, budget, acc, fuel).Finished?
    ensures var r := ReadAsWritten(s, budget, acc, fuel);
      && IsSuffix(r.rest, s)
      && (forall p :: p in Paths(acc) ==> p in Paths(r.table))
      && (DistinctPaths(acc) ==> DistinctPaths(r.table))
    decreases fuel
  {
    if budget != 0 {
      var (taken, path, size, rest) := ReadRecordAsWritten(s);
      var e := Entry(path.value, size);
      var budget', fuel' := budget - taken, fuel - 1;
      var acc' := Insert(acc, e.path, e.size);
      ReadAsWrittenUnfold(s, budget, acc, fuel, e, taken, rest, budget', fuel');
      InsertMembers(acc, e.path, e.size);
      if DistinctPaths(acc) {
        InsertDistinct(acc, e.path, e.size);
      }
      ReadAsWrittenFinished(rest, budget', acc', fuel');
      ReadRecordAsWrittenSuffix(s);
      SuffixOfSuffix(ReadAsWritten(rest, budget', acc', fuel').rest, rest, s);
    }
  }

  /** The reads of one iteration leave a suffix of the stream. */
  lemma ReadRecordAsWrittenSuffix(s: seq<Byte>)
    ensures IsSuffix(ReadRecordAsWritten(s).3, s)
  {
  }

  /** One iteration of the loop as written over a record whose reads come
      out as `(n, Some(e.path), e.size, rest)`. */
  lemma ReadAsWrittenUnfold(s: seq<Byte>, budget: int, acc: Table, fuel: nat, e: Entry, n: nat, rest: seq<Byte>, budget': int, fuel': nat)
    requires budget != 0 && fuel > 0 && ReadRecordAsWritten(s) == (n, Some(e.path), e.size, rest)
    requires budget' == budget - n && fuel' == fuel - 1
    ensures ReadAsWritten(s, budget, acc, fuel) == ReadAsWritten(rest, budget', Insert(acc, e.path, e.size), fuel')
  {
  }

  lemma CollapseCons(acc: Table, e: Entry, tail: seq<Entry>)
    ensures Collapse(acc, [e] + tail) == Collapse(Insert(acc, e.path, e.size), tail)
  {
    assert ([e] + tail)[1..] == tail;
  }

  /** Wherever the checked reader succeeds, the loop as written finishes with
      the same table and stream position, within `budget` iterations. */
  lemma {:induction false} ReadRecordsRefinesAsWritten(s: seq<Byte>, budget: nat, acc: Table, fuel: nat)
    requires ReadRecords(s, budget).Success? && fuel >= budget
    ensures ReadAsWritten(s, budget, acc, fuel)
         == Finished(Collapse(acc, ReadRecords(s, budget).value.0), ReadRecords(s, budget).value.1)
    decreases budget
  {
    if budget == 0 {
      assert ReadRecords(s, budget) == Success(([], s));
      assert Collapse(acc, []) == acc;
    } else {
      var e, rest, budget', fuel' := FirstRecord(s, budget, acc, fuel);
      var acc' := Insert(acc, e.path, e.size);
      var tail := ReadRecords(rest, budget').value;
      ReadRecordsRefinesAsWritten(rest, budget', acc', fuel');
      calc {
        ReadAsWritten(s, budget, acc, fuel);
        ReadAsWritten(rest, budget', acc', fuel');
        Finished(Collapse(acc', tail.0), tail.1);
        { CollapseCons(acc, e, tail.0); }
        Finished(Collapse(acc, [e] + tail.0), tail.1);
      }
    }
  }

  /** The first record of a successful read, and what both readers do with it. */
  lemma FirstRecord(s: seq<Byte>, budget: nat, acc: Table, fuel: nat) returns (e: Entry, rest: seq<Byte>, budget': nat, fuel': nat)
    requires ReadRecords(s, budget).Success? && 0 < budget <= fuel
    ensures budget' < budget && budget' <= fuel' && ReadRecords(rest, budget').Success?
    ensures ReadRecords(s, budget).value == ([e] + ReadRecords(rest, budget').value.0, ReadRecords(rest, budget').value.1)
    ensures ReadAsWritten(s, budget, acc, fuel) == ReadAsWritten(rest, budget', Insert(acc, e.path, e.size), fuel')
  {
    var n;
    fuel' := fuel - 1;
    e, n, rest, budget' := ReadRecordsUnfold(s, budget);
    ReadRecordAsWrittenAgrees(s, e, n, rest);
    ReadAsWrittenUnfold(s, budget, acc, fuel, e, n, rest, budget', fuel');
  }

  /** The checked reader agrees with the loop as written on every stream it
      accepts. */
  lemma ReadRefinesAsWritten(s: seq<Byte>, indexSize: nat)
    requires Read(s, indexSize).Success?
    ensures ReadAsWritten(s, indexSize, [], indexSize)
         == Finished(Read(s, indexSize).value.0, Read(s, indexSize).value.1)
  {
    ReadRecordsRefinesAsWritten(s, indexSize, [], indexSize);
  }

  /** The converse: over a stream that holds the whole index, the loop as
      written finishes only where the checked reader succeeds, and then with
      the same table and rest. So the two differ only on truncated indexes and
      on budget overruns, where the loop as written does not finish. */
  lemma AsWrittenFinishedIsRead(s: seq<Byte>, indexSize: nat, fuel: nat)
    requires indexSize <= |s| && ReadAsWritten(s, indexSize, [], fuel).Finished?
    ensures Read(s, indexSize).Success?
    ensures ReadAsWritten(s, indexSize, [], fuel) == Finished(Read(s, indexSize).value.0, Read(s, indexSize).value.1)
  {
    AsWrittenFinishedIsRecords(s, indexSize, [], fuel);
  }

  /** `AsWrittenFinishedIsRead` for any budget and table so far. */
  lemma {:induction false} AsWrittenFinishedIsRecords(s: seq<Byte>, budget: nat, acc: Table, fuel: nat)
    requires budget <= |s| && ReadAsWritten(s, budget, acc, fuel).Finished?
    ensures ReadRecords(s, budget).Success?
    ensures ReadAsWritten(s, budget, acc, fuel)
         == Finished(Collapse(acc, ReadRecords(s, budget).value.0), ReadRecords(s, budget).value.1)
    decreases fuel
  {
    if budget == 0 {
      assert ReadRecords(s, budget) == Success(([], s));
      assert Collapse(acc, []) == acc;
    } else {
      var e, n, rest, budget', fuel' := AsWrittenStep(s, budget, acc, fuel);
      var acc' := Insert(acc, e.path, e.size);
      var tail := ReadRecords(rest, budget');
      AsWrittenFinishedIsRecords(rest, budget', acc', fuel');
      var e', n', rest', budget'' := ReadRecordsUnfold(s, budget);
      calc {
        ReadAsWritten(s, budget, acc, fuel);
        ReadAsWritten(rest, budget', acc', fuel');
        Finished(Collapse(acc', tail.value.0), tail.value.1);
        { CollapseCons(acc, e, tail.value.0); }
        Finished(Collapse(acc, [e] + tail.value.0), tail.value.1);
      }
    }
  }

  /** One iteration of a run that goes on to finish: the record it takes fits
      the budget, so it is complete and is the one the checked reader takes. */
  lemma AsWrittenStep(s: seq<Byte>, budget: nat, acc: Table, fuel: nat)
      returns (e: Entry, n: nat, rest: seq<Byte>, budget': nat, fuel': nat)
    requires 0 < budget <= |s| && ReadAsWritten(s, budget, acc, fuel).Finished?
    ensures ReadRecord(s) == Success((e, n, rest)) && budget' == budget - n && fuel' < fuel
    ensures budget' <= |rest|
    ensures ReadAsWritten(rest, budget', Insert(acc, e.path, e.size), fuel').Finished?
    ensures ReadAsWritten(s, budget, acc, fuel) == ReadAsWritten(rest, budget', Insert(acc, e.path, e.size), fuel')
  {
    var r := ReadRecordAsWritten(s);
    var path := r.1;
    e, n, rest, fuel' := Entry(path.value, r.2), r.0, r.3, fuel - 1;
    var b: int := budget - n;
    ReadAsWrittenUnfold(s, budget, acc, fuel, e, n, rest, b, fuel');
    if b < 0 {
      NegativeNeverFinishes(rest, b, Insert(acc, e.path, e.size), fuel');
      assert false;
    }
    budget' := b;
    CompleteRecordAsWritten(s);
  }

  /** A record the reads as written take whole, with a decodable path, is
      exactly the record the checked reader takes. */
  lemma CompleteRecordAsWritten(s: seq<Byte>)
    requires ReadRecordAsWritten(s).0 <= |s| && ReadRecordAsWritten(s).1.Some?
    ensures var (n, path, size, rest) := ReadRecordAsWritten(s);
      ReadRecord(s) == Success((Entry(path.value, size), n, rest))
  {
  }

  /** With the budget below zero, the loop as written never finishes, on any
      stream: each iteration takes at least 16 more off the budget. */
  lemma {:induction false} NegativeNeverFinishes(s: seq<Byte>, budget: int, acc: Table, fuel: nat)
    requires budget < 0
    ensures !ReadAsWritten(s, budget, acc, fuel).Finished?
    decreases fuel
  {
    var r := ReadRecordAsWritten(s);
    if fuel > 0 && r.1.Some? {
      var e, fuel' := Entry(r.1.value, r.2), fuel - 1;
      var budget' := budget - r.0;
      ReadAsWrittenUnfold(s, budget, acc, fuel, e, r.0, r.3, budget', fuel');
      NegativeNeverFinishes(r.3, budget', Insert(acc, e.path, e.size), fuel');
    }
  }

  /** Once the stream is exhausted with the budget below zero, every further
      iteration reads nothing, inserts an empty path and takes 16 more off the
      budget, which therefore never returns to zero. */
  lemma {:induction false} ExhaustedStreamNeverFinishes(budget: int, acc: Table, fuel: nat)
    requires budget < 0
    ensures ReadAsWritten([], budget, acc, fuel) == StillRunning
    decreases fuel
  {
    if fuel > 0 {
      var budget', acc', fuel' := budget - RECORD_OVERHEAD, Insert(acc, [], 0), fuel - 1;
      ReadAsWrittenUnfold([], budget, acc, fuel, Entry([], 0), RECORD_OVERHEAD, [], budget', fuel');
      ExhaustedStreamNeverFinishes(budget', acc', fuel');
    }
  }

  /** An index size of 16 over an exhausted stream: as written, the loop reads
      an empty length, an empty path and an empty size, which decode as 0, ""
      and 0, takes 16 off the budget and returns the table {"": 0}; the checked
      reader reports ReadFailure. */
  lemma TruncatedIndexAccepted(fuel: nat)
    ensures fuel > 0 ==> ReadAsWritten([], RECORD_OVERHEAD, [], fuel) == Finished([Entry([], 0)], [])
    ensures Read([], RECORD_OVERHEAD) == Failure(ReadFailure)
  {
  }

  /** A one-byte index budget followed by one complete record (path "a",
      size 0): as written, the record drives the budget to -16 and the loop
      never ends, however many iterations it is given; the checked reader
      reports CorruptIndex. */
  lemma BudgetOverrunNeverFinishes(fuel: nat)
    ensures ReadAsWritten(EncodeEntry(Entry("a", 0)), 1, [], fuel) == StillRunning
    ensures Read(EncodeEntry(Entry("a", 0)), 1) == Failure(CorruptIndex)
  {
    var e := Entry("a", 0);
    var record := EncodeEntry(e);
    assert Utf8.Encode("a") == [0x61];
    assert record + [] == record;
    ReadRecordEncodeEntry(e, []);
    assert ReadRecord(record) == Success((e, 17, []));
    if fuel > 0 {
      var budget', fuel' := -16, fuel - 1;
      ReadRecordAsWrittenAgrees(record, e, 17, []);
      ReadAsWrittenUnfold(record, 1, [], fuel, e, 17, [], budget', fuel');
      ExhaustedStreamNeverFinishes(budget', Insert([], "a", 0), fuel');
    }
  }
}
