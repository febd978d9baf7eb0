/** The .maj archive as a whole: the header, then the index table, then the
    contents of every file in table order. Creating an archive serialises a
    directory tree; installing one reads the header and the index back and
    cuts the data segment into one piece per entry, each read in 32 KiB
    chunks. The directory tree is a list of files with archive-relative
    paths; the archive is a byte sequence. */
module Archive {
  import opened Streams
  import opened IntCodec
  import HeaderRecord
  import IndexTable
  import Utf8

  /** The unit in which file contents are copied: 32 KiB. */
  const CHUNK: nat := 1024 * 32

  /** A file of the tree: its archive-relative path and its bytes. */
  datatype File = File(path: string, content: seq<Byte>)

  /** The files of a directory tree, in traversal order. */
  type Tree = seq<File>

  /** The index entry a file contributes: its path and its size. */
  function EntryOf(f: File): IndexTable.Entry {
    IndexTable.Entry(f.path, |f.content|)
  }

  /** The entries for the files of the tree, in traversal order. */
  function Entries(tree: Tree): IndexTable.Table {
    if |tree| == 0 then [] else [EntryOf(tree[0])] + Entries(tree[1..])
  }

  /** The i-th entry is the i-th file's path and size. */
  lemma {:induction false} EntriesAt(tree: Tree)
    ensures |Entries(tree)| == |tree|
    ensures forall i :: 0 <= i < |tree| ==> Entries(tree)[i] == EntryOf(tree[i])
  {
    if |tree| > 0 {
      EntriesAt(tree[1..]);
    }
  }

  /** The file contents concatenated in traversal order. */
  function Contents(tree: Tree): seq<Byte> {
    if |tree| == 0 then [] else tree[0].content + Contents(tree[1..])
  }

  /** No path is listed twice: the tree's counterpart of
      `IndexTable.DistinctPaths`, to which `DistinctPathsOfEntries` ties it. */
  predicate DistinctPaths(tree: Tree) {
    forall i, j :: 0 <= i < j < |tree| ==> tree[i].path != tree[j].path
  }

  /** A tree has distinct paths exactly when its entries do. */
  lemma DistinctPathsOfEntries(tree: Tree)
    ensures DistinctPaths(tree) <==> IndexTable.DistinctPaths(Entries(tree))
  {
    EntriesAt(tree);
  }

  /** A tree the archive format can hold: distinct paths (a directory never
      lists a path twice), and every length and size, the total file size
      included, below 2^64. */
  predicate WellFormed(tree: Tree) {
    && DistinctPaths(tree)
    && IndexTable.Encodable(Entries(tree))
    && HeaderRecord.SIZE + IndexTable.IndexLength(Entries(tree)) + |Contents(tree)| < LIMIT
  }

  /** The index the archive gets: each file's size assigned under its path,
      one after another, as the dict is filled. */
  function CreateIndex(tree: Tree): IndexTable.Table {
    IndexTable.Collapse([], Entries(tree))
  }

  /** With distinct paths, assignment appends every file: the index lists the
      files in traversal order, which is the order their contents are
      written in. */
  lemma CreateIndexInOrder(tree: Tree)
    requires DistinctPaths(tree)
    ensures CreateIndex(tree) == Entries(tree)
    ensures IndexTable.DistinctPaths(CreateIndex(tree))
  {
    var t := Entries(tree);
    DistinctPathsOfEntries(tree);
    assert [] + t == t;
    IndexTable.CollapseDistinct([], t);
  }

  /** The data segment is exactly as long as the sizes in the index add up
      to. */
  lemma {:induction false} DataLengthIsContentLength(tree: Tree)
    ensures IndexTable.GetDataLength(Entries(tree)) == |Contents(tree)|
  {
    if |tree| > 0 {
      var t := Entries(tree);
      assert t[1..] == Entries(tree[1..]);
      DataLengthIsContentLength(tree[1..]);
    }
  }

  /** The header `create` writes for a tree: index size is the length of the
      encoded index, data size the sum of the file sizes. */
  function HeaderFor(tree: Tree): (h: HeaderRecord.Header)
    requires WellFormed(tree)
    ensures HeaderRecord.Validate(h) && HeaderRecord.Encodable(h)
    ensures h.indexSize == IndexTable.IndexLength(Entries(tree))
    ensures h.dataSize == |Contents(tree)|
  {
    CreateIndexInOrder(tree);
    DataLengthIsContentLength(tree);
    var table := CreateIndex(tree);
    HeaderRecord.Create(|IndexTable.Get(table)|, IndexTable.GetDataLength(table))
  }

  /** `PackageManager.create`: the header, the encoded index, then every
      file's contents in index order. */
  function Create(tree: Tree): (r: seq<Byte>)
    requires WellFormed(tree)
    ensures |r| == HeaderFor(tree).fileSize
    ensures HeaderRecord.SIZE + HeaderFor(tree).indexSize <= |r|
    ensures r[HeaderRecord.SIZE + HeaderFor(tree).indexSize..] == Contents(tree)
  {
    CreateIndexInOrder(tree);
    var table := CreateIndex(tree);
    var h := HeaderFor(tree);
    var r := HeaderRecord.Get(h) + IndexTable.Get(table) + Contents(tree);
    assert r[HeaderRecord.SIZE + h.indexSize..] == Contents(tree);
    r
  }

  /** The archive is exactly as long as its header says: 28 bytes of header,
      16 plus the path length per entry, and the contents. */
  lemma CreateLength(tree: Tree)
    requires WellFormed(tree)
    ensures |Create(tree)| == HeaderFor(tree).fileSize
    ensures |Create(tree)| == HeaderRecord.SIZE + IndexTable.IndexLength(Entries(tree)) + |Contents(tree)|
  {
    CreateIndexInOrder(tree);
  }

  /** `PackageManager.read`: the header, then an index of the size the header
      gives. Returns both with the rest of the stream, which is where the
      data segment starts. */
  function Read(s: seq<Byte>): (r: Result<(HeaderRecord.Header, IndexTable.Table, seq<Byte>)>)
    ensures r.Success? ==> HeaderRecord.Validate(r.value.0) && IndexTable.DistinctPaths(r.value.1)
    ensures r.Success? ==>
      && HeaderRecord.SIZE + r.value.0.indexSize <= |s|
      && r.value.2 == s[HeaderRecord.SIZE + r.value.0.indexSize..]
    ensures HeaderRecord.Read(s).Failure? ==> r == Failure(HeaderRecord.Read(s).error)
    ensures HeaderRecord.Read(s).Success? ==>
      var (h, rest) := HeaderRecord.Read(s).value;
      && (r.Success? <==> IndexTable.Read(rest, h.indexSize).Success?)
      && (r.Failure? ==> r.error == IndexTable.Read(rest, h.indexSize).error)
  {
    var (h, rest) :- HeaderRecord.Read(s);
    var (t, data) :- IndexTable.Read(rest, h.indexSize);
    Success((h, t, data))
  }

  /** `count` reads of a full chunk each, concatenated. */
  function ReadChunks(s: seq<Byte>, count: nat): (seq<Byte>, seq<Byte>) {
    if count == 0 then ([], s)
    else
      var (chunk, rest) := ReadAtMost(s, CHUNK);
      var (more, rest') := ReadChunks(rest, count - 1);
      (chunk + more, rest')
  }

  /** What `install` reads for one entry of `size` bytes: `size / CHUNK`
      full chunks, then the remainder. */
  function ReadInChunks(s: seq<Byte>, size: nat): (seq<Byte>, seq<Byte>) {
    var (full, rest) := ReadChunks(s, size / CHUNK);
    var (tail, rest') := ReadAtMost(rest, size % CHUNK);
    (full + tail, rest')
  }

  /** Two reads in a row take what one read of their total would. */
  lemma ReadAtMostTwice(s: seq<Byte>, a: nat, b: nat, total: nat)
    requires total == a + b
    ensures var (x, rest) := ReadAtMost(s, a);
      var (y, rest') := ReadAtMost(rest, b);
      (x + y, rest') == ReadAtMost(s, total)
  {
    var k, m := Min(a, |s|), Min(total, |s|);
    var x, rest := ReadAtMost(s, a).0, ReadAtMost(s, a).1;
    assert x == s[..k] && rest == s[k..];
    var j := Min(b, |rest|);
    assert k + j == m;
    var y, rest' := ReadAtMost(rest, b).0, ReadAtMost(rest, b).1;
    assert y == s[k..m] by {
      assert y == rest[..j];
    }
    assert rest' == s[m..] by {
      assert rest' == rest[j..];
    }
    assert x + y == s[..m];
  }

  /** `count` full-chunk reads take what one read of `count * CHUNK` would. */
  lemma {:induction false} ReadChunksIsOneRead(s: seq<Byte>, count: nat)
    ensures ReadChunks(s, count) == ReadAtMost(s, count * CHUNK)
  {
    if count > 0 {
      var rest := ReadAtMost(s, CHUNK).1;
      var count' := count - 1;
      var before, total := count' * CHUNK, count * CHUNK;
      ReadChunksIsOneRead(rest, count');
      ReadAtMostTwice(s, CHUNK, before, total);
    }
  }

  /** Reading in chunks plus a remainder takes exactly the bytes one read of
      `size` would, because `(size / CHUNK) * CHUNK + size % CHUNK == size`. */
  lemma ReadInChunksIsOneRead(s: seq<Byte>, size: nat)
    ensures ReadInChunks(s, size) == ReadAtMost(s, size)
  {
    var count, remainder := size / CHUNK, size % CHUNK;
    var full := count * CHUNK;
    assert full + remainder == size;
    ReadChunksIsOneRead(s, count);
    ReadAtMostTwice(s, full, remainder, size);
  }

  /** Install's extraction: for each entry in table order, the next `size`
      bytes of the data segment read in chunks become that path's content.
      A data segment that runs short leaves later contents short or empty,
      as the unchecked reads do. */
  function Extract(t: IndexTable.Table, data: seq<Byte>): Tree {
    if |t| == 0 then []
    else
      var (piece, rest) := ReadInChunks(data, t[0].size);
      [File(t[0].path, piece)] + Extract(t[1..], rest)
  }

  /** Extraction writes one file per entry, under the entry's path, and when
      the data segment holds at least the sizes' sum, each file gets exactly
      its recorded size. */
  lemma {:induction false} ExtractShape(t: IndexTable.Table, data: seq<Byte>)
    ensures |Extract(t, data)| == |t|
    ensures forall i :: 0 <= i < |t| ==> Extract(t, data)[i].path == t[i].path
    ensures IndexTable.GetDataLength(t) <= |data| ==>
      forall i :: 0 <= i < |t| ==> |Extract(t, data)[i].content| == t[i].size
  {
    if |t| > 0 {
      ReadInChunksIsOneRead(data, t[0].size);
      var rest := ReadAtMost(data, t[0].size).1;
      ExtractShape(t[1..], rest);
      var r := Extract(t, data);
      assert r == [File(t[0].path, ReadAtMost(data, t[0].size).0)] + Extract(t[1..], rest);
      assert forall i :: 1 <= i < |t| ==> r[i] == Extract(t[1..], rest)[i - 1];
    }
  }

  /** Each file's content is cut back out of the concatenated contents. */
  lemma {:induction false} ExtractContents(tree: Tree, rest: seq<Byte>)
    ensures Extract(Entries(tree), Contents(tree) + rest) == tree
  {
    if |tree| > 0 {
      var f := tree[0];
      var data, tail := Contents(tree) + rest, Contents(tree[1..]) + rest;
      assert data == f.content + tail by {
        Associate3(f.content, Contents(tree[1..]), rest);
      }
      assert ReadAtMost(data, |f.content|) == (f.content, tail);
      ExtractStep(EntryOf(f), Entries(tree[1..]), data, f.content, tail);
      ExtractContents(tree[1..], rest);
      assert Entries(tree) == [EntryOf(f)] + Entries(tree[1..]);
      assert tree == [f] + tree[1..];
    }
  }

  /** `PackageManager.install`: read the header and the index, then extract
      the files from the data segment; fails wherever `read` fails. */
  function Install(s: seq<Byte>): (r: Result<Tree>)
    ensures r.Success? <==> Read(s).Success?
    ensures r.Failure? ==> r.error == Read(s).error
    ensures r.Success? ==> DistinctPaths(r.value)
    ensures r.Success? ==>
      var t := Read(s).value.1;
      && |r.value| == |t|
      && (forall i :: 0 <= i < |t| ==> r.value[i].path == t[i].path)
      && (IndexTable.GetDataLength(t) <= |Read(s).value.2| ==>
            forall i :: 0 <= i < |t| ==> |r.value[i].content| == t[i].size)
  {
    var (_, t, data) :- Read(s);
    ExtractShape(t, data);
    Success(Extract(t, data))
  }

  /** Reading a created archive gives back its header, the tree's entries in
      traversal order, and the contents as the data segment. */
  lemma ReadCreate(tree: Tree)
    requires WellFormed(tree)
    ensures Read(Create(tree)) == Success((HeaderFor(tree), Entries(tree), Contents(tree)))
  {
    CreateIndexInOrder(tree);
    var h, t, data := HeaderFor(tree), Entries(tree), Contents(tree);
    var header, index := HeaderRecord.Get(h), IndexTable.Get(t);
    var rest := index + data;
    assert Create(tree) == header + rest by {
      Associate3(header, index, data);
    }
    HeaderRecord.ReadGet(h, rest);
    IndexTable.ReadGet(t, data);
  }

  /** Round trip: installing a created archive gives back the tree, every
      file under its path with its exact contents, in traversal order. */
  lemma InstallCreate(tree: Tree)
    requires WellFormed(tree)
    ensures Install(Create(tree)) == Success(tree)
  {
    ReadCreate(tree);
    assert Contents(tree) + [] == Contents(tree);
    ExtractContents(tree, []);
  }

  /** An empty directory gives a bare 28-byte header with both sizes zero. */
  lemma EmptyTree()
    ensures WellFormed([])
    ensures HeaderFor([]) == HeaderRecord.Header(HeaderRecord.NORMAL_MAGIC_NUMBER, 28, 0, 0)
    ensures |Create([])| == 28
    ensures Install(Create([])) == Success([])
  {
    CreateLength([]);
    InstallCreate([]);
  }

  /** A two-file tree: "a.txt" holding "abc" and an empty "sub/b.txt". */
  const TWO_FILES: Tree := [File("a.txt", [97, 98, 99]), File("sub/b.txt", [])]

  lemma TwoFilesEntries()
    ensures Entries(TWO_FILES) == [IndexTable.Entry("a.txt", 3), IndexTable.Entry("sub/b.txt", 0)]
    ensures Contents(TWO_FILES) == [97, 98, 99]
  {
    assert TWO_FILES[1..] == [File("sub/b.txt", [])];
  }

  /** Its index takes (16 + 5) + (16 + 9) = 46 bytes. */
  lemma TwoFilesIndexLength()
    ensures IndexTable.IndexLength([IndexTable.Entry("a.txt", 3), IndexTable.Entry("sub/b.txt", 0)]) == 46
  {
    var t := [IndexTable.Entry("a.txt", 3), IndexTable.Entry("sub/b.txt", 0)];
    Utf8.EncodeAscii("a.txt");
    Utf8.EncodeAscii("sub/b.txt");
    assert t[1..] == [IndexTable.Entry("sub/b.txt", 0)];
  }

  lemma TwoFilesEncodable()
    ensures IndexTable.Encodable([IndexTable.Entry("a.txt", 3), IndexTable.Entry("sub/b.txt", 0)])
  {
    AsciiPathFits("a.txt");
    AsciiPathFits("sub/b.txt");
    PairEncodable(IndexTable.Entry("a.txt", 3), IndexTable.Entry("sub/b.txt", 0));
  }

  /** A table of two encodable entries is encodable. */
  lemma PairEncodable(e1: IndexTable.Entry, e2: IndexTable.Entry)
    requires IndexTable.EntryEncodable(e1) && IndexTable.EntryEncodable(e2)
    ensures IndexTable.Encodable([e1, e2])
  {
  }

  /** An ASCII path takes one byte per character, so any realistic one fits. */
  lemma AsciiPathFits(p: string)
    requires forall i :: 0 <= i < |p| ==> p[i] as int < 0x80
    requires |p| < LIMIT
    ensures IndexTable.PathFits(p)
  {
    Utf8.EncodeAscii(p);
  }

  lemma TwoFilesSizes()
    ensures IndexTable.IndexLength(Entries(TWO_FILES)) == 46
    ensures Contents(TWO_FILES) == [97, 98, 99]
    ensures WellFormed(TWO_FILES)
  {
    TwoFilesEntries();
    TwoFilesIndexLength();
    TwoFilesEncodable();
    assert |TWO_FILES[0].path| != |TWO_FILES[1].path|;
  }

  /** So its header records 28 + 46 + 3 = 77 bytes in all, the archive has
      that length, and installing it gives the two files back. */
  lemma TwoFileTree()
    ensures WellFormed(TWO_FILES)
    ensures HeaderFor(TWO_FILES) == HeaderRecord.Header(HeaderRecord.NORMAL_MAGIC_NUMBER, 77, 46, 3)
    ensures |Create(TWO_FILES)| == 77
    ensures Install(Create(TWO_FILES)) == Success(TWO_FILES)
  {
    TwoFilesSizes();
    CreateLength(TWO_FILES);
    InstallCreate(TWO_FILES);
  }

  /** Position in the data segment is implicit: the same three data bytes
      read under the same two entries in the other order hand each path
      different bytes. */
  lemma OrderSensitivity(p: string, q: string, x: Byte, y: Byte, z: Byte)
    ensures Extract([IndexTable.Entry(p, 1), IndexTable.Entry(q, 2)], [x, y, z])
         == [File(p, [x]), File(q, [y, z])]
    ensures Extract([IndexTable.Entry(q, 2), IndexTable.Entry(p, 1)], [x, y, z])
         == [File(q, [x, y]), File(p, [z])]
    ensures x != z ==>
      var before := Extract([IndexTable.Entry(p, 1), IndexTable.Entry(q, 2)], [x, y, z]);
      var after := Extract([IndexTable.Entry(q, 2), IndexTable.Entry(p, 1)], [x, y, z]);
      before[0].content != after[1].content && before[1].content != after[0].content
  {
    var data := [x, y, z];
    var e1, e2 := IndexTable.Entry(p, 1), IndexTable.Entry(q, 2);
    SplitThree(x, y, z);
    ExtractPair(e1, e2, data, [x], [y, z], [y, z], []);
    ExtractPair(e2, e1, data, [x, y], [z], [z], []);
  }

  /** The reads behind the two orders in `OrderSensitivity`. */
  lemma SplitThree(x: Byte, y: Byte, z: Byte)
    ensures ReadAtMost([x, y, z], 1) == ([x], [y, z])
    ensures ReadAtMost([y, z], 2) == ([y, z], [])
    ensures ReadAtMost([x, y, z], 2) == ([x, y], [z])
    ensures ReadAtMost([z], 1) == ([z], [])
  {
    var s := [x, y, z];
    assert s[..1] == [x] && s[1..] == [y, z];
    assert s[..2] == [x, y] && s[2..] == [z];
    assert [y, z][..2] == [y, z] && [y, z][2..] == [];
    assert [z][..1] == [z] && [z][1..] == [];
  }

  /** Extraction under a two-entry index: the second entry reads on from
      where the first stopped. */
  lemma ExtractPair(e1: IndexTable.Entry, e2: IndexTable.Entry, data: seq<Byte>,
                    a: seq<Byte>, mid: seq<Byte>, b: seq<Byte>, rest: seq<Byte>)
    requires ReadAtMost(data, e1.size) == (a, mid)
    requires ReadAtMost(mid, e2.size) == (b, rest)
    ensures Extract([e1, e2], data) == [File(e1.path, a), File(e2.path, b)]
  {
    assert [e1, e2] == [e1] + [e2];
    ExtractStep(e1, [e2], data, a, mid);
    assert [e2] == [e2] + [];
    ExtractStep(e2, [], mid, b, rest);
  }

  /** One step of extraction: the first entry takes its piece, the rest
      continue from where it ended. */
  lemma ExtractStep(e: IndexTable.Entry, t: IndexTable.Table, data: seq<Byte>, piece: seq<Byte>, rest: seq<Byte>)
    requires ReadAtMost(data, e.size) == (piece, rest)
    ensures Extract([e] + t, data) == [File(e.path, piece)] + Extract(t, rest)
  {
    ReadInChunksIsOneRead(data, e.size);
    assert ([e] + t)[1..] == t;
  }

  /** The install loop for one entry: `size // CHUNK` full-chunk reads, then
      one read of the remainder. */
  method CopyChunks(data: seq<Byte>, size: nat) returns (piece: seq<Byte>, rest: seq<Byte>)
    ensures (piece, rest) == ReadAtMost(data, size)
    ensures |piece| <= size && piece + rest == data
  {
    var toRead, remainder := size / CHUNK, size % CHUNK;
    piece, rest := [], data;
    var i := 0;
    while i < toRead
      invariant 0 <= i <= toRead
      invariant (piece, rest) == ReadAtMost(data, i * CHUNK)
    {
      var done, next := i * CHUNK, (i + 1) * CHUNK;
      ReadAtMostTwice(data, done, CHUNK, next);
      var (chunk, rest') := ReadAtMost(rest, CHUNK);
      piece, rest := piece + chunk, rest';
      i := i + 1;
    }
    var full := toRead * CHUNK;
    assert full + remainder == size;
    ReadAtMostTwice(data, full, remainder, size);
    var (tail, rest') := ReadAtMost(rest, remainder);
    piece, rest := piece + tail, rest';
  }

  /** The install loop over the index: each entry's piece is cut from the
      data segment in turn. */
  method InstallEntries(t: IndexTable.Table, data: seq<Byte>) returns (files: Tree)
    ensures files == Extract(t, data)
  {
    files := [];
    var rest := data;
    var i := 0;
    while i < |t|
      invariant 0 <= i <= |t|
      invariant files + Extract(t[i..], rest) == Extract(t, data)
    {
      var piece, rest' := CopyChunks(rest, t[i].size);
      ReadInChunksIsOneRead(rest, t[i].size);
      assert t[i..][1..] == t[i + 1..];
      assert Extract(t[i..], rest) == [File(t[i].path, piece)] + Extract(t[i + 1..], rest');
      files, rest := files + [File(t[i].path, piece)], rest';
      i := i + 1;
    }
  }

  /** The copy loop of `create` for one file: read chunks of at most
      `CHUNK` bytes and write them until a read comes back empty. */
  method StreamFile(content: seq<Byte>) returns (written: seq<Byte>)
    ensures written == content
  {
    written := [];
    var remaining := content;
    while true
      invariant written + remaining == content
      decreases |remaining|
    {
      var (chunk, rest) := ReadAtMost(remaining, CHUNK);
      if chunk == [] {
        break;
      }
      written, remaining := written + chunk, rest;
    }
  }

  lemma ContentsSnoc(tree: Tree, i: nat)
    requires i < |tree|
    ensures Contents(tree[..i + 1]) == Contents(tree[..i]) + tree[i].content
  {
    ContentsAppend(tree[..i], [tree[i]]);
    assert tree[..i] + [tree[i]] == tree[..i + 1];
    assert Contents([tree[i]]) == tree[i].content + [];
  }

  lemma {:induction false} ContentsAppend(a: Tree, b: Tree)
    ensures Contents(a + b) == Contents(a) + Contents(b)
  {
    if |a| == 0 {
      assert a + b == b;
    } else {
      assert (a + b)[1..] == a[1..] + b;
      ContentsAppend(a[1..], b);
      Associate3(a[0].content, Contents(a[1..]), Contents(b));
    }
  }

  /** `PackageManager.create` as a writer: the header and the index in one
      write, then each file of the index streamed in chunks. */
  method WriteArchive(tree: Tree) returns (out: seq<Byte>)
    requires WellFormed(tree)
    ensures out == Create(tree)
  {
    CreateIndexInOrder(tree);
    var table := CreateIndex(tree);
    var prefix := HeaderRecord.Get(HeaderFor(tree)) + IndexTable.Get(table);
    out := prefix;
    var i := 0;
    while i < |tree|
      invariant 0 <= i <= |tree|
      invariant out == prefix + Contents(tree[..i])
    {
      var written := StreamFile(tree[i].content);
      ContentsSnoc(tree, i);
      Associate3(prefix, Contents(tree[..i]), written);
      out := out + written;
      i := i + 1;
    }
    assert tree[..i] == tree;
  }
}
