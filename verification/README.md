# The .maj archive codec

A `.maj` package is one flat byte stream with three parts, in this order:

1. a 28-byte header: the magic number `00 6D 61 6A`, then the file size, the index size and the data size, each an 8-byte big-endian unsigned integer;
2. the index table, one record per file: an 8-byte path length, the UTF-8 path, and an 8-byte file size;
3. the data segment: every file's bytes, one after another, in index order, with no offsets.

`PackageManager.create` builds such a stream from a directory. `PackageManager.install` reads the header and the index. It then cuts the data segment into consecutive pieces, one per entry, each of the recorded size, read as `size // 32768` full 32 KiB chunks plus one read of the remainder.

The model has one module per part of the codec:

- `Streams`: bytes, the error kinds and the input stream. A stream is its unread remainder.
  - `ReadAtMost` is a file object's `read(n)`: it returns fewer bytes, or none, at the end.
  - `ReadExact` is the checked read that fails on a short stream.
- `IntCodec`: `to_int64` and `from_int64`, as functions and as the source's loops.
- `Utf8`: the strict UTF-8 codec behind `str.encode` and `bytes.decode`. Paths are Dafny strings, whose characters are Unicode scalar values.
- `HeaderRecord`: `_Header.create`, `get`, `read` and `validate`. Reading is modelled twice:
  - `Read` reports a short stream as a failure;
  - `ReadAsWritten` lets short reads through, as the source does.
- `IndexTable`: the index table as an ordered list of `(path, size)` entries with Python dict assignment semantics (`Insert`), and `_IndexTable.get`, `read` and `getDataLength`.
  - `Read` is the checked decoder: a record that overruns the budget is a `CorruptIndex` failure.
  - `ReadAsWritten` is the source's loop, with a signed budget and unchecked reads. `ReadRefinesAsWritten` proves that the two agree whenever the checked decoder succeeds. `AsWrittenFinishedIsRead` proves the converse: over a stream that holds the whole index, the loop finishes only where the checked decoder succeeds. They differ only on truncated indexes, which the loop accepts, and on budget overruns, where it never finishes; in both cases the checked decoder fails.
- `Archive`: the directory tree as a list of files, plus:
  - the bytes `create` writes (`Create`, and the writer loop `WriteArchive`);
  - `read` (`Read`);
  - what `install` extracts (`Install`, and the copy loops `CopyChunks` and `InstallEntries`).

  The central result is `InstallCreate`: installing a created archive gives back every file under its path with its exact contents.

I/O is replaced by values:

- a directory is a `Tree` (a list of path/content pairs);
- a file being written is the byte sequence written to it;
- logging is dropped.

## Model

| member | source | states |
|---|---|---|
| IntCodec.ToInt64 | package_manager.py:13-19 | Decoding `k` bytes big-endian yields a value below 256^k. |
| IntCodec.FromInt64 | package_manager.py:21-29 | Every n below 2^64 encodes to exactly 8 bytes that decode back to n. |
| IntCodec.FromInt64BigEndian | package_manager.py:21-29 | The encoding is most-significant byte first: the last byte is n mod 256 and the first byte carries the top of n. |
| IntCodec.FromInt64ToInt64 | package_manager.py:13-29 | Any 8 bytes decode to a value below 2^64 whose encoding is those same 8 bytes. |
| IntCodec.DecodeRoundTrip | package_manager.py:13-19 | Re-encoding a decoded byte string at its own width gives the same bytes. |
| Utf8.Encode | package_manager.py:144 | A path encodes to at least one byte per character. `DecodeEncode` proves the decoder inverts it. |
| Utf8.Decode | package_manager.py:118 | The empty byte string decodes to the empty path. `EncodeDecode` proves that whatever decodes is the encoding of its result. |
| IntCodec.ToInt64Loop | package_manager.py:13-19 | The shift-and-add loop computes the big-endian value of the bytes. |
| IntCodec.FromInt64Loop | package_manager.py:21-29 | The loop that fills an 8-byte buffer from the back, shifting n right by 8 each time, produces the 8-byte encoding. |
| Utf8.DecodeEncode | package_manager.py:118 | Decoding the UTF-8 encoding of any path gives the path back. |
| Utf8.EncodeDecode | package_manager.py:144-145 | Bytes that decode are the encoding of what they decode to, so a path's byte length is recovered exactly. |
| Utf8.EncodedIsWellFormed | package_manager.py:144-145 | Every encoded path is accepted by the decoder. |
| Utf8.BadLeadByteRejected | package_manager.py:117-121 | Bytes starting with a continuation byte, an overlong lead byte or a byte above F4 do not decode. |
| Utf8.EncodeAscii | package_manager.py:144 | An ASCII path encodes to one byte per character, that byte being the character's code. |
| Streams.ReadAtMost | package_manager.py:63-66 | A read of n bytes returns min(n, remaining) bytes and leaves exactly the rest unread. |
| Streams.ReadExact | package_manager.py:63-66 | The checked read succeeds exactly when n bytes remain, and otherwise fails with ReadFailure. |
| HeaderRecord.Create | package_manager.py:72-80 | The created header carries the normal magic number and the given index and data sizes, and always validates. |
| HeaderRecord.Validate | package_manager.py:87-89 | Magic number and size arithmetic checked together. `ValidateIffCreated` proves it accepts exactly the headers `create` builds. |
| HeaderRecord.ValidateIffCreated | package_manager.py:87-89 | A header validates exactly when it has the normal magic number and a file size of 28 plus index size plus data size. |
| HeaderRecord.Get | package_manager.py:82-85 | The serialised header is 28 bytes: the magic number, then the three sizes as 8-byte integers. |
| HeaderRecord.Read | package_manager.py:57-70 | A stream shorter than 28 bytes fails with ReadFailure. Otherwise it succeeds exactly when the first 28 bytes validate, and then returns those fields with the stream past byte 28. A bad magic number or size arithmetic is CorruptHeader. |
| HeaderRecord.ReadGet | package_manager.py:57-85 | Reading a serialised valid header gives the header back and leaves the following bytes unread. |
| HeaderRecord.GetRead | package_manager.py:57-85 | Any stream the reader accepts starts with the serialisation of the header it returns. |
| HeaderRecord.ReadAsWritten | package_manager.py:57-70 | With unchecked short reads, on 28 or more bytes the verdict is the checked reader's, and whenever the checked reader accepts the stream both read the same header fields. |
| HeaderRecord.TruncatedHeaderAccepted | package_manager.py:63-70 | A 12-byte stream (magic number and a file size of 28) passes the unchecked read as a valid empty header, while the checked read reports ReadFailure. |
| IndexTable.Insert | package_manager.py:123 | Dict assignment on the ordered table. `InsertNew`, `InsertReplaces`, `InsertMembers` and `InsertDistinct` state its behaviour. |
| IndexTable.InsertNew | package_manager.py:123 | Assigning a path the table lacks appends it at the end. |
| IndexTable.InsertReplaces | package_manager.py:123 | Assigning an existing path keeps every position and replaces only that path's size. |
| IndexTable.InsertMembers | package_manager.py:123 | After assignment the table holds the new entry, nothing but old entries besides it, and the old paths plus the assigned one. |
| IndexTable.InsertDistinct | package_manager.py:123 | Assignment keeps paths distinct. |
| IndexTable.Collapse | package_manager.py:111-124 | The records of the index assigned into the dict in stream order. `CollapseKeeps` and `CollapseDistinct` state its behaviour. |
| IndexTable.CollapseKeeps | package_manager.py:111-124 | Assigning a sequence of records keeps the table encodable and its paths distinct, and its paths are the old paths plus the assigned ones. |
| IndexTable.CollapseDistinct | package_manager.py:123 | Assigning records with pairwise distinct new paths appends them all in order. |
| IndexTable.EncodeEntry | package_manager.py:144-145 | One record is 16 bytes plus the path's UTF-8 length. |
| IndexTable.Get | package_manager.py:139-146 | The encoded table is exactly the sum of its records' lengths. |
| IndexTable.ReadRecord | package_manager.py:113-121 | A record read that succeeds takes at least 16 bytes, and the rest of the stream follows them. |
| IndexTable.ReadRecordSound | package_manager.py:113-118 | An accepted record is exactly the encoding of the entry returned, and takes 16 bytes plus the path's byte length. |
| IndexTable.ReadRecordEncodeEntry | package_manager.py:113-118 | Reading an encoded entry gives that entry back, with its byte count, and stops right after it. |
| IndexTable.ReadRecordBadPath | package_manager.py:113-121 | A record whose path bytes are not UTF-8 fails with DecodeFailure. |
| IndexTable.ReadRecords | package_manager.py:111-124 | A records read that succeeds has consumed exactly the budget. |
| IndexTable.ReadRecordsSound | package_manager.py:111-124 | The records read are encodable and their encoded lengths add up to exactly the budget. |
| IndexTable.ReadRecordsGet | package_manager.py:106-146 | Reading an encoded table with its own length as budget gives back the same entries in the same order. |
| IndexTable.GetReadRecords | package_manager.py:106-146 | Whatever the records reader accepts is the encoding of the records it returns, followed by the rest. |
| IndexTable.Read | package_manager.py:106-125 | A successful read consumes exactly the index size and returns an encodable table with distinct paths. A stream shorter than the index size fails. |
| IndexTable.ReadGet | package_manager.py:106-146 | Reading an encoded table with distinct paths at its own length returns that table and leaves the data segment unread. |
| IndexTable.ReadRejectsBadPath | package_manager.py:117-121 | A record with a non-UTF-8 path fails the whole index read with DecodeFailure, whatever well-formed records come before it and however much budget and stream follow it. |
| IndexTable.ReadFailsAtRecord | package_manager.py:111-124 | A record that cannot be read, after any well-formed records and inside the budget, fails the whole index read with that record's error. |
| IndexTable.ReadRecordAsWritten | package_manager.py:113-116 | With unchecked reads, an exhausted stream yields path length 0, the empty path and size 0, and costs 16 bytes of budget. |
| IndexTable.ReadRecordAsWrittenAgrees | package_manager.py:113-116 | On a complete record the unchecked reads agree with the checked ones. |
| IndexTable.ReadAsWritten | package_manager.py:111-125 | The source's index loop: a signed budget, unchecked reads and dict assignment, run for at most a fuel count of iterations. `ReadRefinesAsWritten` proves it returns the checked reader's table wherever that reader succeeds, and `AsWrittenFinishedIsRead` that over a stream holding the whole index it finishes only there. `ReadAsWrittenFinished` states what any finished run keeps, and `NegativeNeverFinishes` and `ExhaustedStreamNeverFinishes` that a negative budget never finishes. |
| IndexTable.ReadAsWrittenFinished | package_manager.py:111-125 | When the loop as written finishes, what it leaves unread is a suffix of the stream, the table keeps every path it had, and distinct paths stay distinct. |
| IndexTable.TruncatedIndexAccepted | package_manager.py:113-116 | An index size of 16 over an exhausted stream: the loop as written returns the table {"": 0}, while the checked reader fails with ReadFailure. |
| IndexTable.ReadRecordsRefinesAsWritten | package_manager.py:111-125 | Whenever the checked records reader succeeds, the loop as written finishes with the same table (records assigned in order) and the same rest. |
| IndexTable.ReadRefinesAsWritten | package_manager.py:106-125 | Whenever the checked index read succeeds, the source's loop returns the same table. |
| IndexTable.AsWrittenFinishedIsRead | package_manager.py:106-125 | Over a stream at least as long as the index size, whenever the source's loop finishes, the checked index read succeeds and returns the same table and rest. |
| IndexTable.NegativeNeverFinishes | package_manager.py:111-124 | Once the budget is below zero, the source's loop never finishes, on any stream. |
| IndexTable.ExhaustedStreamNeverFinishes | package_manager.py:111-124 | Once the budget is negative and the stream is empty, the loop as written never terminates. |
| IndexTable.BudgetOverrunNeverFinishes | package_manager.py:111-124 | An index size of 1 over a 17-byte record makes the loop as written run forever, while the checked reader fails with CorruptIndex. |
| Archive.CreateIndex | package_manager.py:133-135 | The dict `create` fills, each file's size assigned under its path in traversal order. `CreateIndexInOrder` proves that with distinct paths it lists the files in traversal order. |
| Archive.DistinctPathsOfEntries | package_manager.py:133-135 | A tree has distinct paths exactly when its index entries do. |
| Archive.CreateIndexInOrder | package_manager.py:133-135 | With distinct paths, filling the dict in traversal order gives the entries in traversal order, and its paths stay distinct. |
| IndexTable.GetDataLength | package_manager.py:148-150 | The sum of the entries' sizes. `DataLengthIsContentLength` proves it is the length of the concatenated contents, and `ExtractShape` uses it as the bound under which every file gets its recorded size. |
| Archive.DataLengthIsContentLength | package_manager.py:148-150 | The sum of the index sizes is the length of the concatenated contents. |
| Archive.HeaderFor | package_manager.py:195-200 | The header written has the encoded index's length as index size and the total content length as data size, and validates. |
| Archive.Create | package_manager.py:185-206 | The archive is as long as its header's file size, and the data segment, starting where the header's index size ends, is the files' contents in order. `ReadCreate` and `InstallCreate` prove it reads back. |
| Archive.CreateLength | package_manager.py:195-206 | A created archive is exactly as long as its header's file size: 28 plus the index length plus the content length. |
| Archive.Read | package_manager.py:169-183 | A successful read returns a valid header and an index with distinct paths, and the data segment is the stream after byte 28 plus the index size. A header failure is reported unchanged. After a good header, the read succeeds exactly when the index read of that size succeeds, and otherwise reports the index error. |
| Archive.ReadAtMostTwice | package_manager.py:243-246 | Two consecutive reads take what one read of their total takes. |
| Archive.ReadChunks | package_manager.py:243-245 | The full-chunk reads of one entry, each of 32768 bytes from where the last one stopped. `ReadChunksIsOneRead` proves k of them take one read of k times 32768 bytes. |
| Archive.ReadInChunks | package_manager.py:241-246 | The reads for one entry: `size // 32768` full chunks, then the remainder. `ReadInChunksIsOneRead` proves together they take one read of `size` bytes. |
| Archive.ReadChunksIsOneRead | package_manager.py:243-245 | k full-chunk reads take what one read of k times 32768 bytes takes. |
| Archive.ReadInChunksIsOneRead | package_manager.py:241-246 | `size // 32768` chunks plus the remainder take exactly what one read of `size` bytes takes. |
| Archive.CopyChunks | package_manager.py:241-246 | The per-entry copy loop yields exactly one read of `size` bytes. |
| Archive.Extract | package_manager.py:236-248 | Each entry in turn takes the next `size` bytes of the data segment, fewer at its end. `ExtractShape`, `ExtractContents` and `InstallEntries` state its behaviour. |
| Archive.ExtractShape | package_manager.py:236-248 | Install writes one file per entry under the entry's path. When the data segment holds the sizes' sum, each file gets exactly its recorded size. |
| Archive.ExtractContents | package_manager.py:236-248 | Cutting concatenated contents by the tree's own sizes gives every file back. |
| Archive.ExtractStep | package_manager.py:236-248 | The first entry takes its piece and the later entries continue from where it ended. |
| Archive.InstallEntries | package_manager.py:236-248 | The install loop over the index extracts what `Extract` does. |
| Archive.Install | package_manager.py:225-251 | Install succeeds exactly when reading header and index succeeds, and otherwise reports the read's error. On success it writes one file per index entry, under the entry's path and in index order, with distinct paths. When the data segment holds the sizes' sum, each file has its recorded size. |
| Archive.ReadCreate | package_manager.py:169-206 | Reading a created archive returns its header, the tree's entries in order, and the contents as the data segment. |
| Archive.InstallCreate | package_manager.py:185-248 | Installing a created archive gives back the tree: every file, under its path, with its exact contents. |
| Archive.EmptyTree | package_manager.py:195-206 | An empty directory gives a bare 28-byte archive with header 28/0/0 that installs to nothing. |
| Archive.TwoFileTree | package_manager.py:195-206 | Files "a.txt" (3 bytes) and "sub/b.txt" (empty) give header 77/46/3, a 77-byte archive, and install back. |
| Archive.OrderSensitivity | package_manager.py:236-246 | The same three data bytes under the same two entries (sizes 1 and 2) in swapped order give `p` the first byte in one order and the last in the other. Whenever the first and last bytes differ, both paths get different contents. |
| Archive.StreamFile | package_manager.py:212-219 | Copying in chunks until a read comes back empty writes the file's whole content. |
| Archive.WriteArchive | package_manager.py:204-221 | Writing header plus index, then each file streamed in index order, produces exactly the created archive. |

## Left out

- `logger.py` and every log call: output only, no effect on the bytes.
- `utils.createPath`, `os.mkdir` and its "already exists" warning, file handles and `flush`: filesystem effects. A written file is its byte sequence.
- `findAllFiles` and `os.path.getsize`: the directory is an input `Tree` of relative paths and contents, listed in traversal order.
- The path stripping at package_manager.py:143: it depends on the OS separator and on `str.replace`. Paths in the tree are already relative.
- The absolute-path and missing-directory checks of `create` (package_manager.py:188-192): they concern the filesystem, not the format.
- The `__main__` block.
- IntCodec.FromInt64: requires n < 2^64. Beyond that the source writes through negative list indices, and no archive field can hold such a value.
- Archive.Create: requires distinct paths and all lengths below 2^64, as a directory listing and the 8-byte fields guarantee.
  - Writing reuses each file's content from the tree in traversal order. The source re-opens each path in dict order.
  - `CreateIndexInOrder` proves the two orders coincide.
- Archive.Extract: follows the source on the data segment. A short data segment leaves later files short or empty, and bytes after the last file are ignored. The layout leaves no room for trailing data, but the code never checks for it.
- IndexTable.ReadAsWritten: is bounded by a fuel count of iterations, since the loop as written need not terminate. Non-termination is stated as "still running after any fuel".
- IndexTable.ReadRecordAsWritten: a path length of 2^63 or more makes `stream.read` at package_manager.py:115 raise OverflowError, which nothing catches. The model treats it as a short read, as with any other length beyond the stream. That is only approximate below 2^63 too: the install stream is a buffered file, whose `read(n)` allocates n bytes before reading, so a length too large to allocate raises an uncaught MemoryError instead of returning a short result.
- Paths containing lone surrogates: the source's `str.encode` rejects them, and Dafny strings cannot hold them.

## Findings

| source | as written | input that shows it | evidently intended | confidence | as-written member | corrected member |
|---|---|---|---|---|---|---|
| package_manager.py:111-124 | The loop runs while the budget is non-zero and subtracts 16 plus the path length each time, so a record that overruns the budget drives it negative. On the exhausted stream each further iteration reads an empty record, costs 16 more, and the loop never ends. | Index size 1 followed by the 17-byte record of path "a", size 0 | Stop with a corrupt-index failure when a record does not fit the remaining budget | not executed | IndexTable.BudgetOverrunNeverFinishes | IndexTable.Read |
| package_manager.py:63-70 | `stream.read` returns short or empty results instead of raising, so the `try` never fires and missing size fields decode as 0 | The 12-byte stream `00 6D 61 6A` followed by the 8-byte encoding of 28 is accepted as a valid empty archive | Report a read failure when the stream ends inside the header | not executed | HeaderRecord.TruncatedHeaderAccepted | HeaderRecord.Read |
| package_manager.py:111-123 | The loop's reads are unchecked, so on an exhausted stream a record reads as path length 0, the empty path and size 0, and is entered into the table | Index size 16 with nothing after the header | Report a read failure when the stream ends inside the index | not executed | IndexTable.TruncatedIndexAccepted | IndexTable.Read |
