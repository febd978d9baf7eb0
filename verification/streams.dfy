/** Bytes, read failures and the sequential stream the archive is read from.
    A stream is represented by its unread remainder: a read takes bytes off
    the front and leaves the rest for the next read. */
module Streams {

  /** One octet. */
  type Byte = b: int | 0 <= b < 256

  /** The ways reading an archive can fail. */
  datatype Error =
    | ReadFailure    // the stream ended before a header or index field was complete
    | CorruptHeader  // bad magic number or inconsistent sizes
    | DecodeFailure  // an index path is not well-formed UTF-8
    | CorruptIndex   // an index record does not fit in the declared index size

  /** Success/failure result, usable with `:-`. */
  datatype Result<+T> = Success(value: T) | Failure(error: Error) {

    predicate IsFailure() {
      Failure?
    }

    function PropagateFailure<U>(): Result<U>
      requires Failure?
    {
      Failure(error)
    }

    function Extract(): T
      requires Success?
    {
      value
    }
  }

  datatype Option<+T> = None | Some(value: T)

  function Min(a: nat, b: nat): nat {
    if a <= b then a else b
  }

  /** A file object's `read(n)`: up to `n` bytes, fewer (possibly none) once
      the stream runs out. Never fails. */
  function ReadAtMost(s: seq<Byte>, n: nat): (r: (seq<Byte>, seq<Byte>))
    ensures r.0 + r.1 == s
    ensures |r.0| == Min(n, |s|)
  {
    var k := Min(n, |s|);
    (s[..k], s[k..])
  }

  /** A read of exactly `n` bytes that fails when fewer are left. */
  function ReadExact(s: seq<Byte>, n: nat): (r: Result<(seq<Byte>, seq<Byte>)>)
    ensures r.Success? <==> n <= |s|
    ensures r.Failure? ==> r.error == ReadFailure
    ensures r.Success? ==> |r.value.0| == n && r.value.0 + r.value.1 == s
  {
    if |s| < n then Failure(ReadFailure) else Success((s[..n], s[n..]))
  }

  lemma Associate3<T>(a: seq<T>, b: seq<T>, c: seq<T>)
    ensures a + b + c == a + (b + c)
  {
  }

  /** `r` is what is left of `s` after some bytes were taken off its front. */
  predicate IsSuffix(r: seq<Byte>, s: seq<Byte>) {
    |r| <= |s| && r == s[|s| - |r|..]
  }

  lemma SuffixOfSuffix(r: seq<Byte>, m: seq<Byte>, s: seq<Byte>)
    requires IsSuffix(r, m) && IsSuffix(m, s)
    ensures IsSuffix(r, s)
  {
    assert s[|s| - |r|..] == s[|s| - |m|..][|m| - |r|..];
  }

  /** A prefix cut at two inner points is the concatenation of its pieces. */
  lemma SplitPrefix3<T>(s: seq<T>, i: nat, j: nat, m: nat)
    requires i <= j <= m <= |s|
    ensures s[..m] == s[..i] + s[i..j] + s[j..m]
  {
  }

  /** The four parts of a concatenation are its slices at the part boundaries. */
  lemma Split4(a: seq<Byte>, b: seq<Byte>, c: seq<Byte>, d: seq<Byte>)
    ensures var s := a + b + c + d;
      && s[..|a|] == a
      && s[|a|..|a| + |b|] == b
      && s[|a| + |b|..|a| + |b| + |c|] == c
      && s[|a| + |b| + |c|..] == d
  {
    var s := a + b + c + d;
    assert s[..|a|] == a;
    assert s[|a|..|a| + |b|] == b;
    assert s[|a| + |b|..|a| + |b| + |c|] == c;
    assert s[|a| + |b| + |c|..] == d;
  }
}
