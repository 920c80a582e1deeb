/**
 * The content hasher (`hash_file`): open the watched file, read it into a
 * 4096-byte buffer until a read returns 0 bytes, write the buffer to a
 * SipHash-1-3 128-bit hasher after every non-empty read, and finish.
 *
 * The file system is replaced by an oracle: whether the open succeeded and the
 * results of the successive results. SipHash itself is not modelled: the hasher
 * is the sequence of bytes written to it, and the digest it finishes with is a
 * function parameter.
 */
module ContentHasher {
  import opened Wrappers

  type Byte = b: int | 0 <= b < 256

  /** A 128-bit fingerprint (`u128`). */
  type Fingerprint = x: int | 0 <= x < 0x1_0000_0000_0000_0000_0000_0000_0000_0000

  /** The length of `hash_buffer`. */
  const BufferSize: nat := 4096

  /** What one `read` returned: an error, or `Ok(n)` with the `n` bytes it placed at the front of the buffer. */
  datatype ReadResult = ReadError | ReadBytes(data: seq<Byte>)

  function Last(results: seq<ReadResult>): ReadResult
    requires results != []
  {
    results[|results| - 1]
  }

  /**
   * The reads `hash_file` performs on an opened file, in order: each but the
   * last filled between 1 and `BufferSize` bytes of the buffer, and the last
   * one reported end of file (0 bytes) or failed.
   */
  predicate Completed(results: seq<ReadResult>)
  {
    results != [] &&
    (forall i :: 0 <= i < |results| - 1 ==> results[i].ReadBytes? && 0 < |results[i].data| <= BufferSize) &&
    (Last(results).ReadError? || Last(results).data == [])
  }

  /** The buffer as `[0u8; 4096]` creates it. */
  function ZeroBuffer(): (b: seq<Byte>)
    ensures |b| == BufferSize
  {
    seq(BufferSize, _ => 0)
  }

  /** The buffer after a read that returned `data`: `data` at the front, the earlier contents behind it. */
  function AfterRead(buffer: seq<Byte>, data: seq<Byte>): (b: seq<Byte>)
    requires |data| <= |buffer|
    ensures |b| == |buffer| && b[..|data|] == data && b[|data|..] == buffer[|data|..]
  {
    data + buffer[|data|..]
  }

  /**
   * The bytes `hash_file` writes to the hasher, starting from `buffer`: after
   * every non-empty read the WHOLE buffer, including bytes left over from
   * earlier reads; `None` when a read fails.
   */
  function Fed(results: seq<ReadResult>, buffer: seq<Byte>): (r: Option<seq<Byte>>)
    requires Completed(results) && |buffer| == BufferSize
    ensures r.None? <==> Last(results).ReadError?
    ensures r.Some? ==> |r.value| == BufferSize * (|results| - 1)
    decreases |results|
  {
    if |results| == 1 then
      if results[0].ReadError? then None else Some([])
    else
      var next := AfterRead(buffer, results[0].data);
      assert Completed(results[1..]) by {
        assert forall i :: 0 <= i < |results| - 2 ==> results[1..][i] == results[i + 1];
      }
      match Fed(results[1..], next)
      case None => None
      case Some(rest) => Some(next + rest)
  }

  /** The bytes of the file: everything the reads returned, in order. */
  function Content(results: seq<ReadResult>): (c: seq<Byte>)
    ensures results != [] && results[0].ReadBytes? ==>
      |results[0].data| <= |c| && c[..|results[0].data|] == results[0].data
  {
    if results == [] then []
    else (if results[0].ReadBytes? then results[0].data else []) + Content(results[1..])
  }

  /** The streaming hasher, seen through the bytes written to it so far. */
  class Hasher {
    var written: seq<Byte>

    constructor ()
      ensures written == []
    {
      written := [];
    }

    method Write(bytes: seq<Byte>)
      modifies this
      ensures written == old(written) + bytes
    {
      written := written + bytes;
    }
  }

  /** A `read` that returned `data` into `buffer`. */
  method ReadInto(buffer: array<Byte>, data: seq<Byte>)
    requires |data| <= buffer.Length
    modifies buffer
    ensures buffer[..] == AfterRead(old(buffer[..]), data)
  {
    forall j | 0 <= j < |data| {
      buffer[j] := data[j];
    }
  }

  function Prepend(prefix: seq<Byte>, r: Option<seq<Byte>>): Option<seq<Byte>>
  {
    match r
    case None => None
    case Some(rest) => Some(prefix + rest)
  }

  /**
   * `hash_file`: `None` when the file cannot be opened or a read fails;
   * otherwise the digest of exactly the bytes `Fed` describes.
   */
  method HashFile(openOk: bool, results: seq<ReadResult>, digest: seq<Byte> -> Fingerprint) returns (h: Option<Fingerprint>)
    requires Completed(results)
    ensures h.None? <==> !openOk || Last(results).ReadError?
    ensures h.Some? ==> Fed(results, ZeroBuffer()).Some? && h.value == digest(Fed(results, ZeroBuffer()).value)
  {
    if !openOk {
      return None;
    }
    var hasher := new Hasher();
    var buffer := new Byte[BufferSize](_ => 0);
    assert buffer[..] == ZeroBuffer();
    var i := 0;
    assert results[i..] == results;
    assert Prepend(hasher.written, Fed(results, buffer[..])) == Fed(results, ZeroBuffer()) by {
      PrependEmpty(Fed(results, ZeroBuffer()));
    }
    while true
      invariant 0 <= i < |results|
      invariant Completed(results[i..]) && Last(results[i..]) == Last(results)
      invariant buffer.Length == BufferSize
      invariant Fed(results, ZeroBuffer()) == Prepend(hasher.written, Fed(results[i..], buffer[..]))
      decreases |results| - i
    {
      match results[i]
      case ReadError =>
        return None;
      case ReadBytes(data) =>
        if |data| == 0 {
          assert Fed(results[i..], buffer[..]) == Some([]);
          assert hasher.written + [] == hasher.written;
          break;
        }
        FedUnfold(results[i..], buffer[..]);
        assert results[i..][1..] == results[i + 1..];
        ReadInto(buffer, data);
        PrependPrepend(hasher.written, buffer[..], Fed(results[i + 1..], buffer[..]));
        hasher.Write(buffer[..]);
        i := i + 1;
    }
    h := Some(digest(hasher.written));
  }

  lemma PrependEmpty(r: Option<seq<Byte>>)
    ensures Prepend([], r) == r
  {
    if r.Some? {
      assert [] + r.value == r.value;
    }
  }

  lemma PrependPrepend(a: seq<Byte>, b: seq<Byte>, r: Option<seq<Byte>>)
    ensures Prepend(a, Prepend(b, r)) == Prepend(a + b, r)
  {
    if r.Some? {
      assert a + (b + r.value) == (a + b) + r.value;
    }
  }

  /** One non-empty read: the buffer it leaves is fed, then the remaining reads continue from that buffer. */
  lemma FedUnfold(results: seq<ReadResult>, buffer: seq<Byte>)
    requires Completed(results) && |buffer| == BufferSize && |results| > 1
    ensures Completed(results[1..]) && Last(results[1..]) == Last(results)
    ensures Fed(results, buffer) ==
      Prepend(AfterRead(buffer, results[0].data), Fed(results[1..], AfterRead(buffer, results[0].data)))
  {
    assert forall i :: 0 <= i < |results| - 2 ==> results[1..][i] == results[i + 1];
  }

  /**
   * The defect: after a short read the stale tail of the buffer is hashed too.
   * A file of `data` and the same file with up to the rest of the buffer in
   * zero bytes appended feed the hasher identical bytes, so they receive the
   * same fingerprint whatever the hash function.
   */
  lemma StaleTailCollision(data: seq<Byte>, k: nat)
    requires 0 < |data| && |data| + k <= BufferSize
    ensures Content([ReadBytes(data), ReadBytes([])]) != Content([ReadBytes(data + seq(k, _ => 0)), ReadBytes([])]) || k == 0
    ensures Fed([ReadBytes(data), ReadBytes([])], ZeroBuffer()) == Fed([ReadBytes(data + seq(k, _ => 0)), ReadBytes([])], ZeroBuffer())
  {
    var padded := data + seq(k, _ => 0);
    assert AfterRead(ZeroBuffer(), data) == AfterRead(ZeroBuffer(), padded);
    assert [ReadBytes(data), ReadBytes([])][1..] == [ReadBytes([])];
    assert [ReadBytes(padded), ReadBytes([])][1..] == [ReadBytes([])];
    assert Content([ReadBytes([])]) == [] by {
      assert [ReadBytes([])][1..] == [];
    }
    assert Content([ReadBytes(data), ReadBytes([])]) == data;
    assert Content([ReadBytes(padded), ReadBytes([])]) == padded;
  }

  /** `hash_file` as evidently intended: each read feeds only the `n` bytes it returned (`hash_buffer[..n]`). */
  function FedExact(results: seq<ReadResult>, buffer: seq<Byte>): (r: Option<seq<Byte>>)
    requires Completed(results) && |buffer| == BufferSize
    ensures r.None? <==> Last(results).ReadError?
    decreases |results|
  {
    if |results| == 1 then
      if results[0].ReadError? then None else Some([])
    else
      var next := AfterRead(buffer, results[0].data);
      assert Completed(results[1..]) by {
        assert forall i :: 0 <= i < |results| - 2 ==> results[1..][i] == results[i + 1];
      }
      match FedExact(results[1..], next)
      case None => None
      case Some(rest) => Some(next[..|results[0].data|] + rest)
  }

  /** Fed only what each read returned, the hasher sees exactly the file's bytes, whatever the buffer held. */
  lemma {:induction false} FedExactIsContent(results: seq<ReadResult>, buffer: seq<Byte>)
    requires Completed(results) && |buffer| == BufferSize
    ensures FedExact(results, buffer) == if Last(results).ReadError? then None else Some(Content(results))
    decreases |results|
  {
    if |results| > 1 {
      assert Completed(results[1..]) by {
        assert forall i :: 0 <= i < |results| - 2 ==> results[1..][i] == results[i + 1];
      }
      assert Last(results[1..]) == Last(results);
      FedExactIsContent(results[1..], AfterRead(buffer, results[0].data));
    } else if results[0].ReadBytes? {
      assert Content(results) == results[0].data + Content(results[1..]);
    }
  }

  /**
   * With the correction two files get the same hasher input exactly when they
   * have the same bytes, however the reads split them up.
   */
  lemma FedExactDetectsChange(r1: seq<ReadResult>, r2: seq<ReadResult>)
    requires Completed(r1) && Completed(r2) && Last(r1).ReadBytes? && Last(r2).ReadBytes?
    ensures FedExact(r1, ZeroBuffer()) == FedExact(r2, ZeroBuffer()) <==> Content(r1) == Content(r2)
  {
    FedExactIsContent(r1, ZeroBuffer());
    FedExactIsContent(r2, ZeroBuffer());
  }

  /** The defect only shows after a short read: when every read fills the buffer, the original feeds the file's bytes. */
  lemma {:induction false} FullReadsFeedContent(results: seq<ReadResult>, buffer: seq<Byte>)
    requires Completed(results) && |buffer| == BufferSize
    requires forall i :: 0 <= i < |results| - 1 ==> |results[i].data| == BufferSize
    ensures Fed(results, buffer) == FedExact(results, buffer)
    decreases |results|
  {
    if |results| > 1 {
      assert Completed(results[1..]) by {
        assert forall i :: 0 <= i < |results| - 2 ==> results[1..][i] == results[i + 1];
      }
      assert forall i :: 0 <= i < |results| - 2 ==> |results[1..][i].data| == BufferSize by {
        assert forall i :: 0 <= i < |results| - 2 ==> results[1..][i] == results[i + 1];
      }
      var next := AfterRead(buffer, results[0].data);
      FullReadsFeedContent(results[1..], next);
      assert next[..|results[0].data|] == next;
    }
  }
}
