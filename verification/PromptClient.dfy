/** Reading the daemon's reply from a socket (src_prompt/main.rs, `read_response`). Decoding a line is any function
    of that line; a reply that cannot be decoded is `None`. */
module PromptClient {
  import opened Numbers
  import opened Sequences

  const NEWLINE: Byte := 10
  const CHUNK_BYTES: nat := 512
  const MAX_RESPONSE_BYTES: nat := 1024 * 1024

  /** A socket that returns the given chunks, one a read, and then ends or fails. */
  class Reader {
    var chunks: seq<seq<Byte>>
    const fails: bool

    constructor (chunks: seq<seq<Byte>>, fails: bool)
      ensures this.chunks == chunks && this.fails == fails
    {
      this.chunks, this.fails := chunks, fails;
    }

    /** Reads return at least one byte and at most a chunk; an empty read is the end of the stream. */
    ghost predicate Valid()
      reads this
    {
      forall c | c in chunks :: 0 < |c| <= CHUNK_BYTES
    }

    ghost function Stream(): seq<Byte>
      reads this
    {
      Flatten(chunks)
    }

    method Read() returns (r: Option<seq<Byte>>)
      requires Valid()
      modifies this
      ensures Valid()
      ensures if old(chunks) == [] then chunks == [] && r == (if fails then None else Some([]))
              else r == Some(old(chunks)[0]) && chunks == old(chunks)[1..]
      ensures r.Some? ==> |r.value| <= CHUNK_BYTES && old(Stream()) == r.value + Stream()
      ensures r.Some? && r.value == [] ==> !fails && Stream() == []
      ensures r.None? ==> fails && old(Stream()) == []
      ensures |chunks| <= |old(chunks)| && (r.Some? && r.value != [] ==> |chunks| < |old(chunks)|)
    {
      if chunks == [] {
        r := if fails then None else Some([]);
      } else {
        r := Some(chunks[0]);
        chunks := chunks[1..];
      }
    }
  }

  // ---- the reference ---------------------------------------------------------------------------

  function FirstLine(bytes: seq<Byte>): seq<Byte> {
    if bytes == [] || bytes[0] == NEWLINE then [] else [bytes[0]] + FirstLine(bytes[1..])
  }

  function Decode<T>(bytes: seq<Byte>, decodeLine: seq<Byte> -> Option<T>): Option<T> { decodeLine(FirstLine(bytes)) }

  /** The reply carried by a whole stream: its first line, if the newline is among the first bytes the client
      accepts; the whole of a shorter stream that ends without one; nothing otherwise. */
  function ResponseOf<T>(stream: seq<Byte>, fails: bool, decodeLine: seq<Byte> -> Option<T>): Option<T> {
    var line := FirstLine(stream);
    if |line| < |stream| then (if |line| < MAX_RESPONSE_BYTES then decodeLine(line) else None)
    else if stream != [] && |stream| < MAX_RESPONSE_BYTES && !fails then decodeLine(stream)
    else None
  }

  // ---- first lines -----------------------------------------------------------------------------

  /** The first line of a stream whose beginning is known. */
  lemma {:induction false} FirstLineAppend(a: seq<Byte>, b: seq<Byte>)
    ensures NEWLINE in a ==> FirstLine(a + b) == FirstLine(a) && |FirstLine(a)| < |a|
    ensures NEWLINE !in a ==> FirstLine(a + b) == a + FirstLine(b)
  {
    if a == [] {
      assert a + b == b;
    } else {
      assert (a + b)[1..] == a[1..] + b;
      assert a == [a[0]] + a[1..];
      FirstLineAppend(a[1..], b);
    }
  }

  lemma {:induction false} FirstLineShorter(a: seq<Byte>)
    ensures |FirstLine(a)| <= |a|
  {
    if a != [] && a[0] != NEWLINE {
      FirstLineShorter(a[1..]);
    }
  }

  lemma FirstLineWhole(a: seq<Byte>)
    requires NEWLINE !in a
    ensures FirstLine(a) == a
  {
    FirstLineAppend(a, []);
    assert a + [] == a;
  }

  // ---- the reader's loop -----------------------------------------------------------------------

  /** However the stream is cut into reads, the reply is the one the whole stream carries. The buffer stays within
      the limit, and less than a chunk is read beyond it. */
  method ReadResponse<T>(reader: Reader, decodeLine: seq<Byte> -> Option<T>) returns (r: Option<T>)
    requires reader.Valid()
    modifies reader
    ensures r == ResponseOf(old(reader.Stream()), reader.fails, decodeLine)
    ensures |old(reader.Stream())| < |reader.Stream()| + MAX_RESPONSE_BYTES + CHUNK_BYTES
  {
    ghost var stream := reader.Stream();
    var first := reader.Read();
    if first.None? || first.value == [] {
      return None;
    }
    var chunk := first.value;
    if NEWLINE in chunk {
      FirstLineAppend(chunk, reader.Stream());
      return Decode(chunk, decodeLine);
    }
    var buf := chunk;
    while |buf| < MAX_RESPONSE_BYTES
      invariant reader.Valid() && 0 < |buf| <= MAX_RESPONSE_BYTES && NEWLINE !in buf
      invariant |buf| < MAX_RESPONSE_BYTES ==> stream == buf + reader.Stream()
      invariant |buf| == MAX_RESPONSE_BYTES ==> buf <= stream
      invariant |stream| < |reader.Stream()| + MAX_RESPONSE_BYTES + CHUNK_BYTES
      decreases MAX_RESPONSE_BYTES - |buf|
    {
      var next := reader.Read();
      if next.None? {
        NoReply(buf, stream, reader.fails, decodeLine);
        return None;
      }
      if next.value == [] {
        FirstLineWhole(buf);
        assert stream == buf;
        return Decode(buf, decodeLine);
      }
      var n := Min(|next.value|, MAX_RESPONSE_BYTES - |buf|);
      var slice := next.value[..n];
      Consumed(stream, buf, next.value, reader.Stream(), n);
      if NEWLINE in slice {
        FirstLineAppend(buf + slice, next.value[n..] + reader.Stream());
        return Decode(buf + slice, decodeLine);
      }
      buf := buf + slice;
    }
    CapReached(buf, stream);
    r := None;
  }

  lemma Consumed(stream: seq<Byte>, buf: seq<Byte>, read: seq<Byte>, left: seq<Byte>, n: nat)
    requires stream == buf + (read + left) && n <= |read|
    ensures stream == (buf + read[..n]) + (read[n..] + left)
    ensures n == |read| ==> stream == (buf + read[..n]) + left
  {
    assert read == read[..n] + read[n..];
  }

  lemma NoReply<T>(buf: seq<Byte>, stream: seq<Byte>, fails: bool, decodeLine: seq<Byte> -> Option<T>)
    requires stream == buf + [] && NEWLINE !in buf && fails
    ensures ResponseOf(stream, fails, decodeLine) == None
  {
    FirstLineWhole(buf);
    assert buf + [] == buf;
  }

  lemma CapReached(buf: seq<Byte>, stream: seq<Byte>)
    requires buf <= stream && |buf| == MAX_RESPONSE_BYTES && NEWLINE !in buf
    ensures |FirstLine(stream)| >= MAX_RESPONSE_BYTES
  {
    assert stream == buf + stream[|buf|..];
    FirstLineAppend(buf, stream[|buf|..]);
  }

  /** What the reply is, in terms of the position of the first newline, which must be within a mebibyte. */
  lemma ResponseByNewline<T>(before: seq<Byte>, after: seq<Byte>, fails: bool, decodeLine: seq<Byte> -> Option<T>)
    requires 10 !in before
    ensures ResponseOf(before + [10] + after, fails, decodeLine)
         == if |before| < 1_048_576 then decodeLine(before) else None
    ensures ResponseOf(before, fails, decodeLine)
         == if 0 < |before| < 1_048_576 && !fails then decodeLine(before) else None
  {
    FirstLineAppend(before, [NEWLINE] + after);
    assert before + [NEWLINE] + after == before + ([NEWLINE] + after);
    assert before + [] == before;
    FirstLineWhole(before);
  }
}
