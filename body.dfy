/** Saving the body: the bytes that came in with the header are written
    first, then further chunks are read and written, each cut down to the
    number of bytes still expected, until that number reaches zero or the
    stream ends. Every write is retried until the file has taken all of it. */
module Body {
  import opened ByteStrings
  import opened Channels

  function Min(a: int, b: int): int { if a < b then a else b }
  function Max(a: int, b: int): int { if a < b then b else a }

  /** What the body loop writes from the chunks still to be read, when
      `remaining` bytes are expected. */
  function Stream(chunks: seq<seq<byte>>, remaining: int): seq<byte>
    decreases |chunks|
  {
    if remaining <= 0 || chunks == [] then []
    else
      var n := Min(|chunks[0]|, remaining);
      chunks[0][..n] + Stream(chunks[1..], remaining - n)
  }

  /** The body loop writes the first `remaining` bytes of the rest of the
      stream, or all of it when the stream ends first; nothing when nothing
      is expected. */
  lemma {:induction false} StreamIsPrefix(chunks: seq<seq<byte>>, remaining: int)
    ensures Stream(chunks, remaining) == Flatten(chunks)[..Min(|Flatten(chunks)|, Max(0, remaining))]
  {
    if remaining > 0 && chunks != [] {
      var first := chunks[0];
      var rest := Flatten(chunks[1..]);
      var n := Min(|first|, remaining);
      StreamIsPrefix(chunks[1..], remaining - n);
      assert Flatten(chunks) == first + rest;
      if n < |first| {
        assert Flatten(chunks)[..remaining] == first[..n];
      } else {
        var m := Min(|rest|, Max(0, remaining - n));
        assert Flatten(chunks)[..n + m] == first + rest[..m];
      }
    }
  }

  /** The body loop never writes more than the bytes still expected, nor more
      than the stream holds. */
  lemma StreamLength(chunks: seq<seq<byte>>, remaining: int)
    ensures |Stream(chunks, remaining)| == Min(|Flatten(chunks)|, Max(0, remaining))
    ensures |Stream(chunks, remaining)| <= Max(0, remaining)
  {
    StreamIsPrefix(chunks, remaining);
  }

  /** What the body loop writes depends on the bytes of the stream, not on
      how `read` splits them into chunks. */
  lemma StreamIgnoresChunking(a: seq<seq<byte>>, b: seq<seq<byte>>, remaining: int)
    requires Flatten(a) == Flatten(b)
    ensures Stream(a, remaining) == Stream(b, remaining)
  {
    StreamIsPrefix(a, remaining);
    StreamIsPrefix(b, remaining);
  }

  /** The `fwrite` retry loop: write until all of data is taken, and give up
      as soon as a write takes nothing. */
  method WriteAll(file: OutputFile, data: seq<byte>) returns (ok: bool)
    modifies file`contents
    ensures ok ==> file.contents == old(file.contents) + data
    ensures !ok ==> old(file.contents) <= file.contents < old(file.contents) + data
  {
    var written := 0;
    while written < |data|
      invariant 0 <= written <= |data|
      invariant file.contents == old(file.contents) + data[..written]
    {
      var n := file.Write(data[written..]);
      if n <= 0 {
        return false;
      }
      assert data[..written] + data[written..][..n] == data[..written + n];
      written := written + n;
    }
    assert data[..written] == data;
    return true;
  }

  /** The body loop of `main`, with `remaining` bytes still expected. */
  method TransferBody(conn: Connection, file: OutputFile, remaining: int) returns (ok: bool)
    requires conn.Valid()
    modifies conn`pending, file`contents
    ensures conn.Valid()
    ensures ok ==> file.contents == old(file.contents) + Stream(old(conn.pending), remaining)
    ensures !ok ==> old(file.contents) <= file.contents < old(file.contents) + Stream(old(conn.pending), remaining)
  {
    ghost var start := file.contents;
    ghost var total := start + Stream(conn.pending, remaining);
    var left := remaining;
    while left > 0
      invariant conn.Valid()
      invariant left == remaining || 0 <= left < remaining
      invariant start <= file.contents
      invariant total == file.contents + Stream(conn.pending, left)
      decreases |conn.pending|
    {
      ghost var before := conn.pending;
      ghost var written := file.contents;
      var data := conn.Read();
      if |data| == 0 {
        break;
      }
      var n := if |data| > left then left else |data|;
      ghost var later := Stream(conn.pending, left - n);
      assert Stream(before, left) == data[..n] + later;
      assert total == written + data[..n] + later;
      ok := WriteAll(file, data[..n]);
      if !ok {
        PrefixOfLonger(file.contents, written + data[..n], later);
        return;
      }
      left := left - n;
    }
    return true;
  }

  /** A strict prefix of a stays one of every extension of a. */
  lemma PrefixOfLonger(p: seq<byte>, a: seq<byte>, b: seq<byte>)
    requires p < a
    ensures p < a + b
  {
    assert (a + b)[..|p|] == a[..|p|];
  }
}
