/** Reading the response header: chunks from the socket are appended to a
    bounded accumulator until the empty line that ends the header block
    (section 4.1 of RFC 1945) shows up in it. */
module Framing {
  import opened ByteStrings
  import opened Channels

  /** `sizeof(header_buffer)`. The accumulator keeps one byte free for the
      terminating NUL, so it never holds more than HEADER_CAPACITY - 1 bytes. */
  const HEADER_CAPACITY := 8192

  datatype FrameFailure =
    | Overflow     // a chunk would fill the accumulator before the delimiter was seen
    | EndOfStream  // the stream ended before the delimiter was seen

  datatype FrameResult =
    | Framed(header: seq<byte>, used: nat, headerEnd: nat)
    | FrameFailed(reason: FrameFailure)
  // Framed: the accumulated bytes, the number of chunks read, and the offset
  // just past the delimiter (`header_end + 4`).

  /** `strstr(header_buffer, "\r\n\r\n") != NULL`, the search stopping at the
      first NUL byte as `strstr` does. */
  predicate HasDelimiter(acc: seq<byte>)
  {
    IndexOf(CString(acc), DELIMITER).Some?
  }

  /** The header loop, from chunk i on, with acc accumulated so far. */
  function FrameFrom(chunks: seq<seq<byte>>, i: nat, acc: seq<byte>): (r: FrameResult)
    requires i <= |chunks|
    ensures r.Framed? ==> i < r.used <= |chunks|
    ensures r.Framed? ==> |DELIMITER| <= r.headerEnd <= |r.header| < HEADER_CAPACITY
    decreases |chunks| - i
  {
    if i == |chunks| then FrameFailed(EndOfStream)
    else if |acc| + |chunks[i]| >= HEADER_CAPACITY then FrameFailed(Overflow)
    else
      var next := acc + chunks[i];
      match IndexOf(CString(next), DELIMITER)
      case Some(d) => Framed(next, i + 1, d + |DELIMITER|)
      case None => FrameFrom(chunks, i + 1, next)
  }

  /** The header loop over a whole response stream. */
  function Frame(chunks: seq<seq<byte>>): FrameResult
  {
    FrameFrom(chunks, 0, [])
  }

  /** The header loop of `main`, reading from the socket into buf. */
  method ReadHeader(conn: Connection, buf: array<byte>) returns (r: FrameResult)
    requires conn.Valid() && buf.Length == HEADER_CAPACITY
    modifies conn`pending, buf
    ensures conn.Valid()
    ensures r == Frame(old(conn.pending))
    ensures r.Framed? ==> buf[..|r.header|] == r.header && conn.pending == old(conn.pending)[r.used..]
  {
    ghost var chunks := conn.pending;
    ghost var result := Frame(chunks);
    assert chunks[..0] == [];
    var i: nat := 0;  // chunks appended so far
    var len := 0;
    var data := conn.Read();
    while |data| > 0
      invariant conn.Valid()
      invariant i <= |chunks| && len < HEADER_CAPACITY
      invariant buf[..len] == Flatten(chunks[..i])
      invariant data == [] ==> i == |chunks| && conn.pending == []
      invariant data != [] ==> i < |chunks| && data == chunks[i] && conn.pending == chunks[i + 1..]
      invariant result == FrameFrom(chunks, i, Flatten(chunks[..i]))
      decreases |chunks| - i
    {
      if len + |data| >= HEADER_CAPACITY {
        return FrameFailed(Overflow);
      }
      Append(buf, len, data);
      len := len + |data|;
      FlattenSnoc(chunks, i);
      // buf[len] is NUL, so the C string of the buffer is CString(buf[..len]).
      var acc := buf[..len];
      var found := IndexOf(CString(acc), DELIMITER);
      if found.Some? {
        return Framed(acc, i + 1, found.value + |DELIMITER|);
      }
      i := i + 1;
      data := conn.Read();
    }
    return FrameFailed(EndOfStream);
  }

  /** `memcpy(header_buffer + header_len, chunk, n)` followed by the NUL
      written after the new end. */
  method Append(buf: array<byte>, len: nat, data: seq<byte>)
    requires len + |data| < buf.Length
    modifies buf
    ensures buf[..len + |data|] == old(buf[..len]) + data
    ensures buf[len + |data|] == NUL
  {
    forall k | 0 <= k < |data| {
      buf[len + k] := data[k];
    }
    buf[len + |data|] := NUL;
    assert buf[..len + |data|] == old(buf[..len]) + data;
  }

  /** Once the accumulator holds the delimiter, every longer one does too. */
  lemma HasDelimiterExtends(a: seq<byte>, b: seq<byte>)
    requires a <= b && HasDelimiter(a)
    ensures HasDelimiter(b)
  {
    assert b == a + b[|a|..];
    CStringAppend(a, b[|a|..]);
    IndexOfPrefix(CString(a), CString(b), DELIMITER);
  }

  /** Fewer chunks give a prefix of the bytes of more chunks. */
  lemma FlattenPrefix(chunks: seq<seq<byte>>, j: nat, k: nat)
    requires j <= k <= |chunks|
    ensures Flatten(chunks[..j]) <= Flatten(chunks[..k])
  {
    assert chunks[..k][..j] == chunks[..j];
    FlattenSplit(chunks[..k], j);
  }

  /** The loop can stop after chunk k: the first k chunks fit and hold the delimiter. */
  predicate FramesAt(chunks: seq<seq<byte>>, k: nat)
  {
    0 < k <= |chunks| && |Flatten(chunks[..k])| < HEADER_CAPACITY && HasDelimiter(Flatten(chunks[..k]))
  }

  /** A successful loop has read exactly the chunks up to the one that made
      the delimiter appear, and the accumulator is their concatenation. */
  lemma {:induction false} FrameFromFramed(chunks: seq<seq<byte>>, i: nat, acc: seq<byte>)
    requires i <= |chunks| && acc == Flatten(chunks[..i])
    ensures var r := FrameFrom(chunks, i, acc);
      r.Framed? ==>
        && r.header == Flatten(chunks[..r.used])
        && FramesAt(chunks, r.used)
        && r.headerEnd == IndexOf(CString(r.header), DELIMITER).value + |DELIMITER|
    decreases |chunks| - i
  {
    if i < |chunks| && |acc| + |chunks[i]| < HEADER_CAPACITY {
      FlattenSnoc(chunks, i);
      var next := acc + chunks[i];
      if !HasDelimiter(next) {
        FrameFromFramed(chunks, i + 1, next);
      }
    }
  }

  /** The loop stops at the first chunk that made the delimiter appear: no
      accumulator before it held the delimiter. */
  lemma {:induction false} FrameFromFirst(chunks: seq<seq<byte>>, i: nat, acc: seq<byte>)
    requires i <= |chunks| && acc == Flatten(chunks[..i]) && !HasDelimiter(acc)
    ensures var r := FrameFrom(chunks, i, acc);
      r.Framed? ==> forall j :: i <= j < r.used ==> !HasDelimiter(Flatten(chunks[..j]))
    decreases |chunks| - i
  {
    if i < |chunks| && |acc| + |chunks[i]| < HEADER_CAPACITY {
      FlattenSnoc(chunks, i);
      var next := acc + chunks[i];
      if !HasDelimiter(next) {
        FrameFromFirst(chunks, i + 1, next);
      }
    }
  }

  /** The loop succeeds exactly when some prefix of the chunks fits in the
      accumulator and holds the delimiter. */
  lemma {:induction false} FrameFromSucceeds(chunks: seq<seq<byte>>, i: nat, acc: seq<byte>, k: nat)
    requires i <= |chunks| && acc == Flatten(chunks[..i]) && !HasDelimiter(acc)
    requires i < k && FramesAt(chunks, k)
    ensures FrameFrom(chunks, i, acc).Framed?
    decreases |chunks| - i
  {
    FlattenSnoc(chunks, i);
    FlattenPrefix(chunks, i + 1, k);
    var next := acc + chunks[i];
    if !HasDelimiter(next) {
      FrameFromSucceeds(chunks, i + 1, next, k);
    }
  }

  /** The loop reaches the end of the stream exactly when the whole stream
      fits in the accumulator and holds no delimiter. */
  lemma {:induction false} FrameFromEndOfStream(chunks: seq<seq<byte>>, i: nat, acc: seq<byte>)
    requires i <= |chunks| && acc == Flatten(chunks[..i]) && !HasDelimiter(acc)
    requires |acc| < HEADER_CAPACITY
    ensures FrameFrom(chunks, i, acc) == FrameFailed(EndOfStream)
        <==> |Flatten(chunks)| < HEADER_CAPACITY && !HasDelimiter(Flatten(chunks))
    decreases |chunks| - i
  {
    assert chunks[..|chunks|] == chunks;
    if i < |chunks| {
      var next := acc + chunks[i];
      FlattenSnoc(chunks, i);
      FlattenPrefix(chunks, i + 1, |chunks|);
      if |next| < HEADER_CAPACITY {
        if HasDelimiter(next) {
          HasDelimiterExtends(next, Flatten(chunks));
        } else {
          FrameFromEndOfStream(chunks, i + 1, next);
        }
      }
    }
  }

  /** The header loop succeeds if and only if some prefix of the stream fits
      in the accumulator and holds the delimiter; it then stops at the first
      chunk that made the delimiter appear, and its accumulator is exactly
      the chunks read. */
  lemma FrameSucceeds(chunks: seq<seq<byte>>)
    ensures Frame(chunks).Framed? <==> exists k :: FramesAt(chunks, k)
    ensures var r := Frame(chunks);
      r.Framed? ==>
        && r.header == Flatten(chunks[..r.used])
        && FramesAt(chunks, r.used)
        && r.headerEnd == IndexOf(CString(r.header), DELIMITER).value + |DELIMITER|
        && forall j :: 0 <= j < r.used ==> !HasDelimiter(Flatten(chunks[..j]))
  {
    assert chunks[..0] == [];
    FrameFromFramed(chunks, 0, []);
    FrameFromFirst(chunks, 0, []);
    if k :| FramesAt(chunks, k) {
      FrameFromSucceeds(chunks, 0, [], k);
    }
  }

  /** The header loop fails at the end of the stream if and only if the whole
      stream fits and never shows the delimiter; every other failure is an
      overflow. */
  lemma FrameEndOfStream(chunks: seq<seq<byte>>)
    ensures Frame(chunks) == FrameFailed(EndOfStream)
        <==> |Flatten(chunks)| < HEADER_CAPACITY && !HasDelimiter(Flatten(chunks))
  {
    assert chunks[..0] == [];
    FrameFromEndOfStream(chunks, 0, []);
  }

  /** Chunk k is the one that carries the accumulator past m bytes. */
  lemma {:induction false} CoveringChunk(chunks: seq<seq<byte>>, i: nat, m: nat) returns (k: nat)
    requires i <= |chunks| && |Flatten(chunks[..i])| < m <= |Flatten(chunks)|
    ensures i < k <= |chunks|
    ensures |Flatten(chunks[..k - 1])| < m <= |Flatten(chunks[..k])|
    decreases |chunks| - i
  {
    assert chunks[..|chunks|] == chunks;
    FlattenSnoc(chunks, i);
    if m <= |Flatten(chunks[..i + 1])| {
      k := i + 1;
    } else {
      k := CoveringChunk(chunks, i + 1, m);
    }
  }

  /** A header block free of NUL whose only delimiter is the one that ends
      it: no accumulator shorter than the block shows a delimiter. */
  lemma DelimiterNotEarly(block: seq<byte>, t: seq<byte>, s: seq<byte>)
    requires NUL !in block && IndexOf(block, DELIMITER) == Some(|block| - |DELIMITER|)
    requires block <= t && s <= t && |s| < |block|
    ensures !HasDelimiter(s)
  {
    assert s == block[..|s|];
    assert NUL !in s by {
      forall i | 0 <= i < |s| ensures s[i] != NUL {
        assert s[i] == block[i] && block[i] in block;
      }
    }
    CStringOfText(s);
    forall j ensures !OccursAt(s, DELIMITER, j) {
      if 0 <= j && j + |DELIMITER| <= |s| {
        assert s[j..j + |DELIMITER|] == block[j..j + |DELIMITER|];
        assert !OccursAt(block, DELIMITER, j);
      }
    }
  }

  /** The chunk that completes a header block fitting in one read: the
      chunks up to it fit in the accumulator, show the delimiter at the end
      of the block, and no fewer chunks show it. */
  lemma BlockChunk(block: seq<byte>, body: seq<byte>, chunks: seq<seq<byte>>) returns (k: nat)
    requires WellFormedStream(chunks) && Flatten(chunks) == block + body
    requires |block| <= READ_SIZE && NUL !in block
    requires IndexOf(block, DELIMITER) == Some(|block| - |DELIMITER|)
    ensures FramesAt(chunks, k) && block <= Flatten(chunks[..k])
    ensures IndexOf(CString(Flatten(chunks[..k])), DELIMITER) == Some(|block| - |DELIMITER|)
    ensures forall j :: 0 <= j < k ==> !HasDelimiter(Flatten(chunks[..j]))
  {
    var m := |block|;
    assert chunks[..0] == [];
    k := CoveringChunk(chunks, 0, m);
    FlattenSnoc(chunks, k - 1);
    FlattenSplit(chunks, k);
    var head := Flatten(chunks[..k]);
    assert head <= block + body;
    assert block <= head;
    DelimiterOfBlockPrefix(block, head);
    NoDelimiterBefore(block, chunks, k);
  }

  /** An accumulator that starts with a NUL-free block shows the block's
      first delimiter first. */
  lemma DelimiterOfBlockPrefix(block: seq<byte>, head: seq<byte>)
    requires block <= head && NUL !in block
    requires IndexOf(block, DELIMITER) == Some(|block| - |DELIMITER|)
    ensures IndexOf(CString(head), DELIMITER) == Some(|block| - |DELIMITER|)
  {
    assert head == block + head[|block|..];
    CStringAppend(block, head[|block|..]);
    CStringOfText(block);
    IndexOfPrefix(block, CString(head), DELIMITER);
  }

  /** Before the chunk that completes the block, no accumulator shows the delimiter. */
  lemma NoDelimiterBefore(block: seq<byte>, chunks: seq<seq<byte>>, k: nat)
    requires 0 < k <= |chunks| && block <= Flatten(chunks[..k]) && |Flatten(chunks[..k - 1])| < |block|
    requires NUL !in block && IndexOf(block, DELIMITER) == Some(|block| - |DELIMITER|)
    ensures forall j :: 0 <= j < k ==> !HasDelimiter(Flatten(chunks[..j]))
  {
    forall j | 0 <= j < k
      ensures !HasDelimiter(Flatten(chunks[..j]))
    {
      FlattenPrefix(chunks, j, k - 1);
      FlattenPrefix(chunks, j, k);
      DelimiterNotEarly(block, Flatten(chunks[..k]), Flatten(chunks[..j]));
    }
  }

  /** A response whose header block ends with its first delimiter, holds no
      NUL and fits in one read is framed at the end of that block whatever
      the chunking: the header loop stops at the chunk that completes the
      block, and the bytes after the block are the rest of the stream. */
  lemma FrameOfResponse(block: seq<byte>, body: seq<byte>, chunks: seq<seq<byte>>)
    requires WellFormedStream(chunks) && Flatten(chunks) == block + body
    requires |block| <= READ_SIZE && NUL !in block
    requires IndexOf(block, DELIMITER) == Some(|block| - |DELIMITER|)
    ensures Frame(chunks).Framed?
    ensures var r := Frame(chunks);
      && block <= r.header
      && r.headerEnd == |block|
      && r.header + Flatten(chunks[r.used..]) == block + body
  {
    var k := BlockChunk(block, body, chunks);
    FrameSucceeds(chunks);
    var r := Frame(chunks);
    assert FramesAt(chunks, r.used) && FramesAt(chunks, k);
    assert r.used == k;
    FlattenSplit(chunks, k);
  }

  /** After a successful header loop the stream is the accumulator followed
      by what the socket still holds. */
  lemma FramedStream(chunks: seq<seq<byte>>)
    requires Frame(chunks).Framed?
    ensures Frame(chunks).header <= Flatten(chunks)
    ensures Flatten(chunks) == Frame(chunks).header + Flatten(chunks[Frame(chunks).used..])
  {
    FrameSucceeds(chunks);
    FlattenSplit(chunks, Frame(chunks).used);
  }
}
