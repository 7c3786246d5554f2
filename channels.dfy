/** The two things the client talks to: the connected TCP socket and the
    output file. Neither is a real descriptor here. The socket is the
    sequence of chunks its successive `read` calls return; the file is the
    sequence of bytes written to it so far. */
module Channels {
  import opened ByteStrings

  /** `sizeof(buffer)`: no `read` returns more than this many bytes. */
  const READ_SIZE := 4096

  /** Every chunk holds 1..READ_SIZE bytes; the end of the sequence stands for
      the `read` that returns 0 or -1 (end of stream or error). */
  predicate WellFormedStream(chunks: seq<seq<byte>>)
  {
    forall i :: 0 <= i < |chunks| ==> 0 < |chunks[i]| <= READ_SIZE
  }

  class Connection {
    /** The chunks not read yet. */
    var pending: seq<seq<byte>>
    /** The bytes sent so far. */
    var sent: seq<byte>

    ghost predicate Valid()
      reads this
    {
      WellFormedStream(pending)
    }

    constructor (chunks: seq<seq<byte>>)
      requires WellFormedStream(chunks)
      ensures Valid() && pending == chunks && sent == []
    {
      pending := chunks;
      sent := [];
    }

    /** `send`: the request goes out whole. */
    method Send(data: seq<byte>)
      modifies this`sent
      ensures sent == old(sent) + data
    {
      sent := sent + data;
    }

    /** `read`: the next chunk, or no bytes once the stream has ended. */
    method Read() returns (data: seq<byte>)
      requires Valid()
      modifies this`pending
      ensures Valid()
      ensures old(pending) == [] ==> data == [] && pending == []
      ensures old(pending) != [] ==> data == old(pending)[0] && pending == old(pending)[1..]
    {
      if pending == [] {
        data := [];
      } else {
        data := pending[0];
        pending := pending[1..];
      }
    }
  }

  class OutputFile {
    const name: seq<byte>
    /** The bytes written so far. */
    var contents: seq<byte>

    /** `fopen(name, "w")`: a new, empty file. */
    constructor (name: seq<byte>)
      ensures this.name == name && contents == []
    {
      this.name := name;
      contents := [];
    }

    /** `fwrite`: the file system takes some leading part of the bytes,
        possibly none of them, and says how many it took. */
    method Write(data: seq<byte>) returns (n: int)
      modifies this`contents
      ensures 0 <= n <= |data|
      ensures contents == old(contents) + data[..n]
    {
      n :| 0 <= n <= |data|;
      contents := contents + data[..n];
    }
  }
}
