/** One run of `http_client <host> <port> <filepath>`: check the arguments,
    send the request, frame the response header, read the status and the
    Content-Length, and save the body to a file named after the last path
    segment. Every way the run can end is an Outcome. */
module Client {
  import opened ByteStrings
  import opened Numbers
  import opened CommandLine
  import opened Request
  import opened Channels
  import opened Framing
  import opened Headers
  import opened Body

  datatype Outcome =
    | Usage            // not exactly three arguments: usage message, exit 1
    | InvalidArgument  // port outside 1..65535 or path not starting with '/': exit 1
    | NetworkError     // the host did not resolve, or socket, connect or send failed: exit 1
    | FramingError     // the header overflowed the accumulator or the stream ended first: exit 1
    | ProtocolError    // no status code after "HTTP/<version>": exit 1
    | StatusReported(line: seq<byte>)  // a status other than 200: its line printed, exit 0
    | LengthMissing    // no "Content-Length:" in the header: message printed, exit 1
    | CreateError      // the output file could not be opened: exit 1
    | WriteError       // a write to the output file took no bytes: exit 1
    | Completed        // the body was saved: exit 0

  /** What the run does, decided by its inputs alone: stop with an outcome,
      or save the given content in the file of the given name. */
  datatype Plan =
    | Exit(outcome: Outcome)
    | Save(name: seq<byte>, content: seq<byte>)

  /** The process exit status of each outcome. */
  function ExitStatus(o: Outcome): int
  {
    if o.StatusReported? || o.Completed? then 0 else 1
  }

  /** A run with the given arguments, network results, response stream and
      file-creation result. `connected` says whether the host resolved and
      the connection was made; `sent` whether `send` succeeded. */
  function Session(argv: seq<seq<byte>>, connected: bool, sent: bool,
                   chunks: seq<seq<byte>>, created: bool): Plan
  {
    match Validate(argv)
    case None => Exit(if |argv| != 4 then Usage else InvalidArgument)
    case Some(target) =>
      if !connected || !sent then Exit(NetworkError)
      else Respond(FileName(target.path), chunks, created)
  }

  /** The run once the request is out: frame the header, then act on it. */
  function Respond(name: seq<byte>, chunks: seq<seq<byte>>, created: bool): Plan
  {
    match Frame(chunks)
    case FrameFailed(_) => Exit(FramingError)
    case Framed(header, used, headerEnd) => AfterHeader(name, header, headerEnd, chunks[used..], created)
  }

  /** The run once the header is framed: the accumulator holds header, whose
      delimiter ends at headerEnd, and later is what the socket still holds.
      Check the status, find the length, create the file and plan its
      contents. */
  function AfterHeader(name: seq<byte>, header: seq<byte>, headerEnd: nat,
                       later: seq<seq<byte>>, created: bool): Plan
    requires headerEnd <= |header|
  {
    var text := CString(header);
    match ParseStatus(text)
    case None => Exit(ProtocolError)
    case Some(code) =>
      if code != 200 then Exit(StatusReported(FirstLine(text)))
      else
        match ContentLength(text)
        case None => Exit(LengthMissing)
        case Some(length) =>
          if !created then Exit(CreateError)
          else Save(name, Payload(header, headerEnd, later, length))
  }

  /** The saved bytes: everything the header reads brought in after the
      delimiter, then the body loop's share of the later chunks. */
  function Payload(header: seq<byte>, headerEnd: nat, later: seq<seq<byte>>, length: int): seq<byte>
    requires headerEnd <= |header|
  {
    header[headerEnd..] + Stream(later, length - (|header| - headerEnd))
  }

  /** `main`. The socket is conn, already connected when `connected` holds;
      the file is created when `created` holds and is returned, null when
      the run stops before creating it. */
  method Run(argv: seq<seq<byte>>, connected: bool, sent: bool, conn: Connection, created: bool)
    returns (outcome: Outcome, file: OutputFile?)
    requires conn.Valid() && conn.sent == []
    modifies conn
    ensures var plan := Session(argv, connected, sent, old(conn.pending), created);
      && (plan.Exit? ==> outcome == plan.outcome && file == null)
      && (plan.Save? ==> file != null && fresh(file) && file.name == plan.name)
      && (plan.Save? ==>
            || (outcome == Completed && file.contents == plan.content)
            || (outcome == WriteError && file.contents < plan.content))
    ensures var plan := Session(argv, connected, sent, old(conn.pending), created);
      plan.Save? ==> (ExitStatus(outcome) == 0 <==> file.contents == plan.content)
    ensures conn.sent == if Validate(argv).Some? && connected && sent
      then FormatRequest(Validate(argv).value.path, Validate(argv).value.host, Validate(argv).value.port as nat)
      else []
  {
    file := null;
    var target := Validate(argv);
    if target.None? {
      outcome := if |argv| != 4 then Usage else InvalidArgument;
      return;
    }
    var host, port, path := target.value.host, target.value.port, target.value.path;
    var name := FileName(path);
    if !connected || !sent {
      outcome := NetworkError;
      return;
    }
    conn.Send(FormatRequest(path, host, port as nat));
    outcome, file := Download(conn, name, created);
  }

  /** The part of `main` after the request is sent. */
  method Download(conn: Connection, name: seq<byte>, created: bool)
    returns (outcome: Outcome, file: OutputFile?)
    requires conn.Valid()
    modifies conn`pending
    ensures var plan := Respond(name, old(conn.pending), created);
      && (plan.Exit? ==> outcome == plan.outcome && file == null)
      && (plan.Save? ==> file != null && fresh(file) && file.name == plan.name)
      && (plan.Save? ==>
            || (outcome == Completed && file.contents == plan.content)
            || (outcome == WriteError && file.contents < plan.content))
  {
    var buf := new byte[HEADER_CAPACITY];
    var framed := ReadHeader(conn, buf);
    if framed.FrameFailed? {
      return FramingError, null;
    }
    outcome, file := HandleHeader(conn, framed.header, framed.headerEnd, name, created);
  }

  /** The part of `main` after the header loop, with the accumulator's
      bytes in header and its delimiter ending at headerEnd. */
  method HandleHeader(conn: Connection, header: seq<byte>, headerEnd: nat,
                      name: seq<byte>, created: bool)
    returns (outcome: Outcome, file: OutputFile?)
    requires conn.Valid() && headerEnd <= |header|
    modifies conn`pending
    ensures var plan := AfterHeader(name, header, headerEnd, old(conn.pending), created);
      && (plan.Exit? ==> outcome == plan.outcome && file == null)
      && (plan.Save? ==> file != null && fresh(file) && file.name == plan.name)
      && (plan.Save? ==>
            || (outcome == Completed && file.contents == plan.content)
            || (outcome == WriteError && file.contents < plan.content))
  {
    file := null;
    var text := CString(header);
    var status := ParseStatus(text);
    if status.None? {
      return ProtocolError, null;
    }
    if status.value != 200 {
      return StatusReported(FirstLine(text)), null;
    }
    var length := ContentLength(text);
    if length.None? {
      return LengthMissing, null;
    }
    if !created {
      return CreateError, null;
    }
    outcome, file := SaveBody(conn, name, header, headerEnd, length.value);
  }

  /** The file creation, the preread write and the body loop of `main`:
      the bytes of the accumulator after the delimiter are written first,
      then the body loop runs for the rest of the Content-Length. */
  method SaveBody(conn: Connection, name: seq<byte>, header: seq<byte>, headerEnd: nat, length: int)
    returns (outcome: Outcome, file: OutputFile)
    requires conn.Valid() && headerEnd <= |header|
    modifies conn`pending
    ensures fresh(file) && file.name == name
    ensures outcome == Completed || outcome == WriteError
    ensures var content := Payload(header, headerEnd, old(conn.pending), length);
      && (outcome == Completed ==> file.contents == content)
      && (outcome == WriteError ==> file.contents < content)
  {
    var preread := header[headerEnd..];
    var remaining := length - (|header| - headerEnd);
    file := new OutputFile(name);
    if |preread| > 0 {
      var ok := WriteAll(file, preread);
      if !ok {
        assert file.contents < preread;
        PrefixOfLonger(file.contents, preread, Stream(conn.pending, remaining));
        return WriteError, file;
      }
    }
    assert file.contents == preread;
    var ok := TransferBody(conn, file, remaining);
    outcome := if ok then Completed else WriteError;
  }

  /** A run that gets past the request saves a file exactly when the header
      was framed with status 200 and a Content-Length, and the file could be
      created. */
  lemma RespondSaves(name: seq<byte>, chunks: seq<seq<byte>>, created: bool)
    ensures var plan := Respond(name, chunks, created);
      plan.Save? <==>
        && Frame(chunks).Framed?
        && ParseStatus(CString(Frame(chunks).header)) == Some(200)
        && ContentLength(CString(Frame(chunks).header)).Some?
        && created
    ensures Respond(name, chunks, created).Save? ==> Respond(name, chunks, created).name == name
  {
  }

  /** A run saves a file only when the arguments are valid and the request
      went out, and then under the last segment of the path. */
  lemma SessionResponds(argv: seq<seq<byte>>, connected: bool, sent: bool,
                        chunks: seq<seq<byte>>, created: bool)
    ensures Validate(argv).Some? && connected && sent ==>
      Session(argv, connected, sent, chunks, created) == Respond(FileName(argv[3]), chunks, created)
    ensures !(Validate(argv).Some? && connected && sent) ==>
      Session(argv, connected, sent, chunks, created).Exit?
  {
  }

  /** Once the request is out, a run that stops without saving exits with
      status 0 exactly when it framed a header whose status code it read and
      found other than 200. */
  lemma ExitStatusOfRespond(name: seq<byte>, chunks: seq<seq<byte>>, created: bool)
    ensures var plan := Respond(name, chunks, created);
      plan.Exit? ==>
        (ExitStatus(plan.outcome) == 0 <==>
           && Frame(chunks).Framed?
           && ParseStatus(CString(Frame(chunks).header)).Some?
           && ParseStatus(CString(Frame(chunks).header)) != Some(200))
  {
    match Frame(chunks)
    case FrameFailed(_) =>
    case Framed(header, used, headerEnd) =>
      var text := CString(header);
      var plan := AfterHeader(name, header, headerEnd, chunks[used..], created);
      assert plan.Exit? && ExitStatus(plan.outcome) == 0 ==> plan.outcome.StatusReported?;
  }

  /** A whole run that stops without saving exits with status 0 exactly when
      the arguments were valid, the request went out, and the response had a
      status code other than 200. */
  lemma ExitStatusOfSession(argv: seq<seq<byte>>, connected: bool, sent: bool,
                            chunks: seq<seq<byte>>, created: bool)
    ensures var plan := Session(argv, connected, sent, chunks, created);
      plan.Exit? ==>
        (ExitStatus(plan.outcome) == 0 <==>
           && Validate(argv).Some? && connected && sent
           && Frame(chunks).Framed?
           && ParseStatus(CString(Frame(chunks).header)).Some?
           && ParseStatus(CString(Frame(chunks).header)) != Some(200))
  {
    if Validate(argv).Some? && connected && sent {
      SessionResponds(argv, connected, sent, chunks, created);
      ExitStatusOfRespond(FileName(argv[3]), chunks, created);
    }
  }

  /** The payload is the bytes that came in after the delimiter with the
      header, all of them, followed by at most max(0, length - preread)
      bytes of the later chunks: the first that many, or all of them when
      the stream ends first. */
  lemma PayloadIsPrefix(header: seq<byte>, headerEnd: nat, later: seq<seq<byte>>, length: int)
    requires headerEnd <= |header|
    ensures var preread := header[headerEnd..];
      var rest := Flatten(later);
      var content := Payload(header, headerEnd, later, length);
      && content == preread + rest[..Min(|rest|, Max(0, length - |preread|))]
      && |content| - |preread| <= Max(0, length - |preread|)
  {
    StreamIsPrefix(later, length - (|header| - headerEnd));
  }

  /** The payload is a prefix of the body, the bytes after the delimiter:
      the first `length` bytes, or the whole body when it is shorter, but
      never less than what the header reads had already brought in. */
  lemma PayloadIsBodyPrefix(header: seq<byte>, headerEnd: nat, later: seq<seq<byte>>, length: int)
    requires headerEnd <= |header|
    ensures var body := header[headerEnd..] + Flatten(later);
      Payload(header, headerEnd, later, length)
        == body[..Max(|header| - headerEnd, Min(|body|, length))]
  {
    PayloadIsPrefix(header, headerEnd, later, length);
  }

  /** The saved file is a prefix of the response body, as PayloadIsBodyPrefix
      says, with the body being everything the stream carried after the
      header delimiter. */
  lemma SavedIsBodyPrefix(name: seq<byte>, chunks: seq<seq<byte>>, created: bool)
    requires Respond(name, chunks, created).Save?
    ensures Frame(chunks).Framed? && Frame(chunks).header <= Flatten(chunks)
    ensures var r := Frame(chunks);
      var body := Flatten(chunks)[r.headerEnd..];
      var preread := |r.header| - r.headerEnd;
      var length := ContentLength(CString(r.header)).value;
      Respond(name, chunks, created).content == body[..Max(preread, Min(|body|, length))]
  {
    var r := Frame(chunks);
    FramedStream(chunks);
    var length := ContentLength(CString(r.header)).value;
    assert Respond(name, chunks, created).content == Payload(r.header, r.headerEnd, chunks[r.used..], length);
    PayloadIsBodyPrefix(r.header, r.headerEnd, chunks[r.used..], length);
    DropFront(r.header, Flatten(chunks[r.used..]), r.headerEnd);
  }

  /** A response header block that holds no NUL, and whose first delimiter
      ends it, fits in one read: framed at its end whatever the chunking. */
  lemma FrameOfHeaderBlock(lines: seq<seq<byte>>, body: seq<byte>, chunks: seq<seq<byte>>)
    requires lines != [] && forall i :: 0 <= i < |lines| ==> IsHeaderLine(lines[i])
    requires |HeaderBlock(lines)| <= READ_SIZE
    requires WellFormedStream(chunks) && Flatten(chunks) == HeaderBlock(lines) + body
    ensures Frame(chunks).Framed?
    ensures var r := Frame(chunks);
      var block := HeaderBlock(lines);
      && block <= r.header
      && r.headerEnd == |block|
      && r.header + Flatten(chunks[r.used..]) == block + body
  {
    var block := HeaderBlock(lines);
    LinesWithoutNul(lines);
    DelimiterEndsBlock(lines, []);
    assert block + [] == block;
    FrameOfResponse(block, body, chunks);
  }

  /** A version word as the status line carries it: non-empty, free of white
      space, NUL and ':'. */
  predicate IsVersion(version: seq<byte>)
  {
    version != [] && NUL !in version && COLON !in version
    && forall i :: 0 <= i < |version| ==> NotSpace(version[i])
  }

  /** A reason phrase: free of CR, NUL and ':'. */
  predicate IsReason(reason: seq<byte>)
  {
    CR !in reason && NUL !in reason && COLON !in reason
  }

  /** A status line is a header line, and holds no ':'. */
  lemma StatusLineText(version: seq<byte>, code: nat, reason: seq<byte>)
    requires IsVersion(version) && IsReason(reason)
    ensures IsHeaderLine(StatusLine(version, code, reason))
    ensures COLON !in StatusLine(version, code, reason)
  {
    var d := Decimal(code);
    forall i | 0 <= i < |d| ensures d[i] != NUL && d[i] != CR && d[i] != COLON {
      assert IsDigit(d[i]);
    }
    forall i | 0 <= i < |version| ensures version[i] != CR {
      assert NotSpace(version[i]);
    }
  }

  /** Header fields that may come before the Content-Length field: header
      lines in which "Content-Length:" does not occur. */
  ghost predicate FieldsWithoutLength(fields: seq<seq<byte>>)
  {
    && (forall i :: 0 <= i < |fields| ==> IsHeaderLine(fields[i]))
    && forall j :: !OccursAt(Lines(fields), LENGTH_TOKEN, j)
  }

  /** The header lines of a response with status 200: the status line, fields
      without a length, the Content-Length field, then any other fields. */
  function OkLines(version: seq<byte>, reason: seq<byte>, length: nat,
                   before: seq<seq<byte>>, after: seq<seq<byte>>): seq<seq<byte>>
  {
    [StatusLine(version, 200, reason)] + before + [LengthField(length)] + after
  }

  /** A response with status 200 and a Content-Length. */
  function OkResponse(version: seq<byte>, reason: seq<byte>, length: nat,
                      before: seq<seq<byte>>, after: seq<seq<byte>>, body: seq<byte>): seq<byte>
  {
    HeaderBlock(OkLines(version, reason, length, before, after)) + body
  }

  /** A length field is a header line. */
  lemma LengthFieldLine(length: nat)
    ensures IsHeaderLine(LengthField(length))
  {
    var d := Decimal(length);
    forall i | 0 <= i < |d| ensures d[i] != NUL && d[i] != CR {
      assert IsDigit(d[i]);
    }
  }

  /** The lines of a status-200 response are header lines. */
  lemma OkLinesAreHeaderLines(version: seq<byte>, reason: seq<byte>, length: nat,
                              before: seq<seq<byte>>, after: seq<seq<byte>>)
    requires IsVersion(version) && IsReason(reason)
    requires forall i :: 0 <= i < |before| ==> IsHeaderLine(before[i])
    requires forall i :: 0 <= i < |after| ==> IsHeaderLine(after[i])
    ensures var lines := OkLines(version, reason, length, before, after);
      forall i :: 0 <= i < |lines| ==> IsHeaderLine(lines[i])
  {
    StatusLineText(version, 200, reason);
    LengthFieldLine(length);
    var lines := OkLines(version, reason, length, before, after);
    forall i | 0 <= i < |lines|
      ensures IsHeaderLine(lines[i])
    {
      if 0 < i <= |before| {
        assert lines[i] == before[i - 1];
      } else if i > |before| + 1 {
        assert lines[i] == after[i - |before| - 2];
      }
    }
  }

  /** The status line and the fields before the length field hold no
      "Content-Length:", not even across a line end. */
  lemma NoTokenBeforeField(version: seq<byte>, reason: seq<byte>, before: seq<seq<byte>>)
    requires IsVersion(version) && IsReason(reason)
    requires FieldsWithoutLength(before)
    ensures forall j :: !OccursAt(StatusLine(version, 200, reason) + CRLF + Lines(before), LENGTH_TOKEN, j)
  {
    var status := StatusLine(version, 200, reason);
    StatusLineText(version, 200, reason);
    NoTokenWithoutColon(status + CRLF);
    NoTokenAcrossLine(status + CRLF, Lines(before));
  }

  /** A header accumulator starting with the block of a status-200 response
      is answered by saving: the status scans to 200, and the length field,
      the first "Content-Length:" since nothing before it holds one, gives
      the length, whatever follows the block. */
  lemma AfterOkHeader(name: seq<byte>, version: seq<byte>, reason: seq<byte>, length: nat,
                      before: seq<seq<byte>>, after: seq<seq<byte>>, extra: seq<byte>,
                      later: seq<seq<byte>>)
    requires IsVersion(version) && IsReason(reason)
    requires FieldsWithoutLength(before)
    requires forall i :: 0 <= i < |after| ==> IsHeaderLine(after[i])
    ensures var block := HeaderBlock(OkLines(version, reason, length, before, after));
      AfterHeader(name, block + extra, |block|, later, true)
        == Save(name, Payload(block + extra, |block|, later, length))
  {
    var status := StatusLine(version, 200, reason);
    var field := LengthField(length);
    var block := HeaderBlock(OkLines(version, reason, length, before, after));
    var rest := CRLF + (HeaderBlock(after) + CString(extra));
    OkHeaderText(version, reason, length, before, after, extra);
    Regroup(status, CRLF, Lines(before), field, rest);
    OkStatus(version, reason, Lines(before) + field + rest);
    NoTokenBeforeField(version, reason, before);
    OkLength(status + CRLF + Lines(before), length, rest);
  }

  /** What the C string functions see of an accumulator that starts with the
      block of a status-200 response. */
  lemma OkHeaderText(version: seq<byte>, reason: seq<byte>, length: nat,
                     before: seq<seq<byte>>, after: seq<seq<byte>>, extra: seq<byte>)
    requires IsVersion(version) && IsReason(reason)
    requires forall i :: 0 <= i < |before| ==> IsHeaderLine(before[i])
    requires forall i :: 0 <= i < |after| ==> IsHeaderLine(after[i])
    ensures CString(HeaderBlock(OkLines(version, reason, length, before, after)) + extra)
         == StatusLine(version, 200, reason) + CRLF + Lines(before) + LengthField(length)
            + (CRLF + (HeaderBlock(after) + CString(extra)))
  {
    var status := StatusLine(version, 200, reason);
    var field := LengthField(length);
    var lines := OkLines(version, reason, length, before, after);
    OkLinesAreHeaderLines(version, reason, length, before, after);
    BlockText(lines, extra);
    var head, tail := [status] + before, [field] + after;
    assert lines == head + tail;
    LinesAppend(head, tail);
    assert Lines(head) == status + CRLF + Lines(before) by {
      assert head[0] == status && head[1..] == before;
    }
    assert Lines(tail) == field + CRLF + Lines(after) by {
      assert tail[0] == field && tail[1..] == after;
    }
    BlockRegroup(status + CRLF + Lines(before), field, Lines(after), CString(extra));
  }

  /** A status line with code 200 followed by a line end scans to 200. */
  lemma OkStatus(version: seq<byte>, reason: seq<byte>, tail: seq<byte>)
    requires IsVersion(version)
    ensures ParseStatus(StatusLine(version, 200, reason) + CRLF + tail) == Some(200)
  {
    var status := StatusLine(version, 200, reason);
    assert status + CRLF + tail == status + (CRLF + tail);
    ParseStatusLine(version, 200, reason, CRLF + tail);
  }

  /** A length field after text without "Content-Length:", followed by a byte
      that is not a digit, gives its length. */
  lemma OkLength(pre: seq<byte>, length: nat, rest: seq<byte>)
    requires forall j :: !OccursAt(pre, LENGTH_TOKEN, j)
    requires rest == [] || !IsDigit(rest[0])
    ensures ContentLength(pre + LengthField(length) + rest) == Some(length)
  {
    FieldText(pre, length, rest);
    ContentLengthOfField(pre, [SPACE], false, length, rest);
  }

  /** The text of a length field, as the length scan splits it. */
  lemma FieldText(pre: seq<byte>, n: nat, rest: seq<byte>)
    ensures pre + LengthField(n) + rest
         == pre + LENGTH_TOKEN + ([SPACE] + (if false then [MINUS] else []) + Decimal(n) + rest)
  {
  }

  /** Regrouping the text of a status line followed by header fields. */
  lemma Regroup(s: seq<byte>, a: seq<byte>, b: seq<byte>, c: seq<byte>, d: seq<byte>)
    ensures s + a + b + c + d == s + a + (b + c + d)
  {
  }

  /** Regrouping a header block around its length field. */
  lemma BlockRegroup(p: seq<byte>, f: seq<byte>, l: seq<byte>, x: seq<byte>)
    ensures (p + (f + CRLF + l)) + CRLF + x == p + f + (CRLF + (l + CRLF + x))
  {
  }

  /** "Content-Length:" is looked for in everything the header loop read,
      body bytes included: a status-200 header block without a length field,
      read together with body bytes that start with one, is answered by
      saving with that length. */
  lemma LengthInPreread(name: seq<byte>, version: seq<byte>, reason: seq<byte>,
                        fields: seq<seq<byte>>, length: nat, rest: seq<byte>,
                        later: seq<seq<byte>>)
    requires IsVersion(version) && IsReason(reason)
    requires FieldsWithoutLength(fields)
    requires rest == [] || !IsDigit(rest[0])
    ensures var block := HeaderBlock([StatusLine(version, 200, reason)] + fields);
      var header := block + (LengthField(length) + rest);
      ContentLength(CString(header)) == Some(length)
      && AfterHeader(name, header, |block|, later, true)
           == Save(name, Payload(header, |block|, later, length))
  {
    var status := StatusLine(version, 200, reason);
    var pre := status + CRLF + HeaderBlock(fields);
    var tail := PrereadText(version, reason, fields, length, rest);
    NoTokenWithoutColon(CRLF);
    NoTokenBeforeColonFree(Lines(fields), CRLF);
    StatusLineText(version, 200, reason);
    NoTokenWithoutColon(status + CRLF);
    NoTokenAcrossLine(status + CRLF, HeaderBlock(fields));
    Regroup(status, CRLF, HeaderBlock(fields), LengthField(length), tail);
    OkStatus(version, reason, HeaderBlock(fields) + LengthField(length) + tail);
    OkLength(pre, length, tail);
  }

  /** What the C string functions see of a status-200 header block followed
      by a length field: the text up to the first NUL of what follows. */
  lemma PrereadText(version: seq<byte>, reason: seq<byte>, fields: seq<seq<byte>>,
                    length: nat, rest: seq<byte>) returns (tail: seq<byte>)
    requires IsVersion(version) && IsReason(reason)
    requires forall i :: 0 <= i < |fields| ==> IsHeaderLine(fields[i])
    requires rest == [] || !IsDigit(rest[0])
    ensures tail == [] || !IsDigit(tail[0])
    ensures CString(HeaderBlock([StatusLine(version, 200, reason)] + fields) + (LengthField(length) + rest))
         == StatusLine(version, 200, reason) + CRLF + HeaderBlock(fields) + LengthField(length) + tail
  {
    var status := StatusLine(version, 200, reason);
    var field := LengthField(length);
    tail := CString(rest);
    StatusLineText(version, 200, reason);
    FirstLineText(status, fields, field + rest);
    LengthFieldLine(length);
    CStringAppend(field, rest);
    assert tail == [] || !IsDigit(tail[0]) by {
      assert tail <= rest;
    }
    PrereadRegroup(status, HeaderBlock(fields), field, tail);
  }

  /** Regrouping a header block followed by a length field. */
  lemma PrereadRegroup(s: seq<byte>, h: seq<byte>, f: seq<byte>, t: seq<byte>)
    ensures s + (CRLF + (h + (f + t))) == s + CRLF + (h + f + t)
    ensures s + (CRLF + (h + (f + t))) == s + CRLF + h + f + t
  {
  }

  /** A well-formed response with status 200 whose header block fits in one
      read, and whose body is no longer than its Content-Length, is saved
      whole, however the stream is split into reads. A body shorter than the
      length is saved as it came, without error. */
  lemma RespondSavesBody(name: seq<byte>, version: seq<byte>, reason: seq<byte>, length: nat,
                         before: seq<seq<byte>>, after: seq<seq<byte>>, body: seq<byte>,
                         chunks: seq<seq<byte>>)
    requires IsVersion(version) && IsReason(reason)
    requires FieldsWithoutLength(before)
    requires forall i :: 0 <= i < |after| ==> IsHeaderLine(after[i])
    requires |HeaderBlock(OkLines(version, reason, length, before, after))| <= READ_SIZE
    requires |body| <= length
    requires WellFormedStream(chunks) && Flatten(chunks) == OkResponse(version, reason, length, before, after, body)
    ensures Respond(name, chunks, true) == Save(name, body)
  {
    var lines := OkLines(version, reason, length, before, after);
    var block := HeaderBlock(lines);
    OkLinesAreHeaderLines(version, reason, length, before, after);
    FrameOfHeaderBlock(lines, body, chunks);
    var r := Frame(chunks);
    var extra := r.header[|block|..];
    var later := chunks[r.used..];
    RestAfterFront(r.header, block, Flatten(later), body);
    assert Respond(name, chunks, true) == AfterHeader(name, r.header, r.headerEnd, later, true);
    AfterOkHeader(name, version, reason, length, before, after, extra, later);
    PayloadOfShortBody(block, extra, later, length, body);
  }

  /** A body no longer than the length is the whole payload. */
  lemma PayloadOfShortBody(block: seq<byte>, extra: seq<byte>, later: seq<seq<byte>>,
                           length: int, body: seq<byte>)
    requires extra + Flatten(later) == body && |body| <= length
    ensures Payload(block + extra, |block|, later, length) == body
  {
    DropFront(block, extra, |block|);
    assert (block + extra)[|block|..] == extra;
    PayloadIsPrefix(block + extra, |block|, later, length);
    assert Flatten(later)[..|Flatten(later)|] == Flatten(later);
  }

  /** The same for a whole run: valid arguments naming the path, a working
      network and a file that can be created; the body is saved under the
      last segment of the path. */
  lemma DownloadsBody(program: seq<byte>, host: seq<byte>, port: nat, path: seq<byte>,
                      version: seq<byte>, reason: seq<byte>, length: nat,
                      before: seq<seq<byte>>, after: seq<seq<byte>>, body: seq<byte>,
                      chunks: seq<seq<byte>>)
    requires 0 < port <= MAX_PORT && |path| > 0 && path[0] == SLASH
    requires IsVersion(version) && IsReason(reason)
    requires FieldsWithoutLength(before)
    requires forall i :: 0 <= i < |after| ==> IsHeaderLine(after[i])
    requires |HeaderBlock(OkLines(version, reason, length, before, after))| <= READ_SIZE
    requires |body| <= length
    requires WellFormedStream(chunks) && Flatten(chunks) == OkResponse(version, reason, length, before, after, body)
    ensures Session([program, host, Decimal(port), path], true, true, chunks, true)
         == Save(FileName(path), body)
  {
    ValidateAcceptsPrintedPort(program, host, port, path);
    RespondSavesBody(FileName(path), version, reason, length, before, after, body, chunks);
  }

  /** A header accumulator starting with a status line whose code is not
      200 is answered by printing that line, whatever follows it. */
  lemma AfterOtherStatus(name: seq<byte>, version: seq<byte>, code: nat, reason: seq<byte>,
                         fields: seq<seq<byte>>, extra: seq<byte>, later: seq<seq<byte>>,
                         created: bool)
    requires code != 200
    requires IsVersion(version) && IsReason(reason)
    requires forall i :: 0 <= i < |fields| ==> IsHeaderLine(fields[i])
    ensures var block := HeaderBlock([StatusLine(version, code, reason)] + fields);
      AfterHeader(name, block + extra, |block|, later, created)
        == Exit(StatusReported(StatusLine(version, code, reason)))
  {
    var status := StatusLine(version, code, reason);
    var block := HeaderBlock([status] + fields);
    var rest := HeaderBlock(fields) + CString(extra);
    var text := CString(block + extra);
    StatusLineText(version, code, reason);
    FirstLineText(status, fields, extra);
    ParseStatusLine(version, code, reason, CRLF + rest);
    FirstLineOf(status, rest);
    ReportsFirstLine(name, block + extra, |block|, later, created, status);
  }

  /** An accumulator whose status is not 200 is answered with its first line. */
  lemma ReportsFirstLine(name: seq<byte>, header: seq<byte>, headerEnd: nat,
                         later: seq<seq<byte>>, created: bool, line: seq<byte>)
    requires headerEnd <= |header|
    requires ParseStatus(CString(header)).Some? && ParseStatus(CString(header)).value != 200
    requires FirstLine(CString(header)) == line
    ensures AfterHeader(name, header, headerEnd, later, created) == Exit(StatusReported(line))
  {
  }

  /** A response whose status is not 200 ends the run with its status line
      printed and no file, however the stream is split into reads. */
  lemma ReportsStatusLine(name: seq<byte>, version: seq<byte>, code: nat, reason: seq<byte>,
                          fields: seq<seq<byte>>, body: seq<byte>, chunks: seq<seq<byte>>,
                          created: bool)
    requires code != 200
    requires IsVersion(version) && IsReason(reason)
    requires forall i :: 0 <= i < |fields| ==> IsHeaderLine(fields[i])
    requires |HeaderBlock([StatusLine(version, code, reason)] + fields)| <= READ_SIZE
    requires WellFormedStream(chunks)
    requires Flatten(chunks) == HeaderBlock([StatusLine(version, code, reason)] + fields) + body
    ensures Respond(name, chunks, created) == Exit(StatusReported(StatusLine(version, code, reason)))
  {
    var lines := [StatusLine(version, code, reason)] + fields;
    var block := HeaderBlock(lines);
    StatusLineText(version, code, reason);
    FrameOfHeaderBlock(lines, body, chunks);
    var r := Frame(chunks);
    var extra := r.header[|block|..];
    assert r.header == block + extra;
    assert Respond(name, chunks, created) == AfterHeader(name, r.header, r.headerEnd, chunks[r.used..], created);
    AfterOtherStatus(name, version, code, reason, fields, extra, chunks[r.used..], created);
  }
}
