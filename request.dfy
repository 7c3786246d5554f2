/** The one request the client sends: a request line in the form of
    section 5.1 of RFC 1945 and a Host header with an explicit port, as in
    section 7.2 of RFC 9110, ended by an empty line. */
module Request {
  import opened ByteStrings
  import opened Numbers
  import opened CommandLine

  const GET: seq<byte> := Bytes("GET ")
  const VERSION_AND_HOST: seq<byte> := Bytes(" HTTP/1.0\r\nHost: ")

  /** `GET <path> HTTP/1.0\r\nHost: <host>:<port>\r\n\r\n`. */
  function FormatRequest(path: seq<byte>, host: seq<byte>, port: nat): seq<byte>
  {
    GET + path + VERSION_AND_HOST + host + [COLON] + Decimal(port) + DELIMITER
  }

  /** How a server reads the request back: the path runs from after "GET "
      to the next space, the port is the digits after the last ':' of the
      Host value. */
  function ParseRequest(req: seq<byte>): Option<Target>
  {
    if |req| < |GET| + |DELIMITER| || req[..|GET|] != GET
       || req[|req| - |DELIMITER|..] != DELIMITER then None
    else ParseLines(req[|GET|..|req| - |DELIMITER|])
  }

  /** The text between "GET " and the final empty line. */
  function ParseLines(line: seq<byte>): Option<Target>
  {
    match IndexOf(line, [SPACE])
    case None => None
    case Some(sp) =>
      var rest := line[sp..];
      if |rest| < |VERSION_AND_HOST| || rest[..|VERSION_AND_HOST|] != VERSION_AND_HOST then None
      else
        match ParseAuthority(rest[|VERSION_AND_HOST|..])
        case None => None
        case Some(hostPort) => Some(Target(hostPort.0, hostPort.1, line[..sp]))
  }

  /** The Host value: the host, then the port after the last ':'. */
  function ParseAuthority(authority: seq<byte>): Option<(seq<byte>, nat)>
  {
    match LastIndexOf(authority, COLON)
    case None => None
    case Some(c) =>
      var digits := authority[c + 1..];
      if digits == [] || !AllDigits(digits) then None
      else Some((authority[..c], DigitsValue(digits)))
  }

  /** The first space after a space-free path is the one right after it. */
  lemma SpaceAfterPath(path: seq<byte>, tail: seq<byte>)
    requires SPACE !in path && |tail| > 0 && tail[0] == SPACE
    ensures IndexOf(path + tail, [SPACE]) == Some(|path|)
  {
    var line := path + tail;
    assert line[|path|..|path| + 1] == [SPACE];
    forall j | 0 <= j < |path|
      ensures !OccursAt(line, [SPACE], j)
    {
      assert line[j] == path[j];
      assert path[j] in path;
    }
    IndexOfFirst(line, [SPACE], |path|);
  }

  /** The last ':' before a run of digits is the one right before it. */
  lemma ColonBeforeDigits(host: seq<byte>, d: seq<byte>)
    requires AllDigits(d)
    ensures LastIndexOf(host + [COLON] + d, COLON) == Some(|host|)
  {
    var authority := host + [COLON] + d;
    assert authority[|host| + 1..] == d;
    forall i | 0 <= i < |d|
      ensures d[i] != COLON
    {
      assert IsDigit(d[i]);
    }
    LastIndexOfLast(authority, COLON, |host|);
  }

  lemma ParseAuthorityOf(host: seq<byte>, port: nat)
    ensures ParseAuthority(host + [COLON] + Decimal(port)) == Some((host, port))
  {
    var d := Decimal(port);
    var authority := host + [COLON] + d;
    ColonBeforeDigits(host, d);
    assert authority[..|host|] == host;
    assert authority[|host| + 1..] == d;
    DecimalValue(port);
  }

  lemma ParseLinesOf(path: seq<byte>, host: seq<byte>, port: nat)
    requires SPACE !in path
    ensures ParseLines(path + (VERSION_AND_HOST + (host + [COLON] + Decimal(port))))
         == Some(Target(host, port, path))
  {
    var authority := host + [COLON] + Decimal(port);
    var line := path + (VERSION_AND_HOST + authority);
    assert VERSION_AND_HOST[0] == SPACE;
    SpaceAfterPath(path, VERSION_AND_HOST + authority);
    assert line[|path|..] == VERSION_AND_HOST + authority;
    assert line[..|path|] == path;
    assert (VERSION_AND_HOST + authority)[..|VERSION_AND_HOST|] == VERSION_AND_HOST;
    assert (VERSION_AND_HOST + authority)[|VERSION_AND_HOST|..] == authority;
    ParseAuthorityOf(host, port);
  }

  /** Every request the client formats for a path without spaces can be read
      back into the same path, host and port. */
  lemma ParseFormatRequest(path: seq<byte>, host: seq<byte>, port: nat)
    requires SPACE !in path
    ensures ParseRequest(FormatRequest(path, host, port)) == Some(Target(host, port, path))
  {
    var line := path + (VERSION_AND_HOST + (host + [COLON] + Decimal(port)));
    var req := FormatRequest(path, host, port);
    assert req == GET + line + DELIMITER;
    assert req[..|GET|] == GET;
    assert req[|req| - |DELIMITER|..] == DELIMITER;
    assert req[|GET|..|req| - |DELIMITER|] == line;
    ParseLinesOf(path, host, port);
  }
}
