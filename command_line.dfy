/** The command line `http_client <host> <port> <filepath>`: checking the
    arguments, and choosing the name of the file the download is saved to. */
module CommandLine {
  import opened ByteStrings
  import opened Numbers

  /** What one run fetches: host, port and request path, fixed at start-up. */
  datatype Target = Target(host: seq<byte>, port: int, path: seq<byte>)

  const MAX_PORT := 65535

  /** `atoi`: the scanned number, or 0 when the text does not start with one. */
  function Atoi(s: seq<byte>): int
  {
    match ScanInt(s)
    case Some(v) => v
    case None => 0
  }

  /** The argument check: exactly three arguments after the program name, a
      port in 1..65535 and a path starting with '/'. An empty path fails
      because its first C character is the NUL terminator. */
  function Validate(argv: seq<seq<byte>>): (r: Option<Target>)
    ensures r.Some? <==>
      |argv| == 4 && 0 < Atoi(argv[2]) <= MAX_PORT && |argv[3]| > 0 && argv[3][0] == SLASH
    ensures r.Some? ==> r.value == Target(argv[1], Atoi(argv[2]), argv[3])
    ensures |argv| == 4 && ScanInt(argv[2]).None? ==> r.None?
  {
    if |argv| != 4 then None
    else
      var port := Atoi(argv[2]);
      if port <= 0 || port > MAX_PORT || |argv[3]| == 0 || argv[3][0] != SLASH then None
      else Some(Target(argv[1], port, argv[3]))
  }

  /** A command line built from a target with a printed port is accepted
      and gives back that target. */
  lemma ValidateAcceptsPrintedPort(program: seq<byte>, host: seq<byte>, port: nat, path: seq<byte>)
    requires 0 < port <= MAX_PORT
    requires |path| > 0 && path[0] == SLASH
    ensures Validate([program, host, Decimal(port), path]) == Some(Target(host, port, path))
  {
    ScanDecimal([], false, port, []);
    assert [] + [] + Decimal(port) + [] == Decimal(port);
  }

  const INDEX_HTML: seq<byte> := Bytes("index.html")

  /** The name of the output file: the part of the path after its last '/',
      or "index.html" when that part is empty or the path has no '/'. */
  function FileName(path: seq<byte>): (r: seq<byte>)
    ensures r != []
    ensures SLASH !in path ==> r == INDEX_HTML
    ensures path != [] && path[|path| - 1] == SLASH ==> r == INDEX_HTML
    ensures SLASH in path && path[|path| - 1] != SLASH ==>
      && |r| < |path|
      && r == path[|path| - |r|..]
      && path[|path| - |r| - 1] == SLASH
      && SLASH !in r
  {
    if path == [SLASH] then INDEX_HTML
    else
      match LastIndexOf(path, SLASH)
      case None => INDEX_HTML
      case Some(k) => if k + 1 < |path| then path[k + 1..] else INDEX_HTML
  }
}
