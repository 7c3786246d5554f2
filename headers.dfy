/** The two things the client reads from the header text: the status code of
    the status line (section 6.1 of RFC 1945) and the Content-Length value
    (section 10.4 of RFC 1945). Both are found the way `sscanf` and `strstr`
    find them in the C string of the accumulator. */
module Headers {
  import opened ByteStrings
  import opened Numbers

  const HTTP_SLASH: seq<byte> := Bytes("HTTP/")
  const LENGTH_TOKEN: seq<byte> := Bytes("Content-Length:")

  predicate NotSpace(b: byte) { !IsSpace(b) }

  /** A word as `%s` reads it: bytes that are not white space. */
  predicate IsWord(w: seq<byte>) { w != [] && forall i :: 0 <= i < |w| ==> NotSpace(w[i]) }

  /** `sscanf(text, "HTTP/%*s %d", &status_code)`: the literal "HTTP/", then a
      word (after optional white space), then a number (after optional white
      space); None when the scan does not convert the number. */
  function ParseStatus(text: seq<byte>): (r: Option<int>)
    ensures r.Some? ==> HTTP_SLASH <= text
  {
    if HTTP_SLASH <= text then ScanVersionAndCode(text[|HTTP_SLASH|..]) else None
  }

  /** The part of the scan after "HTTP/": `%*s %d`. */
  function ScanVersionAndCode(rest: seq<byte>): Option<int>
  {
    var word := rest[Span(rest, IsSpace)..];
    var n := Span(word, NotSpace);
    if n == 0 then None else ScanInt(word[n..])
  }

  /** `HTTP/<version> <code> <reason>`, the status line of section 6.1 of RFC 1945. */
  function StatusLine(version: seq<byte>, code: nat, reason: seq<byte>): seq<byte>
  {
    HTTP_SLASH + version + [SPACE] + Decimal(code) + [SPACE] + reason
  }

  /** A version word followed by white space scans to what follows it. */
  lemma ScanAfterVersion(version: seq<byte>, after: seq<byte>)
    requires IsWord(version)
    requires |after| > 0 && IsSpace(after[0])
    ensures ScanVersionAndCode(version + after) == ScanInt(after)
  {
    var tail := version + after;
    SpanOf(tail, IsSpace, 0);
    SpanOf(tail, NotSpace, |version|);
    assert tail[|version|..] == after;
  }

  /** A well-formed status line, whatever follows it, scans to its code. */
  lemma ParseStatusLine(version: seq<byte>, code: nat, reason: seq<byte>, rest: seq<byte>)
    requires IsWord(version)
    ensures ParseStatus(StatusLine(version, code, reason) + rest) == Some(code)
  {
    var after := [SPACE] + reason + rest;
    var text := StatusLine(version, code, reason) + rest;
    assert text == HTTP_SLASH + (version + ([SPACE] + [] + Decimal(code) + after));
    assert text[|HTTP_SLASH|..] == version + ([SPACE] + [] + Decimal(code) + after);
    ScanAfterVersion(version, [SPACE] + [] + Decimal(code) + after);
    ScanDecimal([SPACE], false, code, after);
  }

  /** Text that the status scan reads: "HTTP/", white space, a word, then
      white space before whatever the number scan reads. */
  predicate StatusText(ws: seq<byte>, word: seq<byte>, after: seq<byte>)
  {
    AllSpace(ws) && IsWord(word) && after != [] && IsSpace(after[0])
  }

  /** Text of that shape scans to what `ScanInt` reads after the word. */
  lemma ParseStatusOf(ws: seq<byte>, word: seq<byte>, after: seq<byte>)
    requires StatusText(ws, word, after)
    ensures ParseStatus(HTTP_SLASH + (ws + (word + after))) == ScanInt(after)
  {
    var text := HTTP_SLASH + (ws + (word + after));
    var rest := ws + (word + after);
    assert text[|HTTP_SLASH|..] == rest;
    SpanOf(rest, IsSpace, |ws|);
    assert rest[|ws|..] == word + after;
    ScanAfterVersion(word, after);
  }

  /** The parts the status scan reads in text after "HTTP/": white space,
      the longest word after it, and the rest; the scan converts the number
      in the rest when the word is not empty. */
  lemma VersionParts(rest: seq<byte>) returns (ws: seq<byte>, word: seq<byte>, after: seq<byte>)
    ensures rest == ws + (word + after) && AllSpace(ws)
    ensures forall i :: 0 <= i < |word| ==> NotSpace(word[i])
    ensures after == [] || IsSpace(after[0])
    ensures ScanVersionAndCode(rest) == if word == [] then None else ScanInt(after)
  {
    var i := Span(rest, IsSpace);
    var w := rest[i..];
    var n := Span(w, NotSpace);
    ws, word, after := rest[..i], w[..n], w[n..];
    assert w == word + after;
  }

  /** A status code is found only in text of that shape, and it is the
      number read after the word. */
  lemma ParseStatusShape(text: seq<byte>)
    requires ParseStatus(text).Some?
    ensures exists ws, word, after {:trigger StatusText(ws, word, after)} ::
      text == HTTP_SLASH + (ws + (word + after)) && StatusText(ws, word, after)
      && ScanInt(after) == ParseStatus(text)
  {
    var rest := text[|HTTP_SLASH|..];
    assert text == HTTP_SLASH + rest;
    var ws, word, after := VersionParts(rest);
    assert after != [] by {
      NothingInEmpty();
    }
    assert StatusText(ws, word, after);
    ParseStatusOf(ws, word, after);
  }

  /** The text before the first CR LF, as `main` prints it for a status other than 200. */
  function FirstLine(text: seq<byte>): (r: seq<byte>)
    ensures r <= text
    ensures forall j :: !OccursAt(r, CRLF, j)
    ensures |r| < |text| ==> OccursAt(text, CRLF, |r|)
  {
    match IndexOf(text, CRLF)
    case None => text
    case Some(k) =>
      assert forall j :: OccursAt(text[..k], CRLF, j) ==> OccursAt(text, CRLF, j) by {
        forall j | OccursAt(text[..k], CRLF, j) ensures OccursAt(text, CRLF, j) {
          OccursInExtension(text[..k], text, CRLF, j);
        }
      }
      text[..k]
  }

  /** The value of the first "Content-Length:" in the text: None when there
      is none, and -1 (the initial value of `content_length`) when no number
      follows it. */
  function ContentLength(text: seq<byte>): (r: Option<int>)
    ensures r.None? <==> forall j :: !OccursAt(text, LENGTH_TOKEN, j)
  {
    match IndexOf(text, LENGTH_TOKEN)
    case None => None
    case Some(i) =>
      match ScanInt(text[i + |LENGTH_TOKEN|..])
      case Some(v) => Some(v)
      case None => Some(-1)
  }

  /** `Content-Length: <n>`. */
  function LengthField(n: nat): seq<byte>
  {
    LENGTH_TOKEN + [SPACE] + Decimal(n)
  }

  /** A "Content-Length:" placed after text that holds none is the first one:
      no occurrence can start inside pre and run into it, because the token's
      only ':' is its last byte. */
  lemma TokenAfter(pre: seq<byte>, tail: seq<byte>)
    requires forall j :: !OccursAt(pre, LENGTH_TOKEN, j)
    ensures IndexOf(pre + LENGTH_TOKEN + tail, LENGTH_TOKEN) == Some(|pre|)
  {
    var s := pre + LENGTH_TOKEN + tail;
    var t := |LENGTH_TOKEN|;
    assert s[|pre|..|pre| + t] == LENGTH_TOKEN;
    assert forall m :: 0 <= m < t - 1 ==> LENGTH_TOKEN[m] != COLON;
    forall j | 0 <= j < |pre|
      ensures !OccursAt(s, LENGTH_TOKEN, j)
    {
      if j + t <= |pre| {
        assert s[j..j + t] == pre[j..j + t];
        assert !OccursAt(pre, LENGTH_TOKEN, j);
        assert !OccursAt(s, LENGTH_TOKEN, j);
      } else {
        assert LENGTH_TOKEN[t - 1] == COLON;
        assert s[j + t - 1] == LENGTH_TOKEN[j + t - 1 - |pre|] != COLON;
        assert s[j..j + t][t - 1] == s[j + t - 1];
        assert s[j..j + t] != LENGTH_TOKEN;
        assert !OccursAt(s, LENGTH_TOKEN, j);
      }
    }
    IndexOfFirst(s, LENGTH_TOKEN, |pre|);
  }

  /** A "Content-Length:" after text without one, followed by white space
      (possibly none), an optional minus sign and a number that the rest does
      not continue, gives that signed number. */
  lemma ContentLengthOfField(pre: seq<byte>, space: seq<byte>, negative: bool, n: nat, rest: seq<byte>)
    requires forall j :: !OccursAt(pre, LENGTH_TOKEN, j)
    requires AllSpace(space)
    requires rest == [] || !IsDigit(rest[0])
    ensures ContentLength(pre + LENGTH_TOKEN + (space + (if negative then [MINUS] else []) + Decimal(n) + rest))
         == if negative then Some(-(n as int)) else Some(n as int)
  {
    var tail := space + (if negative then [MINUS] else []) + Decimal(n) + rest;
    TokenAfter(pre, tail);
    assert (pre + LENGTH_TOKEN + tail)[|pre| + |LENGTH_TOKEN|..] == tail;
    ScanDecimal(space, negative, n, rest);
  }

  /** A "Content-Length:" with no number after it leaves the length at -1. */
  lemma ContentLengthUnparsable(pre: seq<byte>, rest: seq<byte>)
    requires forall j :: !OccursAt(pre, LENGTH_TOKEN, j)
    requires ScanInt(rest) == None
    ensures ContentLength(pre + LENGTH_TOKEN + rest) == Some(-1)
  {
    TokenAfter(pre, rest);
    assert (pre + LENGTH_TOKEN + rest)[|pre| + |LENGTH_TOKEN|..] == rest;
  }

  /** One header line: not empty, and free of CR and NUL. */
  predicate IsHeaderLine(line: seq<byte>)
  {
    |line| > 0 && CR !in line && NUL !in line
  }

  /** Each line followed by CR LF. */
  function Lines(lines: seq<seq<byte>>): seq<byte>
  {
    if lines == [] then [] else lines[0] + CRLF + Lines(lines[1..])
  }

  /** A header block: its lines, then the empty line. */
  function HeaderBlock(lines: seq<seq<byte>>): seq<byte>
  {
    Lines(lines) + CRLF
  }

  /** Header lines hold no NUL, so C strings of a buffer starting with them
      keep them whole. */
  lemma {:induction false} LinesWithoutNul(lines: seq<seq<byte>>)
    requires forall i :: 0 <= i < |lines| ==> IsHeaderLine(lines[i])
    ensures NUL !in Lines(lines)
  {
    if lines != [] {
      LinesWithoutNul(lines[1..]);
      assert IsHeaderLine(lines[0]);
    }
  }

  /** Non-empty CR-free lines never hold CR LF CR LF before their last CR LF. */
  lemma {:induction false} NoEarlyDelimiter(lines: seq<seq<byte>>, rest: seq<byte>)
    requires forall i :: 0 <= i < |lines| ==> IsHeaderLine(lines[i])
    ensures forall j :: 0 <= j < |Lines(lines)| - 2 ==> !OccursAt(Lines(lines) + rest, DELIMITER, j)
  {
    if lines != [] {
      var first := lines[0];
      var later := Lines(lines[1..]);
      var s := Lines(lines) + rest;
      assert IsHeaderLine(first);
      assert s == first + CRLF + (later + rest);
      NoEarlyDelimiter(lines[1..], rest);
      forall j | 0 <= j < |Lines(lines)| - 2
        ensures !OccursAt(s, DELIMITER, j)
      {
        if j < |first| {
          assert s[j] == first[j] && first[j] in first;
          assert j + 4 <= |s| ==> s[j..j + 4][0] == s[j];
        } else if j == |first| {
          assert lines[1..] != [];
          assert IsHeaderLine(lines[1]) && lines[1][0] in lines[1];
          assert s[j + 2] == later[0] == lines[1][0];
          assert j + 4 <= |s| ==> s[j..j + 4][2] == s[j + 2];
        } else if j == |first| + 1 {
          assert s[j] == LF;
          assert j + 4 <= |s| ==> s[j..j + 4][0] == s[j];
        } else {
          var k := j - |first| - 2;
          assert s[j..] == (later + rest)[k..];
          assert !OccursAt(later + rest, DELIMITER, k);
          assert j + 4 <= |s| ==> s[j..j + 4] == (later + rest)[k..k + 4];
        }
      }
    }
  }

  /** In a header block built from header lines, the first CR LF CR LF is the
      one that ends it, whatever follows the block. */
  lemma DelimiterEndsBlock(lines: seq<seq<byte>>, rest: seq<byte>)
    requires lines != [] && forall i :: 0 <= i < |lines| ==> IsHeaderLine(lines[i])
    ensures IndexOf(HeaderBlock(lines) + rest, DELIMITER) == Some(|HeaderBlock(lines)| - |DELIMITER|)
  {
    NoEarlyDelimiter(lines, CRLF + rest);
    LastLineEnd(lines);
    DelimiterAfterLines(Lines(lines), rest);
  }

  /** Text ending in CR LF and then followed by CR LF has the delimiter where
      the two meet, and it is the first one when none occurs earlier. */
  lemma DelimiterAfterLines(text: seq<byte>, rest: seq<byte>)
    requires |text| >= 2 && text[|text| - 2..] == CRLF
    requires forall j :: 0 <= j < |text| - 2 ==> !OccursAt(text + (CRLF + rest), DELIMITER, j)
    ensures IndexOf(text + CRLF + rest, DELIMITER) == Some(|text| - 2)
  {
    var s := text + CRLF + rest;
    var n := |text|;
    assert s == text + (CRLF + rest);
    assert s[n - 2..n + 2] == DELIMITER by {
      assert s[n - 2] == text[n - 2] && s[n - 1] == text[n - 1];
    }
    IndexOfFirst(s, DELIMITER, n - 2);
  }

  /** Lines end with CR LF. */
  lemma {:induction false} LastLineEnd(lines: seq<seq<byte>>)
    requires lines != []
    ensures |Lines(lines)| >= 2 && Lines(lines)[|Lines(lines)| - 2..] == CRLF
  {
    if lines[1..] != [] {
      LastLineEnd(lines[1..]);
    }
  }

  /** A line without CR, followed by CR LF, is the first line whatever follows. */
  lemma FirstLineOf(line: seq<byte>, rest: seq<byte>)
    requires CR !in line
    ensures FirstLine(line + (CRLF + rest)) == line
  {
    var text := line + (CRLF + rest);
    assert text[|line|..|line| + 2] == CRLF;
    forall j | 0 <= j < |line|
      ensures !OccursAt(text, CRLF, j)
    {
      assert text[j] == line[j] && line[j] in line;
      assert j + 2 <= |text| ==> text[j..j + 2][0] == text[j];
    }
    IndexOfFirst(text, CRLF, |line|);
  }

  /** Text without ':' holds no "Content-Length:". */
  lemma NoTokenWithoutColon(text: seq<byte>)
    requires COLON !in text
    ensures forall j :: !OccursAt(text, LENGTH_TOKEN, j)
  {
    var t := |LENGTH_TOKEN|;
    assert LENGTH_TOKEN[t - 1] == COLON;
    forall j
      ensures !OccursAt(text, LENGTH_TOKEN, j)
    {
      if 0 <= j && j + t <= |text| {
        assert text[j + t - 1] in text;
        assert text[j..j + t][t - 1] == text[j + t - 1];
      }
    }
  }
  /** "Content-Length:" holds no LF, so no occurrence runs over the end of
      a line: a line end joining two texts without the token leaves none. */
  lemma NoTokenAcrossLine(a: seq<byte>, b: seq<byte>)
    requires |a| > 0 && a[|a| - 1] == LF
    requires forall j :: !OccursAt(a, LENGTH_TOKEN, j)
    requires forall j :: !OccursAt(b, LENGTH_TOKEN, j)
    ensures forall j :: !OccursAt(a + b, LENGTH_TOKEN, j)
  {
    var s := a + b;
    var t := |LENGTH_TOKEN|;
    forall j | 0 <= j && j + t <= |s|
      ensures !OccursAt(s, LENGTH_TOKEN, j)
    {
      if j + t <= |a| {
        assert s[j..j + t] == a[j..j + t];
        assert !OccursAt(a, LENGTH_TOKEN, j);
      } else if j >= |a| {
        assert s[j..j + t] == b[j - |a|..j - |a| + t];
        assert !OccursAt(b, LENGTH_TOKEN, j - |a|);
      } else {
        assert s[j..j + t][|a| - 1 - j] == LF;
        assert LENGTH_TOKEN[|a| - 1 - j] != LF;
      }
    }
  }

  /** An occurrence that reached into text without ':' would end there on
      its ':', so appending such text to text without the token leaves none. */
  lemma NoTokenBeforeColonFree(a: seq<byte>, b: seq<byte>)
    requires forall j :: !OccursAt(a, LENGTH_TOKEN, j)
    requires COLON !in b
    ensures forall j :: !OccursAt(a + b, LENGTH_TOKEN, j)
  {
    var s := a + b;
    var t := |LENGTH_TOKEN|;
    assert LENGTH_TOKEN[t - 1] == COLON;
    forall j | 0 <= j && j + t <= |s|
      ensures !OccursAt(s, LENGTH_TOKEN, j)
    {
      if j + t <= |a| {
        assert s[j..j + t] == a[j..j + t];
        assert !OccursAt(a, LENGTH_TOKEN, j);
      } else {
        assert s[j + t - 1] == b[j + t - 1 - |a|];
        assert b[j + t - 1 - |a|] in b;
        assert s[j..j + t][t - 1] == s[j + t - 1];
      }
    }
  }

  /** The text of two runs of lines is the text of the first, then of the second. */
  lemma {:induction false} LinesAppend(a: seq<seq<byte>>, b: seq<seq<byte>>)
    ensures Lines(a + b) == Lines(a) + Lines(b)
  {
    if a == [] {
      assert a + b == b;
    } else {
      assert (a + b)[0] == a[0] && (a + b)[1..] == a[1..] + b;
      LinesAppend(a[1..], b);
    }
  }


  /** A header block holds no NUL. */
  lemma BlockWithoutNul(lines: seq<seq<byte>>)
    requires forall i :: 0 <= i < |lines| ==> IsHeaderLine(lines[i])
    ensures NUL !in HeaderBlock(lines)
  {
    LinesWithoutNul(lines);
    assert NUL !in CRLF;
  }

  /** What `strstr` and `sscanf` see of an accumulator that starts with a
      header block: the whole block, then whatever follows it up to its
      first NUL. */
  lemma BlockText(lines: seq<seq<byte>>, extra: seq<byte>)
    requires forall i :: 0 <= i < |lines| ==> IsHeaderLine(lines[i])
    ensures CString(HeaderBlock(lines) + extra) == HeaderBlock(lines) + CString(extra)
  {
    BlockWithoutNul(lines);
    CStringAppend(HeaderBlock(lines), extra);
  }

  /** A header block is its first line, CR LF, and the block of the others. */
  lemma BlockFirstLine(lines: seq<seq<byte>>, extra: seq<byte>)
    requires lines != []
    ensures HeaderBlock(lines) + extra == lines[0] + CRLF + (HeaderBlock(lines[1..]) + extra)
  {
    var first, later := lines[0], Lines(lines[1..]);
    assert Lines(lines) == first + CRLF + later;
    assert (first + CRLF + later) + CRLF + extra == first + CRLF + (later + CRLF + extra);
  }

  /** What `strstr` and `sscanf` see of an accumulator starting with the
      block of a first line and further lines: that line, CR LF, the block
      of the others, then whatever follows up to the first NUL. */
  lemma FirstLineText(line: seq<byte>, lines: seq<seq<byte>>, extra: seq<byte>)
    requires IsHeaderLine(line) && forall i :: 0 <= i < |lines| ==> IsHeaderLine(lines[i])
    ensures CString(HeaderBlock([line] + lines) + extra)
         == line + (CRLF + (HeaderBlock(lines) + CString(extra)))
  {
    var all := [line] + lines;
    assert forall i :: 0 <= i < |all| ==> IsHeaderLine(all[i]);
    BlockText(all, extra);
    assert all[0] == line && all[1..] == lines;
    BlockFirstLine(all, CString(extra));
    var rest := HeaderBlock(lines) + CString(extra);
    assert line + CRLF + rest == line + (CRLF + rest);
  }
}
