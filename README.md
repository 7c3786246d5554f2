# http_client, modelled in Dafny

`http_client <host> <port> <filepath>` downloads one file over HTTP/1.0. Its
whole body is `main` in `http_client/http_client.c`. This project models that
function stage by stage:

- **Argument check** (`CommandLine.Validate`): exactly three arguments, a port
  in 1..65535 as `atoi` reads it, and a path starting with `/`.
- **Output file name** (`CommandLine.FileName`): the part of the path after its
  last `/`, or `index.html`.
- **Request** (`Request.FormatRequest`):
  `GET <path> HTTP/1.0\r\nHost: <host>:<port>\r\n\r\n`, the request line of
  section 5.1 of RFC 1945 plus a Host header.
- **Header loop** (`Framing.ReadHeader`, specified by `Framing.Frame`): chunks
  from the socket are copied into the 8192-byte `header_buffer`, with a NUL
  written after them. This repeats until `strstr` finds the CR LF CR LF that ends
  the header block (section 4.1 of RFC 1945). It fails when a chunk would fill
  the buffer or the stream ends first.
- **Status and length** (`Headers.ParseStatus`, `Headers.ContentLength`):
  - `sscanf(buf, "HTTP/%*s %d")`;
  - the first `Content-Length:` found by `strstr`, then `%ld`, where -1 stays
    when no number follows.
- **Body** (`Client.SaveBody`, `Body.WriteAll`, `Body.TransferBody`, specified
  by `Client.Payload` and `Body.Stream`):
  - the bytes read along with the header after the delimiter (the *preread*)
    are written first;
  - then chunk after chunk is read, each cut to the bytes still expected,
    until none are expected or the stream ends;
  - every write is retried until the file has taken it all, and a write that
    takes nothing is an error.
- **The whole run** (`Client.Run`, specified by `Client.Session`): every way
  `main` can end is an `Outcome`, and `Client.ExitStatus` gives its exit code.

The state `main` changes is kept in two classes:

- The socket is a `Channels.Connection`. Its `pending` field holds the chunks
  that later `read` calls return, each 1..4096 bytes long. The end of the
  sequence stands for the `read` that returns 0 or less.
- The output file is a `Channels.OutputFile` whose `contents` grow with each
  `fwrite`. `OutputFile.Write` may take any leading part of the bytes, none
  included.
- `header_buffer` is an `array<byte>` that `ReadHeader` fills in place.

Text is `seq<byte>`. `strstr` and `sscanf` see the C string of the buffer,
its bytes up to the first NUL (`ByteStrings.CString`). So a NUL inside a
response is handled as the C code handles it, not assumed away.

Behaviour of the code that the model keeps, and states as lemmas:

- The preread is written whole even when it is longer than the Content-Length.
  A server that sends more than it announced can therefore get more bytes
  saved than announced, depending on how the reads split the stream
  (`Client.PayloadIsBodyPrefix`).
- `Content-Length:` is searched for in the whole C string of the accumulator.
  That includes any body bytes read with the header: a status-200 header
  without a length field, read together with body bytes that start with one,
  is saved with that length (`Client.LengthInPreread`).
- A body shorter than its Content-Length is saved as it came, with exit 0,
  when the header block fits in one read (`Client.RespondSavesBody`).

## Model

| member | source | states |
|---|---|---|
| CommandLine.Atoi | http_client/http_client.c:28 | `atoi`: the number ScanInt reads, or 0 when there is none; the row of Validate states what this means for the port check |
| CommandLine.Validate | http_client/http_client.c:20-35 | the arguments are accepted exactly when there are three of them, `atoi` of the port is in 1..65535 and the path is non-empty and starts with '/'; the accepted target is host, port and path; a port with no number is rejected |
| CommandLine.ValidateAcceptsPrintedPort | http_client/http_client.c:27-35 | a command line whose port is a printed number in range and whose path starts with '/' is accepted with exactly that host, port and path |
| CommandLine.FileName | http_client/http_client.c:37-58 | the name is never empty; it is index.html for a path without '/' or ending in '/' (so for "/"); otherwise it is the non-empty suffix after the last '/', holds no '/' and is preceded by '/' |
| Request.FormatRequest | http_client/http_client.c:94-95 | the request text; ParseFormatRequest states that path, host and port read back from it |
| Request.ParseFormatRequest | http_client/http_client.c:94-95 | reading the formatted request back as a server does (path up to the first space, port after the last ':' of the Host value) gives the same path, host and port, for any path without a space |
| Numbers.ScanInt | http_client/http_client.c:28 | the conversion `atoi`, `%d` and `%ld` share; ScanIntShape and ScanIntOfParts state which texts it converts and to what |
| Numbers.ScanIntShape | http_client/http_client.c:147 | whenever the scan converts a number, the text is white space, an optional sign, a run of digits that the rest does not continue, and the result is the signed value of those digits |
| Numbers.ScanIntOfParts | http_client/http_client.c:147 | conversely, every text of that shape converts to the signed value of its digits |
| Numbers.DecimalValue | http_client/http_client.c:95 | the digits `%d` prints for a number read back to that number |
| Numbers.ScanDecimal | http_client/http_client.c:28 | `atoi`/`%d`/`%ld` read white space, an optional '-', a printed number and anything not a digit back to the signed number |
| Channels.Connection.Send | http_client/http_client.c:97 | the request is appended to what the socket has sent |
| Channels.Connection.Read | http_client/http_client.c:106 | a read returns the next pending chunk and removes it, or no bytes once the stream has ended |
| Channels.OutputFile.Write | http_client/http_client.c:167 | a write appends some leading part of the bytes, possibly none, and returns its length |
| Framing.FrameFrom | http_client/http_client.c:108-123 | the header loop from a given chunk on; when framed, at least one more chunk was read and the accumulator stays under 8192 bytes with the delimiter inside it |
| Framing.Frame | http_client/http_client.c:102-128 | the header loop over the whole stream; specified by FrameSucceeds, FrameEndOfStream and the ensures of ReadHeader |
| Framing.ReadHeader | http_client/http_client.c:102-128 | the header loop over the socket and the array buffer ends with exactly the result of Frame on the chunks; when framed, the buffer holds the accumulated header and the socket holds the chunks not read |
| Framing.Append | http_client/http_client.c:113-115 | the buffer holds the old accumulator followed by the new chunk, and a NUL after them |
| Framing.FrameSucceeds | http_client/http_client.c:108-123 | framing succeeds iff some prefix of the chunks stays under 8192 bytes and shows the delimiter; it then stops at the first such chunk, its accumulator is exactly the chunks read, and headerEnd is just past the first delimiter |
| Framing.FrameEndOfStream | http_client/http_client.c:108-128 | framing fails at the end of the stream iff the whole stream stays under 8192 bytes and never shows the delimiter; every other failure is an overflow |
| Framing.FrameOfResponse | http_client/http_client.c:102-128 | a NUL-free header block of at most 4096 bytes ending with its first delimiter is framed at its end however the stream is split into reads, and the accumulator followed by the unread chunks is the whole response |
| ByteStrings.CString | http_client/http_client.c:115-117 | the C string of the buffer, which is what `strstr` and `sscanf` see: a prefix without NUL, ended by the first NUL if any |
| ByteStrings.IndexOf | http_client/http_client.c:117 | `strstr`: the first place the pattern occurs, or none when it occurs nowhere |
| ByteStrings.LastIndexOf | http_client/http_client.c:45 | `strrchr`: the last place the byte occurs, or none when it does not occur |
| Framing.FramedStream | http_client/http_client.c:113-114 | after a successful header loop the stream is the accumulator followed by what the socket still holds |
| Headers.ParseStatus | http_client/http_client.c:131 | a status code is only found in text that starts with "HTTP/"; ParseStatusShape and ParseStatusOf state the whole shape |
| Headers.ParseStatusShape | http_client/http_client.c:131 | whenever a status code is found, the text is "HTTP/", white space, a non-empty word of bytes that are not white space, then white space, and the code is the number ScanInt reads there |
| Headers.ParseStatusOf | http_client/http_client.c:131 | conversely, text of that shape gives exactly the number ScanInt reads after the word, and none when it reads none |
| Headers.ParseStatusLine | http_client/http_client.c:130-134 | a status line `HTTP/<version> <code> <reason>` scans to its code whatever follows it |
| Headers.FirstLine | http_client/http_client.c:136-138 | the printed line is a prefix of the text with no CR LF in it, and it ends where the text's first CR LF starts |
| Headers.ContentLength | http_client/http_client.c:143-154 | no length is found iff the text holds no "Content-Length:" |
| Headers.ContentLengthOfField | http_client/http_client.c:143-148 | a "Content-Length:" after text without the token, followed by any white space (none included), an optional '-' and a number that a non-digit ends, gives that signed number |
| Headers.ContentLengthUnparsable | http_client/http_client.c:143-148 | a "Content-Length:" not followed by a number leaves the length at -1 |
| Headers.DelimiterEndsBlock | http_client/http_client.c:117 | in a header block of non-empty CR-free lines, the first CR LF CR LF is the one that ends the block, whatever follows |
| Headers.FirstLineOf | http_client/http_client.c:136-137 | a CR-free line followed by CR LF is the first line whatever follows |
| Body.Stream | http_client/http_client.c:179-203 | what the body loop writes from the later chunks; StreamIsPrefix, StreamLength and StreamIgnoresChunking state what it is |
| Body.StreamIsPrefix | http_client/http_client.c:179-203 | the body loop writes the first `remaining` bytes of the rest of the stream, or all of it when the stream ends first, and nothing when `remaining` is not positive |
| Body.StreamLength | http_client/http_client.c:185-188 | the body loop writes at most max(0, remaining) bytes |
| Body.StreamIgnoresChunking | http_client/http_client.c:179-203 | what the body loop writes depends on the bytes of the stream, not on how the reads split them |
| Body.WriteAll | http_client/http_client.c:164-176 | the write loop either appends all the data to the file or stops with the file extended by a proper prefix of the data |
| Body.TransferBody | http_client/http_client.c:177-203 | the body loop appends exactly Stream of the pending chunks, or, when a write takes nothing, a proper prefix of it |
| Client.Session | http_client/http_client.c:18-207 | the plan of `main` from its inputs; SessionResponds, RespondSaves, SavedIsBodyPrefix, DownloadsBody and ReportsStatusLine state its properties, and Run's ensures ties `main` to it |
| Client.Respond | http_client/http_client.c:102-207 | the plan once the request is out; RespondSaves and RespondSavesBody state when and what it saves |
| Client.AfterHeader | http_client/http_client.c:130-207 | the plan after framing, checking status, then Content-Length, then file creation; AfterOkHeader and AfterOtherStatus state its two main cases |
| Client.Payload | http_client/http_client.c:162-203 | the saved bytes; PayloadIsPrefix and PayloadIsBodyPrefix state what they are |
| Client.ExitStatus | http_client/http_client.c:22-207 | the exit code of each outcome: 0 for a printed status and a completed download, 1 otherwise; ExitStatusOfSession and Run's ensures state when each occurs |
| Client.ExitStatusOfRespond | http_client/http_client.c:125-141 | once the request is out, a run that stops without saving exits 0 exactly when the header was framed and its status code was read and is not 200 |
| Client.ExitStatusOfSession | http_client/http_client.c:20-141 | a whole run that stops without saving exits 0 exactly when the arguments were valid, the request went out and the response had a status code other than 200 |
| Client.Run | http_client/http_client.c:18-207 | `main`: every outcome and the file it leaves are those Session plans from the arguments, network results, response stream and file creation; the socket has sent exactly the formatted request when the arguments were valid and the network worked; a run that saves exits 0 exactly when the file holds the whole payload |
| Client.Download | http_client/http_client.c:102-207 | from the header loop on, the outcome and file are those Respond plans for the pending chunks |
| Client.HandleHeader | http_client/http_client.c:130-207 | after framing, the outcome and file are those AfterHeader plans: protocol error, printed status line, missing length or creation failure with no file, or the saved payload |
| Client.SaveBody | http_client/http_client.c:156-203 | a fresh file with the given name ends holding the payload (completed) or a proper prefix of it (write error) |
| Client.SessionResponds | http_client/http_client.c:20-100 | a run goes on to the response exactly when the arguments are valid and the network worked, saving under the name derived from the path; otherwise it stops |
| Client.RespondSaves | http_client/http_client.c:125-160 | a run past the request saves a file iff the header was framed, its status is 200, it has a Content-Length and the file could be created, and it saves under the given name |
| Client.PayloadIsPrefix | http_client/http_client.c:162-203 | the saved bytes are the whole preread followed by the first max(0, length - preread) bytes of the later stream, or fewer when it ends; after the preread at most max(0, length - preread) bytes are written |
| Client.PayloadIsBodyPrefix | http_client/http_client.c:162-203 | the saved bytes are the first max(preread, min(body size, length)) bytes of everything after the delimiter |
| Client.SavedIsBodyPrefix | http_client/http_client.c:102-203 | when a run saves, the file is that prefix of the bytes the stream carried after the header delimiter |
| Client.FrameOfHeaderBlock | http_client/http_client.c:102-128 | a response whose header block is made of header lines and fits in one read is framed at the block's end whatever the chunking |
| Client.AfterOkHeader | http_client/http_client.c:130-160 | an accumulator starting with a status-200 header block is answered by saving its payload with the length of its Content-Length field, wherever that field stands among the other fields as long as no field before it holds "Content-Length:", whatever follows the block |
| Client.LengthInPreread | http_client/http_client.c:143-160 | a status-200 header block without "Content-Length:", read together with body bytes that start with a length field, has that length and is answered by saving its payload with it |
| Client.RespondSavesBody | http_client/http_client.c:102-203 | a well-formed status-200 response whose header block fits in one read (at most 4096 bytes), whose Content-Length field is the first field holding "Content-Length:" wherever it stands, and whose body is no longer than that length is saved whole, however the stream is split into reads |
| Client.DownloadsBody | http_client/http_client.c:18-207 | a whole run with a valid command line, a working network and such a response (header block fitting in one read of at most 4096 bytes) saves the body under the last segment of the path |
| Client.AfterOtherStatus | http_client/http_client.c:135-141 | an accumulator starting with a status line whose code is not 200 is answered by printing that status line, with no file |
| Client.ReportsStatusLine | http_client/http_client.c:102-141 | a response with a status other than 200 whose header block fits in one read (at most 4096 bytes) ends the run with its status line printed and no file, however the stream is split into reads |

## Left out

- Host resolution, `socket` and `connect` (lines 65-90) are one boolean parameter, `connected`. The success of `send` is another, `sent`. The address itself is not modelled.
- Channels.Connection.Send: `send` is taken to send the whole request or fail; a partial send is not modelled.
- Request.FormatRequest: the `snprintf` truncation at 1024 bytes is not modelled. The request is the whole formatted text, so a longer request, which the C code would over-read, is not covered.
- Numbers.ScanInt: `atoi`, `%d` and `%ld` are modelled on unbounded integers. Overflow of `int` and `long`, which is undefined or saturating in C, is not modelled. The same holds for the `int` counters `header_length`, `written` and `bytes_read`.
- Command-line arguments are taken to hold no NUL, since a C argument cannot.
- The text printed with `printf` and `fprintf` is not modelled beyond the status line carried by `StatusReported`. Nor are the messages of the usage and missing-length cases.
- Opening the output file (lines 156-160) is one boolean parameter, `created`, standing for `fopen` succeeding. Why it fails (permissions, a missing directory, a name that is not a file) is not modelled.
- `close` and `fclose` (lines 88-206) are not modelled. A file created before a write error is returned with the bytes written so far.
- A `read` that fails (returns -1) is not told apart from the end of the stream. Both end the chunk sequence, as both end the C loops the same way.
- Channels.OutputFile.Write: `fwrite` may take any leading part of the data. A write returning a negative count is not told apart from one that took nothing, as the C code treats both as failure.
