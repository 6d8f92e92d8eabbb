# A verified model of a toy HTTP/1.0 file server

The server (`final.cpp`) accepts TCP connections. On each one it reads until
the first `\r\n\r\n`, extracts a path from the request with `ParseHttpUrl`,
and refuses an empty path or one containing `..` with `400 Bad Request`.
Otherwise it opens `root + path`. It answers `404 Not Found` when the file
cannot be opened or its size reads as the largest `std::streamoff`, and
`200 OK` with the file's bytes otherwise. The command line `-h <ip> -p <port>
-d <dir>` is validated by `ParseArgs` before the server starts.

This project models that logic in Dafny and proves its properties.

- `chars.dfy` (module `Chars`) holds C-locale white space and
  `std::string::find` as `Find`, with a first-occurrence contract.
- `decimal.dfy` (module `Decimal`) holds `std::to_string` on integers and C's
  `atoi`, with the round trip between them.
- `request_line.dfy` (module `RequestLine`) holds `ParseHttpUrl`. Each
  `operator>>` on the string stream is an extraction `Extract`: skip white
  space, then take the longest run of non-space characters. A separate
  reference definition `Tokens` splits the whole request into words, and
  the lemmas connect the two.
- `response.dfy` (module `Response`) holds the header that `answer_with`
  builds (`Header`) and the bytes of the single write (`Wire`).
- `handler.dfy` (module `Handler`) has three parts:
  - the decision of the read callback as a function `Respond`;
  - the handler object as a class `ClientHandler`, whose methods
    `ProcessClientRequest` and `AnswerWith` update its fields as the source
    does and are proved to produce `Wire(Respond(...))`;
  - one connection end to end as `Serve`.
- `args.dfy` (module `Args`) holds `ParseArgs` as a loop over the getopt
  results. It is proved equal to a loop-free description `ParseResult`,
  whose properties are lemmas.
- `scenarios.dfy` (module `Scenarios`) holds complete exchanges with fixed
  bytes: a served file, a traversal, a POST, a missing file, and two
  command lines.

The file system is a map from the name handed to the open call to
`Readable(contents)` or `SizeAtLimit`. `std::ifstream` opens `c_str()`, so
the name ends at the first NUL of `root + path` (`OpenedName`). The IPv4
address parser `asio::ip::make_address_v4` is a function parameter
`parseIp`.

Only the first request line is meant to be interpreted, but the source hands
the whole buffer to `ParseHttpUrl` (final.cpp:50). `>>` skips line breaks like
any other white space, so a first line holding only `GET` takes its path and
version from the next line. The model follows the code; see
`RequestLine.BorrowsWordsFromLaterLines`.

## Model

| member | source | states |
|---|---|---|
| RequestLine.ExtractIsFirstToken | final.cpp:11-13 | One `>>` extraction yields the first white-space-delimited word of the rest of the stream (or "" when none is left) and leaves exactly the remaining words behind it |
| RequestLine.ParseHttpUrlByTokens | final.cpp:10-27 | The parser returns the second word when the first word is `GET` and the first seven characters of the third word are `HTTP/1.`, and "" otherwise, with missing words read as "" |
| RequestLine.AcceptedExactly | final.cpp:10-27 | The result is non-empty iff there are at least three words, the first is exactly `GET`, and the third is at least seven characters long and begins with `HTTP/1.`; an accepted result is the second word, unchanged and free of white space |
| RequestLine.NonGetRejected | final.cpp:13-16 | Any first word other than `GET` (case-sensitive, also an empty request) gives "" |
| RequestLine.ShortVersionRejected | final.cpp:21-25 | A version word shorter than seven characters, including a missing one, gives "" because `substr(0, 7)` returns the whole word |
| RequestLine.BorrowsWordsFromLaterLines | final.cpp:10-27 | The parse runs over the whole buffer: `GET\r\n/a HTTP/1.0\r\n\r\n` yields `/a` |
| RequestLine.ParseSeparatedWords | final.cpp:10-27 | For three words separated by any non-empty runs of white space (line breaks included) and followed by nothing or white space, the parser returns the middle word exactly when the first is `GET` and the third begins with `HTTP/1.`, and "" otherwise |
| Chars.Find | final.cpp:51 | `find` returns the first position at or after `from` where the pattern occurs, or no position when it occurs nowhere there |
| Decimal.NumeralRoundTrip | final.cpp:94 | Reading back the decimal digits that `to_string` writes for a non-negative number gives that number |
| Decimal.AtoiOfNumeral | final.cpp:174 | `atoi` of a numeral written by `to_string`, followed by any text that does not start with a digit, gives the number |
| Response.ErrorHeaders | final.cpp:78-96 | The 400 and 404 headers are exactly `HTTP/1.0 400 Bad Request\r\n\r\n` and `HTTP/1.0 404 Not Found\r\n\r\n`, with no entity headers |
| Response.OkHeader | final.cpp:78-96 | The 200 header is exactly the status line `HTTP/1.0 200 OK`, `Content-Type: text/html`, `Content-Length: N` and an empty line |
| Response.EntityLinesText | final.cpp:92-94 | The two entity lines are the single text `Content-Type: text/html\r\nContent-Length: ` followed by the decimal length and a line end, as the source appends them |
| Response.ContentLengthReadsBack | final.cpp:94 | The text after `Content-Length: ` in a 200 header reads back, as `atoi` reads it, as the body length |
| Response.LinesHaveNoCarriageReturn | final.cpp:79-94 | The status line for any code, the Content-Type line and the Content-Length line for any length contain no carriage return, so no header line can end early |
| Response.HeaderEndsAtFirstBlankLine | final.cpp:92-99 | In the written bytes the first `\r\n\r\n` ends the header, and the bytes after it are exactly the body, for every code and body |
| Handler.OpenedName | final.cpp:56-57 | The name the open call sees is the longest prefix of the path without NUL: a prefix of the path that contains no NUL and ends at a NUL or at the end of the path |
| Handler.Respond | final.cpp:50-72 | The only codes are 200, 400 and 404; a non-200 reply has an empty body; the code is 400 iff the parsed path is empty or contains `..` |
| Handler.RespondByPath | final.cpp:56-72 | For an accepted path without NUL, the reply is 404 when `root + path` is absent or its size is at the limit, and otherwise 200 with the file's contents |
| Handler.ClientHandler.constructor | final.cpp:33 | A new handler keeps the root directory and starts with an empty buffer, no contents, no response and nothing written |
| Handler.ClientHandler.AnswerWith | final.cpp:78-99 | The appends leave `response` equal to the header for the code and the current contents length; the write sends header then contents; contents and buffer are unchanged |
| Handler.ClientHandler.ProcessClientRequest | final.cpp:41-73 | After a failed read nothing is written and no contents are loaded; otherwise the handler loads exactly the reply body and writes `Wire` of the reply that `Respond` gives for the buffered request |
| Handler.Serve | final.cpp:134-135 | A fresh handler that reads a complete request sends exactly `Wire(Respond(request))` |
| Handler.NonGetIsBadRequest | final.cpp:13-16 | Any request whose first word is not `GET` is answered with exactly `HTTP/1.0 400 Bad Request\r\n\r\n`, whatever the path and the file system |
| Handler.TraversalIsBadRequest | final.cpp:50-54 | A path word containing `..` anywhere is answered with exactly the 400 bytes, even when a file exists under that name |
| Handler.ServesFile | final.cpp:56-72 | A well-formed request for a readable file is answered with the 200 header whose Content-Length is the file size, followed by the file's exact bytes |
| Handler.MissingIsNotFound | final.cpp:57-68 | A well-formed request for a name that cannot be opened, or whose size reads as the limit, is answered with exactly `HTTP/1.0 404 Not Found\r\n\r\n` |
| Args.Rejection | final.cpp:163-187 | Every option the parser stops at produces a non-empty error message |
| Args.ParseArgs | final.cpp:151-196 | The loop with its flags and early returns returns exactly `ParseResult`: the first rejected option's message (with the default endpoint and the directory recorded so far), else "Not enough arguments" when a flag is missing, else the endpoint and directory of the last `-h`, `-p` and `-d` |
| Args.RecordedStep | final.cpp:163-182 | One more option sets the flag of its own kind and makes its argument the recorded one for that kind, leaving the other two kinds unchanged |
| Args.RejectedResult | final.cpp:163-187 | When option `i` is the first one rejected, the result is its error message with the default endpoint and the directory of the options before it |
| Args.AcceptedResult | final.cpp:189-195 | When every option is accepted, the result is "Not enough arguments" exactly when a flag is missing, and otherwise has no error, the address parsed from the last `-h`, the `atoi` of the last `-p` and the last `-d` with `/` |
| Args.LastArgExists | final.cpp:163-182 | A flag has a recorded argument exactly when some option carries that flag |
| Args.LastArgIsLast | final.cpp:163-182 | The argument recorded for a flag comes from an occurrence of that flag that no later occurrence follows |
| Args.SucceedsExactly | final.cpp:157-192 | Parsing succeeds iff every option is accepted and each of `-h`, `-p` and `-d` occurs |
| Args.SuccessfulParams | final.cpp:172-194 | On success the port is in 1..65535 and comes from the last `-p`, the address from the last `-h`, and the directory is the last `-d` argument with one `/` appended |
| Args.FailureKeepsDefaultEndpoint | final.cpp:152-192 | Whenever an error message is returned the endpoint is the default one |
| Args.StopsAtFirstRejection | final.cpp:163-187 | Options after the first rejected one change nothing in the result |
| Scenarios.NoDotDot | final.cpp:51 | A path in which no `.` is followed by `.` passes the `..` search |
| Scenarios.GetLineParses | final.cpp:10-27 | `GET <path> HTTP/1.0` or `GET <path> HTTP/1.1` followed by the empty line yields the path |
| Scenarios.ServesIndex | final.cpp:44-99 | `GET /index.html HTTP/1.1` under `/srv/www/` holding `hi` is answered with the 200 header with Content-Length 2 followed by `hi` |
| Scenarios.RefusesTraversal | final.cpp:50-54 | `GET /../etc/passwd HTTP/1.0` is answered with exactly the 400 bytes |
| Scenarios.RefusesPost | final.cpp:13-16 | `POST / HTTP/1.0` is answered with exactly the 400 bytes |
| Scenarios.MissingFile | final.cpp:56-61 | `GET /missing.txt HTTP/1.0` is answered with exactly the 404 bytes |
| Scenarios.StartsOnLoopback | final.cpp:151-196 | `-h 127.0.0.1 -p 8080 -d /srv/www` gives no error, the endpoint 127.0.0.1:8080 and the directory `/srv/www/` |
| Scenarios.RefusesPortZero | final.cpp:172-178 | `-p 0` is refused with "Invalid port" before a later option is looked at |

## Left out

- Network I/O is not modelled. This covers `async_read_until`, `async_write`,
  `async_accept`, and the socket `shutdown` and `close`. The read is given as
  the bytes it delivered and whether it failed. `ProcessClientRequest`
  requires a delimiter in those bytes, as a successful read guarantees.
  The write is given as the bytes handed to it (`Sent`).
- The accept loop, `shared_from_this` ownership, and the handler's lifetime
  are not modelled. The root directory, which the source holds by reference,
  is a value.
- File I/O is not modelled (`ifstream`, `seekg`, `tellg`, `read`). The file
  system is a map from names to contents, and a read returns the whole file.
  The operating system's name resolution is left out: `//`, symbolic links,
  and relative components other than the refused `..`. The map is keyed by
  the exact name.
- Handler.Respond: does not model a `tellg` failure (-1) on a stream that
  opened. In the source that failure makes `resize` throw, outside the three
  answers.
- Args.ParseArgs: `atoi` is unbounded, because out-of-range input is
  undefined behaviour in C.
- Args.ParseArgs: the address is kept as a natural number from the parser
  parameter, not as a 32-bit value.
- Args.ParseArgs: the options are given as the getopt results. How getopt
  scans `argv` is left out: argument permutation, clustered flags, and the
  end of options.
- `make_address_v4` is the parameter `parseIp`, and its error text is
  `ec.message()`.
- Logging to `std::cerr`, `ContinueInChild` (`fork`), and `main` are not
  modelled, because they are process-level effects.
