# A model of a small threaded HTTP/1.1 server in C

The server listens on one port. For each connection, one thread reads a single request of at most 2048 bytes (`BUFFER_SIZE`) and answers it.

- The method is classified by prefix: `GET` or `POST`. Anything else closes the connection without an answer.
- The path is copied from offset 4 of the request, up to a space.
- The `User-Agent:` header value is extracted, or `Unknown` when there is none.
- The path is routed:
  - `/files/<name>` serves `<dir>/<name>` from the directory given by `--directory`;
  - `/user-agent` echoes the User-Agent;
  - `/` answers `OK`;
  - `/echo/<s>` echoes `<s>`;
  - anything else gets 404.
- Text answers go through `send_response`. It writes a `text/plain` header, then the message. The reason phrase is `OK` for 200 and `Not Found` for every other code.
- A failed `recv` is answered with 500.

The model is written in Dafny and has eight modules.

- **`CLib`** holds the C string routines the server relies on:
  - `CStr` models strlen and the NUL terminator;
  - `Truncate` models snprintf truncation and strncpy;
  - `StrNEq` models strncmp;
  - `Find` models strstr;
  - `PrefixBefore` models strpbrk and every scanning loop;
  - `StrCpy` and `StrNCpy` work on `array<char>` buffers that hold their terminator explicitly.
- **`Numerals`** holds the `%d`/`%zu` rendering and its decimal reading.
- **`ServerH`** holds the header's constants and types.
- **`Parser`** holds the request parsing:
  - pure specifications `ClassifyMethod`, `PathOf` and `UserAgentOf`;
  - the `Request` record as a class whose `path` and `userAgent` are `BUFFER_SIZE` arrays;
  - the path-copy loop and the User-Agent extraction as methods proved against those specifications.
- **`Writer`** holds the header formatting and the two sends of each answer. It also has a client's reading of the bytes sent (`ParseResponse`); the round-trip lemmas use it to show that the client reads back the status, reason, content type and body.
- **`Router`** holds the route dispatch and the file branch. The file branch is modelled as written: the body sent is the message buffer after the header has been written over it. The evidently intended body, the file's content, is `Writer.FileSends`. The file branch works against a filesystem oracle: a map from the paths `stat` finds to whether `fopen` succeeds on them and, if so, what they hold.
- **`Handler`** holds `handle_client` as a whole:
  - `Exchange` specifies the outcome for one received buffer: the sends in order, or an overrun of the message buffer;
  - `HandleClient` is the imperative body proved against `Exchange`, with the file branch as written;
  - end-to-end lemmas read the sends back for each route.
- **`Args`** holds `parse_args` as a method of a `Settings` class. The method assigns the `files_directory` global, modelled as a field.

## Model

| member | source | states |
|---|---|---|
| `CLib.PrefixBefore` | app/server.c:132 | the scan result is a prefix of its input with no stop character, ended by a stop character or the end of the input (strpbrk, strlen) |
| `CLib.PrefixBeforeUnique` | app/server.c:123-125 | those three properties determine the scan, so a loop that establishes them computes it |
| `CLib.PrefixBeforeCovers` | app/server.c:123 | every stop-free prefix lies within the scan: a loop cut off by a length cap has copied a prefix of it |
| `CLib.CStr` | app/server.c:99 | the string a terminated buffer spells is a NUL-free prefix of it, ended by its first NUL (strdup, strlen); a NUL-free string spells itself |
| `CLib.CStrConcat` | app/server.c:99 | a NUL-free start survives the cut at the first NUL |
| `CLib.Truncate` | app/server.c:147 | snprintf into `n + 1` bytes keeps a prefix of exactly `min(len, n)` characters |
| `CLib.StrNEq` | app/server.c:108-110 | strncmp(a, b, n) is zero exactly when both strings agree on their first `n` positions and, if either ends before `n`, they end together |
| `CLib.StrNEqIsPrefix` | app/server.c:108-110 | strncmp over the literal's own length is zero exactly when the literal is a prefix |
| `CLib.Find` | app/server.c:128 | strstr returns a position where the pattern occurs with no earlier occurrence, and returns none only when it occurs nowhere |
| `CLib.StrCpy` | app/server.c:140 | after strcpy the buffer spells the source, and the cells past the terminator are untouched |
| `CLib.StrNCpy` | app/server.c:136 | strncpy writes the source string cut to `n` and pads it with NUL up to `n`, touching nothing beyond |
| `Numerals.Decimal` | app/server.c:204-206 | `%d` and `%zu` produce a nonempty digit string with no leading zero |
| `Numerals.DecimalRoundTrip` | app/server.c:204-206 | reading the printed decimal back gives the number |
| `Numerals.DecimalWidth` | app/server.c:163 | a number below `10^k` prints in at most `k` digits |
| `ServerH.CodeValue` | app/server.h:23-27 | the status codes are 200, 404 and 500, all three-digit |
| `Parser.ClassifyMethod` | app/server.c:108-119 | GET exactly when the request starts with "GET" (so "GETX" is GET); POST exactly when it starts with "POST" but not "GET"; rejected otherwise |
| `Parser.PathStart` | app/server.c:122 | the copy starts at offset 4 whenever the request has 4 characters, and never past its terminator |
| `Parser.PathOf` | app/server.c:121-126 | the path is space-free and at most 2047 characters. It is a prefix of the request from the path offset, and it stops only at a space, the end or the cap |
| `Parser.BareGetReadsPastCopy` | app/server.c:122 | as written, the accepted request "GET" is the only one whose path read starts past its terminator; every other accepted request starts at offset 4 |
| `Parser.PathOfRequestLine` | app/server.c:121-126 | for a request line of a 4-character method field, a target and a space, the path is the target |
| `Parser.UserAgentOf` | app/server.c:128-141 | the value is at most 2047 characters with no CR or LF and no NUL. It is "Unknown" when "User-Agent:" is absent. Otherwise it is a prefix of the text after the first "User-Agent:" with its spaces skipped. It does not start with a space, and when shorter than 2047 characters it ends where the line ends |
| `Parser.LineValue` | app/server.c:132-137 | the value is a line-break-free prefix of the text, at most 2047 characters, which stops short of the line's end only at that cap |
| `Parser.UserAgentRoundTrip` | app/server.c:128-137 | a header line `User-Agent:` + spaces + value + line break yields exactly the value cut to 2047 characters |
| `Parser.PathScan` | app/server.c:123-126 | the state the path loop leaves behind is exactly `PathOf` |
| `Parser.Request.constructor` | app/server.c:82 | a fresh record has two distinct `BUFFER_SIZE` string fields |
| `Parser.Request.ReadPath` | app/server.c:121-126 | the loop leaves in `path` a terminated copy of `PathOf` of the request |
| `Parser.Request.ReadUserAgent` | app/server.c:128-141 | the code leaves in `userAgent` a terminated copy of `UserAgentOf` of the request as it was before the line break was overwritten |
| `Parser.SkipSpaces` | app/server.c:131 | after the skip, the text is empty or does not start with a space |
| `Parser.SkipSpacesFrom` | app/server.c:131 | the loop stops inside the buffer at exactly where `SkipSpaces` leaves the text |
| `Parser.CutAtLineBreak` | app/server.c:132-135 | after the NUL is written over the first CR or LF, the string at the start spells the line and the buffer stays terminated. No other cell changes |
| `Parser.TerminatedCopy` | app/server.c:136-137 | strncpy of 2047 characters plus a NUL in the last cell spells the value cut to 2047 characters |
| `Writer.Reason` | app/server.c:206 | the reason phrase is "OK" for 200 and "Not Found" otherwise, with no CR |
| `Writer.Header` | app/server.c:204-206 | the formatted header is 48 fixed characters plus the status, reason, content type and length, and has no NUL when its strings have none |
| `Writer.TextHeader` | app/server.c:203-206 | send_response's header is a prefix of the full header, NUL-free and shorter than `BUFFER_SIZE` |
| `Writer.OctetHeader` | app/server.c:163 | the file branch's header is a prefix of the full octet-stream header, NUL-free and shorter than `BUFFER_SIZE` |
| `Writer.HeaderRoundTrip` | app/server.c:204-206 | reading a formatted header followed by its body gives back the status, reason, content type and exactly `Content-Length` characters of body |
| `Writer.TextHeaderFits` | app/server.c:203-206 | for messages that fit the message buffer, snprintf never cuts the text header |
| `Writer.OctetHeaderFits` | app/server.c:163 | for any size a 64-bit size_t holds, snprintf never cuts the octet-stream header |
| `Writer.SendResponse` | app/server.c:202-210 | two NUL-free sends: the message up to its terminator, after a prefix of the header formatted for its strlen that is the whole header when the message fits the buffer |
| `Writer.TextOnWire` | app/server.c:202-210 | the two sends of send_response, for a terminated message below `BUFFER_SIZE`, reach the client with its code, the reason, text/plain and exactly the message |
| `Writer.FileOnWire` | app/server.c:163-165 | the evidently intended file sends (`FileSends`: header, then the file's content) reach the client as 200 OK, application/octet-stream and exactly the file's data |
| `Router.Dispatch` | app/server.c:145-192 | each route is taken exactly when its own test passes: the "/files/" prefix, the path "/user-agent", the path "/", the "/echo/" prefix |
| `Router.RoutesExclusive` | app/server.c:145-184 | no path passes two of the routing tests, so their order does not matter |
| `Router.FilePath` | app/server.c:147 | the joined path is a prefix of `dir/name` of exactly its length when that is below `BUFFER_SIZE`, and of exactly 2047 characters otherwise |
| `Router.ServeFile` | app/server.c:145-175 | 404 "Not Found" exactly when stat fails on the joined path; 500 "Internal Server Error" exactly when stat succeeds and fopen fails; the file's data exactly when it can be read. Every text it answers is NUL-free and fits the message buffer |
| `Router.Respond` | app/server.c:145-192 | the response per route: the file branch, the User-Agent, "OK", the rest of the echo path, or 404 "Not Found" |
| `Router.RespondFits` | app/server.c:176-191 | every text message built from a parsed path and User-Agent is NUL-free and fits the message buffer |
| `Router.FileBodyAsWritten` | app/server.c:158-165 | as written, the second send of the file branch has the file's length |
| `Router.FileBodyAsWrittenIsNotTheFile` | app/server.c:158-165 | as written, that send starts with the header's "H", so a file not starting with 'H' is answered wrongly. A file no longer than the header gets a piece of the header; a longer one gets the header, a NUL, and the rest of the file |
| `Router.FileAsWrittenOnWire` | app/server.c:163-165 | as written, the client reads 200 OK, application/octet-stream and a body of the file's length that is the header-overwritten buffer |
| `Router.FileSendsAsWritten` | app/server.c:163-165 | two sends: the whole octet-stream header for the file's size, then a body of exactly the file's length |
| `Router.FileBranch` | app/server.c:157-165 | fread into the message buffer, the NUL after it, snprintf of the header over its start, and the two sends produce exactly the as-written file sends |
| `Router.HeaderOverlay` | app/server.c:158-163 | a buffer that held the file and now spells the header, unchanged past the header's terminator, starts with the as-written body |
| `Handler.Answer` | app/server.c:157-191 | an overrun exactly for a file of `BUFFER_SIZE` bytes or more; otherwise two sends. For text the second is the message up to its terminator; for a file it has the file's length and follows the full octet-stream header |
| `Handler.Exchange` | app/server.c:91-194 | a connection gets two sends, or none exactly when a received request has an unsupported method. Among the source's undefined cases, the model marks only the file overrun: an overrun happens only when some readable file has `BUFFER_SIZE` bytes or more. The bare request "GET" is routed on the empty path (see "## Left out") |
| `Handler.HandleClient` | app/server.c:91-194 | the imperative handler, with the file branch run on a message buffer, produces exactly the outcome `Exchange` specifies |
| `Handler.Reply` | app/server.c:157-191 | the sending half produces exactly `Answer`: send_response for text, the as-written file branch for a file below `BUFFER_SIZE`, an overrun otherwise |
| `Handler.RecvFailureOnWire` | app/server.c:91-96 | a failed receive reaches the client as 500 with reason "Not Found" and body "Internal Server Error" |
| `Handler.FailureReplyOnWire` | app/server.c:93-95 | send_response of the 500 "Internal Server Error" message is read by the client as 500, reason "Not Found", that body |
| `Handler.AnswerOnWire` | app/server.c:157-210 | the client reads a terminated text message intact, and a file as its as-written body. An overrun happens exactly for a file of `BUFFER_SIZE` bytes or more |
| `Handler.TextAnswerOnWire` | app/server.c:202-210 | a terminated text message that fits the buffer reaches the client with its code, the reason phrase and exactly its text |
| `Handler.ParsedFieldsTerminated` | app/server.c:121-141 | the path and User-Agent read from a C string are NUL-free and shorter than `BUFFER_SIZE` |
| `Handler.RoutedOnWire` | app/server.c:143-192 | every routed request is answered with the router's response to the parsed path and User-Agent, and the client reads it as `AnswerOnWire` says |
| `Handler.GetOnWire` | app/server.c:108-126 | "GET <target> ..." is answered with the router's response to exactly the target |
| `Handler.EchoOnWire` | app/server.c:184-187 | "GET /echo/s" is answered 200 OK with body s |
| `Handler.RootOnWire` | app/server.c:180-183 | "GET /" is answered 200 OK with body "OK" |
| `Handler.UserAgentPageOnWire` | app/server.c:176-179 | "GET /user-agent" is answered 200 OK with the extracted User-Agent |
| `Handler.FilesOnWire` | app/server.c:145-175 | "GET /files/name" gets 404 when stat fails and 500 (reason "Not Found") when fopen fails. Otherwise it gets 200 octet-stream with the as-written body of the file's length, or an overrun for a file of `BUFFER_SIZE` bytes or more |
| `Handler.ServeFileOnWire` | app/server.c:145-175 | the file branch's outcomes as the client reads them, case by case |
| `Handler.PostOnWire` | app/server.c:110-126 | every "POST ..." request has an empty path and is answered 404 "Not Found" |
| `Args.DirectoryAfter` | app/server.c:212-217 | after looking at `argv[1..n]`, the directory is either its initial value or the argument after some flag that has one |
| `Args.LastFlagWins` | app/server.c:212-217 | when `argv[i]` is the last `--directory` with an argument after it, the directory is `argv[i + 1]` |
| `Args.NoFlagKeepsValue` | app/server.c:212-217 | with no `--directory` that has an argument after it, the global keeps its value |
| `Args.Settings.constructor` | app/server.c:4 | the directory starts unset |
| `Args.Settings.ParseArgs` | app/server.c:212-217 | the loop over `argv[1..argc]` (argc at least 1) leaves the directory that `DirectoryAfter` specifies |

## Left out

- `main` is not modelled:
  - socket creation, `SO_REUSEADDR`, `bind`, `listen`, the accept loop, thread creation and detachment;
  - the `PORT` constant;
  - the process exit when no directory is given (app/server.c:6-75).
  
  Because of that exit, the directory is a plain string wherever `handle_client` uses it.
- `recv` and `send` are values: `Received` is the bytes stored in the zero-initialised buffer, and the sends are a sequence of strings. A `recv` that fills all 2048 bytes leaves no terminator in `content`; the model reads up to the first NUL or the end of what was received.
- `stat`, `fopen`, `ftell` and `fread` are the `FileSystem` oracle. A file `stat` finds but `fopen` cannot open is `Unopenable`. The oracle matches the exact joined path, so no path normalisation or traversal check is modelled; the source does neither.
- Allocation failures of `malloc` and `strdup`, which end the thread without an answer, are not modelled.
- `free`, `close` and `pthread_exit` are not modelled.
- The `printf`/`fprintf` logging is not modelled.
- The prototypes at app/server.h:54-57 have no definitions in the server and are not part of this model. The same goes for the `REQUEST_BUFFER_RESULT` enum and the `read_bytes` field.
- `Router.FileBodyAsWritten` covers files shorter than `BUFFER_SIZE` only. For a larger file, the `fread` at app/server.c:158 or the NUL store at app/server.c:159 writes past the message buffer (for exactly 2048 bytes it is the NUL store). C gives that no meaning, so the handler's outcome for it is `Overrun` and nothing is said about what is sent.
- `Handler.Exchange` does not mark the bare request "GET" as undefined: app/server.c:122-123 read `content[4]`, one byte past the four-byte copy, while the model starts the path read at the terminator (`Parser.PathStart`) and routes the empty path, answering 404 "Not Found". `Parser.BareGetReadsPastCopy` states that this is the only accepted request affected; `Overrun` stays the only undefined outcome of the model.
- A Dafny `char` stands for a C byte. recv, strlen and Content-Length count bytes, while a `char` ranges over Unicode scalar values. No encoding is modelled.
- `Received` does not bound the bytes to `BUFFER_SIZE`, although recv stores at most 2048. Every contract holds for any length, so the model only admits more inputs than the source can see.
- `Parser.Request.ReadUserAgent` models strstr, strpbrk and the pointer arithmetic through the pure `Find` and `PrefixBefore` plus the space-skipping loop. The write of the NUL over the line break happens in place on the request copy.

## Findings

| source | as written | input that shows it | evidently intended | confidence | as-written member | corrected member |
|---|---|---|---|---|---|---|
| app/server.c:158-165 | the file is read into the message buffer; snprintf then formats the octet-stream header over the start of that same buffer; the second send sends `file_size` bytes of the buffer | a file holding the single byte `x` is answered with the header and then the body `H` | the second send is the file's content | high, not executed | `Router.FileBodyAsWrittenIsNotTheFile` | `Writer.FileOnWire` |
| app/server.c:122 | the path copy starts at `content + 4`, whatever the length of the strdup'd request | the three-byte request `GET` makes the loop read one byte past its four-byte copy | the copy starts no later than the terminator | high, not executed | `Parser.BareGetReadsPastCopy` | `Parser.Request.ReadPath` |
