# A verified model of two minimal HTTP/1.1 request handlers

Two small C servers handle one HTTP/1.1 request per connection. They share one design.
`mini_server.c` reads the socket with its own `recv_line`/`recv_nbytes` and writes with `send_nbytes`.
`server.c` reads and writes through the socket's stdio stream (`fgets`, `fprintf`).
Both do the same things:

1. read the request line and the headers up to the empty line;
2. take the method and the target from the request line;
3. for a POST, note the `Content-Length`;
4. route the target to a static file or to a CGI program under `cgi-bin`;
5. answer with an error page (403, 404, 411 or 501, and in `mini_server.c` also 400 for a line it cannot read), the file, or the program's headers and an `execve` with `QUERY_STRING` set.

This project models that request-handling core in Dafny and proves properties of it.

The model keeps the C code's form where the code changes things in place:

- the connection is a class with a read cursor and an output log;
- the line readers and copy loops are methods with loop invariants over arrays;
- `decode_uri`, `parse_uri`, `strcpy`, `strcat` and `*p = '\0'` work in place on `array<byte>` buffers.

Each such method is proved against a specification function:

- `ReadLine` and `Fgets` for one line read;
- `ScanHeaders` and `ScanLines` for the header loops;
- `Decode` and `RouteOf` for decoding and routing;
- `Answer` and `Respond` for the whole exchange.

The properties the code promises are proved about those functions as lemmas.

Modules:

| module | what it holds |
|---|---|
| `Bytes` | bytes, C strings (`CStr`), `strstr`, `index`, `tolower`, `atoi`, `%d` |
| `Words` | the `%s` tokens `sscanf` reads |
| `CString` | `strcpy`, `strcat` and truncation on arrays |
| `Socket` | the connection; `recv_line`, `recv_nbytes`, `send_nbytes` and `fgets` |
| `UriCodec` | `decode_uri` |
| `Routing` | `parse_uri`/`analyzeRequest` and `check_ftype`/`checkFileType` |
| `Dispatch` | the 501/404/403/411/static/dynamic chain shared by both handlers |
| `MiniServer` | the handler of `mini_server.c` |
| `TinyServer` | the handler of `server.c` |

Where the two files differ, the model follows each file:

- `server.c` does not decode the target.
- `server.c` compares the header name with `strcasecmp`; `mini_server.c` compares it case-sensitively.
- `server.c` ends its response lines with a bare LF.
- `server.c` reads a POST body with `fgets(cgiArgs, payloadSize + 1, stream)`.
- `server.c` loops forever when the client closes before the empty line. The model's outcome for that is `Hang`.

Uninitialised stack arrays are modelled as zero-filled. The file system is a map from the path handed to `stat` to the file's mode bits and bytes.

Points where the code does something easy to misread:

- `decode_uri` turns `%XY` into the byte `16*X+Y` (mini_server.c:383).
- For `mini_server.c`, a POST body does not replace the URL query. The body's bytes are copied over the front of the query with no terminator after them, so the program sees the body followed by the rest of the query (see Findings). `ReadPostBodyAsWritten` models that read. The handler as a whole (`Answer`, `RunProgram`, `ServeContent`) uses the corrected read `ReadPostBody`, which gives the program the body alone; "## Left out" names each member this affects.
- `recv_line` does not end a line at every CR LF. The matcher drops back to state 0 without re-testing the byte it rejected, so a line ending in an odd run of CRs swallows the CR LF (`"\r\r\n"` ends no line).
- `server.c` does not answer 400 when the connection ends during the headers: it spins.
- In `mini_server.c`, a file that cannot be mapped (an empty one: `mmap` refuses length 0) gets a 404 page *after* the 200 headers have been sent (mini_server.c:325-330). `server.c` checks neither `open` nor `mmap` (server.c:272-277), so an empty file gets the 200 headers and nothing after them.

## Model

| member | source | states |
|---|---|---|
| Bytes.CStr | mini_server.c:371 | the string a C function sees is a NUL-free prefix of the buffer, ended by the first NUL or by the buffer's end |
| Bytes.CStrOfTerminated | mini_server.c:392-395 | a NUL-free string followed by NUL reads back as that string, whatever follows |
| Bytes.CStrOfJoin | mini_server.c:535-537 | writing NUL after a piece cuts the C string to that piece's C string |
| Bytes.CStrOfTerminatedAt | mini_server.c:392 | a NUL at index j makes the C string that of the first j bytes |
| Bytes.CStrOfTake | server.c:141 | cutting a buffer leaves a C string that is a prefix of the original C string |
| Bytes.CStrBound | mini_server.c:535 | a NUL at index k bounds the C string to k bytes |
| Bytes.CStrOfNoNul | mini_server.c:395 | a NUL-free sequence is its own C string |
| Bytes.NoNulDrop | mini_server.c:414 | the tail of a NUL-free string is NUL-free |
| Bytes.Zeros | mini_server.c:175-177 | a zero-filled buffer of n bytes holds the empty C string |
| Bytes.ZerosDrop | server.c:120-121 | any tail of a zero buffer is a zero buffer |
| Bytes.Contains | mini_server.c:409 | strstr(s, pat) != NULL; a pattern that occurs is no longer than s |
| Bytes.ContainsAt | mini_server.c:409 | strstr finds a pattern that occurs at some index |
| Bytes.ContainsWitness | mini_server.c:409 | strstr finds a pattern only where some slice equals it (the converse of ContainsAt) |
| Bytes.NotContainsByByte | mini_server.c:438-455 | a pattern holding a byte absent from s does not occur in s |
| Bytes.ContainsInConcat | mini_server.c:409 | b occurs in a + b + c |
| Bytes.IndexOf | mini_server.c:411 | index(): the first position of b, or none exactly when b does not occur |
| Bytes.ToLower | mini_server.c:373-374 | tolower adds 32 to A..Z and leaves every other byte alone |
| Bytes.Lower | server.c:142 | the per-byte tolower keeps the length |
| Bytes.IsSpace | mini_server.c:217 | isspace in the C locale is exactly space, \t, \n, \v, \f and \r |
| Bytes.IsXDigit | mini_server.c:372-383 | isxdigit holds exactly when tolower gives a decimal digit or one of a..f, the two cases decode_uri's arithmetic handles |
| Bytes.HexValue | mini_server.c:372 | a hex digit of either case has a value below 16 |
| Bytes.SkipSpace | mini_server.c:217 | atoi's leading white space: a suffix whose first byte is not white space, every skipped byte white space |
| Bytes.LeadingDigits | mini_server.c:217 | atoi's digits: the longest all-digit prefix, followed by a non-digit or the end |
| Bytes.Digit | mini_server.c:309 | one decimal digit byte for 0..9 |
| Bytes.Dec | mini_server.c:309 | "%d" of a natural number is a non-empty digit string |
| Bytes.DecValue | mini_server.c:309 | the digits "%d" writes denote the number back |
| Bytes.LeadingDigitsOfDigits | mini_server.c:217 | atoi reads exactly a digit string followed by a non-digit |
| Bytes.Atoi | mini_server.c:217 | atoi after the white space: a negative value only after '-' and a digit, a positive one only after a digit or '+' and a digit; anything else reads 0 |
| Bytes.AtoiDec | mini_server.c:217 | atoi reads back what "%d" wrote, whatever non-digit follows |
| Words.Word | mini_server.c:204 | a "%s" conversion takes the longest prefix with no white space |
| Words.Tokens | mini_server.c:204 | the whitespace-separated words sscanf reads, each non-empty |
| Words.TokensWithin | mini_server.c:204 | every token fits in the line and is NUL-free when the line is |
| Words.SecondTokenBound | mini_server.c:204 | the first two tokens and a separator fit in the line |
| Words.WordOfWord | mini_server.c:204 | a word followed by white space or the end is read whole |
| Words.TokensOfWordThen | mini_server.c:204 | a leading word is the first token, the rest tokens of what follows |
| Words.TokensOfSpaces | mini_server.c:204 | white space alone holds no token |
| Words.TokensOfWordSpace | mini_server.c:204 | a word, a space, then more: the word, then the rest's tokens |
| Words.TokensOfThreeWords | mini_server.c:204 | "M T V" plus trailing white space gives exactly the tokens M, T, V |
| CString.StrCpy | mini_server.c:406 | strcpy: the source and a NUL replace the front of dst, the rest of dst unchanged; the C string is the source |
| CString.StrCat | mini_server.c:421-429 | strcat: src and a NUL replace the old terminator; the C string is old + src; later bytes unchanged |
| CString.Truncate | mini_server.c:416 | `*ptr = '\0'`: one byte becomes NUL and the C string is cut to its first i bytes |
| Socket.TrailingCRs | mini_server.c:531-541 | the length of the CR run that ends a sequence is at most its length |
| Socket.MatcherStep | mini_server.c:531-541 | one byte through the two-state matcher: it completes exactly on an LF after an odd CR run, else its new state is the run's parity |
| Socket.NoLineEndExtend | mini_server.c:520-544 | the matcher's no-completion invariant extends by one byte |
| Socket.NoLfExtend | server.c:132 | fgets' no-LF invariant extends by one byte |
| Socket.NoLfIn | server.c:132 | the no-LF invariant means LF is not in the prefix |
| Socket.FirstLineEndFrom | mini_server.c:520-544 | the first completion at or after j and below the limit: a completion, with none before it; none means none in range |
| Socket.FirstLineEndSkip | mini_server.c:520-544 | the search may start past bytes known not to complete |
| Socket.ReadLine | mini_server.c:512-548 | one recv_line: the buffer keeps its size; at most size_max bytes consumed; a result k >= 0 consumed k + 2 bytes and leaves NUL at k |
| Socket.ReadLineCases | mini_server.c:512-548 | k >= 0 exactly when the matcher completes at k + 1 within size_max: k + 2 bytes consumed, the line before the CR in dst, NUL at k, the LF kept, nothing later written; else -1 after min(size_max, available) bytes with no completion, copied and nothing else changed |
| Socket.ReadLineOfPlainLine | mini_server.c:512-548 | a line with no LF and an even CR run before CR LF is returned whole, its length the result |
| Socket.OddCrRunHidesEol | mini_server.c:531-541 | the matcher-reset quirk: after an odd run of CRs, the CR LF that follows ends no line |
| Socket.CrCrLfIsNoLine | mini_server.c:531-541 | "\r\r\n" ends no line, however large size_max is |
| Socket.Fgets | server.c:132 | fgets: the buffer keeps its size; a non-NULL result read fewer than n bytes and wrote NUL after them; NULL leaves the buffer untouched |
| Socket.FgetsCases | server.c:132 | NULL exactly for n <= 0 or an exhausted stream with n > 1; otherwise the bytes through the first LF, stopping after n - 1 bytes or at the end, then NUL, the rest of the buffer unchanged |
| Socket.FgetsOfLine | server.c:132 | fgets on a line that fits stops after its LF and terminates there |
| Socket.FillStep | mini_server.c:521 | a read loop's buffer after one more byte |
| Socket.TerminateAt | server.c:132 | the buffer after fgets writes its NUL |
| Socket.TerminateLine | mini_server.c:535-537 | the buffer after recv_line turns the CR into NUL |
| Socket.ReadLineFoundAt | mini_server.c:531-537 | the first completion at e gives result e - 1 with e + 1 bytes consumed |
| Socket.ReadLineNone | mini_server.c:527-529 | no completion within min(size_max, available) bytes gives -1 |
| Socket.FgetsOfCount | server.c:132 | fgets stopping after count bytes for any of its three reasons |
| Socket.Connection.constructor | mini_server.c:194 | a connection starts with all the peer's bytes unread and nothing written |
| Socket.Connection.Recv1 | mini_server.c:521 | recv of one byte: 1 and the next byte, or 0 once the peer has closed |
| Socket.Connection.RecvLine | mini_server.c:512-548 | recv_line on its array: the result, cursor and dst are exactly those ReadLine gives |
| Socket.Connection.RecvUntilEol | mini_server.c:516-544 | recv_line's loop: bytes go to dst until the matcher completes, the peer closes or size_max bytes are in |
| Socket.Connection.RecvNBytes | mini_server.c:553-572 | recv_nbytes: min(n, available) bytes consumed and copied to the front of dst; no terminator; later bytes unchanged |
| Socket.Connection.Send | mini_server.c:582 | send moves between 1 and all of the bytes offered, in order |
| Socket.Connection.SendNBytes | mini_server.c:577-589 | send_nbytes: whatever the partial sends, the output grows by exactly the first n bytes, in order, once each |
| Socket.Connection.ReadLineStdio | server.c:132 | fgets on the stream: the result, cursor and buffer are exactly those Fgets gives |
| Socket.Connection.RecvUntilLf | server.c:132 | fgets' loop stops after n - 1 bytes, at the end of the stream, or after an LF, with no LF before that |
| Socket.Connection.Print | server.c:240-251 | fprintf appends exactly the formatted bytes |
| UriCodec.Decode | mini_server.c:365-396 | the decoded target is never longer than the target |
| UriCodec.StepAt | mini_server.c:372-389 | one pass of the loop uses at most the bytes that remain |
| UriCodec.DecodeAdvance | mini_server.c:371-391 | the loop invariant: output so far plus the decoded rest is the decoded whole |
| UriCodec.LoweredDigitValue | mini_server.c:373-383 | tolower then subtracting 'a'-10 or '0' gives the hex digit's value, either case |
| UriCodec.DecodeUri | mini_server.c:365-396 | decode_uri: uri ends up holding the decoded target, cut at a decoded NUL, then NUL; bytes after that unchanged |
| UriCodec.DecodeAt | mini_server.c:372-389 | one pass at index i: "%XY" with both hex digits inside the string gives one byte and skips 3; '+' gives a space; any other byte is copied |
| UriCodec.DecodeInto | mini_server.c:370-392 | the loop leaves the decoded target, terminated, in the scratch buffer |
| UriCodec.DecodeIdentity | mini_server.c:365-396 | a target with no '%' and no '+' is unchanged |
| UriCodec.SinglePass | mini_server.c:371-391 | the pass is single: "%2541" gives "%41", which a second pass would make "A" |
| UriCodec.PlusAndEscape | mini_server.c:372-389 | "a+b%20c" decodes to "a b c" |
| UriCodec.HexDigit | mini_server.c:372 | an upper-case hex digit whose value is d |
| UriCodec.PercentEncode | mini_server.c:372-384 | full percent-encoding triples the length |
| UriCodec.DecodePercentEncode | mini_server.c:372-384 | decoding undoes full percent-encoding of any bytes |
| UriCodec.PlusEncode | mini_server.c:386-387 | '+' for space keeps the length |
| UriCodec.DecodePlusEncode | mini_server.c:386-387 | decoding undoes the '+' encoding of text with no literal '%' or '+' |
| Routing.RouteOf | mini_server.c:401-432 | dynamic exactly when "cgi-bin" occurs; a dynamic target with '?' is split there, the query after it; otherwise the target is kept whole and the query is empty; the path is "." + target, plus "index.html" exactly for the static "/" |
| Routing.LiteralsNoNul | mini_server.c:421-428 | the literals copied into fname hold no NUL |
| Routing.ParseUri | mini_server.c:401-432 | parse_uri on its arrays returns 1 for dynamic, 0 for static; leaves the cut target in uri, the path in fname and the query, terminated, in cgiargs |
| Routing.SplitQuery | mini_server.c:405-418 | the first half of parse_uri: the kind, and the query moved from uri to the emptied cgiargs |
| Routing.MoveQuery | mini_server.c:413-417 | strcpy(cgiargs, ptr + 1) then `*ptr = '\0'`: the query goes to cgiargs; uri is cut at the '?' |
| Routing.KeptTail | mini_server.c:406 | strcpy of "" changes only the first byte |
| Routing.RouteOfSplit | mini_server.c:409-417 | a dynamic target with its first '?' at q routes to the cut target and the rest |
| Routing.BuildPath | mini_server.c:420-429 | fname holds "." + uri, then "index.html" when asked |
| Routing.RouteOfQuery | server.c:198-205 | a dynamic target is cut at its first '?', whatever the query holds |
| Routing.RouteOfCgiTarget | server.c:190-215 | "/cgi-bin/echo?name=bob" routes to dynamic "./cgi-bin/echo" with the query "name=bob" |
| Routing.RouteOfRoot | server.c:208-213 | "/" routes to static "./index.html" with no query |
| Routing.QueryDecidesKind | server.c:198 | "cgi-bin" in the query alone makes "/x?cgi-bin" dynamic with the path "./x" |
| Routing.StaticKeepsQuery | server.c:208-213 | a static target keeps its '?' in the path; only the exact "/" gets the default file |
| Routing.MimeType | mini_server.c:437-456 | check_ftype writes one of its six type names; which one is stated by MimeTypeCases and MimeTypeIsFirstMatch |
| Routing.MimeTypeCases | mini_server.c:437-456 | text/html exactly when ".html" occurs; text/plain exactly when none of the five extensions occurs |
| Routing.Lookup | mini_server.c:437-456 | the first table entry whose extension occurs, with none before it; none means none occurs |
| Routing.MimeTypeIsFirstMatch | server.c:217-236 | the if-chain is the ordered table read from the front, with text/plain as the fallback |
| Routing.MimeTypeExamples | mini_server.c:438-439 | containment, not suffix: "./a/b.html" and "./x.html.png" are both text/html |
| Routing.PlainWithoutExtensionLetters | mini_server.c:453-455 | a path lacking the letter after the dot of each extension is text/plain |
| Routing.MimeTypeDefault | server.c:233-235 | "./noext" is text/plain |
| Dispatch.Permitted | mini_server.c:242-244 | the mode test: a file that is not regular is never served or run; a regular file the owner may read and execute is always permitted |
| Dispatch.Decide | mini_server.c:222-268 | a file is served or run only if the method is supported, stat finds it and the mode permits it; a program reads the body exactly for POST, and only when Content-Length was given |
| Dispatch.DecideCases | server.c:149-186 | each verdict of the 501/404/403/static/411/program chain, and exactly the inputs that lead to it |
| Dispatch.HeadDecidedAsGet | mini_server.c:223-268 | HEAD is decided exactly as GET |
| Dispatch.LengthOnlyMattersForPost | mini_server.c:255-262 | only a POST to a program looks at the Content-Length |
| Dispatch.PostWithLengthRuns | server.c:176-182 | a POST to a permitted program gets 411 exactly when no Content-Length was seen; any other value, even a negative one, runs it |
| MiniServer.Initial | mini_server.c:180-182 | the loop starts with no method and size_payload = -1 |
| MiniServer.DecodedBuffer | mini_server.c:206 | uri after decode_uri holds the decoded target, still fitting the file name buffer |
| MiniServer.RequestLineStep | mini_server.c:202-210 | sscanf then decode_uri keep uri within its buffer |
| MiniServer.RequestLineStepOf | mini_server.c:204-206 | the method is the first token; uri is the second token copied over the old contents, then decoded |
| MiniServer.RequestLineStepOfWords | mini_server.c:202-206 | a three-word line sets the method to its first word and uri to its decoded second word |
| MiniServer.ContentLengthStep | mini_server.c:212-219 | a POST's line always has byte 15 cut to NUL |
| MiniServer.ContentLengthReadsBack | mini_server.c:215-217 | "Content-Length: N" gives size_payload N |
| MiniServer.GluedLengthReadsZero | mini_server.c:215-217 | "Content-Length:7" with nothing after byte 15 gives 0 |
| MiniServer.ContentLengthNeedsName | mini_server.c:212-218 | strncmp matches only a line that starts with "Content-Length:": the NUL recv_line writes before byte 15 of a shorter line keeps the bytes of earlier lines out of the comparison |
| MiniServer.NoLengthLineKeepsSize | mini_server.c:193-220 | over the whole header loop: if "Content-Length:" occurs nowhere in what the client sends, size_payload ends as it began (-1 from Initial), whatever the method |
| MiniServer.LengthField | mini_server.c:214-217 | the header line "Content-Length: N": the name in bytes 0..14, the digits from byte 16, no CR, LF or NUL |
| MiniServer.LengthFieldReadsBack | mini_server.c:214-217 | the buffer recv_line leaves for "Content-Length: N" makes size_payload N |
| MiniServer.ScanLengthField | mini_server.c:193-220 | for a POST, "Content-Length: N\r\n" then "\r\n" ends the loop after both lines with size_payload N, method and uri kept |
| MiniServer.RequestLinePass | mini_server.c:193-209 | the pass over a three-word request line sets the method and the decoded target, leaves size_payload -1 and goes on after its CR LF |
| MiniServer.PostWithLengthRequest | mini_server.c:193-220 | "POST T V\r\nContent-Length: N\r\n\r\n": the loop ends after the three lines with POST, the decoded T and size_payload N |
| MiniServer.LowerCaseLengthIgnored | mini_server.c:216 | the name is case-sensitive: "content-length:" leaves size_payload unchanged |
| MiniServer.LineStep | mini_server.c:201-219 | a pass of the loop body keeps every buffer within its size |
| MiniServer.ScanHeaders | mini_server.c:193-220 | the loop over the client's bytes never consumes more than was sent |
| MiniServer.ScanStep | mini_server.c:193-220 | one pass: -1 stops the loop with 400; length 0 ends it after this line; otherwise the loop goes on after the line |
| MiniServer.ScanKeepsVerb | mini_server.c:202 | once a method is known no later line changes it |
| MiniServer.NoLengthUnlessPost | mini_server.c:213 | without POST size_payload keeps its value (-1 from the start) |
| MiniServer.ScanExtent | mini_server.c:193-220 | where the loop stops never lies past the bytes sent |
| MiniServer.ScanExtentOf | mini_server.c:193-220 | whether the loop ends at an empty line, and where, depends on the bytes alone, not on what the lines say |
| MiniServer.ExtentEndsAtEmptyLine | mini_server.c:193-194 | the bytes end the loop only right after a CR LF that opens the input or follows a line end |
| MiniServer.LineEndAt | mini_server.c:531-537 | the matcher completes only on an LF right after a CR |
| MiniServer.EmptyLineShift | mini_server.c:193-194 | an empty line found after a line end is one in the whole input |
| MiniServer.ScanEndsAtEmptyLine | mini_server.c:193-220 | a loop that ends normally has just read the empty line "\r\n" |
| MiniServer.ReadPlainLine | mini_server.c:194 | a line with no LF nor a final CR leaves exactly that line as the buffer's C string |
| MiniServer.RequestLineOfWords | mini_server.c:202-219 | a first line "M T V" sets the method to M and uri to the decoded T; size_payload is unchanged |
| MiniServer.EmptyLineKeepsHead | mini_server.c:212-219 | the empty line changes neither the method nor size_payload |
| MiniServer.WellFormedRequest | mini_server.c:193-220 | "M T V\r\n\r\n": the loop ends after both lines with method M, the decoded T and size_payload -1 |
| MiniServer.PlainRequestLine | mini_server.c:204 | a line of words and single spaces holds no LF and does not end in CR |
| MiniServer.ScanPlainLine | mini_server.c:193-220 | a non-empty plain line makes one pass and the loop goes on right after its CR LF |
| MiniServer.ScanEmptyLine | mini_server.c:193-220 | the empty line ends the loop and keeps method, target and size_payload |
| MiniServer.RequestLineByte | mini_server.c:204 | no byte of such a line is CR or LF |
| MiniServer.LfOnlyRequestIsBadRequest | mini_server.c:194-199 | a client that sends no CR gets 400 after min(buffer size, sent) bytes |
| MiniServer.ErrorResponse | mini_server.c:274-294 | serve_error's output starts with the status line and the fixed headers |
| MiniServer.StaticResponse | mini_server.c:299-337 | serve_static's output starts with the 200 headers carrying type and length |
| MiniServer.EmptyFileGetsTwoResponses | mini_server.c:325-330 | an empty file, which mmap cannot map, gets the 200 headers followed by a 404 page naming the path |
| MiniServer.HeadIsGetWithoutBody | mini_server.c:284-287 | for HEAD the output is exactly the headers GET gets, and nothing after them |
| MiniServer.ErrorPageNamesCause | mini_server.c:289-293 | except for HEAD, the error page contains its cause |
| MiniServer.ContainsGrows | mini_server.c:292 | what occurs in a piece occurs in the whole output |
| MiniServer.ContentLengthIsBodyLength | mini_server.c:309-333 | the headers end with the Content-Length field, whose value atoi reads as the number of body bytes after the headers |
| MiniServer.LengthValueReadsBack | mini_server.c:309 | the "%d" value before "\r\n\r\n" reads back as the size |
| MiniServer.Answer | mini_server.c:222-269 | the answer after the header loop never consumes more than the client sent; a POST's QUERY_STRING is the corrected one, the body alone |
| MiniServer.ProgramAnswer | mini_server.c:255-268 | a permitted program: 411 for a POST with no length, an overrun past the buffer, else the headers and QUERY_STRING from the body alone for POST (the corrected read) or the target otherwise; HEAD starts nothing |
| MiniServer.AnswerOfProgram | mini_server.c:234-247 | for a program only presence and the mode test matter |
| MiniServer.RouteAnswer | mini_server.c:233-269 | for a supported method: 404 naming the path, 403, the static file, or the program |
| MiniServer.AnswerMissingFile | mini_server.c:234-237 | a supported method on a missing path gets 404 naming the path |
| MiniServer.Respond | mini_server.c:171-270 | serve_content never consumes more than the client sent |
| MiniServer.RespondTo | mini_server.c:195-269 | after the loop: 400 when a line was rejected, else the answer to the request read |
| MiniServer.RespondNeverHangs | mini_server.c:193-220 | the handler never loops: it answers, starts a program or overruns |
| MiniServer.HeadIsAlwaysAnswered | mini_server.c:351-353 | a HEAD request is answered in full and never starts a program |
| MiniServer.MissingFileIsNotFound | mini_server.c:233-237 | a GET or POST of a missing path gets a 404 status line and headers and a page containing the path |
| MiniServer.ScanRequestLine | mini_server.c:202-206 | sscanf and decode_uri on their arrays compute RequestLineStep |
| MiniServer.ReadContentLength | mini_server.c:215-218 | buffer[15] = '\0' and the Content-Length test compute ContentLengthStep on the array |
| MiniServer.ApplyLine | mini_server.c:201-219 | the loop body on its arrays computes LineStep |
| MiniServer.ReadHeaders | mini_server.c:193-220 | the loop on its arrays leaves the result, method, size_payload, uri and cursor ScanHeaders gives |
| MiniServer.ServeError | mini_server.c:274-294 | serve_error writes exactly ErrorResponse |
| MiniServer.SendPieces | mini_server.c:279-293 | two header pieces and, unless for HEAD, two body pieces, each sent whole and in order |
| MiniServer.SendBoth | mini_server.c:307-310 | two send_nbytes calls write both pieces in order |
| MiniServer.ServeStatic | mini_server.c:299-337 | serve_static writes exactly StaticResponse |
| MiniServer.ServeDynamic | mini_server.c:342-361 | serve_dynamic writes the two headers; for HEAD nothing more, else the program runs with QUERY_STRING = cgiargs |
| MiniServer.ReadPostBody | mini_server.c:264-266 | the corrected POST body read, with the NUL the C code leaves out: min(n, available) bytes consumed and QUERY_STRING exactly those bytes |
| MiniServer.RunProgram | mini_server.c:255-268 | the program branch on the socket, with the corrected body read, computes ProgramAnswer |
| MiniServer.ServeRoute | mini_server.c:233-269 | stat, the mode test and the branch compute Answer |
| MiniServer.RouteFits | mini_server.c:420-429 | a target the loop accepts leaves room for "." and the default file in fname |
| MiniServer.AnswerRequest | mini_server.c:222-269 | from the method check on, the output, cursor and outcome are Answer's |
| MiniServer.AnalyzeRequest | mini_server.c:233 | parse_uri into fresh arrays gives RouteOf of the decoded target, the query in cgiargs |
| MiniServer.ServeContent | mini_server.c:171-270 | serve_content, with the corrected POST body read, writes exactly Respond's output, consumes its bytes and ends with its outcome |
| MiniServer.AnswerScanned | mini_server.c:195-269 | after the loop, the handler computes RespondTo |
| MiniServer.ReadRequestHead | mini_server.c:172-220 | the arrays serve_content declares, then the loop: ScanHeaders from Initial |
| MiniServer.ReadPostBodyAsWritten | mini_server.c:264-266 | as written, recv_nbytes alone: QUERY_STRING is the body followed by what parse_uri left in cgiargs |
| MiniServer.StaleQueryTail | mini_server.c:264-266 | as written, a body shorter than the URL query is followed by the rest of that query |
| MiniServer.StaleQueryExample | mini_server.c:264-268 | as written, POST /cgi-bin/p?abcdef with the body "a=1" runs the program with "a=1def" |
| MiniServer.PostQueryAsWritten | mini_server.c:264-266 | as written, QUERY_STRING starts with the body and may run on, but never past cgiargs |
| MiniServer.ErrorOutcomeAsWritten | mini_server.c:276-292 | as written, serve_error overruns buffer[128] exactly when code, message and cause total more than 97 bytes (for HEAD, when code and message total more than 115) |
| MiniServer.RejectionOverrunsAsWritten | mini_server.c:222-262 | as written, every error page of the chain overruns for a 501 method of 80+ bytes or a 404/403 path of 86+ bytes and never for 411; the model answers each with the whole page |
| MiniServer.LongMissingPathOverruns | mini_server.c:276-292 | as written, for any method but HEAD, the 404 page overruns the 128-byte buffer exactly when the path is 86 bytes or longer |
| MiniServer.MissingLongPathAsWritten | mini_server.c:233-237 | a GET or POST of a missing path of 86 bytes or more overruns as written; the model answers it with the page |
| TinyServer.RequestLine | server.c:134 | sscanf into fresh arrays: the method is the first token, uri holds the second, undecoded |
| TinyServer.HeaderStep | server.c:139-145 | the Content-Length test keeps the buffer's size; what it sets is stated by TinyServer.ContentLengthAnyCase, TinyServer.HeaderStepCuts and TinyServer.HeaderStepNeedsName |
| TinyServer.ContentLengthAnyCase | server.c:141-143 | for POST, "content-length:" in any mix of cases followed by " N" sets payloadSize to N |
| TinyServer.HeaderStepCuts | server.c:140-145 | only POST reads Content-Length; it only shortens the line |
| TinyServer.HeaderStepIdempotent | server.c:137-145 | a pass that reads nothing leaves the state as it was: the loop spins once fgets returns NULL |
| TinyServer.ScanLines | server.c:136-146 | the loop over the client's bytes never consumes more than was sent |
| TinyServer.ScanLinesStep | server.c:136-146 | one pass: fgets, the Content-Length test, then exit at "\r\n", spin at the end of the stream, or go on |
| TinyServer.NoCrPieces | server.c:136 | pieces of a CR-free sequence are CR-free |
| TinyServer.NoCrPass | server.c:137-145 | a CR-free stream and line leave a CR-free line after one pass |
| TinyServer.HeaderStepNeedsName | server.c:139-145 | without "content-length:" (any case, no NUL) at the buffer's front, buf[15] = '\0' and strcasecmp leave payloadSize and leave no such name behind |
| TinyServer.FgetsNeedsName | server.c:137 | fgets puts the name at the front of buf only when the stream holds it, in some case |
| TinyServer.NoLengthLineKeepsSize | server.c:136-146 | over the whole header loop: if "content-length:" in any case occurs nowhere in the stream, payloadSize ends as it began |
| TinyServer.NoLengthLineMeansMinusOne | server.c:132-146 | a request holding no "content-length:" in any case leaves payloadSize at -1, whatever the method |
| TinyServer.LengthField | server.c:141-143 | "<name> N" for a name that folds to "content-length:": no LF or NUL in it |
| TinyServer.HeaderStepOfField | server.c:139-145 | the buffer fgets leaves for "<name> N\r\n": strcasecmp matches and atoi reads N before the CR LF |
| TinyServer.ScanLengthField | server.c:136-146 | for a POST, "<name> N\r\n" then "\r\n" ends the loop after both lines with payloadSize N |
| TinyServer.PostWithLengthRequest | server.c:132-146 | "POST T V\r\n<name> N\r\n\r\n", the name in any case: POST, T as sent, the loop ends after the three lines with payloadSize N |
| TinyServer.NoCrNeverEnds | server.c:136-146 | a client that never sends a CR never ends the loop |
| TinyServer.ErrorResponse | server.c:238-252 | serveError's output starts with the status line and the fixed headers ending "\n\r\n" |
| TinyServer.StaticResponse | server.c:254-278 | serveStatic's output starts with the four header lines |
| TinyServer.HeadIsGetWithoutBody | server.c:244-246 | for HEAD the output is exactly the headers GET gets; GET adds the file's bytes |
| TinyServer.ErrorPageNamesCause | server.c:249-251 | except for HEAD, the error page contains its cause |
| TinyServer.ContentLengthIsBodyLength | server.c:262-276 | the headers end with "Content-length: N\n\r\n", where atoi reads N, the number of body bytes |
| TinyServer.ArgsBuffer | server.c:195-205 | cgiArgs after analyzeRequest: the query, NUL, then zeros |
| TinyServer.ProgramQuery | server.c:182 | fgets(cgiArgs, payloadSize + 1, stream) consumes no more than was sent |
| TinyServer.PostQueryIsBody | server.c:182 | a body with no LF and at least Content-Length bytes gives exactly those bytes as QUERY_STRING |
| TinyServer.NegativeLengthKeepsTargetQuery | server.c:178-182 | a Content-Length below -1 makes fgets read nothing: the target's query stays |
| TinyServer.Answer | server.c:148-186 | the answer after the header loop never consumes more than was sent |
| TinyServer.ProgramAnswer | server.c:174-186 | a permitted program: 411, an overrun past the buffer, the body fgets reads for POST, else the target's query; HEAD starts nothing |
| TinyServer.AnswerOfProgram | server.c:157-167 | for a program only presence and the mode test matter |
| TinyServer.RouteAnswer | server.c:156-186 | for a supported method: 404 naming the path, 403, the static file, or the program |
| TinyServer.FirstLine | server.c:132 | the first fgets leaves a line shorter than the buffer |
| TinyServer.RouteFits | server.c:208-213 | the route's path and query fit the arrays |
| TinyServer.ReadRequest | server.c:132-146 | the first line and the loop never consume more than was sent; the target fits its array |
| TinyServer.Respond | server.c:117-188 | serveContent never consumes more than the client sent |
| TinyServer.RespondTo | server.c:136-186 | after the loop: spinning with nothing written, or the answer |
| TinyServer.EmptyConnectionHangs | server.c:132-146 | a client that closes at once leaves the handler spinning |
| TinyServer.LfOnlyRequestHangs | server.c:136-146 | a client that sends no CR gets no answer: the handler spins with nothing written |
| TinyServer.RequestLineHasNoLf | server.c:134 | a line of words and single spaces holds no LF |
| TinyServer.FirstLineOfRequest | server.c:132 | the first fgets on "line\r\n..." leaves the line with its CR LF |
| TinyServer.EmptyLineEnds | server.c:136-146 | the empty line ends the loop without touching payloadSize |
| TinyServer.WellFormedRequest | server.c:132-146 | "M T V\r\n\r\n": method M, target T as sent, the loop exits after both lines, payloadSize -1 |
| TinyServer.HeadStartsNoProgram | server.c:287-289 | a HEAD request never starts a program |
| TinyServer.ScanRequestLine | server.c:134 | sscanf on its arrays computes RequestLine |
| TinyServer.ReadContentLength | server.c:140-145 | the test on the array computes HeaderStep |
| TinyServer.ReadHeaderLine | server.c:137-145 | one pass on the stream: Fgets, then HeaderStep |
| TinyServer.SkipHeaders | server.c:136-146 | the loop on the stream leaves how it ended, payloadSize and the cursor ScanLines gives |
| TinyServer.ServeError | server.c:238-252 | serveError writes exactly ErrorResponse |
| TinyServer.ServeStatic | server.c:254-278 | serveStatic writes exactly StaticResponse |
| TinyServer.ServeDynamic | server.c:280-298 | serveDynamic writes the two header lines; for HEAD nothing more, else the program runs with QUERY_STRING |
| TinyServer.RunProgram | server.c:174-186 | the program branch on the stream computes ProgramAnswer |
| TinyServer.ProgramArgs | server.c:176-185 | the query the program gets: the one fgets reads for POST, the target's otherwise, with the cursor moved accordingly |
| TinyServer.ServeRoute | server.c:156-186 | stat, the mode test and the branch compute Answer |
| TinyServer.AnswerRequest | server.c:148-186 | from the method check on, the output, cursor and outcome are Answer's |
| TinyServer.AnalyzeRequest | server.c:156 | analyzeRequest into fresh arrays leaves the query in cgiArgs |
| TinyServer.ServeContent | server.c:130-187 | serveContent writes exactly Respond's output, consumes its bytes and ends with its outcome |
| TinyServer.AnswerRead | server.c:136-186 | after the loop, the handler computes RespondTo |
| TinyServer.ReadRequestHead | server.c:132-146 | the first line, then the loop: ReadRequest |
| TinyServer.ReadRequestLine | server.c:132-134 | the first fgets and sscanf on fresh arrays: FirstLine, then RequestLine |

## Left out

- The accept loop, `fork`, the `close`/`fclose` calls, and the signal handlers (`cleanup`, `wait_child`, `waitChild`). These are process-level concurrency and signals, so the isolation of concurrent connections is not modelled either.
- `open_fd`/`openFd` (socket, bind, listen, `getaddrinfo`) and `main`. This is operating-system plumbing outside the request handler.
- `stat`, `open`, `mmap`, `munmap` and `write` of the file. They become the `FileSystem` map; a present file always opens, and only an empty one fails to map.
- `setenv`, `dup2`, `execve`. The handler's outcome `Exec(path, query)` names what would run and its `QUERY_STRING`; the program's own output is not modelled.
- `printf`/`perror` logging, and the `version` word, which is read but never used.
- `handle_error`'s `exit` on a transport error. `recv` and `send` never fail in the model.
- TinyServer.ServeError: treats every fprintf byte as delivered. server.c:56 opens the socket with `fdopen(fdConnect, "r+")` and writes after reading (server.c:132, 137, 182) with no `fseek` or `fflush` between; the C standard leaves output after input on an update stream undefined (ISO C 7.21.5.3), and a C library that tries to reposition a socket before writing would lose the answer.
- TinyServer.ServeStatic: assumes the same delivery of fprintf's bytes after fgets on the one `r+` stream.
- TinyServer.ServeDynamic: assumes the same delivery of fprintf's bytes after fgets on the one `r+` stream.
- TinyServer.ServeContent: assumes the same delivery of fprintf's bytes after fgets on the one `r+` stream.
- Socket.Connection.Print: appends to the output as if the stream were write-only; the read-then-write rule of an `r+` stream is not modelled.
- Socket.Connection.Send: a partial send moves 1 to n bytes, not 0 to n, because a 0 result makes the C loop in send_nbytes spin forever.
- `sscanf` and `atoi` are modelled as the token split and the sign-and-digits reading they perform. `atoi` is not limited to the range of `int`.
- MiniServer.Answer: for a POST to a program, QUERY_STRING is the body alone, terminated. As written it runs on into the URL query that parse_uri left in cgiargs (see Findings; the as-written read is ReadPostBodyAsWritten).
- MiniServer.ProgramAnswer: states the corrected POST QUERY_STRING, the body alone, as in MiniServer.Answer.
- MiniServer.RunProgram: reads the POST body with the corrected ReadPostBody, not with recv_nbytes alone as mini_server.c:264 does.
- MiniServer.ServeRoute: inherits the corrected POST QUERY_STRING from RunProgram.
- MiniServer.AnswerRequest: inherits the corrected POST QUERY_STRING from RunProgram.
- MiniServer.ServeContent: inherits the corrected POST QUERY_STRING; every other outcome is serve_content's as written.
- MiniServer.AnswerScanned: inherits the corrected POST QUERY_STRING from MiniServer.Answer.
- MiniServer.Respond: inherits the corrected POST QUERY_STRING from MiniServer.Answer.
- MiniServer.RespondTo: inherits the corrected POST QUERY_STRING from MiniServer.Answer.
- MiniServer.StaticResponse: the file's length is sent as the exact size. As written, meta.st_size (an off_t) is passed into `int fsize` (mini_server.c:251, 299), so for a file of 2^31 bytes or more the Content-Length, the mmap length and the bytes sent differ from the model's.
- MiniServer.ServeStatic: the same `int fsize` conversion is not modelled; files are taken to be shorter than 2^31 bytes.
- TinyServer.StaticResponse: the same `int fsize` conversion (server.c:171, 254) is not modelled; files are taken to be shorter than 2^31 bytes.
- TinyServer.ServeStatic: the same `int fsize` conversion is not modelled; files are taken to be shorter than 2^31 bytes.
- MiniServer.Answer: a POST whose Content-Length exceeds MAXSIZE ends in `Overrun` whatever the client sends. The C code overruns `cgiargs` only when more than MAXSIZE + 1 bytes actually arrive.
- TinyServer.Answer: a POST whose `payloadSize + 1` exceeds the buffer ends in `Overrun` whatever the client sends. The C code overruns `cgiArgs` only when a long enough body line arrives.
- Socket.TrailingCRs: its contract states only the bound. What the parity of the run means for the matcher is stated by MatcherStep and ReadLineCases.
- MiniServer.ServeError: it sends each piece whole. As written, serve_error `sprintf`s each piece into a 128-byte buffer first: see Findings.
- The header loop of `server.c` at the end of the stream is not run to divergence. The model stops at the fixed point it reaches and reports `Hang`.
- Uninitialised stack arrays hold zeros in the model. As written, the bytes after a C string in them are whatever was on the stack, so the stale tail in the first finding could also be stack garbage.

## Findings

| source | as written | input that shows it | evidently intended | confidence | as-written member | corrected member |
|---|---|---|---|---|---|---|
| mini_server.c:264-268 | `recv_nbytes(confd, cgiargs, size_payload)` writes no NUL after the body, so `QUERY_STRING` runs on into the URL query `parse_uri` left in `cgiargs` | `POST /cgi-bin/p?abcdef` with `Content-Length: 3` and body `a=1`: the program gets `a=1def` | the body alone, `a=1`, replaces the URL query | not executed | MiniServer.ReadPostBodyAsWritten, MiniServer.StaleQueryExample | MiniServer.ReadPostBody |
| mini_server.c:276-292 | `serve_error` formats the page line into `char buffer[128]` with `sprintf`; the line is 30 bytes plus the code, the message and the cause, so it overruns when those total more than 97 | a `GET` of a missing or forbidden path of 85 bytes or more after the "." (fname of 86+ bytes) gets a 404 or 403 that writes past the buffer; so does the 501 for a method of 80 bytes or more | the error page naming the cause is sent whole | not executed | MiniServer.ErrorOutcomeAsWritten, MiniServer.RejectionOverrunsAsWritten, MiniServer.LongMissingPathOverruns, MiniServer.MissingLongPathAsWritten | MiniServer.ServeError, MiniServer.MissingFileIsNotFound |
