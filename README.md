# A verified model of a tiny HTTP/1.1 origin server and caching proxy

The repository holds two Python programs that speak a small subset of
HTTP/1.1 over raw sockets.

- `server.py` is an origin server. Its `handleClient` reads a
  connection, cuts the text it receives into requests at every empty line
  (`\r\n\r\n`), and hands each request to a thread of its own. That thread
  (`handleRequestThread`) strips an optional leading `STREAM-ID: <n>` line,
  decides the answer (`handleRequest`: 505 for another HTTP version, 403 for
  `private.html`, 404 for a missing file, 304 when an `If-Modified-Since` line
  carries a date no earlier than the file's modification time, 200 with the
  file otherwise, 500 with the exception text when anything raises) and
  writes it out (`createResponse`). It is meant to send the response either
  in one piece or cut into frames `<id>|<endFlag>|<chunk>` of at most 512
  characters. As written, though, it calls both senders without their `lock`
  argument, so no response is ever sent (see "## Findings").
- `proxy.py` is a caching proxy. For each client it reads one request,
  rewrites it as `GET <path> HTTP/1.1` (adding `If-Modified-Since` with the
  stored date when the file is cached), asks the origin server, and then
  stores and answers a 200, answers a 304 for a cached file from the cache
  (as a 200), relays any other response byte for byte, and turns every error
  into a 500 page carrying the error's text.

The Dafny model follows the two files module by module:

| module | models |
|---|---|
| `Wrappers` | `Option` and `Result` |
| `Seqs` | `find`, `in`, `startswith`, `split(sep, 1)`, `split(sep)`, `join` over any sequence, so the same definitions serve `str` and `bytes` |
| `Chars` | `isspace`, `split()`, `strip()`, `lstrip(c)`, `str(n)`, `int(s)` |
| `Utf8` | bytes, strict UTF-8 `encode`/`decode`, `bytes.lower` |
| `Http` | the constants and the STATUS table both programs share, the head `createResponse` writes, the path-to-file mapping, and `str(e)` of the exceptions that become 500 pages |
| `StreamHeader` | `extractStreamIdAndCleanRequest` |
| `Framing` | `sendFramedResponse` (a method with its loop, proved against the function `FramesOf`) |
| `ServerHandler` | `handleRequest`, `handle200`, `handle304`, `handle403`, `handle404`, `handle500` (functions) and `createResponse` (a method with its loop) |
| `Dispatcher` | `handleClient` (a method with both of its loops, proved against the function `SplitAll`) and `handleRequestThread` as written and corrected |
| `ProxyCache` | the proxy's module-level `cache` dict, as a class with a `map` field |
| `Proxy` | the proxy's `createResponse`, `handle200` (a method with its loop that updates the cache), `handle304`, `handle505`, `handle500`, `createRequest`, `handleRequest` (a method that updates the cache, proved against the function `Respond`) and `handleClient` |

The environment enters the model as parameters:

- the filesystem is a map from file name to the file's text (or the error
  `open`/`read` raises) and its modification time;
- `datetime.strptime` is the function `parseDate`;
- the clock is a `date` string;
- the proxy's round trip to the origin server (`sendRequest`) is the
  function `exchange`;
- the chunks `conn.recv` returns are a sequence of byte strings;
- what a thread passes to `sendall` is returned as a sequence of texts.

## Model

| member | source | states |
|---|---|---|
| Seqs.SplitOnce | server.py:292 | `s.split(sep, 1)`: None exactly when `sep` does not occur; otherwise the text is the part before, `sep`, and the part after, split at the first occurrence |
| Seqs.JoinSplit | server.py:206-221 | joining the parts of a split with the separator gives the text back |
| Seqs.SplitJoin | server.py:99 | lines free of the separator's first element, joined and split again, come back unchanged |
| Seqs.FirstBlankLine | server.py:102 | a block of CRLF-terminated non-empty lines without CR, then CRLF and anything, splits at the first empty line into the joined lines and exactly the rest |
| Chars.Words | server.py:163 | `split()` gives non-empty words containing no whitespace, and no words exactly when the text is all whitespace |
| Chars.WordsJoin | server.py:163 | words joined by single spaces split back into the same words |
| Chars.WordsFront | proxy.py:181 | a word followed by a space is the first word of the text, and the words after the space follow it |
| Chars.LStrip | server.py:175 | `lstrip(c)` removes exactly the leading run of `c`: the result is a suffix, every removed character is `c`, and the result does not start with `c` |
| Chars.Strip | server.py:213 | `strip()` leaves a slice of the input with only whitespace before and after it, and the ends of that slice are not whitespace |
| Chars.ParseIntToString | server.py:213 | the model's `int` reads back what its `str` writes, for every integer, negative ones included (Python's 4300-digit limit is under Left out) |
| Chars.NatToString | server.py:94 | `str(n)` is a non-empty run of decimal digits |
| Utf8.Lower | proxy.py:103 | `bytes.lower()` maps exactly the bytes `A`-`Z` to `a`-`z` and keeps the length |
| Utf8.EncodeAppend | proxy.py:94 | encoding a concatenation is the concatenation of the encodings |
| Utf8.DecodeEncode | server.py:285 | decoding the UTF-8 encoding of any text gives the text back |
| Utf8.EncodeWithout | proxy.py:180 | an ASCII character absent from a text has its byte absent from the encoding |
| Http.ErrorPage | server.py:145-152 | the 500 body is the 500 heading followed by the error's text in a paragraph |
| Http.FileNameOf | server.py:166-175 | "/" and "" name `test.html`; any other path loses exactly its leading slashes, and the name never starts with "/" |
| Http.RestAfterFirstLine | server.py:206-221 | the lines after the first, joined by CRLF, are exactly the text after the first CRLF |
| Http.HeadLinesShape | server.py:83-99 | the head is the status line, Date, Server, and Content-Length and Content-Type only for a non-empty body, in that order |
| Http.HeadLinesWellFormed | server.py:83-99 | every head line is non-empty and free of CR, as long as the date is |
| Http.HeadParses | server.py:102 | a head followed by any body splits at its first empty line into the head lines and exactly that body |
| StreamHeader.ExtractStreamId | server.py:204-223 | without a `STREAM-ID:` first line the request is unchanged; an integer id is the value after the colon, and the request loses exactly its first line and CRLF; a non-integer id leaves the request as it was |
| StreamHeader.IdField | server.py:213 | `line.split(":")[1]` is the text between the prefix's colon and the next colon |
| StreamHeader.SpacedIdParses | server.py:213 | `int(" <id>".strip())` gives the id back |
| StreamHeader.TagThenExtract | server.py:204-223 | tagging a request with `STREAM-ID: <id>` and extracting gives back exactly the id and the request |
| Framing.EncodeAll | server.py:238 | one wire text per frame, each the id, a bar, the end flag, a bar and the payload |
| Framing.FrameFields | server.py:238 | the frame text written by `Framing.EncodeFrame` (server.py:238) splits at its first two bars into the id (which parses back), the flag and the whole payload, whatever the payload holds |
| Framing.FramesOf | server.py:226-238 | the payloads reassemble the response; there are ceil(len/512) frames, all full but the last and none empty; only the last has the end flag; every frame has the stream id |
| Framing.FramesStep | server.py:230-235 | the frame at offset `i` is the chunk `[i, i+512)` cut at the end, flagged last exactly when `i + 512 >= len` |
| Framing.SendFramedResponse | server.py:226-242 | the loop writes exactly the encoded frames of `FramesOf`, in order |
| ServerHandler.ConditionalGet | server.py:189-193 | the header loop passes exactly when every line passes; otherwise its outcome is that of a line before which every line passes |
| ServerHandler.NotModifiedIff | server.py:113-125 | for the If-Modified-Since loop of `handleRequest`, which checks each line with `handle304` (`ServerHandler.CheckLine`, server.py:113-125): when every If-Modified-Since line is readable, the loop never raises, and it answers not modified exactly when some line's date is no earlier than the mtime |
| ServerHandler.Handle200 | server.py:105-110 | a readable file is a 200 with its whole contents; an unreadable one is `Raised` with the read error's message |
| ServerHandler.HandleRequest | server.py:155-201 | of the decision `ServerHandler.Decide` (server.py:155-201) and its exception handler: not three words: 500 with the unpacking error; another version: 505 with no body, before any file is looked at; `private.html`: 403 whether it exists or not; a missing file: 404; an existing file: 304, the loop's error as 500, the file as 200, or the read error as 500; a 200 carries exactly some file's contents |
| ServerHandler.ConditionalRequest | server.py:184-196 | for a public existing file whose If-Modified-Since lines are readable: 304 if and only if some line's date is no earlier than the mtime; otherwise the whole file as 200, or the read error as 500 |
| ServerHandler.CreateResponse | server.py:81-102 | the loop writes the status line, the headers in insertion order, the empty line and the body |
| ServerHandler.ResponseParses | server.py:81-102 | a response splits at its first empty line into its head and exactly its body; the head lines are the status line, Date, Server and, for a non-empty body, a Content-Length naming its length |
| Dispatcher.SplitAllSound | server.py:290-297 | no dispatched request and no leftover holds an empty line, and the requests, each followed by the empty line, then the leftover, give back the input |
| Dispatcher.SplitAllAppend | server.py:285-292 | text arriving later never changes the requests already complete; splitting goes on from the leftover |
| Dispatcher.ReceivedEncoded | server.py:279-285 | a connection that sends non-empty UTF-8 texts delivers their concatenation and never fails to decode |
| Dispatcher.HandleClient | server.py:270-297 | the loops dispatch exactly the requests `SplitAll` finds in the decoded text, in order, keep its leftover, and report whether a decode error ended the connection |
| Dispatcher.HandleRequestThread | server.py:250-267 | the corrected thread sends the response's frames when the request carried a stream id, and the whole response in one piece otherwise |
| Dispatcher.AsWrittenNeverResponds | server.py:264-267 | as written (`Dispatcher.HandleRequestThreadAsWritten`, server.py:250-267), every thread ends in a TypeError for the missing `lock`; the corrected thread always sends a non-empty first text |
| Dispatcher.TaggedRequestFramed | server.py:256-265 | a request tagged with a stream id is answered in frames whose payloads reassemble the response to the untagged request |
| Dispatcher.UntaggedRequestPlain | server.py:256-267 | a request without a stream-id line is answered with its response in one piece |
| ProxyCache.Get | proxy.py:175 | `cache.get(name)` is Some exactly when the name is cached, and then holds its entry |
| ProxyCache.OriginCache.constructor | proxy.py:74 | the cache starts empty |
| ProxyCache.OriginCache.Store | proxy.py:107 | storing changes the entry under that name and no other |
| Proxy.CreateRequest | proxy.py:129-133 | with no cache entry, the header lines joined by CRLF with a final CRLF (just CRLF for no lines); with an entry, the same followed by one If-Modified-Since line with the stored date and CRLF |
| Proxy.StatusCodeOf | proxy.py:180-181 | a first line that does not decode is a UnicodeDecodeError; fewer than two words is an IndexError; a second word that is not an integer is a ValueError naming that word; otherwise the code is that word's value |
| Proxy.StatusCodeOfHead | proxy.py:180-181 | the status code read from a response whose head `createResponse` wrote is the code it was written with, whatever body follows |
| Proxy.EncodedStatusLineFirst | proxy.py:180 | the first CRLF-separated line of an encoded head is the encoded status line |
| Proxy.StatusWords | proxy.py:181 | the second word of a status line is the code's digits, which parse back to the code |
| Proxy.FirstLastModifiedFrom | proxy.py:102-105 | the index of the first header line that is Last-Modified in any letter case, with no such line before it; None exactly when there is none |
| Proxy.Upstream200 | proxy.py:99-106 | no empty line is an unpacking error; the stored body is exactly the bytes after the first empty line; the stored date is the value after `: ` on the first Last-Modified line, or the clock's date when there is no such line or its value is empty; a Last-Modified line without `: ` is an IndexError; a Last-Modified value that does not decode is a UnicodeDecodeError |
| Proxy.Handle200 | proxy.py:99-108 | the loop finds the first Last-Modified line; on success the entry is stored under the file name and the answer is a 200 with the body; on an error the cache is unchanged |
| Proxy.HandleRequest | proxy.py:152-191 | the response and the cache afterwards are those of `Respond` on the cache before |
| Proxy.HandleClient | proxy.py:194-205 | undecodable request bytes are answered 500 and leave the cache alone; otherwise the request is handled |
| Proxy.VersionRejected | proxy.py:162-163 | another HTTP version is answered 505 with the 505 page (`Proxy.Handle505`, proxy.py:114-117) before the origin server is asked, and the cache is unchanged |
| Proxy.UpstreamRequestShape | proxy.py:165-177 | the origin server gets `GET <path as sent> HTTP/1.1`, with If-Modified-Since and the stored date exactly when the mapped file name is cached |
| Proxy.FreshContentStored | proxy.py:183-184 | a readable upstream 200 is stored under the key with its Last-Modified text and the bytes after the empty line, and the client gets a 200 with exactly those bytes |
| Proxy.NotModifiedServedFromCache | proxy.py:185-186 | an upstream 304 for a cached file is answered 200 with the cached content (`Proxy.Handle304`, proxy.py:110-112), and the cache is unchanged |
| Proxy.OtherStatusRelayed | proxy.py:187-188 | any other status, a 304 for an uncached file included, is passed on byte for byte, and the cache is unchanged |
| Proxy.FailuresAnswer500 | proxy.py:190-191 | a bad request line, a failed exchange, an unreadable status code or an unreadable 200 is answered with the 500 page carrying that error (`Proxy.Handle500`, proxy.py:119-127), and the cache is unchanged |
| Proxy.OnlyKeyChanges | proxy.py:107 | a request changes at most the cache entry under its own key |
| Proxy.ConditionalAfterFetch | proxy.py:129-133 | after a stored 200, the next request for the same path asks the origin server conditionally, with the stored date |
| Proxy.EncodeTerminated | proxy.py:94 | encoding CRLF-terminated lines gives the encoded lines, each followed by the bytes CR LF |
| Proxy.EncodedHeadParses | proxy.py:94-97 | an encoded head and any bytes split at the first empty line into the encoded head lines and exactly those bytes |
| Proxy.ProxyResponseParses | proxy.py:76-97 | every proxy response written by `Proxy.CreateResponse` (proxy.py:76-97) is its encoded head lines, the empty line and the body byte for byte; the head is the status line, Date, Server and, for a non-empty body only, a Content-Length giving its length in bytes and Content-Type |
| Proxy.HeadWithoutLastModified | proxy.py:101-106 | a response whose head `createResponse` wrote has no Last-Modified line, so a 200 of that shape is stored with the proxy's date and its body |
| Proxy.NoLastModifiedLine | proxy.py:103 | lines starting with H, D, S or C never match `last-modified:` in any letter case |
| Proxy.RelayServerResponse | proxy.py:183-188 | for a response whose head `createResponse` wrote: a 200 is stored with the proxy's date and answered with its body; a 304 for a cached file is answered from the cache; anything else is passed on unchanged |

## Left out

- Sockets, `bind`/`listen`/`accept`, `startServer` and `startProxy` are not modelled. `conn.recv` chunks are an input sequence, and what is written is returned.
- `receiveResponse` and `sendRequest` are not modelled: the proxy's round trip to the origin server is the function parameter `exchange`.
- Threads are not modelled. Each server request is answered on its own (`Delivery`), without interleaving. The write lock, and the order in which the frames of concurrent responses reach the connection, are left out.
- The proxy's cache is shared by its client threads without a lock; the model runs one request at a time.
- Proxy.HandleRequest: `handle304` reads `cache[filename]` a second time (proxy.py:111). Run one request at a time, that is the entry read at proxy.py:175, so the model uses it directly. Another thread changing the entry in between is not modelled.
- Logging (`print`) is not modelled.
- The filesystem is a map. `os.path.join(BASE_DIR, …)` and `os.path.exists` become a key lookup, and `os.path.getmtime` with `utcfromtimestamp` becomes the entry's `mtime`.
- Date formatting and date parsing are not modelled. The server's and the proxy's `formatdate` readings are one `date` parameter per response, and `datetime.strptime` is the function parameter `parseDate` (a time in the mtime's units, or the text of the ValueError).
- Chars.ParseInt: does not accept `_` separators or non-ASCII decimal digits, which Python's `int` does. Neither occurs in the texts these programs write.
- Chars.ParseInt: has no digit limit. From Python 3.11, `int()` raises ValueError for a decimal text of more than 4300 digits, and `str()` of such an integer raises too. On those versions a `STREAM-ID` line with a longer id stays in the request (server.py:204-223), so the server answers 500 where the model strips the line. `Chars.ParseIntToString` is a statement about the model's functions, not about Python beyond that limit.
- ServerHandler.CreateResponse: the Content-Length is the body's length in characters, as `len(body)` counts it for `str`; the model keeps that as written and does not claim it equals the byte length on the wire.
- Http.PyError.Message: the text of a UnicodeDecodeError is a fixed string. The byte position and the reason Python reports are left out.
- Http.PyError.Message: the ValueError of `int()` shows the literal between single quotes. Python shows its `repr`, cut to 200 characters: a word holding `'` is shown between double quotes, and backslashes and non-printable characters are escaped. The proxy puts this text into its 500 page (proxy.py:181, proxy.py:190-191), so for such status words the page text differs.
- The server sends `response.encode()`. The model returns the texts before encoding; `Utf8.DecodeEncode` is what connects the two.
- `handle505` in server.py is never called: `handleRequest` calls `createResponse(505)` with no body. The model follows `handleRequest`.
- The proxy ends its upstream request with a single CRLF (proxy.py:133), while the server only answers once it has seen an empty line (server.py:290). The model treats each program separately, against its own contract, and makes no claim about a proxy and a server run together.
- Proxy.CreateRequest: `createRequest` appends the If-Modified-Since line to the caller's `headers` list in place. The model returns the request text and does not model the mutation of that list, which the caller never reads again.
- proxy.py opens one connection per request, sends plain HTTP and reads until the connection closes (proxy.py:135-150). It has no frame decoder, stream-id counter or demultiplexer, so the model has none.
- The filesystem is keyed by name, so path aliases are not modelled. server.py:180 compares the name text with `private.html`, while `os.path.exists` at server.py:184 resolves `.` and `..`; a request for `/./private.html` would therefore pass the 403 check in the source and be served as a 200. In the model every name is a distinct key, so it cannot show this.

## Findings

| source | as written | input that shows it | evidently intended | confidence | as-written member | corrected member |
|---|---|---|---|---|---|---|
| server.py:264-267 | `handleRequestThread` calls `sendFramedResponse(conn, streamId, response)` and `sendRegularResponse(conn, response)` without the `lock` both functions require (server.py:226, server.py:245), so every call raises TypeError before anything is sent | any request, e.g. `GET / HTTP/1.1` followed by an empty line | pass the connection's write lock, so that the response (framed or plain) is written | high (not executed) | Dispatcher.HandleRequestThreadAsWritten, with Dispatcher.AsWrittenNeverResponds | Dispatcher.HandleRequestThread |
