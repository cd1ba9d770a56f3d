# Verified model of netx

This project models five parts of netx in Dafny 4.11 and proves what they
promise:

1. **The HTTP response framer** (`Chunked.dfy`, `ChunkWriter.dfy`,
   `ResponseWriter.dfy`): a response writer with a 512-byte coalescing buffer, a
   bypass for large writes, two body framings and sticky errors, on a sink that
   may fail at any byte. It is proved against a decoder of the chunked coding
   that was written from section 4.1 of RFC 7230 alone, and against a receiver
   that follows section 3.3.3.
2. **The PROXY protocol codec** (`ProxyHeader.dfy`, `ProxyTheorems.dfy`,
   `ProxyWire.dfy`, `ProxyConn.dfy`): the printers and the streaming parser of versions 1 and 2
   (sections 2.1 and 2.2 of the HAProxy document), over connections that split
   their bytes in any way. Version 2 is modelled as the code has it, without the
   length field behind the family byte.
3. **Accept negotiation and the quoted-string lexer** (`Lex.dfy`, `Quote.dfy`,
   `Media.dfy`, `Accept.dfy`, `AcceptSpaces.dfy`, `Negotiate.dfy`): four layers of printer and parser,
   the quote-aware splitter, the four-key order, and a negotiation whose answer
   does not depend on an unstable sort.
4. **Two goroutine protocols** (`ServeProtocol.dfy`, `MultiListener.dfy`): graceful
   shutdown and the fan-in of listeners, as transition systems in which the
   environment chooses every interleaving, with inductive invariants and
   decreasing measures.
5. **The retry state machine and header lists** (`HeaderLists.dfy`,
   `HopFields.dfy`, `Retry.dfy`): isolation of failed attempts, two different walkers
   of comma-separated lists, token removal, and hop-by-hop fields.

`Bytes.dfy` and `Headers.dfy` hold the number formats and the type that they share.

Code that changes things step by step is modelled by classes and methods with
loops; each is proved against a specification function or directly against the
property, and the lemmas are about those functions. `dafny verify dfyconfig.toml`
checks the whole project.

## Where the code falls short of what one would expect

Each of these is stated with its exact condition.

- A handler that makes no call at all: `close` runs before the framing is chosen
  (httpx/server.go:186-187, 450-458), so that a chunked body is announced and
  never ended. `ResponseWriters.Respond` proves that the body is complete if and
  only if the handler made a call or declared a length.
- A handler that sets Content-Length and Transfer-Encoding, or different lengths, or
  a second spelling of one of the two fields: all lines are sent
  (httpx/server.go:351-367), and a receiver reads them without regard to case. The
  comment on `hasBody` (httpx/server.go:292) speaks of the request method, but the
  code looks at the status alone (httpx/server.go:335-337), so that a response to
  HEAD, or a successful one to CONNECT, may carry a body.
  `ResponseWriters.FramingIsAnnounced` proves exactly when the header announces the
  framing that is used, and `ResponseWriters.ReceiverTakesBody` exactly when a
  receiver takes the body and leaves the bytes behind it alone; after these two
  requests that is if the status has no body, or a length is declared and it or
  the data are empty.
- The count that a Write on the chunk writer returns falls short if the bypass
  follows a buffer that was filled up (httpx/server.go:489):
  `ChunkWriters.ChunkWriter.Write` gives the count and the condition.
- Version 2 headers with an unspecified family and a concrete kind of socket make
  the parser read a port out of an empty slice (proxy.go:364-367):
  `ProxyTheorems.WhenParsePanics` gives exactly these headers, and
  `ProxyTheorems.NilAddressPanics` shows that the printer produces them for a nil IP.
- Version 2 takes the family from the source address alone (proxy.go:249-259):
  `ProxyTheorems.V2RoundTrip` holds if and only if the addresses are `Recoverable`.
- Version 1 does not look at the length of what it prints: a line is read back if
  and only if it has at most 107 bytes, no IP is nil, no port is negative and no zone is
  set (`ProxyTheorems.V1RoundTrip`). Ports of 16 bits always fit. Neither version
  prints a zone.
- Parameters are split at semicolons without a look at quotes
  (httpx/media.go:71-88), and the first parameter called q ends the parameters of a
  range (httpx/accept.go:86-97): `AcceptHeaders.AcceptRoundTrip` holds if and only if
  no value holds a semicolon and no parameter before the weight is called q.
- White space is allowed behind every semicolon and around every comma, but in front
  of the first semicolon of an item it makes the item an error, because the subtype,
  or the coding, is not trimmed (httpx/media.go:55-69, httpx/accept.go:219-243):
  `AcceptSpaces.SpacesDoNotMatter`, `AcceptSpaces.SpaceBehindSubtype` and
  `AcceptSpaces.SpacedCoding`.
- `headerValuesRemoveTokens` may lose the empty token: a list such as `a,` contains
  it before and not after (`HeaderLists.EmptyTokenIsLost`). For every other token
  removal is exact, and for the empty one `HeaderLists.EmptyTokenIsExact` proves that
  it is if and only if the empty token is itself removed, or the loop sees it in
  one of the lists, or no list is empty or ends with a comma.
- `deleteHopFields` keeps the field Close when Connection names it literally as
  `close` (httpx/proto.go:37), and it never reaches a field that was stored under a
  name that is not canonical: `HopFields.HopFreeIsExact`, for every key.
- In `Server.serve` the WaitGroup is released before `Recover` runs
  (server.go:163-165). `ServeProtocol.RecoverMayOutliveServe` proves that a panic may
  still have to be reported when Serve has returned if and only if some handler
  may panic, and `ServeProtocol.GoroutineMayOutliveServe` that the goroutine of a
  handler may still be there if and only if a connection may be accepted.
- A retried handler that calls WriteHeader(0) before it settles on a status gets
  past the guard, and the client is sent a header for it. `Retries.IsolationIsExact`
  and `Retries.ServeHTTP` prove that failed attempts are isolated from the client if
  and only if no attempt makes such a call; `Retries.ZeroStatusIsSentTwice` is a run
  of the whole handler in which one does.
- When every listener of a MultiListener has failed for good, their goroutines wait
  for Close, and a call of Accept waits with them:
  `MultiListenerProtocol.StrandedForCause` gives this as an if-and-only-if.

## Model

| member | source | states |
|---|---|---|
| `Chunked.DecodeEncode` | httpx/server.go:531-548 | Decoding any list of non-empty chunks gives the concatenated data back, whatever bytes follow |
| `Chunked.DecodeExtends` | httpx/server.go:531-548 | The decoder is monotone: later bytes never change what was decoded, malformed is final, and a complete body stays the same body |
| `Chunked.OpenBody` | httpx/server.go:531-548 | Chunks without the last one are a correct unfinished body that carries exactly the data |
| `Chunked.ClosedBody` | httpx/server.go:507-512 | Chunks and the last chunk are one complete body for all the data with nothing left over |
| `Chunked.CutBody` | httpx/server.go:507-548 | A body cut at any byte is a correct start that carries a prefix of the data, and is complete exactly if nothing was cut off |
| `ChunkWriters.CoalesceConserves` | httpx/server.go:480-505 | Coalescing neither loses, duplicates nor reorders a byte, emits no empty chunk and leaves at most 512 bytes |
| `ChunkWriters.CoalesceIsSparing` | httpx/server.go:480-505 | Nothing is emitted as long as the 512 bytes have room, except for a large write on an empty buffer, and no chunk that a Write emits is smaller than 512 bytes |
| `ChunkWriters.EmittedStep` | httpx/server.go:481-503 | One round of the copying loop, also one that copies nothing because the buffer is full, leaves the outcome of the whole write unchanged |
| `ChunkWriters.CutChunk` | httpx/server.go:531-548 | A chunk cut at any byte extends the encoding so far to a prefix of the encoding with that chunk |
| `ChunkWriters.ChunkWriter.WriteChunk` | httpx/server.go:531-548 | On a good sink one chunk is added; on a sink that fails a prefix of it, and the count is of the data bytes in that prefix; an empty chunk is never written |
| `ChunkWriters.ChunkWriter.Write` | httpx/server.go:480-505 | Terminates; all of p is taken, what is emitted and what stays buffered are those of the coalescing specification, a failed sink gets nothing more, and the count returned is that of p except when the bypass follows a buffer that was filled up |
| `ChunkWriters.ChunkWriter.Flush` | httpx/server.go:514-529 | A prefix of the chunk of the buffered bytes is emitted, all of it without a failure; exactly the bytes that are not in that prefix stay buffered |
| `ChunkWriters.ChunkWriter.Close` | httpx/server.go:507-512 | Ends the body; the last chunk is attempted only behind all of the data |
| `ChunkWriters.ChunkWriter.BodyDecodes` | httpx/server.go:480-529 | After any run of Write and Flush the output decodes to a correct start of a body, and decoded data and buffer together are everything written; after a failure the decoded data are a prefix of it |
| `ChunkWriters.ChunkWriter.ClosedBodyDecodes` | httpx/server.go:507-512 | After Close the output is one complete body for all the data; after a failure it is complete only if it carries all of it |
| `ResponseWriters.ResponseWriter.SendHead` | httpx/server.go:373-391 | The connection accepts the whole header block, or a prefix of it if it fails |
| `ResponseWriters.ResponseWriter.ChooseFraming` | httpx/server.go:328-371 | The status settles whether there is a body, chunked exactly if the handler declared no length, and the fields that go with it |
| `ResponseWriters.ResponseWriter.WriteHeader` | httpx/server.go:327-392 | The first call sends the header block, with 200 for 0, without either framing field for 1xx, 204 and 304, with the declared length or else the chunked coding for every other status, with a date, and with every other field as it was; every later call changes nothing |
| `ResponseWriters.ResponseWriter.Write` | httpx/server.go:395-432 | Sends the header block first if needed, refuses a body for statuses without one, reports bytes beyond the declared length, returns how many bytes the framing took, and does nothing after an error |
| `ResponseWriters.ResponseWriter.WriteDeclared` | httpx/server.go:407-426 | Of p exactly as many bytes are sent as the declared length still allows, their number is returned, and an error is reported exactly if some were left |
| `ResponseWriters.ResponseWriter.Flush` | httpx/server.go:435-448 | Starts the response if needed and empties the chunk buffer; nothing happens after an error |
| `ResponseWriters.ResponseWriter.Hijack` | httpx/server.go:298-319 | What was buffered is sent before the connection is handed over, and the writer sends nothing afterwards |
| `ResponseWriters.ResponseWriter.Close` | httpx/server.go:450-458 | Ends a chunked body that was started and otherwise changes nothing, not even the status |
| `ResponseWriters.HeaderIsSent` | httpx/server.go:335-371 | The sent header field by field: what becomes of the framing fields for each status, that Date is added only if it is missing, and that nothing else is changed or added |
| `ResponseWriters.ParseUintOfDigits` | httpx/server.go:357 | A declared length is the number that its decimal digits stand for, within 64 bits |
| `ResponseWriters.FramingIsAnnounced` | httpx/server.go:334-367 | What the sent header announces to an HTTP/1.1 receiver, whose own rules are those of section 3.3.3 of RFC 7230, is the framing in use, exactly if the status is 1xx, 204 or 304, or the request was neither HEAD nor a successful CONNECT and no line in any spelling says anything else about the framing |
| `ResponseWriters.ReceiverTakesBody` | httpx/server.go:327-458 | For every method, status and header, in any spelling of its fields: exactly when an HTTP/1.1 receiver takes the expected body and leaves the bytes behind it alone; for 1xx, 204 and 304 nothing is sent |
| `ResponseWriters.StartedFrames` | httpx/server.go:395-458 | A response that was started has sent its header block, and behind it a correct start of its body, never beyond a declared length, or all of it once it was closed |
| `ResponseWriters.Respond` | httpx/server.go:167-206 | For any calls of a handler, then close and flush: one header block, then a body that is empty, the first min(N, total) bytes, or a complete chunked body of all writes, exactly if the handler made a call or declared a length; on a failing connection a prefix of the header block, or the block and a start of that same body |
| `ProxyTheorems.V1RoundTrip` | proxy.go:146-176 | A printed line of version 1, whatever follows it, is read back with the same addresses exactly if it has at most 107 bytes, which is always so for 16-bit ports, no IP is nil, no port negative and no zone set; the outcome of every other line is given too |
| `ProxyTheorems.V1Truncated` | proxy.go:271-302 | Every strict prefix of a printed line is rejected |
| `ProxyTheorems.ParseV1OfLine` | proxy.go:377-433 | The word by word parser recovers both addresses, IPs in 16-byte form and zones lost, and both ports, and rejects nil IPs and ports that were printed from negative numbers |
| `ProxyTheorems.LineV1Shape` | proxy.go:146-176 | A printed line holds no line break before its end, and 16-bit ports keep it within 107 bytes |
| `ProxyWire.LineOnWire` | proxy.go:146-176 | The words of a printed line in their order: PROXY, TCP4 for an IPv4 source and TCP6 for any other, both addresses, both ports in decimal, and CRLF |
| `ProxyWire.FiveWords` | proxy.go:377-433 | The verdict on any five words behind PROXY and on what follows a sixth space: the family word first, then addresses, ports and extra bytes |
| `ProxyWire.SpaceIsOptional` | proxy.go:385-387 | The space behind PROXY may be missing |
| `ProxyWire.AtoiOfText` | proxy.go:415-423 | Ports are decimal with an optional sign, within 64 bits |
| `ProxyWire.LineVerdict` | proxy.go:271-302 | Every line is judged by its words if it ends within 107 bytes, whatever follows it, and rejected otherwise |
| `ProxyWire.OtherBytes` | proxy.go:276-374 | Fewer than 14 bytes, and bytes that begin with neither signature, are rejected |
| `ProxyTheorems.WordThen` | proxy.go:435-444 | A word ends at the first space, and everything behind it is left |
| `ProxyTheorems.V2RoundTrip` | proxy.go:178-269 | A printed block, whatever follows it, is read back with both addresses, the kind of socket and the PROXY/LOCAL flag, exactly if the addresses are of one family and have no zone, ports have 16 bits, and names have at most 108 bytes without NUL |
| `ProxyTheorems.V2Shape` | proxy.go:178-269 | Signature, version, command, family and socket type stand at their places in the printed block, whose length is the one that the parser expects exactly if the family is one |
| `ProxyTheorems.V2Truncated` | proxy.go:304-362 | Every strict prefix of a printed block is rejected, that of a block of mixed families included |
| `ProxyWire.HeadOnWire` | proxy.go:259-268 | The first 14 bytes of a block: signature, version and command, family and kind of socket |
| `ProxyWire.FourOnWire` | proxy.go:215-268 | IPv4: 26 bytes, with source address, destination address, source port and destination port, most significant bytes first |
| `ProxyWire.SixOnWire` | proxy.go:215-268 | IPv6: 50 bytes in the same order |
| `ProxyWire.NamesOnWire` | proxy.go:233-247 | Unix: 230 bytes, with both names in fields of 108 bytes that are filled up with zeros |
| `ProxyWire.BlockVerdict` | proxy.go:304-370 | Every verdict on a block, by its bytes 12 and 13 and its length: which blocks are accepted and how much is used, and which error the others get |
| `ProxyTheorems.NameSurvives` | proxy.go:460-478 | A Unix name survives the fixed field exactly if it has at most 108 bytes and no NUL |
| `ProxyTheorems.AddrSurvives` | proxy.go:446-487 | Each address is rebuilt from its fields exactly if it fits them |
| `ProxyTheorems.WhenParsePanics` | proxy.go:326-367 | The parser panics on exactly the headers that mix an unspecified family with a stream or datagram socket |
| `ProxyTheorems.NilAddressPanics` | proxy.go:215-257 | A source without an IP is printed as such a header |
| `ProxyConns.ReadAtLeast` | proxy.go:271-362 | The bytes read are the next of the stream, at least the minimum unless the stream ended, however it is split |
| `ProxyConns.ParseProxyProto` | proxy.go:271-375 | The outcome is a function of the bytes delivered and not of their fragmentation; all accesses stay within 256 bytes; after an accepted header, the bytes returned and the bytes still to come are exactly what follows it |
| `ProxyConns.ReadLine` | proxy.go:283-298 | The first CRLF within 107 bytes is found if there is one, whatever pieces the line arrives in |
| `ProxyConns.WindowGrows` | proxy.go:283-298 | A CRLF found early stays the first one, and neither stale buffer bytes nor bytes beyond the limit matter |
| `ProxyConns.ParseBlock` | proxy.go:304-370 | Version 2 errors in the order of the code, and the block however it is split |
| `ProxyConns.MakeAddrs` | proxy.go:364-367 | The slice for the last port, which runs to the end of the buffer, gives the same address as the field alone |
| `ProxyConns.ProxyConn.Read` | proxy.go:129-136 | Hands out the next bytes of buffer and connection in order, and reports the end only when both are empty |
| `ProxyConns.Drain` | proxy.go:129-136 | Reading to the end, with a buffer of any size, gives exactly the buffered bytes and then the rest of the connection |
| `ProxyConns.ServeConn` | proxy.go:95-127 | The handler reads all that follows an accepted header and nothing else, and sees its source as the peer; a LOCAL connection is closed unread, and every error is raised |
| `ProxyConns.ServePrinted` | proxy.go:95-375 | Printer, connection, parser and handler together: the payload arrives unchanged, both addresses are recovered, and the handler sees the source |
| `ProxyConns.AppendProxyProtoV1` | proxy.go:146-176 | Appends the line of version 1 behind whatever b holds, for every port, with the family word that belongs to the source |
| `ProxyConns.AppendProxyProtoV2` | proxy.go:178-269 | Appends the block of version 2 behind whatever b holds, for every kind of address |
| `Lex.TokenChars` | httpx/httplex.go:107-138 | Token characters are visible ASCII without the delimiters of section 3.2.6 of RFC 7230, and optional white space is space and tab |
| `Lex.TrimKeepsMiddle` | httpx/httplex.go:142-154 | Trimming removes nothing but white space, from the ends only, and leaves none there |
| `Lex.TrimOWS` | httpx/httplex.go:142-154 | The two shrinking loops compute that |
| `Lex.TokenEqual` | httpx/httplex.go:177-191 | Equality up to the case of ASCII letters, false for any other character |
| `Lex.SameTokenMeans` | httpx/httplex.go:169-191 | Character by character: ASCII, and the same or the other case of a letter |
| `Lex.SameTokenEquivalence` | httpx/httplex.go:177-191 | Although only one side is looked at for other characters, it is symmetric and transitive |
| `Quotes.EscapeTable` | httpx/quote.go:95-130 | Exactly nine characters are escaped, each by its letter |
| `Quotes.UnescapeTable` | httpx/quote.go:16-69 | Seven letters stand for another character behind a backslash, and every other character for itself |
| `Quotes.QuoteRoundTrip` | httpx/quote.go:16-92 | Every string is given back by parsing its quoted form, and by parsing it as it is printed in a header |
| `Quotes.CutQuoteRejected` | httpx/quote.go:16-69 | A quoted string cut anywhere before its closing quote is rejected |
| `Quotes.ParseQuoted` | httpx/quote.go:16-69 | The loop with its escape flag computes the recursive unescaping, errors included |
| `Quotes.WriteQuoted` | httpx/quote.go:95-130 | Copying runs of plain characters equals escaping character by character |
| `Quotes.SplitIsExact` | httpx/quote.go:134-164 | The head holds no separator outside of quotes, the cut is outside of quotes, and head, separator and tail rebuild the input |
| `Quotes.SplitLoop` | httpx/quote.go:134-164 | The loop with its two flags cuts where that automaton does |
| `Quotes.SplitTrimOWS` | httpx/quote.go:168-173 | Both parts are trimmed, and the tail is shorter than a non-empty input |
| `Quotes.SplitClosed` | httpx/quote.go:134-164 | A text that is closed under quotes is cut off whole, whatever follows its separator |
| `Quotes.ClosedQuote` | httpx/quote.go:87-130 | A quoted text is closed: its separators, quotes and backslashes are never taken for the list's |
| `Media.ParamsRoundTrip` | httpx/media.go:34-99 | Printed parameters are read back exactly if no value holds a semicolon, and are rejected otherwise |
| `Media.RangeRoundTrip` | httpx/media.go:34-99 | The same for a whole media range |
| `Media.CutParamRejected` | httpx/media.go:71-152 | What is left of a parameter that was cut at a semicolon in its value is an error and never another parameter |
| `Media.ParseMediaParam` | httpx/media.go:124-152 | Splits at the first equals sign, checks the name and unquotes the value |
| `Media.ParseMediaRange` | httpx/media.go:43-99 | Computes the recursive grammar of a range, errors included |
| `Media.ParseParamList` | httpx/media.go:71-88 | The shrinking loop gives the parameters in order, or fails at the first bad one |
| `Media.TypeIsExact` | httpx/media.go:178-202 | A media type is a token, a slash and a token, and nothing else |
| `Media.StringLessMeans` | httpx/media.go:204-215 | Types are ordered by the first character in which they differ, and behind their prefixes |
| `Media.MediaTypeOrder` | httpx/media.go:204-215 | mediaTypeLess is a strict total order with the wildcard last |
| `AcceptHeaders.ItemRoundTrip` | httpx/accept.go:56-100 | A printed item is accepted exactly if no value holds a semicolon, and is read back exactly if moreover no parameter before the weight is called q |
| `AcceptHeaders.UnweightedItem` | httpx/accept.go:71-100 | A range printed without a weight is read back as an item of weight 1 |
| `AcceptHeaders.WeightedItem` | httpx/accept.go:86-97 | The first q gives the weight, whatever its text; the parameters in front of it are the range's, and those behind it extensions |
| `AcceptHeaders.ClosedItem` | httpx/accept.go:56-68 | However its values are quoted, a printed item is one piece for the splitter |
| `AcceptHeaders.ParsePrinted` | httpx/accept.go:111-118 | Splitting a printed header gives the printed items one by one, commas, quotes and control characters in values included |
| `AcceptHeaders.AcceptRoundTrip` | httpx/accept.go:183-200 | A printed header is accepted exactly if no value holds a semicolon, and gives the same items, as a multiset and in order, exactly if moreover no parameter before the weight is called q |
| `AcceptHeaders.ParsedIsFaithful` | httpx/accept.go:71-100 | Every item that the parser produces is one that the printer gives back: its names are tokens, no value holds a semicolon, and no parameter before the weight is called q |
| `AcceptHeaders.ParsingIsStable` | httpx/accept.go:106-200 | Printing what was parsed of any header and parsing it again gives the same items, if their weights are exact |
| `AcceptSpaces.SpacesDoNotMatter` | httpx/accept.go:183-200 | A header with any white space around its commas, and around its semicolons but in front of the first of an item, is read like the same header without |
| `AcceptSpaces.SpaceBehindSubtype` | httpx/media.go:55-69 | White space in front of the first semicolon makes a range an error |
| `AcceptSpaces.SpacedCoding` | httpx/accept.go:219-243 | The same two facts for the weight of a coding |
| `AcceptHeaders.UnweightedEncoding` | httpx/accept.go:219-243 | A bare coding has weight 1, and is an error if it is no token |
| `AcceptHeaders.EncodingRoundTrip` | httpx/accept.go:214-243 | A printed coding is always read back, and is one piece for the splitter |
| `AcceptHeaders.EncodingsRoundTrip` | httpx/accept.go:254-313 | A printed Accept-Encoding header is always read back as the same list |
| `Negotiation.ItemLessIsStrictWeakOrder` | httpx/accept.go:148-170 | Less is a strict weak order, as sort.Sort demands |
| `Negotiation.ItemLessIsRankLess` | httpx/accept.go:148-170 | The greater weight comes first, then the smaller type, the smaller subtype, and the greater number of parameters |
| `Negotiation.EquivalentItems` | httpx/accept.go:148-170 | Items are equivalent for the sort exactly if these four agree |
| `Negotiation.SortFixesRanks` | httpx/accept.go:183-200 | Any two sorted permutations of the same items have the same sequence of ranks |
| `Negotiation.ParseAcceptItem` | httpx/accept.go:71-100 | The first q ends the range's parameters and gives the weight, 1 without any |
| `Negotiation.ParseAccept` | httpx/accept.go:183-200 | Terminates; the items are those of the header, sorted if all could be parsed, and otherwise the items before the bad one in their order |
| `Negotiation.Negotiate` | httpx/accept.go:125-145 | The answer is the first offer that the first item to meet any offer meets, under the wildcard rules written out, and if nothing is met the first offer; on a sorted list that item weighs at least as much as every item that meets an offer |
| `Negotiation.MeetsExactly` | httpx/media.go:163-165 | The wildcard type takes every media type, the wildcard subtype every one of its type, and any other range only itself |
| `Negotiation.NegotiationIsOptimal` | httpx/accept.go:125-145 | The same of the answer as a function, for every list and all offers |
| `Negotiation.OrderDoesNotMatter` | httpx/accept.go:125-200 | The answer is the same for all sorted permutations of the same items |
| `Negotiation.NegotiateHeaders` | httpx/accept.go:21-24 | Two headers with the same items in any order get the same answer |
| `Negotiation.EncodingLessIsTotal` | httpx/accept.go:280-283 | Less on codings is a strict total order |
| `Negotiation.EncodingSortIsUnique` | httpx/accept.go:296-313 | So that a header has only one sorted form |
| `Negotiation.ParseAcceptEncodingItem` | httpx/accept.go:219-243 | A coding token with an optional weight, and nothing else |
| `Negotiation.ParseAcceptEncoding` | httpx/accept.go:296-313 | The codings of the header, sorted if all could be parsed |
| `Negotiation.NegotiateEncoding` | httpx/accept.go:268-277 | The answer is an offered coding of the greatest weight in the header, and empty exactly if none is offered |
| `HeaderLists.HeaderValueContainsToken` | httpx/httplex.go:160-166 | Terminates, and decides the recursive definition |
| `HeaderLists.HeaderValuesContainsToken` | httpx/httplex.go:127-134 | True exactly if some list contains the token |
| `HeaderLists.WalkersAgree` | httpx/proto.go:183-202 | The recursive walker finds a non-empty token in a list exactly if the loop over readHeaderValue sees it |
| `HeaderLists.ReadTrimmed` | httpx/proto.go:194-202 | Trimming a whole list first, as one walker does, changes neither its first value nor the rest up to trimming |
| `HeaderLists.HeaderValuesRemoveTokens` | httpx/proto.go:159-179 | The nested loops keep the values that are equal to no token, joined list by list, and drop lists left empty |
| `HeaderLists.KeptIsFilter` | httpx/proto.go:159-179 | The values that equal no token stay, as often as they were there and in the same order |
| `HeaderLists.RemovedIsFilter` | httpx/proto.go:159-179 | Every list is left with its values on its own, in its place, and is dropped if none is left |
| `HeaderLists.ValuesOfJoin` | httpx/proto.go:174-176 | A joined list is read back as the values that were joined, except for a lone empty value |
| `HeaderLists.RemovalIsExact` | httpx/proto.go:159-179 | Afterwards a non-empty token is found exactly if it was found before and equals no removed token up to case |
| `HeaderLists.WalkersOnEmpty` | httpx/proto.go:183-202 | The recursive walker finds the empty token exactly if the loop sees it or the list is empty or ends with a comma |
| `HeaderLists.EmptyTokenIsExact` | httpx/proto.go:159-179 | For the empty token removal is exact exactly if it is itself removed, the loop sees it in a list, or no list is empty or ends with a comma |
| `HeaderLists.EmptyTokenIsLost` | httpx/proto.go:159-179 | A list for which it is not |
| `HopFields.HeaderMap.DeleteHopFields` | httpx/proto.go:35-50 | The fields are changed in place to those that the specification keeps, and no canonical field is left that has one of the nine names in any case |
| `HopFields.HopFreeIsExact` | httpx/proto.go:35-50 | For every key: the field survives, with its values, exactly if it is none of the nine, and it is not canonical or Connection names it at most by the literal close |
| `HopFields.NamedFieldsAreGone` | httpx/proto.go:35-50 | Of the fields that the other walker finds in Connection, Close apart, exactly those survive that are stored under a name that is not canonical |
| `HopFields.CanonIsSameToken` | httpx/proto.go:35-50 | Deleting a name removes the field that equals it up to ASCII case, and no other |
| `HopFields.CanonMeans` | httpx/proto.go:35-50 | For every key: it is reached by some name exactly if it is canonical, then by its case variants, and literally if it is no token |
| `Retries.RetryWriter.WriteHeader` | httpx/retry.go:172-180 | The first status sticks; one below 500 goes to the client with the header, any other is held back |
| `Retries.RetryWriter.Write` | httpx/retry.go:183-189 | Settles on 200 if nothing is settled; the body of a 5xx is buffered and nothing of it reaches the client |
| `Retries.RetryWriter.Perform` | httpx/retry.go:159-204 | Every action of a handler, WriteHeader(0) included, keeps what client, buffer, header and status are as functions of the actions so far |
| `Retries.TryAttempts` | httpx/retry.go:39-77 | The loop: attempts are bounded, each before the last had a retriable status, an idempotent method and no body byte read, and it ends only for one of its reasons |
| `Retries.TryOnce` | httpx/retry.go:49-69 | One attempt extends what the client has received, and the count of body bytes read, by its own part, and may be followed by another exactly under the three conditions |
| `Retries.ServeHTTP` | httpx/retry.go:39-89 | For every handler: a second attempt takes one of the five methods, every attempt before the last ended with 500, 502, 503 or 504 and no body byte read, and the last was not followed by another for one of the code's reasons; the client gets one header and the body of the last attempt and nothing else, exactly if no attempt calls WriteHeader(0) before it settles on a status, and all that it gets otherwise is given too |
| `Retries.IsolationIsExact` | httpx/retry.go:39-89 | That if-and-only-if, for any number of failed attempts before the last |
| `Retries.HeadsOfSent` | httpx/retry.go:172-189 | An attempt shows the client one header if it settles below 500, none if it does not, and more exactly if it calls WriteHeader(0) too early |
| `Retries.ZeroStatusIsSentTwice` | httpx/retry.go:39-89 | A handler whose first attempt calls WriteHeader(0) and fails: the client gets a header with status 0 in front of the response of the second |
| `Retries.RoundTrip` | httpx/retry.go:114-156 | The bound and the conditions for the transport, and which error is returned for which reason |
| `ServeProtocol.InvKept` | server.go:58-172 | Every step keeps: each accepted connection has one owner, the WaitGroup counts acceptor, live handlers and the one about to start, channels are closed in order |
| `ServeProtocol.ServeIsSafe` | server.go:58-172 | In every run the count is exact, a sending acceptor finds Serve in or on its way back to its loop, and once Serve has returned the listener is closed, all accepted connections are closed, the acceptor is gone and every handler has called Done |
| `ServeProtocol.UnreportedPanicked` | server.go:162-172 | In every run, the handlers with a panic still to report are handlers that panicked in it |
| `ServeProtocol.RecoverMayOutliveServe` | server.go:162-172 | A run in which Serve has returned before a panic was reported exists exactly if some handler may panic |
| `ServeProtocol.GoroutineMayOutliveServe` | server.go:162-172 | A run in which Serve has returned before the goroutine of a handler ended exists exactly if a connection may be accepted |
| `ServeProtocol.AcceptorStopsForCause` | server.go:105-160 | In every run the acceptor stops exactly if an error was not temporary, the listener ended, or its wait was canceled; a temporary error never stops it |
| `ServeProtocol.CancelIsObserved` | server.go:79-160 | Only after a cancellation does Serve close the listener early, or the acceptor give up a wait or keep an error to itself, and no error is reported after one |
| `ServeProtocol.NeverStuck` | server.go:58-172 | No reachable state is stuck before Serve has returned, even when the closed listener only fails |
| `ServeProtocol.ShutdownBegins` | server.go:79-92 | From every reachable state with a canceled context or an accept error to report, Serve gets into shutdown by at most three steps, all of them its own |
| `ServeProtocol.ShutdownDecreases` | server.go:58-172 | From then on every step leaves one step less to take |
| `ServeProtocol.ShutdownEnds` | server.go:58-172 | So that no run is longer than the steps left, and a run that cannot go on has Serve returned |
| `MultiListenerProtocol.UniqueKept` | listen.go:227-309 | No step duplicates a connection among goroutines, Accept callers and those that Close closed |
| `MultiListenerProtocol.ConservedKept` | listen.go:227-309 | No step loses a connection |
| `MultiListenerProtocol.TallyKept` | listen.go:282-301 | The counter of the drain loop is the number of goroutines that have exited |
| `MultiListenerProtocol.MultiListenerIsSafe` | listen.go:227-309 | In every run each accepted connection is held by one goroutine, was delivered to one Accept, or was closed by Close; after Close all goroutines have exited, none is held, and Accept can only return ErrClosedPipe |
| `MultiListenerProtocol.GoroutineEndsForCause` | listen.go:242-256 | In every run a goroutine stops accepting exactly if its listener failed for good; a temporary error never ends it |
| `MultiListenerProtocol.DrainFollowsClose` | listen.go:282-301 | Before the drain begins Close has closed every listener, each once |
| `MultiListenerProtocol.AcceptAnswers` | listen.go:272-280 | A call of Accept got a connection or an error from a goroutine, or ErrClosedPipe because Close was done, as its answer says |
| `MultiListenerProtocol.AcceptIsStranded` | listen.go:227-280 | A call of Accept that waits on an open listener can no longer be answered without Close exactly if all goroutines wait to report their exit |
| `MultiListenerProtocol.StrandedForCause` | listen.go:227-280 | In terms of a run: exactly if every listener failed for good and all those errors were received |
| `MultiListenerProtocol.CloseDecreases` | listen.go:282-309 | Once the listeners are closed, every step but new calls of Accept and their refusal brings Close nearer to its end |
| `MultiListenerProtocol.CloseNeverStuck` | listen.go:282-309 | While Close is not done there is such a step, with or without callers of Accept |
| `MultiListenerProtocol.CloseEnds` | listen.go:282-309 | So that a run has only so many of them, and when none is left Close is done |

## Left out

- ResponseWriters.Respond: one fresh writer and handlers that return normally; `reset` between requests (httpx/server.go:460-469) does not clear the status, a panic before the header is the same as one call of WriteHeader(500), and after a panic behind it serveHTTP neither closes nor flushes.
- ResponseWriters.ResponseWriter.WriteHeader: a Content-Length, if declared, has to be a decimal number of 64 bits; for any other value the code stops before the header block and Write overwrites the error (httpx/server.go:357-362, 429).
- ResponseWriters.ResponseWriter.ChooseFraming: the same values of Content-Length are excluded.
- ResponseWriters.ReceiverTakesBody: the receiver is one of HTTP/1.1; the response copies the protocol version of the request and is chunked for HTTP/1.0 as well (httpx/server.go:351-373), which a receiver of HTTP/1.0 cannot read.
- ResponseWriters.ResponseWriter.SendHead: how net/http renders the status line and the fields is a parameter, and so is the date.
- Changes that a handler makes to the header after its first call, Hijack among the calls of a whole response, and the nested close through `ServeProxy` (httpx/server.go:136-165).
- Chunk extensions and trailers: the decoder refuses them, since the writer never produces them.
- ProxyConns.ParseProxyProto: io.EOF, io.ErrUnexpectedEOF and other failures of the reader are one error `ShortRead`; which of the first two is returned depends on the fragmentation in version 2 (proxy.go:357-362).
- ProxyConns.Reader: readers that return no byte and no error, or that write behind the bytes they report, are outside of the model.
- net.ParseIP with IP.String, and strconv.ParseFloat with the verb %.1f, are parameters with the round-trip laws that the standard library promises; weights are reals, so that NaN, infinities and rounding of float32 are not modelled.
- Text is a sequence of characters; invalid UTF-8, over which the loops of httpx/quote.go would range differently, is not modelled.
- Sorting.Sort: stands for sort.Sort; its contract, some sorted permutation, is all that is used of it, and sorting in place through Swap is not modelled.
- Negotiation.NegotiateHeaders: both headers have to parse; for others ParseAccept returns an unsorted part, on which nothing is claimed.
- Retries.TryAttempts: the wait between attempts is a parameter that says whether it was cut short; its length is not modelled.
- Retries.Client: a client's writer that fails.
- ServeProtocol.ShutdownEnds: that a handler returns is one of its steps; fairness of the scheduler and of select, timers and logging are not modelled.
- MultiListenerProtocol.CloseEnds: closed listeners have to fail, and not temporarily; concurrent calls of Close after the first are not modelled, and neither is the error that joins those of the listeners.
- Sockets, descriptor passing, address lookup, tunnels, `ReverseProxy`, `ConnTransport`, content encodings, upgrades, Forwarded and Via fields, Max-Forwards and `connReader`: foreign calls, or single branches with nothing unbounded to prove.
