# Verification of the firmware's algorithms

This project models five self-contained algorithms of the firmware in Dafny and proves properties of the models:

* **HTTP response parser, response object, chunked sender and URL splitter** (`Http*.dfy`, `Url*.dfy`). The parser is
  a class that runs over one buffer at a time with mark pointers, batched inner loops and a memchr jump; it is proved
  equal to a byte-at-a-time reference machine (`HttpParserState`, `HttpRun`), and everything else is proved about that
  machine: independence of how the input is cut, conservation of body length, pairing of names and values, unreachable
  asserts, exact length arithmetic, which body a header list announces, and the round trip with the chunked encoder of
  the sender. A whole response, as it is written and in any pieces, ends up in the response object as it was written.
  URLs are split exactly as a grammar on their bytes says.
* **CRC engine** (`Crc*.dfy`). Registers are related to polynomials over GF(2); the bit loop, the byte tables and the
  right-shifting nibble table are proved to compute the same remainder, except where a table lacks entries.
* **Ticker** (`Ticker*.dfy`). A wrapping counter that keeps moving is extended to exact microseconds; events are a
  linked list proved to refine a sorted sequence; over whole runs of interface calls every tick is accounted for, every
  event is dispatched, removed or still queued, and no wake-up is lost.
* **Low power ticker wrapper** (`LowPowerTicker.dfy`). A protocol of critical sections in any order, with the
  invariant that no pending match is lost and that hardware writes are far enough apart.
* **Flash programming** (`FlashGeometry.dfy`, `FlashIAP.dfy`). Arbitrary writes over sectors of different sizes become
  page writes; erasing covers exactly the sectors of a range.

`dafny verify dfyconfig.toml` checks the whole project.

What the outside world does is left open: the socket takes or delivers any part of the data or fails, the hardware
counter advances by any number of ticks before every interface call (fewer than one turn between two stored readings
while a ticker is not suspended, or while a match is pending in the wrapper), the hardware raises the interrupt whenever
it likes but at the latest when the counter reaches the compare value, if that was written early enough (one tick before
for the ticker, the wrapper's `min_cycles_until_match` for the wrapper), the flash driver may refuse any operation
unless it is called reliable, and event handlers are arbitrary finite scripts of insertions and removals.

## Where the code differs from its documentation

* `unhex` has 128 initialisers for 256 entries, so a byte from 128 on is read as the digit 0 of a chunk size
  (`UnhexExact`); the model follows the code.
* The table of the 16-bit IBM polynomial has 252 initialisers for 256 entries. The CRC returned is right exactly when
  what the engine missed cancels out (`IbmRegister`, `TableIsBitwise`): always when no missing entry is read
  (`NoMissIsRight`), never when one is read once (`OneMissIsWrong`, with `IbmCounterexample` as an input), and sometimes
  when several are (`IbmCancels`).
* The 7-bit engine keeps its register one place to the left but does not move the starting value there. It returns the
  CRC exactly from a starting value whose low byte is 0, or 0x87 if there is a message (`TableIsBitwise`,
  `SevenBadStart`). Its default starting value is 0.
* Widths below 8 always run a 7-bit register (`BitwiseFeeds`).
* Cutting a response into pieces changes the outcome when a byte that IS_HEADER_CHAR refuses lies behind the second
  byte of a header value and a cut lies before it, because within one call the jump to the next CR or LF does not look
  at it, and when a header comes close to its size limit, because `nread` counts one byte too many for every cut inside a name or a value. `Robust` is the
  exact condition, decided in one pass over the input; `ControlByteRefusedOnlyWhenCut` and
  `LongNameRefusedOnlyWhenCut` are inputs of either kind. A cut never makes the parser accept what it refuses whole
  (`AcceptedInPieces`).
* The consumer learns the status code with the reason phrase, so that of a response with an empty reason phrase the code
  stays 0 (`StatusLineExact`, `Holds` in `HttpMessages`).
* A comma right behind an abbreviated option of a connection header is taken for part of it: in "keep, close" the parser
  does not see "close" (`ItemsOfList`, `KeepHidesClose`). Behind any other comma it gives up at a byte that is neither a
  space nor the beginning of an option, a tab or an underscore among them (`LaterItems` in `HttpValues`).
* A recognised value is forgotten when a further line follows it: "chunked" with a folded line behind it does not announce
  chunks (`FoldedLine`).
* `send_buffer` returns without an error when the socket takes nothing; the sender then goes on. The request is complete
  on the wire exactly when there was neither an error nor such a send (`RequestCarries`); `StalledSend` is an input.
* `ticker_suspend` does not read the counter and `ticker_resume` overwrites the last reading, so besides the ticks of the
  suspension those between the last reading and the suspension are never counted (`SuspendLoses`). None is lost exactly
  when the ticker is suspended at the tick it was last read (`LostExact`).

## Model

| member | source | states |
|---|---|---|
| `HttpExecute.HttpParser.Execute` | mbed/mbed-http/http_parser/http_parser.c:677-2091 | one call with its batched inner loops, memchr jumps and mark pointers ends in the state, the position and the callbacks of the byte-at-a-time reference; after an error the same error at the same byte, and when one call exceeds the header limit an error |
| `HttpExecute.HttpParser.Finish` | mbed/mbed-http/http_parser/http_parser.c:655-674 | a call with length 0 completes an until-EOF body, is silent between messages, and is an error, with result 1, anywhere else |
| `HttpExecute.HttpParser.NameBytes` | mbed/mbed-http/http_parser/http_parser.c:1298-1425 | the inner loop over a header name stops where the reference stops: at the colon, at a byte no name may hold, at the header limit or at the end of the piece |
| `HttpExecute.HttpParser.ValueBytes` | mbed/mbed-http/http_parser/http_parser.c:1506-1695 | the inner loop over a header value, with its jump to the next CR or LF, takes exactly the bytes the reference takes |
| `HttpExecute.HttpParser.BodyBytes` | mbed/mbed-http/http_parser/http_parser.c:1882-2036 | a stretch of body as long as the piece or the remaining length is taken at once and content_length falls by it |
| `HttpExecute.HttpParser.FlushMarks` | mbed/mbed-http/http_parser/http_parser.c:2071-2081 | at the end of a piece the one open mark is delivered |
| `HttpExecute.HttpParser.DataCallback` | mbed/mbed-http/source/http_request_parser.h:78-112 | a data callback hands the response exactly the event the parser reports |
| `HttpExecute.HttpParser.NotifyCallback` | mbed/mbed-http/source/http_request_parser.h:96-128 | a notification reaches the response; message_complete completes it |
| `HttpMarks.ByteToNext` | mbed/mbed-http/http_parser/http_parser.c:702-706 | one byte of the switch keeps the mark pointers and the reference parser describing the same unfinished datum |
| `HttpMarks.TrackToEnd` | mbed/mbed-http/http_parser/http_parser.c:2071-2075 | when the loop ends, at most one mark is set and it covers exactly the open datum |
| `HttpMarks.JumpRun` | mbed/mbed-http/http_parser/http_parser.c:1535-1557 | the memchr jump from a header character equals taking the skipped bytes one by one unchecked |
| `HttpInvariants.AssertsNeverFail` | mbed/mbed-http/http_parser/http_parser.c:1298-2075 | after any input in any pieces no assert on header_state, content_length, F_CHUNKED or nread can fail, at most one mark is set, and index fits its 7 bits |
| `HttpInvariants.RunGood` | mbed/mbed-http/http_parser/http_parser.c:702-2058 | every byte keeps the parser invariant |
| `HttpInvariants.CallsRest` | mbed/mbed-http/http_parser/http_parser.c:634-2091 | after any sequence of calls the parser has failed or again satisfies the invariant between calls |
| `HttpInvariants.PerformMarks` | mbed/mbed-http/http_parser/http_parser.c:2061-2069 | the callbacks seen do not depend on how much of a datum is still held by its mark |
| `HttpSplit.CutIndependence` | mbed/mbed-http/http_parser/http_parser.c:677-2083 | feeding a robust input in any pieces gives the same parser, the same position and the same callbacks as one call |
| `HttpSplit.CutIndependenceExact` | mbed/mbed-http/http_parser/http_parser.c:705-706 | without an upgrade or a header over the limit, all ways of cutting agree with one call if and only if the one-pass condition Robust holds of the input |
| `HttpSplit.AcceptedInPieces` | mbed/mbed-http/http_parser/http_parser.c:677-2083 | robust or not, and short of an upgrade: what is accepted in some pieces is accepted in one call with the same outcome, so what one call refuses, for any reason, every cut refuses |
| `HttpFragile.ControlByteRefusedOnlyWhenCut` | mbed/mbed-http/http_parser/http_parser.c:1527-1557 | from the start of a response: behind the first two bytes of the value of any header the parser does not look into, any byte no header may hold is accepted in one call and INVALID_HEADER_TOKEN when a cut lies before it |
| `HttpFragile.LongNameRefusedOnlyWhenCut` | mbed/mbed-http/http_parser/http_parser.c:1402-1411 | from the start of a response: any header name of more than half the header limit that fits in one call is HEADER_OVERFLOW byte by byte |
| `HttpSplit.RobustNoOverflow` | mbed/mbed-http/http_parser/http_parser.c:705-706 | a robust input never reaches the header limit |
| `HttpSplit.PlainIsRobust` | mbed/mbed-http/http_parser/http_parser.c:1527-1557 | header characters only, and less than half the header limit, is enough for Robust |
| `HttpSplit.FragileRun` | mbed/mbed-http/http_parser/http_parser.c:1527-1557 | an input that is not robust is distinguished by feeding it byte by byte |
| `HttpConservation.RunAccounted` | mbed/mbed-http/http_parser/http_parser.c:1882-2052 | from any parser that is accounted for, after any bytes, body bytes delivered plus content_length equal the lengths announced, and header names and values stay paired |
| `HttpConservation.StartAccounted` | mbed/mbed-http/http_parser/http_parser.c:2145-2153 | a parser that has just been initialised is accounted for, so every reachable one is |
| `HttpConservation.CallsAccounted` | mbed/mbed-http/http_parser/http_parser.c:634-2091 | the same balance after any sequence of calls |
| `HttpConservation.TransitionAccount` | mbed/mbed-http/http_parser/http_parser.c:1775-2052 | no single byte creates or loses body length |
| `HttpConservation.OtherPaired` | mbed/mbed-http/source/http_response.h:80-106 | a byte outside a header leaves names and values paired |
| `HttpHeaders.NameRecognised` | mbed/mbed-http/http_parser/http_parser.c:1248-1425 | at the colon header_state names a header exactly when the lower-cased name is that word, for names of any length |
| `HttpHeaders.NameRecognisedInPieces` | mbed/mbed-http/http_parser/http_parser.c:1298-1425 | the same however the name is cut into calls |
| `HttpHeaders.NameRunClass` | mbed/mbed-http/http_parser/http_parser.c:1298-1405 | state and index after any prefix of a name are determined by which words that prefix starts |
| `HttpHeaders.ContentLengthExact` | mbed/mbed-http/http_parser/http_parser.c:1565-1590 | a Content-Length is accepted exactly when it is digits and spaces with value at most 18446744073709551609, and content_length is that value, never the sentinel |
| `HttpHeaders.ContentLengthValue` | mbed/mbed-http/http_parser/http_parser.c:1464-1590 | a whole Content-Length value is accepted exactly when there was none before, it starts with a digit, is made of digits and spaces and its number is at most 18446744073709551609; content_length is then that number |
| `HttpHeaders.ChunkSizeExact` | mbed/mbed-http/http_parser/http_parser.c:1934-1985 | a chunk size is accepted exactly when its value is at most 18446744073709551599, and content_length is that value |
| `HttpHeaders.ChunkSizeLine` | mbed/mbed-http/http_parser/http_parser.c:1934-1985 | a whole chunk size is refused at its first byte if that is no digit, and digits are accepted exactly when their number is at most 18446744073709551599; content_length is then that number |
| `HttpHeaders.UnhexExact` | mbed/mbed-http/http_parser/http_parser.c:223-233 | unhex is the hexadecimal digit exactly for ASCII; bytes from 128 on read as 0 |
| `HttpBatches.NameRunIsRun` | mbed/mbed-http/http_parser/http_parser.c:1298-1405 | a run of name bytes equals stepping the reference through it |
| `HttpBatches.ValueRunIsRun` | mbed/mbed-http/http_parser/http_parser.c:1506-1680 | a run of value bytes equals stepping the reference through it, or is refused, or exceeds the header limit |
| `HttpBatches.BodyRun` | mbed/mbed-http/http_parser/http_parser.c:1882-1916 | a body stretch shorter than what remains equals stepping the reference through it |
| `HttpBatches.BodyRunAll` | mbed/mbed-http/http_parser/http_parser.c:1900-1916 | a body stretch that uses up the length ends the body or the chunk as the reference does |
| `HttpStatusLine.StatusLineExact` | mbed/mbed-http/http_parser/http_parser.c:758-952 | a status line of digits in the right places, ended by CR LF or LF, is accepted exactly if no number is above 999; version and status code are then the numbers written there, and the reason phrase is reported with the code unless it is empty |
| `HttpStatusLine.NumberRun` | mbed/mbed-http/http_parser/http_parser.c:801-914 | digits are read as their decimal number and refused exactly if it is above 999 |
| `HttpValues.ValueSetsFlags` | mbed/mbed-http/http_parser/http_parser.c:1442-1735 | whatever the value: if it is accepted, its line sets exactly what it says under that name: chunked if it is that word in any case with spaces behind it, keep-alive, close and upgrade as the items of the list name them, the upgrade if it is not empty, a length as its number; under any other name nothing |
| `HttpValues.ValueAccepted` | mbed/mbed-http/http_parser/http_parser.c:1442-1695 | a value of header characters is refused exactly as a length that is not allowed |
| `HttpOptions.ItemsOfList` | mbed/mbed-http/http_parser/http_parser.c:1592-1680 | a list of options is separated as it was written exactly if no option but the last is a beginning of keep-alive, close or upgrade |
| `HttpOptions.OptionRecognised` | mbed/mbed-http/http_parser/http_parser.c:1592-1680 | in such a list an option is recognised exactly if it is one of the items, in any case |
| `HttpOptions.KeepHidesClose` | mbed/mbed-http/http_parser/http_parser.c:1640-1660 | in the list "keep, close" the option close is not seen |
| `HttpHead.HeaderLine` | mbed/mbed-http/http_parser/http_parser.c:1248-1766 | one header line between two others: name and value are reported as they stand, flags and length are what the value says under that name, and of header characters nothing is refused but a length that is not allowed |
| `HttpHead.SettleStep` | mbed/mbed-http/http_parser/http_parser.c:1708-1773 | what a line has set takes effect, and an empty value is reported, with the first byte of the next line that is no blank |
| `HttpFolding.FoldedLine` | mbed/mbed-http/http_parser/http_parser.c:1708-1735 | a value that goes on in the next line: a length is refused, an open connection list goes on, and anything else it had been recognised as is forgotten |
| `HttpFolding.FoldedStart` | mbed/mbed-http/http_parser/http_parser.c:1744-1748 | a value that begins only in the next line is read as if it began on the first |
| `HttpFraming.HeadersRun` | mbed/mbed-http/http_parser/http_parser.c:1248-1773 | any header list is accepted exactly if its lengths are allowed, is reported in order, and leaves exactly the flags and the length it asks for |
| `HttpFraming.HeadSelectsFraming` | mbed/mbed-http/http_parser/http_parser.c:1775-1880 | header list and status code alone decide what the empty line leads to: an error for chunks with a length, an agreed upgrade without a body, chunks, a body of the given length, completion for length 0 and for 1xx, 204 and 304, or everything to the end of the stream |
| `HttpMessages.HeadRuns` | mbed/mbed-http/http_parser/http_parser.c:758-1880 | the whole head of a response, from the status line on |
| `HttpMessages.KeepAliveExact` | mbed/mbed-http/http_parser/http_parser.c:2118-2137 | behind a body whose end is marked another response is awaited exactly if no close option is given, where both version numbers are above 0, and where they are not exactly if keep-alive is given |
| `HttpMessages.CountedRead` | mbed/mbed-http/http_parser/http_parser.c:1882-1916 | a response with a length: the consumer holds its headers in order and exactly the bytes the length says, and is complete |
| `HttpMessages.ChunkedRead` | mbed/mbed-http/http_parser/http_parser.c:1934-2052 | a chunked response: the same with its chunks joined |
| `HttpMessages.NoBodyRead` | mbed/mbed-http/http_parser/http_parser.c:1844-1865 | a response without a body is complete at its empty line |
| `HttpMessages.ToEofRead` | mbed/mbed-http/http_parser/http_parser.c:1919-1923 | a response without any of these holds everything to the end of the stream and is complete only there |
| `HttpMessages.ReadInPieces` | mbed/mbed-http/http_parser/http_parser.c:677-2083 | any of these responses in any pieces that are accepted gives the consumer the same |
| `HttpDelivery.StepIncomplete` | mbed/mbed-http/http_parser/http_parser.c:702-2058 | no byte completes a message while the parser stays inside it |
| `HttpDelivery.WrittenIsRead` | mbed/mbed-http/http_parser/http_parser.c:677-2083 | a response as it is written is read the same in any pieces, is complete nowhere before its last byte, and is then held as it was written |
| `HttpTrailers.SizeLineExact` | mbed/mbed-http/http_parser/http_parser.c:1934-2013 | a whole size line: its number is the size, leading zeros and an extension are ignored, and it is refused exactly above 18446744073709551599 |
| `HttpTrailers.TrailersComplete` | mbed/mbed-http/http_parser/http_parser.c:1775-1797 | headers behind the last chunk are reported like any others, and the empty line completes the message |
| `HttpRun.RunAppend` | mbed/mbed-http/http_parser/http_parser.c:702-2058 | the reference reads two stretches one after the other as it reads their concatenation |
| `HttpTrace.ConsumeEmit` | mbed/mbed-http/source/http_response.h:80-157 | the response cannot tell a datum delivered in pieces from one delivered whole |
| `HttpView.ConsumerShows` | mbed/mbed-http/source/http_response.h:80-157 | for every trace in which names and values alternate the response holds exactly what the trace says: the body is all body bytes in order, fields and values are the names and values in order, the code is that of the last status |
| `HttpView.CallsShown` | mbed/mbed-http/source/http_response.h:51-157 | every trace the parser produces, however the input is cut, is such a trace |
| `HttpView.StartShown` | mbed/mbed-http/http_parser/http_parser.c:2145-2153 | so is the empty one |
| `HttpResponses.HttpResponse.SetHeaderField` | mbed/mbed-http/source/http_response.h:80-92 | a name piece extends the open name or starts a new one |
| `HttpResponses.HttpResponse.SetHeaderValue` | mbed/mbed-http/source/http_response.h:94-106 | a value piece extends the open value or starts a new one |
| `HttpResponses.HttpResponse.SetBody` | mbed/mbed-http/source/http_response.h:129-172 | body bytes are appended and counted |
| `HttpResponses.HttpResponse.SetStatus` | mbed/mbed-http/source/http_response.h:51-54 | the status code is set and the status text replaced |
| `HttpReceive.CreateHttpResponse` | mbed/mbed-http/source/http_request_base.h:287-332 | for every stream that stays below the header limit in the pieces it comes in: the result and the response are those of feeding the pieces to the reference until one is not consumed whole (-2101), one completes a message, or the socket ends the stream or fails; for the bytes of one response that is what one call on all of them would give, and for a stream refused at a byte no cut can move it is -2101; the response shows everything reported, in order; and for any response as it is written, in any pieces, it holds exactly its headers, its body and its code |
| `HttpReceive.ReceiveLoop` | mbed/mbed-http/source/http_request_base.h:297-317 | the loop itself, for the same streams |
| `HttpReceive.ShortNoOverflow` | mbed/mbed-http/http_parser/http_parser.c:705-706 | a stream of at most half the header limit stays below it, however it is cut |
| `HttpChunks.HexRoundTrip` | mbed/mbed-http/source/http_request_base.h:154 | the decoder reads back the size the encoder printed |
| `HttpChunks.ChunkPasses` | mbed/mbed-http/http_parser/http_parser.c:1934-2052 | size line, data and CR LF of one chunk bring the decoder back to the next size, with its three events |
| `HttpChunks.FinPasses` | mbed/mbed-http/http_parser/http_parser.c:1934-2052 | the last chunk and the empty trailer complete the message once |
| `HttpRoundTrip.RoundTrip` | mbed/mbed-http/source/http_request_base.h:145-184 | the chunked encoding of any chunks below 2^28, fed in any pieces, is reported as their sizes and data, then size 0, then one completion, and the connection goes on as its headers say |
| `HttpRoundTrip.RoundTripBody` | mbed/mbed-http/source/http_request_base.h:145-184 | the body is the earlier one with exactly the concatenated chunks behind it, its length grows by theirs, the response is complete, and headers and code stay |
| `HttpRoundTrip.SentIsReceived` | mbed/mbed-http/source/http_request_base.h:120-184 | what a chunked request puts on the wire behind its head, when no send failed or took nothing, adds exactly the callback's chunks to the body of whoever reads it in any pieces |
| `HttpEncoding.SentChunks` | mbed/mbed-http/source/http_request_base.h:146-174 | the chunks sent are the first ones, none of them is empty, and the next one, if there is one, is |
| `HttpEncoding.SentSizes` | mbed/mbed-http/source/http_request_base.h:146-153 | the chunks a callback yields up to its first empty one are chunks the round trip covers |
| `HttpSend.SendBuffer` | mbed/mbed-http/source/http_request_base.h:256-285 | the whole buffer is on the wire, or a prefix of it: with the error a send returned, or silently when a send took nothing |
| `HttpSend.SendBody` | mbed/mbed-http/source/http_request_base.h:145-174 | size line, data and CR LF of every chunk up to the first empty one are sent, until one send fails |
| `HttpSend.SendChunked` | mbed/mbed-http/source/http_request_base.h:120-184 | the sends made, their order and the error returned are those of the request head, every chunk and the terminator one after the other, stopping at the first error |
| `HttpSend.RequestCarries` | mbed/mbed-http/source/http_request_base.h:120-184 | the wire holds all of the request head and its chunked encoding if and only if no error is returned and no send took nothing; without such a send it holds a prefix of them, error or not |
| `HttpSend.RequestError` | mbed/mbed-http/source/http_request_base.h:120-184 | the result is 0 or an error the socket gave |
| `HttpSend.StalledSend` | mbed/mbed-http/source/http_request_base.h:265-280 | a send that takes nothing: no error is returned and bytes are missing |
| `UrlParser.UrlFields.ParseUrl` | mbed/mbed-http/http_parser/http_parser.c:2343-2444 | 0 is returned exactly for the URLs the grammar allows, for CONNECT with nothing but host and port, and with a port of at most 65535; every component then lies where the grammar says and the port is its number. The grammar speaks of the bytes alone: schema before the first colon, server part behind :// up to the first slash or question mark, path up to the first question mark or hash, query behind that question mark up to the first hash, fragment behind it; in the server part userinfo before the first at sign, then the host, bracketed or up to a colon, and the port behind it; with the bytes each may hold |
| `UrlGrammar.UrlMachine` | mbed/mbed-http/http_parser/http_parser.c:486-632 | the first machine is alive exactly as long as every byte is in the set of the component it lies in |
| `UrlGrammar.HostMachine` | mbed/mbed-http/http_parser/http_parser.c:2173-2253 | the second machine likewise |
| `UrlGrammar.ServerAccepted` | mbed/mbed-http/http_parser/http_parser.c:2256-2335 | a server part is accepted exactly if every byte is legal, there is a host, its bracket is closed and a colon is followed by a port |
| `UrlParser.UrlFields.SplitsExactly` | mbed/mbed-http/http_parser/http_parser.c:2343-2412 | what both machines accept is what the grammar allows |
| `UrlParser.UrlFields.RangesExactly` | mbed/mbed-http/http_parser/http_parser.c:2343-2412 | every recorded range is where the grammar puts the component, and nothing else is recorded |
| `UrlParser.ServerUnique` | mbed/mbed-http/http_parser/http_parser.c:2357-2412 | the buffer alone decides where the server part lies |
| `UrlParser.UrlFields.ComponentsInOrder` | mbed/mbed-http/http_parser/http_parser.c:2343-2444 | the ranges lie in the buffer, disjoint, in the order schema, userinfo, host, port, path, query, fragment |
| `UrlParser.UrlFields.Components` | mbed/mbed-http/http_parser/http_parser.c:2357-2412 | the first pass records for each component exactly its maximal run |
| `UrlParser.UrlFields.ParseHost` | mbed/mbed-http/http_parser/http_parser.c:2256-2335 | the second pass splits the server part exactly into userinfo, host and port |
| `UrlParser.UrlFields.RecordByte` | mbed/mbed-http/http_parser/http_parser.c:2274-2312 | one byte keeps the recorded ranges exact |
| `UrlParser.UrlFields.PortDigits` | mbed/mbed-http/http_parser/http_parser.c:2430-2441 | the digits strtoul reads from the start of the port are the port and nothing after it |
| `UrlParser.Strtoul` | mbed/mbed-http/http_parser/http_parser.c:2432 | the value of the leading digits |
| `UrlSyntax.UrlGrouped` | mbed/mbed-http/http_parser/http_parser.c:486-632 | the URL machine never returns to a component it has left |
| `UrlSyntax.HostGrouped` | mbed/mbed-http/http_parser/http_parser.c:2173-2253 | the host machine never returns to a component it has left |
| `UrlSyntax.UrlInOrder` | mbed/mbed-http/http_parser/http_parser.c:486-632 | components appear in the order of the grammar |
| `CrcBits.FeedsIsRemainder` | mbed/mbed-os/drivers/MbedCRC.h:436-451 | a register is the result of clocking in a message if and only if it is the remainder of the division of seed and message by x^w + p over GF(2) |
| `CrcBits.DivisionIsUnique` | mbed/mbed-os/drivers/MbedCRC.h:436-451 | quotient and remainder are unique |
| `CrcBits.BurstDetected` | mbed/mbed-os/drivers/MbedCRC.h:436-451 | for an odd polynomial two bit strings that differ only inside a window no wider than the register leave different registers |
| `CrcBits.BlockAtTop` | mbed/mbed-os/drivers/MbedCRC.h:438-450 | adding a block at the top and shifting in zeros is clocking the block in |
| `CrcBits.LookupExact` | mbed/mbed-os/drivers/MbedCRC.h:477-494 | a table step is right if and only if the entry it reads is right |
| `CrcTheorems.BitwiseIsRemainder` | mbed/mbed-os/drivers/MbedCRC.h:417-455 | for every width up to 32 and every polynomial, the bit loop leaves the GF(2) remainder of the message, and nothing else |
| `CrcTheorems.ComputeIsRemainder` | mbed/mbed-os/drivers/MbedCRC.h:149-287 | the bits of the value computed bit by bit are the GF(2) remainder of initial value and message, reflected as asked, plus the final xor, with nothing above them; from width 7 on the value tells the remainder |
| `CrcLoops.ByteBitsAre` | mbed/mbed-os/drivers/MbedCRC.h:370-408 | the bits of a byte enter highest first, or lowest first where the data is reflected |
| `CrcLoops.MessageBitsAt` | mbed/mbed-os/drivers/MbedCRC.h:417-455 | the message is the bits of its bytes, one byte after the other |
| `CrcBits.FeedsLinear` | mbed/mbed-os/drivers/MbedCRC.h:436-451 | clocking a sum is the sum of clocking each |
| `CrcCompute.FinishExact` | mbed/mbed-os/drivers/MbedCRC.h:263-287 | two registers finish alike if and only if their significant bits are the same |
| `CrcAgreement.TableIsBitwise` | mbed/mbed-os/drivers/MbedCRC.h:417-497 | table lookup and the bit loop give the same finished CRC if and only if: at width 7 the low byte of the starting value is 0, or 0x87 and there is a message; for the 16-bit IBM polynomial what was missed cancels out; for every other one always |
| `CrcAgreement.SevenExact` | mbed/mbed-os/drivers/MbedCRC.h:417-479 | the left-aligned 8-bit register and the 7-bit one agree after a message exactly from those two starting values |
| `CrcAgreement.SevenBadStart` | mbed/mbed-os/drivers/MbedCRC.h:128-133 | started from 1 the 7-bit engine returns something other than the CRC for every message |
| `CrcAgreement.DefaultsAgree` | mbed/mbed-os/drivers/MbedCRC.cpp:30-76 | so they do with the default settings of every polynomial that has a byte table, but for the 16-bit IBM one |
| `CrcTheorems.ForwardIsReversed` | mbed/mbed-os/drivers/MbedCRC.h:278-283 | the left-shifting CRC-32 with both reflections and the right-shifting one return the same CRC for every message |
| `CrcTheorems.RegistersMirror` | mbed/mbed-os/drivers/MbedCRC.h:481-494 | after every byte one register is the bit reversal of the other |
| `CrcTheorems.DefaultsMirror` | mbed/mbed-os/drivers/MbedCRC.cpp:30-44 | the default settings of the two CRC-32 engines are such a pair |
| `CrcTheorems.PiecesAreWhole` | mbed/mbed-os/drivers/MbedCRC.h:196-220 | compute_partial over any pieces, despite the mask between them, finishes as compute_partial over their concatenation |
| `CrcTheorems.BurstChangesCrc` | mbed/mbed-os/drivers/MbedCRC.h:436-453 | messages that differ only inside width / 8 consecutive bytes never share a CRC, for odd polynomials of width 8 or more |
| `CrcIbm.IbmStepExact` | mbed/mbed-os/drivers/TableCRC.cpp:88-110 | a step with the 16-bit IBM table is right exactly for an index below 252 |
| `CrcIbm.IbmRegister` | mbed/mbed-os/drivers/TableCRC.cpp:88-110 | the register of the 16-bit IBM engine differs from the true one by the sum of the entries it missed, each clocked through the zeros of the bytes after it |
| `CrcIbm.IbmRunExact` | mbed/mbed-os/drivers/TableCRC.cpp:88-110 | the table register is right after every byte exactly when no missing entry is read |
| `CrcIbm.MissedShows` | mbed/mbed-os/drivers/TableCRC.cpp:88-110 | a missed entry is never clocked away |
| `CrcAgreement.OneMissIsWrong` | mbed/mbed-os/drivers/TableCRC.cpp:88-110 | exactly one missing entry read always gives a wrong CRC |
| `CrcAgreement.NoMissIsRight` | mbed/mbed-os/drivers/TableCRC.cpp:88-110 | none read always gives the right one |
| `CrcInputs.IbmCancels` | mbed/mbed-os/drivers/TableCRC.cpp:88-110 | seven bytes at five of which the default 16-bit IBM engine reads a missing entry, and the CRC it returns is right |
| `CrcInputs.IbmCounterexample` | mbed/mbed-os/drivers/TableCRC.cpp:88-110 | one byte, 0x3f, on which the default 16-bit IBM engine does not return the CRC |
| `CrcTheorems.BurstChangesTable` | mbed/mbed-os/drivers/MbedCRC.h:461-479 | the same of the engines with a byte table wherever they return the bit loop's CRC |
| `CrcTheorems.BurstChangesReversed` | mbed/mbed-os/drivers/MbedCRC.h:481-494 | the same of the right-shifting CRC-32 engine |
| `CrcTheorems.BurstChangesEngine` | mbed/mbed-os/drivers/MbedCRC.h:436-497 | the same in the mode each engine runs in; of the 16-bit IBM engine, of messages whose CRC is right |
| `CrcLoops.BitwiseFeeds` | mbed/mbed-os/drivers/MbedCRC.h:417-455 | both bit loops clock the message bits into the register in order; below width 8 the register is always 7 bits |
| `CrcLoops.ReflectBits` | mbed/mbed-os/drivers/MbedCRC.h:370-408 | reflection reverses the low bits |
| `CrcLookups.TableFeeds` | mbed/mbed-os/drivers/MbedCRC.h:469-479 | with right entries the byte table loop clocks the message in |
| `CrcLookups.TableByteExact` | mbed/mbed-os/drivers/MbedCRC.h:469-479 | one byte table step is right exactly when its entry is |
| `CrcReversed.NibbleRunFeeds` | mbed/mbed-os/drivers/MbedCRC.h:483-487 | the nibble loop clocks the bits of every byte in, lowest first |
| `CrcReversed.MirrorPolynomials` | mbed/mbed-os/hal/crc_api.h:36-37 | the two CRC-32 polynomials are mirror images |
| `CrcTables.Ansi32Table` | mbed/mbed-os/drivers/TableCRC.cpp:112-145 | every entry is what the bit loop computes |
| `CrcTables.Ccitt16Table` | mbed/mbed-os/drivers/TableCRC.cpp:63-86 | every entry is what the bit loop computes |
| `CrcTables.Ccitt8Table` | mbed/mbed-os/drivers/TableCRC.cpp:44-61 | every entry is what the bit loop computes |
| `CrcTables.Sd7Table` | mbed/mbed-os/drivers/TableCRC.cpp:25-42 | every entry is what the bit loop computes for the polynomial one place to the left |
| `CrcTables.Ibm16Table` | mbed/mbed-os/drivers/TableCRC.cpp:88-110 | the entries are right below index 252 and wrong from there on |
| `CrcTables.RevAnsiTable` | mbed/mbed-os/drivers/TableCRC.cpp:147-156 | every entry is what four right shifts compute |
| `CrcTheorems.StopDepends` | mbed/mbed-os/drivers/MbedCRC.h:263-287 | the finished value depends on the significant bits of the register only |
| `CrcEngine.MbedCRC.NarrowBits` | mbed/mbed-os/drivers/MbedCRC.h:424-435 | the loop for widths below 8 computes the bit-by-bit function |
| `CrcEngine.MbedCRC.WideBits` | mbed/mbed-os/drivers/MbedCRC.h:436-451 | the loop for widths from 8 on computes the bit-by-bit function |
| `CrcEngine.MbedCRC.ReflectLoop` | mbed/mbed-os/drivers/MbedCRC.h:370-408 | the reflection loop reverses the low bits |
| `CrcEngine.MbedCRC.BitwiseComputePartial` | mbed/mbed-os/drivers/MbedCRC.h:417-455 | the masked register after the message |
| `CrcEngine.MbedCRC.TableComputePartial` | mbed/mbed-os/drivers/MbedCRC.h:461-497 | the masked register after the message, by the table of the polynomial |
| `CrcEngine.MbedCRC.ComputePartialStop` | mbed/mbed-os/drivers/MbedCRC.h:263-287 | alignment, reflection, final xor and mask by mode and width |
| `CrcEngine.MbedCRC.Compute` | mbed/mbed-os/drivers/MbedCRC.h:149-173 | start, one partial step and stop, in the mode the polynomial selects |
| `TickerTime.KeepsAdvance` | mbed/mbed-os/hal/mbed_ticker_api.c:126-173 | in every frequency branch the time shown is exactly the whole microseconds of the ticks counted so far, the rest being kept |
| `TickerTime.ElapsedConserves` | mbed/mbed-os/hal/mbed_ticker_api.c:140-169 | no branch loses or invents time and the remainder stays below one microsecond |
| `TickerTime.ElapsedFits` | mbed/mbed-os/hal/mbed_ticker_api.c:140-169 | the products fit 64 bits |
| `TickerTime.BranchesAgree` | mbed/mbed-os/hal/mbed_ticker_api.c:178-211 | all three branches and the early cap compute the same rounded-up delta |
| `TickerTime.RoundUpFits` | mbed/mbed-os/hal/mbed_ticker_api.c:186-209 | below max_delta_us neither the 64-bit product nor the 32-bit delta overflows |
| `TickerTime.RoundUpRange` | mbed/mbed-os/hal/mbed_ticker_api.c:178-264 | a future deadline is 1 to max_delta ticks away, so match_tick never equals the last tick read |
| `TickerTime.WakesInTime` | mbed/mbed-os/hal/mbed_ticker_api.c:178-211 | at the chosen tick the deadline has been reached with less than one microsecond and one tick to spare, unless the wait was capped |
| `TickerTime.MatchPassedExact` | mbed/mbed-os/hal/mbed_ticker_api.c:216-223 | with less than a turn between two reads the test is true exactly when the counter has reached the next occurrence of the match tick, an equal one being a whole turn ahead |
| `TickerTime.ConvertIsNext` | mbed/mbed-os/hal/mbed_ticker_api.c:111-121 | the earliest time from the reference on with the given lower 32 bits |
| `TickerEvents.InsertedSorted` | mbed/mbed-os/hal/mbed_ticker_api.c:360-385 | insertion keeps the queue sorted and duplicate-free |
| `TickerEvents.PlaceSplits` | mbed/mbed-os/hal/mbed_ticker_api.c:360-372 | insertion is stable: after all entries due no later, before all due later |
| `TickerEvents.RemovedExact` | mbed/mbed-os/hal/mbed_ticker_api.c:388-410 | removal deletes exactly that node, or nothing |
| `TickerEvents.DispatchIsPrefix` | mbed/mbed-os/hal/mbed_ticker_api.c:298-320 | when handlers leave the queue alone, dispatching takes a prefix in order and leaves the rest |
| `TickerEvents.DispatchedWereDue` | mbed/mbed-os/hal/mbed_ticker_api.c:306-313 | every dispatched event was due |
| `TickerScripts.QuietHandlers` | mbed/mbed-os/hal/mbed_ticker_api.c:298-320 | when handlers call nothing, only dispatches happen to the queue |
| `TickerEvents.ReplayKeepsOrder` | mbed/mbed-os/hal/mbed_ticker_api.c:298-320 | any mixture of dispatching, insertion and removal keeps the queue sorted |
| `TickerEvents.ChainInsert` | mbed/mbed-os/hal/mbed_ticker_api.c:374-384 | relinking around a node keeps the chain acyclic and ended |
| `TickerEvents.ChainRemove` | mbed/mbed-os/hal/mbed_ticker_api.c:392-407 | bridging over a node keeps the chain acyclic and ended |
| `TickerTime.WaitNotLate` | mbed/mbed-os/hal/mbed_ticker_api.c:178-211 | capped or not, at the chosen tick the deadline is overshot by less than one microsecond and one tick |
| `TickerTime.FirstMatch` | mbed/mbed-os/hal/mbed_ticker_api.c:238-277 | a compare register armed less than a turn ahead first matches at the tick it was armed for |
| `TickerCounter.Counter.MatchIsFirst` | mbed/mbed-os/hal/mbed_ticker_api.c:238-277 | after a write the hardware matches first at the first tick that shows the value written |
| `TickerClock.Conserved` | mbed/mbed-os/hal/mbed_ticker_api.c:126-173 | over any sequence of readings, suspensions and resumptions every tick of the counter is counted, dropped while suspended, or lost |
| `TickerClock.LostExact` | mbed/mbed-os/hal/mbed_ticker_api.c:443-467 | no tick is lost if and only if the ticker is suspended, or resumed again, only at the very tick it was last read |
| `TickerClock.SuspendLoses` | mbed/mbed-os/hal/mbed_ticker_api.c:443-467 | a reading at 5, a suspension at 9 and a resumption at 20: four ticks of a running ticker are never counted |
| `Ticker.TickerQueue.TicksAccounted` | mbed/mbed-os/hal/mbed_ticker_api.c:126-173 | at any point of any run the time shown is the microseconds of the ticks counted, which with those dropped and lost are all the ticks of the counter up to the last reading |
| `Ticker.TickerQueue.GuardedMeans` | mbed/mbed-os/hal/mbed_ticker_api.c:238-277 | what the guard means: the interrupt has been raised, or the first event is not late; and the interrupt comes before max_delta has passed since the last reading |
| `Ticker.TickerQueue.Run` | mbed/mbed-os/hal/mbed_ticker_api.c:126-467 | a whole run of waiting, interrupts, setting the handler, readings, insertions, removals, suspensions and resumptions: every step does to the queue exactly what was asked of it and an interrupt leaves nothing that was due; every tick is accounted for, and all are counted between suspensions; and unless suspended, the interrupt has been raised whenever the first event has been due for a microsecond and a tick |
| `TickerScripts.RunKeepsEvents` | mbed/mbed-os/hal/mbed_ticker_api.c:298-410 | over a whole run every event queued or inserted is queued still, or was dispatched, or was removed, once for every time it was inserted |
| `TickerEvents.EventsKept` | mbed/mbed-os/hal/mbed_ticker_api.c:298-410 | the same for any trace of dispatches, insertions and removals |
| `Ticker.TickerQueue.constructor` | mbed/mbed-os/hal/mbed_ticker_api.c:29-82 | the clock starts at zero with an empty queue and an armed counter |
| `Ticker.TickerQueue.UpdatePresentTime` | mbed/mbed-os/hal/mbed_ticker_api.c:126-173 | the ticks of the counter since the last stored reading are counted exactly, time and remainder stay exact, and reading leaves the wake-up guarded |
| `Ticker.TickerQueue.ComputeTickRoundUp` | mbed/mbed-os/hal/mbed_ticker_api.c:178-211 | the tick of the rounded-up deadline |
| `Ticker.TickerQueue.ScheduleInterrupt` | mbed/mbed-os/hal/mbed_ticker_api.c:238-277 | the compare register holds the tick of the head event, or of max_delta with an empty queue; the interrupt has been raised, or that tick is the next at which the hardware matches; and it is fired only for an event that is due or a tick that has been reached |
| `Ticker.TickerQueue.InsertEventUs` | mbed/mbed-os/hal/mbed_ticker_api.c:349-386 | the linked list refines stable insertion; a new head is scheduled, and behind the head the earlier wake-up stays guarded |
| `Ticker.TickerQueue.InsertEvent` | mbed/mbed-os/hal/mbed_ticker_api.c:329-347 | a 32-bit timestamp is inserted at the next time with those bits, and the wake-up stays guarded |
| `Ticker.TickerQueue.RemoveEvent` | mbed/mbed-os/hal/mbed_ticker_api.c:388-410 | the linked list refines removal; a removed head is rescheduled, and behind the head the earlier wake-up stays guarded |
| `Ticker.TickerQueue.IrqHandler` | mbed/mbed-os/hal/mbed_ticker_api.c:288-327 | the due heads are dispatched one after the other, each followed by exactly the insertions and removals its handler asks for, until nothing is due; then the interrupt is scheduled |
| `Ticker.TickerQueue.MakeCall` | mbed/mbed-os/hal/mbed_ticker_api.c:349-410 | a call a handler makes does exactly what it asks for |
| `Ticker.TickerQueue.Suspend` | mbed/mbed-os/hal/mbed_ticker_api.c:443-450 | suspending reads nothing: the ticks since the last reading are left uncounted |
| `Ticker.TickerQueue.Resume` | mbed/mbed-os/hal/mbed_ticker_api.c:452-467 | no tick between the last reading or suspension and the resumption is counted, all after it are |
| `LowPowerTicker.LowPowerTickerWrapper.Run` | mbed/mbed-os/hal/LowPowerTickerWrapper.cpp:32-316 | over every interleaving: once a pending match has come, the hardware has raised the interrupt or a timeout is attached; and the writes the hardware saw are at least the minimum apart |
| `LowPowerTicker.LowPowerTickerWrapper.Outcome` | mbed/mbed-os/hal/LowPowerTickerWrapper.cpp:32-316 | what the invariant between steps means for the hardware |
| `LowPowerTicker.LowPowerTickerWrapper.SetInterrupt` | mbed/mbed-os/hal/LowPowerTickerWrapper.cpp:135-151 | the register is written whenever that is allowed and the match not too close; then a match passed meanwhile is fired, one now too close gets a timeout, and any other is early enough for the hardware; otherwise the register keeps its value and there is a timeout: the one already attached, or one of the ticks to the match, at most min_cycles_until_match, rounded up to less than a microsecond more for each tick, plus 4 microseconds |
| `LowPowerTicker.LowPowerTickerWrapper.ScheduleMatch` | mbed/mbed-os/hal/LowPowerTickerWrapper.cpp:258-316 | the register is written exactly when the spacing allows it and the match is not too close; then a match passed meanwhile is fired and one now too close gets a timeout; otherwise a timeout of that length is attached; of what length is said against frequency and match, with bounds on both sides |
| `LowPowerTicker.LowPowerTickerWrapper.TimeoutHandler` | mbed/mbed-os/hal/LowPowerTickerWrapper.cpp:216-236 | a match that has come is fired; any other is scheduled again, by one write or, the register unchanged, by a timeout for the ticks to the match |
| `LowPowerTicker.LowPowerTickerWrapper.IrqHandler` | mbed/mbed-os/hal/LowPowerTickerWrapper.cpp:32-55 | an interrupt ends the pending match and its timeout |
| `LowPowerTicker.LowPowerTickerWrapper.Read` | mbed/mbed-os/hal/LowPowerTickerWrapper.cpp:122-133 | a read fires a match that has come, and nothing else; it leaves the compare register alone |
| `LowPowerTicker.LowPowerTickerWrapper.MatchCheck` | mbed/mbed-os/hal/LowPowerTickerWrapper.cpp:238-248 | true exactly when a match is pending and its time has come |
| `LowPowerTicker.LowPowerTickerWrapper.RefreshAllowed` | mbed/mbed-os/hal/LowPowerTickerWrapper.cpp:263-267 | permission to write is raised only when the distance has passed since the last write |
| `LowPowerTicker.LowPowerTickerWrapper.WriteCompare` | mbed/mbed-os/hal/LowPowerTickerWrapper.cpp:290-304 | one write, logged by the hardware when it happens, and the ticks left are read back after it, a passed match showing as a whole turn |
| `LowPowerTicker.Passed` | mbed/mbed-os/hal/LowPowerTickerWrapper.cpp:224-231 | with the extra check for equal values the test is true exactly when the match time has come |
| `LowPowerTicker.TickSpans` | mbed/mbed-os/hal/LowPowerTickerWrapper.cpp:250-256 | a timeout of rounded-up microseconds for each tick is never shorter than the ticks, and apart from the 4 microseconds added longer by less than a microsecond for each |
| `LowPowerTicker.RoundsUp` | mbed/mbed-os/hal/LowPowerTickerWrapper.cpp:212-213 | us_per_tick is the microseconds of a tick, rounded up |
| `FlashIAP.FlashIAP.Program` | mbed/mbed-os/drivers/FlashIAP.cpp:105-158 | on a reliable flash 0 is returned exactly if there is a buffer, the address is a multiple of the page size and the range ends at or before the end of the flash; then the flash is flash & buffer on the range and all else as it was, whatever the source alignment; otherwise -1, and nothing is touched outside the pages of the range, by a refused call nothing at all |
| `FlashIAP.FlashIAP.ProgramLastSector` | mbed/mbed-os/drivers/FlashIAP.cpp:105-158 | writing the whole last sector succeeds |
| `FlashGeometry.Geometry.InSectors` | mbed/mbed-os/drivers/FlashIAP.cpp:105-119 | a range lies before the end of the flash exactly if every byte of it lies in a sector |
| `FlashIAP.FlashIAP.WriteAll` | mbed/mbed-os/drivers/FlashIAP.cpp:121-153 | the loop ends and what is written so far is always the prefix of the buffer |
| `FlashIAP.FlashIAP.NextChunk` | mbed/mbed-os/drivers/FlashIAP.cpp:122-141 | each write is whole pages inside one sector, and is buffered when the source is unaligned |
| `FlashIAP.FlashIAP.Erase` | mbed/mbed-os/drivers/FlashIAP.cpp:171-206 | 0 is returned exactly when the range ends at a sector boundary or the flash end, and then precisely the sectors of the range are erased |
| `FlashIAP.FlashIAP.EraseAll` | mbed/mbed-os/drivers/FlashIAP.cpp:188-203 | size reaches zero without underflow although sector sizes change |
| `FlashGeometry.Geometry.BoundaryIsAligned` | mbed/mbed-os/drivers/FlashIAP.cpp:179-186 | an address inside the flash is a sector boundary exactly when it is a multiple of its own sector size |
| `FlashGeometry.ProgrammedAppend` | mbed/mbed-os/drivers/FlashIAP.cpp:127-153 | padding a page with 0xFF programs nothing beyond the data |
| `FlashGeometry.ProgrammedOnErased` | mbed/mbed-os/drivers/FlashIAP.cpp:105-158 | on erased flash the buffer is what is read back |

## Left out

- Execute: after an error `nread` and, for a refused byte of a header value, `header_state` are not compared, and when one call exceeds the header limit only the fact of an error is, because the batched loop notices it at another byte than the reference; buffers so long that `nread` could wrap its 32 bits are excluded.
- CutIndependenceExact: the equivalence is stated for inputs that do not end in an upgrade and do not exceed the header limit in one call; of the latter, AcceptedInPieces says that every cut refuses them too; how a parser goes on after an upgrade is not compared.
- WrittenIsRead: the head is made of header characters, fills at most half the header limit and does not agree to an upgrade, because only then does no cut matter; ReadInPieces covers the others in pieces that are accepted.
- CreateHttpResponse: streams that exceed the header limit in the pieces they come in are not covered, nor is the body callback.
- ReceiveLoop: the same streams as CreateHttpResponse.
- CutIndependence: an empty piece stands for no call; a call of length 0 means the end of the stream and is modelled by Finish.
- SendChunked: the request builder's output is a parameter, chunks of 2^28 bytes or more overflow the source's `size_buff` and are excluded, and the copy into a caller's request buffer is not modelled.
- SetBody: allocation and growth of the body buffer and the `Content-Length` reading of `atoi` in `set_headers_complete` are not modelled; the body is a sequence.
- SetStatus: the status text is replaced, not assembled, and is not called for an empty reason phrase; it is outside the compared view of the response.
- ParseUrl: offsets and lengths are 16 bits in the source, so buffers are at most 65535 bytes; the byte after the buffer is NUL.
- TableComputePartial: a polynomial with a table is used at the width the table was made for; at another width the source would read the table with the wrong element size.
- UpdatePresentTime: microseconds are unbounded; the source's 64-bit time wraps after more than half a million years.
- IrqHandler: a handler or client that inserts an event which is already queued is not covered, because the source then corrupts its list; the calls of one invocation are listed in advance.
- ScheduleInterrupt: with an empty queue the source does not read the counter again, so when more than max_delta passes between the reading and the write the next match is promised only within a turn.
- LowPowerTickerWrapper.Run: the steps are setting, reading, firing, timing out and interrupts; see SetInterrupt.
- SetInterrupt: suspend, resume, init, free, disable_interrupt and a clear_interrupt outside the interrupt handler are not modelled: suspending waits in a loop for the counter, and clearing drops a fired match by design; the handler called from the wrapper's interrupt begins by clearing the interrupt, and whatever else it calls are further steps.
- Program: FlashIAP.h asks for the address of a page, so the address lies at or above the start of the flash, and `addr + size` does not wrap around 2^32; what a driver does at an address it does not map is not defined, and such calls are not modelled. The erase value is 0xFF.
- Erase: FlashIAP.h asks for an address that is a multiple of the sector size, and the driver for a sector boundary; other addresses are not modelled, nor is an `addr + size` that wraps around 2^32.
- Request parsing, what follows an upgrade, and CONNECT in the HTTP parser, pausing and callbacks that return an error.
- Hardware CRC mode and its mutex.
- The non-strict and lenient builds of the parser.
- Sockets, TLS, drivers without an algorithm, the event queue templates, the sensor classes and the PHP application.
