# Verified model of Volo's wire formats and state machines

The project models, in Dafny 4.11, the parts of the Volo RPC framework where state, bytes and
interleavings meet, and proves what they promise for all inputs and all runs.

* **gRPC streaming** (`Encoder`, `LinkedBuffers`, `Bodies`, `Framing`, `Decoder`, `Pipeline`): messages
  become length-prefixed frames in a buffer of nodes, travel through the server body and a transport
  that may cut the data anywhere, and are put together again by an incremental decoder. The decoder
  is proved to refine a one-shot parser; `Pipeline.EndToEnd` is the theorem over all of it.
* **Status trailers and metadata** (`Statuses`, `HeaderMaps`, `Percent`, `Base64`,
  `Utf8`, `BinaryMetadata`): a status written into headers and read back.
* **Compression negotiation** (`Compression`, `Negotiation`): which encoding both sides settle on,
  joined to the pipeline by `Negotiation.NegotiatedResponseMatches`.
* **Server-Sent Events** (`SseLines`, `Sse`, `SseCuts`, `SseStream`, `SseFields`): the client's reader, the
  server's event writer, and the round trip between them, field by field.
* **Multipart forms** (`Multipart`, `MultipartParser`): the encoder with its two paths, against a
  reference parser that shares no text with it.
* **`volo.yml`** (`ConfigModel`, `ConfigCommands`): the commands as a state machine over the file.
* **Graceful shutdown** (`Shutdown`) and **benchmark slots** (`Slots`): concurrent protocols as
  steps in any order.
* **Timeouts** (`Timeout`, `Decimal`).

Code that updates objects in place is modelled by classes whose methods are specified through what
is still to come (`Outlook`, `Remaining`); value-level lemmas then say what that means. Message codec,
compression libraries, git lookups and downloads are function values; the theorems that need them
name their laws (`CodecLawful`, `LibrariesLawful`). Bytes, lengths and 64-bit limits are explicit.

## Findings

Some properties hold only under a condition. The model keeps the code as it is and proves the exact
condition.

* The percent sign is not in the encode set of `grpc-message`. A message holding a percent sign and
  two hexadecimal digits is altered, and if the decoded text is not UTF-8 the code becomes Unknown.
* A `grpc-status-details-bin` entry in the metadata takes the place of empty details, and if it is not
  base64 the reader panics.
* `Identity` and encodings without a configuration send an empty payload. A client sending with
  `Identity` is always refused.
* A body cut directly behind a five-byte prefix ends like a complete one, and leftover bytes are not
  looked at when trailers arrive, wherever the cut is (`Pipeline.ReceiveTruncated`).
* After a payload error the header of that payload stays in force and is applied to the bytes that
  follow; an error on an empty payload is reported again on every poll.
* A source error with code Ok ends a response as a success, unless its message decodes to ill-formed
  text, which makes it a failure with code Unknown, or its details cannot be read
  (`Pipeline.ReportIsQuiet`).
* A chunk boundary between CR and LF adds a blank line to an event stream. It splits an event exactly
  when one is under way and another of its fields follows (`SseCuts.CutsMatterExactly`).
* Server events built with `json` leave their line open: a field set afterwards becomes part of the
  JSON value, and without one the event merges with the next if that sets a field
  (`SseStream.SeparateExactlyWhenApart`). The documentation of `json` speaks of one prefix per line;
  the code writes a single one.
* A declared multipart length is wrong by exactly the error of the given part lengths.
* Repeating `idl add` with an absolute git path that no service had before is not recognised, and
  migration drops a URL that shares its repository name with another.
* An exhausted listener, and an accept error, return without waiting for the connections.
* The benchmark's request counter ends at total plus the number of workers, which is what it reports.
* Hours and minutes of a timeout above a stated limit overflow 64 bits: a panic with overflow checks, a
  shorter time without.

## Model

| member | source | states |
|---|---|---|
| Pipeline.EndToEnd | volo-grpc/src/codec/decode.rs:199-265 | for every source of messages and errors, every usable or absent compression, every re-cutting of the data on the way and every HTTP status, the client receives exactly the messages before the first failure, in order; then exactly what the trailers of the final status report, with the trailers kept if and only if that is a quiet end; unless the client panicked every later poll is silent for HTTP status 200 and an error for any other |
| Pipeline.Send | volo-grpc/src/body.rs:64-88 | running encoder and body to the end yields exactly the specified frame sequence, whatever the uninitialised memory under the prefix held |
| Pipeline.BodyCarriesSource | volo-grpc/src/body.rs:64-88 | the data frames of a body concatenate to the frames of the messages before the first failure, and what follows them is one trailers frame with the final status |
| Pipeline.FramingRoundTrip | volo-grpc/src/codec/decode.rs:120-193 | parsing any re-cutting of what was sent gives exactly the messages sent, with no byte left over |
| Pipeline.ReportIsFaithful | volo-grpc/src/status.rs:486-519 | a failure is reported with its own code, message, details and metadata (without reserved names) if and only if its code is not Ok, its message holds no escape and its details are not shadowed |
| Pipeline.ReportIsQuiet | volo-grpc/src/status.rs:486-519 | a failure ends the response as a success if and only if its code is Ok, its details can be read and its message decodes to valid text; the client panics if and only if the details cannot be read |
| Pipeline.OkIsQuiet | volo-grpc/src/status.rs:486-498 | the trailers of a stream without failure read back as the plain Ok status |
| Pipeline.ReceiveTruncated | volo-grpc/src/codec/decode.rs:199-265 | for every strict prefix of a valid encoding, however cut, a decoder run delivers exactly the messages complete before the cut; without trailers it reports "unexpected EOF" if and only if the cut is neither on a message boundary nor directly behind a five-byte prefix, and otherwise ends as for a complete body; with trailers it ends by them alone, wherever the cut is |
| Pipeline.CutNoticed | volo-grpc/src/codec/decode.rs:225-235 | at the end of the body leftover bytes are noticed if and only if there are some and they are not exactly one prefix |
| Pipeline.ReceiveWithoutStatus | volo-grpc/src/status.rs:486-519 | a response without a status in its trailers ends quietly if and only if its HTTP status is 200; otherwise 400, 401, 403, 404, 429, 502, 503 and 504 give their own codes and any other Unknown |
| Pipeline.ReceiveBroken | volo-grpc/src/codec/decode.rs:215-224 | a transport error is reported as it is and silences the decoder, except that a cancelled request ends quietly |
| Pipeline.ReceiveRequest | volo-grpc/src/codec/decode.rs:239-264 | a complete request ends quietly, whatever its trailers say |
| Framing.NextFrameStable | volo-grpc/src/codec/decode.rs:120-193 | a frame that is complete or malformed stays so, with the same result, when more bytes follow |
| Framing.FrameOnWire | volo-grpc/src/codec/encode.rs:54-71 | flag byte, four length bytes with the most significant first, payload |
| Framing.RefusedExactly | volo-grpc/src/codec/decode.rs:120-189 | a frame is refused exactly for a flag above 1, for flag 1 without an encoding, or for a complete payload that does not decompress or does not decode |
| Framing.ErrorsAreInternal | volo-grpc/src/codec/decode.rs:134-175 | every error of a frame has code Internal and nothing but a message |
| Framing.ParseConcat | volo-grpc/src/codec/decode.rs:120-193 | parsing can stop after any prefix and resume with the unfinished rest; an error found in a prefix is final |
| Framing.RestIncomplete | volo-grpc/src/codec/decode.rs:120-160 | what a parse leaves over contains no complete frame |
| Framing.NextFrameOfFrame | volo-grpc/src/codec/decode.rs:120-193 | a framed payload is decoded to its message and consumes exactly its own bytes, whatever follows |
| Framing.NextFrameOfCut | volo-grpc/src/codec/decode.rs:121-161 | no strict prefix of a framed payload yields a message or an error |
| Framing.ParseWire | volo-grpc/src/codec/decode.rs:120-193 | a concatenation of frames parses to all their messages in order, followed by the parse of what comes after |
| Framing.ParseTruncated | volo-grpc/src/codec/decode.rs:120-193 | the first k bytes of an encoding parse to exactly the messages complete within them, leaving exactly the cut frame |
| Framing.CutFrame | volo-grpc/src/codec/decode.rs:120-193 | every cut inside an encoding falls into one of its frames |
| Framing.AfterErrorStable | volo-grpc/src/codec/decode.rs:128-189 | what a decoder goes on with after a malformed frame does not depend on when the later bytes arrive |
| Framing.ErrorRepeatsExactlyWhenEmpty | volo-grpc/src/codec/decode.rs:157-189 | a payload error is reported again without progress if and only if the payload is empty |
| Bytes.GetPutU32 | volo-grpc/src/codec/encode.rs:62-69 | reading the big-endian length inverts writing it, for every 32-bit length |
| Bytes.PutGetU32 | volo-grpc/src/codec/decode.rs:151-151 | writing the length that was read gives back the four bytes read |
| LinkedBuffers.NodesContent | volo-grpc/src/codec/encode.rs:42-52 | however zero-copy insertions split the buffer into nodes, the nodes concatenate to what was written, in order |
| LinkedBuffers.NodesKeepPrefix | volo-grpc/src/codec/encode.rs:57-70 | whatever is reserved first stays whole at the start of node 0 |
| LinkedBuffers.LinkedBytes.WriteAll | volo-grpc/src/codec/encode.rs:49-52 | running the writes of a message encoder against the buffer builds exactly the specified nodes behind the old ones |
| LinkedBuffers.LinkedBytes.PatchFront | volo-grpc/src/codec/encode.rs:56-71 | overwrites the front of node 0, closed or still growing, and nothing else |
| Encoder.PatchedNodes | volo-grpc/src/codec/encode.rs:54-71 | patching the prefix afterwards has the effect of having written the right prefix first |
| Encoder.MessageFramesCarryMessage | volo-grpc/src/codec/encode.rs:54-83 | the frames of one message concatenate to its length-prefixed form, there is at least one, and the first holds the whole prefix |
| Encoder.WritePayload | volo-grpc/src/codec/encode.rs:42-52 | writes the encoded message, or its compressed form, behind the reserved prefix; reports the encoding or compression error otherwise |
| Encoder.EncodeMessage | volo-grpc/src/codec/encode.rs:30-83 | with any content in the reserved bytes the result is the frames of the message, or its encoding or compression error |
| Encoder.FramesOf | volo-grpc/src/codec/encode.rs:73-83 | one frame for each non-empty node, in order |
| Encoder.Encode | volo-grpc/src/codec/encode.rs:16-90 | the loop over the source yields exactly the specified stream: an encoding error ends it, an error of the source does not |
| Encoder.AfterFailures | volo-grpc/src/codec/encode.rs:44-85 | the stream goes on after an error of the source and ends after an encoding or compression error |
| Encoder.SummaryReads | volo-grpc/src/codec/encode.rs:27-88 | every payload sent fits its length field and, with a matching receiver, is read back as its message |
| Encoder.MessageReads | volo-grpc/src/codec/decode.rs:163-189 | with lawful codec and libraries and the same usable encoding on both sides, decompressing and decoding a sent payload gives the message |
| Encoder.LosslessExactlyWhenUsable | volo-grpc/src/codec/compression.rs:274-308 | two different messages both survive compression if and only if the encoding is not `Identity` and has a configuration; otherwise both are sent as the same empty payload |
| Compression.DecompressCompress | volo-grpc/src/codec/compression.rs:274-347 | decompression under any encoding of the same kind inverts compression under a usable one |
| Compression.PeersUnderstand | volo-grpc/src/codec/compression.rs:274-347 | a peer that knows only gzip, zlib or zstd reads what is sent under that name, and is read |
| Compression.ZstdLevels | volo-grpc/src/codec/compression.rs:296-306 | level 0 stands for level 3 |
| Bodies.Body.PollFrame | volo-grpc/src/body.rs:64-92 | each poll yields the next frame of the specified sequence; after the trailers only `None`; the end flag is set exactly when nothing remains |
| Bodies.FramesShape | volo-grpc/src/body.rs:70-87 | for every stream: data frames, then exactly one trailers frame, then nothing |
| Bodies.FramesOfData | volo-grpc/src/body.rs:71-72 | data items pass through the body unchanged and in order |
| Decoder.RecvStream.constructor | volo-grpc/src/codec/decode.rs:58-73 | a new decoder has nothing pending and no trailers |
| Decoder.RecvStream.DecodeChunk | volo-grpc/src/codec/decode.rs:120-193 | on the pending bytes (a consumed header counted in) it agrees with the one-shot parser: incomplete, malformed with the same status, or the same message with exactly its bytes removed; after an error one byte is gone, or the payload while its header stays in force |
| Decoder.RecvStream.PollNext | volo-grpc/src/codec/decode.rs:199-265 | one poll delivers the next message of the one-shot parse of everything still to come, whatever the cuts; then its error, and what the decoder goes on with; or the handling of trailers, transport error or EOF; a stopped decoder stays silent |
| Decoder.RecvStream.Drain | volo-grpc/src/codec/decode.rs:78-94 | polling to the end delivers exactly the messages of the one-shot parse, in order, and then what stopped it |
| Decoder.RecvStream.TakeTrailers | volo-grpc/src/codec/decode.rs:87-117 | hands out stored trailers once; otherwise reads to the end and returns the trailers, the error, or the outcome of one further poll of the body, also for a stopped decoder |
| Decoder.RecvStream.PendingHeader | volo-grpc/src/codec/decode.rs:151-157 | the remembered state stands for exactly the header bytes that were consumed |
| Decoder.PrefixOfHeader | volo-grpc/src/codec/decode.rs:128-154 | flag and length determine the header bytes they were read from |
| Decoder.CutsDoNotMatter | volo-grpc/src/codec/decode.rs:199-237 | two decoders fed the same bytes in different cuts deliver the same messages and the same last result, valid input or not |
| Statuses.CodeRoundTrip | volo-grpc/src/status.rs:812-861 | every code is read back from its text |
| Statuses.CodeNumbers | volo-grpc/src/status.rs:812-861 | the codes are the numbers 0 to 16 of the gRPC protocol, and any text that is none of them reads as Unknown |
| Statuses.WireNames | volo-grpc/src/status.rs:561-590 | code, message and details travel as `grpc-status`, `grpc-message` and `grpc-status-details-bin` |
| Statuses.AddHeader | volo-grpc/src/status.rs:561-590 | never fails, and leaves exactly the specified headers over what the map held |
| Statuses.ToHeaderMap | volo-grpc/src/status.rs:553-557 | always succeeds with the headers of the status alone |
| Statuses.WrittenHeaders | volo-grpc/src/status.rs:561-590 | after writing, each of the three headers holds its own part or what the metadata supplied, and the rest is the metadata without reserved names |
| Statuses.MessageRead | volo-grpc/src/status.rs:435-480 | the message read equals the one written if and only if it holds no percent sign followed by two hexadecimal digits, and the code is kept if and only if it was Unknown or the decoded text is valid UTF-8 |
| Statuses.ReadWritten | volo-grpc/src/status.rs:430-590 | the exact reading of every written status, the panic included |
| Statuses.StatusRoundTrip | volo-grpc/src/status.rs:430-590 | a status with a valid message survives the trailers if and only if the message holds no escape and its details are not shadowed by metadata |
| Statuses.CodeCanBeLost | volo-grpc/src/status.rs:470-479 | a status NotFound with message `%FF` comes back as Unknown |
| Statuses.DetailsCanPanic | volo-grpc/src/status.rs:445-451 | a status whose metadata has a details entry that is no base64 makes the reader panic |
| HeaderMaps.HeaderMap.Sanitize | volo-grpc/src/metadata/map.rs:184-238 | removes exactly the six reserved names |
| Percent.EncodeHeaderSafe | volo-grpc/src/status.rs:568-577 | an encoded message holds only visible ASCII characters and is always a legal header value |
| Percent.EncodedByte | volo-grpc/src/status.rs:14-23 | which bytes are encoded, and that they become a percent sign and their two upper-case hexadecimal digits |
| Percent.EncodeConcat | volo-grpc/src/status.rs:568-571 | a message is encoded byte by byte |
| Percent.DecodeEncode | volo-grpc/src/status.rs:15-24 | decoding an encoded text is decoding the text itself: escapes already in it are undone |
| Percent.DecodeIdentity | volo-grpc/src/status.rs:438-438 | decoding leaves a text alone if and only if it holds no escape |
| Percent.MessageRoundTrip | volo-grpc/src/status.rs:15-24 | encode then decode is the identity exactly on texts without an escape |
| Base64.DecodeEncode | volo-grpc/src/metadata/encoding.rs:112-135 | decoding inverts encoding for every byte string |
| Base64.EncodeDecode | volo-grpc/src/metadata/encoding.rs:130-135 | re-encoding what a text decodes to gives the text without its padding |
| Base64.Alphabet | volo-grpc/src/lib.rs:33-39 | the alphabet is A-Z, a-z, 0-9, plus and slash |
| Base64.SameBits | volo-grpc/src/lib.rs:33-39 | three bytes and their four symbols are the same binary number |
| Base64.PaddingExactly | volo-grpc/src/lib.rs:33-39 | padding is accepted in any amount up to the canonical one and refused beyond |
| Utf8.EncodedIsValid | volo-grpc/src/status.rs:438-440 | the encoding of any sequence of Unicode scalar values by the table in section 3 of RFC 3629 is well-formed |
| Utf8.ValidIsEncoded | volo-grpc/src/status.rs:438-440 | every well-formed byte string is such an encoding |
| Utf8.LossyKeepsValid | volo-http/src/client/sse.rs:262-262 | a lossy reading leaves well-formed text alone |
| Utf8.LossyIsValid | volo-http/src/client/sse.rs:262-262 | a lossy reading is always well-formed |
| Utf8.LossyReplaces | volo-http/src/client/sse.rs:262-262 | each ill-formed sequence becomes one U+FFFD and the text around it stays |
| Utf8.TruncatedExactly | volo-http/src/client/sse.rs:262-262 | a text counts as cut off inside a character if and only if bytes could complete it |
| BinaryMetadata.StoreAndRead | volo-grpc/src/metadata/value.rs:398-413 | every byte string can be stored and read back, and the stored text is always a legal header value |
| BinaryMetadata.EqualityIsTextUpToPadding | volo-grpc/src/metadata/encoding.rs:145-151 | two values are equal if and only if neither decodes or both do and differ only in padding; equal values are exactly those that hash alike |
| Negotiation.SplitJoin | volo-grpc/src/codec/compression.rs:99-116 | splitting the composed header at commas gives back the names |
| Negotiation.FindNamedIsFirst | volo-grpc/src/codec/compression.rs:152-195 | a kind is found if and only if the server can send it, and then at its first position |
| Negotiation.FindFirstIsBest | volo-grpc/src/codec/compression.rs:152-195 | the choice is the first kind in the client's order that the server can send, and none if and only if there is no such kind |
| Negotiation.NegotiationAgrees | volo-grpc/src/codec/compression.rs:152-230 | for every pair of configurations the server picks the client's first supported kind, never `Identity`, or nothing; the client always accepts the answer, as the same kind |
| Negotiation.EncodingHeaderExactly | volo-grpc/src/codec/compression.rs:198-230 | whatever the header text, it is accepted if and only if it is `identity` or names a configured kind, and then as that kind |
| Negotiation.TrimIs | volo-grpc/src/codec/compression.rs:152-195 | blanks around a name are dropped |
| Negotiation.BlanksDoNotMatter | volo-grpc/src/codec/compression.rs:152-195 | a list of names is read alike with and without blanks around them |
| Negotiation.AcceptHeaderText | volo-grpc/src/codec/compression.rs:99-116 | gzip and zstd are sent as `gzip,zstd` |
| Negotiation.AnswerAccepted | volo-grpc/src/codec/compression.rs:198-230 | an answer of a kind the client listed is accepted as that kind |
| Negotiation.NegotiatedResponseMatches | volo-grpc/src/server/service.rs:133-169 | a negotiated response satisfies what `Pipeline.EndToEnd` asks of sender and receiver, if every encoding the server may send has a configuration |
| Negotiation.IdentityRequestsFail | volo-grpc/src/transport/client.rs:136-161 | every message of a client that sends with `Identity` is refused by the server as flagged without an encoding |
| SseLines.LinesConcat | volo-http/src/client/sse.rs:240-263 | splitting into lines can be interrupted anywhere but between a CR and its LF |
| SseLines.LinesEndCrLf | volo-http/src/client/sse.rs:240-263 | a text ending in CR has the same lines with or without the LF that completes it |
| SseLines.ScanIsGlued | volo-http/src/client/sse.rs:198-234 | reading chunk by chunk sees exactly the lines of the whole text with one extra LF at each cut between CR and LF |
| SseLines.GluedClean | volo-http/src/client/sse.rs:198-234 | without such cuts the chunks glue to the text itself |
| SseLines.GlueAddsBlank | volo-http/src/client/sse.rs:246-252 | such a cut adds exactly one line, a blank one, and nothing else changes |
| SseLines.GluedLineCount | volo-http/src/client/sse.rs:198-263 | the number of lines read is that of the text plus the number of such cuts |
| SseLines.ScanExactlyWhenClean | volo-http/src/client/sse.rs:198-263 | reading in chunks sees the lines of the text if and only if no cut falls between a CR and its LF |
| Sse.BitsetMeansField | volo-http/src/client/sse.rs:93-120 | a field has been seen if and only if the bitset is not zero |
| Sse.SseReader.NextLine | volo-http/src/client/sse.rs:240-263 | takes the first line out of the buffer with its CR, LF or CRLF, and none if and only if no terminator is there |
| Sse.SseReader.ProcessLine | volo-http/src/client/sse.rs:268-326 | a blank line dispatches a non-empty event; any other line changes the event being collected as specified |
| Sse.SseReader.DispatchPending | volo-http/src/client/sse.rs:329-336 | an empty identifier resets the last identifier and is not reported; the buffer is left empty |
| Sse.SseReader.DrainLines | volo-http/src/client/sse.rs:200-205 | returns the first event the buffer completes, and otherwise leaves only an unterminated rest |
| Sse.SseReader.Read | volo-http/src/client/sse.rs:198-234 | each call returns the first of the events still to come, then the end or the transport error; after an error reading goes on as if it had not been in the body |
| Sse.SseReader.AtEnd | volo-http/src/client/sse.rs:215-231 | at the end of the body an unterminated line and an unfinished event are delivered too |
| Sse.PullFrame | volo-http/src/client/sse.rs:206-214 | taking a frame from the body into a drained buffer does not change the lines to come |
| Sse.Terminated | volo-http/src/client/sse.rs:215-231 | the newline added at the end completes the last line and adds no other |
| SseCuts.ReadAll | volo-http/src/client/sse.rs:198-234 | reading to the end gives exactly the specified events and the specified last result |
| SseCuts.EventsAreOfGluedText | volo-http/src/client/sse.rs:198-263 | for every body, valid or not, the events are those of its glued text read in one piece |
| SseCuts.SameCount | volo-http/src/client/sse.rs:268-336 | how many events a run of lines gives depends only on whether one is under way |
| SseCuts.EarlyEnd | volo-http/src/client/sse.rs:268-336 | a blank line inside an event changes nothing if no field follows before the event ends, and makes two events of it otherwise |
| SseCuts.OneBadCut | volo-http/src/client/sse.rs:246-252 | one cut between CR and LF leaves the events alone if it is harmless and adds exactly one event otherwise |
| SseCuts.CutsAddEvents | volo-http/src/client/sse.rs:198-263 | any number of cuts: the same events if all are harmless, strictly more otherwise |
| SseCuts.CutsMatterExactly | volo-http/src/client/sse.rs:198-263 | a body gives the events of its text in one piece if and only if at every cut between CR and LF no event is under way or nothing is added to it before it ends |
| SseCuts.CleanIsHarmless | volo-http/src/client/sse.rs:198-263 | cuts that separate no CR from its LF are harmless |
| SseCuts.CutsDoNotMatter | volo-http/src/client/sse.rs:198-263 | two bodies with the same data and only harmless cuts give the same events |
| SseCuts.CutCanMatter | volo-http/src/client/sse.rs:246-252 | two data lines cut between CR and LF give other events than uncut |
| SseStream.EventWriter.SetData | volo-http/src/server/response/sse.rs:158-173 | writes one data line per line of the value |
| SseStream.EventWriter.SetEvent | volo-http/src/server/response/sse.rs:136-149 | writes the event name; behind an open JSON value it becomes part of that value |
| SseStream.EventWriter.SetId | volo-http/src/server/response/sse.rs:210-223 | writes the identifier; behind an open JSON value it becomes part of that value |
| SseStream.EventWriter.SetRetry | volo-http/src/server/response/sse.rs:230-245 | writes the delay in milliseconds; behind an open JSON value it becomes part of that value |
| SseStream.EventWriter.AddComment | volo-http/src/server/response/sse.rs:252-258 | writes a comment; behind an open JSON value it becomes part of that value |
| SseStream.EventWriter.Finalize | volo-http/src/server/response/sse.rs:278-281 | the text is the lines of all fields set, closed by a blank line unless a JSON value was left open |
| SseStream.DataCollects | volo-http/src/client/sse.rs:296-306 | the data lines of a value are collected to that value |
| SseStream.FieldCollects | volo-http/src/client/sse.rs:268-326 | the lines of any field the writer accepts mean that field to the reader and dispatch nothing |
| SseStream.StreamFeeds | volo-http/src/server/response/sse.rs:278-281 | the lines of a stream of sent events mean exactly the expected events |
| SseStream.EventWriter.SetJson | volo-http/src/server/response/sse.rs:183-202 | writes one data line and leaves it open |
| SseStream.StreamRoundTrip | volo-http/src/server/response/sse.rs:126-281 | whatever events a server writes, JSON ones included, and however the transport cuts them, the client reads exactly the expected ones, in order, with the right last identifier after each |
| SseFields.FieldsArrive | volo-http/src/client/sse.rs:268-336 | the client sees one event per closed block of sent fields that sets anything: its data is joined by LF, its name, delay and identifier are the latest of the block (an empty identifier counting as none), and the last event identifier after it is the latest of all fields so far |
| SseFields.MeaningIs | volo-http/src/client/sse.rs:296-326 | the fields of one event add up to joined data and latest name, identifier and delay, and to nothing if and only if none of them counts |
| SseFields.FieldNames | volo-http/src/client/sse.rs:296-320 | the field names are `data`, `event`, `id` and `retry` |
| SseFields.ValueSpellings | volo-http/src/client/sse.rs:283-294 | a value means the same directly behind the colon or behind one space; a line without a colon has an empty value; only one space is dropped |
| SseFields.MarkIsDropped | volo-http/src/client/sse.rs:254-260 | a byte order mark at the start of a stream does not change its events |
| SseFields.FinalNewlineOptional | volo-http/src/client/sse.rs:215-225 | a missing line end at the end of a body does not change its events |
| SseStream.OpenEventsMerge | volo-http/src/server/response/sse.rs:183-202 | without their blank lines the events come out alike if they are apart, and fewer otherwise |
| SseStream.SeparateExactlyWhenApart | volo-http/src/server/response/sse.rs:183-202 | the client sees the events as they were built if and only if no event left open by `json` is followed by one that sets a field |
| SseStream.JsonPairMerges | volo-http/src/server/response/sse.rs:183-202 | two JSON events in a row are one event whose data is both joined by LF |
| Decimal.ParseDigits | volo-http/src/client/sse.rs:315-320 | a decimal text is read back as its number if and only if that fits 64 bits |
| Decimal.ParseSigns | volo-http/src/client/sse.rs:315-320 | one plus sign in front is allowed, and nothing else but digits |
| Decimal.ValueConcat | volo-http/src/client/sse.rs:315-320 | digits count for their powers of ten |
| Multipart.ExtendEscaped | volo-http/src/client/multipart.rs:442-460 | copying runs and replacing special bytes appends exactly the byte-wise escaped text |
| Multipart.QuotedRoundTrip | volo-http/src/client/multipart.rs:442-460 | a quoted-string scanner stops exactly at the closing quote and gives back the value with line ends as spaces |
| Multipart.EscapedOneLine | volo-http/src/client/multipart.rs:442-460 | escaped text holds no line end |
| Multipart.EncodeHeader | volo-http/src/client/multipart.rs:397-425 | builds the delimiter line, the disposition with the optional file name, the optional content type and the blank line |
| Multipart.ItemsCarryEncoded | volo-http/src/client/multipart.rs:212-237 | the chained streams carry exactly the encoded form |
| Multipart.DeclaredLengthExact | volo-http/src/client/multipart.rs:212-237 | the declared length misses the real one by exactly the summed error of the part lengths |
| Multipart.DeclaredLengthCanBeWrong | volo-http/src/client/multipart.rs:332-352 | a stream that ends before its given length makes the declared length too large |
| Multipart.InMemoryLengths | volo-http/src/client/multipart.rs:264-277 | a form of in-memory parts has every length known and no length error |
| Multipart.FastPath | volo-http/src/client/multipart.rs:181-210 | the one-buffer path produces the encoded form |
| Multipart.StreamingPath | volo-http/src/client/multipart.rs:212-237 | the items are those specified; the running total is published if and only if every length is known and the sum fits 64 bits |
| Multipart.IntoBody | volo-http/src/client/multipart.rs:173-242 | which path is taken, that both carry the encoded form, and exactly when and with what error a length is published |
| Multipart.PathsAgree | volo-http/src/client/multipart.rs:181-241 | for in-memory forms both paths produce the same bytes and the streaming path would declare exactly their number |
| MultipartParser.HeaderRoundTrip | volo-http/src/client/multipart.rs:397-425 | a reference parser that shares no text with the encoder reads the header as form data with its name, file name and content type, and ends where the data starts |
| MultipartParser.PartsRoundTrip | volo-http/src/client/multipart.rs:212-237 | behind a delimiter the parts come back if and only if no data contains the delimiter |
| MultipartParser.FormRoundTrip | volo-http/src/client/multipart.rs:173-242 | that parser, splitting by section 5.1.1 of RFC 2046, gives back exactly the parts, in order, if and only if no part contains the delimiter |
| MultipartParser.GeneratedBoundaries | volo-http/src/client/multipart.rs:468-477 | generated boundaries are 51 digits, lower-case letters and dashes, and differ whenever counter or random value differ |
| ConfigModel.DetectIs | volo-build/src/util.rs:597-607 | Thrift if and only if the last component is a stem followed by `.thrift`, Protobuf likewise for `.proto`, refused otherwise |
| ConfigModel.ExtensionIs | volo-build/src/util.rs:597-607 | a path has an extension if and only if its last component is a non-empty stem, a dot and that extension |
| ConfigModel.RepoNameIs | volo-build/src/util.rs:191-197 | the name of a repository is what follows the last slash of its URL, with or without `.git` |
| ConfigModel.UrlMap | volo-build/src/util.rs:480-486 | the index maps every URL in use to a repository that has it, and nothing else |
| ConfigModel.CheckAndGetRepoName | volo-build/src/util.rs:467-584 | succeeds exactly for a new repository that can be looked up, which it describes, or for a known one, which it names |
| ConfigModel.NewRepoKeepsOk | volo-build/src/util.rs:467-584 | adding such a repository keeps URLs distinct and references resolved |
| ConfigModel.UpdateKeepsOk | volo-build/src/util.rs:283-304 | replacing one entry by a sound one with its own file name keeps the configuration sound |
| ConfigModel.Builds | volo-build/src/util.rs:392-450 | for every sound entry the lookup of a downloaded repository succeeds, and each service is built from its own directory with its own includes and options |
| ConfigCommands.FindIdl | volo-cli/src/idl/add.rs:124-136 | the first service with the path |
| ConfigCommands.AddToEntry | volo-cli/src/idl/add.rs:100-198 | on a sound entry it succeeds exactly on acceptable additions, keeps the entry sound and extends it by just what was asked |
| ConfigCommands.RepetitionAccepted | volo-cli/src/idl/add.rs:124-189 | repeating a git addition is accepted, and recorded twice, if and only if its path is absolute and no service had it before |
| ConfigCommands.EnsureReadable | volo-build/src/model.rs:129-144 | succeeds if and only if the source and every include can be read |
| ConfigCommands.NewEntry | volo-cli/src/idl/add.rs:200-231 | succeeds exactly on creatable additions, with a sound entry of that one service whose protocol is that of its file name |
| ConfigCommands.DetectStripped | volo-build/src/util.rs:586-607 | dropping the leading slash does not change the protocol of a path |
| ConfigCommands.InitEntry | volo-cli/src/init.rs:201-229 | succeeds exactly when file name, templates and lookup or files are there, with exactly the specified entry |
| ConfigCommands.UpdateRepos | volo-cli/src/repo/update.rs:28-53 | locks move to the latest commit exactly for the repositories asked for whose lookup succeeds; nothing else changes |
| ConfigCommands.VoloYml.RunInit | volo-cli/src/init.rs:198-231 | all or nothing, exact success condition, exact new file |
| ConfigCommands.VoloYml.RunIdlAdd | volo-cli/src/idl/add.rs:64-234 | all or nothing; the success condition does not depend on the order in which entries are visited; the invariant is kept |
| ConfigCommands.VoloYml.RunRepoAdd | volo-cli/src/repo/add.rs:31-62 | all or nothing, exact success condition, exact new file, invariant kept |
| ConfigCommands.VoloYml.RunRepoUpdate | volo-cli/src/repo/update.rs:13-56 | all or nothing, exact success condition, only locks change, invariant kept |
| ConfigCommands.RunAll | volo-cli/src/idl/add.rs:64-234 | after any sequence of commands, whatever the environment answers: every git service names a repository of its entry, URLs and file names are distinct, and a Thrift entry holds only `.thrift` files, a Protobuf entry only `.proto` files |
| ConfigCommands.TransferFromLegacy | volo-cli/src/migrate.rs:76-128 | succeeds exactly when every missing lock can be looked up; each name holds the last source of that name; references resolve; the services keep their URLs if and only if no two URLs share a name |
| ConfigCommands.KeptExactlyWithoutCollision | volo-cli/src/migrate.rs:102-109 | for any such filing, URLs are kept if and only if no two collide, and URLs are distinct |
| ConfigCommands.UrlCanBeLost | volo-cli/src/migrate.rs:102-109 | `a/x` and `b/x` share a repository name |
| Shutdown.StepKeepsInv | volo-grpc/src/server/mod.rs:354-449 | every step of accept loop, channel or connection task keeps the invariant |
| Shutdown.RunKeepsInv | volo-grpc/src/server/mod.rs:354-449 | the invariant holds after every run |
| Shutdown.NoAcceptAfter | volo-grpc/src/server/mod.rs:359-366 | once accepting is over no later step adds a connection |
| Shutdown.ShutdownIsGraceful | volo-grpc/src/server/mod.rs:354-449 | in every run after the signal: nothing is accepted, the server returns only when every connection has ended, and until then every running connection has been told to shut down or can be told at once |
| Shutdown.ClosingStepDecreases | volo-grpc/src/server/mod.rs:359-366 | every step after the signal uses up a bounded measure |
| Shutdown.ShutdownEnds | volo-grpc/src/server/mod.rs:359-366 | after the signal the length of every run is bounded, and until the server has returned some connection can end or the server can return |
| Shutdown.StopLeavesNoneExactly | volo-grpc/src/server/mod.rs:358-371 | in every run, at the step that stops the server, no connection is left running if and only if the signal branch returns or none was running |
| Shutdown.ExhaustedDoesNotWait | volo-grpc/src/server/mod.rs:367-371 | an exhausted listener or an accept error can return with connections still running |
| Slots.FetchKeepsInv | benchmark/src/runner/counter.rs:39-41 | claiming an index keeps the invariant |
| Slots.RecordKeepsInv | benchmark/src/runner/counter.rs:30-37 | recording stays within the vector and keeps the invariant |
| Slots.StepKeepsInv | benchmark/src/runner/mod.rs:52-69 | every step keeps the invariant and takes one off the steps left |
| Slots.RunInv | benchmark/src/runner/mod.rs:46-71 | every state of every interleaving satisfies the invariant |
| Slots.SafeAtAllTimes | benchmark/src/runner/mod.rs:46-71 | in every interleaving, at every moment: no write leaves the vector, no two workers hold the same index, no slot is written twice, and the counter exceeds the total by at most the number of workers |
| Slots.RecordedStays | benchmark/src/runner/counter.rs:30-37 | a recorded cost is never overwritten |
| Slots.RecordsKept | benchmark/src/runner/mod.rs:46-71 | at every moment of every interleaving the failure counter is exact and every recorded cost stands in the slot its worker had claimed |
| Slots.RunCompletes | benchmark/src/runner/mod.rs:46-71 | a run that cannot go on has written every slot exactly once, in exactly 2 * total + concurrent steps, and leaves the counter at total + concurrent |
| Timeout.ParseIsExact | volo-grpc/src/layer/grpc_timeout.rs:58-87 | for every digit string and every last byte: value times 3600 s, 60 s, 1 s, 1 ms, 1 us or 1 ns for H, M, S, m, u and n, except that hours above U64_MAX / 3600 and minutes above U64_MAX / 60 panic or, without overflow checks, come out too short; everything else is malformed |
| Timeout.ProtocolValuesFit | volo-grpc/src/layer/grpc_timeout.rs:58-87 | the one to eight digits the protocol allows never overflow |
| Timeout.AppliedIsLeast | volo-grpc/src/layer/grpc_timeout.rs:103-114 | the timeout applied is the lesser of client and server, none if and only if neither gives one, and a panic if and only if the parser panics |

## Left out

- Decoder.RecvStream.PollNext: transport errors arrive as the status they convert to, and the display text of an HTTP status is a parameter; neither conversion is modelled.
- SseStream.EventWriter.SetData: the writer's assertions on repeated fields and line ends are preconditions, as the source panics otherwise.
- SseStream.EventWriter.SetJson: the serialised text is given and holds no line end; an error of the serialiser, which drops the event, is not modelled.
- Slots.RunCompletes: the percentiles computed from the costs are not modelled, and the counter is unbounded.
- ConfigCommands.VoloYml.RunInit: the templates, YAML, partial writes and failures of the file system are not modelled.
- ConfigCommands.TransferFromLegacy: one entry's sources only; backup and renaming of files are not modelled.
- ConfigModel.Builds: the crate name and the free-form configuration of a service play no part in it; paths that only generate types are not collected.
- Code generation for Thrift and Protobuf, and the message codecs themselves.
- The internals of gzip, zlib, zstd, hyper, h2, tokio and TLS; builds without the compression features.
- Polling, wakers and back-pressure: a poll is modelled as returning when it is ready.
- `Body::end_stream`, the content type check of `into_sse`, keep-alive comments and the getters of events.
- Order of names within a header map, and the map interface of the metadata beyond what a status needs.
- Reading of parts of a form other than by the reference parser; MIME types with a line end, which the source's type excludes.
- Request routing, load balancing, service discovery and connection pools.
- The Thrift client and server.
