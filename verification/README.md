# micro-http in Dafny

This project models the core of micro-http, an asynchronous HTTP/1.1 server
library in Rust, and proves properties of that model. The model covers:

- the **http crate's codec**:
  - the request decoder: the header decoder with its body-framing rules, then a payload decoder that is fixed-length, chunked or empty;
  - the response encoder: the header encoder, then a fixed-length or chunked payload encoder;
- the **request body**: the body channel between the connection and the handler, and `ReqBody`;
- the **connection loop**: one request, one handler call, one response, error answers;
- the **web crate**: filters, handler wrappers, the router, response bodies, responders, extractors, the server's routing, response compression and server-sent events;
- the **first-generation server**: its query-string parser and header-block parser.

Everything is written with immutable datatypes and pure functions.

- A decoder is a function from a state and a buffer to an `Outcome`: the item it produced, the next state, and the unread bytes.
- An encoder is a function from a state and an item to the bytes it writes.
- The module `FramedRead` states what the codec framework expects of a decoder. It proves that the items a lawful decoder yields do not depend on how the input is split into reads, which `ChunkedDecoder` and `LengthDecoder` inherit.
- Unsigned 64-bit quantities are `nat`s bounded by `U64_MAX`. The source's overflow checks are written out.

Several operations depend on code outside this model. Each one becomes a parameter:

- The request-line and header tokeniser (`httparse`) becomes the tokeniser's verdict, `Tokenised`. A soundness predicate says the head it reports ends inside the buffer.
- `LengthEncoder::is_finish` becomes `lengthDone`.
- `ResponseBody::is_empty` becomes `isEmpty`.
- The compressors become `compress`.
- The reason phrase of a status code becomes `reason`.
- A handler is a function from a request head to a response.

Where RFC 9112 (HTTP/1.1 message syntax) and the code disagree, the model follows the code:

- A request carrying both `Transfer-Encoding` and `Content-Length` is refused with `InvalidContentLength` (crates/http/src/codec/header/header_decoder.rs:247). It is not framed by `Transfer-Encoding`.
- A `Transfer-Encoding` whose last coding is not `chunked`, compared byte for byte, gives a body of length zero. `Chunked` is not `chunked` here (see Findings).
- There is no keep-alive or `Connection: close` negotiation, and no read-until-close framing.

Two source layout notes:

- src/protocol/header.rs is not declared in src/protocol/mod.rs. Its error `InvalidRequest` is the one of src/request/error.rs.
- `Texts.Lines` follows Rust's `str::lines`: lines end at LF, one CR before the LF is dropped, and a final LF does not start an empty line.

## Model

| member | source | states |
|---|---|---|
| `Messages.PayloadItem.AsBytes` | crates/http/src/protocol/message.rs:109-134 | a payload item has bytes exactly when it is a chunk, and they are the chunk's data |
| `Messages.Message.IntoPayloadItem` | crates/http/src/protocol/message.rs:73-78 | a message yields a payload item exactly when it is a payload, and it is that item |
| `Messages.FromBytes` | crates/http/src/protocol/message.rs:85-89 | bytes sent as a message come back as one chunk holding those bytes |
| `HeaderMaps.Append` | crates/http/src/codec/header/header_decoder.rs:142 | appending adds the value after the name's earlier values and changes no other name |
| `HeaderMaps.Insert` | crates/web/src/responder/sse.rs:94-96 | inserting leaves exactly the one new value under the name and changes no other name |
| `HeaderMaps.Remove` | crates/web/src/encoding/encoder.rs:338 | removing leaves no value under the name and changes no other name; an absent name leaves the map as it was, and a present one costs exactly one entry |
| `HeaderMaps.RemoveIter` | crates/web/src/encoding/encoder.rs:338 | after a removal, iteration yields the entries before the removed name, then the last name's values in its place, then the rest, as `swap_remove` leaves the entries |
| `HeaderMaps.RemoveMovesLastEntry` | crates/web/src/encoding/encoder.rs:338-339 | with three names, removing the first and appending a fourth iterates as third, second, fourth: compression writes `content-length, content-type, x-a` back as `x-a, content-type, content-encoding` |
| `HeaderMaps.Get` | crates/http/src/codec/header/header_decoder.rs:224-225 | a lookup is absent exactly when the name has no values, and is otherwise the first value |
| `HeaderMaps.AppendLen` | crates/http/src/codec/header/header_decoder.rs:142 | every append adds one to the number of (name, value) pairs |
| `HeaderMaps.GetAll` | crates/http/src/codec/header/header_decoder.rs:224-225 | a name has values exactly when it is a key of a well-formed map; `Append`, `Insert`, `SetFirst` and `Remove` state how each update changes them |
| `HeaderMaps.ContainsKey` | crates/http/src/codec/header/header_decoder.rs:224-227 | whether the name is present; `GetAll` ties it to the name's values |
| `HeaderMaps.SetFirst` | crates/http/src/codec/header/header_encoder.rs:74-92 | overwriting the first value keeps the map well formed, keeps the name's later values and changes no other name |
| `HeaderMaps.Iter` | crates/http/src/codec/header/header_encoder.rs:96 | every (name, value) pair in order; `IterHoldsValues` and `AppendNewIter` state what it yields |
| `HeaderMaps.IterHoldsValues` | crates/http/src/codec/header/header_encoder.rs:96 | iteration yields a (name, value) pair exactly when the value is one of the name's values |
| `Requests.MethodFromToken` | crates/http/src/protocol/request.rs:109 | the method parsed from a token prints back as that token, and an extension method keeps it |
| `Requests.MethodTokenRoundTrip` | crates/http/src/protocol/request.rs:109 | printing a method and parsing the text gives back the method |
| `Requests.MethodName` | crates/http/src/protocol/request.rs:109 | the text of a method; `MethodTokenRoundTrip` and `MethodFromToken` make it the inverse of parsing |
| `Requests.NeedBody` | crates/http/src/protocol/request.rs:77-79 | every method except GET, HEAD, DELETE, OPTIONS and CONNECT; `HeaderDecoder.ParsePayload` gives the others no body |
| `Requests.VersionFromMinor` | crates/http/src/protocol/request.rs:125-133 | minor version 1 is HTTP/1.1, 0 is HTTP/1.0, and every other minor is HTTP/0.9 |
| `Requests.HeadersFrom` | crates/http/src/protocol/request.rs:113-116 | the tokeniser's fields always make a well-formed header map |
| `Requests.HeadersFromLen` | crates/http/src/protocol/request.rs:113-116 | the map holds one pair per field; repeated names are all kept |
| `Requests.HeadersFromValues` | crates/http/src/protocol/request.rs:113-116 | a name's values are those of the fields carrying it, in field order |
| `Requests.FromParsed` | crates/http/src/protocol/request.rs:106-119 | the head's method prints as the token, its URI is the path, its version follows the minor, and its headers are the fields |
| `HeaderDecoder.Decode` | crates/http/src/codec/header/header_decoder.rs:81-157 | fewer than 14 bytes asks for more and leaves the buffer; a partial head asks for more up to 8192 bytes and is `TooLargeHeader` beyond; a complete head longer than 8192 bytes is `TooLargeHeader`; more than 64 fields is `TooManyHeaders`; a malformed head is `InvalidHeader`; a decoded head is HTTP/1.0 or 1.1, consumes exactly its bytes, and comes with the framing `parse_payload` gives it |
| `HeaderDecoder.ParsePayload` | crates/http/src/codec/header/header_decoder.rs:218-249 | a method without a body has none; `Transfer-Encoding` with `Content-Length` is `InvalidContentLength`; the body is chunked exactly when the method needs a body, there is no `Content-Length`, and the last coding of `Transfer-Encoding` is `chunked` byte for byte; a length only from a `Content-Length` that trims to a `u64`; every error is `InvalidContentLength` |
| `HeaderDecoder.ParsePayloadIgnoringCase` | crates/http/src/codec/header/header_decoder.rs:218-270 | the corrected framing: chunked exactly when the last coding names `chunked` in any case; every other answer is that of `parse_payload` |
| `HeaderDecoder.CapitalisedRequestHasNoBody` | crates/http/src/codec/header/header_decoder.rs:226-234 | a body-carrying request framed by `Transfer-Encoding: Chunked` is taken as bodiless as written, and as chunked by the corrected framing |
| `HeaderDecoder.ParseU64` | crates/http/src/codec/header/header_decoder.rs:239-244 | a parsed length is at most `u64::MAX` and is the decimal value of the digits after an optional `+` |
| `HeaderDecoder.ParsePaddedDecimal` | crates/http/src/codec/header/header_decoder.rs:239-244 | any `u64` written in decimal, with surrounding whitespace or a leading `+`, parses back to itself |
| `HeaderDecoder.ParseRefuses` | crates/http/src/codec/header/header_decoder.rs:239-244 | an empty value, a lone `+` and any value starting with `-` are refused |
| `HeaderDecoder.LastPieceShape` | crates/http/src/codec/header/header_decoder.rs:265 | the last piece of a value is the comma-free suffix after its last comma, or the whole value |
| `HeaderDecoder.LastPiece` | crates/http/src/codec/header/header_decoder.rs:265 | what `rsplit(',').next()` yields; its shape is stated by `LastPieceShape` |
| `HeaderDecoder.IsChunkedAsWritten` | crates/http/src/codec/header/header_decoder.rs:262-270 | `is_chunked` as written; `LastPieceDecides`, `ChunkedLast`, `ChunkedNotLast` and `CapitalisedChunkedAsWritten` state what it accepts |
| `HeaderDecoder.IsChunked` | crates/http/src/codec/header/header_decoder.rs:262-270 | the case-insensitive test of the corrected framing; `CapitalisedChunkedAsWritten` relates it to the as-written one |
| `HeaderDecoder.LastCodingDecides` | crates/http/src/codec/header/header_decoder.rs:262-270 | in a list of codings, chunked framing depends only on the last one, up to surrounding whitespace |
| `HeaderDecoder.OnlyCodingDecides` | crates/http/src/codec/header/header_decoder.rs:262-270 | a single coding, trimmed, decides chunked framing |
| `HeaderDecoder.LastPieceDecides` | crates/http/src/codec/header/header_decoder.rs:262-270 | for any value, chunked framing is decided by its last piece, trimmed |
| `HeaderDecoder.ChunkedLast` | crates/http/src/codec/header/header_decoder.rs:279-307 | `…, chunked` is chunked, under both tests, whatever precedes it |
| `HeaderDecoder.ChunkedNotLast` | crates/http/src/codec/header/header_decoder.rs:279-307 | `chunked, gzip` and a lone other coding are not chunked under the as-written test |
| `HeaderDecoder.CapitalisedChunkedAsWritten` | crates/http/src/codec/header/header_decoder.rs:262-270 | the case-sensitive comparison refuses `Chunked`, which the case-insensitive one accepts; everything the former accepts the latter accepts |
| `HeaderEncoder.Overwrite` | crates/http/src/codec/header/header_encoder.rs:74-92 | setting a framing header makes its first value the new one and changes no other name |
| `HeaderEncoder.Framed` | crates/http/src/codec/header/header_encoder.rs:74-92 | a length sets `Content-Length` to its decimal form, an empty body sets it to `0`, chunked sets `Transfer-Encoding: chunked`, and nothing else changes |
| `HeaderEncoder.Encode` | crates/http/src/codec/header/header_encoder.rs:53-102 | a version other than HTTP/1.1 is refused as unsupported, and only then; otherwise the head starts with the status line `HTTP/1.1 <code> <reason>` |
| `HeaderEncoder.HeadEndsWithEmptyLine` | crates/http/src/codec/header/header_encoder.rs:96-102 | an encoded head ends with an empty line |
| `HeaderEncoder.FieldLineAt` | crates/http/src/codec/header/header_encoder.rs:96-101 | the i-th field line sits where the lines before it end, and is `name: value` CRLF |
| `HeaderEncoder.FieldLinesLength` | crates/http/src/codec/header/header_encoder.rs:96-101 | the field lines take exactly the room of each line in turn |
| `HeaderEncoder.HeadLayout` | crates/http/src/codec/header/header_encoder.rs:53-102 | an encoded head is the status line, the field lines one after another, and the empty line, with nothing else |
| `HeaderEncoder.HeadFieldLine` | crates/http/src/codec/header/header_encoder.rs:96-101 | every (name, value) pair of the framed header map appears, in iteration order, as `name: value` CRLF at its place after the status line |
| `HeaderEncoder.FramingReadBack` | crates/http/src/codec/header/header_encoder.rs:74-92 | the framing headers the encoder writes are read back by `parse_payload` as the same framing, an empty body as length zero |
| `HeaderEncoder.DecimalReadBack` | crates/http/src/codec/header/header_encoder.rs:74-78 | a written length is visible ASCII and parses back to itself |
| `HeaderEncoder.ChunkedReadBack` | crates/http/src/codec/header/header_encoder.rs:80-85 | the written `chunked` is recognised as chunked by the as-written test |
| `LengthEncoder.New` | crates/http/src/codec/body/length_encoder.rs:14 | a new encoder owes exactly the declared length |
| `LengthEncoder.EncodeAsWritten` | crates/http/src/codec/body/length_encoder.rs:22-38 | with nothing owed, at end of body or for an empty chunk nothing is written; otherwise the whole chunk is written and the `u64` count drops by its size, wrapping when the chunk is longer; for a chunk that fits it agrees with the corrected `Encode` |
| `LengthEncoder.Encode` | crates/http/src/codec/body/length_encoder.rs:22-38 | bytes written plus bytes still owed equal bytes owed before; what is written is a prefix of the chunk, all of it when it fits |
| `LengthEncoder.NeverBeyondLength` | crates/http/src/codec/body/length_encoder.rs:22-38 | over any item sequence, bytes written plus bytes still owed equal the declared length |
| `ChunkedEncoder.New` | crates/http/src/codec/body/chunked_encoder.rs:33 | a new encoder has not finished |
| `ChunkedEncoder.EncodeAsWritten` | crates/http/src/codec/body/chunked_encoder.rs:62-84 | after the end nothing is written; end of body writes the last chunk and finishes; every chunk, even an empty one, is framed with its size, so an empty chunk writes the last chunk without finishing; for any item but the empty chunk it agrees with the corrected `Encode` |
| `ChunkedEncoder.Encode` | crates/http/src/codec/body/chunked_encoder.rs:62-84 | as above, except that an empty chunk writes nothing |
| `ChunkedEncoder.NothingAfterFinish` | crates/http/src/codec/body/chunked_encoder.rs:63-65 | once finished, no sequence of items writes anything |
| `PayloadEncoder.Empty` | crates/http/src/codec/body/payload_encoder.rs:43-45 | the no-body encoder is finished from the start |
| `PayloadEncoder.Chunked` | crates/http/src/codec/body/payload_encoder.rs:48-50 | a new chunked encoder is not finished |
| `PayloadEncoder.FixLength` | crates/http/src/codec/body/payload_encoder.rs:56-59 | a fixed-length encoder owes the size and is finished exactly when its length encoder is |
| `PayloadEncoder.Encode` | crates/http/src/codec/body/payload_encoder.rs:116-122 | the no-body encoder writes nothing; the others delegate to their inner encoder as written and keep their kind |
| `PayloadEncoder.FinishIsFinal` | crates/http/src/codec/body/payload_encoder.rs:92-98 | a finished no-body or chunked encoder writes nothing more |
| `PayloadEncoder.ExhaustedIsFinal` | crates/http/src/codec/body/payload_encoder.rs:92-98 | a fixed-length encoder that owes nothing writes nothing more |
| `PayloadEncoder.EofFinishesChunked` | crates/http/src/codec/body/payload_encoder.rs:92-98 | end of body finishes a chunked encoder |
| `PayloadEncoder.EncodeAll` | crates/http/src/codec/body/payload_encoder.rs:116-122 | items encoded one after another write the concatenation of what each writes |
| `ResponseEncoder.New` | crates/http/src/codec/response_encoder.rs:47-55 | a new encoder expects a head |
| `ResponseEncoder.ForSize` | crates/http/src/codec/response_encoder.rs:122-128 | the payload encoder has the framing's kind, owes a length's size, and a chunked one has not finished |
| `ResponseEncoder.Encode` | crates/http/src/codec/response_encoder.rs:72-110 | a head while a body is being written, or a payload item with no body open, is `InvalidInput`; a head installs the payload encoder for its framing and writes the encoded head; a body item writes what the payload encoder writes, and the body closes exactly when that encoder finishes |
| `ResponseEncoder.ChunkedBodySent` | crates/http/src/codec/response_encoder.rs:88-107 | a chunked body sent item by item writes every chunk's frame as written and the last chunk, and leaves the encoder ready for the next head |
| `ResponseEncoder.ChunkedResponse` | crates/http/src/codec/response_encoder.rs:72-110 | a chunked response is written as its head, every chunk's frame as written and the last chunk; without empty chunks these are the corrected frames |
| `ResponseEncoder.EmptyResponse` | crates/http/src/codec/response_encoder.rs:98-107 | after a head without a body, end of body closes it and writes nothing; a second head before that is refused |
| `ResponseEncoder.LengthResponseBlocks` | crates/http/src/codec/response_encoder.rs:98-107 | with the source's finish test unknown, a fixed-length body followed by end of body and a next head can be refused as `InvalidInput` |
| `ResponseEncoder.AfterBodyBlocks` | crates/http/src/codec/body/payload_encoder.rs:92-98 | when the finish test closes a fixed-length body, a following end-of-body item is refused; when it does not, the next head is refused |
| `ResponseEncoder.UnsupportedHeadBlocksNext` | crates/http/src/codec/response_encoder.rs:82-85 | a head of an unsupported version is refused, yet the encoder keeps the body open, so the next head is refused too |
| `ResponseEncoder.Payloads` | crates/http/src/codec/response_encoder.rs:88-107 | the body items become payload messages one for one |
| `FramedRead.DecodeAll` | crates/http/src/connection/http_connection.rs:48-60 | draining a buffer leaves a suffix of it; a drain that wants more leaves nothing; a finished one ends with end of body |
| `FramedRead.DecodeAllAppend` | crates/http/src/connection/http_connection.rs:48-60 | for a lawful decoder that wants more after one buffer, draining that buffer followed by more bytes gives the same data as draining them in two reads |
| `FramedRead.DecodeAllAppendStopped` | crates/http/src/connection/http_connection.rs:48-60 | a drain that has stopped is unaffected by later bytes, which are left unread |
| `FramedRead.FeedMatchesWhole` | crates/http/src/connection/http_connection.rs:48-60 | feeding a lawful decoder its input in any pieces yields the same data, stop reason and leftover as feeding it all at once |
| `FramedRead.NeedMoreAgain` | crates/http/src/connection/http_connection.rs:48-60 | a decoder that stopped for more data asks for more again when given nothing |
| `ChunkedDecoder.New` | crates/http/src/codec/body/chunked_decoder.rs:36 | a new decoder expects a chunk size and owes nothing |
| `ChunkedDecoder.BodyTake` | crates/http/src/codec/body/chunked_decoder.rs:313-328 | a body read takes as much of the chunk as the buffer holds and never more than the chunk |
| `ChunkedDecoder.Run` | crates/http/src/codec/body/chunked_decoder.rs:80-105 | the decode loop driving `step` stops only at chunk data, at the end, at an exhausted buffer (all of it read, not ended) or at a refused byte; chunk data is non-empty and strictly shortens the buffer |
| `ChunkedDecoder.Decode` | crates/http/src/codec/body/chunked_decoder.rs:80-105 | after the end it yields end of body and reads nothing; an empty buffer asks for more; what it leaves unread is the end of its input; end of body leaves it ended; a chunk is non-empty and consumes input |
| `ChunkedDecoder.DecodeKeepsWellFormed` | crates/http/src/codec/body/chunked_decoder.rs:324-359 | decoding keeps the chunk count consistent with the state |
| `ChunkedDecoder.DecodeAppend` | crates/http/src/codec/body/chunked_decoder.rs:80-105 | decoding a buffer with more bytes appended agrees with decoding the buffer: the same answer when it was complete, the continuation when it wanted more, a longer chunk when the chunk ran to the buffer's end |
| `ChunkedDecoder.DecodeIsLawful` | crates/http/src/codec/body/chunked_decoder.rs:80-105 | the chunked decoder obeys the framed-read laws |
| `ChunkedDecoder.ChunkComesFromInput` | crates/http/src/codec/body/chunked_decoder.rs:313-328 | a decoded chunk is the input bytes just before what is left unread |
| `ChunkedDecoder.SizeDigits` | crates/http/src/codec/body/chunked_decoder.rs:180-194 | hex digits, in either case, accumulate into the size while it fits in a `u64`, and decoding goes on after them with that size |
| `ChunkedDecoder.SizeOverflowRejected` | crates/http/src/codec/body/chunked_decoder.rs:180-194 | a size beyond `u64::MAX` is `ChunkSizeOverflow` |
| `ChunkedDecoder.SizeLineRejects` | crates/http/src/codec/body/chunked_decoder.rs:199-230 | an unexpected byte in the size, or after its whitespace, is refused with the error for that position |
| `ChunkedDecoder.ExtensionSkipped` | crates/http/src/codec/body/chunked_decoder.rs:246-259 | a chunk extension's bytes are skipped |
| `ChunkedDecoder.ExtensionRejectsBareLf` | crates/http/src/codec/body/chunked_decoder.rs:253-259 | a bare LF in a chunk extension is refused |
| `ChunkedDecoder.DataMustEndWithCrlf` | crates/http/src/codec/body/chunked_decoder.rs:339-352 | chunk data not followed by CR is refused and that byte consumed |
| `ChunkedDecoder.NextChunkAfterCrlf` | crates/http/src/codec/body/chunked_decoder.rs:339-359 | the CRLF after chunk data leads to the next size line |
| `ChunkedDecoder.SizeLineEnds` | crates/http/src/codec/body/chunked_decoder.rs:272-280 | a size line's CRLF starts the data, or the trailer when the size is zero |
| `ChunkedDecoder.TrailerLineSkipped` | crates/http/src/codec/body/chunked_decoder.rs:369-418 | a trailer field line is skipped |
| `ChunkedDecoder.FinalCrlfEnds` | crates/http/src/codec/body/chunked_decoder.rs:369-418 | the empty line after the last chunk ends the body and reads no further |
| `ChunkedDecoder.BodyEmitsBuffered` | crates/http/src/codec/body/chunked_decoder.rs:313-328 | inside chunk data, the buffered part of the chunk comes out at once and the count of bytes owed drops by its size |
| `ChunkedCoding.EncodeBody` | crates/http/src/codec/body/chunked_encoder.rs:68-84 | a body sent through a fresh chunked encoder is its frames followed by the last chunk |
| `ChunkedCoding.RoundTrip` | crates/http/src/codec/body/chunked_decoder.rs:165-208 | whatever follows on the wire, decoding an encoded body yields its non-empty chunks, then end of body, and leaves what follows unread |
| `ChunkedCoding.RoundTripInPieces` | crates/http/src/codec/body/chunked_decoder.rs:80-105 | the round trip holds however the wire bytes are split into reads |
| `ChunkedCoding.EmptyChunkEndsBodyAsWritten` | crates/http/src/codec/body/chunked_encoder.rs:70-76 | as written, an empty chunk is framed as the last chunk, so a peer ends the body there while the encoder goes on |
| `ChunkedCoding.WireAgrees` | crates/http/src/codec/body/chunked_encoder.rs:68-84 | without empty chunks, the as-written frames are the corrected encoder's |
| `ChunkedCoding.RoundTripAsWritten` | crates/http/src/codec/body/chunked_decoder.rs:80-105 | what the as-written encoder writes for chunks without an empty one, then the last chunk, decodes back to those chunks and end of body, leaving what follows |
| `LengthDecoder.New` | crates/http/src/codec/body/length_decoder.rs:28 | a new decoder owes the declared length |
| `LengthDecoder.Decode` | crates/http/src/codec/body/length_decoder.rs:51-66 | nothing owed yields end of body; an empty buffer asks for more; otherwise the chunk is the buffered prefix up to the amount owed, and the count drops by its size |
| `LengthDecoder.DecodeIsLawful` | crates/http/src/codec/body/length_decoder.rs:51-66 | the fixed-length decoder obeys the framed-read laws |
| `LengthDecoder.DrainBody` | crates/http/src/codec/body/length_decoder.rs:73-89 | a body of the declared length comes out whole, then end of body, and what follows is left |
| `LengthDecoder.NeverPastBody` | crates/http/src/codec/body/length_decoder.rs:61-65 | the decoder never reads past the declared length |
| `LengthCoding.EncodeExact` | crates/http/src/codec/body/length_encoder.rs:22-38 | chunks adding up to the declared length are written unchanged, and nothing is owed afterwards |
| `LengthCoding.RoundTrip` | crates/http/src/codec/body/length_decoder.rs:51-66 | what the fixed-length encoder writes, the fixed-length decoder reads back, leaving what follows |
| `LengthCoding.RoundTripInPieces` | crates/http/src/codec/body/length_decoder.rs:51-66 | the round trip holds however the wire bytes are split into reads |
| `LengthCoding.OverrunAsWritten` | crates/http/src/codec/body/length_encoder.rs:33-35 | as written, a chunk longer than the declared length is written whole and the count wraps, so the peer takes the surplus as the start of the next message |
| `LengthCoding.ReadOneOfTwo` | crates/http/src/codec/body/length_decoder.rs:61-65 | with one byte owed, two buffered bytes give one byte of body and leave the other |
| `PayloadDecoder.Empty` | crates/http/src/codec/body/payload_decoder.rs:44-46 | the no-body decoder is of that kind alone |
| `PayloadDecoder.Chunked` | crates/http/src/codec/body/payload_decoder.rs:49-51 | the chunked decoder is of that kind alone |
| `PayloadDecoder.FixLength` | crates/http/src/codec/body/payload_decoder.rs:57-60 | the fixed-length decoder is of that kind alone |
| `PayloadDecoder.FromSize` | crates/http/src/codec/body/payload_decoder.rs:43-60 | each framing gets the decoder of its kind, a length decoder owing the size, a fresh chunked decoder |
| `PayloadDecoder.Decode` | crates/http/src/codec/body/payload_decoder.rs:108-114 | the no-body decoder yields end of body at once without reading; the others delegate and keep their kind |
| `PayloadDecoder.DecodeIsLawful` | crates/http/src/codec/body/payload_decoder.rs:108-114 | the payload decoder obeys the framed-read laws |
| `PayloadDecoder.NoBodyReadsNothing` | crates/http/src/codec/body/payload_decoder.rs:112 | without a body, draining yields only end of body and leaves the whole buffer |
| `PayloadDecoder.DrainLength` | crates/http/src/codec/body/payload_decoder.rs:108-114 | draining through the payload decoder of a length body gives what the length decoder gives |
| `PayloadDecoder.DrainChunked` | crates/http/src/codec/body/payload_decoder.rs:108-114 | draining through the payload decoder of a chunked body gives what the chunked decoder gives |
| `PayloadCoding.NoBodyWritesNothing` | crates/http/src/codec/body/payload_encoder.rs:116-122 | the no-body encoder writes nothing whatever it is given |
| `PayloadCoding.LengthBodyWritten` | crates/http/src/codec/body/length_encoder.rs:22-38 | chunks adding up to the declared length, then end of body, are written unchanged and leave nothing owed |
| `PayloadCoding.ChunkedBodyWritten` | crates/http/src/codec/body/chunked_encoder.rs:62-84 | chunks then end of body are written as every chunk's frame, then the last chunk, and finish the encoder |
| `PayloadCoding.RoundTrip` | crates/http/src/codec/body/payload_decoder.rs:43-114 | for every framing, what the payload encoder writes for a body the payload decoder for the same framing reads back as that body, ending it and leaving what follows; with no body nothing is written or read |
| `RequestDecoder.New` | crates/http/src/codec/request_decoder.rs:49 | a new decoder expects a head |
| `RequestDecoder.Decode` | crates/http/src/codec/request_decoder.rs:72-98 | while a body is read, only body items come out and end of body returns to reading heads; otherwise the header decoder decides, and a head installs its body decoder; asking for more never changes phase |
| `RequestDecoder.PipelinedRequests` | crates/http/src/codec/request_decoder.rs:77-81 | a head with a length body yields the head, then the body, then end of body, and the next request's bytes are left for the next head |
| `RequestDecoder.NoBodyYieldsEof` | crates/http/src/codec/request_decoder.rs:77-81 | a head without a body is followed at once by end of body, without reading |
| `SizeHints.Unknown` | crates/http/src/protocol/body/body_channel.rs:196-204 | the unknown hint has no exact size |
| `SizeHints.WithExact` | crates/http/src/protocol/body/body_channel.rs:196-204 | an exact hint has exactly that size |
| `SizeHints.Exact` | crates/http/src/protocol/body/body_channel.rs:186-194 | a hint is exact exactly when its upper bound equals its lower bound, which is then the size |
| `SizeHints.FromPayloadSize` | crates/http/src/protocol/body/req_body.rs:280-287 | a length gives that exact size, no body gives exactly zero, chunked gives no exact size |
| `SizeHints.ToPayloadSize` | crates/http/src/protocol/body/body_channel.rs:186-194 | exactly zero is no body, another exact size is that length, anything else is chunked |
| `SizeHints.PayloadSizeRoundTrip` | crates/http/src/protocol/body/body_channel.rs:186-204 | a framing survives a round trip through a size hint, except that length zero becomes no body |
| `SizeHints.SizeHintRoundTrip` | crates/http/src/protocol/body/body_channel.rs:186-204 | a hint's exact size survives a round trip through a framing |
| `ReqBody.New` | crates/http/src/protocol/body/req_body.rs:47-55 | no body or length zero gives the bodiless body; any other framing streams from the channel |
| `ReqBody.Hint` | crates/http/src/protocol/body/req_body.rs:280-287 | the size hint is exactly zero without a body, the length for a length body, and inexact for chunked |
| `ReqBody.PollFrame` | crates/http/src/protocol/body/req_body.rs:199-221 | after the end nothing is read; a data frame is the next chunk from the channel; end of body, an error or a closed channel end the stream; the body has ended exactly when no frame came out |
| `ReqBody.Finish` | crates/http/src/protocol/body/req_body.rs:233-258 | an ended body hands the stream back as it is; otherwise the rest of the body is drained |
| `ReqBody.Drain` | crates/http/src/protocol/body/req_body.rs:240-258 | draining skips body chunks up to end of body and leaves what follows; a closed channel is `InvalidBody` |
| `ReqBody.ReadToEnd` | crates/http/src/protocol/body/req_body.rs:199-221 | polling until no frame comes out leaves the body ended |
| `ReqBody.ReadWholeBody` | crates/http/src/protocol/body/req_body.rs:199-221 | reading a body to its end yields its chunks in order and leaves the next request's events |
| `ReqBody.PollingAfterEnd` | crates/http/src/protocol/body/req_body.rs:200-202 | polling an ended body any number of times reads nothing |
| `ReqBody.FinishAfterAnyReads` | crates/http/src/protocol/body/req_body.rs:233-258 | for a streamed body, however many frames the handler read, finishing it leaves exactly the next request's events |
| `ReqBody.NoBodyLeavesEofAsWritten` | crates/http/src/protocol/body/req_body.rs:47-60 | for a request with no body, `finish` leaves that body's `Eof` in front of the next request's events |
| `ReqBody.FinishDraining` | crates/http/src/protocol/body/req_body.rs:31-36 | the corrected `finish` drains a body that was never streamed as well, and is `finish` for a streamed one |
| `ReqBody.FinishFromNew` | crates/http/src/protocol/body/req_body.rs:47-60 | from any framing, however many frames the handler read, the corrected `finish` leaves exactly the next request's events |
| `ReqBody.DrainBody` | crates/http/src/protocol/body/req_body.rs:240-258 | draining an unread body leaves exactly the next request's events |
| `ReqBody.ErrorEndsWithoutDrain` | crates/http/src/protocol/body/req_body.rs:210-221 | a decode error ends the body, and finishing it drains nothing more |
| `BodyChannel.NewSender` | crates/http/src/protocol/body/body_channel.rs:36 | a new sender has not reached end of body |
| `BodyChannel.ReadData` | crates/http/src/protocol/body/body_channel.rs:83-96 | a body item is handed on; an error is passed on; anything else is an error; one event is consumed |
| `BodyChannel.SkipData` | crates/http/src/protocol/body/body_channel.rs:98-115 | skipping succeeds exactly when end of body is reached and consumes only a prefix |
| `BodyChannel.Start` | crates/http/src/protocol/body/body_channel.rs:44-81 | serving the receiver's requests consumes only a prefix of the events, and nothing once the body is over |
| `BodyChannel.StartLeavesNextRequest` | crates/http/src/protocol/body/body_channel.rs:44-81 | whatever the receiver asks for, it is handed the body's items in order and the stream is left at the next request |
| `BodyChannel.SkipBody` | crates/http/src/protocol/body/body_channel.rs:98-115 | skipping an unread body leaves the stream at the next request |
| `BodyChannel.Receive` | crates/http/src/protocol/body/body_channel.rs:140-176 | the receiver asks only when nothing is in flight, and an answer clears the request in flight |
| `BodyChannel.OneRequestInFlight` | crates/http/src/protocol/body/body_channel.rs:143-176 | requests sent equal answers taken plus the one still in flight |
| `BodyChannel.ReceiveAll` | crates/http/src/protocol/body/body_channel.rs:140-176 | one receiver polled once per input; `OneRequestInFlight` counts its requests and answers |
| `Connection.ErrorResponse` | crates/http/src/connection/http_connection.rs:224-226 | an error answer is the status with HTTP/1.1, no headers and an empty body of size zero |
| `Connection.SendFrames` | crates/http/src/connection/http_connection.rs:180-220 | sending body frames only adds output, and its errors are response errors |
| `Connection.Answer` | crates/http/src/connection/http_connection.rs:157-170 | a handler's response is sent as it is, and a failing handler is answered 500 |
| `Connection.Continue` | crates/http/src/connection/http_connection.rs:94-104 | `100 Continue` is written exactly when the request expects it |
| `Connection.SendResponseExtends` | crates/http/src/connection/http_connection.rs:173-220 | sending a response only adds output |
| `Connection.DataFrames` | crates/http/src/connection/http_connection.rs:180-220 | each chunk becomes one data frame |
| `Connection.ChunkFed` | crates/http/src/connection/http_connection.rs:199-208 | a data frame fed to a chunked body writes its chunk frame and keeps the body open |
| `Connection.LastChunkWritten` | crates/http/src/connection/http_connection.rs:210-216 | the end of a chunked body writes the last chunk and closes the body |
| `Connection.ChunkedFramesWritten` | crates/http/src/connection/http_connection.rs:180-220 | streamed data frames are written as every chunk's frame as written, then the last chunk |
| `Connection.StreamedResponseWritten` | crates/http/src/connection/http_connection.rs:173-220 | a response without an exact size is written as a chunked head, its frames as written and the last chunk; without empty frames these are the corrected frames |
| `Connection.ErrorResponseWritten` | crates/http/src/connection/http_connection.rs:224-226 | an error answer is written as a head with an empty body |
| `Connection.ExchangeThenNext` | crates/http/src/connection/http_connection.rs:87-155 | a request is answered and its body consumed, after which the next request is processed from where the body ended |
| `Connection.FailedHandlerAnswered500` | crates/http/src/connection/http_connection.rs:163-170 | a failing handler is answered 500 and the connection goes on with the next request |
| `Connection.ClientErrorAnswered400` | crates/http/src/connection/http_connection.rs:65-77 | a parse error, or a body item where a head was expected, is answered 400 and ends the connection with that error |
| `Filters.AnyMatches` | crates/web/src/router/filter.rs:131-145 | an any-of filter holds exactly when it is empty or one of its filters holds |
| `Filters.AllMatches` | crates/web/src/router/filter.rs:172-186 | an all-of filter holds exactly when each of its filters holds |
| `Filters.AndMatches` | crates/web/src/router/filter.rs:166-186 | a filter added to an all-of filter adds one more condition |
| `Filters.OrMatches` | crates/web/src/router/filter.rs:125-145 | an alternative added to an any-of filter widens it, and replaces the empty filter's "always" |
| `Filters.MethodFilterMatches` | crates/web/src/router/filter.rs:191-195 | a method filter holds exactly for that method |
| `Filters.HeaderFilterMatches` | crates/web/src/router/filter.rs:235-240 | a header filter holds exactly when the header's first value is the given value |
| `Filters.Matches` | crates/web/src/router/filter.rs:47-240 | the reference meaning of every filter, which `AnyMatches` and `AllMatches` are proved to compute |
| `Filters.Extend` | crates/web/src/router/filter.rs:125-170 | one more member after the others; `AndMatches` and `OrMatches` state what it does to matching |
| `HandlerWrappers.AndThen` | crates/web/src/wrapper/mod.rs:84-90 | chaining keeps the first wrapper and puts the new one after it |
| `HandlerWrappers.ApplyAllAppend` | crates/web/src/wrapper/mod.rs:66-73 | applying two lists of layers is applying the first, then the second |
| `HandlerWrappers.WrapAppliesLayersInOrder` | crates/web/src/wrapper/mod.rs:99-102 | a chain wraps a handler by its layers in the order they were added |
| `HandlerWrappers.AndThenWrapsLast` | crates/web/src/wrapper/mod.rs:84-90 | the default wrapper changes nothing, and a wrapper added last is outermost |
| `HandlerWrappers.ChainOrderExample` | crates/web/src/wrapper/mod.rs:156-166 | two prefixing wrappers answer `s2 s1 s0 Hello` |
| `HandlerWrappers.Wrap` | crates/web/src/wrapper/mod.rs:99-102 | a chain wraps with its head, then its tail; `WrapAppliesLayersInOrder` flattens any nesting to its layers in order |
| `HandlerWrappers.ApplyAll` | crates/web/src/wrapper/mod.rs:66-73 | layers applied first to last; `ApplyAllAppend` splits it over concatenation |
| `Routing.NewBuilder` | crates/web/src/router/mod.rs:52 | a new builder has no routes and no wrappers |
| `Routing.Route` | crates/web/src/router/mod.rs:132-136 | routing adds the item after the path's earlier items and leaves other paths and the wrappers alone |
| `Routing.WrapWith` | crates/web/src/router/mod.rs:141-151 | a wrapper's layers come after the builder's earlier ones, and routes are unchanged |
| `Routing.ForMethod` | crates/web/src/router/mod.rs:173-191 | a method's item holds the handler and accepts exactly requests of that method |
| `Routing.With` | crates/web/src/router/mod.rs:199-202 | an added filter narrows an item to requests that also pass it |
| `Routing.BuildItems` | crates/web/src/router/mod.rs:153-170 | each built item's filter is all of its filters and its handler is wrapped by the builder's wrappers |
| `Routing.Build` | crates/web/src/router/mod.rs:153-170 | the router has the builder's paths, each with its built items |
| `Routing.At` | crates/web/src/router/mod.rs:62-68 | a routed path gives its items, and any other path none |
| `Routing.RoutesAccumulate` | crates/web/src/router/mod.rs:241-249 | routing several items keeps, per path, the items in the order they were routed |
| `WebBodies.EmptyBody` | crates/web/src/body.rs:56 | the empty body has ended and has size zero |
| `WebBodies.OnceOf` | crates/web/src/body.rs:60 | a one-shot body has not ended and has the bytes' size |
| `WebBodies.FromString` | crates/web/src/body.rs:72-76 | an owned string is a one-shot body, even when empty |
| `WebBodies.FromUnit` | crates/web/src/body.rs:78-82 | the unit body is empty |
| `WebBodies.FromOption` | crates/web/src/body.rs:84-91 | no value is the empty body, a value is a one-shot body |
| `WebBodies.FromStr` | crates/web/src/body.rs:93-101 | an empty string is the empty body, another a one-shot body |
| `WebBodies.PollFrame` | crates/web/src/body.rs:107-118 | a one-shot body yields a frame exactly when it has not ended, and has ended afterwards |
| `WebBodies.AsRespBody` | crates/web/src/body.rs:127-134 | the body passed to the connection has the same hint and frames |
| `WebBodies.PollAllIsFrames` | crates/web/src/body.rs:107-118 | polling a body to its end yields its frames |
| `WebBodies.OnceYieldsOnce` | crates/web/src/body.rs:155-169 | a one-shot body yields its bytes once, then nothing |
| `WebBodies.TextBodyFraming` | crates/web/src/body.rs:93-101 | a text body is framed by its length, an empty string as no body, and carries its bytes as one frame |
| `WebBodies.Apply` | crates/web/src/body.rs:25-43 | the body can be taken once; later attempts get `InvalidBody` |
| `WebBodies.ApplyOnce` | crates/web/src/body.rs:25-43 | a second extractor that wants the body is refused |
| `WebBodies.IsEndStream` | crates/web/src/body.rs:119-125 | a one-shot body has ended once its bytes were taken; `PollFrame` and `OnceYieldsOnce` tie it to polling |
| `WebBodies.Hint` | crates/web/src/body.rs:127-134 | exact for a one-shot body; `TextBodyFraming` states the framing it gives a text body |
| `WebBodies.Frames` | crates/web/src/body.rs:107-118 | the frames a body yields; `PollAllIsFrames` proves polling yields exactly them |
| `Responders.Plain` | crates/web/src/responder.rs:83-87 | a body alone answers 200 with no headers |
| `Responders.Final` | crates/web/src/responder.rs:25-43 | resolving delegating responders always ends at one that does not delegate |
| `Responders.TextResponds` | crates/web/src/responder.rs:90-111 | text answers 200 with `text/plain; charset=utf-8` and the text's body; an owned string differs only when it is empty |
| `Responders.StatusPairsOverride` | crates/web/src/responder.rs:58-73 | a status paired with a responder replaces its status, whichever side it is on |
| `Responders.DelegationIsTransparent` | crates/web/src/responder.rs:76-80 | an option, result or box answers as what it holds, and 200 unless a status was set |
| `Responders.RespondTo` | crates/web/src/responder.rs:20-111 | `response_to` for each responder; `TextResponds`, `StatusPairsOverride` and `DelegationIsTransparent` state its answers |
| `Extract.Optional` | crates/web/src/extract/from_request.rs:80-93 | an optional argument never fails and is present exactly when the inner extractor succeeded |
| `Extract.Fallible` | crates/web/src/extract/from_request.rs:96-106 | a fallible argument never fails and carries the inner outcome |
| `Extract.UnitArg` | crates/web/src/extract/from_request.rs:110-117 | the unit argument never fails and takes nothing |
| `Extract.ErrorMessage` | crates/web/src/extract/from_request.rs:120-138 | every error has a non-empty message |
| `Extract.ErrorResponder` | crates/web/src/extract/from_request.rs:120-138 | a parse error answers a status with its message as text |
| `Extract.ErrorStatus` | crates/web/src/extract/from_request.rs:120-138 | a head too large answers 431, every other error 400, as plain text |
| `Extract.MessagesTellKindsApart` | crates/web/src/extract/from_request.rs:120-138 | errors of one kind answer alike, and errors of different kinds have different messages |
| `Servers.NewServerBuilder` | crates/web/src/server.rs:66 | a new builder has no router, handler or address |
| `Servers.NotFoundAnswers` | crates/web/src/server.rs:102-104 | the default handler answers 404 `Not Found` as plain text |
| `Servers.Build` | crates/web/src/server.rs:92-99 | a missing router is reported first, then a missing address; a built server has the builder's router and address, and the 404 handler when no default was set |
| `Servers.UriPath` | crates/web/src/server.rs:195-196 | the routed path is the part before the query or fragment, holds neither `?` nor `#`, and is `/` when that part is empty |
| `Servers.FragmentIgnored` | crates/web/src/server.rs:195-196 | a `#` fragment does not take part in routing |
| `Servers.QueryIgnored` | crates/web/src/server.rs:195-196 | the query does not take part in routing |
| `Servers.FirstMatch` | crates/web/src/server.rs:199-206 | the chosen item is the first whose filter holds, and none is chosen only when none holds |
| `Servers.ServerCallsFirstMatchingRoute` | crates/web/src/server.rs:189-211 | a request is answered by the first item routed at its path whose filters hold, wrapped by the builder's wrappers, or by the default handler |
| `Servers.UnroutedIsNotFound` | crates/web/src/server.rs:207 | without a default handler, a request nothing accepts is answered 404 |
| `Servers.Select` | crates/web/src/server.rs:199-207 | the first routed item whose filter holds, else the default handler |
| `Servers.Call` | crates/web/src/server.rs:189-211 | the selected handler answers; `ServerCallsFirstMatchingRoute` states which one |
| `Encoding.Name` | crates/web/src/encoding/encoder.rs:79-86 | every coding has a name |
| `Encoding.Select` | crates/web/src/encoding/encoder.rs:64-76 | zstd is chosen when accepted, else br, else gzip, else deflate, and the choice is always named in the header |
| `Encoding.SelectName` | crates/web/src/encoding/encoder.rs:64-86 | a header naming one coding selects it |
| `Encoding.Choose` | crates/web/src/encoding/encoder.rs:288-332 | a coding is chosen only for a status other than 204 and 101, a response not yet encoded, a body not empty and not known to be at most the threshold, and it is the one the request's `Accept-Encoding` selects |
| `Encoding.ChooseComplete` | crates/web/src/encoding/encoder.rs:288-332 | when all those conditions hold, the selected coding is chosen |
| `Encoding.Compress` | crates/web/src/encoding/encoder.rs:334-339 | compressing drops `Content-Length`, adds the coding to `Content-Encoding`, keeps the status and other headers, compresses the frames, and makes the size unknown |
| `Encoding.EncodeAsWritten` | crates/web/src/encoding/encoder.rs:288-339 | as written, the response keeps its status and a valid header map |
| `Encoding.Encode` | crates/web/src/encoding/encoder.rs:288-339 | a response that already has a `Content-Encoding` is left alone; the status is kept |
| `Encoding.EncodeOutcome` | crates/web/src/encoding/encoder.rs:288-339 | a response is either left alone or compressed with the selected coding, with only that coding named, no length, the frames compressed, and chunked framing |
| `Encoding.SkipRules` | crates/web/src/encoding/encoder.rs:289-292 | 204, 101, no `Accept-Encoding`, an empty body, or a body known to be small leave the response alone |
| `Encoding.AlreadyEncodedIsEncodedTwice` | crates/web/src/encoding/encoder.rs:294-297 | as written, a gzip response to a gzip-accepting request is compressed again and named twice; corrected, it is left alone |
| `ServerSentEvents.FromData` | crates/web/src/responder/sse.rs:77-79 | an event built from data is a message with that data and no id or name |
| `ServerSentEvents.EventFrame` | crates/web/src/responder/sse.rs:98-119 | the bytes of one event, ending with LF; `FrameIsFieldLines` and `OneEventPerFrame` state its layout |
| `ServerSentEvents.FrameIsFieldLines` | crates/web/src/responder/sse.rs:98-119 | an event is written as its field lines, each ended by LF, then an empty line |
| `ServerSentEvents.OneEventPerFrame` | crates/web/src/responder/sse.rs:98-119 | a frame holds exactly one event: it ends with an empty line and has no empty line before that |
| `ServerSentEvents.FieldLineShape` | crates/web/src/responder/sse.rs:98-119 | every field line is non-empty and holds no LF |
| `ServerSentEvents.StripPrefixes` | crates/web/src/responder/sse.rs:110-114 | removing a prefix length from each line keeps the line count and each long enough line's rest |
| `ServerSentEvents.ListenerRecoversData` | crates/web/src/responder/sse.rs:110-114 | a listener that joins the data lines with LF recovers the data, when it holds no CR and does not end in LF |
| `ServerSentEvents.UnprefixedLines` | crates/web/src/responder/sse.rs:110-114 | removing `data: ` from each data line gives back the lines |
| `ServerSentEvents.SseResponse` | crates/web/src/responder/sse.rs:90-96 | the response is 200 with `text/event-stream`, `no-cache` and `keep-alive`, one frame per event, streamed without a known size |
| `Queries.KeyValueSplits` | src/protocol/query.rs:31-35 | a piece splits at its first `=`, and a piece without one is a key with an empty value |
| `Queries.KeyValue` | src/protocol/query.rs:31-35 | a piece's key and value; `KeyValueSplits` states the split |
| `Queries.Step` | src/protocol/query.rs:37-48 | one piece added; `StepPrior` and `StepWellFormed` state its effect |
| `Queries.AddPieces` | src/protocol/query.rs:31-49 | every piece added in order; `AddPiecesCollects` states the result |
| `Queries.Push` | src/protocol/query.rs:37-48 | a key's first value is single, and each later value is appended |
| `Queries.Parse` | src/protocol/query.rs:24-52 | an empty query has no keys |
| `Queries.Get` | src/protocol/query.rs:14-16 | a lookup finds exactly the keys present |
| `Queries.AddPiecesWellFormed` | src/protocol/query.rs:37-48 | adding pieces keeps multi-valued keys at two values or more |
| `Queries.StepPrior` | src/protocol/query.rs:31-48 | one piece appends its value to its own key and leaves every other key as it was |
| `Queries.AddPiecesCollects` | src/protocol/query.rs:27-49 | adding pieces collects each key's values in order, and a key is present exactly when it has a value |
| `Queries.ParseCollects` | src/protocol/query.rs:65-81 | a key is present exactly when some piece names it, holds those pieces' values in order, and is single exactly when one piece names it |
| `Queries.PiecesRecovered` | src/protocol/query.rs:31 | splitting at `&` gives pieces without `&` that join back to the query |
| `HeaderBlocks.ParseLine` | src/protocol/header.rs:28-29 | a line fails exactly when it has no `:`; otherwise it splits at the first `:` into a trimmed name and value |
| `HeaderBlocks.Parse` | src/protocol/header.rs:17-33 | a blank block has no headers |
| `HeaderBlocks.Get` | src/protocol/header.rs:9-11 | a lookup finds exactly the names present |
| `HeaderBlocks.InsertLinesFails` | src/protocol/header.rs:28 | a block fails exactly when one of its lines is neither blank nor has a `:` |
| `HeaderBlocks.InsertLinesLookup` | src/protocol/header.rs:24-30 | a name takes the value of its last line |
| `HeaderBlocks.InsertLines` | src/protocol/header.rs:24-30 | every line added in order, blank lines skipped; `InsertLinesFails` and `InsertLinesLookup` state the outcome |
| `HeaderBlocks.ParseOutcome` | src/protocol/header.rs:40-55 | a block fails exactly when a line is malformed; otherwise each name maps to its last line's value, and a name on no line is absent |
| `HeaderBlocks.FirstColonSplits` | src/protocol/header.rs:28 | a line splits at its first `:`, so the value may hold more |

## Left out

- Asynchronous I/O, `FramedRead`/`FramedWrite` buffering and the 8 KiB read capacity. A connection is modelled as the sequence of events its decoder yields, and a writer as the bytes it holds.
- The `httparse` tokeniser. Its verdict is an input of `HeaderDecoder.Decode`, constrained only by soundness (a complete head ends inside the buffer).
- `HeaderDecoder.Decode`: the `InvalidVersion`, `InvalidMethod` and `InvalidUri` branches for a head the tokeniser reports without a version, method or path are modelled but not named in the contract.
- `HeaderDecoder.Decode`: every path the tokeniser reports is taken as a valid URI. The source hands it to `Request::builder().uri(..)`, whose parser is stricter than the tokeniser (a backtick in the path, for one), and then calls `headers_mut().unwrap()` and `body(()).unwrap()` (crates/http/src/codec/header/header_decoder.rs:127 and 146), which panic for a rejected URI and end the connection task without an answer. That panic is not modelled, because the `http` crate's URI grammar is not part of this model.
- `Requests.FromParsed`: the same `uri(..)` then `unwrap()` panic (crates/http/src/protocol/request.rs:113 and 119) is not modelled, for the same reason.
- `LengthEncoder::is_finish` is not part of this model. The fixed-length finish test is the parameter `lengthDone`.
- `LengthEncoder.EncodeAsWritten`: the count is an unbounded `nat`; an encoder owing more than `u64::MAX`, which the source's `u64` rules out, is not excluded by a precondition, and for it only the first and last clauses say anything.
- `ResponseEncoder.LengthResponseBlocks`: states only that some finish test leads to the refusal, because the source's test is not part of this model.
- The payload encoder's wrapping of `ResponseBody::is_empty`, `take` and `replace` in the web crate. Emptiness is the parameter `isEmpty`.
- Compression back ends and the `EncodedBody` poll loop. The compressor is the parameter `compress`, applied to the body's frames.
- `Encoding.EncodeAsWritten`: its contract states only validity and status; its behaviour on an already encoded response is stated by `Encoding.AlreadyEncodedIsEncodedTwice`.
- `Encoding.ChooseComplete`: requires the `Accept-Encoding` value to be visible ASCII, the case in which the source's `to_str` succeeds.
- The conversion from `PayloadSize` to `PayloadDecoder` is not part of this model. `PayloadDecoder.FromSize` picks the decoder of the same name.
- The `select!` between the handler and the body sender in the connection, and the channel between them. The handler reads the request head; the body is drained after it answers, as the sender does.
- `Connection.Process`, `Connection.Exchange` and `Connection.SendResponse` carry no contract of their own. Their behaviour is stated by the `Connection` lemmas.
- `HeaderEncoder.Encode`: requires a reason phrase for an HTTP/1.1 head. The source calls `canonical_reason().unwrap()` (crates/http/src/codec/header/header_encoder.rs:62), which panics for a status without a canonical reason; the panic is not modelled. `ResponseEncoder.Writable` and `Connection.Sendable` carry the same precondition up to the response encoder and the connection.
- `ReqBody::body_channel` and `skip_body` are not part of this model; they are modelled with the body channel's `skip_data`.
- `RequestHeader::body` (crates/http/src/protocol/request.rs:45-47), which only pairs a head with a body value.
- Date services, the date header and `Server::start`, which depend on the clock and the network.
- Router path patterns and parameters (`matchit`). A path is routed by exact match.
- The method-specific item constructors (`get`, `post`, …). They are the one function `Routing.ForMethod`.
- Changes of handler type across wrappers. A wrapper maps a handler to a handler of the same type.
- `Display` texts, `Debug` output and logging.
- Absolute-form and authority-form request targets. `Servers.UriPath` handles the origin form.
- The `Infallible` responder, which has no values.
- `http_version.rs`: versions are the three values the codec produces.
- The legacy header parser of src/protocol/header.rs is modelled as written, even though src/protocol/mod.rs does not compile it.

## Findings

| source | as written | input that shows it | evidently intended | confidence | as-written member | corrected member |
|---|---|---|---|---|---|---|
| crates/http/src/codec/body/chunked_encoder.rs:68-77 | an empty chunk is framed as `0\r\n\r\n`, which is the last chunk | a body sent as an empty chunk, then `Chunk([x])`, then end of body: the peer ends the body after the empty chunk and takes the rest as the next request | an empty chunk writes nothing, as the fixed-length encoder does | not executed | `ChunkedCoding.EmptyChunkEndsBodyAsWritten` | `ChunkedEncoder.Encode` |
| crates/http/src/codec/body/length_encoder.rs:33-35 | a chunk longer than the bytes still owed is written whole and the `u64` count wraps | a length-1 body sent as `Chunk([x, y])`: two bytes go out, the count wraps to `u64::MAX`, and the peer reads `y` as the next message | write only the bytes still owed | not executed | `LengthCoding.OverrunAsWritten` | `LengthEncoder.Encode` |
| crates/http/src/codec/header/header_decoder.rs:262-270 | the last coding is compared with `chunked` case-sensitively | `Transfer-Encoding: Chunked` is not chunked and the body is taken as empty | coding names compare case-insensitively (section 7 of RFC 9112) | not executed | `HeaderDecoder.CapitalisedChunkedAsWritten` | `HeaderDecoder.ParsePayloadIgnoringCase` |
| crates/http/src/protocol/body/req_body.rs:47-60 | a request with no body (no framing, or a length of 0) is never streamed, and `finish` hands the reader back without reading from it | a `GET` with no body: the request decoder still yields that body's `Eof` after the head, and `finish` leaves it in front of the next request's head | `finish` reads every body to its end, an empty one included, so the next read is the next head | not executed | `ReqBody.NoBodyLeavesEofAsWritten` | `ReqBody.FinishDraining` |
| crates/web/src/encoding/encoder.rs:294-297 | the "already encoded" test reads the request's `Content-Encoding` instead of the response's | a response with `Content-Encoding: gzip` to a request accepting gzip: it is compressed again and names gzip twice | leave a response that already has a `Content-Encoding` alone | not executed | `Encoding.AlreadyEncodedIsEncodedTwice` | `Encoding.Encode` |
