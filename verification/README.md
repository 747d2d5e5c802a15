# rpc2: stream framing, negotiation, client and proxy, verified

rpc2 is an RPC transport. A call is a header and a body on one byte stream; the stream may
be gob or JSON, plain or sealed with AES-GCM; the server finds out which by looking at the
first two bytes; the client keeps one connection and may fall back from JSON to gob; a proxy
routes generic calls to target services. This project models those parts and proves what
they keep over whole runs.

Verify it with `dafny verify dfyconfig.toml` (Dafny 4.11).

## How the model is laid out

- `automata`: a recogniser that reads one byte at a time until it stops. Every framing on
  the wire is one; that fragmentation does not matter is proved once, here.
- `streams`, `writers`: a connection with adversarial short reads, buffered and budgeted
  readers; a socket that may fail at any byte under a buffered writer with a sticky error.
- `gob`, `gob_forms`, `aead`, `v2_crypto`, `v2_client`, `v2_server`: the legacy sealed codec.
  `gob_forms` tells what a gob decoder takes and refuses without the decoder.
- `json_text`, `json_value`, `json_grammar`, `json_decoder`, `json_codec`, `json_crypto`,
  `json_pull`, `json_handoff`, `json_losses`, `json_calls`, `json_bodies`,
  `json_crypto_reader`, `json_writes`: the v3 codecs. `json_text` is the JSON scanner, which
  `json_value` and `json_grammar` prove to recognise exactly the JSON grammar; `json_decoder`
  has the reads of the JSON decoder and the growth of its buffer, `json_pull` the reads of the
  gob decoder; `json_handoff`, `json_losses` and `json_calls` reason about how the sealed codec
  passes the stream between the two, `json_bodies` about what a body comes to;
  `json_crypto_reader` is the codec itself, proved to make exactly those steps.
- `negotiate`, `sessions`, `torn`: choosing the codec, whole connections from a client's
  writes to what the server's codec returns, and what becomes of an unfinished frame.
- `client`: the v3 client, as an interleaving of lock-protected steps and as a class.
- `invoker`, `text`, `allowlist`, `service`, `numerals`, `address`, `config`,
  `config_render`: the proxy.

Each codec method is tied to a function or relation on the bytes still to be delivered, so
its result cannot depend on how reads are cut. Server and client codecs read with the same
code on both sides; one reader class stands for both directions.

## What the proofs found

Where the code does not do what its comments say, the code is followed and the exact
condition under which it does is proved.

- The sealed JSON codec means to lose no byte of the next message
  (`v3/codec/json_crypto_codec.go:95-97`). A call keeps them if and only if its JSON decoder
  had pulled everything it was rebuilt over and exactly the body was taken, or lacked only the
  separator before the body (`JsonHandOff.CallReadsIff`, and for whole bursts
  `JsonHandOff.PipelinedRunIff`). When every call that can be made from a state keeps them is
  stated on the state before the call (`JsonCalls.EveryCallKeepsIff`): from a fresh reader,
  exactly when the gob decoder reads no byte ahead, or nothing follows the frame, or the body
  spends the whole budget (`JsonCalls.FreshCallKeepsIff`).
  - The gob decoder is built over a reader without single-byte reads, which the gob library
    wraps in a buffer of 4096 bytes, so it may overshoot; when it can is stated exactly
    (`JsonLosses.SomeReadLosesIff`, `JsonLosses.LibraryOvershoots`).
  - Even with an exact gob decoder the JSON decoder, rebuilt over what it had read, may not
    have pulled it all; for two frames it is stated exactly when that loses bytes
    (`JsonCalls.UndrainedLosesIff`, and `JsonCalls.TinyBurstLoses` for the smallest frames).
  - One call at a time is always safe (`JsonHandOff.LockStepRun`); with an exact gob decoder so
    are bursts of any length whose frames leave room (`JsonCalls.RoomyBurstKept`), such as those
    of frames of at least 1024 bytes with headers of at most 512
    (`JsonCalls.LongFramesAreRoomy`).
- Neither client codec is all-or-nothing. The v3 one leaves an encoded header in its buffer
  when the body does not encode, and the next success sends it
  (`JsonWrites.ClientWriter.WriteAll`, `JsonWrites.HeaderStranded`). The v2 one encodes the
  body first and so does this only when the outer encoder refuses the sealed body for its size
  (`V2Client.AllOrNothingIff`).
- A plain JSON number cut short by the end of the stream right after a digit is taken for a
  whole, other number; no other text that is cut is taken for one (`JsonText.WhereTheStreamEnds`,
  `Torn.TornLines`).
- The client's fallback call is meant to run on a legacy connection
  (`v3/client.go:64-65`). It is sure to exactly when no other call cached a connection
  between this call's invalidation and its decision (`Client.RetryOnLegacyIff`); otherwise it
  may run on JSON (`Client.RetryOnJson`). A `Close` during a call can set the fallback bit and
  leave a connection open (`Client.CloseDuringCall`); exactly when is stated in
  `Client.CloseIsFinalIff`.
- The byte budget decides alone only up to one budget and a little beyond; in between, whether a
  text is accepted depends on how far the reads for the previous one happened to go. The range
  is exact (`JsonCodec.BetweenItDepends`); behind a small header it is at most 1536 bytes
  (`JsonCodec.MostBehindSmall`).
- The no-collision remark of `v3/codec/negotiate.go:16-23` holds for every stream that
  starts with a definition of a user type; the gob messages that would collide are
  characterised exactly (`Negotiate.MessageIsJsonIff`).
- A malformed target address that contains the words "missing port" is accepted whole, with
  the default port (`Address.DefaultPortIff`).

## Model

| member | source | states |
|---|---|---|
| Automata.RunSplit | v2/codec/buffer.go:55-94 | Feeding a recogniser in two pieces is feeding it the whole, in state and in bytes used, so the cutting of a stream into reads has no effect. |
| Automata.StopsWindow | v3/codec/json_server_codec.go:35-45 | Seen through a window of k bytes, a recogniser that stops has stopped exactly when the window holds the bytes it uses, and then in the same state. |
| Streams.Conn.Peek | v3/codec/negotiate.go:53-64 | Peeking returns the first pending bytes, fewer only at end of stream, and leaves the pending bytes as they were. |
| Streams.BufReader.Read | v2/codec/buffer.go:77-79 | A short read takes a non-empty front of the pending bytes; an empty one means end of stream. |
| Streams.BufReader.Peek | v2/codec/buffer.go:86-88 | Peek sees the next pending bytes without taking them, across any fragmentation. |
| Streams.BufReader.Discard | v2/codec/buffer.go:89-91 | Discard drops exactly the peeked bytes. |
| Streams.BudgetReader.Read | v3/codec/json_server_codec.go:35-45 | A read is refused exactly when the budget is spent; otherwise it takes at most what is left and charges what it took. |
| Writers.BufWriter.Write | v3/codec/json_server_codec.go:105-123 | What is written is appended to the intended wire; after the first failure the socket never receives another byte. |
| Writers.BufWriter.Flush | v3/codec/json_server_codec.go:122-123 | A flush succeeds exactly when nothing has failed, and then nothing is buffered. |
| Aead.DecryptEncrypt | v3/codec/json_crypto_codec.go:57-73 | Opening what was sealed, nonce in front, gives the plain text back. |
| Aead.DecryptIff | v2/codec/crypto.go:58-65 | What is opened is a nonce and something the cipher opens under it; anything shorter than a nonce does not open. |
| Gob.UintRoundTrip | v3/codec/negotiate.go:16-23 | Gob's unsigned encoding, one byte or a negated count and big-endian bytes, decodes to the number and its length whatever follows. |
| Gob.DecodeEncode | v2/codec/client_crypto_codec.go:57-68 | A decoder whose known types are the encoder's sent types reads the value back, takes exactly the encoder's bytes, and ends with the encoder's new type set. |
| Gob.BytesRoundTrip | v2/codec/server_crypto_codec.go:68-71 | A byte slice sent as a gob value is read back as the same bytes. |
| Gob.AsBytesIff | v2/codec/server_crypto_codec.go:68-71 | A received value is a byte slice exactly if its type is that of byte slices and its content is a zero, a length in any form, and that many bytes. |
| Gob.ShortestForm | v3/codec/json_crypto_codec.go:120-123 | No byte string that a decoder takes for a value with a given content is shorter than the encoder's. |
| GobForms.ValueIff | v2/codec/server_crypto_codec.go:43-48 | The decoder comes to a value with the last byte of a string exactly if the string is messages, in whatever forms, that define new types and then one that holds a value of a known type; it ends with the types known and defined. |
| GobForms.RefusedIff | v2/codec/server_crypto_codec.go:43-48 | It refuses exactly at a count of more than eight bytes, a length of 8 GiB or more, or a message that is neither a value of a known type nor a definition of a new one. |
| V2Crypto.DecodeComesTo | v2/codec/server_crypto_codec.go:43-48 | One decode reports a value exactly if the bytes begin with one, a refusal exactly if they begin with something wrong, a clean end exactly if there are none, and otherwise that the stream was cut. |
| V2Crypto.ReadBodyComesTo | v2/codec/server_crypto_codec.go:50-88 | A body read hands over a value exactly if the prefix, a byte slice that the key opens and an accepted value inside it are there; each failure is reported exactly when its step fails first, and a wrong prefix stays where it is. |
| V2Crypto.ReadFrame | v2/codec/server_crypto_codec.go:43-88 | After any header, the CRYPT bytes sit at the shared reader's position, header and body come back, and reader and writer agree on the known types. |
| V2Crypto.PipelinedRun | v2/codec/client_crypto_codec.go:43-70 | Every burst of calls, fully pipelined and followed by anything, is read back in order, and the decoder's known types end as the encoder's sent types. |
| V2Crypto.MixedTakers | v2/codec/server_crypto_codec.go:50-88 | Any mix of readers of a burst, some with a wrong key and some for values of other types, gets from each body what that call makes of it, and headers, known types and the bytes that follow stay aligned. |
| V2Crypto.FeedWanted | v2/codec/buffer.go:55-58 | Bytes the gob decoder asks for are never more than its own message needs. |
| V2Crypto.ServerReader.Decode | v2/codec/server_crypto_codec.go:43-48 | One gob decode over the shared buffer yields what the pending bytes say, a value, a refusal, a clean end or a cut, and leaves the rest. |
| V2Crypto.ServerReader.ReadRequestHeader | v2/codec/server_crypto_codec.go:43-48 | A header read takes exactly one gob value, and reports the end of the stream exactly when no byte is left. |
| V2Crypto.ServerReader.ReadRequestBody | v2/codec/server_crypto_codec.go:50-88 | A body read peeks and skips the prefix, decodes, decrypts and decodes again into the caller's value, each failure at its own place in the stream. |
| V2Crypto.ServerReader.Serve | v2/codec/server_crypto_codec.go:43-88 | A run of reads returns a function of the pending bytes alone, for every fragmentation and any buffering below. |
| V2Client.PartsSnoc | v2/codec/client_crypto_codec.go:43-70 | One more attempt queues nothing, or its header and prefix, or a whole frame, encoded for the types already sent. |
| V2Client.AllOrNothingIff | v2/codec/client_crypto_codec.go:43-70 | The bytes of any run of attempts are those of the run of only the calls encoded whole if and only if the outer encoder refused none of the sealed bodies for its size. |
| V2Client.NoneOversizedRun | v2/codec/client_crypto_codec.go:43-70 | Without such a refusal wire and type state equal those of the run of only the calls encoded whole, whatever inner bodies failed to encode. |
| V2Client.PutFrame | v2/codec/client_crypto_codec.go:57-69 | Header, raw prefix and, unless refused, body are queued in that order; after a failure nothing more reaches the socket. |
| V2Client.ClientWriter.WriteRequest | v2/codec/client_crypto_codec.go:43-70 | A body that does not encode leaves no trace; a sealed body the outer encoder refuses leaves header and prefix in the buffer; a whole call is flushed with all that was there before it. |
| V2Client.ClientWriter.WriteAll | v2/codec/client_crypto_codec.go:43-70 | After any run whose last write succeeded the connection has been given exactly the calls encoded whole if and only if no sealed body was refused; on a socket that works no write fails but by its fate. |
| V2Server.ServerWriter.WriteResponse | v2/codec/server_crypto_codec.go:90-121 | An open codec puts a whole frame on the wire, or a part of one and is closed; a closed one puts nothing. |
| V2Server.ServerWriter.Serve | v2/codec/server_crypto_codec.go:90-129 | The wire of any run is the first k frames, at most a part of the next, and nothing after; on a socket that works k is cut short only by a response that does not encode. |
| JsonText.DecodeText | v3/codec/json_server_codec.go:81-103 | A text after separators is taken exactly, leaving its newline, if and only if the bytes it needs may be looked at; otherwise it is too large. |
| JsonText.DecodeWindow | v3/codec/json_server_codec.go:81-87 | Once a text is complete, having read less of what follows gives the same outcome. |
| JsonText.TextCovers | v3/codec/json_server_codec.go:81-87 | A text not complete within the first k bytes takes all of them. |
| JsonText.InsideText | v3/codec/json_server_codec.go:81-87 | Strictly inside a text the scanner has neither stopped nor is it at the start, and what it has got would be taken at the end of the stream only if it is a number as far as some digit. |
| JsonText.WhereTheStreamEnds | v3/codec/json_server_codec.go:81-87 | A stream that ends between texts is reported as ended and one that ends inside a text as cut, unless what has come is a number as far as some digit; that alone is taken for a text, and exactly then it is one. |
| JsonText.WholeAtTheEnd | v3/codec/json_server_codec.go:81-87 | A whole text at the end of the stream is taken, with no byte behind it. |
| JsonValue.EveryValueIsText | v3/codec/json_server_codec.go:105-122 | The text of any JSON value, with blanks anywhere the grammar lets them stand, is framed exactly by the decoder if and only if its brackets nest no deeper than the decoder allows; an object needs no byte beyond its own. |
| JsonGrammar.TextsAreValues | v3/codec/json_server_codec.go:81-103 | The decoder's scanner recognises nothing else: its texts are exactly those of the grammar, defined without reference to a decoder, that nest at most 10000 deep. |
| JsonGrammar.SyntaxIff | v3/codec/json_server_codec.go:81-103 | A syntax error is reported exactly when what has been seen is the start of no text, whatever may follow. |
| JsonText.Characters | v3/codec/json_server_codec.go:81-103 | The bytes the grammar names are those of its characters. |
| JsonValue.EveryValueDecodes | v3/codec/json_server_codec.go:81-103 | Decoding the text of any value, after separators and before anything, gives the text back if and only if it fits in what may be looked at and does not nest too deep. |
| JsonValue.ObjectIsJsonIff | v3/codec/negotiate.go:27-40 | A connection that starts with an object is classified JSON exactly when that is not the empty object without blanks. |
| JsonDecoder.StepFacts | v3/codec/json_server_codec.go:35-45 | A decode's report is settled by the bytes held and to come and the budget; it takes a text and nothing else, and reads the connection only for what the bytes already held do not complete. |
| JsonDecoder.ReadsMove | v3/codec/json_server_codec.go:35-45 | However its reads are cut they amount to taking the bytes in order, what the decoder was built over first, and only bytes of the connection are charged. |
| JsonDecoder.LookAhead | v3/codec/json_server_codec.go:35-45 | A decode that takes a text has read to the byte that ends it and at most as far as its buffer has grown for reading behind an incomplete text. |
| JsonDecoder.CanHold | v3/codec/json_server_codec.go:35-45 | Every amount in between can come about by reads the decoder can make. |
| JsonDecoder.RestAfter | v3/codec/json_crypto_codec.go:203-211 | Of the bytes it was built over, a decoder that has taken its first text has pulled as many as the first size of its buffer that holds the text, or all. |
| JsonDecoder.OutcomeFromBuffer | v3/codec/json_server_codec.go:81-103 | What the decoder reports when it stops reading is the outcome the whole stream determines. |
| JsonCodec.CarryBound | v3/codec/json_server_codec.go:31-45 | Look-ahead left by a successful decode is at most the budget, and no text longer than two budgets is accepted. |
| JsonCodec.AcceptedIff | v3/codec/json_server_codec.go:81-103 | Exactly the texts whose needed bytes, separators counted, fit in budget and look-ahead together are accepted. |
| JsonCodec.AcceptedTakes | v3/codec/json_server_codec.go:81-103 | An accepted text is taken with its separators and nothing after it. |
| JsonCodec.BudgetDecides | v3/codec/json_server_codec.go:31-45 | Whatever was read ahead, a text needing at most one budget is accepted and one needing more than two is refused. |
| JsonCodec.BetweenItDepends | v3/codec/json_server_codec.go:31-45 | Of two texts on a fresh connection, the first within the budget, some run accepts the second if and only if it needs no more than a budget and the most that can be held behind the first, and some run refuses it if and only if it needs more than a budget and the least. |
| JsonCodec.MostBehindSmall | v3/codec/json_server_codec.go:31-45 | With an object of at most 1025 bytes the decoder can come to hold 1536 bytes, or the budget if that is less. |
| JsonCodec.RunRecovers | v3/codec/json_server_codec.go:81-103 | Every run over texts that each fit in one budget recovers them all in order, whatever the fragmentation and look-ahead. |
| JsonCodec.RunCarryBound | v3/codec/json_server_codec.go:31-45 | Over every run the look-ahead stays within the budget. |
| JsonCodec.RunLookAhead | v3/codec/json_server_codec.go:31-45 | Over every run from a fresh reader whose texts need at most n bytes each, what is held never exceeds the size the buffer grows to behind n bytes. |
| JsonCodec.Reader.ReadHeader | v3/codec/json_server_codec.go:81-87 | A header read is one decode under a fresh budget; the first stream error stays; never more than two budgets of bytes are held. |
| JsonCodec.Reader.ReadBody | v3/codec/json_server_codec.go:89-103 | The body text is taken the same way whether it is discarded, delivered or found not to match, and each of these, or the stream's failure, is reported exactly when it is so. |
| JsonCodec.Limit | v3/codec/json_server_codec.go:65-68 | The budget is the one set, or 4 MiB if none is. |
| JsonCodec.Reader.Serve | v3/codec/json_server_codec.go:81-103 | Any number of reads makes one run, stopping only at a stream error. |
| JsonCodec.Reader.Fill | v3/codec/json_server_codec.go:35-45 | Reading goes on until the text is complete, the budget spent or the stream ended, each read as large as the free space of the buffer. |
| JsonCrypto.PrefixAccepts | v3/codec/json_crypto_codec.go:103-119 | The prefix scanner succeeds exactly on whitespace followed at once by CRYPT, and has then taken exactly those bytes; whitespace inside the prefix is refused. |
| JsonCrypto.ReadWritten | v3/codec/json_crypto_codec.go:98-129 | A written body of at most the budget is read whole and exactly, whatever follows; a larger one is refused for its size. |
| JsonCrypto.ReadSealedAfter | v3/codec/json_crypto_codec.go:98-129 | The same after any separators. |
| JsonCrypto.ReadsAtLeast | v3/codec/json_crypto_codec.go:98-129 | No read comes to a given sealed body in fewer bytes than its writer used, separators counted. |
| JsonCrypto.ReadBlobBy | v3/codec/json_crypto_codec.go:98-129 | What a body read reports depends on the value's own bytes, whatever was read beyond it. |
| JsonPull.ReadsTake | v3/codec/json_crypto_codec.go:120-123 | However the gob decoder's reads are cut they take the bytes in order, at most the read-ahead beyond its value, and none across the end of the buffered bytes. |
| JsonHandOff.CallReadsIff | v3/codec/json_crypto_codec.go:190-216 | A call that starts at a frame reads it and leaves the stream at the next one if and only if the JSON decoder was drained and exactly the body was taken, or the separator before the body was all that was not pulled and was all that was missing from what was taken. |
| JsonHandOff.TakesWithin | v3/codec/json_crypto_codec.go:98-129 | A body read takes at least the body's bytes and at most the read-ahead more, within the budget, never from the buffer into the connection; a refused or cut prefix overshoots nothing. |
| JsonHandOff.ExactKeeps | v3/codec/json_crypto_codec.go:198-216 | With a drained JSON decoder, a gob decoder that reads only its own message keeps the stream. |
| JsonLosses.BufferedLosesIff | v3/codec/json_crypto_codec.go:198-216 | For a body that ends inside the decoder's buffer it is settled whether its read loses bytes: exactly when the reads through the gob decoder's own buffer overshoot the blob, in closed form. |
| JsonLosses.SomeReadLosesIff | v3/codec/json_crypto_codec.go:198-216 | At any frame some read loses bytes exactly when a byte behind the body has arrived and the budget reaches it, and the body ends on the connection, or inside the buffer with the reads overshooting. |
| JsonLosses.LibraryOvershoots | v3/codec/json_crypto_codec.go:120-123 | Through a buffer of 4096 bytes the reads overshoot exactly the blobs that are not 4096 bytes long and are either shorter than 8192 or, read in pieces of 10 MiB, end in a piece shorter than the buffer. |
| JsonHandOff.DrainedIff | v3/codec/json_crypto_codec.go:190-216 | A header read leaves unpulled exactly what the first size of the buffer that holds the header had no room for. |
| JsonCalls.EveryCallKeepsIff | v3/codec/json_crypto_codec.go:190-216 | From the state in which every call starts, all calls that can be made on a frame keep the stream if and only if a condition on the bytes the decoder was built over, the frame and what follows it holds. |
| JsonCalls.FreshCallKeepsIff | v3/codec/json_crypto_codec.go:190-216 | From a fresh reader every call keeps the stream if and only if the gob decoder reads exactly, or nothing follows the frame, or the body spends the whole budget. |
| JsonHandOff.LoneFrameKeeps | v3/codec/json_crypto_codec.go:190-216 | A frame with nothing after it is kept, however far the decoders read ahead. |
| JsonCalls.RoomyBurstKept | v3/codec/json_crypto_codec.go:190-216 | With an exact gob decoder a burst of any length is read frame by frame, whatever the fragmentation, if what can be held behind each frame fits in the buffer that the next header fills first. |
| JsonCalls.LongFramesAreRoomy | v3/codec/json_crypto_codec.go:190-216 | Frames of at least 1024 bytes with headers of at most 512 are such a burst. |
| JsonCalls.SmallIsRoomy | v3/codec/json_crypto_codec.go:190-216 | So is a burst that fits in the first request of a decoder. |
| JsonHandOff.PipelinedRunIff | v3/codec/json_crypto_codec.go:190-216 | For every read-ahead, a burst of any length is read in order, each call leaving the stream at the next frame, if and only if every call kept the stream. |
| JsonHandOff.PipelinedRun | v3/codec/json_crypto_codec.go:190-216 | With an exact gob decoder and a JSON decoder always drained, bursts of any length decode in order and what is left is exactly the remaining input. |
| JsonHandOff.LockStepRun | v3/codec/json_crypto_codec.go:190-216 | If each frame is sent only after the previous one was read, every frame is read, for every read-ahead and run length. |
| JsonHandOff.OpensSealed | v3/codec/json_crypto_codec.go:120-152 | The right cipher recovers the text that was sealed, delivered exactly if the caller accepts it; a cipher that does not open it gives a failure. |
| JsonCalls.UndrainedLosesIff | v3/codec/json_crypto_codec.go:203-211 | With an exact gob decoder and two frames on a fresh connection, some run loses bytes behind the second if and only if the first call may leave more than the second header's buffer holds, a lone separator apart. |
| JsonCalls.TinyBurstLoses | v3/codec/json_crypto_codec.go:203-211 | Two smallest frames followed by more than 500 bytes have a run that loses some. |
| JsonLosses.TinyFits | v3/codec/json_crypto_codec.go:77-93 | A smallest frame within the conditions exists. |
| JsonCryptoReader.BodySource.Read | v3/codec/json_crypto_codec.go:98-99 | The inner budget never exceeds the outer one, so only the inner one can refuse; reads are served from the buffered bytes alone while there are any. |
| JsonCryptoReader.BodySource.ScanPrefix | v3/codec/json_crypto_codec.go:103-119 | The byte-by-byte loop brings the prefix recogniser to the state the bytes determine and takes no byte more. |
| JsonCryptoReader.BodySource.Drive | v3/codec/json_crypto_codec.go:120-123 | The gob decoder's reads are legal ones, from the buffer as many bytes as there are of those asked for, and end with its value or with nothing left. |
| JsonCryptoReader.BodySource.DecodeBlob | v3/codec/json_crypto_codec.go:98-123 | Prefix and blob are read as the bytes determine, within one budget, and a refused prefix takes no byte beyond its own. |
| JsonHandOff.ReadsEnd | v3/codec/json_crypto_codec.go:98-129 | Reads that end leave the decoder with the report the bytes determine and the source with exactly the bytes not taken. |
| JsonCryptoReader.Reader.ReadHeader | v3/codec/json_crypto_codec.go:190-196 | The codec's header read is exactly a header step: rest before connection, bytes of the connection budgeted. |
| JsonCryptoReader.Reader.ReadBody | v3/codec/json_crypto_codec.go:198-216 | The codec's body read is exactly a body step; it hands over a text exactly if the bytes are separators, CRYPT and a complete blob within the budget that opens to a text the caller accepts, and reports each failure exactly when its step fails first; the decoder is rebuilt over what is left of its buffer. |
| JsonBodies.ReadComesTo | v3/codec/json_crypto_codec.go:98-152 | What a read of any bytes by any caller comes to, told from the bytes: the text sealed in them, or a wrong prefix, a cut prefix, a cut blob, a refused blob, too many bytes, no byte slice, a failure to open, or a mismatch. |
| JsonCryptoReader.Reader.Serve | v3/codec/json_crypto_codec.go:190-216 | Any number of calls makes one pipelined run, each result being what the bytes its body was read from come to. |
| JsonCryptoReader.Reader.ServeBurst | v3/codec/json_crypto_codec.go:190-216 | A burst opened by any mix of callers, with right and wrong keys, accepted or not: as long as every call keeps the stream each body opens to what its own frame sealed and what follows is left; from a fresh reader an exact gob decoder keeps every burst whose frames leave room. |
| JsonCryptoReader.Reader.ServeLockStep | v3/codec/json_crypto_codec.go:190-216 | Frames that arrive one at a time are each opened to what was sealed, whatever the read-ahead. |
| JsonWrites.WriteBody | v3/codec/json_crypto_codec.go:77-93 | A body goes out plain or as prefix and sealed blob; a failure is reported and leaves at most a front of it. |
| JsonWrites.WriteMessage | v3/codec/json_server_codec.go:105-122 | Header then body are queued; success means both encoded and nothing failed. |
| JsonWrites.ServerWriter.GiveUp | v3/codec/json_server_codec.go:106-120 | After an encoding failure the codec is dead: on a socket that works all that was encoded is sent and the connection is closed; otherwise it may be stuck in its writer's error. |
| JsonWrites.ServerWriter.WriteResponse | v3/codec/json_crypto_codec.go:218-234 | A live codec puts a whole frame on the wire, or a part and is dead; a dead one puts nothing; on a socket that works the part is all that was encoded, and then the connection is closed. |
| JsonWrites.ServerWriter.Serve | v3/codec/json_server_codec.go:105-131 | Over any run with encoding and socket failures the wire is the first k frames, at most a part of the next, and nothing after; on a socket that works k is cut short only by a response that does not encode. |
| JsonWrites.ClientWriter.WriteRequest | v3/codec/json_client_codec.go:46-54 | A client that fails to encode returns without flushing or closing: what was already encoded stays in its buffer, and unless the buffer overflows nothing reaches the peer; a success flushes all of it. |
| JsonWrites.ClientWriter.WriteAll | v3/codec/json_client_codec.go:46-54 | Once a request has succeeded the connection has been given all bytes encoded so far; those are the frames of the requests that succeeded if and only if none failed after its header was encoded. |
| JsonWrites.StrandedGap | v3/codec/json_client_codec.go:46-54 | The intended wire exceeds the frames of the successful requests by exactly the stranded bytes. |
| JsonWrites.ClientWireIffNoneStranded | v3/codec/json_crypto_codec.go:280-288 | The bytes encoded in a run are the frames of the successful requests if and only if no request failed after its header was encoded. |
| JsonWrites.HeaderStranded | v3/codec/json_client_codec.go:46-54 | A request whose body does not encode, then one that does: the second puts the first one's header on the connection in front of its own frame. |
| Negotiate.Sniff | v3/codec/negotiate.go:53-64 | The answer is a function of the first two pending bytes, and the codec will read every byte. |
| Negotiate.MessageIsJsonIff | v3/codec/negotiate.go:16-40 | A gob message is taken for JSON exactly when it is 123 bytes long and its type id is one of -7, -5, 5, 16, 17. |
| Negotiate.DefinitionIsNotJson | v3/codec/negotiate.go:16-40 | No stream starting with a definition of a user type is taken for JSON, even when its length byte is that of an opening brace. |
| Negotiate.FreshGobIsNotJson | v3/codec/negotiate.go:16-40 | Whatever value of a user type a fresh gob encoder is first given, its stream is classified legacy. |
| Negotiate.CompactIsJsonIff | v3/codec/negotiate.go:27-40 | A compact object starts a JSON stream exactly when it is not the empty object. |
| Negotiate.MirrorSelected | v3/codec/negotiate.go:69-93 | For every transport a client may choose, with equal key presence, the server selects the client's mirror codec. |
| Negotiate.Accept | v3/codec/negotiate.go:69-82 | The server's choice is the one the pending bytes and the key determine, and no byte is consumed. |
| Negotiate.TwoBytesDecide | v3/codec/negotiate.go:53-64 | Whatever arrives after the first two bytes does not change the classification. |
| Sessions.SniffedEqualsDirect | v3/codec/negotiate.go:42-82 | On every byte stream the v2 codec behind the sniffing layer returns what it returns directly on the connection. |
| Sessions.Legacy | v3/codec/negotiate.go:85-88 | On a socket that works, a legacy client's burst, some bodies failing to encode and none refused for its size, selects the legacy codec and is read as exactly the calls written, with the types sent. |
| Sessions.WireIsLines | v3/codec/json_client_codec.go:46-54 | Complete plain messages are on the wire as their texts, a line each. |
| Sessions.Plain | v3/codec/negotiate.go:69-93 | On a socket that works, a plain JSON client's burst selects the plain JSON codec and every text is taken for what it is, under any mix of discards and mismatches. |
| Sessions.Sealed | v3/codec/negotiate.go:69-93 | On a socket that works, a sealed JSON client's requests, each sent once the previous was read, select the sealed JSON codec and every body arrives, whatever the decoders read ahead. |
| Torn.TornRun | v2/codec/server_crypto_codec.go:90-121 | A v2 wire of whole frames and an unfinished one is read as the calls of the whole frames and then as a clean end, a cut header, a header without a prefix, or one with a cut body, according to how much has come. |
| Torn.TornValue | v2/codec/server_crypto_codec.go:43-48 | A gob value cut short is reported as cut, and as a clean end only if nothing of it, nor of the definitions before it, has come. |
| Torn.CleanEnd | v2/codec/server_crypto_codec.go:43-48 | A v2 wire of whole frames is read as their calls and then as a clean end. |
| Torn.TornCall | v3/codec/json_crypto_codec.go:190-216 | A sealed JSON frame cut short anywhere is not read as a frame, however far the decoders read ahead, as long as the body read has all of it in reach but at most the separator. |
| Torn.TornSealedRun | v3/codec/json_crypto_codec.go:190-216 | Whole sealed frames, each call on them keeping the stream, and then an unfinished one are read as the frames and then as no frame. |
| Torn.WhereCut | v3/codec/json_server_codec.go:105-122 | A plain wire cut anywhere is some whole lines and a front of the next text. |
| Torn.TornLines | v3/codec/json_server_codec.go:81-103 | A reader of such a wire is told every whole line's text, and then that the stream has ended or is cut, unless all of the next text has come, or a number as far as some digit. |
| Client.Safety | v3/client.go:66-177 | In every interleaving of calls and closes at most one connection is open and it is the cached one, the active transport names it, a client set to JSON dials JSON and one set to legacy dials legacy, an auto client dials only JSON before the bit is set, and at most one retry ever happens. |
| Client.DialsAsSet | v3/client.go:128-168 | In every interleaving all connections of a client set to JSON are JSON, all of one set to legacy are legacy, and those of an auto client are JSON until the bit is set. |
| Client.LegacyEverAfter | v3/client.go:128-168 | The fallback bit never resets, and every connection an auto client dials after it is set is legacy. |
| Client.RetryOnLegacyIff | v3/client.go:86-112 | A retry is sure to run on a legacy connection if and only if no other call has cached one between this call's invalidation and its decision. |
| Client.RetryOnJson | v3/client.go:86-112 | An interleaving exists in which the retry runs on a JSON connection. |
| Client.CloseIsFinalIff | v3/client.go:66-125 | A close leaves the client closed until the next call is made if and only if no call under way is before its first step, about to retry, or able to fall back; it leaves the bit unset if and only if none can still come to a decision. |
| Client.CloseDuringCall | v3/client.go:80-125 | A close that overtakes a call can set the bit and leave a connection open with no call made after it. |
| Client.AloneIsARun | v3/client.go:66-113 | A call that no other overlaps is one of the interleaved client's runs. |
| Client.AtMostTwoAttempts | v3/client.go:66-113 | Such a call makes at most two attempts: the first, unless the context is done or dialling fails, on the cached connection or one of the kind the client is set to; the second exactly after the first lost a JSON connection, by an error that is no server's and says that it is shut, ended, cut or failed in the network, and on a legacy connection dialled for it. |
| Client.CallOnKind | v3/client.go:66-168 | Every attempt of a client set to JSON or to legacy is made on that transport. |
| Client.FailureLeavesNothing | v3/client.go:80-113 | After such a call a connection is cached exactly when the last attempt was answered, and it succeeds exactly when that was in time. |
| Client.JsonTriedOnce | v3/client.go:86-140 | An auto client facing a legacy-only server tries JSON exactly once over any number of calls, all of which succeed. |
| Client.CustomRpcClient.GetClient | v3/client.go:142-168 | The cached connection is returned, or one of the effective transport is dialled, cached and recorded as active. |
| Client.CustomRpcClient.Invalidate | v3/client.go:170-177 | Whatever is cached is closed and forgotten. |
| Client.CustomRpcClient.Close | v3/client.go:116-125 | Closing closes and forgets the cached connection, if there is one. |
| Client.CustomRpcClient.NoteConnError | v3/client.go:91-98 | The bit is set, and a retry is due exactly for the first error of an auto client whose active transport is JSON. |
| Client.CustomRpcClient.Call | v3/client.go:66-113 | The method takes exactly the steps of the interleaved client, one after another. |
| Invoker.ResourcesSafe | v3/proxy/invoke.go:98-154 | In every interleaving slots taken are the invocations between acquiring and returning, open clients never exceed slots held nor those the limit, and no client is closed twice. |
| Invoker.AllGivenBack | v3/proxy/invoke.go:98-154 | Once every invocation has returned, whatever way out it took, every client made was closed exactly once and every slot is free. |
| Invoker.PayloadsBounded | v3/proxy/invoke.go:105-149 | No payload over the limit reaches a client and none is handed back, in every interleaving. |
| Invoker.RPCInvoker.Invoke | v3/proxy/invoke.go:98-154 | It gives back a reply exactly if a client was asked and answered with it and both payloads are within the limit set, or 4 MiB; each failure exactly when its check fails first or its client answers so; the slot is given back and the client it made, if any, was closed once. |
| Invoker.InvokeIsARun | v3/proxy/invoke.go:98-154 | What the method does is a run of the interleaved steps, unless the limiter is full and the context never done, and its result is the one told from payload, slots, client and answer. |
| Invoker.EveryResultAccountable | v3/proxy/invoke.go:98-154 | In every interleaving whatever an invocation gives back is what one of its own client's answers gives, or a failure that came before any client was asked. |
| Text.TrimSpaceTrims | v3/proxy/allowlist.go:44-48 | Trimming takes off white space at both ends, all of it and nothing else. |
| Allow.BadIff | v3/proxy/allowlist.go:44-56 | The entries refused are exactly those that are not blank and are not a service, one dot, and a name. |
| Allow.Insert | v3/proxy/allowlist.go:44-62 | One entry adds what it stands for, or is refused. |
| Allow.NewAllowlist | v3/proxy/allowlist.go:38-64 | The list holds exactly what its entries stand for, or the first bad entry is reported. |
| Allow.AllowedIff | v3/proxy/allowlist.go:68-101 | Under the default policy a method is let through exactly when the list names nothing or some raw entry, read directly, admits it; under the strict policy only in the latter case; under an unknown one never. |
| Allow.DecideIff | v3/proxy/allowlist.go:68-89 | With a list or without one, a method gets past exactly if the raw entries and the policy let it, and an unknown policy is reported exactly for a list whose policy is neither. |
| Allow.AllowsIff | v3/proxy/allowlist.go:91-101 | Matching against the built list is matching against the raw entries. |
| Allow.OrderFree | v3/proxy/allowlist.go:38-64 | Neither the order of entries nor their repetition changes the list built or whether it is built. |
| Allow.AllowedIsRouted | v3/proxy/allowlist.go:91-101 | A method a non-empty list lets through can be routed, to a service that is the service part of some entry. |
| Allow.Entries | v3/proxy/allowlist.go:104-116 | The listing holds every exact entry and every service with its wildcard, and nothing else. |
| Allow.ListingRebuilds | v3/proxy/allowlist.go:104-116 | A list built again from its own listing, in any order, is equal. |
| Allow.SplitNames | v3/proxy/service.go:172-178 | A method splits into a service exactly when it is that name without a dot, a dot, and a non-empty rest. |
| Service.GenericProxy.Call | v3/proxy/service.go:92-168 | The invoker is asked for a target exactly if the method is a service and a name, there is no list or the raw entries and the policy let it through, and the router gives that target; every other call gets the code of what it failed; response and observation say so. |
| Service.AskedIsListed | v3/proxy/service.go:107-133 | With a non-empty list the target asked is one the router gives for the service part of some entry, and some entry admits the method. |
| Numerals.AtoiItoa | v3/proxy/config.go:140-143 | Printing and parsing a port give it back. |
| Numerals.AtoiIff | v3/proxy/config.go:140-143 | What is read as a port is decimal digits, with a sign in front or without, and its value is theirs. |
| Numerals.HexRoundTrip | v3/proxy/config.go:109-116 | Hex encoding and decoding give the secret back. |
| Numerals.HexIff | v3/proxy/config.go:109-116 | A secret decodes exactly if it is two hex digits of either case for each byte. |
| Address.DefaultPortIff | v3/proxy/config.go:128-139 | An address that does not split gets the default port exactly when its port is missing or it contains the words the library reports that with. |
| Address.SplitsIff | v3/proxy/config.go:128-139 | An address splits exactly into a host, in brackets or without colons, and a port, neither holding further marks. |
| Address.ParsedIff | v3/proxy/config.go:128-147 | An address stands exactly for its host and a port from 1 to 65535, or for all of it and port 2233 if it does not split and either lacks a port or contains the quoted words. |
| Address.MalformedAccepted | v3/proxy/config.go:132-137 | Such a malformed address exists and is accepted. |
| Address.JoinThenSplit | v3/proxy/config.go:128-147 | Joining a host without brackets and a port in range, then splitting, gives both back, colons in the host included. |
| Config.ConfigFromEnv | v3/proxy/config.go:44-125 | Variables are gathered in order and assembled; an unnamed service or a service whose target does not parse is reported. |
| Config.Assemble | v3/proxy/config.go:100-125 | A table loads exactly when every service's target parses, and then holds them all. |
| Config.TargetOfIff | v3/proxy/config.go:100-125 | A service's settings make a target exactly if there is an address that stands for its host and port and a secret in hex, or none. |
| Config.ClassifyIff | v3/proxy/config.go:61-89 | What a variable says is told exactly from its name and value: the suffix, the service in lower case, an unnamed service, or that it is not the proxy's. |
| Config.GatherReads | v3/proxy/config.go:61-89 | Each setting gathered is some variable's, and is unset only where no variable sets it. |
| Config.UnnamedIff | v3/proxy/config.go:66-82 | Gathering fails exactly when some variable names no service. |
| Config.OrderFree | v3/proxy/config.go:44-125 | For variables that give no setting twice differently, success and table do not depend on their order. |
| ConfigRender.AddrLineIff | v3/proxy/config.go:62-88 | A service's address variable is read as such exactly when its name has no reserved ending. |
| ConfigRender.TransportLine | v3/proxy/config.go:71-76 | A service's transport variable is read as that service's transport. |
| ConfigRender.SecretLine | v3/proxy/config.go:77-82 | A service's secret variable is read as that service's secret. |
| ConfigRender.RoundTrip | v3/proxy/config.go:44-147 | A table rendered as variables, in any order among other kinds of variables, is read back as it was. |

## Left out

- The root package, `codec/` and `v2/client.go`: near-copies or simpler forms of what is modelled.
- The plain gob codec of v2: the sealed one without its prefix and cipher; only its selection is modelled.
- Listening, dialling, TCP options, goroutines and the rpc library's dispatch: the codecs are assumed to be called header then body, and writes one at a time.
- AES, SHA-256, key normalisation and randomness: a cipher is a seal and an open function with the round-trip law, the nonce a parameter.
- Read errors of a connection other than end of stream; an error while peeking.
- Clocks: a context that is done, and a call that is late, are choices of the environment.
- Logging, metrics sinks, error texts other than the address error, option setters, identity headers and the mapping of call errors.
- The splitting of PROXY_ALLOWLIST at commas: one pass before the list is built.
- Letters outside ASCII in service names are kept as they are by the case functions; strings are sequences of characters, not bytes.
- JsonText.Decode: scans the grammar of section 2 of RFC 8259 byte by byte; what a complete text becomes in the caller's value, numbers out of range and invalid UTF-8 included, is the `accepts` of the caller.
- JsonCodec.Reader.More: a buffer enlarged for a read that brings nothing is left as it was; no byte comes after such a read.
- JsonDecoder.Grown: the sizes of the buffer, 512 bytes of free space and twice the size and 512 more, are those of the standard library's decoder, which is not part of the repository.
- Gob.Encode: models message framing, integers, type ids and type definitions; what a value's fields look like inside its message is opaque, and both ends refuse messages of 8 GiB.
- V2Client.PutFrame: each gob message is one buffered write, where the encoder makes one or more.
- V2Client.ClientWriter.WriteRequest: a header that gob itself refuses, of 8 GiB or more, is not an input; the sealed body that gob refuses is.
- JsonLosses.SomeReadLosesIff: where the body ends on the connection, which part of it a read returns is the connection's choice, as in its contract.
- Client.CustomRpcClient.Call: one call by itself; overlapping calls are the interleaved steps, not methods running at once.
- Client.Get: a dial that fails and a codec that cannot be built after dialling are one failure.
- Invoker.RPCInvoker.Invoke: one invocation by itself; overlapping invocations are the interleaved steps.
- Config.ConfigFromEnv: which of several bad targets is reported is left open, as map iteration leaves it.
- Codec reading and writing halves are separate classes; they share nothing but the connection and its closing.
