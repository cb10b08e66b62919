# A verified model of an RTMP protocol stack

This project models the parts of an RTMP implementation in which two ends must stay in step over
whole runs, and proves what keeps them in step. Verify it with `dafny verify dfyconfig.toml`.

Each component comes in two layers. The first is a set of functions that say what octets mean: what a
writer emits, what a reader makes of them. The laws about runs are lemmas over these functions; others
pin them to the wire, octet by octet, so that a writer and a reader cannot err together. The
second layer has the shape of the program: classes whose methods update their fields, loops that move
a position or append to a buffer. Each such method is proved to do exactly what the functions say.

| component | functions and laws | program shape |
|---|---|---|
| chunk stream | `ChunkModel`, `ChunkSync`, `ChunkRuns`, `ChunkDensity`, `ChunkHeaders`, `ChunkAborts`, `AckWindow` | `ChunkStream` |
| AMF 3 | `Amf3Model`, `Amf3RoundTrip`, `Amf3Doubles`, `Amf3Tables`, `Amf3Tail`, `Amf3Trees`, `Amf3References`, `AmfFraming` | `Amf3Codec` |
| AMF 0 | `Amf0Model`, `Amf0RoundTrip`, `Amf0References`, `Amf0Grammar`, `Amf0View` | `Amf0Codec` |
| audio and video tags | `FlvModel`, `FlvRoundTrip`, `FlvOctets`, `FlvCanonical`, `FlvMultitrack` | `FlvCodec` |
| handshake | `HandshakeModel`, `HandshakeDigests`, `HandshakeRuns` | `Handshake` |
| packet source | `AdapterModel`, `AdapterStreams`, `AdapterTimeline`, `AdapterPackets` | `Adapter` |
| FLV files | `FlvFrame`, `FlvFileModel` | `FlvFile` |
| aggregate messages | `AggregateModel` | `Aggregate` |

`Bytes` holds octets and fixed-width integers, `Text` the definition of valid UTF-8 (RFC 3629,
section 3).

Conventions:

- Octets are integers in 0..=255. Every 32-bit quantity wraps where the program's does. Doubles are
  their 64-bit patterns, strings their UTF-8 octets.
- A parser takes the octets ahead and gives a value and the octets left over, so that "decodes and
  stops exactly at its end" is a statement about what is left.
- The keyed digest of the handshake is an arbitrary function; all statements hold for any. Packet
  fillers and clocks are parameters.
- A stream that ends in the middle of a read is drained, and that read is not counted.

Where the program does not meet a law on all inputs, the law is stated with its exact condition; where
the failure is not plain from the condition, a lemma gives an input that fails:

- Payloads of 2^24 octets or more do not survive the chunk stream (`ChunkRuns.RoundTripIff`).
- A chunk size announced with bit 31 set can desynchronize the ends: the announcement is masked, the
  sender's own size is not (`ChunkRuns.AnnounceIff`, `ChunkRuns.AnnounceCanFail`).
- When time goes back on a message stream, as it does when the clock rolls over, the writer starts afresh with
  a full header. Whether that is still the densest format has an exact condition (`ChunkDensity.DensestFormat`,
  `ChunkDensity.RolloverIsLonger`, `ChunkDensity.StepBackIsDense`).
- A window can be missed when 2^32 octets arrive unacknowledged (`AckWindow.DueIff`,
  `AckWindow.PollsRightIff`, `AckWindow.MissedWrap`).
- A read that times out while probing is forgotten, which the plain source would report
  (`Adapter.TransparentIff`).
- A reference, written out in full, can make a value too deep to decode
  (`Amf0References.ExpansionKeepsMeaning`, `Amf0References.ExpansionCanFail`).
- The bare framing of AMF 3 values is ambiguous (`AmfFraming.BareExact`, `AmfFraming.BareIsAmbiguous`).
- Two peers that each write a whole packet before they read can deadlock if neither direction of the
  connection can hold one (`HandshakeRuns.DeadlockIff`).
- Tags, values and files with fields that have no place on the wire do not come back
  (`FlvRoundTrip.VideoExact`, `Amf0RoundTrip.Exact`, `Amf3RoundTrip.Exact`, `FlvFileModel.ItemsExact`).

## Model

| member | source | states |
|---|---|---|
| `ChunkSync.BasicHeaderRead` | src/chunk.rs:357-380 | Whatever basic header the writer emits for a format and a csid in 2..=65599 is read back as that format and csid, in all three lengths. |
| `ChunkSync.MessageHeaderRead` | src/chunk.rs:396-485 | A message header in any format that fits leaves the reader with the memory that mirrors the writer's, having taken exactly the header. |
| `ChunkSync.ChosenFormatFits` | src/chunk.rs:577-619 | The format the writer picks never leaves out a field in which the message differs from its memory. |
| `ChunkSync.HeadChunkRead` | src/chunk.rs:311-355 | The first chunk of a message brings the reader to the state that mirrors the writer, holding the first part of the payload, or delivers the message if it fits one chunk. |
| `ChunkSync.ContinuationRead` | src/chunk.rs:460-485 | A continuation chunk, with or without the repeated extended timestamp, moves the reader on by one chunk of payload and changes nothing else. |
| `ChunkSync.ContinuationsRead` | src/chunk.rs:664-695 | All continuation chunks together deliver exactly the message; the proof goes over any number of chunks. |
| `ChunkSync.MessageRead` | src/chunk.rs:551-697 | A message written in a fitting format is returned unchanged and exactly its octets are consumed, whatever follows; writer and reader agree on its chunk stream afterwards. |
| `ChunkRuns.OpExact` | src/client.rs:386-390 | A message, announcements included, arrives unchanged and leaves both ends in step if and only if its payload fits and it does not make the receiving end alone change its chunk size; then exactly its octets are taken. |
| `ChunkRuns.SessionRoundTrip` | src/chunk.rs:551-697 | For every list of messages (any csids, times, types and payloads below 2^24 octets) mixed with chunk-size changes, announced in band or made by both ends at the same message boundary: the reader returns exactly these messages in order, takes exactly the octets written, and both ends agree on every chunk stream afterwards. |
| `ChunkRuns.FreshSessionRoundTrip` | src/chunk.rs:517-523 | The same from two freshly created ends. |
| `ChunkRuns.RoundTripIff` | src/chunk.rs:551-697 | A message comes back if and only if its payload is shorter than 2^24 octets. |
| `ChunkRuns.Announced` | src/client.rs:868-871 | What the receiving end makes of an announced chunk size, and for which sizes that is what the sender uses. |
| `ChunkRuns.SizeMeans` | src/client.rs:868-871 | What any message makes the receiving end use: of an announcement, whoever made it, the 31 low bits of its first four octets, between 1 and the largest chunk size; any other message changes nothing. |
| `ChunkRuns.AnnounceIff` | src/message.rs:51-60 | An announced chunk size leaves both ends in step if and only if the size is below 2^31 or its low 31 bits are beyond the largest chunk size; the code masks the announcement but not the sender's own size. |
| `ChunkRuns.AnnounceCanFail` | src/message.rs:51-60 | On a fresh connection the announcement of 2^31 arrives, and leaves the writer at the largest chunk size and the reader at one octet: out of step. |
| `ChunkRuns.AfterCalls` | src/chunk.rs:311-355 | Over any octets and any calls, also after failed ones, the reader's memory stays sound. |
| `ChunkRuns.CallsAreSafe` | src/chunk.rs:294-355 | For any finite input and any sequence of read, abort and resize calls: each partial payload is empty or shorter than announced, a delivered payload has exactly the announced length, and a successful read consumed at least one octet. |
| `ChunkRuns.AbortResyncs` | src/chunk.rs:294-303 | Aborting a message given up halfway brings reader and writer back into agreement on that chunk stream. |
| `ChunkRuns.ChunkOfStream` | src/chunk.rs:311-355 | The next chunk of a stream moves the reader on that stream alone, and delivers a message exactly when the chunk is its last. |
| `ChunkRuns.PendingStep` | src/chunk.rs:311-355 | Taking one chunk of any interleaving leaves an interleaving of what remains. |
| `ChunkRuns.InterleavingRead` | src/chunk.rs:311-355 | For every interleaving of chunk sequences the reader delivers each message at its last chunk and nothing else. |
| `ChunkRuns.IndependentStreams` | src/chunk.rs:1125-1172 | For streams written independently on distinct csids and interleaved chunk by chunk: each csid delivers exactly its messages in order, and the overall order is that of the final chunks. |
| `ChunkRuns.CompletedByStream` | src/chunk.rs:551-697 | The chunks of a stream complete exactly the messages it was made of. |
| `ChunkRuns.StreamOctets` | src/chunk.rs:624-695 | The chunks that are interleaved are, end to end, the very octets the writer emits. |
| `ChunkAborts.AbortTouchesOne` | src/chunk.rs:294-303 | An abort clears the partial payload of one chunk stream: its header fields, every other chunk stream, the chunk size and the stream ahead are untouched. |
| `ChunkAborts.AbortedInterleavingRead` | src/chunk.rs:294-355 | However chunks of any number of streams and aborts of any of them alternate, each message is delivered exactly at its last chunk. |
| `ChunkAborts.StreamsSurviveAborts` | src/chunk.rs:294-355 | Over streams written independently on distinct csids, with any of them aborted any number of times or stopping: a stream that is not aborted itself and not cut short delivers exactly its messages. |
| `ChunkAborts.CallsDeliver` | src/chunk.rs:294-355 | The same through the calls: one read for each completed message, with aborts between reads. |
| `ChunkHeaders.BasicMeans` | src/chunk.rs:357-380 | Every spelling of a basic header, shortest or not, means its format and csid. |
| `ChunkHeaders.FullHeader` | src/chunk.rs:396-417 | The octets of a format 0 chunk, whoever wrote them and whatever was known or half received, begin a message with the time, length, type and stream they spell. |
| `ChunkHeaders.SameStreamHeader` | src/chunk.rs:419-441 | Format 1: the stream is kept, the step moves the time on modulo 2^32 and is remembered, a half-received message is dropped. |
| `ChunkHeaders.StepHeader` | src/chunk.rs:443-458 | Format 2: type and length are kept as well. |
| `ChunkHeaders.NoHeader` | src/chunk.rs:460-485 | Format 3: between messages one more like the last at the same step; within a message its continuation; a repeated 32-bit field is read and ignored. |
| `ChunkHeaders.UnknownStream` | src/chunk.rs:419-485 | On an unknown csid formats 1 to 3 are refused and nothing is remembered. |
| `ChunkDensity.DecodesIffFits` | src/chunk.rs:577-619 | A reader in step recovers the message from an encoding in a given format if and only if that format leaves out no field that differs; so the writer's candidates are all candidates there are. |
| `ChunkDensity.ExtBitInvariant` | src/chunk.rs:499-508 | After any run of the writer every chunk stream in use is primed, and its extended-timestamp bit is set exactly when its last delta is at least 0xFFFFFF. |
| `ChunkDensity.EncodingLength` | src/chunk.rs:624-695 | The length of a message in every format in closed form, with the extended field counted on every continuation chunk. |
| `ChunkDensity.ChosenIsShortestIff` | src/chunk.rs:577-619 | The chosen format gives the fewest octets among all formats that fit if and only if: when time goes back on the message stream, the step taken as a delta needs the extended field, the new time does not, and the message is not so like the one before and so short that a delta still pays. |
| `ChunkDensity.ChosenIsShortest` | src/chunk.rs:577-619 | In particular whenever time has not gone back on the message stream. |
| `ChunkDensity.RecoversIffFits` | src/chunk.rs:396-485 | What a reader recovers from each format, on a chunk stream in use and on one it does not know. |
| `ChunkDensity.DensestFormat` | src/chunk.rs:577-619 | After any run, for any next message: no format from which a reader in step would recover it is shorter than the one written, if and only if that condition holds. |
| `ChunkDensity.RolloverIsLonger` | src/chunk.rs:577-619 | After two messages at the last millisecond before the clock rolls over, the writer spends eight octets more than needed on the next one. |
| `ChunkDensity.StepBackIsDense` | src/chunk.rs:577-619 | A small step back behind a long message, where the full header is the shortest that fits. |
| `ChunkDensity.MismatchedBody` | src/chunk.rs:460-485 | A reader that misunderstood the header delivers a different message or none; used for the direction that rules formats out. |
| `ChunkStream.ChunkWriter.constructor` | src/chunk.rs:517-523 | A new writer has the default chunk size and no memory. |
| `ChunkStream.ChunkWriter.SetChunkSize` | src/chunk.rs:525-527 | The chunk size is clamped; memory and output are untouched. |
| `ChunkStream.ChunkWriter.WriteBasicHeader` | src/chunk.rs:699-719 | Appends the basic header, or refuses a csid out of range and appends nothing. |
| `ChunkStream.ChunkWriter.WriteHeaderFields` | src/chunk.rs:624-662 | Appends the fields of the chosen format. |
| `ChunkStream.ChunkWriter.WriteMessage` | src/chunk.rs:551-697 | Appends exactly the octets the model assigns to the message and commits exactly the memory it assigns; a csid out of range is refused, with nothing written and only an empty entry recorded for it. |
| `ChunkStream.ChunkReader.constructor` | src/chunk.rs:179-190 | A new reader over a stream. |
| `ChunkStream.ChunkReader.SetChunkSize` | src/chunk.rs:261-263 | The chunk size is clamped; nothing else changes. |
| `ChunkStream.ChunkReader.SetWindowAckSize` | src/chunk.rs:223-226 | A new window rebases the accounting. |
| `ChunkStream.ChunkReader.PollAck` | src/chunk.rs:240-254 | Reports and marks the count exactly when a full window is due. |
| `ChunkStream.ChunkReader.AbortPartial` | src/chunk.rs:294-303 | Drops the partial payload of one csid and says whether there was one. |
| `ChunkStream.ChunkReader.ReadExactCounted` | src/chunk.rs:194-198 | Takes octets and counts them modulo 2^32; a stream that ends early is drained and not counted. |
| `ChunkStream.ChunkReader.ReadBasic` | src/chunk.rs:357-380 | Reads the basic header as the model does, counting the octets. |
| `ChunkStream.ChunkReader.ReadExtendedCounted` | src/chunk.rs:396-417 | Reads the 32-bit field exactly when it is announced. |
| `ChunkStream.ChunkReader.ReadFmt0Header` | src/chunk.rs:396-417 | Updates the csid's memory as the model's format 0. |
| `ChunkStream.ChunkReader.ReadFmt1Header` | src/chunk.rs:419-441 | Format 1, with the error when the csid is unknown. |
| `ChunkStream.ChunkReader.ReadFmt2Header` | src/chunk.rs:443-458 | Format 2, likewise. |
| `ChunkStream.ChunkReader.ReadFmt3Header` | src/chunk.rs:460-485 | Format 3: a new message repeats the delta, a continuation does not. |
| `ChunkStream.ChunkReader.ReadHeader` | src/chunk.rs:311-355 | Dispatch on the format. |
| `ChunkStream.ChunkReader.ReadPayload` | src/chunk.rs:311-355 | Takes one chunk of payload and delivers the message when it is complete. |
| `ChunkStream.ChunkReader.ReadMessage` | src/chunk.rs:311-355 | Ends for every input, and agrees with the model's read on the result, all memories, the stream left over and the octet count, also when it fails. |
| `AckWindow.TellsNext` | src/chunk.rs:194-254 | The wrapping counters keep telling the true counts through arrivals, window changes and polls. |
| `AckWindow.DueIff` | src/chunk.rs:240-254 | The decision is the true one if and only if the octets since the last acknowledgement are not fewer than a window past one or more full turns of the 32-bit counter. |
| `AckWindow.DueForAnyWindowIff` | src/chunk.rs:240-254 | It is the true one for every window if and only if fewer than 2^32 octets arrived, or one short of a full turn. |
| `AckWindow.MissedWrap` | src/chunk.rs:240-254 | 2^32 octets since the last acknowledgement look like none: a concrete full window that goes unnoticed. |
| `AckWindow.RunInOrder` | src/chunk.rs:194-254 | Over any run the acknowledged ranges follow one another and each spans a full window. |
| `AckWindow.AckRun` | src/chunk.rs:194-254 | Over any run, however many octets arrive: every acknowledgement covers at least one full window of octets not covered before and reports the true count modulo 2^32, also across wraparound. |
| `AckWindow.PollsRightIff` | src/chunk.rs:194-254 | Over any run every poll decides as the true counts demand and leaves less than one window unacknowledged, if and only if no poll finds the count just past a turn. |
| `AckWindow.WithinOneWrapIsRight` | src/chunk.rs:194-254 | In particular when fewer than 2^32 octets arrive between marks. |
| `AckWindow.PollSettles` | src/chunk.rs:240-254 | After a poll less than one window is unacknowledged. |
| `AckWindow.WindowCountsFromHere` | src/chunk.rs:223-254 | A new window falls due exactly when as many octets have arrived since it was set; zero turns it off. |
| `Amf3Doubles.DoubleOfIntExact` | src/amf3.rs:891-905 | The sign, exponent and mantissa written for an integer spell exactly that integer. |
| `Amf3Model.U29RoundTrip` | src/amf3.rs:1113-1163 | Every 29-bit number is read back from each of the four lengths. |
| `Amf3RoundTrip.IntegerExact` | src/amf3.rs:891-905 | An integer comes back as an integer exactly when it fits 29 bits; beyond that it is written as a double. |
| `Amf3RoundTrip.TextExact` | src/amf3.rs:444-493 | Texts come back exactly when they are valid UTF-8 and fit their length field, whatever the tables hold. |
| `Amf3RoundTrip.ArrayExact` | src/amf3.rs:519-548 | Arrays, with the associative part in front. |
| `Amf3RoundTrip.ObjectExact` | src/amf3.rs:550-673 | Objects with sealed and dynamic members come back exactly when encodable; an externalizable object never does. |
| `Amf3RoundTrip.DictionaryExact` | src/amf3.rs:747-765 | Dictionaries. |
| `Amf3RoundTrip.Exact` | src/amf3.rs:884-1042 | Decoding an encoded value followed by any octets, under any tables, at any depth, yields that value and stops at its end if and only if every part of it has a representation (29-bit integers, lengths within U29, non-empty associative and dynamic names, no dynamic members without the flag, not externalizable) and it does not nest too deep. |
| `Amf3RoundTrip.BufferRoundTrip` | src/amf3.rs:784-792 | Decoding a concatenation of encoded values gives the same list if and only if each is encodable. |
| `Amf3Tables.DecodeStores` | src/amf3.rs:402-775 | While decoding anything, the three tables only grow and no completed slot changes; if a value adds objects, the first new slot ends up holding that value (an Xml as an XmlDocument). |
| `Amf3Tail.DecodeTail` | src/amf3.rs:402-440 | What the decoder leaves over is the end of what it was given. |
| `Amf3Trees.TreeDecodes` | src/amf3.rs:402-775 | Every tree of AMF3 octets, with references to strings, objects and traits anywhere, decodes whatever follows to the value it stands for, and adds to the tables exactly its literal strings and traits in the order met and its objects in the order they begin. |
| `Amf3References.Described` | src/amf3.rs:402-775 | Whatever decodes is such a tree: it spells exactly the octets consumed, and its additions are what the tables grew by; so the string table grows by exactly the non-empty literals met, in order. |
| `Amf3References.AcceptsTreesOnly` | src/amf3.rs:402-775 | The decoder accepts exactly the trees, with exactly their values and additions. |
| `Amf3References.StringReference` | src/amf3.rs:444-463 | The octets of a string reference with index i decode to the i-th string of the table, or are refused. |
| `Amf3References.ObjectReference` | src/amf3.rs:470-548 | The octets of an object reference with index i decode to the i-th object behind any object marker, and behind an XML marker to its text if it is XML; or are refused. |
| `Amf3References.TraitsReference` | src/amf3.rs:556-589 | An object whose header refers to traits i has the class, the sealed names and the dynamic flag of the i-th traits. |
| `Amf3References.MissingTraits` | src/amf3.rs:556-565 | A reference to traits that are not there is refused. |
| `Amf3References.StringsThenReference` | src/amf3.rs:784-792 | A packet of literal strings followed by a reference to index i ends in the i-th of them. |
| `Amf3RoundTrip.FlagsWritten` | src/amf3.rs:994-1040 | Vectors and dictionaries write their flag as 0 or 1. |
| `Amf3Codec.Decoder.constructor` | src/amf3.rs:354-362 | Empty tables, depth zero. |
| `Amf3Codec.Decoder.ResetTables` | src/amf3.rs:391-396 | Empties the tables. |
| `Amf3Codec.Decoder.ReadU29Loop` | src/amf3.rs:1113-1132 | The loop over at most four octets computes the model's U29. |
| `Amf3Codec.Decoder.ReadStringRef` | src/amf3.rs:444-463 | A reference or a literal; a literal is added unless empty. |
| `Amf3Codec.Decoder.ReadObjectString` | src/amf3.rs:470-493 | XML texts live in the object table. |
| `Amf3Codec.Decoder.DecodeTraits` | src/amf3.rs:550-589 | Traits by reference or in full. |
| `Amf3Codec.Decoder.DecodeValue` | src/amf3.rs:402-412 | Refines the model's decoder: same value, position and tables; the live depth is restored on success and failure. |
| `Amf3Codec.Decoder.DecodeInner` | src/amf3.rs:414-442 | Dispatch on the marker. |
| `Amf3Codec.Decoder.DecodeArray` | src/amf3.rs:519-548 | Reserves a slot, decodes the parts in loops, fills the slot. |
| `Amf3Codec.Decoder.DecodeObject` | src/amf3.rs:550-673 | The same for objects; externalizable classes are refused. |
| `Amf3Codec.Decoder.DecodeVectorObject` | src/amf3.rs:724-745 | The same for vectors of objects. |
| `Amf3Codec.Decoder.DecodeDictionary` | src/amf3.rs:747-765 | The same for dictionaries. |
| `Amf3Codec.Decoder.DecodeRest` | src/amf3.rs:784-792 | The loop over a packet. |
| `Amf3Codec.Decoder.DecodeSwitched` | src/amf3.rs:816-838 | The loop over a packet whose values may carry the switch marker. |
| `Amf3Codec.DecodeAllValues` | src/amf3.rs:784-792 | For a list of values written out in full the loop returns that list if and only if each is encodable. |
| `Amf3Codec.Encoder.EncodeValue` | src/amf3.rs:884-1042 | Appends exactly the model's encoding, part by part. |
| `Amf3Codec.Encoder.PushU29` | src/amf3.rs:1146-1166 | Appends the U29 form. |
| `AmfFraming.FramingsAgree` | src/amf3.rs:816-873 | The selector framing and the framing with switch markers of any encodable list decode to the same list, its element-wise conversion; so does the bare framing when no value is a Dictionary and the first is not Undefined. |
| `AmfFraming.BareIsAmbiguous` | src/amf3.rs:840-864 | Concrete lists for which the bare framing is misread: an Undefined in front, and a Dictionary. |
| `AmfFraming.BareExact` | src/amf3.rs:816-838 | Read as a data message, the bare framing gives the list back if and only if it holds no Dictionary at top level. |
| `AmfFraming.BareMisread` | src/amf3.rs:796-832 | With a Dictionary at top level anywhere in the list, whatever is decoded is not that list. |
| `AmfFraming.SelectedRead` | src/amf.rs:237-249 | Values behind switch markers, read by the AMF0 loop. |
| `AmfFraming.SwitchedRead` | src/amf3.rs:816-838 | The same values read by the AMF3 loop, sharing tables. |
| `AmfFraming.SelectorSays` | src/amf3.rs:865-873 | Behind a leading zero everything is read as AMF0, otherwise as AMF3 and converted. |
| `AmfFraming.DanglingSwitch` | src/amf3.rs:825-833 | A switch marker at the end is refused. |
| `Amf0View.ScalarSays` | src/amf3.rs:218-231 | Scalars keep their value as AMF0; an integer becomes the double that spells it, a date has zone zero. |
| `Amf0View.ArraySays` | src/amf3.rs:232-246 | An array becomes keyed: its dense part under 0, 1, 2 and so on, then its named part, nothing lost. |
| `Amf0View.ObjectSays` | src/amf3.rs:247-256 | An object becomes its sealed members, then its dynamic ones, in order. |
| `Amf0View.ListSays` | src/amf3.rs:257-271 | Byte arrays and vectors become arrays of as many elements, in order. |
| `Amf0View.DictionarySays` | src/amf3.rs:272-281 | A dictionary becomes keyed by the texts of its keys, in order. |
| `Amf0View.KeysSay` | src/amf3.rs:286-300 | The text of each kind of key. |
| `Amf0View.ShownSpells` | src/amf3.rs:286-300 | An integer is shown as the decimal digits that spell it. |
| `Text.ValidIff` | src/amf.rs:402-415 | A text is accepted exactly when its octets spell a list of Unicode characters, each in the shortest form of one to four octets and none a surrogate. |
| `Amf0RoundTrip.PropsExact` | src/amf.rs:312-337 | Keyed values come back exactly when no key is empty, longer than 65535 octets or invalid UTF-8. |
| `Amf0RoundTrip.TypedObjectExact` | src/amf.rs:256-277 | Typed objects. |
| `Amf0RoundTrip.Exact` | src/amf.rs:421-493 | Decoding an encoded value followed by any octets, under any reference table, at any depth, yields that value and stops at its end if and only if it is well formed and does not nest beyond the room left. |
| `Amf0RoundTrip.BufferRoundTrip` | src/amf.rs:302-310 | Decoding a concatenation of encoded values gives the same list if and only if all are well formed and nest at most 64 deep. |
| `Amf0RoundTrip.WrittenProperly` | src/amf.rs:421-493 | The count of a keyed array and the octet of a boolean, which the decoder does not check, are written as the number of keys and as 0 or 1. |
| `Amf0Grammar.TreeDecodes` | src/amf.rs:166-337 | Every tree of AMF0 octets without the switch marker, with references anywhere, long strings for short texts and any keyed-array count, decodes whatever follows to the value it stands for and adds its slots to the table. |
| `Amf0Grammar.ReferenceDecodes` | src/amf.rs:278-290 | The octets of a reference decode to that slot, or are refused. |
| `Amf0References.Described` | src/amf.rs:166-292 | Whatever decodes is described by a tree that spells exactly the octets consumed and whose slots, in preorder, are exactly what the table grew by. |
| `Amf0References.LeafOctets` | src/amf.rs:166-292 | What is taken for a value without parts is exactly the octets of one such value, or of one AMF3 value behind the switch marker; so no container marker hides in it. |
| `Amf0References.OneSlotPerMarker` | src/amf.rs:181-230 | The table grows by one slot for every literal container marker met while decoding. |
| `Amf0References.TableInPreorder` | src/amf.rs:166-292 | While decoding any buffer the table only grows, its length is the number of container markers consumed, and slot i is that of the i-th container in preorder, holding its decoded value. |
| `Amf0References.RefsSeeTable` | src/amf.rs:278-290 | A reference inside a value sees the table as it stands at that point. |
| `Amf0References.OpenContainerIsHollow` | src/amf.rs:181-199 | A reference to a container still open yields its empty placeholder. |
| `Amf0References.ClosedContainerIsWhole` | src/amf.rs:200-230 | A reference to a closed container yields exactly its decoded value. |
| `Amf0References.DecodedIsWellFormed` | src/amf.rs:166-292 | Without the switch marker, whatever decodes is well formed. |
| `Amf0References.PacketDescribed` | src/amf.rs:302-310 | The same tree for a whole packet, whose values share one table. |
| `Amf0References.ExpansionKeepsMeaning` | src/amf.rs:302-310 | For a buffer without the switch marker that decodes: writing the values out in full and decoding again gives the same values if and only if their expanded nesting is at most 64. |
| `Amf0References.ExpansionCanFail` | src/amf.rs:18-24 | A concrete packet that decodes, and whose expansion does not. |
| `Amf0Codec.Decoder.DecodeAtDepth` | src/amf.rs:166-292 | The decoder that moves a position and fills its table in place refines the model: same value, position and table. |
| `Amf0Codec.Decoder.ReadObjectBody` | src/amf.rs:312-337 | The loop over keyed values. |
| `Amf0Codec.Decoder.DecodeStrictArray` | src/amf.rs:214-226 | Reserves a slot, decodes the items in a loop, fills the slot. |
| `Amf0Codec.Decoder.DecodeObject` | src/amf.rs:181-197 | The same for objects. |
| `Amf0Codec.Decoder.DecodeTypedObject` | src/amf.rs:256-277 | The same for typed objects. |
| `Amf0Codec.Decoder.DecodeAmf3` | src/amf.rs:237-249 | Hands the value behind the switch marker to a fresh AMF3 decoder; the table is left alone. |
| `Amf0Codec.Decoder.DecodeReference` | src/amf.rs:278-290 | A slot of the table, or an error. |
| `Amf0Codec.Decoder.DecodeRest` | src/amf.rs:302-310 | The loop over a packet. |
| `Amf0Codec.DecodeAllValues` | src/amf.rs:302-310 | For a list of values written out in full the loop returns that list if and only if all are encodable. |
| `Amf0Codec.Encoder.EncodeValue` | src/amf.rs:421-482 | Appends exactly the model's encoding, part by part. |
| `Amf0Codec.Encoder.WriteObjectBody` | src/amf.rs:484-493 | Appends the keyed values and the end marker. |
| `FlvRoundTrip.ChainExact` | src/flv.rs:187-273 | A modifier chain and the packet type behind it come back exactly when every modifier has 1 to 65536 octets and a four-bit kind. |
| `FlvRoundTrip.PreludeExact` | src/flv.rs:2107-2200 | The prelude (chain, multitrack mode, shared FourCC) comes back exactly when well formed. |
| `FlvRoundTrip.TracksExact` | src/flv.rs:1393-1495 | A track list comes back exactly when it is not empty, OneTrack mode has one track, FourCCs stand where the mode wants them and sized bodies are below 2^24 octets. |
| `FlvRoundTrip.CtsExact` | src/flv.rs:2084-2092 | A composition time comes back exactly when it fits 24 signed bits, or is zero where none is carried. |
| `FlvRoundTrip.VideoExact` | src/flv.rs:2107-2418 | For every video tag: parsing what it is built to gives the tag back if and only if it is well formed. |
| `FlvRoundTrip.AudioExact` | src/flv.rs:2757-2979 | The same for audio tags. |
| `FlvOctets.TimedFrame` | src/flv.rs:2233-2262 | Coded frames whose FourCC is "hvc1", "avc1" or "vvc1" carry a signed 24-bit composition time behind the FourCC, for every frame type but commands, every time and body. |
| `FlvOctets.UntimedFrame` | src/flv.rs:2233-2262 | For every other FourCC or packet type, and for command frames, the time is zero and everything behind the FourCC is the body. |
| `FlvOctets.AvcFrame` | src/flv.rs:2283-2301 | A legacy AVC frame: packet type, time, body. |
| `FlvOctets.LegacyFrame` | src/flv.rs:2263-2317 | Any other legacy frame is its body. |
| `FlvOctets.ModifiedVideo` | src/flv.rs:187-237 | A modifier in front of a video message, its size in either form, adds itself to the tag of what follows and changes nothing else. |
| `FlvOctets.ModifiedAudio` | src/flv.rs:187-237 | The same for audio. |
| `FlvOctets.TracksVideo` | src/flv.rs:1393-1464 | The octets of a multitrack video message, octet by octet in each mode, mean its mode, packet type, shared FourCC and tracks. |
| `FlvOctets.TracksAudio` | src/flv.rs:1393-1464 | The same for audio. |
| `FlvOctets.ExAudioFrame` | src/flv.rs:2757-2870 | An enhanced audio message: packet type, FourCC, body. |
| `FlvOctets.LegacySound` | src/flv.rs:2871-2907 | A legacy audio message: format, rate, size and channels in one octet, a packet type for format 10 only, body. |
| `FlvOctets.VideoPacketDefault` | src/flv.rs:2333-2336 | A tag without packet type is built as coded frames. |
| `FlvOctets.VideoTypeDefault` | src/flv.rs:2395-2412 | A legacy AVC tag without packet type is built as type 1. |
| `FlvOctets.AudioTypeDefault` | src/flv.rs:2968-2976 | A legacy AAC tag without packet type is built as type 1. |
| `FlvOctets.TimeWraps` | src/flv.rs:2390-2394 | A composition time is built by its low 24 bits. |
| `FlvCanonical.ChainBack` | src/flv.rs:187-273 | Rebuilding a parsed chain gives its octets back exactly when every size was spelled minimally, and fewer octets otherwise. |
| `FlvCanonical.VideoBack` | src/flv.rs:2107-2418 | Whatever parses as a video tag is well formed and rebuilds to the same octets, unless a modifier spells a size of 255 or less in the 16-bit form; then the rebuilt octets are fewer and parse to the same tag. |
| `FlvCanonical.AudioBack` | src/flv.rs:2757-2979 | The same for audio. |
| `FlvMultitrack.PlanMultitrack` | src/flv.rs:1512-1585 | A plan is made only of tags that fit it: one inner packet type, no nesting, no modifiers, a FourCC each, shared unless the mode has one per track. |
| `FlvMultitrack.VideoTracksExact` | src/flv.rs:1980-2078 | Any list of video tags that can be multiplexed, given any chain of modifiers, comes back as the same list of track ids and tags, composition times included, from its octets if and only if each tag is well formed and its sized body is below 2^24 octets; in every mode. |
| `FlvMultitrack.MuxVideoIff` | src/flv.rs:1512-2045 | Exactly which video tags can share a message in a mode. |
| `FlvMultitrack.MuxedVideoSays` | src/flv.rs:2046-2078 | What the message says: the frame and packet type shared, the FourCC shared but in mode 2, each track with its own number. |
| `FlvMultitrack.MuxAudioIff` | src/flv.rs:1512-1585 | The same for audio tags. |
| `FlvMultitrack.MuxedAudioSays` | src/flv.rs:2683-2722 | The same for audio messages. |
| `FlvMultitrack.AudioTracksExact` | src/flv.rs:2645-2722 | The same for audio. |
| `FlvMultitrack.DemuxVideoIff` | src/flv.rs:1980-2010 | Only the tracks made by multiplexing a list demultiplex to that list. |
| `FlvMultitrack.DemuxAudioIff` | src/flv.rs:2645-2672 | The same for audio. |
| `FlvMultitrack.SoloVideoParsed` | src/flv.rs:1993-2008 | A track on its own parses as a tag exactly when it is what that tag is built to. |
| `FlvCodec.ParseModExChain` | src/flv.rs:187-237 | The loop along the buffer computes the model's chain and position. |
| `FlvCodec.BuildModExChain` | src/flv.rs:246-273 | The loop appends the model's chain. |
| `FlvCodec.ParseMultitrack` | src/flv.rs:1393-1464 | The loop over tracks. |
| `FlvCodec.EncodeMultitrack` | src/flv.rs:1475-1495 | The loop that writes tracks; OneTrack mode stops after the first. |
| `FlvCodec.PlanTracks` | src/flv.rs:1512-1585 | The checks in the order the source makes them come to the same plan. |
| `FlvCodec.GatherVideo` | src/flv.rs:2030-2078 | Multiplexing; what comes back over the wire is the list exactly when it is well formed. |
| `FlvCodec.GatherAudio` | src/flv.rs:2683-2722 | The same for audio. |
| `FlvCodec.TakeOutVideo` | src/flv.rs:1980-2012 | The loop over tracks, stopping at the first malformed one. |
| `FlvCodec.TakeOutAudio` | src/flv.rs:2645-2672 | The same for audio. |
| `HandshakeModel.DigestOffset` | src/handshake.rs:268-276 | The digest always lies wholly inside its block, behind the four octets that place it. |
| `HandshakeModel.InstalledVerifies` | src/handshake.rs:305-330 | Installing a digest changes only its own 32 octets, and the packet then verifies under that schema with that digest, for any keyed digest. |
| `HandshakeModel.InstalledFound` | src/handshake.rs:337-347 | A digest is always found in a packet that carries one, under the schema it was installed with unless schema 0 verifies a schema-1 packet by chance. |
| `HandshakeModel.ResponseVerifies` | src/handshake.rs:354-378 | A response verifies exactly when it chains to the same octets as the digest it is checked against. |
| `HandshakeModel.SimpleIsSimple` | src/handshake.rs:462-474 | A version of zero is always answered with the plain exchange. |
| `HandshakeModel.SidesAgree` | src/handshake.rs:401-518 | Both sides settle on the same flavour for any keyed digest; each verifies the other's response exactly when the responses for the digest found and the digest installed coincide, in particular unless schema 0 verifies a schema-1 packet by chance. |
| `HandshakeModel.PublishedSidesAgree` | src/handshake.rs:160-215 | With the published keys, each of which begins with its label: the same flavour, and unless schema 0 verifies by chance the same schema with both responses verified. |
| `HandshakeModel.PublishedLabels` | src/handshake.rs:170-215 | The published labels, as text. |
| `HandshakeDigests.DigestCovers` | src/handshake.rs:294-314 | The keyed digest is taken of the 1504 octets around the digest, on both sides of it. |
| `HandshakeDigests.MessageDetermines` | src/handshake.rs:294-299 | Two packets have the same hashed message exactly when they agree everywhere but in the 32 digest octets. |
| `HandshakeDigests.AlteredFails` | src/handshake.rs:319-330 | A packet that verifies and is altered in any octet but the digest and the four that place it verifies no more, unless the keyed digest takes two different messages to one value. |
| `HandshakeDigests.PlaceMoves` | src/handshake.rs:268-276 | Raising any of the four placing octets by one moves the digest on by one, modulo 728. |
| `HandshakeDigests.PlaceAtZero` | src/handshake.rs:268-276 | With four zero octets the digest follows them directly, at 776 or 12. |
| `HandshakeDigests.PlaceDependsOn` | src/handshake.rs:268-276 | The place depends on those four octets only. |
| `HandshakeDigests.FindIff` | src/handshake.rs:337-347 | Schema 0 is tried first; nothing is found exactly when neither verifies. |
| `HandshakeDigests.FirstPacketKeeps` | src/handshake.rs:382-394 | The version takes octets 4 to 7; time and filler are kept. |
| `HandshakeDigests.VersionsShown` | src/handshake.rs:401-502 | The versions that digest clients, digest servers and the plain exchange show. |
| `HandshakeDigests.ResponseShape` | src/handshake.rs:349-363 | A response leaves its first 1504 octets alone and ends in their keyed digest, under a key that chains from the peer's digest. |
| `HandshakeDigests.FallsBackToEcho` | src/handshake.rs:440-488 | Where no digest is found either side falls back to the echo of what it received. |
| `HandshakeRuns.MoveKeeps` | src/handshake.rs:58-518 | Every single step of either side, moving any number of octets, leads from one state determined by the four counts to the next. |
| `HandshakeRuns.EveryRunFinishes` | src/handshake.rs:58-518 | For every interleaving over bounded channels of which one can hold a packet: the run is finite and can only stop with both sides finished, each having consumed exactly the 3073 octets the other sent, with nothing left under way and the same flavour. |
| `HandshakeRuns.DeadlockIff` | src/handshake.rs:58-518 | A deadlock is reachable if and only if neither direction can hold a whole 1536-octet packet. |
| `HandshakeRuns.VersionChecked` | src/handshake.rs:66-69 | Either side stops at once at a first octet other than 3. |
| `HandshakeRuns.FirstMoves` | src/handshake.rs:58-64 | The client speaks first; the server answers only once it has a version octet and a packet. |
| `Handshake.InstallDigestInPlace` | src/handshake.rs:305-314 | Overwrites the packet in place with the digest, which then verifies. |
| `Handshake.InstallResponseInPlace` | src/handshake.rs:354-363 | Overwrites the last 32 octets in place; the response verifies. |
| `Handshake.BuildDigestPacket` | src/handshake.rs:382-394 | Time, version and filler with the digest installed; the version survives. |
| `Handshake.ClientHandshake` | src/handshake.rs:58-80 | For any input: sends exactly what the client program sends, consumes what it consumes, and stops where and how it stops. |
| `Handshake.ClientHandshakeDigest` | src/handshake.rs:401-449 | The same for the digest client, with the fallback to the echo exchange. |
| `Handshake.ServerHandshakeNegotiated` | src/handshake.rs:462-518 | The same for the server that detects the flavour. |
| `AdapterModel.UnwrapsTimeline` | src/adapter.rs:164-177 | A timeline is recovered from its low 32 bits if and only if it starts in [0, 2^32) and every step lies in [-2^31, 2^31). |
| `AdapterStreams.IndexInjective` | src/adapter.rs:215-232 | No two (kind, track) pairs share a stream index. |
| `AdapterStreams.PlacedAllKeeps` | src/adapter.rs:266-312 | The packets of one message are each on the stream of their track, which is in the table and stays there; the table stays sorted without duplicates. |
| `AdapterStreams.AfterKeeps` | src/adapter.rs:241-312 | Every event keeps these invariants, and what is known only grows. |
| `AdapterStreams.RunKeeps` | src/adapter.rs:241-312 | Over every run stream indices are unique, sorted and stable, parameters are fixed by the first tag, and every track keeps its index. |
| `AdapterStreams.FewTracks` | src/adapter.rs:215-232 | There are at most 510 streams besides the default ones, so indices never overflow. |
| `AdapterTimeline.PacketTimes` | src/adapter.rs:813-935 | The packet of a well-formed tag decodes at the message time and is presented later by exactly its composition time and nanosecond offsets, also where the code does not look for a composition time. |
| `AdapterTimeline.OffsetsAdd` | src/flv.rs:1918-1923 | Nanosecond offsets of concatenated modifier chains add up, saturating at 32 bits. |
| `AdapterTimeline.DeliversTrueTimes` | src/adapter.rs:164-312 | A session whose true times start in [0, 2^32) and move by less than half a turn, however long, delivers exactly the packets those true times call for. |
| `AdapterPackets.VideoPacketSays` | src/adapter.rs:882-935 | A video packet carries the body of its tag; key frames and headers are exactly those of the tags named; it decodes at the message time and is presented its composition time and offsets later. |
| `AdapterPackets.AudioPacketSays` | src/adapter.rs:813-855 | An audio packet carries the body of its tag, behind the packet type for legacy AAC only; headers are exactly those of the tags named. |
| `AdapterPackets.MessageToPacket` | src/adapter.rs:266-312 | For every kind of single-track message, from its octets: exactly the packet it becomes, field by field. |
| `AdapterPackets.DataIsTheEnd` | src/adapter.rs:813-935 | The data of a packet are the end of its message. |
| `AdapterPackets.SessionToPackets` | src/adapter.rs:164-312 | A session of any such messages, received at 32-bit times that follow a timeline, is exactly its packets at the true times. |
| `AdapterPackets.PlayedBack` | src/adapter.rs:634-653 | Asking a source for as many packets as there were messages gives exactly these, and then the end. |
| `AdapterPackets.SplitSays` | src/adapter.rs:266-312 | A message for several tracks is its demultiplexed tracks with their own numbers, in order, and its offset counts for each. |
| `AdapterPackets.GatheredVideoDelivers` | src/adapter.rs:292-312 | Tags gathered into one message, modified, sent and received become one packet each: on the stream of its track, at the time of the message, with the message's offset. |
| `AdapterPackets.OneOffset` | src/flv.rs:158-163 | Which modifiers count as an offset, and how much. |
| `AdapterPackets.OtherEvents` | src/adapter.rs:503-546 | What every other event does: a broken-off read is answered as the end, any other failure as an error, neither changing anything; metadata is kept in order; the end is final. |
| `AdapterPackets.MalformedFrame` | src/adapter.rs:503-530 | A frame with a malformed track is reported and moves the clock only. |
| `AdapterPackets.PlacedSays` | src/adapter.rs:215-257 | Default tracks have streams 0 and 1, a new track the next number from 2 on; the first tag on a stream fixes its parameters. |
| `Adapter.PacketSource.constructor` | src/adapter.rs:580-591 | A source without probing owes exactly the replies its events give rise to. |
| `Adapter.PacketSource.UnwrapMs` | src/adapter.rs:164-177 | One step of the timeline. |
| `Adapter.PacketSource.TrackIndex` | src/adapter.rs:215-232 | The search loop finds a track's stream or appends a new one. |
| `Adapter.PacketSource.EnsureStream` | src/adapter.rs:241-257 | Adds a stream unless present; the table stays sorted. |
| `Adapter.PacketSource.MediaPackets` | src/adapter.rs:266-312 | The loop over tracks yields the model's packets and registrations, or fails without side effect on a malformed track. |
| `Adapter.PacketSource.SteadyNext` | src/adapter.rs:503-546 | Reads on until an event yields a reply; keeps exactly the replies still owed. |
| `Adapter.PacketSource.NextPacket` | src/adapter.rs:634-653 | Gives the first reply owed and keeps the others; once none is owed it answers Eof, and forever. |
| `Adapter.PacketSource.Ask` | src/adapter.rs:634-653 | Any number of requests: the replies owed, in order, then Eof forever, and the final tables are those of the whole run. |
| `Adapter.PacketSource.Absorb` | src/adapter.rs:446-480 | One event taken in while probing. |
| `Adapter.RunSplits` | src/adapter.rs:418-494 | Running over a prefix first changes nothing about the rest: what probing relies on. |
| `Adapter.TakesInOnce` | src/adapter.rs:418-494 | How many events probing takes in is determined by the events. |
| `Adapter.OpenProbed` | src/adapter.rs:418-494 | Probing takes in events until both kinds of media were seen, at most 32, and leaves exactly the later ones unread; it fails if and only if the event that ends it is a malformed message or a failed read; otherwise the source owes exactly the replies of the whole session, less one read that timed out. |
| `Adapter.ProbingIsTransparent` | src/adapter.rs:418-653 | For every event sequence whose probing is not ended by an error, and any number of requests, the probed source and the plain one reply alike, and when nothing is owed they have the same clock, tracks, streams and metadata. |
| `Adapter.TransparentIff` | src/adapter.rs:418-653 | A source that opens replies like the plain one for any number of requests if and only if no read timed out while probing. |
| `FlvFrame.FrameRead` | src/flv_file.rs:157-194 | A frame is read back with its kind, 32-bit time and body, and its back pointer matches. |
| `FlvFrame.TimeRead` | src/flv_file.rs:660-664 | The split time field carries all 32 bits. |
| `FlvFileModel.ScriptExact` | src/flv_file.rs:762-784 | A name and a value come back exactly when both are encodable, whatever follows them. |
| `FlvFileModel.ScriptNeedsName` | src/flv_file.rs:762-773 | A body that begins with anything but a string is no script. |
| `FlvFileModel.PreambleOctets` | src/flv_file.rs:138-147 | The front of a file, octet by octet. |
| `FlvFileModel.PaddedPreamble` | src/flv_file.rs:547-589 | A longer header is skipped, and of its flags bits 2 and 0 count. |
| `FlvFileModel.PreambleRefused` | src/flv_file.rs:535-566 | Another signature or version, or a header size below nine, is refused. |
| `FlvFileModel.KindsSay` | src/flv_file.rs:655-745 | What each kind octet means, the filter bit and the reserved bits included. |
| `FlvFileModel.BadTagStops` | src/flv_file.rs:664-695 | A stream id other than zero or a wrong back pointer stops the reader. |
| `FlvFileModel.CutOff` | src/flv_file.rs:643-690 | A tag cut off anywhere is a failure that leaves nothing, and only a complete header and body count as read. |
| `FlvFileModel.CutFileFails` | src/flv_file.rs:643-690 | A file cut off inside a tag is not read as a shorter file. |
| `FlvFrame.HeaderOctets` | src/flv_file.rs:157-194 | A tag header, octet by octet. |
| `FlvFrame.FrameMeans` | src/aggregate.rs:112-150 | A frame is read whatever its stream id, if and only if its back pointer is its size. |
| `FlvFileModel.ItemExact` | src/flv_file.rs:700-745 | A body is read as the tag it was written for if and only if that tag has a place in a file. |
| `FlvFileModel.FramingRead` | src/flv_file.rs:625-745 | What the reader makes of any written tag, including the refusal of one larger than its cap; the back pointer check never fires. |
| `FlvFileModel.ItemsExact` | src/flv_file.rs:750-756 | The tags of a file come back in order up to a clean end if and only if each has a place in a file and is not above the cap. |
| `FlvFileModel.PreambleRead` | src/flv_file.rs:535-589 | The header and the first back pointer are read back. |
| `FlvFile.FlvWriter.constructor` | src/flv_file.rs:229-241 | Header, zero back pointer and counters. |
| `FlvFile.FlvWriter.WritePayload` | src/flv_file.rs:339-353 | Appends exactly one frame and counts it, or refuses an overlong body or a finished writer and changes nothing. |
| `FlvFile.FlvWriter.WriteVideoTag` | src/flv_file.rs:274-276 | One video tag more in the file. |
| `FlvFile.FlvWriter.WriteAudioTag` | src/flv_file.rs:281-283 | One audio tag more. |
| `FlvFile.FlvWriter.WriteScriptData` | src/flv_file.rs:296-306 | One script tag more. |
| `FlvFile.FlvWriter.WriteRawTag` | src/flv_file.rs:312-319 | One tag of any kind more. |
| `FlvFile.FlvWriter.WriteEncryptedTag` | src/flv_file.rs:327-337 | One encrypted tag more, with the filter bit set. |
| `FlvFile.FlvWriter.Finish` | src/flv_file.rs:358-364 | Ends writing; the file is what was written. |
| `FlvFile.FlvReader.ReadTag` | src/flv_file.rs:625-745 | The next tag as in the model, with the stream left over and the octet count, also when it fails; a clean end is remembered. |
| `FlvFile.FlvReader.ReadAll` | src/flv_file.rs:750-756 | All tags up to the end; on success everything was consumed and counted. At the end already, there are none. |
| `FlvFile.Open` | src/flv_file.rs:535-589 | Opens a file exactly when its header is acceptable; longer headers are skipped. |
| `FlvFile.WrittenReadsBack` | src/flv_file.rs:229-756 | What a writer wrote reads back as the same tags if and only if each has a place in a file, and then bytes read equal bytes written. |
| `AggregateModel.ParseInvertsBuild` | src/aggregate.rs:88-237 | Unpacking what was packed gives the same messages at the same times, on the aggregate's stream. |
| `AggregateModel.KeepsGaps` | src/aggregate.rs:148-170 | Whatever unpacks starts on the aggregate's time and keeps all gaps modulo 2^32. |
| `AggregateModel.Stable` | src/aggregate.rs:88-237 | Repacking and unpacking again changes nothing more, and the packed octets are as many. |
| `AggregateModel.UnpacksForeign` | src/aggregate.rs:88-178 | Whoever packed it, an aggregate is its frames: kind and body kept, on the aggregate's stream whatever their own, at times moved so that the first falls on the aggregate's. |
| `AggregateModel.Refuses` | src/aggregate.rs:88-150 | Other message types, wrong back pointers and cut-off frames are refused. |
| `AggregateModel.BuildIff` | src/aggregate.rs:189-212 | Exactly what can be packed. |
| `AggregateModel.BuiltSays` | src/aggregate.rs:189-237 | Type, stream and time of what is packed. |
| `AggregateModel.FramesRead` | src/aggregate.rs:88-178 | The frames of a packed body are read back. |
| `Aggregate.ParseAggregate` | src/aggregate.rs:88-178 | The loop that latches the offset at the first message computes the model's list. |
| `Aggregate.BuildAggregate` | src/aggregate.rs:189-237 | The loop packs what can be packed and refuses an overlong part or body; what it packs unpacks to the same. |

## Left out

- TCP connect, timeouts, shutdown, the connection set-up of client, player and server, and URL parsing:
  plumbing around the protocol.
- I/O errors other than the end of a stream; a failed write.
- SHA-256 and HMAC (`src/hmac.rs`): the keyed digest is an arbitrary function.
- The random filler and the clock of the handshake: arbitrary packets instead. The key block of a
  handshake packet (`key_offset`) is not used by either side.
- Amf3Codec.Decoder.DecodeObject: is modelled without handlers for externalizable classes, so these are refused; a
  handler is a function of the caller's that says how long the body of a class is.
- AmfFraming.FramingsAgree: for the bare framing it is one way; the exact condition is proved for the
  list of AMF 3 values (`AmfFraming.BareExact`). After conversion to AMF 0 different values can become
  equal, and a leading Undefined hands the rest to another decoder, so no simple condition is exact there.
- Amf0Model.ToAmf0: does not fix how a double is printed when it serves as a key; that is a parameter.
- Adapter.PacketSource.EnsureStream: inserts in order where the program appends and sorts.
- Metadata events carry their flattened entries; printing of scalars is not modelled. Codec parameters are
  represented by the tag that fixed them; the tables that map codec ids to names are not modelled.
- The second packet source, over a player, repeats the first line by line and is covered by the same model.
- The encryption envelope of FLV files (`src/flv_crypt.rs`): an arbitrary condition on the body; the filter bit
  and the framing are modelled.
- Error texts. Where a caller can tell errors apart (chunk stream, handshake versions, end of input) they are
  distinguished; elsewhere there is one failure.
- Colour, track and channel descriptors, `onMetaData`, shared objects: field-by-field lifting.
- Overflow of 64-bit counters and nanosecond times.
- The headers of tags (`src/flv.rs`), which are read without loops, and the conversion of AMF 3 values to AMF 0
  are modelled as functions only.
