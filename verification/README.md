# Models of the vendored transport code

Two vendored libraries carry the hard logic of this application: BoringSSL's handshake transports and
the nanopb codec. The files here model five of their components and prove properties of the models.
Check the whole project with `dafny verify dfyconfig.toml` (Dafny 4.11).

**DTLS handshake transport.** A sender cuts handshake messages into fragments, packs them into packets
and retransmits whole flights; a receiver reassembles them in a ring of partial messages.
`DtlsMessage` holds headers, fragments and partial messages; `DtlsFragment` the message buffer with its
bitmap, changed in place; `DtlsReceive` the ring; `DtlsReplay` the replay window; `DtlsRecord` the record
layer with its numbers and epochs; `DtlsSend` the flight, its cursor and its packets. `DtlsTransport`
puts sender, a network that loses, repeats and reorders, and receiver with its record layer together as one
state machine.
Each class is proved against functions on values, and the machine is made of the same functions.

**nanopb.** `PbTypes` has field tables as finite trees and structs as abstract values, `PbIter` the cyclic
iterator. `PbVarint`, `PbEncode` and `PbDecode` say what is written and read; `PbEncodeStream` and
`PbDecodeStream` are the stream routines, with their loops and buffers, proved to do that. `PbRoundTrip`
and `PbMerge` prove what the format promises about it, `PbSkip` what a peer that does not know the fields makes
of it, `PbFits` what any input at all may leave in memory, and `PbComplete` which inputs leave something out.

**TLS client handshake.** `HandshakeLog` records what happens, `HandshakeFlow` the flow of messages that a
handshake must follow, and `ClientHandshake` the 21 states, the driver loop and the loop that suspends and
resumes it. Every step's answers from parsing, cryptography and callbacks come through an environment,
afresh for each step, with nothing assumed of them.

**TLS handshake and application data.** `TlsWrite` has the pending flight, the write buffer and the retried
application write over a transport that takes part of what it is given; `TlsRead` the buffer that records
join and messages leave.

**Reference counts.** `Refcount` has the locked version, the compare-and-swap loops, and all threads at once
as steps of single atomic operations.

`Bytes` has machine words and byte order. Words are natural numbers with their widths written out; bit
operations are defined bit by bit, and only the reassembly bitmap uses bit-vectors.

`Ssl` has what the transports share.

Where a property is false of the code the exact condition is proved instead. Merging by concatenation
fails exactly after an input that stops at a zero tag, which the decoder takes for the end of a message
(`PbMerge.ConcatenationIsMerge`, `PbMerge.ZeroTagStopsMerge`). Record numbers repeat exactly when a record is
sealed at a counter behind what one of its epoch number has already counted to (`DtlsRecord.NumbersRepeatExactly`);
until the 16-bit epoch wraps, that is a counter that has run out (`DtlsRecord.UniqueUntilSealedAgain`,
`DtlsRecord.WrapRepeatsANumber`). The nanopb round trip loses exactly the fixed-count arrays inside has-less
submessages whose data the encoder takes for a count of zero (`PbRoundTrip.DecodeInvertsEncode`,
`PbRoundTrip.CountMistaken`).
A fragment exactly one flight ahead is an error although those further ahead are ignored, against the
comment beside the code (`DtlsTransport.RefusedExactly`). A failed call of `ssl3_write_app_data` loses its place
in the buffer exactly when it is given less than was already written (`TlsWrite.WritePath.WriteAppData`).

## Model

| member | source | states |
|---|---|---|
| DtlsTransport.HandsUpWhatWasHashed | onMap/Pods/BoringSSL-GRPC/ssl/d1_both.cc:297-438 | End to end: after any run of additions, flushes, retransmissions at any MTU, deliveries of any record ever sent, in any order and number and each through the record layer, ChangeCipherSpecs taken, and changes of keys, the messages handed up are the sender's first ones, each once, in sequence order, byte for byte as hashed (section 4.2.6 of RFC 6347), and the receiver's transcript is a prefix of the sender's |
| DtlsTransport.StepKeepsInv | onMap/Pods/BoringSSL-GRPC/ssl/d1_both.cc:265-594 | Every step keeps the invariant behind it: each partial message on the ring agrees with the hashed message of its number in type, length and every byte received; nothing hashed or handed up is ever taken back |
| DtlsTransport.EpochChanges | onMap/Pods/BoringSSL-GRPC/ssl/d1_both.cc:475-490 | From any state in order with nothing left over: a ChangeCipherSpec that gets through the record layer keeps the read keys as they are until it is taken, and once it is taken they change, with an empty window |
| DtlsTransport.NothingCrosses | onMap/Pods/BoringSSL-GRPC/ssl/dtls_method.cc:81-92 | When the read keys change, no ChangeCipherSpec is flagged, and no message and no part of one is left on the ring but the one handed up |
| DtlsTransport.DeliverKeepsRing | onMap/Pods/BoringSSL-GRPC/ssl/d1_both.cc:343-405 | A slice of a hashed message, in place or not, early, late or repeated, leaves the ring agreeing with what was hashed |
| DtlsTransport.RefusedExactly | onMap/Pods/BoringSSL-GRPC/ssl/d1_both.cc:358-394 | A genuine fragment is refused exactly when its message is too long, it is out of turn in epoch 1, or its number is exactly one flight ahead; that last one passes the skip as too far ahead and is then an error, while anything further ahead is skipped |
| DtlsTransport.ArrivalIsExact | onMap/Pods/BoringSSL-GRPC/ssl/d1_both.cc:396-402 | Whatever else arrives in whatever order, a byte of a message in the window counts as received exactly when it already was or some fragment brought it |
| DtlsTransport.FlightCompletes | onMap/Pods/BoringSSL-GRPC/ssl/d1_both.cc:836-845 | Once every fragment of one whole flight has come through, in any order and among any other fragments, while the receiver moves neither its window nor its epoch: each message of it that the receiver takes part in is complete and is the message hashed |
| DtlsTransport.FlightGetsThrough | onMap/Pods/BoringSSL-GRPC/ssl/d1_both.cc:782-845 | Progress, on the whole machine: from any reachable state, transmit the flight, deliver each of its records so that the record layer lets it through, in any order and amid anything else but the receiver moving on, and let the receiver take messages up; exactly the messages hashed up to the last of the flight that it takes part in have then been handed up |
| DtlsTransport.GetsThroughExactly | onMap/Pods/BoringSSL-GRPC/ssl/dtls_record.cc:192-260 | A record once sealed gets through the receiver exactly when it is of the receiver's epoch, new to its window, of the version, opened by its keys, and neither ciphertext nor plaintext is too long |
| DtlsTransport.OnlyNewOfEpoch | onMap/Pods/BoringSSL-GRPC/ssl/dtls_record.cc:218-240 | Delivering a record of another epoch, or of a number stale for the window, changes nothing of the receiver |
| DtlsTransport.NeverTwice | onMap/Pods/BoringSSL-GRPC/ssl/dtls_record.cc:138-175 | A record that has got through changes nothing when it comes again under the same keys, however opened |
| DtlsTransport.PiecesCover | onMap/Pods/BoringSSL-GRPC/ssl/d1_both.cc:697-733 | Fragments laid over a flight leave out no byte of a message and pass over no message, not even an empty one |
| DtlsReceive.WindowIsInjective | onMap/Pods/BoringSSL-GRPC/ssl/d1_both.cc:273-277 | Two sequence numbers of one window that select the same slot are equal, so a slot never holds another message than the one looked up |
| DtlsReceive.Advance | onMap/Pods/BoringSSL-GRPC/ssl/d1_both.cc:426-438 | Moving on empties the current slot and keeps every other message at its index inside the new window, even where the 16-bit counter wraps |
| DtlsReceive.AcceptAll | onMap/Pods/BoringSSL-GRPC/ssl/d1_both.cc:343-405 | The fragments of a record keep each occupied slot at the index of its number within the window, whatever they hold and wherever an error stops them |
| DtlsReceive.RecordSplits | onMap/Pods/BoringSSL-GRPC/ssl/d1_both.cc:343-405 | The first fragment of a record does what it would alone; refused, it leaves the ring alone and ends the record with its alert, and otherwise what follows does what it would in a record of its own after it |
| DtlsReceive.EveryFragmentCounts | onMap/Pods/BoringSSL-GRPC/ssl/d1_both.cc:343-405 | Of a record that is accepted every fragment counts, wherever in it: a byte of a message of the window has been received exactly if it was before or some fragment of the record brought it |
| DtlsReceive.OpenedExactly | onMap/Pods/BoringSSL-GRPC/ssl/d1_both.cc:306-341 | Exactly an unencrypted ChangeCipherSpec of the one byte 1 raises the flag, only handshake records move the ring, encrypted application data is passed over, and everything else is refused |
| DtlsReceive.Reader.GetIncomingMessage | onMap/Pods/BoringSSL-GRPC/ssl/d1_both.cc:265-295 | Finds or makes the partial message of a fragment; a number before the window or past it, or another type or length than before, gives nothing, the right alert, and leaves the ring as it was |
| DtlsReceive.Reader.AcceptFragment | onMap/Pods/BoringSSL-GRPC/ssl/d1_both.cc:343-402 | One fragment does to the ring in place what the specification says, alert included, and touches no other message |
| DtlsReceive.Reader.OpenHandshake | onMap/Pods/BoringSSL-GRPC/ssl/d1_both.cc:297-406 | A record of any type, or none, changes ring and ChangeCipherSpec flag as specified, with the specified result |
| DtlsReceive.Reader.OpenChangeCipherSpec | onMap/Pods/BoringSSL-GRPC/ssl/d1_both.cc:475-490 | A flagged ChangeCipherSpec is taken without reading; otherwise one record is read, and anything but a ChangeCipherSpec is discarded; the flag is left down |
| DtlsReceive.Reader.GetMessage | onMap/Pods/BoringSSL-GRPC/ssl/d1_both.cc:408-424 | Hands up the awaited message exactly when all of it has come; raw is its header as a single fragment followed by its body |
| DtlsReceive.Reader.NextMessage | onMap/Pods/BoringSSL-GRPC/ssl/d1_both.cc:426-438 | Empties the current slot, moves the window by one and leaves all other messages alone |
| DtlsReceive.Reader.HasUnprocessedHandshakeData | onMap/Pods/BoringSSL-GRPC/ssl/d1_both.cc:440-457 | True exactly when a ChangeCipherSpec is flagged or some slot other than the one of the message handed up is occupied |
| DtlsReceive.Reader.SetReadState | onMap/Pods/BoringSSL-GRPC/ssl/dtls_method.cc:81-88 | A change of read keys goes through exactly when no message, part of one or ChangeCipherSpec is left over; otherwise the epoch stays |
| DtlsMessage.FragmentRoundTrip | onMap/Pods/BoringSSL-GRPC/ssl/d1_both.cc:459-473 | A fragment written in front of anything is read back: header, body and the rest |
| DtlsMessage.HeaderLayout | onMap/Pods/BoringSSL-GRPC/ssl/d1_both.cc:459-473 | The twelve bytes of a fragment header, digit by digit, in the layout of section 4.2.2 of RFC 6347 |
| DtlsMessage.RawInjective | onMap/Pods/BoringSSL-GRPC/ssl/d1_both.cc:170-180 | Different messages have different raw bytes |
| DtlsFragment.BitmapIsExact | onMap/Pods/BoringSSL-GRPC/ssl/d1_both.cc:182-251 | After any sequence of marks on a new message, a byte counts as received exactly when some mark covers it |
| DtlsFragment.HmFragment.Mark | onMap/Pods/BoringSSL-GRPC/ssl/d1_both.cc:211-251 | Marks exactly the range in the bitmap; no bit beyond the message is ever set, and the bitmap is released exactly when every byte has been received |
| DtlsFragment.HmFragment.Store | onMap/Pods/BoringSSL-GRPC/ssl/d1_both.cc:396-402 | The bytes land at their offset behind the header, nothing else changes, and they count as received |
| DtlsFragment.HmFragment.constructor | onMap/Pods/BoringSSL-GRPC/ssl/d1_both.cc:152-199 | A new fragment holds the single-fragment header, no byte received, and a bitmap exactly when its length is not zero |
| DtlsFragment.MarkRange | onMap/Pods/BoringSSL-GRPC/ssl/d1_both.cc:226-236 | A partial byte, whole bytes and a partial byte set bit i exactly when start <= i < end, within the bitmap |
| DtlsFragment.IsComplete | onMap/Pods/BoringSSL-GRPC/ssl/d1_both.cc:238-247 | The test on whole bytes and the last byte holds exactly when the first n bits are all set |
| DtlsFragment.BitRangeBits | onMap/Pods/BoringSSL-GRPC/ssl/d1_both.cc:201-205 | bit_range sets exactly the bits from start up to end |
| DtlsSend.PiecesTile | onMap/Pods/BoringSSL-GRPC/ssl/d1_both.cc:697-733 | Fragments laid from the start of a flight carry each message up to the cursor: concatenated, they are its body, without gap or overlap |
| DtlsSend.PiecesAdvance | onMap/Pods/BoringSSL-GRPC/ssl/d1_both.cc:797-815 | Every packet moves the pair of messages left and bytes left down lexicographically |
| DtlsSend.Writer.SealNextMessage | onMap/Pods/BoringSSL-GRPC/ssl/d1_both.cc:644-734 | A record carries the part of the message at the cursor, as much of it as fits; it stays within the room given; without progress or on a failure to seal the offset stays |
| DtlsSend.Writer.SealFragment | onMap/Pods/BoringSSL-GRPC/ssl/d1_both.cc:679-733 | No progress exactly when not even one body byte is certain to fit; a partial fragment fills the room given less header and overhead |
| DtlsSend.Writer.SealNextPacket | onMap/Pods/BoringSSL-GRPC/ssl/d1_both.cc:739-780 | The packet is the records of pieces laid end to end from the old cursor to the new, at least one and within the room, and as many as fit: it ends with the flight, inside a message, or where no byte of the next is certain to fit; it fails only on a failure to seal or when the first record does not fit, with the cursor unmoved in that case |
| DtlsSend.Writer.SendFlight | onMap/Pods/BoringSSL-GRPC/ssl/d1_both.cc:782-827 | The packets written fit the MTU and hold pieces laid end to end from the old cursor to the new one; a failed write puts the cursor back; only a failure to seal can lose pieces; success means the whole flight was sent, and with room in the MTU, AEADs that seal and a transport that takes every packet it succeeds. Terminates |
| DtlsSend.Writer.RetransmitOutgoingMessages | onMap/Pods/BoringSSL-GRPC/ssl/d1_both.cc:836-845 | A retransmission that succeeds sends every byte of every message of the flight again, once and in order |
| DtlsSend.Writer.AddOutgoing | onMap/Pods/BoringSSL-GRPC/ssl/d1_both.cc:555-594 | A message joins the flight, or begins a new one if the last was complete, up to the flight's size; handshake messages, not ChangeCipherSpec, join the transcript and take the next number |
| DtlsSend.Writer.FinishMessage | onMap/Pods/BoringSSL-GRPC/ssl/d1_both.cc:511-537 | Filling in both lengths gives the message as a single fragment, byte for byte what the receiver will hand up as raw |
| DtlsSend.WholeOfRaw | onMap/Pods/BoringSSL-GRPC/ssl/d1_both.cc:679-691 | A finished message passes the checks made before it is cut into fragments, and is read back unchanged |
| DtlsReplay.WindowRefinesSet | onMap/Pods/BoringSSL-GRPC/ssl/dtls_record.cc:138-175 | After any history of an epoch a number is discarded exactly when it was recorded or lies a full window or more below the highest (section 4.1.2.6 of RFC 6347) |
| DtlsReplay.ReplayBitmap.ShouldDiscard | onMap/Pods/BoringSSL-GRPC/ssl/dtls_record.cc:140-150 | Answers exactly whether the 64-bit number is stale for the window |
| DtlsReplay.ReplayBitmap.RecordSeqNum | onMap/Pods/BoringSSL-GRPC/ssl/dtls_record.cc:155-175 | Slides the window if the number is a new highest and marks the number if it is in reach |
| DtlsReplay.ToU64Be | onMap/Pods/BoringSSL-GRPC/ssl/dtls_record.cc:128-136 | The shifting loop computes the big-endian value of its eight bytes |
| DtlsRecord.NoReplays | onMap/Pods/BoringSSL-GRPC/ssl/dtls_record.cc:177-272 | Over any run of packets and changes of keys: every record that gets through carries in its number the epoch in force when it came, and until the 16-bit epoch wraps no epoch and sequence number get through twice |
| DtlsRecord.ReadState.OpenRecord | onMap/Pods/BoringSSL-GRPC/ssl/dtls_record.cc:177-272 | A packet whose header does not fit (whole, of this version and of the epoch in force, by its bytes) gives no record and moves no window; a record given is of the type in the first byte, and holds what the AEAD made of the bytes; the window moves exactly for a record that is moreover not stale, genuine and not too long; says how much of the packet is consumed, and which result each other packet has |
| DtlsRecord.AcceptedExactly | onMap/Pods/BoringSSL-GRPC/ssl/dtls_record.cc:192-260 | Byte by byte, exactly which packets begin with a record that gets through: whole, of the version and epoch, not stale, opened by the AEAD, not too long; and the 16 high bits of its number are that epoch |
| DtlsRecord.ReadState.SetReadState | onMap/Pods/BoringSSL-GRPC/ssl/dtls_method.cc:90-92 | The next epoch begins with an empty window |
| DtlsRecord.NumbersAreUnique | onMap/Pods/BoringSSL-GRPC/ssl/dtls_record.cc:304-336 | Over any seals at the current or previous epoch and changes of keys, until a counter reaches its end, no two records are sealed under one epoch and sequence number |
| DtlsRecord.UniqueUntilSealedAgain | onMap/Pods/BoringSSL-GRPC/ssl/dtls_record.cc:304-336 | The exact condition, for every run in which the 16-bit epoch has not wrapped: all numbers used differ if and only if no record was sealed at a counter, current or previous, that had already run out, which a caller sees as a failed seal |
| DtlsRecord.NumbersRepeatExactly | onMap/Pods/BoringSSL-GRPC/ssl/dtls_record.cc:304-336 | The exact condition for every run at all, epochs wrapped or not: a number repeats if and only if some record is sealed at a counter behind what a counter of the same epoch number has already counted to |
| DtlsRecord.CountsAreKnown | onMap/Pods/BoringSSL-GRPC/ssl/tls_record.cc:154-163 | While the epoch has not wrapped, a counter that has run out has used every number of its epoch and any other exactly those below it, for the current and the previous epoch |
| DtlsRecord.WrapRepeatsANumber | onMap/Pods/BoringSSL-GRPC/ssl/tls_record.cc:154-163 | The input at which uniqueness fails: the seal that uses the last 48-bit number still repeats none, and the next one does |
| DtlsRecord.RecordSequenceUpdate | onMap/Pods/BoringSSL-GRPC/ssl/tls_record.cc:154-163 | The byte-wise increment in place fails exactly when every byte is 255 |
| DtlsRecord.IncrementCounts | onMap/Pods/BoringSSL-GRPC/ssl/tls_record.cc:154-163 | That increment adds one to the big-endian value, and takes the greatest value to 0 |
| DtlsRecord.WriteState.SealRecord | onMap/Pods/BoringSSL-GRPC/ssl/dtls_record.cc:294-351 | The bytes of a sealed record with the number of its epoch's counter; the counter moves once the plaintext is sealed, even if the record is then refused |
| DtlsRecord.WriteState.SetWriteState | onMap/Pods/BoringSSL-GRPC/ssl/dtls_method.cc:97-107 | The old counter and keys are kept for the previous epoch, and a new counter starts at 0 |
| DtlsRecord.SealedRecordGetsThrough | onMap/Pods/BoringSSL-GRPC/ssl/dtls_record.cc:192-272 | A sealed record in front of anything gets through in its epoch exactly when its number is not stale, with its type and plaintext |
| DtlsRecord.NumbersDiffer | onMap/Pods/BoringSSL-GRPC/ssl/dtls_record.cc:326-328 | Different record numbers are different 64-bit numbers to the replay window |
| PbRoundTrip.DecodeInvertsEncode | onMap/Pods/nanopb/pb_decode.c:1051-1063 | Round trip: for every well-formed field table, of any nesting, and every message it can hold, decoding the encoding succeeds, takes all of it and gives the message back, fields that are absent at their defaults, if and only if no has-less submessage that the encoder finds zero holds elements of a fixed-count array; what it gives back otherwise is stated too |
| PbRoundTrip.KeptExactly | onMap/Pods/nanopb/pb_encode.c:215-305 | What is received is the message itself exactly when no count was mistaken, at any depth, in optional, repeated and oneof submessages as well |
| PbRoundTrip.CanonSameEncoding | onMap/Pods/nanopb/pb_encode.c:494-516 | The message with what is absent at its default is indistinguishable on the wire: it encodes to the same bytes, unless a fixed-count array of submessages stands directly inside a has-less submessage |
| PbRoundTrip.FieldRoundTrip | onMap/Pods/nanopb/pb_decode.c:401-475 | One field of any kind (required, optional, has-less, packed, unpacked, fixed-count, oneof, nested), decoded from its encoding in front of anything, fills its slot with what is received of it and no other slot |
| PbRoundTrip.ZeroIsDefault | onMap/Pods/nanopb/pb_encode.c:215-305 | A has-less value that the encoder finds zero, and so leaves out, is the value the decoder starts from if and only if no count was mistaken in it |
| PbRoundTrip.CountMistaken | onMap/Pods/nanopb/pb_encode.c:225-229 | The input at which the round trip fails: two 32-bit words {0, 5} in a fixed-count array, alone in a has-less submessage; nothing is written, and the defaults come back |
| PbRoundTrip.ApartIsKept | onMap/Pods/nanopb/pb_encode.c:225-229 | In a table with no fixed-count array directly inside a has-less submessage nothing is ever mistaken |
| PbRoundTrip.ZeroReadsAsNone | onMap/Pods/nanopb/pb_encode.c:225-229 | Whatever the width of pb_size_t and the byte order, an array of 32-bit words that begins with 0 reads as empty, however many more there are |
| PbMerge.ConcatenationIsMerge | onMap/Pods/nanopb/pb_decode.c:901-1049 | Where no top-level field is required or fixed-count and the first input is consumed: decoding it together with any continuation equals decoding one after the other into the same struct, if and only if the walk over the first input from tag to tag, which looks at no value and no struct, does not stop at a zero tag |
| PbMerge.LoopStopsAsWalked | onMap/Pods/nanopb/pb_decode.c:924-995 | The decoding loop, from any struct and bookkeeping, ends at a zero tag exactly when that walk does |
| PbMerge.EncodingNeverStops | onMap/Pods/nanopb/pb_encode.c:494-516 | Nothing that pb_encode writes for a well-formed table stops so |
| PbMerge.EncodingsMerge | onMap/Pods/nanopb/pb_decode.c:1051-1063 | So decoding an encoding followed by anything is decoding what follows into what is received of the message encoded, which is the message itself when no count was mistaken |
| PbMerge.NestedMerge | onMap/Pods/nanopb/pb_decode.c:1463-1485 | The merge law inside a message: an optional, required or oneof submessage that comes in two parts is decoded into what it is decoded into when it comes in one, unless the first part stops at a zero tag |
| PbMerge.LastWins | onMap/Pods/nanopb/pb_decode.c:401-475 | Of a field that is neither array nor submessage the last value wins, whatever the struct held before, and only that field and its union change |
| PbMerge.NonzeroEndNeverStops | onMap/Pods/nanopb/pb_decode.c:182-242 | Without knowing the table: an input that is empty, or ends in a byte other than 0 that does not end a varint of 42 bytes or more, does not stop so |
| PbMerge.LongZeroTag | onMap/Pods/nanopb/pb_decode.c:200-232 | The length matters: the 8-bit bit position comes round, so 41 empty groups and a 2 are a zero tag too |
| PbMerge.ZeroTagStopsMerge | onMap/Pods/nanopb/pb_decode.c:293-314 | The input that breaks the law without that condition: a zero tag at the end is consumed and hides what follows |
| PbMerge.LoopLocal | onMap/Pods/nanopb/pb_decode.c:924-995 | A run that reached the end of its input goes on with whatever is appended, as if from the start; one stopped by a zero tag leaves it unread |
| PbEncodeStream.EncodeMessageTo | onMap/Pods/nanopb/pb_encode.c:494-516 | Sizing or writing, the loop over the fields succeeds exactly when the message can be encoded and fits, and appends or counts exactly its encoding, whatever the data of a fixed-count array reads as when taken for its count; what those bytes are to a peer is said by PbRoundTrip.DecodeInvertsEncode, PbSkip.EncodingIsSkippable and PbSkip.KeyOfField |
| PbFits.FitsEncodes | onMap/Pods/nanopb/pb_encode.c:307-420 | Every message that fits its table can be encoded |
| PbSkip.EncodingIsSkippable | onMap/Pods/nanopb/pb_decode.c:316-329 | A peer without any of the tags reads over the whole encoding of any message of any well-formed table and its struct stays as it was; it refuses the message only for required fields of its own |
| PbSkip.KeyOfField | onMap/Pods/nanopb/pb_encode.c:641-672 | The key of a value, in digits: 8 times its tag plus 0 for integers, 1 for 64-bit words, 5 for 32-bit words, 2 for everything with a length; a nonempty array of numbers is packed behind one key ending in 2, and any other has a key for each element |
| PbSkip.OmittedExactly | onMap/Pods/nanopb/pb_encode.c:215-305 | Of has-less scalars and byte strings exactly the zeros and the empty ones are left out |
| PbSkip.FixedBytes | onMap/Pods/nanopb/pb_encode.c:607-631 | Byte k of a fixed-width word is its k-th from the low end |
| PbSkip.OthersRefused | onMap/Pods/nanopb/pb_decode.c:316-329 | An unknown field of any wire type but 0, 1, 2 and 5 ends the message with an error |
| PbEncodeStream.EncodeSubmessage | onMap/Pods/nanopb/pb_encode.c:682-730 | The two passes agree at every depth: the size written is the size produced, so the substream is filled exactly and a changed size cannot be reported |
| PbEncodeStream.GetEncodedSize | onMap/Pods/nanopb/pb_encode.c:533-542 | The sizing pass succeeds exactly when there is an encoding, and gives its length |
| PbEncodeStream.EncodeToBuffer | onMap/Pods/nanopb/pb_encode.c:84-124 | Encoding into a buffer succeeds exactly when there is an encoding and the buffer is at least as long; it is then at the front of the buffer |
| PbEncodeStream.EncodeArrayTo | onMap/Pods/nanopb/pb_encode.c:126-211 | Packed or tagged one by one, an array appends or counts exactly its encoding; the packed length written before the elements is their total |
| PbEncodeStream.EncodeVarint | onMap/Pods/nanopb/pb_encode.c:574-594 | The loop over its ten-byte buffer writes the base-128 form of every 64-bit value |
| PbDecodeStream.DecodeNoInitIn | onMap/Pods/nanopb/pb_decode.c:901-1049 | The loop with its iterator, bit words and fixed-count variables decodes exactly what the specification does, from whatever position the iterator is in, and leaves the same input unread; what that may be for any input is said by PbFits.NoInitFits, PbComplete.RefusedForRequired and PbComplete.NothingDropped |
| PbFits.NoInitFits | onMap/Pods/nanopb/pb_decode.c:1289-1508 | Memory: whatever the input, a struct that fits its table still fits it after decoding, at every depth: strings leave room for their terminator, bytes stay in their buffer behind their size, blobs are as long as their field, integers in the range of their size, arrays within their bounds, one member at most of each union |
| PbFits.DecodeFits | onMap/Pods/nanopb/pb_decode.c:1051-1063 | So does whatever is decoded into a fresh struct, if the table's defaults fit |
| PbFits.IntOfExactly | onMap/Pods/nanopb/pb_decode.c:1289-1362 | Which number an integer field makes of a 64-bit word, if any: the one of its range congruent to the word modulo 2^64, or 2^32 below eight bytes; unsigned, the word itself; or the one whose zigzag form it is |
| PbComplete.RefusedForRequired | onMap/Pods/nanopb/pb_decode.c:1024-1046 | An input that the loop reads to its end, with no fixed-count array left short, is refused if and only if the walk over it from tag to tag meets no entry of some required field among the first 64 |
| PbComplete.DecodedHasRequired | onMap/Pods/nanopb/pb_decode.c:1024-1046 | No input that leaves out one of the first 64 required fields is decoded |
| PbComplete.FixedArraysWhole | onMap/Pods/nanopb/pb_decode.c:964-1004 | Every fixed-count array that an accepted input has any element of is received whole |
| PbComplete.NothingDropped | onMap/Pods/nanopb/pb_decode.c:412-455 | An array with a count of its own gets, behind the elements it had, exactly as many as the accepted input has of it, packed or not; none is dropped for want of room |
| PbComplete.EmptyInput | onMap/Pods/nanopb/pb_decode.c:901-1049 | An empty input leaves the struct as it was, and is refused exactly if some field is required |
| PbComplete.DefaultsGiven | onMap/Pods/nanopb/pb_decode.c:812-898 | What a fresh struct holds of a single field: the value its table gives, otherwise zeros, an empty string, or a submessage's own defaults |
| PbDecodeStream.DecodeIn | onMap/Pods/nanopb/pb_decode.c:1051-1063 | The same from default values |
| PbDecodeStream.CheckRequired | onMap/Pods/nanopb/pb_decode.c:1024-1046 | The final test on whole words and remaining bits accepts exactly when each of the first 64 required fields was seen |
| PbDecodeStream.MarkSeen | onMap/Pods/nanopb/pb_decode.c:984-989 | Setting one bit of one word adds one field to the set seen and changes nothing else of it |
| PbDecodeStream.CountRequired | onMap/Pods/nanopb/pb_decode.c:1007-1022 | Running the iterator to the end of the table, and counting a required last field, gives the number of required fields from any position |
| PbDecodeStream.DecodeFieldIn | onMap/Pods/nanopb/pb_decode.c:401-475 | A field is decoded into its slot by kind; a oneof member takes its union over; errors and unread input as specified |
| PbDecodeStream.DecodePackedIn | onMap/Pods/nanopb/pb_decode.c:418-452 | Elements are read until the substream or the array is used up; input left over is an overflow |
| PbDecodeStream.MakeStringSubstream | onMap/Pods/nanopb/pb_decode.c:367-380 | The substream is the prefixed bytes, and the parent keeps what follows them |
| PbDecodeStream.CloseStringSubstream | onMap/Pods/nanopb/pb_decode.c:382-397 | The parent moves to the end of the substream, read or not |
| PbDecodeStream.ReadTag | onMap/Pods/nanopb/pb_decode.c:293-314 | Tag and wire type, or the end of the message at no input or at a zero tag |
| PbDecodeStream.SkipFieldIn | onMap/Pods/nanopb/pb_decode.c:316-326 | Steps over exactly one value of the wire type, or fails |
| PbDecodeStream.WellFormedIsDistinct | onMap/Pods/nanopb/pb_common.c:78-95 | A well-formed table meets, at every depth, the condition under which lookups do not depend on the iterator's position |
| PbVarint.Varint64Inverts | onMap/Pods/nanopb/pb_decode.c:250-270 | pb_decode_varint gives back every 64-bit value from its encoding in front of anything |
| PbVarint.Varint32OfEncoding | onMap/Pods/nanopb/pb_decode.c:182-242 | The 32-bit decoder on the encoding of any 64-bit value: the value modulo 2^32 if it takes it, else an error |
| PbVarint.Accepts32Exactly | onMap/Pods/nanopb/pb_decode.c:200-232 | Exactly which 64-bit values it takes: those below 2^32, and those with the top bit and bit 31 set whose groups in between are all zeros or all ones; so none in [2^32, 2^63) and every sign-extended one |
| PbVarint.DecodersAgree | onMap/Pods/nanopb/pb_decode.c:182-270 | On any input both decoders take, canonical or not, they stop at the same byte and agree modulo 2^32 |
| PbDecodeStream.DecodeVarint32 | onMap/Pods/nanopb/pb_decode.c:182-242 | The loop with its 8-bit position reads what the specification reads, and reports an empty input |
| PbIter.FieldIter.Next | onMap/Pods/nanopb/pb_common.c:20-76 | One entry on, wrapping at the end; offsets and required index depend on the position alone |
| PbIter.FieldIter.Find | onMap/Pods/nanopb/pb_common.c:78-95 | Finds a tag from any position exactly when some entry other than an extension has it; a failed search ends where it began |
| PbEncodeStream.OStream.Write | onMap/Pods/nanopb/pb_encode.c:101-124 | Appends all the bytes or none of them; a sizing stream only counts |
| ClientHandshake.Handshake.FinishedHandshake | onMap/Pods/BoringSSL-GRPC/ssl/handshake_client.cc:1674-1705 | A finished handshake other than TLS 1.3, whatever its suspensions: its events are, one by one, those of the flow of section 7.3 of RFC 5246 for what was agreed. The optional messages are those due: a NewSessionTicket exactly if the accepted ServerHello agreed on one; NextProto and Channel ID exactly if negotiated; a HelloVerifyRequest only over DTLS; a status only if agreed on; a ServerKeyExchange always for ECDHE and never for RSA, well signed with certificates; CertificateVerify exactly if a certificate was requested and the client had one; the no-certificate alert exactly if one was requested, there was none, and the version is SSL 3.0. One Finished each way, the server's first exactly when resuming; keys changed once each way; and the transcript is exactly the messages since the last HelloVerifyRequest; the connection is marked as established |
| ClientHandshake.Handshake.FalseStartHandshake | onMap/Pods/BoringSSL-GRPC/ssl/handshake_client.cc:1538-1564 | Whenever ssl_run_handshake returns early before TLS 1.3 and not for early data: False Start is enabled, this is no renegotiation, the version is TLS 1.2, the cipher is ECDHE with an AEAD, and ALPN or NPN was negotiated where that is needed; and all of the full handshake but the server's last messages has happened, message by message, the certificate check and the signed key exchange included |
| ClientHandshake.Handshake.RunHandshake | onMap/Pods/BoringSSL-GRPC/ssl/handshake.cc:491-628 | Over any transport answers and suspensions the invariant is kept between calls; success without early return means the last state was reached; an early return leaves the handshake in TLS 1.3, after the early keys, or at False Start; a failed handshake stays failed and does nothing more |
| ClientHandshake.Handshake.DoHandshake | onMap/Pods/BoringSSL-GRPC/ssl/handshake_client.cc:1707-1789 | The driver loop ends, since the rank of the state falls with every step that returns ok; it leaves only to wait, on an error, when done, or early in one of the three places where that is allowed |
| ClientHandshake.NoStateTwice | onMap/Pods/BoringSSL-GRPC/ssl/handshake_client.cc:1707-1789 | States completed in falling rank are all different, and none is entered again |
| ClientHandshake.RanksFall | onMap/Pods/BoringSSL-GRPC/ssl/handshake_client.cc:1658-1672 | The rank that falls depends on whether a session is resumed, which is settled by the ServerHello |
| ClientHandshake.Handshake.Step | onMap/Pods/BoringSSL-GRPC/ssl/handshake_client.cc:1713-1776 | Every step that does not fail keeps transcript, Finished values and flow, and moves the handshake on or leaves its state; and none fails when every answer is good and the message, if any, is one the state takes |
| ClientHandshake.Handshake.DoReadHelloVerifyRequest | onMap/Pods/BoringSSL-GRPC/ssl/handshake_client.cc:491-533 | After a HelloVerifyRequest, which is consumed, the transcript starts again with the second ClientHello; any other message stays unconsumed, with log and transcript as they were, for the next state |
| ClientHandshake.Handshake.DoReadServerHello | onMap/Pods/BoringSSL-GRPC/ssl/handshake_client.cc:535-759 | Once a ServerHello is accepted the handshake goes over to TLS 1.3 with the message unconsumed, or, the message consumed and in the transcript, on to the ticket when resuming and to the certificate when not |
| ClientHandshake.Handshake.DoReadServerKeyExchange | onMap/Pods/BoringSSL-GRPC/ssl/handshake_client.cc:891-1071 | The message may be missing only where the cipher allows; with certificates it is taken only with a good signature |
| ClientHandshake.Handshake.DoReadCertificateRequest | onMap/Pods/BoringSSL-GRPC/ssl/handshake_client.cc:1073-1143 | The message is optional: ServerHelloDone in its place is not consumed and nothing is logged; a request is noted exactly when one was consumed |
| ClientHandshake.Handshake.DoReadSessionTicket | onMap/Pods/BoringSSL-GRPC/ssl/handshake_client.cc:1566-1620 | Where a ticket was agreed on the message is awaited, and goes by before the ChangeCipherSpec is; where not, nothing is read or logged |
| ClientHandshake.Handshake.DoReadCertificateStatus | onMap/Pods/BoringSSL-GRPC/ssl/handshake_client.cc:835-869 | The next message is taken exactly if a status was agreed on and it is one; the server may leave it out |
| ClientHandshake.Handshake.DoVerifyServerCertificate | onMap/Pods/BoringSSL-GRPC/ssl/handshake_client.cc:871-889 | Goes on exactly when the certificate is found good or the cipher has none; a pending or failed check leaves log and state as they were |
| ClientHandshake.Handshake.DoSendClientFinished | onMap/Pods/BoringSSL-GRPC/ssl/handshake_client.cc:1457-1512 | ChangeCipherSpec and the new keys come before everything sent under them; exactly a missing Channel ID key makes it wait for one, with nothing sent |
| ClientHandshake.Handshake.DoFinishFlight | onMap/Pods/BoringSSL-GRPC/ssl/handshake_client.cc:1538-1564 | After its last flight a resumed handshake is at its end and a full one waits for the server's ticket; it returns early exactly when a full handshake may false start |
| ClientHandshake.Handshake.GetFinished | onMap/Pods/BoringSSL-GRPC/ssl/handshake.cc:380-429 | The server's Finished is compared with the MAC of the transcript as it was before the message joined it |
| ClientHandshake.Handshake.Resolve | onMap/Pods/BoringSSL-GRPC/ssl/handshake.cc:500-546 | The transport's answer decides: an error is returned, a discarded record means to try again, and only a record that came resolves a wait; so a wait for a ChangeCipherSpec is over only when one has come; messages brought are queued in order |
| HandshakeLog.FinishedEverywhere | onMap/Pods/BoringSSL-GRPC/ssl/handshake.cc:391-408 | Each Finished in the log, sent or consumed, holds the MAC of exactly the messages before it |
| HandshakeFlow.WholeLog | onMap/Pods/BoringSSL-GRPC/ssl/handshake_client.cc:1707-1789 | Any log whose trail is that of a finished handshake spells a flow of section 7.3 of RFC 5246 on the terms agreed, with each side's ChangeCipherSpec, change of keys and Finished exactly once |
| ClientHandshake.Handshake.AcceptServerHello | onMap/Pods/BoringSSL-GRPC/ssl/handshake_client.cc:565-693 | An accepted ServerHello before TLS 1.3 resumes exactly when an offered session is named outside a renegotiation, fixes the cipher, and follows no offer of early data; refused only for a reason |
| HandshakeFlow.WholeFlowOf | onMap/Pods/BoringSSL-GRPC/ssl/handshake_client.cc:1707-1789 | Every trail the states admit is the flow of some choice of optional messages on the terms agreed |
| TlsWrite.WritePath.FlushFlight | onMap/Pods/BoringSSL-GRPC/ssl/s3_both.cc:231-279 | Bytes on the wire, then the write buffer, then the rest of the flight stay the sealed records in order under any partial writes; success with a flight means all of them are on the wire, and a transport that takes something of what it is offered means success |
| TlsWrite.WritePath.AddMessage | onMap/Pods/BoringSSL-GRPC/ssl/s3_both.cc:184-205 | The records of a message hold it in fragments, each the lesser of the fragment size and what is left (an empty message makes one record), and it joins the transcript once all are sealed; it fails only on a failure to seal |
| TlsWrite.WritePath.AddRecordToFlight | onMap/Pods/BoringSSL-GRPC/ssl/s3_both.cc:135-165 | A record sealed is appended behind everything sealed before; a failure adds nothing |
| TlsWrite.WritePath.WriteAppData | onMap/Pods/BoringSSL-GRPC/ssl/s3_pkt.cc:129-200 | Progress: with writing not shut down, no record pending, room in the write buffer, sealings that fit and a transport that takes something of what it is offered (and early data with room for it, if it is that), the call writes all of the buffer, or one fragment of it where partial writes are allowed, as records that are each the lesser of the fragment size and what was left. In any call no application record added is larger than the fragment size. Every call that succeeds seals, behind what was sealed before, exactly the buffer from the caller's place on; so over failed calls repeated with the same buffer each byte is sealed once, and success reports exactly that. After a failed call with any front of the buffer the place in it is kept if and only if the front is not shorter than what had been written (or writing is shut down); early data never exceeds its limit and no count underflows |
| TlsWrite.WritePath.DoWrite | onMap/Pods/BoringSSL-GRPC/ssl/s3_pkt.cc:221-289 | At most one record is sealed, none while one is pending, and then with exactly the plaintext given; a retry only finishes the pending one |
| TlsWrite.WritePath.SealBehindFlight | onMap/Pods/BoringSSL-GRPC/ssl/s3_pkt.cc:254-285 | The unsent flight goes in front of the new record, so sealing order is kept |
| TlsWrite.WritePath.WritePending | onMap/Pods/BoringSSL-GRPC/ssl/s3_pkt.cc:202-218 | A retry with less, from elsewhere when that is not allowed, or of another type is refused; otherwise the pending record is finished when the buffer is empty |
| TlsWrite.WritePath.DispatchAlert | onMap/Pods/BoringSSL-GRPC/ssl/s3_pkt.cc:405-423 | At most one record is sealed, of type alert and with the alert as plaintext; one behind a pending application record is refused and seals nothing; with nothing pending, room and a transport that takes what it is offered it is sent |
| TlsWrite.GenuineEverywhere | onMap/Pods/BoringSSL-GRPC/ssl/s3_pkt.cc:269-274 | Each record ever sealed by a write path is what the sealing of its number made of its type and plaintext, and no sealing makes two of them |
| TlsWrite.WritePath.RecordsHoldWrites | onMap/Pods/BoringSSL-GRPC/ssl/s3_pkt.cc:183-199 | Between any two states of a write path without a write in progress, the application records sealed in between hold exactly what the writes that finished in between reported |
| TlsRead.HandsUpWhatWasFramed | onMap/Pods/BoringSSL-GRPC/ssl/s3_both.cc:399-583 | Wherever records begin and end, the messages consumed are the first of those framed into the stream, each once, in order |
| TlsRead.SplitInvertsFraming | onMap/Pods/BoringSSL-GRPC/ssl/s3_both.cc:167-182 | A stream of framed messages splits into exactly those messages |
| TlsRead.FrameLayout | onMap/Pods/BoringSSL-GRPC/ssl/s3_both.cc:167-182 | A message is its type, three bytes of length, big end first, and its body |
| TlsRead.HandshakeBuffer.NextMessage | onMap/Pods/BoringSSL-GRPC/ssl/s3_both.cc:562-583 | The message leaves the front of the buffer and what follows it stays |
| TlsRead.HandshakeBuffer.ParseMessage | onMap/Pods/BoringSSL-GRPC/ssl/s3_both.cc:399-425 | A message is found exactly when all of it is there; otherwise more bytes are asked for than there are |
| TlsRead.HandshakeBuffer.HasUnprocessedHandshakeData | onMap/Pods/BoringSSL-GRPC/ssl/s3_both.cc:461-472 | True exactly when the buffer holds more than the message handed up |
| Refcount.Linearizable | onMap/Pods/BoringSSL-GRPC/crypto/refcount_c11.c:37-65 | Under any interleaving and spurious failures the operations take effect one by one with the counts and results of the locked version, each between its beginning and its return, in each thread's order |
| Refcount.HeldReferences | onMap/Pods/BoringSSL-GRPC/crypto/refcount_c11.c:49-65 | If threads use only references they hold and the count stays below its maximum: no operation aborts, the count is the number of references left, and a decrement reports zero exactly when none is left, once and last |
| Refcount.Saturated | onMap/Pods/BoringSSL-GRPC/crypto/refcount_c11.c:41-57 | Once saturated the count never changes again |
| Refcount.AtomicCount.RefcountInc | onMap/Pods/BoringSSL-GRPC/crypto/refcount_c11.c:37-47 | The retry loop, under any interference, has the effect of one locked increment on the count at one moment, which is the count it found or one another thread left before an attempt; left alone it is the count it found |
| Refcount.AtomicCount.RefcountDecAndTestZero | onMap/Pods/BoringSSL-GRPC/crypto/refcount_c11.c:49-65 | The retry loop has the effect and the result of one locked decrement at such a moment; left alone, on the count it found |
| Refcount.LockedCount.RefcountDecAndTestZero | onMap/Pods/BoringSSL-GRPC/crypto/refcount_lock.c:37-51 | The locked decrement: abort at zero, nothing when saturated, one less otherwise, and zero reported exactly when one was left |

## Left out

- nanopb callbacks, extension fields that are set, `PB_ENABLE_MALLOC`, pointer types, `PB_WITHOUT_64BIT`, delimited and null-terminated messages: the extension list is empty, and an extension entry is only looked for and skipped.
- `uint_fast8_t` is taken to have 8 bits, as it has in common C libraries.
- nanopb struct memory: a struct is one abstract value for each field; offsets are computed as the iterator does, but no two fields are made to overlap in memory other than the members of a union.
- nanopb fixed-count arrays: their elements beyond those received are not modelled, so a fixed-count field that was not received decodes to no elements, also where the zero count that the decoder writes over the first bytes of its data happens to cover all of it.
- PbEncodeStream.EncodeMessageTo: what a fixed-count array reads as when it is taken for its own count is computed from the elements where those decide it (numbers, byte strings); what padding, the inside of submessages, the bytes behind a string's terminator or behind a short array read as is some fixed function of field and elements.
- PbRoundTrip.CanonSameEncoding: leaves out tables with a fixed-count array of submessages directly inside a has-less submessage, because their absent members are bytes that may read otherwise once they are at their defaults.
- PbRoundTrip.DecodeInvertsEncode: requires that the encoding is shorter than 2^32 bytes, because lengths are read as 32-bit numbers and a longer nested value is refused.
- PbDecodeStream.DecodeNoInitIn: requires that no table at any depth has one tag twice, because which entry is found then depends on where the iterator stands.
- PbEncodeStream.EncodeToBuffer: does not model wrap-around of the byte counts at the width of `size_t`.
- PbMerge.ConcatenationIsMerge: leaves out tables with required or fixed-count fields at the top level, for which the source makes no such promise.
- DTLS timers and timeouts, the application's MTU callback and `dtls1_open_app_data`: a retransmission or another MTU may come at any step.
- DtlsTransport.HandsUpWhatWasHashed: covers fewer than 2^16 messages in one direction, and records that were sealed by the sender: whatever keys are in use, a record opens to what was sealed or not at all, since forged records are the AEAD's matter.
- DtlsRecord.WriteState.SealRecord: the check that input and output buffers do not overlap is not modelled, since values do not share memory.
- DtlsTransport.FlightGetsThrough: each record of the flight is let through by the record layer once (DtlsTransport.GetsThroughExactly says when that is), and the receiver stays in one window and epoch until the flight is delivered, so a flight that changes epochs gets through in parts, one for each epoch, and in epoch 1 one message at a time.
- DtlsRecord.UniqueUntilSealedAgain: says nothing once the 16-bit epoch has wrapped; what holds then is DtlsRecord.NumbersRepeatExactly.
- dtls_set_read_state is split: DtlsReceive.Reader has its check for left-over data, DtlsRecord.ReadState its new window.
- AEADs, MACs, signatures, key derivation, certificate chains and random numbers: functions or answers from outside, with length bounds where the code relies on them.
- TLS 1.3: `tls13_client_handshake` is one answer of the environment, which may be any wait but the one for a ChangeCipherSpec, and a handshake that goes over to it keeps only its transcript.
- ClientHandshake.Handshake.AcceptServerHello: the individual refusals of a ServerHello for its encoding, cipher or session are answers of the environment; what decides the flow (version, session, cipher, early data) is modelled.
- The contents of messages other than Finished, and what extensions set beyond the flags that decide the flow, are not modelled.
- `ssl_verify_peer_cert`: one answer (ok, invalid, retry), so its shortcut for an unchanged certificate on renegotiation and `SSL_VERIFY_NONE` are inside that answer.
- The server handshake, V2ClientHello, SSL 3.0 record details and KeyUpdate.
- TlsWrite.WritePath.WriteAppData: early data begins before any application data and does not begin again once over, as the handshake has it; allocation never fails.
- `SSLBuffer` is its contents, with its limit of 65535 bytes; alignment is not modelled.
- Refcount.HeldReferences: requires that the count stays below its maximum, because a saturated count is never released.
- Termination of the compare-and-swap loops under interference without end.
- The application's own code, Alamofire, CPU feature detection, thread-local storage and error tables: user interface, wrappers or finite data.
