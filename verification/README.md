# Models of the vendored protocol code

The application keeps BoringSSL and nanopb under `Crawl/Pods`. This project models the parts of
them that carry a protocol or a codec and proves what they are for.

`dafny verify dfyconfig.toml` checks everything.

## What is modelled

**DTLS handshake transport.** `ReplayWindow`, `DtlsRecord`, `HandshakeFragments`, `Reassembly`,
`IncomingRing`, `DtlsReader`, `DtlsSender`, `DtlsTransmit`, `DtlsFlight`, `RecordNumbers`,
`DtlsEndToEnd`, `DtlsDelivery`, `DtlsCompletion`. The sender cuts queued
messages into fragments that fit a packet, seals them under the keys of their epoch and sends them
again on request; the network loses, repeats and reorders; the receiver discards replays,
reassembles with a bit mask in a ring of seven slots and hands messages up in order. Each half is
written twice: as functions on values, and as classes whose methods update fields and arrays the way
the source does and are proved to compute those functions. `DtlsEndToEnd` joins the halves and a
network into one system and proves what is handed up, for every run; `DtlsCompletion` proves that one
retransmission is enough, and `RecordNumbers` says exactly when record numbers repeat. AEAD contexts are abstract
functions of which only "open undoes seal" and "the overhead is bounded" is assumed. Sections 4.1,
4.1.2.6, 4.2.3 and 4.2.4 of RFC 6347.

**nanopb.** `Varints`, `PbMessage`, `PbEncoding`, `PbDecoding`, `PbFieldIter`, `PbRequired`,
`PbEncoder`, `PbDecoder`, `PbRoundTrip`, `PbBounds`. A descriptor is a list of fields with tag, type,
rule and layout offsets; a message is a list of struct members, one for each group of fields that
share storage. `PbEncoding` and `PbDecoding` say what is written and read; the classes in `PbEncoder`
and `PbDecoder` do it over a buffer with the streams, substreams, two-pass sizing, iterator and
bitset of the source. Equality of messages (`Same`) ignores the content of absent members.

**TLS write and read path.** `SslBuffer`, `TlsWrite`, `TlsReader`. Two buffers, `write_buffer` and
`pending_flight`, feed one transport that accepts part of what it is offered or blocks. Sealing is a
function of the record number, type and plaintext; a ghost list of all records sealed says what the
transport should see. On the reading side records are appended to `hs_buf` and messages taken from
its front.

**Handshake machines.** `HandshakeScript`, `HandshakeMachines`, `HandshakePair`, `HandshakeRuns`,
`HandshakeDriver`. TLS 1.2, full and resumed. `HandshakeScript` lists what is said at each place of
a handshake with given parameters; `HandshakeMachines` has the `do_` functions of both sides with
the conditions under which a message is sent, expected or optional; a world has both sides and what
is on the way between them. Section 7.3 of RFC 5246. `CipherChoice` and `Premaster` are the cipher
choice and the constant-time premaster check.

**Reference count.** `Refcount`: the compare-exchange loops as steps of any number of threads, against
the counter under a lock, and the loops themselves over a shared count that others change in between.

`Bits` and `Bytes` hold words as naturals with their bits, big-endian fields and `Option`.

## What the code does not do as one might expect

- A DTLS fragment with number `handshake_read_seq + 7` passes the filter for future messages and then
  fails the connection; later ones are dropped without an error (`IncomingRing.FutureBoundary`).
- A DTLS seal that fails because the counter wrapped leaves it at zero, and a next seal in that epoch
  reuses number zero (`RecordNumbers.ZeroRepeats`; `RecordNumbers.RecordNumbersExactly` says exactly
  when numbers repeat).
- An error in the middle of building a DTLS packet skips the records already sealed into it
  (`DtlsSender.SkippedRecord`; `DtlsSender.FailedPacketPosition` says exactly when).
- The `offset_` of an `SSLBuffer` has 16 bits, and capacities that leave no room below 2^16 for the
  alignment slack let it wrap (`SslBuffer.SlackWraps`, `SslBuffer.ConsumeExactly`, `SslBuffer.SSLBuffer.EnsureCap`).
- A nanopb string that fills its member without a terminator is encoded, and what is encoded is then
  refused by the decoder (`PbRoundTrip.StringRoundTrip`, `PbRoundTrip.MessageRoundTrip`).
- The check for sign extension in `pb_decode_varint32` also lets other values above 2^63 through
  (`Varints.Varint32AcceptsMore`; `Varints.Varint32Exactly` says which).
- Entries of a cipher preference list behind the last group that is closed are never chosen
  (`CipherChoice.Choose`, `CipherChoice.AllClosed`).

## Model

| member | source | states |
|---|---|---|
| `DtlsEndToEnd.EndToEnd` | Crawl/Pods/BoringSSL-GRPC/ssl/d1_both.cc:265-438 | for every run of both halves and the network (loss, repetition, reordering, any packet sizes, retransmissions, epoch changes): what was handed up is exactly the first `handshake_read_seq` queued messages, in order, with their types and bodies; a message that is complete is the queued one of its number; the ring invariant holds |
| `DtlsEndToEnd.StepKeepsInv` | Crawl/Pods/BoringSSL-GRPC/ssl/d1_both.cc:297-594 | each single step of sender, network and receiver keeps the joint invariant: what travels and what is stored are pieces of queued messages, sealed under the key of their epoch |
| `DtlsEndToEnd.DeliverKeepsInv` | Crawl/Pods/BoringSSL-GRPC/ssl/d1_both.cc:297-406 | whatever genuine datagram is delivered, in whatever state, the ring keeps to the queued messages and the read number does not move |
| `DtlsEndToEnd.CoveredIsComplete` | Crawl/Pods/BoringSSL-GRPC/ssl/d1_both.cc:297-438 | order and repetition do not matter: once the fragments taken, among others, carry every octet of a message in the window, it is complete |
| `DtlsCompletion.RetransmissionCompletes` | Crawl/Pods/BoringSSL-GRPC/ssl/d1_both.cc:297-438 | sender, network and receiver joined: once every datagram of one retransmission has arrived, in any order and any number of times, as long as no record comes for the first time 64 or more behind one that came before it, none was an error, and every message of the epoch and window of the reader is complete and reads octet for octet as it was queued |
| `DtlsCompletion.FewInTime` | Crawl/Pods/BoringSSL-GRPC/ssl/dtls_record.cc:140-150 | that condition holds for every order of at most 64 records |
| `DtlsCompletion.OrderInTime` | Crawl/Pods/BoringSSL-GRPC/ssl/dtls_record.cc:140-150 | and for a flight of any size that comes in order |
| `DtlsCompletion.FirstMessageCompletes` | Crawl/Pods/BoringSSL-GRPC/ssl/d1_both.cc:297-438 | an instance of it from the start of a connection: a first message of up to 63 octets over an MTU of 100 arrives whole, in any order of its datagrams |
| `DtlsDelivery.RecArrives` | Crawl/Pods/BoringSSL-GRPC/ssl/dtls_record.cc:177-272 | a record of the epoch of the reader that was not accepted before, and that comes at some point with nothing 64 or more ahead of it before, is taken, and what it carries stays |
| `DtlsDelivery.DrainTakes` | Crawl/Pods/BoringSSL-GRPC/ssl/d1_both.cc:297-406 | a datagram of genuine records is consumed record by record without an error |
| `DtlsEndToEnd.PacketGenuine` | Crawl/Pods/BoringSSL-GRPC/ssl/d1_both.cc:739-780 | a packet built from a flight of queued messages carries only pieces of them, also after a roll-back |
| `IncomingRing.TakeRecordKeepsInv` | Crawl/Pods/BoringSSL-GRPC/ssl/d1_both.cc:297-406 | for every record, well formed or not: a slot that is not null holds a number congruent to its index and within 7 of `handshake_read_seq` |
| `IncomingRing.AdvanceKeepsInv` | Crawl/Pods/BoringSSL-GRPC/ssl/d1_both.cc:426-438 | moving to the next message keeps that invariant |
| `IncomingRing.SlotNumberMatches` | Crawl/Pods/BoringSSL-GRPC/ssl/d1_both.cc:265-295 | so the slot a fragment maps to is empty or holds its number: the assert on the sequence number cannot fail |
| `IncomingRing.FutureBoundary` | Crawl/Pods/BoringSSL-GRPC/ssl/d1_both.cc:380-382 | a fragment 7 ahead passes the filter and then fails the connection in the slot lookup; one further ahead is dropped without an error |
| `IncomingRing.IncomingMessages.GetIncomingMessage` | Crawl/Pods/BoringSSL-GRPC/ssl/d1_both.cc:265-295 | finds or makes the slot for a fragment, or fails, as the specification of the ring has it; no other slot is touched |
| `IncomingRing.IncomingMessages.TakeOne` | Crawl/Pods/BoringSSL-GRPC/ssl/d1_both.cc:362-402 | one turn of the fragment loop refines the specification: range checks, epoch check, window filter, copy and mark |
| `IncomingRing.IncomingMessages.TakeAll` | Crawl/Pods/BoringSSL-GRPC/ssl/d1_both.cc:350-405 | the loop over one record refines the specification and stops at the first bad fragment |
| `IncomingRing.IncomingMessages.GetMessage` | Crawl/Pods/BoringSSL-GRPC/ssl/d1_both.cc:408-424 | hands up a message exactly when the current one is complete; every octet of it has arrived at its offset, and the raw form is its serialisation as one fragment |
| `IncomingRing.IncomingMessages.NextMessage` | Crawl/Pods/BoringSSL-GRPC/ssl/d1_both.cc:426-438 | drops the current message and advances the number |
| `IncomingRing.IncomingMessages.HasBufferedMessage` | Crawl/Pods/BoringSSL-GRPC/ssl/d1_both.cc:440-457 | finds a leftover message exactly when some slot other than that of the message being processed is taken |
| `Reassembly.HmFragment.Mark` | Crawl/Pods/BoringSSL-GRPC/ssl/d1_both.cc:211-251 | the mask becomes the union of what was marked and the new range, and is dropped exactly when that union is the whole message |
| `Reassembly.HmFragment.MarkRange` | Crawl/Pods/BoringSSL-GRPC/ssl/d1_both.cc:222-236 | or-ing byte masks adds exactly the octets of the range and no others |
| `Reassembly.HmFragment.ScanMask` | Crawl/Pods/BoringSSL-GRPC/ssl/d1_both.cc:238-247 | the closing scan reports completeness by whole bytes and one partial byte |
| `Reassembly.ScanMeansAllMarked` | Crawl/Pods/BoringSSL-GRPC/ssl/d1_both.cc:238-247 | with nothing set past the end, that scan succeeds exactly when every octet is marked |
| `Reassembly.BitRangeBits` | Crawl/Pods/BoringSSL-GRPC/ssl/d1_both.cc:203-205 | the byte mask has exactly the bits from start to end |
| `Reassembly.HmFragment.constructor` | Crawl/Pods/BoringSSL-GRPC/ssl/d1_both.cc:152-199 | a new message has nothing marked and its header written as one whole fragment |
| `Reassembly.HmFragment.Deposit` | Crawl/Pods/BoringSSL-GRPC/ssl/d1_both.cc:399-402 | copying a fragment adds exactly its octets, at its offset, to what the message holds |
| `Reassembly.HmFragment.WholeMessage` | Crawl/Pods/BoringSSL-GRPC/ssl/d1_both.cc:408-424 | a message whose mask has been dropped reads as the serialisation of one fragment holding all of it |
| `HandshakeFragments.ParseSerialized` | Crawl/Pods/BoringSSL-GRPC/ssl/d1_both.cc:459-473 | parsing inverts serialising a fragment, whatever follows |
| `HandshakeFragments.SerializeParsed` | Crawl/Pods/BoringSSL-GRPC/ssl/d1_both.cc:459-473 | what was parsed serialises back to the octets it came from |
| `ReplayWindow.AcceptsExactly` | Crawl/Pods/BoringSSL-GRPC/ssl/dtls_record.cc:140-175 | over every run of one epoch: a record is accepted exactly when its number was not accepted before and no accepted number is 64 or more ahead |
| `ReplayWindow.NeverAcceptedTwice` | Crawl/Pods/BoringSSL-GRPC/ssl/dtls_record.cc:140-175 | no record number is accepted twice |
| `ReplayWindow.WindowRefinesSet` | Crawl/Pods/BoringSSL-GRPC/ssl/dtls_record.cc:140-175 | over every run the map stands for the accepted set: bit i is set exactly when `max_seq_num` - i was accepted |
| `ReplayWindow.Dtls1Bitmap.ShouldDiscard` | Crawl/Pods/BoringSSL-GRPC/ssl/dtls_record.cc:140-150 | discards exactly the accepted and the too old numbers |
| `ReplayWindow.Dtls1Bitmap.RecordSeq` | Crawl/Pods/BoringSSL-GRPC/ssl/dtls_record.cc:155-175 | the map after recording stands for the accepted set with the number added |
| `ReplayWindow.ToU64Be` | Crawl/Pods/BoringSSL-GRPC/ssl/dtls_record.cc:128-136 | the shift-and-or loop computes the big-endian value of the 8 octets |
| `ReplayWindow.U64BeInjective` | Crawl/Pods/BoringSSL-GRPC/ssl/dtls_record.cc:128-136 | two sequence fields with one value are the same octets |
| `RecordNumbers.RecordNumbersExactly` | Crawl/Pods/BoringSSL-GRPC/ssl/dtls_record.cc:294-351 | for every run of a connection, seals under the current and the previous epoch mixed with write-state changes: no (epoch, number) is used for two successful seals if and only if every seal that succeeds after its counter went past its last value uses a number that was skipped, for a ciphertext too long for its length field, the first time round |
| `RecordNumbers.ShortRecordNumbers` | Crawl/Pods/BoringSSL-GRPC/ssl/dtls_record.cc:294-351 | where every record fits its length field: numbers are unique if and only if nothing is sealed with a counter that has gone past its last value in its epoch; a counter keeps that mark when it becomes the previous one |
| `RecordNumbers.ZeroRepeats` | Crawl/Pods/BoringSSL-GRPC/ssl/dtls_record.cc:330-336 | 2^48 + 1 seals of any record that fits, under one epoch: number zero has been used twice |
| `RecordNumbers.RepeatExists` | Crawl/Pods/BoringSSL-GRPC/ssl/dtls_record.cc:330-336 | one such run, with the null cipher |
| `DtlsRecord.RecordNumbersUnique` | Crawl/Pods/BoringSSL-GRPC/ssl/dtls_record.cc:294-351 | from any state and whatever was used before: if no counter is at its last value when something is sealed with it, no (epoch, number) is used for two successful seals |
| `DtlsRecord.WrapReusesZero` | Crawl/Pods/BoringSSL-GRPC/ssl/dtls_record.cc:330-336 | at the last value the seal fails but leaves the counter at zero, and the next record that fits is sealed as number zero of the same epoch |
| `DtlsRecord.SequenceCounter.Update` | Crawl/Pods/BoringSSL-GRPC/ssl/tls_record.cc:154-163 | the carry loop adds one modulo 2^48 and reports failure exactly at the wrap, without touching the epoch |
| `DtlsRecord.RecordWriter.Seal` | Crawl/Pods/BoringSSL-GRPC/ssl/dtls_record.cc:294-351 | refines the specification of sealing: keys and counter by epoch, size checks, header layout |
| `DtlsRecord.RecordWriter.SetWriteState` | Crawl/Pods/BoringSSL-GRPC/ssl/dtls_method.cc:97-107 | moves the current keys and counter to the previous epoch and clears the current one |
| `DtlsRecord.ParseWireRecord` | Crawl/Pods/BoringSSL-GRPC/ssl/dtls_record.cc:186-205 | reading a record inverts writing it, whatever follows in the datagram |
| `DtlsReader.DtlsConnectionReader.Open` | Crawl/Pods/BoringSSL-GRPC/ssl/dtls_record.cc:177-272 | refines the specification of opening: parse, version, epoch, replay, open, then record the number |
| `DtlsReader.DtlsConnectionReader.OpenHandshakeRecord` | Crawl/Pods/BoringSSL-GRPC/ssl/d1_both.cc:297-406 | refines the specification of one handshake record: implicit ChangeCipherSpec, record type, fragments |
| `DtlsReader.DtlsConnectionReader.OpenChangeCipherSpec` | Crawl/Pods/BoringSSL-GRPC/ssl/d1_both.cc:475-490 | yields success exactly when a ChangeCipherSpec was seen, which it then uses up |
| `DtlsReader.DtlsConnectionReader.GetMessage` | Crawl/Pods/BoringSSL-GRPC/ssl/d1_both.cc:408-424 | as for the ring, on the whole connection; asking does not consume |
| `DtlsReader.DtlsConnectionReader.NextMessage` | Crawl/Pods/BoringSSL-GRPC/ssl/d1_both.cc:426-438 | releases the message and moves on |
| `DtlsReader.DtlsConnectionReader.SetReadState` | Crawl/Pods/BoringSSL-GRPC/ssl/dtls_method.cc:81-95 | refused exactly while octets of the old epoch are left over; otherwise the epoch is bumped and the window emptied |
| `DtlsReader.OpenKeepsInv` | Crawl/Pods/BoringSSL-GRPC/ssl/d1_both.cc:297-406 | opening any octets at all keeps the reader invariant |
| `DtlsReader.TakeRecordKeepsComplete` | Crawl/Pods/BoringSSL-GRPC/ssl/d1_both.cc:387-402 | once the current message is complete no record changes it |
| `DtlsSender.PackTiles` | Crawl/Pods/BoringSSL-GRPC/ssl/d1_both.cc:739-780 | for every packet size: what was packed are the next pieces of the flight in order without gap or overlap, they fit the packet, and (messages left, octets left) falls |
| `DtlsSender.TilingCovers` | Crawl/Pods/BoringSSL-GRPC/ssl/d1_both.cc:644-780 | a tiling up to the end of a flight carries exactly the rest of the current message and the whole of each later one |
| `DtlsSender.FailedPacketPosition` | Crawl/Pods/BoringSSL-GRPC/ssl/d1_both.cc:744-769 | when a packet cannot be built the position is what it was exactly if what was left of the current message could not go out as one record; otherwise records already sealed into the abandoned packet are skipped |
| `DtlsSender.GoesWholeExactly` | Crawl/Pods/BoringSSL-GRPC/ssl/d1_both.cc:644-734 | the state in which it can: keys of its epoch held, message well formed, room for all of it, number not the last, ciphertext within 16 bits |
| `DtlsSender.SecondRefused` | Crawl/Pods/BoringSSL-GRPC/ssl/d1_both.cc:744-769 | behind such a message one whose keys are no longer held fails the packet and the first is skipped |
| `DtlsSender.SkippedRecord` | Crawl/Pods/BoringSSL-GRPC/ssl/d1_both.cc:744-769 | for every handshake message with the ChangeCipherSpec behind it in one datagram and one record number left: the packet fails and the message is skipped |
| `DtlsSender.SealNextTiles` | Crawl/Pods/BoringSSL-GRPC/ssl/d1_both.cc:644-734 | one sealed record is the next piece of the current message and makes progress |
| `DtlsFlight.OutgoingFlight.SendPacket` | Crawl/Pods/BoringSSL-GRPC/ssl/d1_both.cc:797-815 | a packet the transport takes advances the position, by a packet within the MTU; one it refuses leaves the position where it was |
| `DtlsFlight.OutgoingFlight.SendFlight` | Crawl/Pods/BoringSSL-GRPC/ssl/d1_both.cc:782-827 | whatever the transport does and whether or not sealing fails: the accepted datagrams fit the MTU and tile the flight up to some position, the one it is left at unless sealing failed; success means the whole flight; over a transport that never refuses it succeeds exactly when writing is not shut down and every datagram of the transmission can be built |
| `DtlsTransmit.TransmitSucceeds` | Crawl/Pods/BoringSSL-GRPC/ssl/d1_both.cc:644-827 | every datagram can be built when the ciphers keep to their overhead, the messages are well formed and their keys held, the MTU has room for one octet and no more than one record, and the counters are far enough from their last value |
| `DtlsFlight.OutgoingFlight.RetransmitFlight` | Crawl/Pods/BoringSSL-GRPC/ssl/d1_both.cc:836-845 | a completed retransmission carries every message of the flight from end to end, in the datagrams of one whole transmission; it completes exactly when those can be built, if the transport does not refuse |
| `DtlsFlight.OutgoingFlight.FlushFlight` | Crawl/Pods/BoringSSL-GRPC/ssl/d1_both.cc:829-834 | closes the flight to new messages and sends it |
| `DtlsFlight.OutgoingFlight.AddOutgoing` | Crawl/Pods/BoringSSL-GRPC/ssl/d1_both.cc:555-594 | begins a new flight after a flushed one, refuses an eighth message, and numbers all but ChangeCipherSpec |
| `DtlsFlight.OutgoingFlight.SealNext` | Crawl/Pods/BoringSSL-GRPC/ssl/d1_both.cc:644-734 | refines the specification of one record of the flight: which keys, how much fits, the fragment header |
| `DtlsFlight.OutgoingFlight.SealPacket` | Crawl/Pods/BoringSSL-GRPC/ssl/d1_both.cc:739-780 | refines the specification of one packet |
| `DtlsFlight.OutgoingFlight.BuildMessage` | Crawl/Pods/BoringSSL-GRPC/ssl/d1_both.cc:511-537 | the finished message is the serialisation of one fragment with equal message and fragment length |
| `PbRoundTrip.MessageRoundTrip` | Crawl/Pods/nanopb/pb_decode.c:901-1063 | for every well-formed descriptor and every typed message that encodes, at every depth: decoding gives a message with the same content and no octets left exactly when every string sent is terminated inside its member; otherwise decoding fails |
| `PbRoundTrip.StringRoundTrip` | Crawl/Pods/nanopb/pb_decode.c:1428-1461 | a string that fills its member to the end is sent, and refused by the receiver; every shorter one comes back |
| `PbRoundTrip.IntegerRoundTrip` | Crawl/Pods/nanopb/pb_encode.c:734-791 | signed, unsigned and zigzag integers of 1, 2, 4 and 8 bytes come back unchanged |
| `PbRoundTrip.FixedRoundTrip` | Crawl/Pods/nanopb/pb_decode.c:1254-1286 | fixed fields of 4 and 8 bytes come back unchanged |
| `PbRoundTrip.OctetsRoundTrip` | Crawl/Pods/nanopb/pb_decode.c:1391-1508 | byte members within their room and fixed-length byte members come back unchanged |
| `PbRoundTrip.PackedRoundTrip` | Crawl/Pods/nanopb/pb_decode.c:419-448 | a packed array comes back entry for entry, behind what was there |
| `PbRoundTrip.ItemsRoundTrip` | Crawl/Pods/nanopb/pb_decode.c:449-459 | an unpacked array comes back entry by entry, each behind its key, or the decoder fails at an unterminated string |
| `PbRoundTrip.KeyStep` | Crawl/Pods/nanopb/pb_decode.c:919-933 | the key the encoder writes takes the decoder to the field it was written for |
| `PbRoundTrip.AllZeroIsDefault` | Crawl/Pods/nanopb/pb_encode.c:215-303 | what proto3 leaves out as default is what the receiver starts from, recursively |
| `PbRoundTrip.SkipsValue` | Crawl/Pods/nanopb/pb_decode.c:316-326 | by its wire type alone a value is skipped to its last octet and no further |
| `PbRoundTrip.UnknownFieldSkipped` | Crawl/Pods/nanopb/pb_decode.c:933-962 | a field the receiving descriptor lacks leaves the decoder where it would be without it |
| `PbRequired.DecodesExactly` | Crawl/Pods/nanopb/pb_decode.c:901-1049 | for every octet string: decoding succeeds exactly when all that is read can be decoded and the tag of each of the first 64 required fields was read |
| `PbRequired.CheckRequired` | Crawl/Pods/nanopb/pb_decode.c:1027-1045 | the word-and-remainder comparison succeeds exactly when each of the first 64 required fields was seen |
| `PbRequired.RecordOne` | Crawl/Pods/nanopb/pb_decode.c:988-993 | setting one bit records one required field and no other |
| `PbRequired.NumberUnique` | Crawl/Pods/nanopb/pb_common.c:65-70 | no two required fields share a number |
| `PbBounds.DecodedWithinBounds` | Crawl/Pods/nanopb/pb_decode.c:401-475 | for every octet string: in a decoded message no array, at any depth, holds more than its `array_size` |
| `PbDecoder.IStream.DecodeVarint` | Crawl/Pods/nanopb/pb_decode.c:250-270 | the loop computes the specified value, never reads past what is left, and stops where the specification does |
| `PbDecoder.IStream.DecodeVarint32` | Crawl/Pods/nanopb/pb_decode.c:182-242 | likewise, with the 8-bit wrap of the bit position and the end-of-file flag |
| `PbDecoder.IStream.DecodeTag` | Crawl/Pods/nanopb/pb_decode.c:293-314 | splits the key; a zero key ends a message like the end of the input |
| `PbDecoder.IStream.MakeSubstream` | Crawl/Pods/nanopb/pb_decode.c:367-380 | the substream has exactly the octets of the prefix; the parent keeps the number of those behind them |
| `PbDecoder.IStream.CloseSubstream` | Crawl/Pods/nanopb/pb_decode.c:382-395 | the parent is left exactly behind the declared size, whatever the substream used, and this never fails |
| `PbDecoder.IStream.SkipField` | Crawl/Pods/nanopb/pb_decode.c:316-326 | skips a value by its wire type as specified, or fails on an unknown one |
| `PbDecoder.IStream.Read` | Crawl/Pods/nanopb/pb_decode.c:100-132 | moves by exactly the count asked for, or fails |
| `PbDecoder.DecodeValue` | Crawl/Pods/nanopb/pb_decode.c:1289-1508 | the field decoders by type read what is specified and no octet outside what is left |
| `PbDecoder.DecodeSubmessage` | Crawl/Pods/nanopb/pb_decode.c:1463-1485 | an array entry starts from defaults, anything else is merged into; the parent ends behind the submessage |
| `PbDecoder.DecodeField` | Crawl/Pods/nanopb/pb_decode.c:401-475 | refines the specification of one field: packed and unpacked arrays, capacity, has flag, union member |
| `PbDecoder.DecodePacked` | Crawl/Pods/nanopb/pb_decode.c:419-448 | reads a packed array in a substream up to its end or to the capacity, as specified |
| `PbDecoder.DecodeNoInit` | Crawl/Pods/nanopb/pb_decode.c:901-1049 | the loop refines the specification for every input: it ends, stays inside what is left, and checks the required fields |
| `PbDecoder.Decode` | Crawl/Pods/nanopb/pb_decode.c:1051-1063 | the same from defaults |
| `PbDecoder.SetToDefaults` | Crawl/Pods/nanopb/pb_decode.c:884-895 | every member gets its default, the members of a union one |
| `PbDecoder.CountRequired` | Crawl/Pods/nanopb/pb_decode.c:1012-1025 | running the iterator to the end counts the required fields, capped at 64 |
| `PbEncoder.Encode` | Crawl/Pods/nanopb/pb_encode.c:494-516 | sizing and writing streams alike: success exactly when the message is encodable and, when writing, its encoding fits; then exactly that encoding is in the buffer and exactly its length is added; a failure stays inside the room of the stream |
| `PbEncoder.GetEncodedSize` | Crawl/Pods/nanopb/pb_encode.c:533-542 | succeeds exactly when the message is encodable and then gives the length of what writing emits; so writing into a buffer succeeds exactly when this does with a size that fits |
| `PbEncoder.EncodeSubmessage` | Crawl/Pods/nanopb/pb_encode.c:682-730 | the length prefix is the length of what follows, at every depth, in both kinds of stream |
| `PbEncoder.EncodeNested` | Crawl/Pods/nanopb/pb_encode.c:708-729 | the writing pass comes out at the size of the sizing pass: "submsg size changed" cannot happen |
| `PbEncoder.EncodeArray` | Crawl/Pods/nanopb/pb_encode.c:126-211 | packed where the type allows it, with the same total either way of computing it |
| `PbEncoder.PackedSize` | Crawl/Pods/nanopb/pb_encode.c:145-165 | the size computed without writing is the number of octets the entries take |
| `PbEncoder.EncodeField` | Crawl/Pods/nanopb/pb_encode.c:307-392 | one field: required, has flag, proto3 default, array, union member |
| `PbEncoder.EncodeValue` | Crawl/Pods/nanopb/pb_encode.c:734-868 | the value encoders by type |
| `PbEncoder.OStream.Write` | Crawl/Pods/nanopb/pb_encode.c:101-119 | writes all or, when it does not fit, nothing |
| `PbEncoder.OStream.EncodeVarint` | Crawl/Pods/nanopb/pb_encode.c:574-594 | emits the groups of seven bits, counted or written |
| `PbEncoding.ZigZagRoundTrip` | Crawl/Pods/nanopb/pb_encode.c:596-605 | zigzag codes small magnitudes of either sign small and is undone by its inverse |
| `PbFieldIter.FieldIter.Find` | Crawl/Pods/nanopb/pb_common.c:78-95 | from any position: succeeds exactly when the descriptor has the tag, at the first place in cyclic order; else the position is unchanged; the pointers and the required-field number are those of the position, whatever the route |
| `PbFieldIter.FieldIter.Next` | Crawl/Pods/nanopb/pb_common.c:20-76 | one field on, or back to the start; pointers as the layout has them, unions kept at one place |
| `PbFieldIter.FieldIter.Begin` | Crawl/Pods/nanopb/pb_common.c:8-18 | at the first field; fails exactly on an empty descriptor |
| `PbFieldIter.MembersDisjoint` | Crawl/Pods/nanopb/pb_common.c:41-74 | a member outside unions ends before every later one starts |
| `PbFieldIter.SharedSlotSharesLayout` | Crawl/Pods/nanopb/pb_common.c:44-50 | members of one union are at one address and share the which_ member |
| `Varints.VarintRoundTrip` | Crawl/Pods/nanopb/pb_decode.c:250-270 | decoding inverts encoding for every 64-bit value, whatever follows |
| `Varints.EncodedLength` | Crawl/Pods/nanopb/pb_encode.c:574-594 | every 64-bit value takes one to ten octets |
| `Varints.Varint32Exactly` | Crawl/Pods/nanopb/pb_decode.c:182-247 | what the 32-bit decoder makes of the encoding of any 64-bit value, exactly |
| `Varints.Varint32RoundTrip` | Crawl/Pods/nanopb/pb_decode.c:182-247 | every value below 2^32 comes back |
| `Varints.Varint32Negative` | Crawl/Pods/nanopb/pb_decode.c:182-247 | every negative int32, sent sign-extended, comes back as its low 32 bits |
| `Varints.Varint32Refuses` | Crawl/Pods/nanopb/pb_decode.c:182-247 | everything from 2^32 up to 2^63 is refused |
| `Varints.Varint32AcceptsMore` | Crawl/Pods/nanopb/pb_decode.c:216-225 | above 2^63 more than sign extensions is accepted |
| `Varints.DecodeBound` | Crawl/Pods/nanopb/pb_decode.c:250-270 | any input whatever: the result is a uint64 |
| `Varints.Decode32Bound` | Crawl/Pods/nanopb/pb_decode.c:182-247 | any input whatever: the result is a uint32 |
| `TlsWrite.WritePath.FlushFlight` | Crawl/Pods/BoringSSL-GRPC/ssl/s3_both.cc:231-279 | whatever the transport takes, given octets, write buffer and unflushed flight stay all records in sealing order; success means the flight is out; over a transport that does not block it succeeds exactly when writing is not shut down and the flight is not longer than an int |
| `TlsWrite.WritePath.AddMessage` | Crawl/Pods/BoringSSL-GRPC/ssl/s3_both.cc:184-205 | adds the message cut into records of at most `max_send_fragment`, at least one; after a failure a prefix of them |
| `TlsWrite.WritePath.AddRecordToFlight` | Crawl/Pods/BoringSSL-GRPC/ssl/s3_both.cc:135-165 | appends one sealed record to the flight, in order |
| `TlsWrite.WritePath.AddChangeCipherSpec` | Crawl/Pods/BoringSSL-GRPC/ssl/s3_both.cc:207-218 | appends one ChangeCipherSpec record |
| `TlsWrite.WritePath.WriteBufferFlush` | Crawl/Pods/BoringSSL-GRPC/ssl/ssl_buffer.cc:239-252 | succeeds exactly when the buffer has been emptied, and always over a transport that does not block; order is kept throughout |
| `TlsWrite.WritePath.WritePending` | Crawl/Pods/BoringSSL-GRPC/ssl/s3_pkt.cc:202-218 | refuses a retry that is shorter, of another type or, unless allowed, elsewhere; over a transport that does not block any other retry completes the pending record |
| `TlsWrite.WritePath.DoWrite` | Crawl/Pods/BoringSSL-GRPC/ssl/s3_pkt.cc:221-289 | seals the record at most once: at the first call, in which the unwritten flight goes in front of it; a retry seals nothing; over a transport that does not block it succeeds exactly for a good retry, or for a record of a proper length that seals while the buffer is empty and can hold it |
| `TlsWrite.WritePath.WriteAppData` | Crawl/Pods/BoringSSL-GRPC/ssl/s3_pkt.cc:129-200 | over calls and retries the plaintexts sealed are the buffer prefix, no octet twice or left out, each record at most `max_send_fragment`; a completed call without partial writes returns the whole length; a retry that is too short fails; where nothing but the transport stands in the way and that does not block, the call succeeds |
| `TlsWrite.WritePath.LongerRetry` | Crawl/Pods/BoringSSL-GRPC/ssl/s3_pkt.cc:143-157 | a retry may offer more than the call before it |
| `TlsWrite.ChunksTile` | Crawl/Pods/BoringSSL-GRPC/ssl/s3_both.cc:184-205 | the records are the message in order, none too long and none empty unless the message is |
| `SslBuffer.ConsumeExactly` | Crawl/Pods/BoringSSL-GRPC/ssl/ssl_buffer.cc:90-97 | consuming shows the right octets, for all contents, exactly when the 16-bit offset does not pass its range or nothing is left |
| `SslBuffer.SSLBuffer.EnsureCap` | Crawl/Pods/BoringSSL-GRPC/ssl/ssl_buffer.cc:47-81 | keeps the contents, aligns what follows the header, refuses capacities above 65535; offsets into a new block cannot wrap exactly when its capacity and its own alignment slack stay below 2^16 |
| `SslBuffer.SlackWraps` | Crawl/Pods/BoringSSL-GRPC/ssl/ssl_buffer.cc:90-97 | the largest capacity behind the largest slack: after all but six octets are consumed the first six are shown instead of the last |
| `SslBuffer.SSLBuffer.Consume` | Crawl/Pods/BoringSSL-GRPC/ssl/ssl_buffer.cc:90-97 | drops the first octets of the queue unless the offset wraps |
| `SslBuffer.SSLBuffer.Append` | Crawl/Pods/BoringSSL-GRPC/ssl/ssl_buffer.cc:83-88 | puts octets at the end of the queue |
| `SslBuffer.SSLBuffer.DiscardConsumed` | Crawl/Pods/BoringSSL-GRPC/ssl/ssl_buffer.cc:99-103 | changes no content |
| `SslBuffer.Padding` | Crawl/Pods/BoringSSL-GRPC/ssl/ssl_buffer.cc:47-81 | the slack aligns the payload and is less than the alignment |
| `TlsReader.AnyRecords` | Crawl/Pods/BoringSSL-GRPC/ssl/s3_both.cc:399-560 | however the octets of the messages are cut into records, the same messages come out in order and nothing is left, exactly unless more than 32 records in a row are empty |
| `TlsReader.SentIsReceived` | Crawl/Pods/BoringSSL-GRPC/ssl/s3_both.cc:184-205 | what one side adds message by message the other side takes message by message |
| `TlsReader.TakenIsPrefix` | Crawl/Pods/BoringSSL-GRPC/ssl/s3_both.cc:399-425 | whoever has taken messages off a stream has taken the first of those sent |
| `TlsReader.AcceptsWithin` | Crawl/Pods/BoringSSL-GRPC/ssl/s3_both.cc:441-459 | the length limit never stops messages that keep to it |
| `TlsReader.HandshakeReader.ParseMessage` | Crawl/Pods/BoringSSL-GRPC/ssl/s3_both.cc:399-425 | finds the first message exactly when it is all there, else how much is needed |
| `TlsReader.HandshakeReader.GetMessage` | Crawl/Pods/BoringSSL-GRPC/ssl/s3_both.cc:427-439 | the message behind those released, as often as it is asked for |
| `TlsReader.HandshakeReader.NextMessage` | Crawl/Pods/BoringSSL-GRPC/ssl/s3_both.cc:562-583 | releases that message; what was received stays the released messages and the buffer |
| `TlsReader.HandshakeReader.OpenHandshake` | Crawl/Pods/BoringSSL-GRPC/ssl/s3_both.cc:474-560 | appends a whole handshake record or changes nothing; the buffer stays under one message of the longest kind and one record |
| `TlsReader.HandshakeReader.OpenRecord` | Crawl/Pods/BoringSSL-GRPC/ssl/tls_record.cc:206-374 | nothing is opened over a complete message, and no other record comes between the parts of one |
| `TlsReader.HandshakeReader.HasUnprocessedHandshakeData` | Crawl/Pods/BoringSSL-GRPC/ssl/s3_both.cc:461-472 | no data is left over exactly when what was received ends with the message at hand or the last one |
| `HandshakeRuns.TranscriptsMatch` | Crawl/Pods/BoringSSL-GRPC/ssl/handshake.cc:215-222 | in every reachable state each transcript holds every message said or consumed so far exactly once and in order, and the two differ by what is on its way |
| `HandshakeRuns.DoneAgree` | Crawl/Pods/BoringSSL-GRPC/ssl/handshake.cc:491-628 | when both sides are done their transcripts are the same whole handshake |
| `HandshakeRuns.FinishedMatches` | Crawl/Pods/BoringSSL-GRPC/ssl/handshake.cc:380-476 | the Finished at hand was computed by the peer over the very transcript it is checked against, for both sides |
| `HandshakeRuns.MoveKeepsInv` | Crawl/Pods/BoringSSL-GRPC/ssl/handshake.cc:491-628 | every move of either side, with any suspension, keeps the two in step, and none fails unless a callback fails |
| `HandshakeRuns.RunKeepsInv` | Crawl/Pods/BoringSSL-GRPC/ssl/handshake.cc:491-628 | so over every interleaving |
| `HandshakeRuns.NoDeadlock` | Crawl/Pods/BoringSSL-GRPC/ssl/handshake.cc:491-628 | two sides that both wait for the other, or are done, are both done |
| `HandshakeRuns.CanFinish` | Crawl/Pods/BoringSSL-GRPC/ssl/handshake.cc:491-628 | from every reachable state without a failure both sides can be brought to the end, within the measure of the state |
| `HandshakeRuns.RunsAreShort` | Crawl/Pods/BoringSSL-GRPC/ssl/handshake.cc:491-628 | every run of moves that do something is bounded by the measure of its start and twice its suspensions |
| `HandshakeRuns.MoveLowers` | Crawl/Pods/BoringSSL-GRPC/ssl/handshake.cc:491-628 | every move lowers the measure, but for a suspension, which raises it by one, and a write that got nowhere |
| `HandshakePair.ClientDoOk` | Crawl/Pods/BoringSSL-GRPC/ssl/handshake_client.cc:1707-1789 | no client state breaks step with a peer in step, and none fails unless a callback does |
| `HandshakePair.ServerDoOk` | Crawl/Pods/BoringSSL-GRPC/ssl/handshake_server.cc:1539-1621 | no server state breaks step with a peer in step, and none fails unless a callback does |
| `HandshakeMachines.ClientRankFalls` | Crawl/Pods/BoringSSL-GRPC/ssl/handshake_client.cc:1707-1789 | a client state function that does not wait lowers a rank that depends on resumption; one that waits changes nothing else |
| `HandshakeMachines.ServerRankFalls` | Crawl/Pods/BoringSSL-GRPC/ssl/handshake_server.cc:1539-1621 | a server state function that does not wait lowers a rank that depends on resumption; one that waits changes nothing else |
| `HandshakeScript.TranscriptsAgree` | Crawl/Pods/BoringSSL-GRPC/ssl/handshake.cc:215-222 | two sides in step have hashed the same, up to what is on its way |
| `HandshakeDriver.Driver.RunHandshake` | Crawl/Pods/BoringSSL-GRPC/ssl/handshake.cc:491-628 | the driver makes only moves of a run, ends, returns 1 only when the handshake is complete, and gives up reading only when there is nothing to open |
| `HandshakeDriver.Driver.DoHandshake` | Crawl/Pods/BoringSSL-GRPC/ssl/handshake_client.cc:1707-1789 | runs state functions until one waits or all are done |
| `HandshakeDriver.Driver.ReadOne` | Crawl/Pods/BoringSSL-GRPC/ssl/handshake.cc:508-546 | opens one record for the wait at hand, or fails on one of the wrong kind |
| `HandshakeDriver.Driver.FlushSome` | Crawl/Pods/BoringSSL-GRPC/ssl/handshake.cc:500-506 | writes what the transport takes of the flight, in order, and goes on only when all is out |
| `CipherChoice.ChooseCipher` | Crawl/Pods/BoringSSL-GRPC/ssl/handshake_server.cc:357-424 | with server preference: null exactly when no closed group has an acceptable cipher, else the one with the least client index in the first group that has any; without: the first acceptable of the client |
| `CipherChoice.Choose` | Crawl/Pods/BoringSSL-GRPC/ssl/handshake_server.cc:390-423 | the one-pass loop over groups computes that choice |
| `CipherChoice.AllClosed` | Crawl/Pods/BoringSSL-GRPC/ssl/internal.h:1860-1893 | no entry is left out exactly when the last group flag is 0 |
| `Premaster.CheckPremaster` | Crawl/Pods/BoringSSL-GRPC/ssl/handshake_server.cc:1149-1178 | for every buffer: an error exactly when it is too short; else the embedded premaster if the padding, its length and the version are right, and the random one unchanged if not |
| `Premaster.SameCheck` | Crawl/Pods/BoringSSL-GRPC/ssl/handshake_server.cc:1149-1178 | the position by position tests agree with the unpadding of section 7.2.2 of RFC 3447 followed by the length and version checks of section 7.4.7.1 of RFC 5246 |
| `Premaster.PaddingMask` | Crawl/Pods/BoringSSL-GRPC/ssl/handshake_server.cc:1157-1171 | the masks computed without branching are all ones exactly for a well-padded buffer |
| `Premaster.SelectPremaster` | Crawl/Pods/BoringSSL-GRPC/ssl/handshake_server.cc:1173-1178 | the select loop replaces all of the premaster or none of it |
| `Premaster.IsZeroMask` | Crawl/Pods/BoringSSL-GRPC/crypto/internal.h:303-316 | all ones exactly for zero |
| `Premaster.EqMask` | Crawl/Pods/BoringSSL-GRPC/crypto/internal.h:325-328 | all ones exactly for equal words |
| `Premaster.SelectMask` | Crawl/Pods/BoringSSL-GRPC/crypto/internal.h:351-355 | selects by mask |
| `Refcount.Linearizes` | Crawl/Pods/BoringSSL-GRPC/crypto/refcount_c11.c:37-65 | for any number of threads, any interleaving and any spurious failure: the calls have the outcomes they have one at a time under the lock, the count is what that order leaves, and each thread was told what that order told it |
| `Refcount.StepGrowsLog` | Crawl/Pods/BoringSSL-GRPC/crypto/refcount_c11.c:37-65 | each call takes effect between its start and its return |
| `Refcount.NoLostUpdate` | Crawl/Pods/BoringSSL-GRPC/crypto/refcount_lock.c:29-51 | below the maximum the count is initial + increments - decrements |
| `Refcount.OneZeroReport` | Crawl/Pods/BoringSSL-GRPC/crypto/refcount_lock.c:37-51 | between two decrements that report zero there is an increment |
| `Refcount.ZeroMeansZero` | Crawl/Pods/BoringSSL-GRPC/crypto/refcount_lock.c:37-51 | zero is reported only where the count became zero |
| `Refcount.MaxAbsorbs` | Crawl/Pods/BoringSSL-GRPC/crypto/refcount_lock.c:29-51 | the maximum is never left |
| `Refcount.LockedCount.Inc` | Crawl/Pods/BoringSSL-GRPC/crypto/refcount_lock.c:29-35 | saturating increment |
| `Refcount.LockedCount.DecAndTestZero` | Crawl/Pods/BoringSSL-GRPC/crypto/refcount_lock.c:37-51 | abort at zero, no change at the maximum, else one less and whether that is zero |
| `Refcount.CasInc` | Crawl/Pods/BoringSSL-GRPC/crypto/refcount_c11.c:37-47 | among any interference the loop ends and adds exactly one increment to the order of effects |
| `Refcount.CasDecAndTestZero` | Crawl/Pods/BoringSSL-GRPC/crypto/refcount_c11.c:49-65 | among any interference the loop ends and adds exactly one decrement, with the outcome returned |

## Left out

- Swift application code under `Crawl/Crawl`: views, notifications and look-ups.
- Cryptography and certificates: AEADs, hashes, key agreement, RSA and X.509; where they are needed they are abstract functions.
- TLS 1.3, SSL 3.0, renegotiation, False Start, early data, HelloVerifyRequest, V2ClientHello and handoff.
- Alerts, close_notify, `ssl3_dispatch_alert` and `ssl3_open_app_data`; a record that carries an alert is handed to code that is not modelled.
- DTLS timers, the MTU query and its back-off: the packet size is a parameter of each step.
- Allocation failure, time, info and message callbacks, the error queue: results of the transport and of callbacks come from scripts that a statement ranges over.
- nanopb extensions, callback fields, pointer fields and `PB_ENABLE_MALLOC`, fixed-count arrays, and the build without 64-bit integers.
- The read side of `SSLBuffer` (`ssl_read_buffer_extend_to`, `ssl_handle_open_record`), `dtls_write_buffer_flush` and the scatter forms of sealing.
- `constant_time_lt_w` and `constant_time_ge_w`, which the premaster check does not use.
- DtlsEndToEnd.EndToEnd: the 16-bit message and epoch counters are taken not to wrap, which the enabling condition of the steps says.
- DtlsRecord.RecordNumbersUnique: one direction, from any state; RecordNumbers.RecordNumbersExactly has both, from the beginning of a connection.
- DtlsCompletion.RetransmissionCompletes: the MTU is at most 2^14, the version is one the reader accepts, and the messages of its epoch are within the length limit and the window (`CanReceive`); no message is consumed between the arrivals; that every datagram arrives, and in time for the replay window, is a condition, not assumed of the network.
- DtlsFlight.OutgoingFlight.FlushFlight: the timer that asks for a retransmission is not modelled.
- DtlsRecord.RecordWriter.Seal: returns the record as a value, where the source seals into the buffer of its caller, which may overlap the input.
- PbRoundTrip.MessageRoundTrip: encodings are shorter than 2^32 octets, the size a length prefix can carry through the 32-bit decoder; fields without a has_ flag have zero defaults; NULs inside strings end them, as in the source.
- PbEncoder.Encode: sizes stay below 2^64 (`SizedMessage`), so that 64-bit `size_t` arithmetic does not overflow.
- PbEncoder.EncodeSubmessage: sizes stay below 2^64, as for PbEncoder.Encode.
- PbDecoder.Decode: the struct is returned as a value, where the source writes through interior pointers; after a failure nothing is said about its members.
- PbDecoder.DecodeField: the member is passed and returned as a value, as for PbDecoder.Decode.
- PbFieldIter.FieldIter.Find: pointers are offsets from the start of the struct; raw padding is part of the offsets.
- TlsWrite.WritePath.WriteAppData: a write leaves 7 octets of slack below 2^16 or is refused outright (`AlignsAny`), so that buffer offsets cannot wrap.
- TlsWrite.WritePath.DoWrite: the same room is asked of one record (`Aligns`).
- TlsReader.HandshakeReader.OpenHandshake: record headers, versions and decryption are one parameter, what the record opens to; the buffer is a value that is replaced, not moved in place.
- HandshakePair.ClientDoOk: message bodies are reduced to what the machines branch on, and the `do_` functions are functions on values; parsing errors inside a body are failures of the environment.
- HandshakePair.ServerDoOk: as for HandshakePair.ClientDoOk.
- HandshakeRuns.TranscriptsMatch: both sides are honest implementations with the same parameters; what a peer that deviates can cause is not part of this model.
- HandshakeDriver.Driver.RunHandshake: early returns for handoff, early data and certificate selection are one kind of suspension.
- Refcount.Linearizes: memory is sequentially consistent, as C11 atomics without explicit orders are.
