# FishingPoint protocol cores, verified

The app itself is Swift around Firebase; what can go wrong in interesting ways sits in the C and C++ code
it ships with. This project models four cores of that code in Dafny and proves what they are for.

1. **The nanopb codec** (`Pb*.dfy`). `pb_encode` and `pb_decode` with their streams, descriptor iterator,
   required-field bit mask, integer codecs and nested substreams, as methods on mutable streams and
   structs. Each is proved against a pure specification (`PbEncodeSpec`, `PbDecodeSpec`), and about these
   specifications the laws of the Protocol Buffers encoding are proved: the round trip with its exact
   condition (`PbRoundTrip`, `PbCanon`), concatenation as merge and transparency of unknown fields
   (`PbMerge`). `PbLayout` says what the bytes are and `PbFields` and `PbSame` what a reader finds in the
   struct, field by field and without those specifications' own functions: required fields, defaults, merged
   submessages, appended arrays. A C struct is a sequence of slots, one for each field or union.

2. **DTLS handshake transport and records** (`Dtls*.dfy`, `AeadContext.dfy`, `WireLayout.dfy`). Replay
   window, record numbers, sealing and opening around an abstract AEAD, with nonces, additional data and
   headers told byte by byte in `WireLayout`, reassembly by bitmap in a ring of seven, and a
   sender that cuts a flight into fragments for any MTU and sends it again, byte for byte as packets of
   sealed records. `DtlsLink` joins sender and receiver, record layers included, through a network that
   loses, repeats and reorders packets, across ChangeCipherSpec and the change of keys, and delivers what
   was queued (sections 4.1.2.6, 4.2.2 to 4.2.4 and 4.2.6 of RFC 6347).

3. **The TLS handshake up to version 1.2** (`Handshake*.dfy`, `ClientHandshake.dfy`,
   `ServerHandshake.dfy`, `CipherChoice.dfy`). One method per `do_*` state, on a shared `Peer` that holds
   the transcript. Callbacks, parsers and checks that are not modelled may answer anything, and may ask to
   be asked again; each state says what comes of which answer. Proved over every run: the transcript holds
   each message sent or consumed once and in order, the raw buffer is used only while it is there, steps
   make progress, a message that is waited for is kept, a call that does not finish has a cause, and a
   finished handshake has exchanged exactly the messages and cipher changes of figures 1 and 2 of RFC 5246
   (with the ticket of RFC 5077), each Finished being the right MAC behind its cipher change. `HandshakeAgreement` puts a client and a server together.

4. **The non-blocking TLS write path** (`TlsBuffer.dfy`, `TlsWriter.dfy`). Bytes taken by the transport,
   buffered bytes and the unsent flight are the texts of the records as they were sealed, in order, in
   every state; application data is carried once and in order, from a new connection on, across handshake
   flights, blocked writes and retries (`TlsWriter.Run`).

`Bits`, `Bytes` and `BigEndian` hold the arithmetic: C's bit operations are defined on natural numbers,
and every cast, wrap-around and 16-, 32- or 64-bit limit that matters is written out.

How to read it. A class is an object the code updates in place; its `Valid` is what every method keeps.
A function without side effects is the reference a method is compared with. What callbacks, parsers and
the network say is a parameter, and `*` where a loop asks for it, so that the results hold for all
answers. Build flags (`PB_FIELD_32BIT`, `PB_ENABLE_MALLOC`) are those of the pod's `nanopb.xcconfig`.

Where the code falls short of what one might expect, the model follows the code:

- a string without NUL is written but not read back, and so is a length of 2^32 or more (`PbRoundTrip.RoundTrip`);
- a zero key ends a message, so what is appended behind it is ignored (`PbMerge.MergeFailsAfterZeroKey`);
- a submessage that is empty but for a `which_` tag of no member is written, and lost when decoded and
  encoded again (`PbCanon.ReEncode`);
- under an MTU above 2^14 a DTLS record may be sealed that no reader takes (`DtlsSender.OversizedText`,
  `DtlsLimits.SentAndRefused`);
- when sealing fails behind other records of a packet, those are lost and still count as sent until the flight
  is begun again (`DtlsSender.Sender.SendPacket`, `DtlsLimits.RecordsLost`);
- when the last sequence number of an epoch is used, numbers repeat (`DtlsRecord.WrapRepeats`);
- a fragment exactly seven messages ahead passes the filter that should ignore it and is refused as an
  error by the next (`DtlsReceiver.Receiver.AcceptFragment`);
- the 16-bit offset of `SSLBuffer` can wrap at capacities that `EnsureCap` accepts (`TlsBuffer.OffsetWraps`);
- a shorter retry resets the count of bytes already written, and the next full one seals them again
  (`TlsWriter.TlsWriter.ShortRetry`).

`dafny verify dfyconfig.toml` checks the whole project.

## Model

| member | source | states |
|---|---|---|
| `PbWire.VarintRoundTrip` | FishingPoint/Pods/nanopb/pb_decode.c:250-271 | For every value below 2^64, `pb_decode_varint` on its varint returns the value and stops right behind it, whatever follows. |
| `PbWire.VarintMinimal` | FishingPoint/Pods/nanopb/pb_encode.c:574-594 | The encoder's form is minimal: no input that decodes to a value is shorter than its varint. |
| `PbWire.VarintFits` | FishingPoint/Pods/nanopb/pb_encode.c:574-594 | Ten bytes hold the varint of any 64-bit value, so the local buffer is never overrun. |
| `PbWire.LoopBound` | FishingPoint/Pods/nanopb/pb_decode.c:250-271 | The 64-bit decoder never returns more than the groups it consumed can hold. |
| `PbWire.Varint32RoundTrip` | FishingPoint/Pods/nanopb/pb_decode.c:182-247 | The 32-bit decoder reads back every value below 2^32. |
| `PbWire.Varint32Overflow` | FishingPoint/Pods/nanopb/pb_decode.c:210-233 | The 32-bit decoder refuses the varint of every value from 2^32 up to 2^63. |
| `PbWire.Varint32SignExtended` | FishingPoint/Pods/nanopb/pb_decode.c:205-233 | A negative 32-bit number in its ten-byte sign-extended form is read as its low 32 bits. |
| `PbWire.ZigzagRoundTrip` | FishingPoint/Pods/nanopb/pb_encode.c:596-605 | Zigzag maps the signed 64-bit range into the unsigned one and is undone by the decoder's formula. |
| `PbWire.UnzigzagRoundTrip` | FishingPoint/Pods/nanopb/pb_decode.c:1240-1252 | Every unsigned 64-bit value is the zigzag form of the signed value it decodes to. |
| `PbWire.FixedRoundTrip` | FishingPoint/Pods/nanopb/pb_decode.c:1254-1286 | Little-endian fixed-width numbers read back as written. |
| `PbDescriptor.ZeroBytesIsZero` | FishingPoint/Pods/nanopb/pb_encode.c:283-302 | The byte-wise zero test of the proto3 default check is the test for the number zero, for every integer size C has. |
| `PbRoundTrip.RoundTrip` | FishingPoint/Pods/nanopb/pb_encode.c:494-516 | For every well-formed descriptor and stored message, `pb_decode` accepts what `pb_encode` wrote if and only if every string written is NUL-terminated in its buffer and every length written is below 2^32, and then rebuilds presence, counts, order, oneof choice and nested messages. |
| `PbRoundTrip.ValueRoundTrip` | FishingPoint/Pods/nanopb/pb_decode.c:1289-1508 | One value of any type is read back by its `pb_dec_*` function, or refused, exactly as the same condition says. |
| `PbRoundTrip.PackedRoundTrip` | FishingPoint/Pods/nanopb/pb_decode.c:420-448 | The packed-array loop appends every number written, in order. |
| `PbRoundTrip.TaggedRoundTrip` | FishingPoint/Pods/nanopb/pb_encode.c:182-208 | An array whose items carry their own tags is read back item by item behind what was there. |
| `PbRoundTrip.SingleFieldRead` | FishingPoint/Pods/nanopb/pb_decode.c:401-475 | A required, optional or oneof field is read back over whatever a fresh struct holds. |
| `PbRoundTrip.StringFits` | FishingPoint/Pods/nanopb/pb_decode.c:1428-1461 | The decoder's room check passes exactly when the terminator lies inside the buffer. |
| `PbRoundTrip.DelimitedRead` | FishingPoint/Pods/nanopb/pb_decode.c:367-395 | A length prefix and its payload are read back exactly when the length is below 2^32. |
| `PbCanon.ReEncode` | FishingPoint/Pods/nanopb/pb_decode.c:1051-1063 | Encoding what the decoder made of an encoding gives the same bytes if and only if no hollow submessage was written (one that the zero test counts as non-empty only for a stray union tag), and otherwise fewer bytes. |
| `PbCanon.CanonShrinks` | FishingPoint/Pods/nanopb/pb_encode.c:215-392 | The observable part of a message is a message of the same type; it encodes to the same bytes if no hollow submessage is written, and to fewer otherwise. |
| `PbCanon.StrayTag` | FishingPoint/Pods/nanopb/pb_encode.c:230-234 | A concrete hollow submessage: written for its stray union tag, and left out of its canonical form. |
| `PbMerge.MergeExact` | FishingPoint/Pods/nanopb/pb_decode.c:901-1049 | Decoding `a + b` into a struct is decoding `b` on top of the result of `a`, unless `a` ends at a zero key, in which case `b` is never looked at; required fields may be in either half. |
| `PbMerge.Merge` | FishingPoint/Pods/nanopb/pb_decode.c:901-1049 | If decoding `a` (without zero key) and then `b` succeeds, decoding `a + b` succeeds and leaves the same struct. |
| `PbMerge.MergeFailsAfterZeroKey` | FishingPoint/Pods/nanopb/pb_decode.c:293-314 | Concretely, behind a zero key the second half is ignored. |
| `PbMerge.LoopConcat` | FishingPoint/Pods/nanopb/pb_decode.c:919-987 | The decoding loop over two inputs in a row. |
| `PbMerge.TurnLocal` | FishingPoint/Pods/nanopb/pb_decode.c:919-986 | What one turn of the loop does depends only on the bytes it consumes. |
| `PbMerge.SkipExact` | FishingPoint/Pods/nanopb/pb_decode.c:273-326 | `pb_skip_field` consumes exactly the payload of a field, for wire types 0, 1, 2 and 5. |
| `PbMerge.UnknownFieldsTransparent` | FishingPoint/Pods/nanopb/pb_decode.c:919-962 | Unknown fields put anywhere between the fields of an accepted message do not change the struct; what comes behind a zero key stays unread, as before. |
| `PbMerge.FieldsOfConcat` | FishingPoint/Pods/nanopb/pb_decode.c:919-987 | The pieces between which they are put are the message, cut where the loop's turns end. |
| `PbMerge.NestedTransparent` | FishingPoint/Pods/nanopb/pb_decode.c:1463-1485 | A submessage body may be replaced by any that decodes to the same message. |
| `PbIterator.FieldIter.Begin` | FishingPoint/Pods/nanopb/pb_common.c:8-18 | The iterator starts in the state of position 0. |
| `PbIterator.FieldIter.Next` | FishingPoint/Pods/nanopb/pb_common.c:20-76 | After any mix of calls, data and size offsets, required index and union slot are those of a fresh walk to the position; the last field wraps to the first. |
| `PbIterator.FieldIter.Find` | FishingPoint/Pods/nanopb/pb_common.c:78-95 | Succeeds if and only if the tag exists, standing at it; otherwise the iterator is where and as it was. |
| `PbIterator.FoundIsIndexOf` | FishingPoint/Pods/nanopb/pb_common.c:78-95 | With distinct tags the field found does not depend on where the search began. |
| `PbIterator.WalkFollowsLayout` | FishingPoint/Pods/nanopb/pb_common.c:34-75 | The walk reaches every member, union members included, at its offset in the C struct the descriptor describes. |
| `PbRequired.Mark` | FishingPoint/Pods/nanopb/pb_decode.c:988-993 | Marking a field adds exactly its index to the set the two words stand for. |
| `PbRequired.AllPresent` | FishingPoint/Pods/nanopb/pb_decode.c:1006-1046 | The comparison of whole words and of the part word is the test that every bit up to the count, capped at 64, is set. |
| `PbRequired.MaskMeansAllRequired` | FishingPoint/Pods/nanopb/pb_decode.c:1006-1046 | That test holds if and only if every tracked required field was seen. |
| `PbOStream.VarintBytes` | FishingPoint/Pods/nanopb/pb_encode.c:574-594 | The loop over seven-bit groups writes the varint of its value. |
| `PbOStream.OStream.Write` | FishingPoint/Pods/nanopb/pb_encode.c:101-119 | Bytes go behind those written before, or none do when the stream is full; a sizing stream only counts. |
| `PbOStream.OStream.Rejoin` | FishingPoint/Pods/nanopb/pb_encode.c:718-729 | The parent takes over exactly what the substream wrote; it is an error if and only if that is not as many bytes as were counted. |
| `PbOStream.EncodeVarint` | FishingPoint/Pods/nanopb/pb_encode.c:574-594 | The stream receives the varint, or fails as a full stream does. |
| `PbOStream.EncodeSVarint` | FishingPoint/Pods/nanopb/pb_encode.c:596-605 | The stream receives the varint of the zigzag form. |
| `PbOStream.EncodeFixed32` | FishingPoint/Pods/nanopb/pb_encode.c:607-616 | Four little-endian bytes. |
| `PbOStream.EncodeFixed64` | FishingPoint/Pods/nanopb/pb_encode.c:619-632 | Eight little-endian bytes. |
| `PbOStream.EncodeTagForField` | FishingPoint/Pods/nanopb/pb_encode.c:641-672 | The key of a field with the wire type of its type. |
| `PbOStream.EncodeString` | FishingPoint/Pods/nanopb/pb_encode.c:674-680 | A length prefix and the bytes. |
| `PbEncoder.PbEncode` | FishingPoint/Pods/nanopb/pb_encode.c:494-516 | Writes the specified encoding of the message, and fails only if that does not exist or the stream is full; sizing and writing streams agree on every byte. |
| `PbEncoder.EncodeSubmessage` | FishingPoint/Pods/nanopb/pb_encode.c:682-730 | Measuring first and writing second never disagree: the length prefix is right at every depth, and "submsg size changed" cannot occur. |
| `PbEncoder.GetEncodedSize` | FishingPoint/Pods/nanopb/pb_encode.c:533-542 | Returns exactly the number of bytes `pb_encode` writes. |
| `PbEncoder.EncodeToBuffer` | FishingPoint/Pods/nanopb/pb_encode.c:84-99 | Encoding into n bytes succeeds if and only if n is at least the measured size, and touches nothing beyond. |
| `PbEncoder.EncArray` | FishingPoint/Pods/nanopb/pb_encode.c:126-211 | A packed array gets one length prefix of the right size, any other array a tag for every item. |
| `PbEncoder.PackedSizeOf` | FishingPoint/Pods/nanopb/pb_encode.c:145-165 | The first pass over a packed array yields the size of what the second writes. |
| `PbEncoder.CheckProto3DefaultValue` | FishingPoint/Pods/nanopb/pb_encode.c:215-303 | True exactly for a value the encoder need not write: absent, empty, zero, or a submessage of such. |
| `PbEncoder.EncodeBasicField` | FishingPoint/Pods/nanopb/pb_encode.c:307-392 | A field is written, or left out, as its kind and presence demand. |
| `PbEncoder.EncValue` | FishingPoint/Pods/nanopb/pb_encode.c:734-868 | The `pb_enc_*` function of each type writes the specified bytes. |
| `PbEncoder.StringLength` | FishingPoint/Pods/nanopb/pb_encode.c:831-850 | The length of a string is that up to its NUL, or the buffer size without one. |
| `PbIStream.IStream.Read` | FishingPoint/Pods/nanopb/pb_decode.c:100-132 | The bytes at the front, or failure without enough of them. |
| `PbIStream.ReadVarint32` | FishingPoint/Pods/nanopb/pb_decode.c:182-247 | The loop computes the 32-bit decoder function of the bytes left and stops where it does. |
| `PbIStream.ReadVarint` | FishingPoint/Pods/nanopb/pb_decode.c:250-271 | The loop computes the 64-bit decoder function. |
| `PbIStream.SkipVarintBytes` | FishingPoint/Pods/nanopb/pb_decode.c:273-282 | Skips to behind the first byte without continuation bit. |
| `PbIStream.ReadTag` | FishingPoint/Pods/nanopb/pb_decode.c:293-314 | The key as field number and wire type; a zero key ends the message. |
| `PbIStream.SkipOneField` | FishingPoint/Pods/nanopb/pb_decode.c:316-326 | Skips one field of a known wire type and fails for any other. |
| `PbIStream.OrBytesIsLittleEndian` | FishingPoint/Pods/nanopb/pb_decode.c:1254-1286 | Joining bytes by shifts and ORs gives the little-endian number. |
| `PbIStream.MakeSubstream` | FishingPoint/Pods/nanopb/pb_decode.c:367-380 | The substream holds exactly the delimited bytes, and the parent counts only what is behind them. |
| `PbIStream.CloseSubstream` | FishingPoint/Pods/nanopb/pb_decode.c:382-395 | The parent continues behind the substream, however much of it was read. |
| `PbDecoder.SetToDefaults` | FishingPoint/Pods/nanopb/pb_decode.c:812-895 | Whatever the struct held, it now holds the defaults, the declared ones included (`PbFields.UnnamedHasDefault` tells them one by one). |
| `PbDecoder.DecVarint` | FishingPoint/Pods/nanopb/pb_decode.c:1289-1324 | Reads a signed number, with the cast to 32 bits and the overflow check of the field's size. |
| `PbDecoder.DecUVarint` | FishingPoint/Pods/nanopb/pb_decode.c:1326-1348 | Reads an unsigned number with its overflow check. |
| `PbDecoder.DecSVarint` | FishingPoint/Pods/nanopb/pb_decode.c:1350-1372 | Reads a zigzag number with its overflow check. |
| `PbDecoder.DecBytes` | FishingPoint/Pods/nanopb/pb_decode.c:1391-1426 | Reads a byte array that fits its buffer. |
| `PbDecoder.DecString` | FishingPoint/Pods/nanopb/pb_decode.c:1428-1461 | Reads a string and terminates it, if there is room for the terminator. |
| `PbDecoder.DecFixedLengthBytes` | FishingPoint/Pods/nanopb/pb_decode.c:1487-1508 | Accepts only an array of the field's size, or an empty one, which reads as zeros. |
| `PbDecoder.DecSubmessage` | FishingPoint/Pods/nanopb/pb_decode.c:1463-1485 | Decodes into the substream, starting from defaults for array items and merging over what is there otherwise (`PbFields.SubmessageMerges`). |
| `PbDecoder.DecodeStaticField` | FishingPoint/Pods/nanopb/pb_decode.c:401-475 | Updates the one slot the iterator stands at as the field specification says; an array is appended to (`PbFields.RepeatedAppends`). |
| `PbDecoder.DecPacked` | FishingPoint/Pods/nanopb/pb_decode.c:420-448 | The packed loop appends until the substream or the array is exhausted. |
| `PbDecoder.PbDecodeNoinit` | FishingPoint/Pods/nanopb/pb_decode.c:901-1049 | Loop, iterator and bit mask together compute the decoding specification on the struct as it is, the check of required fields included (`PbFields.RequiredFields`). |
| `PbDecoder.PbDecode` | FishingPoint/Pods/nanopb/pb_decode.c:1051-1063 | The same on a struct that has been set to its defaults. |
| `PbLayout.VarintLayout` | FishingPoint/Pods/nanopb/pb_encode.c:574-594 | A varint is the number in seven-bit groups, lowest first, each but the last marked as continued, and as few as possible. |
| `PbLayout.VarintUnique` | FishingPoint/Pods/nanopb/pb_encode.c:574-594 | There is only one such form of a number. |
| `PbLayout.KeyLayout` | FishingPoint/Pods/nanopb/pb_encode.c:634-672 | A key is the varint of the field number times eight plus the wire type 0, 1, 2 or 5 of the type of the field. |
| `PbLayout.PayloadLayout` | FishingPoint/Pods/nanopb/pb_encode.c:734-868 | The bytes of a value of each type: two's complement and zigzag varints, little-endian words, lengths in front of bytes, texts and submessages. |
| `PbLayout.FieldLayout` | FishingPoint/Pods/nanopb/pb_encode.c:307-392 | A field that is absent, or in proto3 zero or empty, leaves nothing; any other begins with its key. |
| `PbLayout.ArrayLayout` | FishingPoint/Pods/nanopb/pb_encode.c:126-211 | An array of numbers is one field with a length in front of all payloads; any other array is a field for every item. |
| `PbLayout.MessageLayout` | FishingPoint/Pods/nanopb/pb_encode.c:494-516 | A message is its fields, in the order of the descriptor, and has an encoding if and only if all of them do. |
| `PbLayout.NumberRead` | FishingPoint/Pods/nanopb/pb_decode.c:1289-1372 | A varint field takes a number if and only if its C type has it, and then holds it; signed ones of up to 32 bits are cut down to 32 bits first. |
| `PbLayout.BytesRead` | FishingPoint/Pods/nanopb/pb_decode.c:1391-1508 | A field of bytes takes what fits its buffer, a text what leaves room for its terminator, and an array of fixed length only that length or none. |
| `PbLayout.FixedRead` | FishingPoint/Pods/nanopb/pb_decode.c:1254-1286 | Four and eight bytes are read as the number they are, lowest byte first. |
| `PbFields.RequiredFields` | FishingPoint/Pods/nanopb/pb_decode.c:1006-1046 | A message is accepted if and only if its fields can be decoded and each of the first 64 required fields has its tag among the keys read. |
| `PbFields.UnnamedKept` | FishingPoint/Pods/nanopb/pb_decode.c:901-1049 | Decoding over a struct leaves alone every member that no key names. |
| `PbFields.UnnamedHasDefault` | FishingPoint/Pods/nanopb/pb_decode.c:812-895 | After `pb_decode` of anything it accepts, a field that no key names holds its declared default, and without one zero or nothing, in submessages too. |
| `PbFields.SubmessageMerges` | FishingPoint/Pods/nanopb/pb_decode.c:1463-1485 | A submessage that comes in two fields leaves what the one that holds both bodies leaves, if the second names the required fields again, and is refused otherwise; the first body must be accepted and not stop at a zero key. |
| `PbFields.NestedUnnamed` | FishingPoint/Pods/nanopb/pb_decode.c:1463-1485 | Members of a submessage that its body does not name keep what they had, or their defaults in a new array item. |
| `PbFields.LastCounts` | FishingPoint/Pods/nanopb/pb_decode.c:401-475 | A single number, text or string of bytes, or a member of a union, that comes again makes the first one as good as never sent. |
| `PbFields.PackedAppends` | FishingPoint/Pods/nanopb/pb_decode.c:420-448 | The packed loop appends all the numbers of the field to what is in the array, or fails because there are too many. |
| `PbFields.RepeatedAppends` | FishingPoint/Pods/nanopb/pb_decode.c:413-462 | A repeated number in any mix of packed fields and fields of its own is appended in order, if all fit the array, and refused otherwise. |
| `PbSame.ReadBack` | FishingPoint/Pods/nanopb/pb_decode.c:1051-1063 | Whatever is accepted of what was written is, field by field to a reader, what was written. |
| `PbSame.SingularBack` | FishingPoint/Pods/nanopb/pb_encode.c:215-303 | A proto3 number, text or string of bytes comes back as it was, zero or not. |
| `PbSame.ValueSkipped` | FishingPoint/Pods/nanopb/pb_decode.c:316-326 | Every value can be skipped by its wire type. |
| `PbSame.ForeignMessage` | FishingPoint/Pods/nanopb/pb_decode.c:919-962 | A reader without any of the tags of a message accepts it and leaves its struct alone. |
| `AeadContext.CreateWellFormed` | FishingPoint/Pods/BoringSSL-GRPC/ssl/ssl_aead_ctx.cc:57-149 | Every context `Create` makes for the suites of TLS up to 1.2 has a nonce that adds up: fixed and variable part, or an XOR of full width. |
| `AeadContext.OpenUndoesSeal` | FishingPoint/Pods/BoringSSL-GRPC/ssl/ssl_aead_ctx.cc:225-294 | Opening what was sealed under the same number, type and version returns the text, for every well-formed context over a correct AEAD. |
| `AeadContext.SealedLength` | FishingPoint/Pods/BoringSSL-GRPC/ssl/ssl_aead_ctx.cc:296-405 | Sealing adds at most `MaxOverhead`. |
| `AeadContext.DistinctNonces` | FishingPoint/Pods/BoringSSL-GRPC/ssl/ssl_aead_ctx.cc:250-284 | When nonces are made from sequence numbers, distinct numbers give distinct nonces. |
| `AeadContext.Open` | FishingPoint/Pods/BoringSSL-GRPC/ssl/ssl_aead_ctx.cc:225-294 | The steps of `Open` rebuild nonce and additional data and return what the specification says. |
| `AeadContext.Seal` | FishingPoint/Pods/BoringSSL-GRPC/ssl/ssl_aead_ctx.cc:379-405 | The steps of `Seal` produce the specified bytes, or fail exactly when they do not fit. |
| `AeadContext.XorLoop` | FishingPoint/Pods/BoringSSL-GRPC/ssl/ssl_aead_ctx.cc:278-284 | The loop XORs two byte strings of one length. |
| `WireLayout.AdditionalDataLayout` | FishingPoint/Pods/BoringSSL-GRPC/ssl/ssl_aead_ctx.cc:203-223 | The additional data are the eight bytes of the sequence number, the type, and two bytes each of version and length where they are not left out. |
| `WireLayout.NonceLayout` | FishingPoint/Pods/BoringSSL-GRPC/ssl/ssl_aead_ctx.cc:250-284 | The nonce is the fixed part and the variable one behind it, or the fixed part with the variable one XORed into its end. |
| `WireLayout.SealHands` | FishingPoint/Pods/BoringSSL-GRPC/ssl/ssl_aead_ctx.cc:296-377 | Sealing hands exactly these to the AEAD, and puts in front what a reader cannot know of the nonce. |
| `WireLayout.OpenHands` | FishingPoint/Pods/BoringSSL-GRPC/ssl/ssl_aead_ctx.cc:225-294 | Opening hands the same to the AEAD, with the length the text will have. |
| `WireLayout.SuiteSeals` | FishingPoint/Pods/BoringSSL-GRPC/ssl/ssl_aead_ctx.cc:57-149 | What a record of each suite is sealed as: AES-GCM as in RFC 5288, ChaCha20-Poly1305 as in RFC 7905, CBC as in RFC 5246, and without additional data from TLS 1.3 on. |
| `WireLayout.VersionOnWire` | FishingPoint/Pods/BoringSSL-GRPC/ssl/ssl_aead_ctx.cc:166-177 | Records claim the version of the connection, never TLS 1.3, and the oldest one before it is known. |
| `WireLayout.VersionTaken` | FishingPoint/Pods/BoringSSL-GRPC/ssl/dtls_record.cc:207-216 | A DTLS reader takes any DTLS version before there are keys, and then only that of the connection. |
| `WireLayout.RecordLayout` | FishingPoint/Pods/BoringSSL-GRPC/ssl/dtls_record.cc:316-343 | The header of a DTLS record: type, version, epoch, sequence number and length, each where RFC 6347 has it. |
| `WireLayout.FragmentLayout` | FishingPoint/Pods/BoringSSL-GRPC/ssl/d1_both.cc:706-711 | The header of a handshake fragment: type, length, sequence number, offset and length of the fragment. |
| `DtlsReplay.Bitmap.ShouldDiscard` | FishingPoint/Pods/BoringSSL-GRPC/ssl/dtls_record.cc:140-153 | True if and only if the number was recorded in this epoch or is 64 or more below the largest recorded. |
| `DtlsReplay.Bitmap.Record` | FishingPoint/Pods/BoringSSL-GRPC/ssl/dtls_record.cc:155-175 | The window goes on representing the whole history, whether or not it has to slide. |
| `DtlsReplay.AcceptedDistinct` | FishingPoint/Pods/BoringSSL-GRPC/ssl/dtls_record.cc:225-259 | No number is accepted twice, whatever arrives in whatever order. |
| `DtlsReplay.InWindowAccepted` | FishingPoint/Pods/BoringSSL-GRPC/ssl/dtls_record.cc:140-175 | A number that never falls 64 behind what came before it is accepted. |
| `DtlsRecord.ParseUndoesRecord` | FishingPoint/Pods/BoringSSL-GRPC/ssl/dtls_record.cc:190-205 | A record header and body are read back, whatever follows in the packet. |
| `DtlsRecord.WireParses` | FishingPoint/Pods/BoringSSL-GRPC/ssl/dtls_record.cc:190-205 | A sealed record is read off the front of a packet, unless it is longer than any reader takes. |
| `DtlsRecord.CutOffRecord` | FishingPoint/Pods/BoringSSL-GRPC/ssl/dtls_record.cc:190-205 | Nothing is read of a record that is cut off. |
| `DtlsRecord.NumberInjective` | FishingPoint/Pods/BoringSSL-GRPC/ssl/dtls_record.cc:326-328 | Distinct pairs of epoch and 48-bit number give distinct 8-byte record numbers. |
| `DtlsRecord.RecordReader.OpenRecord` | FishingPoint/Pods/BoringSSL-GRPC/ssl/dtls_record.cc:177-272 | Accepts a record exactly if version and epoch match, the number is fresh and it opens; no record number is accepted twice, in this epoch or any earlier one. |
| `DtlsRecord.RecordReader.NextEpoch` | FishingPoint/Pods/BoringSSL-GRPC/ssl/dtls_method.cc:81-95 | A new read epoch starts without history and keeps what was accepted distinct from what will be. |
| `DtlsRecord.SequenceUpdate` | FishingPoint/Pods/BoringSSL-GRPC/ssl/tls_record.cc:154-163 | The counter bytes go up by one, or wrap to zero with an error exactly at the maximum. |
| `DtlsRecord.RecordWriter.Consume` | FishingPoint/Pods/BoringSSL-GRPC/ssl/dtls_record.cc:331-336 | Uses the next number of an epoch, which was used before exactly if the epoch's counter has wrapped; fails only at 2^48 - 1, and then the counter is at zero. |
| `DtlsRecord.RecordWriter.SealRecord` | FishingPoint/Pods/BoringSSL-GRPC/ssl/dtls_record.cc:294-351 | Succeeds exactly if the record fits and a number is left; what comes out is the record of the text under the keys, epoch and number asked for, and the number is a new one exactly if the epoch's counter has not wrapped. |
| `DtlsRecord.RecordWriter.NextEpoch` | FishingPoint/Pods/BoringSSL-GRPC/ssl/dtls_method.cc:97-107 | The current epoch becomes the previous one with its counter, and the new one starts at zero. |
| `DtlsRecord.FreshNumberFreshNonce` | FishingPoint/Pods/BoringSSL-GRPC/ssl/dtls_record.cc:326-333 | Fresh record numbers make fresh nonces in every mode that derives them from the number. |
| `DtlsRecord.SealedRecordAccepted` | FishingPoint/Pods/BoringSSL-GRPC/ssl/dtls_record.cc:225-259 | At a reader with its keys, in its epoch, a sealed record is accepted exactly if its number is neither recorded nor too old, whatever follows it in the packet, and opens to its text. |
| `DtlsRecord.WrapRepeats` | FishingPoint/Pods/BoringSSL-GRPC/ssl/dtls_record.cc:294-351 | At the last number the record is refused and the counter wraps; the next one is sealed again, under number 0, which was used before; no unused number is left in the epoch. |
| `DtlsFragment.ParseUndoesFragment` | FishingPoint/Pods/BoringSSL-GRPC/ssl/d1_both.cc:459-473 | A fragment is read back from its header and body. |
| `DtlsFragment.BitRangeBits` | FishingPoint/Pods/BoringSSL-GRPC/ssl/d1_both.cc:203-208 | `bit_range(start, end)` has exactly the bits from start to end set. |
| `DtlsFragment.HmFragment.Mark` | FishingPoint/Pods/BoringSSL-GRPC/ssl/d1_both.cc:211-251 | After marking a range, bit i is set if and only if byte i has been covered; reassembly ends exactly when all of the message is. |
| `DtlsFragment.HmFragment.Receive` | FishingPoint/Pods/BoringSSL-GRPC/ssl/d1_both.cc:393-402 | A fragment's bytes go to their place and its range is marked; everything else stays. |
| `DtlsFragment.CompleteMeansAll` | FishingPoint/Pods/BoringSSL-GRPC/ssl/d1_both.cc:233-250 | The test over whole bytes and the last part byte holds if and only if every bit below the length is set. |
| `DtlsFragment.HmFragment.constructor` | FishingPoint/Pods/BoringSSL-GRPC/ssl/d1_both.cc:152-180 | A new message is empty, unless its body is; then it is complete at once. |
| `DtlsReceiver.Receiver.GetIncomingMessage` | FishingPoint/Pods/BoringSSL-GRPC/ssl/d1_both.cc:265-295 | Finds or makes the ring slot of a fragment, or refuses one that lies outside the ring or contradicts what is there; no other message changes. |
| `DtlsReceiver.Receiver.AcceptFragment` | FishingPoint/Pods/BoringSSL-GRPC/ssl/d1_both.cc:362-402 | What becomes of a fragment, exactly: taken, ignored or refused. One exactly seven ahead passes the first filter and is refused by the second. |
| `DtlsReceiver.Receiver.Store` | FishingPoint/Pods/BoringSSL-GRPC/ssl/d1_both.cc:386-402 | A complete message is never altered again. |
| `DtlsReceiver.Receiver.GetMessage` | FishingPoint/Pods/BoringSSL-GRPC/ssl/d1_both.cc:408-424 | Returns the current message with its rebuilt header once it is whole. |
| `DtlsReceiver.Receiver.NextMessage` | FishingPoint/Pods/BoringSSL-GRPC/ssl/d1_both.cc:426-438 | Frees the slot and moves on to the next sequence number. |
| `DtlsReceiver.Receiver.OpenFragments` | FishingPoint/Pods/BoringSSL-GRPC/ssl/d1_both.cc:350-402 | All fragments of a record are processed, what is assembled goes on agreeing with what was sent, and genuine fragments are refused only if they are out of place or too long. |
| `DtlsReceiver.Receiver.OpenHandshake` | FishingPoint/Pods/BoringSSL-GRPC/ssl/d1_both.cc:297-406 | The dispatch on the record type, with the ChangeCipherSpec flagged for later. |
| `DtlsReceiver.Receiver.HasUnprocessedHandshakeData` | FishingPoint/Pods/BoringSSL-GRPC/ssl/d1_both.cc:440-457 | Whether the current message was seen, or anything else is in the ring. |
| `DtlsReceiver.Receiver.SetReadState` | FishingPoint/Pods/BoringSSL-GRPC/ssl/dtls_method.cc:81-95 | The read epoch changes exactly when no handshake data is left over. |
| `DtlsReceiver.ExtendedPartOf` | FishingPoint/Pods/BoringSSL-GRPC/ssl/d1_both.cc:386-402 | Genuine fragments keep an assembly equal to the sent message on every byte covered. |
| `DtlsReceiver.WholeIsSent` | FishingPoint/Pods/BoringSSL-GRPC/ssl/d1_both.cc:408-424 | A whole assembly of genuine fragments is the sent message. |
| `DtlsSender.FixedCbb.Add` | FishingPoint/Pods/BoringSSL-GRPC/ssl/d1_both.cc:703-712 | Bytes are appended exactly when they fit into the fixed buffer. |
| `DtlsSender.WalkPartitions` | FishingPoint/Pods/BoringSSL-GRPC/ssl/d1_both.cc:660-734 | In any walk through a flight every byte passed has been sent exactly once. |
| `DtlsSender.CompletePass` | FishingPoint/Pods/BoringSSL-GRPC/ssl/d1_both.cc:739-827 | One complete pass sends every byte of every message exactly once. |
| `DtlsSender.PieceProgress` | FishingPoint/Pods/BoringSSL-GRPC/ssl/d1_both.cc:660-734 | Each record sealed makes the pair of unsent messages and unsent bytes smaller. |
| `DtlsSender.QueueKeeps` | FishingPoint/Pods/BoringSSL-GRPC/ssl/d1_both.cc:555-594 | Queuing one more message leaves the flight, and everything sent, what it was. |
| `DtlsSender.QueueKeepsPass` | FishingPoint/Pods/BoringSSL-GRPC/ssl/d1_both.cc:555-594 | It also leaves each record of the current pass the piece it was. |
| `DtlsSender.Sender.BuildMessage` | FishingPoint/Pods/BoringSSL-GRPC/ssl/d1_both.cc:511-541 | The header with its patched length is that of one fragment holding the whole body. |
| `DtlsSender.LiveKeys` | FishingPoint/Pods/BoringSSL-GRPC/ssl/d1_both.cc:650-656 | The keys of the current epoch and of the one before are live, and each message goes out under its own. |
| `DtlsSender.Sender.AddOutgoing` | FishingPoint/Pods/BoringSSL-GRPC/ssl/d1_both.cc:555-594 | A new flight starts after a flushed one; a full flight refuses. |
| `DtlsSender.Sender.SetWriteState` | FishingPoint/Pods/BoringSSL-GRPC/ssl/dtls_method.cc:97-107 | Under new keys the flight keeps its messages, their epochs, and its place. |
| `DtlsSender.Sender.SealNextMessage` | FishingPoint/Pods/BoringSSL-GRPC/ssl/d1_both.cc:644-734 | The next record is the sealed record of the next piece, as large as fits, under the epoch the message was queued in. Progress, lack of room and errors each have their exact condition; an error is dead keys, an undefined tag or length, or the last sequence number. |
| `DtlsSender.Sender.BuildFragment` | FishingPoint/Pods/BoringSSL-GRPC/ssl/d1_both.cc:700-715 | The fixed buffer never overflows, and holds header and chunk. |
| `DtlsSender.Sender.SealNextPacket` | FishingPoint/Pods/BoringSSL-GRPC/ssl/d1_both.cc:739-780 | A packet is the concatenation of the records of the next pieces, fits the MTU and continues the flight where it stood. Every record takes as much of the flight as the ones before leave room for, and there is no room for another message behind the last. "mtu too small" exactly without room for the first headers and a byte; any other error where a record cannot be sealed, and then the flight stands behind the records made before. |
| `DtlsSender.Sender.SendPacket` | FishingPoint/Pods/BoringSSL-GRPC/ssl/d1_both.cc:796-818 | What the transport takes is a packet of records that continue the pass, byte for byte; a blocked write restores the exact earlier position. A failure loses records, and takes the flight out of its pass, exactly if a first record could be sealed; without one that cannot be sealed that does not happen. |
| `DtlsSender.Sender.SendFlight` | FishingPoint/Pods/BoringSSL-GRPC/ssl/d1_both.cc:782-827 | Sends nothing once writing is shut down. Terminates; is done only when the flight is out; fails only without room or where a record cannot be sealed, and leaves its pass only in the latter case; and gets through if there is room, keys and numbers are left and the transport takes everything. |
| `DtlsSender.Sender.Flush` | FishingPoint/Pods/BoringSSL-GRPC/ssl/d1_both.cc:829-845 | Flush continues and retransmission restarts a flight. When it is out, the packets taken since it was begun are a complete pass: every byte of every message once, in records of its own epoch. A failing flush of the transport is reported and loses nothing. |
| `DtlsSender.Sender.UpdateMtu` | FishingPoint/Pods/BoringSSL-GRPC/ssl/d1_both.cc:615-633 | An MTU below the minimum is replaced by the transport's, if that is within bounds, and otherwise by the default, unless querying is off. |
| `DtlsSender.OversizedText` | FishingPoint/Pods/BoringSSL-GRPC/ssl/dtls_record.cc:331-341 | When a record's text exceeds 2^14 bytes, which sealing does not refuse: exactly if message and packet both have more than that left. |
| `DtlsLimits.SentAndRefused` | FishingPoint/Pods/BoringSSL-GRPC/ssl/dtls_record.cc:331-341 | Such a record: a message of 17000 bytes under an MTU of 20000 goes out whole, and its reader discards the packet. |
| `DtlsLimits.RecordsLost` | FishingPoint/Pods/BoringSSL-GRPC/ssl/d1_both.cc:739-802 | Records lost: under an MTU of 100000 a message of one byte and one of 70000 make sealing fail with the flight behind the first message, no packet sent, and the flight out of its pass. |
| `DtlsLink.Link.Queue` | FishingPoint/Pods/BoringSSL-GRPC/ssl/d1_both.cc:596-598 | Queuing keeps everything delivered, assembled and sent. |
| `DtlsLink.Link.QueueChangeCipherSpec` | FishingPoint/Pods/BoringSSL-GRPC/ssl/d1_both.cc:600-602 | The same for a ChangeCipherSpec in the flight. |
| `DtlsLink.Link.ChangeWriteKeys` | FishingPoint/Pods/BoringSSL-GRPC/ssl/dtls_method.cc:97-107 | The sender may change its keys at any time; what is queued and resent under the previous epoch stays readable. |
| `DtlsLink.Link.Send` | FishingPoint/Pods/BoringSSL-GRPC/ssl/d1_both.cc:829-845 | Sending or resending keeps the link, whatever comes of it; a flight that is out has gone out as a complete pass, and only a record that cannot be sealed takes it out of its pass. |
| `DtlsLink.Link.Receive` | FishingPoint/Pods/BoringSSL-GRPC/ssl/ssl_buffer.cc:105-125 | Any packet sent may arrive, at any time and any number of times, cut off at the buffer's capacity. |
| `DtlsLink.Link.OpenFront` | FishingPoint/Pods/BoringSSL-GRPC/ssl/dtls_record.cc:177-272 | Off the front of any packet the record layer gives exactly the text that was sealed, and does so exactly if the record is whole, of the reader's epoch, new and short enough; otherwise nothing. |
| `DtlsLink.Link.Open` | FishingPoint/Pods/BoringSSL-GRPC/ssl/d1_both.cc:297-406 | Opening the next record never changes what was delivered. What the record layer lets through is refused only if it is an encrypted ChangeCipherSpec, out of place or too long, and otherwise its bytes are heard. |
| `DtlsLink.Link.ChangeReadKeys` | FishingPoint/Pods/BoringSSL-GRPC/ssl/d1_both.cc:475-490 | The reader changes its keys at most once, only after a ChangeCipherSpec sent before any keys were changed, and exactly if nothing is left over; everything delivered stays. |
| `DtlsLink.Link.Read` | FishingPoint/Pods/BoringSSL-GRPC/ssl/d1_both.cc:408-438 | Messages come out with consecutive numbers, each once, and header and body byte-identical to what was queued; one comes out whenever all pieces of it in a complete pass have been heard. |
| `DtlsLink.Link.HeardPassIsWhole` | FishingPoint/Pods/BoringSSL-GRPC/ssl/d1_both.cc:386-424 | If the pieces of the next message in some complete pass have been heard, in whatever order and among whatever else, it is whole. |
| `DtlsLink.Link.SentPassHeard` | FishingPoint/Pods/BoringSSL-GRPC/ssl/d1_both.cc:782-827 | In the packets that make up the sender's pass, the records of one message are such pieces, whatever became of the others: those of an earlier epoch in the same flight included. |
| `DtlsLink.ReceivedPassIsWhole` | FishingPoint/Pods/BoringSSL-GRPC/ssl/d1_both.cc:386-402 | Once every piece of one complete pass has arrived, in whatever order and among whatever else, the message is whole. |
| `DtlsLink.ShortEnough` | FishingPoint/Pods/BoringSSL-GRPC/ssl/dtls_record.cc:190-246 | A record in a packet of up to 2^14 bytes and a header is never refused for its length. |
| `TlsBuffer.SSLBuffer.EnsureCap` | FishingPoint/Pods/BoringSSL-GRPC/ssl/ssl_buffer.cc:47-81 | Keeps the queue, refuses exactly capacities past 16 bits, and says where a fresh allocation begins. |
| `TlsBuffer.SSLBuffer.DidWrite` | FishingPoint/Pods/BoringSSL-GRPC/ssl/ssl_buffer.cc:83-88 | Bytes in place become part of the queue. |
| `TlsBuffer.SSLBuffer.Append` | FishingPoint/Pods/BoringSSL-GRPC/ssl/ssl_buffer.cc:83-88 | Appends to the queue. |
| `TlsBuffer.SSLBuffer.Consume` | FishingPoint/Pods/BoringSSL-GRPC/ssl/ssl_buffer.cc:90-97 | Drops bytes at the front; the 16-bit offset is right afterwards if and only if the queue begins below 2^16. |
| `TlsBuffer.SSLBuffer.DiscardConsumed` | FishingPoint/Pods/BoringSSL-GRPC/ssl/ssl_buffer.cc:99-103 | Keeps the queue, and frees the allocation when it is empty. |
| `TlsBuffer.OffsetWraps` | FishingPoint/Pods/BoringSSL-GRPC/ssl/ssl_buffer.cc:47-97 | Any capacity `EnsureCap` accepts that reaches past 2^16 from its aligned start, filled and consumed up to there, leaves the offset at zero while the queue is 2^16 bytes further on. |
| `TlsBuffer.WrapPossible` | FishingPoint/Pods/BoringSSL-GRPC/ssl/ssl_buffer.cc:68-70 | Such a capacity exists if and only if the allocation is not aligned by itself. |
| `TlsWriter.TlsWriter.SealRecord` | FishingPoint/Pods/BoringSSL-GRPC/ssl/s3_pkt.cc:263-281 | The bytes of a record are what sealing its text yields at the next attempt. |
| `TlsWriter.GenuineOnWire` | FishingPoint/Pods/BoringSSL-GRPC/ssl/s3_pkt.cc:221-289 | If every record has the bytes its text was sealed as, all ciphertext together is the texts sealed one after another. |
| `TlsWriter.TlsWriter.AddRecordToFlight` | FishingPoint/Pods/BoringSSL-GRPC/ssl/s3_both.cc:135-165 | One more record, behind all others, of the next sealing attempt; the account of application data does not change. |
| `TlsWriter.TlsWriter.AddMessage` | FishingPoint/Pods/BoringSSL-GRPC/ssl/s3_both.cc:184-205 | A message becomes records that carry exactly its bytes, all but the last of them as long as the fragment size allows. |
| `TlsWriter.TlsWriter.FlushFlight` | FishingPoint/Pods/BoringSSL-GRPC/ssl/s3_both.cc:231-279 | Buffered bytes go before the flight; when it succeeds the transport has the sealed texts of all records, in order; and it succeeds if the transport always takes something. |
| `TlsWriter.TlsWriter.FlushWriteBuffer` | FishingPoint/Pods/BoringSSL-GRPC/ssl/ssl_buffer.cc:239-252 | The buffer empties into the transport without loss, and a blocked write leaves the rest. |
| `TlsWriter.TlsWriter.WritePending` | FishingPoint/Pods/BoringSSL-GRPC/ssl/s3_pkt.cc:202-218 | A retry must repeat type, at least the length and (unless allowed to move) the address, and reports the whole record. |
| `TlsWriter.TlsWriter.DoWrite` | FishingPoint/Pods/BoringSSL-GRPC/ssl/s3_pkt.cc:221-289 | A pending record is finished before anything is sealed; a new one carries exactly the data, sealed under its attempt, behind the pending flight; one that does not fit into 16 bits behind it is refused. |
| `TlsWriter.TlsWriter.WriteAppData` | FishingPoint/Pods/BoringSSL-GRPC/ssl/s3_pkt.cc:129-199 | For any data, what is sealed grows by its bytes from behind what was written and pending to behind what is. For a caller in step, when the result r is positive, exactly the first r bytes have been sealed since the last positive result, each once and in order, whatever handshake records lie in between; otherwise the call can be repeated. With a willing transport and room, all of the data is written. All records but the last are full. A length that is too short changes nothing but the count. |
| `TlsWriter.TlsWriter.CountLost` | FishingPoint/Pods/BoringSSL-GRPC/ssl/s3_pkt.cc:148-158 | Why the length must not shrink: after that error no retry can be in step again. |
| `TlsWriter.TlsWriter.ShortRetry` | FishingPoint/Pods/BoringSSL-GRPC/ssl/s3_pkt.cc:148-199 | What follows then: after a shorter retry, a full one over a willing transport succeeds and seals bytes a second time, all those sealed before but as many as were pending. |
| `TlsWriter.Run` | FishingPoint/Pods/BoringSSL-GRPC/ssl/s3_pkt.cc:129-289 | From a new connection, through any mix of handshake flights, flushes, and blocked, repeated and extended writes: the application records carry a prefix of the caller's data that holds all that was reported as written, and the transport has a prefix of these texts as sealed one after another, under attempts that only increase. |
| `TlsWriter.FifoWrite` | FishingPoint/Pods/BoringSSL-GRPC/ssl/ssl_buffer.cc:239-252 | A write moves bytes from the buffer to the transport without changing the order of all ciphertext. |
| `CipherChoice.Choose` | FishingPoint/Pods/BoringSSL-GRPC/ssl/handshake_server.cc:386-421 | Returns the shared cipher of the first server group that has one, earliest there in the client's list; none exactly if nothing is shared. |
| `CipherChoice.ChooseCipher` | FishingPoint/Pods/BoringSSL-GRPC/ssl/handshake_server.cc:357-424 | Under either preference: a cipher of both sides that the version knows and the server's keys can serve, none exactly if there is none; with the server's preference none such is in an earlier group, nor in the same group and earlier with the client; with the client's none comes earlier in its list. |
| `CipherChoice.BestUnique` | FishingPoint/Pods/BoringSSL-GRPC/ssl/handshake_server.cc:386-421 | The specification determines the choice. |
| `CipherChoice.GroupDecides` | FishingPoint/Pods/BoringSSL-GRPC/ssl/handshake_server.cc:386-421 | No later group can win over an earlier one that has a shared cipher. |
| `CipherChoice.ServerOrder` | FishingPoint/Pods/BoringSSL-GRPC/ssl/handshake_server.cc:386-421 | No shared cipher is in an earlier group than the best choice, and none of its group comes earlier in the other list. |
| `CipherChoice.ClientOrder` | FishingPoint/Pods/BoringSSL-GRPC/ssl/handshake_server.cc:362-384 | Without groups the choice is the first shared cipher of the list that has priority. |
| `HandshakeFlow.LogsAgree` | FishingPoint/Pods/BoringSSL-GRPC/ssl/handshake.cc:215-222 | A client and a server that take turns, over channels that deliver in order and unchanged, have seen the same messages as far as both have come. |
| `HandshakeFlow.FinishedAgrees` | FishingPoint/Pods/BoringSSL-GRPC/ssl/handshake.cc:380-429 | The Finished one honest side has sent is the one the other computes when it is about to check it. |
| `HandshakeFlow.UptoNext` | FishingPoint/Pods/BoringSSL-GRPC/ssl/handshake.cc:215-222 | Message n of a log is its side's next one, said when it was that side's turn. |
| `HandshakePeer.Peer.Send` | FishingPoint/Pods/BoringSSL-GRPC/ssl/handshake.cc:176-184 | The message joins flight and transcript once, in this side's turn. |
| `HandshakePeer.Peer.Hash` | FishingPoint/Pods/BoringSSL-GRPC/ssl/handshake.cc:215-222 | The current message joins the transcript once; it cannot be hashed again before the next one. |
| `HandshakePeer.Peer.Next` | FishingPoint/Pods/BoringSSL-GRPC/ssl/s3_both.cc:562-572 | Only a message that has been hashed is let go. |
| `HandshakePeer.Peer.Take` | FishingPoint/Pods/BoringSSL-GRPC/ssl/handshake.cc:165-174 | Waits without a message, fails on another type or a bad body, and otherwise hashes the message and releases it, each once. |
| `HandshakePeer.Peer.InitHash` | FishingPoint/Pods/BoringSSL-GRPC/ssl/ssl_transcript.cc:181-195 | The raw buffer is still there when the hash is started from it. |
| `HandshakePeer.Peer.SignedTranscript` | FishingPoint/Pods/BoringSSL-GRPC/ssl/ssl_transcript.cc:347-361 | The raw buffer, wherever it is used, is the whole transcript, and is never used after it was freed. |
| `HandshakePeer.Peer.Restart` | FishingPoint/Pods/BoringSSL-GRPC/ssl/handshake_client.cc:524-533 | The transcript starts again, and with it what it has to hold. |
| `HandshakePeer.Peer.GetFinished` | FishingPoint/Pods/BoringSSL-GRPC/ssl/handshake.cc:380-429 | Succeeds exactly on a Finished that is the other side's MAC of the transcript before it, after the read cipher has changed. |
| `HandshakePeer.Peer.SendFinished` | FishingPoint/Pods/BoringSSL-GRPC/ssl/handshake.cc:431-476 | Sends the MAC of the transcript so far, after the write cipher has changed. |
| `HandshakePeer.Peer.Resolve` | FishingPoint/Pods/BoringSSL-GRPC/ssl/handshake.cc:491-598 | Event by event what a wait makes of what the transport did. A message that is waited for joins the inbox and the handshake goes on; so it does on `Flushed` and on an expected ChangeCipherSpec; DTLS also takes both early. Any other event ends the call, looked at or left for later, and nothing joins the inbox. |
| `ClientHandshake.FlowMoves` | FishingPoint/Pods/BoringSSL-GRPC/ssl/handshake_client.cc:1707-1789 | Every edge of the state machine says exactly what leads from the flow of one state to that of the next, and comes nearer to the end by a rank that depends on resumption. |
| `ClientHandshake.Client.constructor` | FishingPoint/Pods/BoringSSL-GRPC/ssl/handshake_client.cc:385-395 | A new handshake has said nothing and waits for nothing. |
| `ClientHandshake.Client.DoStartConnect` | FishingPoint/Pods/BoringSSL-GRPC/ssl/handshake_client.cc:385-452 | Sends the ClientHello; a session may be dropped, never gained. |
| `ClientHandshake.Client.DoEnterEarlyData` | FishingPoint/Pods/BoringSSL-GRPC/ssl/handshake_client.cc:454-489 | DTLS looks for a HelloVerifyRequest, TLS does not. |
| `ClientHandshake.Client.DoReadHelloVerifyRequest` | FishingPoint/Pods/BoringSSL-GRPC/ssl/handshake_client.cc:491-533 | A HelloVerifyRequest is not hashed, and the transcript begins again with the second ClientHello. |
| `ClientHandshake.Client.DoReadServerHello` | FishingPoint/Pods/BoringSSL-GRPC/ssl/handshake_client.cc:535-759 | Decides resumption for good, takes over the parameters, starts the hash from the buffer, and keeps the buffer only for a full handshake with certificates. |
| `ClientHandshake.Client.DoReadServerCertificate` | FishingPoint/Pods/BoringSSL-GRPC/ssl/handshake_client.cc:771-819 | A Certificate exactly with a certificate cipher. |
| `ClientHandshake.Client.DoReadCertificateStatus` | FishingPoint/Pods/BoringSSL-GRPC/ssl/handshake_client.cc:821-869 | An expected CertificateStatus is optional; any other message is left for the next state. |
| `ClientHandshake.Client.DoVerifyServerCertificate` | FishingPoint/Pods/BoringSSL-GRPC/ssl/handshake_client.cc:871-889 | With a certificate cipher the only way on is that the verification says yes; a retry changes nothing. |
| `ClientHandshake.Client.DoReadServerKeyExchange` | FishingPoint/Pods/BoringSSL-GRPC/ssl/handshake_client.cc:891-1071 | A missing ServerKeyExchange is an error exactly when the cipher requires one. |
| `ClientHandshake.Client.DoReadCertificateRequest` | FishingPoint/Pods/BoringSSL-GRPC/ssl/handshake_client.cc:1073-1143 | Without a request the buffer goes. |
| `ClientHandshake.Client.DoReadServerHelloDone` | FishingPoint/Pods/BoringSSL-GRPC/ssl/handshake_client.cc:1145-1167 | ServerHelloDone and nothing else. |
| `ClientHandshake.Client.DoSendClientCertificate` | FishingPoint/Pods/BoringSSL-GRPC/ssl/handshake_client.cc:1169-1215 | The callback may be asked again before anything is sent; without a certificate the buffer goes and an empty one is sent. |
| `ClientHandshake.Client.DoSendClientKeyExchange` | FishingPoint/Pods/BoringSSL-GRPC/ssl/handshake_client.cc:1220-1371 | Sends the ClientKeyExchange. |
| `ClientHandshake.Client.DoSendClientCertificateVerify` | FishingPoint/Pods/BoringSSL-GRPC/ssl/handshake_client.cc:1373-1455 | The signature covers exactly the transcript before it; a retry of the private key changes nothing. |
| `ClientHandshake.Client.DoSendClientFinished` | FishingPoint/Pods/BoringSSL-GRPC/ssl/handshake_client.cc:1457-1512 | ChangeCipherSpec, the negotiated extras and Finished, in this order, after the Channel ID callback. |
| `ClientHandshake.Client.DoFinishFlight` | FishingPoint/Pods/BoringSSL-GRPC/ssl/handshake_client.cc:1538-1564 | False Start returns early only from a full TLS handshake. |
| `ClientHandshake.Client.DoReadSessionTicket` | FishingPoint/Pods/BoringSSL-GRPC/ssl/handshake_client.cc:1566-1647 | A ticket is read exactly if one was promised. |
| `ClientHandshake.Client.DoProcessChangeCipherSpec` | FishingPoint/Pods/BoringSSL-GRPC/ssl/handshake_client.cc:1649-1656 | The read cipher changes only after a ChangeCipherSpec. |
| `ClientHandshake.Client.DoReadServerFinished` | FishingPoint/Pods/BoringSSL-GRPC/ssl/handshake_client.cc:1658-1672 | Goes on exactly if the Finished is the server's MAC of the transcript. |
| `ClientHandshake.Client.DoFinishClientHandshake` | FishingPoint/Pods/BoringSSL-GRPC/ssl/handshake_client.cc:1674-1705 | The last state. |
| `ClientHandshake.Client.Step` | FishingPoint/Pods/BoringSSL-GRPC/ssl/handshake_client.cc:1707-1776 | A step fails, and then something outside was refused or the message that came is not welcome; or it stays, for want of a message or an answer, without having said or changed anything; or it leaves its state having said what belongs to it. It asks only for what its state may wait for. |
| `ClientHandshake.Client.StepKeeps` | FishingPoint/Pods/BoringSSL-GRPC/ssl/handshake_client.cc:1707-1789 | A step keeps the flow on course and never moves away from the end. |
| `ClientHandshake.Client.Handshake` | FishingPoint/Pods/BoringSSL-GRPC/ssl/handshake_client.cc:1707-1789 | The loop terminates, and returns success only in the final state; what it waits for is missing, and no message that came is lost. |
| `ClientHandshake.Client.Run` | FishingPoint/Pods/BoringSSL-GRPC/ssl/handshake.cc:491-628 | For any behaviour of the transport over any number of calls: a finished handshake has exchanged exactly the messages and cipher changes of the RFC, with both Finished right and the certificate verified; an early return comes only after verification; errors stay. The messages received are exactly those among the events consumed (since the HelloVerifyRequest, if there was one), and a call that is unfinished has failed, asks the application for something, or has met a transport that does not yield what is waited for. |
| `ServerHandshake.FlowMoves` | FishingPoint/Pods/BoringSSL-GRPC/ssl/handshake_server.cc:1539-1621 | As for the client, on the server's edges. |
| `ServerHandshake.Server.constructor` | FishingPoint/Pods/BoringSSL-GRPC/ssl/handshake_server.cc:426-430 | A new handshake has said nothing and waits for nothing. |
| `ServerHandshake.Server.DoReadClientHello` | FishingPoint/Pods/BoringSSL-GRPC/ssl/handshake_server.cc:432-510 | The ClientHello is looked at, not hashed, however often the early callback is asked. |
| `ServerHandshake.Server.DoSelectCertificate` | FishingPoint/Pods/BoringSSL-GRPC/ssl/handshake_server.cc:512-560 | A callback that is asked again finds everything as it was. |
| `ServerHandshake.Server.DoSelectParameters` | FishingPoint/Pods/BoringSSL-GRPC/ssl/handshake_server.cc:572-684 | The ClientHello is hashed once, after every callback; a client certificate is asked for only in a full handshake with a certificate cipher. |
| `ServerHandshake.Server.DoSendServerHello` | FishingPoint/Pods/BoringSSL-GRPC/ssl/handshake_server.cc:686-752 | A resumption goes straight to the server's Finished. |
| `ServerHandshake.Server.DoSendServerCertificate` | FishingPoint/Pods/BoringSSL-GRPC/ssl/handshake_server.cc:754-840 | Certificate and CertificateStatus as negotiated. |
| `ServerHandshake.Server.DoSendServerKeyExchange` | FishingPoint/Pods/BoringSSL-GRPC/ssl/handshake_server.cc:842-912 | Sent exactly once if there are parameters, whatever the retries of the private key. |
| `ServerHandshake.Server.DoSendServerHelloDone` | FishingPoint/Pods/BoringSSL-GRPC/ssl/handshake_server.cc:914-947 | CertificateRequest if asked for, and ServerHelloDone. |
| `ServerHandshake.Server.DoReadClientCertificate` | FishingPoint/Pods/BoringSSL-GRPC/ssl/handshake_server.cc:949-1040 | An empty certificate frees the buffer, and is an error if one is needed. |
| `ServerHandshake.Server.DoVerifyClientCertificate` | FishingPoint/Pods/BoringSSL-GRPC/ssl/handshake_server.cc:1042-1056 | A certificate there is gets verified; a retry changes nothing. |
| `ServerHandshake.Server.DoReadClientKeyExchange` | FishingPoint/Pods/BoringSSL-GRPC/ssl/handshake_server.cc:1058-1267 | Hashed only once the private key has answered. |
| `ServerHandshake.Server.DoReadClientCertificateVerify` | FishingPoint/Pods/BoringSSL-GRPC/ssl/handshake_server.cc:1269-1363 | The signature is checked against the transcript before the message, and the message is hashed after that. |
| `ServerHandshake.Server.DoProcessChangeCipherSpec` | FishingPoint/Pods/BoringSSL-GRPC/ssl/handshake_server.cc:1370-1377 | The read cipher changes only after a ChangeCipherSpec. |
| `ServerHandshake.Server.DoReadNextProto` | FishingPoint/Pods/BoringSSL-GRPC/ssl/handshake_server.cc:1379-1413 | Read exactly if negotiated. |
| `ServerHandshake.Server.DoReadChannelId` | FishingPoint/Pods/BoringSSL-GRPC/ssl/handshake_server.cc:1415-1437 | Read exactly if negotiated. |
| `ServerHandshake.Server.DoReadClientFinished` | FishingPoint/Pods/BoringSSL-GRPC/ssl/handshake_server.cc:1439-1461 | Goes on exactly if the Finished is the client's MAC of the transcript (and the hashes for Channel ID could be recorded). |
| `ServerHandshake.Server.DoSendServerFinished` | FishingPoint/Pods/BoringSSL-GRPC/ssl/handshake_server.cc:1463-1509 | Ticket if promised, ChangeCipherSpec and Finished, in this order. |
| `ServerHandshake.Server.Step` | FishingPoint/Pods/BoringSSL-GRPC/ssl/handshake_server.cc:1539-1610 | As for the client. |
| `ServerHandshake.Server.StepKeeps` | FishingPoint/Pods/BoringSSL-GRPC/ssl/handshake_server.cc:1539-1621 | As for the client. |
| `ServerHandshake.Server.Handshake` | FishingPoint/Pods/BoringSSL-GRPC/ssl/handshake_server.cc:1539-1621 | The loop terminates, and returns success only in the final state; what it waits for is missing, and no message that came is lost. |
| `ServerHandshake.Server.Run` | FishingPoint/Pods/BoringSSL-GRPC/ssl/handshake.cc:491-628 | For any behaviour of the transport over any number of calls: a finished handshake has exchanged exactly the messages of the RFC, with both Finished right, and a client certificate, if presented, verified and proved by signature. The messages received are exactly those among the events consumed, and a call that is unfinished has failed, asks the application for something, or has met a transport that does not yield what is waited for. |
| `HandshakeAgreement.PeersAgree` | FishingPoint/Pods/BoringSSL-GRPC/ssl/handshake.cc:215-222 | In every state two honest sides have the same transcript as far as both have come. |
| `HandshakeAgreement.BothDone` | FishingPoint/Pods/BoringSSL-GRPC/ssl/handshake.cc:380-476 | When both are done their transcripts are byte-identical, and they agree on resumption, ticket, extensions, certificates, CertificateStatus, ServerKeyExchange and client authentication. |
| `HandshakeAgreement.DoneSays` | FishingPoint/Pods/BoringSSL-GRPC/ssl/handshake_client.cc:1707-1789 | Which messages a finished handshake contains, and which not. |
| `HandshakeAgreement.TwoFinishes` | FishingPoint/Pods/BoringSSL-GRPC/ssl/handshake.cc:380-476 | A finished handshake has exactly two Finished messages, one of them the last. |

## Left out

- All Swift code, the Firebase plumbing, and the other pods.
- nanopb: callbacks, extensions, pointer fields allocated at run time, fixed-count arrays, custom stream callbacks, error texts, and the delimited and null-terminated variants.
- nanopb: what a failed decode leaves in the struct; only success and failure, and the struct after success, are stated.
- PbRoundTrip.RoundTrip: for encodings below 2^63 bytes, as no object in C is larger.
- PbEncoder.PbEncode: requires that no submessage or packed array encodes to 2^64 bytes or more, which `size_t` could not count.
- TLS 1.3, early data, SSL 3.0, V2ClientHello, renegotiation, handoff, and sending alerts.
- Cryptography: AEADs, the Finished MAC and signatures are parameters; that an AEAD opens what it sealed is required of them. Certificate verification and key exchange are arbitrary answers.
- AEADs that keep state between records (implicit-IV CBC), and the buffer aliasing rules of sealing and opening.
- AeadContext.DistinctNonces: only for modes whose nonce comes from the sequence number; random explicit nonces can collide.
- DtlsRecord.RecordReader.OpenRecord: hands out alerts without processing them.
- DtlsLink.Link.Queue: requires that the 16-bit message number does not wrap; likewise `Link.ChangeWriteKeys` for epochs.
- DtlsLink.Link.constructor: both sides use one schedule of keys, sound and of one record version; the null cipher keeps its initial version.
- DtlsLink.Link.Open: progress is stated for records inside the replay window; which packets the network delivers is not.
- DTLS timers, and when to retransmit: a resend may happen at any time.
- TlsWriter.TlsWriter.DoWrite: requires that the capacity asked for does not reach past 2^16 from its aligned start (`NoOffsetWrap`), where `OffsetWraps` shows the buffer wrong; alerts between writes are not modelled.
- TlsWriter: splitting a record in two against chosen plaintext, and the record format, are part of what sealing yields.
- TlsWriter.TlsWriter.WriteAppData: that each byte is sealed once is stated for a caller that repeats a blocked write with the same bytes and no fewer of them; for any other, only what is sealed from which place.
- HandshakePeer.Peer.GetFinished: on a mismatch the message is not hashed any more; the handshake is over.
- ClientHandshake.Client.DoSendClientCertificateVerify: the application does not install or remove a certificate after the Certificate message.
- ClientHandshake and ServerHandshake: message bodies are arbitrary bytes; extensions, versions and parsing are arbitrary answers.
- Deriving keys at a cipher change; the change itself and its place among the messages are modelled.
- Allocation failure, info and message callbacks.
