# sodiumoxide: verified models of its stateful and arithmetic code

sodiumoxide wraps libsodium. Most wrappers are one foreign call; this project models the parts with
state, protocol or arithmetic of their own, and proves what they promise.

`dafny verify dfyconfig.toml` checks everything. The files, hardest first:

- `SecretStream.dfy` – the two ends of an encrypted stream as a class `Stream` whose methods update the
  cipher state, the `finalized` flag and a caller's `Vec` (buffer, capacity and length, so that every
  `set_len` has its capacity condition proved). The cipher is a record `Primitive` of uninterpreted
  functions; `Lawful` states what is assumed of it: opening undoes sealing in the same state, sealing adds
  `ABYTES`, both ends then move to the same state, a failed call leaves the state alone.
- `SecretStreamRuns.dfy` – runs: what one end sends, what the other delivers, lockstep, finalization,
  recycled vectors.
- `SecretStreamPrefix.dfy` – safety against any feed.
- `SecretStreamHistory.dfy` – a concrete cipher that meets the assumptions whatever happens to its ciphertexts on
  the way, and the runs in which a failing call has effects.
- `SecretStreamClient.dfy` – methods that drive real `Stream` objects through such runs.
- `Hash.dfy`, `Hmac.dfy` – buffered SHA-2 states and two-context HMAC over an uninterpreted compression
  function, against the one-shot definitions of FIPS 180-4 and RFC 2104.
- `Base64.dfy`, `Hex.dfy`, `Padding.dfy`, `LittleEndian.dfy`, `StreamCipher.dfy`, `Newtype.dfy` – the codecs,
  padding, little-endian arithmetic, seekable keystreams and fixed-length byte types.
- `Bytes.dfy`, `Arithmetic.dfy` – bytes, exclusive or, result types, facts about remainders.

The C functions behind base64, hex, padding, increment, addition, keystream xor, hashing and HMAC are not part
of the repository. Their loops here follow the behaviour the Rust documentation states and the standards it
names; the Rust code around them (buffer sizes, error branches, truncation, length checks) follows the
source.

## Assumptions of prefix safety

Two assumptions speak about one run of a sender and a receiver only. `NoForgery`: each record the receiver
authenticated had been sealed by the sender in the state the receiver is in. `Fresh`: a step of the
sender and a step of the receiver that lead to the same cipher state are the same event from the same state, and no
step leads back to the start. From these the proof derives that equal states mean equal histories. They are not laws of the cipher, because `Lawful`
makes `open` accept whatever `seal` would produce in a state, sent or not. `AssumptionsHold` shows them met together with
`Lawful` by a cipher that checks the numbers of records and rekeyings on eight bytes each, for every receiver fed the
sender's ciphertexts in any order, with repetitions, gaps and rekeyings, in runs of fewer than 2^64 events.

## What turned out not to hold

- The `finalized` flags of the two ends agree after a mirrored run exactly if the cipher refused no final record
  of an open sender: `push_check` closes the stream before the cipher is called
  (src/crypto/secretstream/secretstream_macros.rs:229-231). `RoundTrip` states the exact condition and
  `FinalCanBeLost` gives two runs after which they differ.
- A failed pull can have effects. A failed check has none. A rejected ciphertext leaves the stream as it was, but with
  `pull_to_vec` it empties the vector, so it has an effect exactly if the vector was not empty
  (src/crypto/secretstream/secretstream_macros.rs:331-336). An authentic record with an unknown tag byte leaves the
  stream in the state after opening and its plaintext in the vector
  (src/crypto/secretstream/secretstream_macros.rs:371-378); a failed pull that changed the stream met such a record.
  `FailedPull` states all cases; `RejectionClearsVector` and `UnknownTagHasEffect` give inputs.
- `unpad` does not compare the padded length with its slice before the foreign call reads through a raw pointer
  (src/padding.rs:46-60). `ReadsInside`: all offsets it reads are in the slice if and only if the block size is 0, or the
  padded length is below the block size, or the padded length is at most the length of the slice. `DecidedBySlice`:
  under that condition, and only then, the slice alone decides the outcome. `ReadOutside` gives an input.
- The two deserialization visitors agree exactly on inputs of the right length: `visit_seq` pads short
  sequences with zeros and ignores surplus elements (src/newtype_macros.rs:55-65), while `visit_bytes` rejects
  both.
- The documentation of the in-place stream functions refers to a `stream_inplace()` that does not exist
  (src/crypto/stream/stream_macros.rs:80,123); the model uses `stream`.

## Model

| member | source | states |
|---|---|---|
| SecretStreamPrefix.PrefixSafety | src/crypto/secretstream/secretstream_macros.rs:338-383 | Whatever a receiver is fed (reordered, dropped, repeated, altered ciphertexts, rekeyings at any time), what it delivers is a prefix of what was sent, and all of it once finalized; the sender may use any tag bytes. |
| SecretStreamPrefix.StreamPrefixSafety | src/crypto/secretstream/mod.rs:6-7 | The same between a push stream and a pull stream opened from its header: delivered is a prefix of pushed, and equal to it once the receiver is finalized. |
| SecretStreamPrefix.SameState | src/crypto/secretstream/secretstream_macros.rs:300-308 | In a run whose states are not revisited by accident, two ends in the same cipher state have the same history: ciphertexts cannot be decrypted out of order. |
| SecretStreamPrefix.RecordExtends | src/crypto/secretstream/secretstream_macros.rs:354-383 | A record the receiver authenticates is the next one of the sender's own trace. |
| SecretStreamPrefix.GotFromPrefix | src/crypto/secretstream/secretstream_macros.rs:338-383 | What a receiver delivers is what some prefix of the sender's trace carries, and it is finalized exactly if that prefix has a final record. |
| SecretStreamHistory.AssumptionsHold | src/crypto/secretstream/secretstream_macros.rs:354-383 | The assumptions of prefix safety and the cipher laws are met together by a concrete cipher, for every trace it can send and every feed of its own ciphertexts in any order, with repetitions, gaps and rekeyings. |
| SecretStreamHistory.OwnCiphertextsDeliverPrefix | src/crypto/secretstream/mod.rs:6-7 | For that cipher such a feed always delivers a prefix of what was sent, and all of it once finalized, with no assumption left. |
| SecretStreamHistory.SelectionIsOwn | src/crypto/secretstream/secretstream_macros.rs:300-308 | Such a feed is any selection, in any order, of the calls that replay the trace, with rekeyings in between. |
| SecretStreamHistory.SamePlace | src/crypto/secretstream/secretstream_macros.rs:300-308 | A sent ciphertext opens only for a receiver whose history is the sender's own at that record. |
| SecretStreamHistory.FinalCanBeLost | src/crypto/secretstream/secretstream_macros.rs:221-264 | A lawful cipher that refuses a final record leaves a closed sender that sent nothing, and an open receiver. |
| SecretStreamHistory.RejectionClearsVector | src/crypto/secretstream/secretstream_macros.rs:331-383 | A rejected ciphertext: the pull fails, the stream is unchanged, and a vector holding three bytes is empty. |
| SecretStreamHistory.UnknownTagHasEffect | src/crypto/secretstream/secretstream_macros.rs:354-383 | An authentic record with tag byte 4: the pull fails, the cipher has moved, the plaintext is in the vector. |
| SecretStreamRuns.RoundTrip | src/crypto/secretstream/secretstream_macros.rs:171-383 | A receiver built from the returned header and stepped through what was sent gets exactly the pushed messages and tags, without error, in the sender's cipher state; the flags agree if and only if the cipher refused no final record of the open sender. |
| SecretStreamRuns.AllArrive | src/crypto/secretstream/secretstream_macros.rs:201-383 | If the cipher seals every message within its limit, the receiver of a mirrored run gets all messages within the limit, with their tags, up to and including the first final one. |
| SecretStreamRuns.EachArrives | src/crypto/secretstream/mod.rs:39-70 | When moreover no message is too long and none follows a final one, the receiver's i-th result is the message and tag of the sender's i-th call. |
| SecretStreamRuns.PushResults | src/crypto/secretstream/secretstream_macros.rs:201-233 | With such a cipher a call of a run succeeds if and only if its message is within the limit and no final message within the limit came before. |
| SecretStreamRuns.PushesAll | src/crypto/secretstream/secretstream_macros.rs:201-233 | So the messages pushed are those within the limit, up to and including the first final one. |
| SecretStreamRuns.Lockstep | src/crypto/secretstream/secretstream_macros.rs:135-257 | After each k calls of the sender, the receiver that has replayed what they sent is in the same cipher state and has received what was pushed; calls and results are those of the whole run. |
| SecretStreamRuns.MirrorDelivers | src/crypto/secretstream/secretstream_macros.rs:354-383 | Replaying authentic records with arbitrary tag bytes delivers exactly those with a known tag up to the first final one; unknown tags advance the cipher and leave the stream open. |
| SecretStreamRuns.MirrorResults | src/crypto/secretstream/secretstream_macros.rs:311-383 | In such a replay a call fails exactly on an unknown tag byte or after the first final record; every other call returns that record's message and tag. |
| SecretStreamRuns.PushRunSends | src/crypto/secretstream/secretstream_macros.rs:201-264 | Any run of pushes, recycled pushes and rekeyings sends an authentic trace that leads to the stream's cipher state, carries exactly the pushed messages, and has a final record last if at all; when the stream ends up finalized. |
| SecretStreamRuns.PullRunTrace | src/crypto/secretstream/secretstream_macros.rs:311-383 | Whatever is fed, the authenticated records account for the state, for the messages delivered and for finalization. |
| SecretStreamRuns.FinalizedPush | src/crypto/secretstream/secretstream_macros.rs:139-233 | Once finalized, every later push, push_to_vec and rekey of any run fails and changes neither cipher state nor vector. |
| SecretStreamRuns.FinalizedPull | src/crypto/secretstream/secretstream_macros.rs:139-147 | The same for pull, pull_to_vec and rekey. |
| SecretStreamRuns.FinalIsLast | src/crypto/secretstream/secretstream_macros.rs:221-233 | After a final-tagged push that passes the check no later call of the run succeeds, even if the cipher failed on it. |
| SecretStreamRuns.RecycledPushRefines | src/crypto/secretstream/secretstream_macros.rs:201-240 | Over any run, replacing push by push_to_vec anywhere, with any contents of the shared vector, and None by empty additional data, changes neither results nor stream. |
| SecretStreamRuns.RecycledPullRefines | src/crypto/secretstream/secretstream_macros.rs:311-361 | The same for pull and pull_to_vec. |
| SecretStreamRuns.PushedSnoc | src/crypto/secretstream/secretstream_macros.rs:201-207 | What a run pushed grows by the message and tag of each successful push, and by nothing else. |
| SecretStreamRuns.ReceivedSnoc | src/crypto/secretstream/secretstream_macros.rs:311-316 | What a run received grows by the message and tag of each delivery, and by nothing else. |
| SecretStreamClient.Transmit | src/crypto/secretstream/mod.rs:27-72 | Driving two stream objects end to end with any sequence of calls gives the results of the two runs and delivers every pushed message with its tag, in order; if the cipher seals every message within its limit, these are all of them up to the first final one. |
| SecretStreamClient.SendAll | src/crypto/secretstream/mod.rs:39-46 | A loop of calls on a stream object with one reused vector is the run the theorems speak of. |
| SecretStreamClient.ReceiveAll | src/crypto/secretstream/mod.rs:48-70 | The same for the receiving object. |
| SecretStream.TagRoundTrip | src/crypto/secretstream/secretstream_macros.rs:67-98 | Message, push, rekey and final are the bytes 0, 1, 2 and 3 in both directions; exactly the bytes above 3 are unknown. |
| SecretStream.PushOutcome | src/crypto/secretstream/secretstream_macros.rs:201-257 | A push succeeds if and only if the stream is open, the message is within the limit and the cipher seals it; the result is that ciphertext. No additional data means empty additional data. The new state and what a recycled vector holds in each case. |
| SecretStream.PullOutcome | src/crypto/secretstream/secretstream_macros.rs:311-383 | A pull succeeds if and only if the stream is open, the length is in range and the cipher opens the ciphertext with a known tag byte; the result is that message and tag, and the stream is closed exactly on tag byte 3. No additional data means empty additional data. |
| SecretStream.FailedPull | src/crypto/secretstream/secretstream_macros.rs:338-383 | A pull fails if and only if the check fails, the cipher rejects, or the tag byte is unknown; what stream and recycled vector are in each case. Only an unknown tag can change the stream; a rejection changes exactly a non-empty vector, by emptying it. |
| SecretStream.Stream.InitPush | src/crypto/secretstream/secretstream_macros.rs:171-196 | Returns an open stream and a header of HEADERBYTES from which init_pull gets the same state. |
| SecretStream.Stream.InitPull | src/crypto/secretstream/secretstream_macros.rs:272-298 | Fails exactly if the primitive rejects the header; otherwise an open stream in the primitive's state. |
| SecretStream.Stream.Rekey | src/crypto/secretstream/secretstream_macros.rs:139-147 | Err and no change once finalized; otherwise only the cipher state moves. |
| SecretStream.Stream.PushCheck | src/crypto/secretstream/secretstream_macros.rs:221-233 | Rejects finalized streams and long messages without change; otherwise returns the ciphertext length, which does not overflow, and closes the stream on the final tag. |
| SecretStream.Stream.PushImpl | src/crypto/secretstream/secretstream_macros.rs:235-257 | Given room for message plus ABYTES, leaves exactly the ciphertext in the vector, or nothing on failure, and moves the cipher. |
| SecretStream.Stream.Push | src/crypto/secretstream/secretstream_macros.rs:201-207 | Result and new state of a push into a fresh vector. |
| SecretStream.Stream.PushToVec | src/crypto/secretstream/secretstream_macros.rs:214-219 | Same result and stream as Push; the vector is untouched on a failed check, empty on a failed cipher, else the ciphertext. |
| SecretStream.Stream.Finalize | src/crypto/secretstream/secretstream_macros.rs:262-264 | Pushes an empty final message; the stream is finalized afterwards in every case. |
| SecretStream.Stream.PullCheck | src/crypto/secretstream/secretstream_macros.rs:338-352 | Accepts exactly lengths from ABYTES up to the message limit plus ABYTES on an open stream. |
| SecretStream.Stream.PullImpl | src/crypto/secretstream/secretstream_macros.rs:354-383 | Leaves the plaintext in the vector within its capacity; finalizes exactly on the final tag; rejects unknown tags after moving the cipher. |
| SecretStream.Stream.Pull | src/crypto/secretstream/secretstream_macros.rs:311-316 | Result and new state of a pull into a fresh vector. |
| SecretStream.Stream.PullToVec | src/crypto/secretstream/secretstream_macros.rs:331-336 | Same result and stream as Pull; what the vector holds in each case. |
| Hash.State.Update | src/crypto/hash/hash_macros.rs:50-54 | Absorbs a chunk of any length: the chaining value covers all whole blocks and the buffer the rest, however the count wraps. |
| Hash.State.Finalize | src/crypto/hash/hash_macros.rs:58-64 | The digest is the one-shot hash of everything absorbed. |
| Hash.HashAll | src/crypto/hash/hash_macros.rs:24-30 | The one-shot function. |
| Hash.HashChunks | src/crypto/hash/hash_macros.rs:77-90 | For every split into chunks, new, updates and finalize give the hash of the concatenation. |
| Hash.ChainAppend | libsodium-sys/src/sodium_bindings.rs:818-822 | Absorbing a then b equals absorbing them at once, from the chaining value and remainder of a. |
| Hash.CountTellsFill | libsodium-sys/src/sodium_bindings.rs:651-655 | The wrapped bit counter still tells how full the buffer is. |
| Hash.BigEndianDigits | libsodium-sys/src/sodium_bindings.rs:818-822 | The length field is the bit count, most significant byte first. |
| Hash.PaddingCompletes | src/crypto/hash/hash_macros.rs:24-30 | The padded message consists of whole blocks and no shorter padding would do. |
| Hash.PaddingInjective | src/crypto/hash/hash_macros.rs:24-30 | Below the length limit of FIPS 180-4 no two messages pad alike. |
| Hash.DigestMeaning | src/crypto/hash/hash_macros.rs:24-30 | The digest is the output of the compression function folded, from the initial value, over the blocks of: the message, 0x80, fewer zeros than a block, the number of bits on 8 or 16 bytes, big-endian. |
| Hash.PaddedBlocks | src/crypto/hash/hash_macros.rs:24-30 | Every message has such blocks. |
| Hash.CollisionOfDigests | src/crypto/hash/hash_macros.rs:24-64 | The theorem of Merkle and Damgard: below the length limit two messages with the same digest show a collision, of the output function or between two steps of the compression function in their two computations. |
| Hash.FlattenAppend | src/crypto/hash/hash_macros.rs:77-90 | Chunks are concatenated in order. |
| Hmac.State.constructor | src/crypto/auth/auth_state_macros.rs:49-56 | For keys of any length the two contexts have absorbed the masked block key. |
| Hmac.State.Update | src/crypto/auth/auth_state_macros.rs:60-64 | Appends to the authenticated message. |
| Hmac.State.Finalize | src/crypto/auth/auth_state_macros.rs:68-74 | The tag is that of RFC 2104, cut to the tag length. |
| Hmac.Authenticate | src/crypto/auth/auth_macros.rs:44-54 | The one-shot tag. |
| Hmac.AuthenticateChunks | src/crypto/auth/auth_state_macros.rs:96-109 | Every chunking gives the one-shot tag. |
| Hmac.TagMeaning | src/crypto/auth/auth_macros.rs:44-54 | The full tag is the hash of (key xor 0x5c, hash of (key xor 0x36, message)), where the key is hashed if longer than a block and filled up with zeros. |
| Hmac.KeysAlike | src/crypto/auth/auth_state_macros.rs:49-56 | A short key and the same followed by zeros, and a long key and its hash, have the same tags. |
| Bytes.XorOfBits | src/crypto/auth/auth_state_macros.rs:49-56 | Bit i of the exclusive or that masks the key is the sum of the two bits i without carry. |
| Base64.Encode | src/base64.rs:22-42 | The text of RFC 4648 in the variant, from a buffer of exactly the right size. |
| Base64.Decode | src/base64.rs:48-75 | Succeeds exactly on well-formed text of the variant, with no write outside the buffer for any input. |
| Base64.DecodedLen | src/base64.rs:77-85 | Never overflows, and has room for six bits a character. |
| Base64.DecodeEncode | src/base64.rs:21-75 | Decoding undoes encoding, for all bytes and variants. |
| Base64.EncodeDecode | src/base64.rs:44-75 | Strictness: an accepted text is the encoding of what it decodes to. |
| Base64.EncodeInjective | src/base64.rs:21-42 | No two byte strings have the same text. |
| Base64.TextShape | src/base64.rs:10-19 | Character i is that of sextet i in the variant's alphabet; then padding that completes a group of four exactly in the padded variants. |
| Base64.PaddedVariants | src/base64.rs:10-19 | Original and UrlSafe texts have whole groups of four characters; the other two variants write the same without the padding characters. |
| Base64.Alphabet | src/base64.rs:10-19 | The 64 characters of RFC 4648, table 1. |
| Base64.UrlSafeAlphabet | src/base64.rs:10-19 | The 64 characters of RFC 4648, table 2. |
| Base64.GroupNumber | src/base64.rs:22-42 | Each group of four sextets is the 24-bit number of its three bytes. |
| Base64.LastGroupNumber | src/base64.rs:22-42 | A short last group is filled up with four or two zero bits. |
| Base64.DecodedFits | src/base64.rs:53-57 | An accepted text never decodes to more bytes than the decoder allocates. |
| Base64.DrainedIsOctets | src/base64.rs:58-74 | The bit accumulator of the decoder yields the bytes of the format, and its left-over bits tell well-formed text. |
| Base64.FedIsSextets | src/base64.rs:31-38 | The bit accumulator of the encoder yields the sextets of the format. |
| Hex.Encode | src/hex.rs:12-28 | Two lower-case digits a byte; fails (panics) exactly if the size overflows. |
| Hex.EncodeNeverPanics | src/hex.rs:30-32 | That cannot happen for a slice. |
| Hex.Decode | src/hex.rs:38-69 | Succeeds exactly on even-length text of hexadecimal digits. |
| Hex.DecodeEncode | src/hex.rs:12-61 | Decoding undoes encoding. |
| Hex.EncodeDecode | src/hex.rs:12-61 | Encoding what was decoded gives the text in lower case. |
| Hex.TextOfByte | src/hex.rs:12-28 | Byte k is written as the lower-case digits of its high and its low half, in this order. |
| Hex.Digits | src/hex.rs:38-61 | The digits and their values, in both cases, and no other characters. |
| Padding.Pad | src/padding.rs:27-42 | Fails, touching nothing, exactly if the block size is 0 or the padded length exceeds the buffer; otherwise keeps the message, writes 0x80 and zeros, and touches nothing else. |
| Padding.Unpad | src/padding.rs:46-60 | For every padded length, beyond the slice or not: succeeds with n exactly if the last block of the bytes behind the pointer is padding that starts at n; which offsets are read. |
| Padding.PaddingForm | src/padding.rs:44-60 | Padding that starts at n is 0x80 and zeros up to the end, together no longer than a block. |
| Padding.ReadsInside | src/padding.rs:46-60 | All reads are inside the slice if and only if nothing is read or the padded length is at most the slice's. |
| Padding.DecidedBySlice | src/padding.rs:46-60 | The outcome depends on the slice alone if and only if the same condition holds. |
| Padding.ReadOutside | src/padding.rs:46-60 | An empty slice with padded length and block size 1: a byte outside it is read and decides. |
| Padding.PadThenUnpad | src/padding.rs:74-92 | Unpadding undoes padding for every buffer, length and block size, and reads only the buffer. |
| Padding.PaddedLengthIsLeast | src/padding.rs:22-26 | The padded length is the least multiple of the block size above the length. |
| Padding.UnpaddedWasPadded | src/padding.rs:44-60 | On whole blocks, only what pad would have written is accepted. |
| Padding.PadDoesNotOverflow | src/padding.rs:27-42 | The length computation cannot overflow for a slice. |
| LittleEndian.IncrementLe | src/utils.rs:67-71 | The bytes of the number plus one. |
| LittleEndian.IncrementBytes | src/utils.rs:67-71 | Byte by byte: a first byte below 255 is increased, 255 becomes 0 and carries on. |
| LittleEndian.Wraps | src/utils.rs:159-165 | Of any length, bytes that are all 255 become all zero. |
| LittleEndian.IncrementExamples | src/utils.rs:131-157 | Two examples: a carry out of the first byte, and one out of the number. |
| LittleEndian.AddLe | src/utils.rs:82-91 | Unequal lengths give Err and no change; otherwise the bytes of the sum. |
| LittleEndian.PlusValue | src/utils.rs:73-76 | Those bytes stand for the sum modulo 2^(8*len). |
| LittleEndian.DigitsReduce | src/utils.rs:73-76 | Keeping len bytes of a number reduces it modulo 2^(8*len). |
| LittleEndian.IncrementTimes | src/newtype_macros.rs:279-282 | k calls of increment_le in place leave the k-th value visited. |
| LittleEndian.StepsAdd | src/newtype_macros.rs:279-282 | k increments add k. |
| LittleEndian.StepsAgreeWithAddLe | src/newtype_macros.rs:259-282 | k increments agree with add_le of the bytes of k and move the number by k modulo 2^(8*len). |
| LittleEndian.StepsDistinct | src/newtype_macros.rs:272-282 | The first 2^(8*len) nonces visited are pairwise different, and the next is the start again. |
| StreamCipher.XorIc | src/crypto/stream/stream_macros.rs:101-137 | Block by block, also in place: each byte is the message byte xor the keystream byte. |
| StreamCipher.Stream | src/crypto/stream/stream_macros.rs:43-54 | The bare keystream from block 0. |
| StreamCipher.StreamXor | src/crypto/stream/stream_macros.rs:62-74 | The message xor the output of stream, of the same length. |
| StreamCipher.StreamXorInplace | src/crypto/stream/stream_macros.rs:82-92 | Leaves in place what stream_xor returns. |
| StreamCipher.StreamXorIc | src/crypto/stream/stream_macros.rs:101-115 | The message under the keystream from block ic. |
| StreamCipher.StreamXorIcInplace | src/crypto/stream/stream_macros.rs:125-137 | Leaves in place what stream_xor_ic returns. |
| StreamCipher.EncryptedByte | src/crypto/stream/stream_macros.rs:94-137 | Byte i of the n-th 64-byte block is the message byte xor byte i of the block for counter ic + n, modulo 2^64. |
| StreamCipher.EncryptedTwice | src/crypto/stream/stream_macros.rs:56-61 | Encrypting twice decrypts. |
| StreamCipher.Seek | src/crypto/stream/stream_macros.rs:94-115 | From 64-byte block n on, the ciphertext is that of the tail with the counter started at ic + n, reduced to 64 bits. |
| StreamCipher.EncryptedInParts | src/crypto/stream/stream_macros.rs:94-115 | A message may be encrypted in two parts cut at a block boundary. |
| Newtype.Newtype.FromSlice | src/newtype_macros.rs:16-23 | Succeeds exactly on the right length, with those bytes. |
| Newtype.Newtype.VisitBytes | src/newtype_macros.rs:66-71 | The same, as a visitor. |
| Newtype.Newtype.VisitSeq | src/newtype_macros.rs:55-65 | Passes on the first error among the elements it asks for; else the bytes, padded with zeros or cut. |
| Newtype.SeqOutcome | src/newtype_macros.rs:55-65 | Fails if and only if one of the first length elements is an error; otherwise byte i is element i, or zero where there is none. |
| Newtype.VisitorsAgree | src/newtype_macros.rs:35-74 | On every byte string, what visit_seq yields; it agrees with visit_bytes exactly on the right length, where both undo serialize. |
| Newtype.Newtype.IncrementLeInplace | src/newtype_macros.rs:279-282 | Adds one in place. |
| Newtype.Newtype.IncrementLe | src/newtype_macros.rs:266-270 | Returns the incremented value and leaves the receiver alone. |

## Left out

- SecretStream.Stream: the type-level push and pull modes; one class has the methods of both.
- SecretStream.Stream.InitPush: randomness is a parameter; the header is whatever the primitive makes of it.
- SecretStream.Stream.Finalize: consuming the stream is not represented; later calls are possible and fail.
- SecretStream.Vec: the growth strategy and allocation failure of Rust vectors.
- SecretStreamPrefix.PrefixSafety: authenticity is an assumption on the run, not a computational statement.
- Hash.State: the chaining value is one abstract value and the counter one number of 64 or 128 bits, not words.
- StreamCipher.Seek: the wrap-around of the block counter at 2^64 is assumed of the foreign function.
- Padding.Unpad: reading past the slice is represented as reading some byte, not as undefined behaviour.
- Padding.Pad: lengths near 2^64, for which the foreign function aborts, are plain numbers here.
- Hex.Encode: the panic on overflow is an error result.
- utils::memcmp and the comparison traits, which compare byte strings, and utils::memzero, which fills one with zeros.
- utils::mlock, utils::munlock, randombytes and key or nonce generation: effects of the operating system.
- Constant-time behaviour, zeroing on drop and hidden debug output: not functional properties.
- The aead, box, sealedbox, secretbox, sign, kx, kdf, pwhash, scalarmult, shorthash and verify wrappers: one
  foreign call plus a length check each.
- Ciphers, compression functions and curves: foreign code, uninterpreted here or absent.
