# Verified models of the VPN components

This project models the parts of the repository whose logic is hardest to get right, and proves
what they promise. Arrays, cursors, tables and fields that the sources change in place are arrays,
variables and fields here; each method is proved against a specification, and the main results are
about all inputs, all runs or all ways of cutting a stream.

- **Curve25519** (`Limbs`, `FieldElement`, `Rfc7748`, `X25519`): sixteen signed limbs with 64-bit
  intermediates refine the integers modulo 2^255-19, and the whole function is X25519 of section 5
  of RFC 7748.
- **LZ4 blocks** (`Lz4Format`, `Lz4Reference`, `Lz4Memory`, `Lz4Decoder`, `Lz4Encoding`,
  `Lz4Dictionary`, `Lz4Words`, `Lz4Emit`, `Lz4Greedy`, `Lz4Search`, `Lz4Compressor`, `Lz4Stream`,
  `Lz4RoundTrip`): the fast decoder equals byte-at-a-time decoding, the hash-table compressor
  writes exactly the greedy parse of its source, which decodes to it, and states and streams can
  be reused for ever.
- **LZ4 high compression** (`Lz4HcSearch`, `Lz4HcChains`, `Lz4HcFinder`, `Lz4HcParse`,
  `Lz4HcOptimal`, `Lz4HcStream`): the chain search with its chain swaps and pattern jumps misses no
  longer match while it has attempts left, and the optimal parser at levels 10 to 12 does what its
  price table says.
- **LZ4 frames** (`Lz4FrameFormat`, `Lz4FrameLayout`, `Lz4FramePoints`, `Lz4FrameDecoder`,
  `Lz4FrameWriting`, `Lz4Incompressible`, `Lz4FrameEncoder`): a
  resumable decoder whose result does not depend on how input and output are cut, and an encoder
  whose frames it decodes.
- **XXH32** (`XxHash32`, `XxHashSpec`, `XxHashRefinement`): streaming equals one-shot, and both are
  the checksum of the xxHash description.
- **Keys** (`Rfc4648`, `KeyCodec`): the branch-free base64 and hexadecimal codec equals the tables of RFC 4648.
- **Tunnel** (`TunnelBackend`, `TunnelAdapter`): the handle table of the Go backend and the life
  cycle of the Swift adapter over any run of operations and failing steps.
- **Configuration text** (`ConfigText`, `WireGuardConfig`, `WireGuardMeaning`): the parser of
  configuration files, what it makes of every text, and its printer.

`MachineInts`, `Arithmetic` and `TwosComplement` hold the machine integers and the arithmetic the
others share. `dafny verify dfyconfig.toml` checks everything.

Five properties turned out to hold only under a condition, which is proved exactly:

- Decoding with an external dictionary differs from decoding after the same bytes when a match from
  the dictionary ends among the last five bytes of the buffer: the decoder's shortcut accepts such
  a block, the dictionary branch refuses it (`Lz4Dictionary.ExternalEqualsPrefix`, `TightBlockDiffers`).
- `LZ4F_resetDecompressionContext` does not reset the number of bytes to come, so a context that
  abandoned a frame with content size refuses frames without one (`Lz4FrameFormat.StaleCount`,
  `Lz4FrameDecoder.OfferFrame`, `Lz4FrameEncoder.StaleContextRefuses`).
- `LZ4F_flush` and `LZ4F_compressEnd` test their capacity only for the data and a block header.  A
  flush keeps within it, for all data of a size, exactly if there is also room for the block
  checksum, the end of a frame exactly if the capacity is what `LZ4F_compressBound` asks for
  (`Lz4FrameEncoder.Cctx.Flush`, `CompressEnd`, `FlushCapacity`, `EndCapacity`, `FlushExceeds`).
- A configuration whose first or last DNS entry is blank is printed to a text that parses
  differently (`WireGuardConfig.RoundTrip`, `BlankDnsExample`).
- A refused update reports success.  The device holds the recorded configuration exactly if it did
  not refuse the last update that was sent to it since it was started or resumed
  (`TunnelAdapter.Run`, `HoldsExactly`, `RefusedUpdate`).

Where the code and the format descriptions differ, the model follows the code: the decoder treats
offset 0 as a copy of zero bytes, an end mark is any block header whose low 31 bits are zero, and a
content size field of 0 announces nothing.

## Model

| member | source | states |
|---|---|---|
| X25519.SharedSecret | WireGuardKit/Sources/WireGuardKitC/x25519.c:120-164 | for every private key and every u-coordinate the 32 bytes written are those of the X25519 function of section 5 of RFC 7748 over the integers modulo 2^255-19, with clamping, the masked top bit and the final multiplication by the inverse; every intermediate fits in 64 bits |
| X25519.DerivePublicKey | WireGuardKit/Sources/WireGuardKitC/x25519.c:166-171 | the public key is X25519 of the private key and the base point 9 |
| X25519.LadderLoop | WireGuardKit/Sources/WireGuardKitC/x25519.c:136-156 | the 255 iterations leave the RFC's ladder coordinates of the scalar's bits from 254 down, with the RFC's pending exchange already done |
| X25519.LadderIterate | WireGuardKit/Sources/WireGuardKitC/x25519.c:136-156 | one iteration, with its two exchanges, is one iteration of the RFC's ladder with its delayed exchange |
| X25519.LadderDouble | WireGuardKit/Sources/WireGuardKitC/x25519.c:139-154 | between the exchanges the eighteen field operations compute the RFC's doubling and differential addition modulo the prime, and leave limbs fit for the next iteration |
| X25519.Invert | WireGuardKit/Sources/WireGuardKitC/x25519.c:106-118 | 254 rounds of squaring and multiplying give the power p-2 modulo the prime |
| X25519.ExponentFinal | WireGuardKit/Sources/WireGuardKitC/x25519.c:112-116 | skipping the multiplication in rounds 2 and 4 makes the exponent exactly p-2 |
| X25519.Pack | WireGuardKit/Sources/WireGuardKitC/x25519.c:39-63 | from every limb vector within the carry limit the unique little-endian representative in 0..p-1 is written |
| X25519.TwoSubtractions | WireGuardKit/Sources/WireGuardKitC/x25519.c:48-58 | below 2p+38 two conditional subtractions reach the representative modulo p |
| X25519.SubtractPrime | WireGuardKit/Sources/WireGuardKitC/x25519.c:49-56 | the borrow loop subtracts p as a number, and its borrow tells whether the value was below p |
| X25519.CarryThrice | WireGuardKit/Sources/WireGuardKitC/x25519.c:45-47 | three carry passes turn limbs within the carry limit into digits 0..0xffff without changing the value modulo p |
| X25519.ClampedCopy | WireGuardKit/Sources/WireGuardKitC/x25519.c:128-131 | the masked bytes are those of the clamping, which is stated as division and remainder |
| X25519.ClampBytes | WireGuardKit/Sources/WireGuardKitC/x25519.c:129-130 | on every byte the masks 248, 127 and 64 clear the three lowest bits, clear the highest and set the one below it |
| Rfc7748.ClampedScalar | WireGuardKit/Sources/WireGuardKitC/x25519.c:129-131 | a clamped scalar is 2^254 plus the bits 3 to 253 of the private key as a number, so it is a multiple of 8 between 2^254 and 2^255 |
| Rfc7748.BitOfBytes | WireGuardKit/Sources/WireGuardKitC/x25519.c:137 | bit t of the little-endian number is bit t%8 of byte t/8, the expression the loop reads |
| Rfc7748.ToBytesUnique | WireGuardKit/Sources/WireGuardKitC/x25519.c:59-62 | no two byte strings of equal length denote the same little-endian number |
| X25519.Unpack | WireGuardKit/Sources/WireGuardKitC/x25519.c:65-72 | the limbs are digits whose value is the number of the bytes with the top bit masked |
| X25519.CSwap | WireGuardKit/Sources/WireGuardKitC/x25519.c:27-37 | the masked exclusive-or exchange swaps for bit 1 and changes nothing for bit 0 |
| TwosComplement.MaskedExchange | WireGuardKit/Sources/WireGuardKitC/x25519.c:31-36 | on every pair of signed words, exchanging through a mask of all ones swaps and through zero keeps |
| FieldElement.MultMod | WireGuardKit/Sources/WireGuardKitC/x25519.c:90-104 | from loose limbs the result is congruent to the product modulo p and reduced, and no 64-bit intermediate overflows |
| FieldElement.Carry | WireGuardKit/Sources/WireGuardKitC/x25519.c:17-25 | the loop is one carry pass, and nothing overflows within the carry limit |
| FieldElement.CarryKeepsValue | WireGuardKit/Sources/WireGuardKitC/x25519.c:17-25 | a carry pass keeps the value modulo p: the carry out of limb 15 comes back times 38 |
| FieldElement.CarryTwice | WireGuardKit/Sources/WireGuardKitC/x25519.c:102-103 | two passes reduce anything the products can leave |
| FieldElement.CarryReduced | WireGuardKit/Sources/WireGuardKitC/x25519.c:45-47 | a third pass brings reduced limbs to digits |
| FieldElement.Fold | WireGuardKit/Sources/WireGuardKitC/x25519.c:99-100 | folding the upper limbs with weight 38 keeps the value modulo p, within the carry limit |
| FieldElement.ProductRow | WireGuardKit/Sources/WireGuardKitC/x25519.c:95-98 | each row adds its limb times the other operand at its weight, with bounded partial sums |
| FieldElement.Add | WireGuardKit/Sources/WireGuardKitC/x25519.c:74-80 | reduced operands give loose limbs whose value is the sum, also when the operands alias the result |
| FieldElement.Subtract | WireGuardKit/Sources/WireGuardKitC/x25519.c:82-88 | reduced operands give loose limbs whose value is the difference, also when the operands alias the result |
| Lz4Decoder.DecompressGeneric | OpenVPNAdapter/Sources/LZ4/lib/lz4.c:1402-1645 | for every input, buffer size, history and directive the fast decoder terminates within its buffers, returns exactly the result or error position of byte-at-a-time decoding under the stated acceptance rules, and writes those bytes |
| Lz4Reference.AcceptedIsFormat | OpenVPNAdapter/Sources/LZ4/lib/lz4.c:1445-1634 | whatever is accepted is decoded as the block format says, for every block, history and capacity |
| Lz4Decoder.DecodeStep | OpenVPNAdapter/Sources/LZ4/lib/lz4.c:1446-1634 | one iteration, through the shortcut or not, advances exactly as one sequence of the reference |
| Lz4Decoder.SmallDistance | OpenVPNAdapter/Sources/LZ4/lib/lz4.c:283-291 | for every offset below 8 the two tables leave distances that continue the period: at least 4 after four bytes, at least 8 after eight |
| Lz4Decoder.FirstEight | OpenVPNAdapter/Sources/LZ4/lib/lz4.c:1606-1619 | after the first eight bytes the output repeats with the offset, and the remaining copy distance is a multiple of it and at least 8 |
| Lz4Decoder.CopyNearEnd | OpenVPNAdapter/Sources/LZ4/lib/lz4.c:1621-1628 | a match that ends near the end of the buffer is completed without writing behind it |
| Lz4Decoder.CopyFar | OpenVPNAdapter/Sources/LZ4/lib/lz4.c:1629-1632 | the rest of any other match is completed by wide copies that stay in the buffer |
| Lz4Decoder.CopyWithinBlock | OpenVPNAdapter/Sources/LZ4/lib/lz4.c:1588-1633 | a match within the block is the byte-at-a-time copy, and is refused exactly when it ends among the last five bytes of the buffer |
| Lz4Decoder.CopyFromDict | OpenVPNAdapter/Sources/LZ4/lib/lz4.c:1560-1585 | a match that starts in the external dictionary, runs into the block and overlaps itself is the byte-at-a-time copy of dictionary and block together |
| Lz4Decoder.WriteMatch | OpenVPNAdapter/Sources/LZ4/lib/lz4.c:1541-1634 | from whichever memory a match starts in, it is the byte-at-a-time copy, and is refused exactly near the end |
| Lz4Decoder.ShortcutMatch | OpenVPNAdapter/Sources/LZ4/lib/lz4.c:1470-1488 | the shortcut's eighteen bytes are the match when its guard holds |
| Lz4Decoder.CopyLiteralsStep | OpenVPNAdapter/Sources/LZ4/lib/lz4.c:1507-1538 | literals outside the shortcut are copied, end the block or lead to a match exactly as in the reference |
| Lz4Decoder.ReadLiteralLength | OpenVPNAdapter/Sources/LZ4/lib/lz4.c:1495-1505 | a literal length and its overrun are those of the reference |
| Lz4Decoder.ReadMatchLength | OpenVPNAdapter/Sources/LZ4/lib/lz4.c:1546-1557 | a match length and its overrun are those of the reference |
| Lz4Format.CopyMatchAt | OpenVPNAdapter/Sources/LZ4/lib/lz4.c:1588-1633 | byte k of a match copy is the byte at k modulo the offset before it |
| Lz4Format.CopyMatchUnique | OpenVPNAdapter/Sources/LZ4/lib/lz4.c:1588-1633 | keeping the history and continuing it periodically determines the match copy |
| Lz4Memory.WildCopyOut | OpenVPNAdapter/Sources/LZ4/lib/lz4.c:283-292 | a wide copy within the output leaves every byte equal to the byte its distance behind, and touches fewer than eight bytes too many |
| Lz4Memory.WildCopyIn | OpenVPNAdapter/Sources/LZ4/lib/lz4.c:283-292 | a wide copy from the input copies the bytes and touches at most eight bytes too many |
| Lz4Dictionary.ExternalEqualsPrefix | OpenVPNAdapter/Sources/LZ4/lib/lz4.c:1541-1585 | for every block, history and capacity: decoding with an external dictionary accepts with the same result if and only if decoding with the same bytes in front of the output accepts and no match that starts in the dictionary ends among the last five bytes of the buffer |
| Lz4Dictionary.RoomMakesEqual | OpenVPNAdapter/Sources/LZ4/lib/lz4.c:1560-1564 | five bytes to spare in the buffer make the two ways of decoding equal |
| Lz4Dictionary.TightBlockDiffers | OpenVPNAdapter/Sources/LZ4/lib/lz4.c:1470-1488 | an 18-byte block into a buffer of exactly its size is accepted after a prefix, through the shortcut, and rejected with the same dictionary elsewhere |
| Lz4Stream.DecompressSafe | OpenVPNAdapter/Sources/LZ4/lib/lz4.c:1651-1655 | result code and output are those of the reference without history |
| Lz4Stream.DecompressSafeUsingDict | OpenVPNAdapter/Sources/LZ4/lib/lz4.c:1882-1892 | result code and output are those of the reference after the dictionary, kept elsewhere |
| Lz4Stream.DecompressSafeWithPrefix | OpenVPNAdapter/Sources/LZ4/lib/lz4.c:1678-1701 | result code and output are those of the reference after the prefix, for small prefixes and for 64 KB |
| Lz4Stream.StreamDecode.DecompressSafeContinue | OpenVPNAdapter/Sources/LZ4/lib/lz4.c:1801-1838 | each block is decoded after everything decoded before it, through the first-block, small-prefix and 64 KB switches, and the state grows by exactly the result |
| Lz4Words.Count | OpenVPNAdapter/Sources/LZ4/lib/lz4.c:421-446 | word, half-word and byte comparisons and the trailing-zero count give exactly the number of common bytes up to the limit |
| Lz4Words.CommonBytes | OpenVPNAdapter/Sources/LZ4/lib/lz4.c:348-402 | the trailing zeros of the exclusive-or of two different words, over eight, are the position of the first different byte |
| Lz4Search.FindMatch | OpenVPNAdapter/Sources/LZ4/lib/lz4.c:749-806 | the search ends at the first of the tried positions whose table entry is a match of four bytes within 65535 in the prefix or block, leaves exactly the tried positions in the table, and the steps between them grow by one every 64 positions; every entry it leaves is acceptable and fits the table's type |
| Lz4Search.TestsAreHits | OpenVPNAdapter/Sources/LZ4/lib/lz4.c:795-806 | the distance tests and the comparison of four bytes accept exactly the entries that are matches, whatever earlier calls left in the table |
| Lz4Search.SlotIs | OpenVPNAdapter/Sources/LZ4/lib/lz4.c:515-538 | the shifted and multiplied words are the hash of exactly the first four bytes, 13 bits wide, or of the first five, 12 bits wide |
| Lz4Search.ReachIsSafe | OpenVPNAdapter/Sources/LZ4/lib/lz4.c:795-799 | an entry that passes the distance tests lies in the prefix or block, before the position and within 65535 |
| Lz4Search.PutPosition | OpenVPNAdapter/Sources/LZ4/lib/lz4.c:552-571 | the entry of the hash becomes the index of the position and no other entry changes; all stay acceptable |
| Lz4Search.PutIndexOnHash | OpenVPNAdapter/Sources/LZ4/lib/lz4.c:540-550 | for every position that the compressor stores, the truncation to 16 bits changes nothing, so that all entries of a 16-bit table stay below 65536 |
| Lz4Compressor.TestNext | OpenVPNAdapter/Sources/LZ4/lib/lz4.c:917-969 | the test right after a match succeeds exactly if the entry of the position is a match, and the position takes its place |
| Lz4Compressor.CatchUp | OpenVPNAdapter/Sources/LZ4/lib/lz4.c:808-809 | the match grown backwards is still a match, and it grows exactly as far as the bytes agree, the anchor and the start of the prefix allow |
| Lz4Compressor.MeasureMatch | OpenVPNAdapter/Sources/LZ4/lib/lz4.c:848-878 | the length of a match is the number of bytes that agree up to five bytes before the end of the block |
| Lz4Compressor.SequenceCost | OpenVPNAdapter/Sources/LZ4/lib/lz4.c:811-910 | a sequence takes at most 256/255 of the bytes it stands for |
| Lz4Compressor.EmitStep | OpenVPNAdapter/Sources/LZ4/lib/lz4.c:811-910 | one more sequence keeps the invariant: what is written expands to the source so far, keeps the end-of-block rules and the size ratio |
| Lz4Compressor.EmitSequence | OpenVPNAdapter/Sources/LZ4/lib/lz4.c:811-910 | a sequence is written inside LZ4_compressBound, 4-byte writes and wide copies included; the limited mode refuses it exactly if one of its two checks asks for more than there is |
| Lz4Compressor.CompressBlock | OpenVPNAdapter/Sources/LZ4/lib/lz4.c:649-1007 | the block is exactly the greedy parse of the source from the table given, and leaves the table of that parse; it decodes to the source in every buffer large enough and wherever its history lies, is at most n+n/255+16 bytes, and is refused exactly if the limited mode has less room than the largest of all checks asks for |
| Lz4Compressor.SpaceForLast | OpenVPNAdapter/Sources/LZ4/lib/lz4.c:976-1000 | the sum of the floor terms of any number of sequences and the last literals stays within n+n/255+16 |
| Lz4Encoding.BlockAccepted | OpenVPNAdapter/Sources/LZ4/lib/lz4.c:1445-1634 | every list of sequences that keeps the end-of-block rules is accepted by the decoder and regenerates what it stands for |
| Lz4Encoding.SequenceRead | OpenVPNAdapter/Sources/LZ4/lib/lz4.c:1445-1634 | the decoder reads an encoded sequence back and goes on behind it, through the shortcut or not |
| Lz4Emit.WriteWideRun | OpenVPNAdapter/Sources/LZ4/lib/lz4.c:876-905 | a match length written four bytes of 255 at a time is the run of the format, with at most three bytes touched behind it |
| Lz4Emit.WriteRun | OpenVPNAdapter/Sources/LZ4/lib/lz4.c:822-828 | a literal length written byte by byte is the run of the format |
| Lz4Stream.Stream.PrepareTable | OpenVPNAdapter/Sources/LZ4/lib/lz4.c:608-645 | the table is kept exactly if it has the right type, the input is less than 4 KB and the offsets suffice, and is cleared otherwise; then every old entry is below the new start by more than 64 KB or every index of the coming block fits in 16 bits |
| Lz4Stream.Stream.CompressGeneric | OpenVPNAdapter/Sources/LZ4/lib/lz4.c:649-1007 | from any table the state can hold the result is the greedy parse with the state's offset and prefix; the block decodes to its source, and the state stays usable |
| Lz4Stream.Stream.CompressFastExtState | OpenVPNAdapter/Sources/LZ4/lib/lz4.c:1010-1029 | a successful result is the greedy parse from an empty table, with 16-bit entries below 65547 bytes; it decodes to the source and fits; it fails only below LZ4_compressBound or above the maximal input size |
| Lz4Stream.Stream.CompressFastReset | OpenVPNAdapter/Sources/LZ4/lib/lz4.c:1041-1075 | the same from whatever state earlier calls left, prepared as above |
| Lz4Stream.Stream.RenormDict | OpenVPNAdapter/Sources/LZ4/lib/lz4.c:1249-1265 | after renormalisation the indexes of the coming block stay within 2^31; every entry is lowered by the same amount, or to 0 if it was out of reach, and the last 64 KB stay |
| Lz4Stream.Stream.CompressFastContinue | OpenVPNAdapter/Sources/LZ4/lib/lz4.c:1268-1337 | for a block that follows the previous one the result is the greedy parse with the previous 64 KB or what there is of them as prefix, and decodes to the block after everything before it, across renormalisation and the small and large prefix modes |
| Lz4RoundTrip.BlockRoundTrip | OpenVPNAdapter/Sources/LZ4/lib/lz4.c:1041-1075 | every source up to LZ4_MAX_INPUT_SIZE, compressed into LZ4_compressBound bytes with any reused state, is decoded to itself |
| Lz4RoundTrip.ReuseRoundTrip | OpenVPNAdapter/Sources/LZ4/lib/lz4.c:1041-1075 | over any run of calls on one state each output decodes to its own source |
| Lz4RoundTrip.StreamBlock | OpenVPNAdapter/Sources/LZ4/lib/lz4.c:1268-1337 | one more contiguous block keeps compressor and decompressor on the same history |
| Lz4RoundTrip.StreamRoundTrip | OpenVPNAdapter/Sources/LZ4/lib/lz4.c:1249-1337 | over any run of non-empty contiguous blocks with LZ4_compressBound bytes each the decompressor regenerates every block |
| Lz4HcFinder.HcContext.Insert | OpenVPNAdapter/Sources/LZ4/lib/lz4hc.c:113-131 | the tables then hold every index of the segment: each hash its last index, and each of the last 65536 indexes the distance to the one before it with the same hash; however the tables began |
| Lz4HcChains.InsertStep | OpenVPNAdapter/Sources/LZ4/lib/lz4hc.c:121-128 | one more index keeps what the tables say about all indexes of the segment, also when its link replaces one of 65536 indexes before |
| Lz4HcFinder.HcContext.InsertAndGetWiderMatch | OpenVPNAdapter/Sources/LZ4/lib/lz4hc.c:205-381 | whatever the tables held: a match longer than the minimum lies in the segment at distance 1..65535, ends before the high limit and repeats the source bytes; and unless every attempt is used up no match of the window is longer, in spite of chain swaps, pattern jumps and hash collisions |
| Lz4HcFinder.HcContext.Advance | OpenVPNAdapter/Sources/LZ4/lib/lz4hc.c:284-346 | from a candidate that has been compared, each way to the next one passes over no longer match |
| Lz4HcFinder.HcContext.SwapChain | OpenVPNAdapter/Sources/LZ4/lib/lz4hc.c:284-299 | the chain of any place within a match leads to every longer match |
| Lz4HcChains.FollowMisses | OpenVPNAdapter/Sources/LZ4/lib/lz4hc.c:346 | between two candidates of a chain no index has a match longer than the best |
| Lz4HcChains.JumpWithin | OpenVPNAdapter/Sources/LZ4/lib/lz4hc.c:322-324 | a jump to the place of a run with as many bytes left as the run searched for passes only shorter matches |
| Lz4HcChains.JumpOver | OpenVPNAdapter/Sources/LZ4/lib/lz4hc.c:325-340 | a jump over a whole run passes no match longer than the one taken from it |
| Lz4HcFinder.HcContext.MeasureRun | OpenVPNAdapter/Sources/LZ4/lib/lz4hc.c:317-320 | the counts forwards and backwards from a candidate are the whole run of the byte around it, down to the window and up to the limit |
| Lz4HcFinder.HcContext.Compare | OpenVPNAdapter/Sources/LZ4/lib/lz4hc.c:249-265 | a candidate is taken exactly if its match is longer than the best, with the number of bytes that agree as its length; the two quick tests miss none, and no read leaves the block |
| Lz4HcFinder.HcContext.BetterChain | OpenVPNAdapter/Sources/LZ4/lib/lz4hc.c:284-299 | the chain chosen is that of the first place within the match with the largest step |
| Lz4HcFinder.HcContext.PatternJump | OpenVPNAdapter/Sources/LZ4/lib/lz4hc.c:316-341 | the match taken from two runs of one byte, without comparing them, is a match; none of the indexes jumped over has a longer match than the best or than the index jumped to; the index only decreases and never leaves 32 bits, also for a candidate just out of reach |
| Lz4HcFinder.HcContext.TryPattern | OpenVPNAdapter/Sources/LZ4/lib/lz4hc.c:301-343 | the pattern analysis keeps the best match valid and jumps over nothing longer, or stops where the window ends |
| Lz4HcFinder.HcContext.FindLongerMatch | OpenVPNAdapter/Sources/LZ4/lib/lz4hc.c:1131-1150 | a non-zero length is that of a valid match, the longest of the window unless the attempts were used up, cut to 18 exactly if it has 19 to 36 bytes and decompression speed is favoured; length zero means that nothing is longer than the minimum or the attempts were used up |
| Lz4HcFinder.HcContext.Init | OpenVPNAdapter/Sources/LZ4/lib/lz4hc.c:95-109 | a new segment starts behind every index of the table, or the table is cleared |
| Lz4HcFinder.HcContext.ResetStreamFast | OpenVPNAdapter/Sources/LZ4/lib/lz4hc.c:899-906 | the number of bytes processed survives, so the next segment starts behind all old indexes |
| Lz4HcSearch.CountPattern | OpenVPNAdapter/Sources/LZ4/lib/lz4hc.c:152-180 | the count is how far the four-byte pattern repeats, up to the limit |
| Lz4HcSearch.ReverseCountPattern | OpenVPNAdapter/Sources/LZ4/lib/lz4hc.c:185-200 | backwards the count is how far the pattern repeats, down to the limit, and the pointer into the four pattern bytes stays inside them |
| Lz4HcSearch.PatternWord | OpenVPNAdapter/Sources/LZ4/lib/lz4hc.c:158-163 | comparing a word with the doubled pattern finds the first byte that breaks it |
| Lz4HcOptimal.EncodeHc | OpenVPNAdapter/Sources/LZ4/lib/lz4hc.c:409-477 | one sequence keeps the invariant of what is written and stays inside LZ4_compressBound with its wide copy |
| Lz4HcOptimal.SequencePriceIsSize | OpenVPNAdapter/Sources/LZ4/lib/lz4hc.c:1102-1122 | the price of a sequence is the number of bytes its encoding takes |
| Lz4HcOptimal.InitialPrices | OpenVPNAdapter/Sources/LZ4/lib/lz4hc.c:1203-1237 | the table holds the prices of the literals, of every length of the first match and of the trailing literals; every entry describes a literal or a valid match that ends at its position |
| Lz4HcOptimal.UpdatePrices | OpenVPNAdapter/Sources/LZ4/lib/lz4hc.c:1275-1333 | a further match replaces exactly the entries that it or the literals before it reach for no more, or for less where speed is favoured; every entry up to the trailing literals stays valid, and the last position moves only to the end of that match |
| Lz4HcOptimal.UpdateLiterals | OpenVPNAdapter/Sources/LZ4/lib/lz4hc.c:1276-1288 | up to three literals before a further match are taken exactly where they are cheaper |
| Lz4HcOptimal.UpdateMatch | OpenVPNAdapter/Sources/LZ4/lib/lz4hc.c:1291-1323 | each length of a further match is taken exactly where nothing is known yet or it costs no more, counted from the start of its literals |
| Lz4HcOptimal.ChoosePath | OpenVPNAdapter/Sources/LZ4/lib/lz4hc.c:1239-1338 | the positions searched and skipped, the matches found and the prices updated are those of the parse, and so is the step the stretch ends with, also when it is encoded at once; its start is a valid position |
| Lz4HcOptimal.ReverseTraversal | OpenVPNAdapter/Sources/LZ4/lib/lz4hc.c:1344-1358 | the traversal reaches position 0 and leaves in forward order exactly the steps that the table records backwards |
| Lz4HcOptimal.EmitPath | OpenVPNAdapter/Sources/LZ4/lib/lz4hc.c:1361-1372 | the forward walk writes exactly the sequences of those steps and ends where the stretch ends |
| Lz4HcOptimal.EmitStretch | OpenVPNAdapter/Sources/LZ4/lib/lz4hc.c:1185-1373 | a stretch is one of the parse, advances, keeps the invariant of what is written and never indexes behind the position searched |
| Lz4HcOptimal.OptimalSequences | OpenVPNAdapter/Sources/LZ4/lib/lz4hc.c:1183-1373 | for every level the sequences are a parse of the whole block as the price table and its searches decide, each search with a longest match of the window unless its attempts were used up, and stand for the source up to the last literals |
| Lz4HcStream.CompressGeneric | OpenVPNAdapter/Sources/LZ4/lib/lz4hc.c:705-759 | at levels 10 to 12 with room for the whole result the bytes are a parse with the attempts and sufficient length of the level; the block decodes to its source after its history and fits in LZ4_compressBound |
| Lz4HcStream.CompressHcFastReset | OpenVPNAdapter/Sources/LZ4/lib/lz4hc.c:822-832 | the same on a state whatever it was used for before |
| Lz4HcStream.CompressHc | OpenVPNAdapter/Sources/LZ4/lib/lz4hc.c:834-839 | the same on a state that is reset completely first |
| Lz4HcStream.LoadDict | OpenVPNAdapter/Sources/LZ4/lib/lz4hc.c:920-933 | after a reload the last 64 KB are the segment, all its indexes but the last three are in the tables, and the indexes are small again |
| Lz4HcStream.CompressHcContinue | OpenVPNAdapter/Sources/LZ4/lib/lz4hc.c:956-996 | for a block that follows the previous one the bytes are a parse that also finds the matches in the segment before it; the result decodes to it after everything before it, across reloads above 2 GB |
| Lz4HcStream.HcRoundTrip | OpenVPNAdapter/Sources/LZ4/lib/lz4hc.c:822-832 | every source compressed at levels 10 to 12 with any reused state is decoded to itself |
| Lz4HcStream.HcStreamRoundTrip | OpenVPNAdapter/Sources/LZ4/lib/lz4hc.c:956-996 | over any run of contiguous blocks the decompressor regenerates every block |
| XxHash32.XXH32 | OpenVPNAdapter/Sources/LZ4/lib/xxhash.c:269-323 | the unrolled loop over stripes and the tail loops compute the checksum of the bytes, which is that of the xxHash description by the next row |
| XxHashRefinement.ChecksumIsSpec | OpenVPNAdapter/Sources/LZ4/lib/xxhash.c:269-323 | for every input and seed the checksum is that of a second definition, modulo 2^32 with rotations and shifts as products and quotients and the primes written out: four accumulators over the columns of the input, their sum, the length, the words and bytes that are left, and the final mix |
| XxHashRefinement.NoBytes | OpenVPNAdapter/Sources/LZ4/lib/xxhash.c:299-321 | the checksum of no bytes is 0x02CC5D05 |
| XxHashRefinement.OneByte | OpenVPNAdapter/Sources/LZ4/lib/xxhash.c:299-321 | the checksum of the letter a is 0x550D7456 |
| XxHashRefinement.FourBytes | OpenVPNAdapter/Sources/LZ4/lib/xxhash.c:299-321 | the checksum of abcd is 0xA3643705 |
| XxHashRefinement.SixteenBytes | OpenVPNAdapter/Sources/LZ4/lib/xxhash.c:283-321 | the checksum of abcd four times is 0x75C720FF |
| XxHash32.State.Reset | OpenVPNAdapter/Sources/LZ4/lib/xxhash.c:371-381 | the state holds the seed and no bytes |
| XxHash32.State.Update | OpenVPNAdapter/Sources/LZ4/lib/xxhash.c:384-440 | after an update the state holds the earlier bytes followed by the input, whatever was buffered; lengths wrap modulo 2^32 |
| XxHash32.State.Digest | OpenVPNAdapter/Sources/LZ4/lib/xxhash.c:454-487 | the digest of a state is the checksum of the bytes it holds, however they were cut |
| XxHash32.State.ConsumeBytes | OpenVPNAdapter/Sources/LZ4/lib/xxhash.c:400-437 | completing the buffer, whole stripes and the rest keep lanes and buffer those of all bytes |
| XxHash32.LargeLength | OpenVPNAdapter/Sources/LZ4/lib/xxhash.c:393-394 | the flag for at least 16 bytes is right although the length it is taken from wraps |
| XxHash32.StreamedDigest | OpenVPNAdapter/Sources/LZ4/lib/xxhash.c:371-487 | for every seed and every split into updates the digest is the one-shot checksum |
| Lz4FrameDecoder.Dctx.Decompress | OpenVPNAdapter/Sources/LZ4/lib/lz4frame.c:1310-1762 | for every state and input: the stage loop ends; what the frame comes to is the same before and after the call; the content handed out grows by the output; an error means that the frame is wrong, names its fault, no sizes are reported, and the context can be reset; hint 0 means that it is complete; any other hint means that all input is read or the output is full, and is the number of bytes that the stage reached asks for |
| Lz4FrameDecoder.DecodeFrame | OpenVPNAdapter/Sources/LZ4/lib/lz4frame.c:1310-1762 | for every way of cutting input and output, also on a context that abandoned earlier frames: the concatenated output begins the content, up to the fault in a wrong frame; it is the whole content when a call returns 0, and an error occurs only if the frame is wrong and names its fault; if each call offers a byte and has room for one, as many calls as the frame and its content have bytes complete a valid frame and report a wrong one |
| Lz4FrameDecoder.FinishFrame | OpenVPNAdapter/Sources/LZ4/lib/lz4frame.c:1310-1762 | a call that is offered the rest of a frame and more room than its content completes a valid frame and reports a wrong one |
| Lz4FrameDecoder.OfferFrame | OpenVPNAdapter/Sources/LZ4/lib/lz4frame.c:1310-1762 | a valid frame offered at once with room for it is decoded if and only if it has a content size field or earlier frames left no bytes open; otherwise there is an error |
| Lz4FrameDecoder.Dctx.HandedOutBegins | OpenVPNAdapter/Sources/LZ4/lib/lz4frame.c:1334-1725 | in every state the content handed out begins the content of the frame, of a wrong one up to its fault |
| Lz4FrameDecoder.Dctx.NotStuck | OpenVPNAdapter/Sources/LZ4/lib/lz4frame.c:1334-1725 | a call that has read all there is ends only where input is missing, never behind a complete frame nor behind a wrong one |
| Lz4FrameDecoder.Dctx.Step | OpenVPNAdapter/Sources/LZ4/lib/lz4frame.c:1336-1724 | every stage keeps what the frame comes to and reads input or moves to a stage of lower rank |
| Lz4FrameDecoder.CheckHeader | OpenVPNAdapter/Sources/LZ4/lib/lz4frame.c:1092-1151 | the tests of a header decide as the format does, with the error of the first test that fails, for complete and partial headers |
| Lz4FrameDecoder.Dctx.DecodeHeader | OpenVPNAdapter/Sources/LZ4/lib/lz4frame.c:1085-1169 | a header, given directly or stored, leaves the context in the state of its kind; only a complete bad header is refused |
| Lz4FrameDecoder.Dctx.StoreFrameHeaderStage | OpenVPNAdapter/Sources/LZ4/lib/lz4frame.c:1352-1366 | a header that arrives in pieces comes to the same as in one piece |
| Lz4FrameDecoder.Dctx.CopyDirectStage | OpenVPNAdapter/Sources/LZ4/lib/lz4frame.c:1449-1481 | an uncompressed block may be cut anywhere; bytes, both checksums and the remaining size are kept |
| Lz4FrameDecoder.Dctx.GetBlockChecksumStage | OpenVPNAdapter/Sources/LZ4/lib/lz4frame.c:1484-1507 | a wrong block checksum fails, a right one leads to the next block, also in pieces |
| Lz4FrameDecoder.Dctx.GetCBlockStage | OpenVPNAdapter/Sources/LZ4/lib/lz4frame.c:1509-1572 | a compressed block read at once is decoded as the format says, into the output or beside it |
| Lz4FrameDecoder.Dctx.StoreCBlockStage | OpenVPNAdapter/Sources/LZ4/lib/lz4frame.c:1520-1611 | a compressed block that arrives in pieces comes to the same |
| Lz4FrameDecoder.Dctx.FlushStage | OpenVPNAdapter/Sources/LZ4/lib/lz4frame.c:1613-1632 | decoded bytes are handed out in order and none is lost when the output is full |
| Lz4FrameDecoder.Dctx.GetSuffixStage | OpenVPNAdapter/Sources/LZ4/lib/lz4frame.c:1634-1676 | the frame is complete exactly when the size left is 0 and the content checksum, if any, is right |
| Lz4FrameDecoder.Dctx.SkipStage | OpenVPNAdapter/Sources/LZ4/lib/lz4frame.c:1713-1723 | a skippable frame is complete after exactly its size, in any pieces |
| Lz4FrameFormat.HeaderStable | OpenVPNAdapter/Sources/LZ4/lib/lz4frame.c:1085-1169 | a complete header does not depend on what follows it |
| Lz4FrameLayout.MagicBytes | OpenVPNAdapter/Sources/LZ4/lib/lz4frame.c:1096-1111 | a frame starts with the bytes 04 22 4D 18, a skippable one with 50 to 5F, 2A, 4D and 18 |
| Lz4FrameLayout.FlagBits | OpenVPNAdapter/Sources/LZ4/lib/lz4frame.c:1114-1128 | for every value of each flag the version and reserved bits are accepted exactly if they are 1 and 0, and the header has 7 bytes, 8 more for a content size and 4 more for a dictionary number |
| Lz4FrameLayout.DescriptorBits | OpenVPNAdapter/Sources/LZ4/lib/lz4frame.c:1140-1146 | a block descriptor is accepted exactly if its reserved bits are 0 and its size is 4 to 7 |
| Lz4FrameLayout.BlockSizeIs | OpenVPNAdapter/Sources/LZ4/lib/lz4frame.c:267-275 | the block sizes are 2^(8+2n) bytes |
| Lz4FrameLayout.HeaderByteIs | OpenVPNAdapter/Sources/LZ4/lib/lz4frame.c:277-281 | the header checksum is the second lowest byte of the checksum |
| Lz4FrameLayout.InfoBits | OpenVPNAdapter/Sources/LZ4/lib/lz4frame.c:1154-1163 | the parameters of a header are its flags, the eight bytes of the content size and the block size |
| Lz4FrameLayout.BlockWord | OpenVPNAdapter/Sources/LZ4/lib/lz4frame.c:1421-1430 | the highest bit of a block header marks an uncompressed block, the others are its size |
| Lz4FrameLayout.EmptyFrame | OpenVPNAdapter/Sources/LZ4/lib/lz4frame.c:1310-1762 | fifteen bytes written out are a frame without content |
| Lz4FrameLayout.RawFrame | OpenVPNAdapter/Sources/LZ4/lib/lz4frame.c:1310-1762 | twenty bytes written out are a frame with one uncompressed byte, whatever its checksums say is checked, and what is behind it is left |
| Lz4FrameLayout.SkippableFrame | OpenVPNAdapter/Sources/LZ4/lib/lz4frame.c:1679-1723 | a skippable frame of one byte has no content and leaves what is behind it |
| Lz4FrameFormat.RawStep | OpenVPNAdapter/Sources/LZ4/lib/lz4frame.c:1449-1481 | copying an uncompressed block in two steps comes to the same as in one |
| Lz4FrameFormat.ContentExtends | OpenVPNAdapter/Sources/LZ4/lib/lz4frame.c:1394-1632 | what is decoded at a block boundary begins the content, of a wrong frame the content in front of its fault |
| Lz4FrameFormat.SizedContent | OpenVPNAdapter/Sources/LZ4/lib/lz4frame.c:1160-1162 | an accepted non-zero content size is the length of the content modulo 2^64 |
| Lz4FrameFormat.StaleCount | OpenVPNAdapter/Sources/LZ4/lib/lz4frame.c:1044-1049 | whatever number of bytes an abandoned frame left open, a frame is accepted if and only if it would be accepted with none open and it has a content size field or none is open; otherwise the fault is noticed behind the whole content; the decoder is related to this by DecodeFrame and OfferFrame |
| Lz4FrameWriting.HeaderRead | OpenVPNAdapter/Sources/LZ4/lib/lz4frame.c:650-677 | a written header is read back with all its parameters, whatever follows |
| Lz4FrameWriting.PackedEmits | OpenVPNAdapter/Sources/LZ4/lib/lz4frame.c:717-736 | header, compressed data and checksum stand for the block they were made from, in every context |
| Lz4FrameWriting.RawEmits | OpenVPNAdapter/Sources/LZ4/lib/lz4frame.c:726-736 | header, stored data and checksum stand for the data, in every context |
| Lz4FrameWriting.FrameRead | OpenVPNAdapter/Sources/LZ4/lib/lz4frame.c:575-972 | header, blocks and end make a frame with the content of the blocks |
| Lz4FrameEncoder.Cctx.MakeBlock | OpenVPNAdapter/Sources/LZ4/lib/lz4frame.c:717-748 | the bytes of a block are the greedy parse of its source if that needs less room than the source, and the source itself otherwise; they stand for the source and are no longer than it with header and checksum, and exactly as long if no shorter block decodes to it |
| Lz4FrameEncoder.Cctx.CompressBegin | OpenVPNAdapter/Sources/LZ4/lib/lz4frame.c:581-681 | the bytes written are the header for the preferences, and a new frame is open |
| Lz4FrameEncoder.Cctx.CompressUpdate | OpenVPNAdapter/Sources/LZ4/lib/lz4frame.c:798-894 | the blocks written, each the greedy parse of its part or that part itself, and the bytes still buffered are the earlier ones followed by the input, and the buffer keeps the remainder modulo the block size; it succeeds exactly when the capacity is the bound, and writes no more than the capacity |
| Lz4FrameEncoder.RoomSuffices | OpenVPNAdapter/Sources/LZ4/lib/lz4frame.c:307-333 | the bound covers any number of full blocks and the last one if it is flushed |
| Lz4FrameEncoder.BoundIs | OpenVPNAdapter/Sources/LZ4/lib/lz4frame.c:307-333 | the bound is the full blocks with header and checksum, the rest if it is flushed, the end mark and the content checksum; at most a block less one byte is counted as buffered |
| Lz4FrameEncoder.Cctx.Flush | OpenVPNAdapter/Sources/LZ4/lib/lz4frame.c:905-933 | what was buffered becomes a block; refused exactly when the capacity is less than the data and a block header; the size written is at most, and for incompressible data exactly, data, header and checksum |
| Lz4FrameEncoder.Cctx.CompressEnd | OpenVPNAdapter/Sources/LZ4/lib/lz4frame.c:945-972 | the last block, the end mark and the checksum of all input; an error exactly when the capacity test of the flush fails or the announced size is wrong; the size written is at most, and for incompressible data exactly, what LZ4F_compressBound asks for |
| Lz4FrameEncoder.BoundOfEnd | OpenVPNAdapter/Sources/LZ4/lib/lz4frame.c:307-333 | without further input the bound is the buffered bytes with header and checksum, the end mark and the content checksum |
| Lz4FrameEncoder.FlushFits | OpenVPNAdapter/Sources/LZ4/lib/lz4frame.c:905-933 | incompressible data of any size takes data, header and checksum; so a capacity that the flush accepts is kept if and only if blocks have no checksum or there are four more bytes for it |
| Lz4FrameEncoder.FlushExceeds | OpenVPNAdapter/Sources/LZ4/lib/lz4frame.c:915-924 | one byte with a block checksum: a flush with capacity 5 is accepted and writes 9 |
| Lz4FrameEncoder.FlushCapacity | OpenVPNAdapter/Sources/LZ4/lib/lz4frame.c:905-933 | a capacity accepted for b buffered bytes is kept for all data of this size if and only if blocks have no checksum or there is room for one; otherwise there is data of this size for which whatever is written exceeds it |
| Lz4FrameEncoder.EndFits | OpenVPNAdapter/Sources/LZ4/lib/lz4frame.c:945-972 | incompressible data of any size takes what LZ4F_compressBound asks for, and the capacity is kept if and only if it is at least that |
| Lz4FrameEncoder.EndCapacity | OpenVPNAdapter/Sources/LZ4/lib/lz4frame.c:945-972 | a capacity is kept for all data of a size if and only if LZ4F_compressBound asks for no more; otherwise there is data of this size for which whatever is written exceeds it |
| Lz4Incompressible.SomeIncompressible | OpenVPNAdapter/Sources/LZ4/lib/lz4frame.c:717-730 | of every size there is data that no shorter block decodes to, so that the sizes above are reached whatever the compressor does |
| Lz4FrameEncoder.EncodeFrame | OpenVPNAdapter/Sources/LZ4/lib/lz4frame.c:575-972 | for every way of cutting the input into updates the frame decodes to the whole input, whatever follows it |
| Lz4FrameEncoder.AbandonFrame | OpenVPNAdapter/Sources/LZ4/lib/lz4frame.c:1044-1162 | a context that read the header of a frame with content size and was reset still counts that size |
| Lz4FrameEncoder.StaleContextRefuses | OpenVPNAdapter/Sources/LZ4/lib/lz4frame.c:1044-1762 | however the calls are cut, such a context never completes a frame without content size, although the frame is valid; enough calls end with an error |
| Lz4FrameEncoder.FrameRoundTrip | OpenVPNAdapter/Sources/LZ4/lib/lz4frame.c:575-1762 | every cut of the input into updates and every cut of the frame into decoder calls: the output begins the input, equals it when the decoder returns 0, and no call fails; the decoder returns 0 if the calls are enough and each offers a byte and has room for one |
| KeyCodec.SymbolBits | WireGuardKit/Sources/WireGuardKitC/key.c:16-20 | the branch-free sum is the symbol of section 4 of RFC 4648 for every six-bit number |
| KeyCodec.ValueBits | WireGuardKit/Sources/WireGuardKitC/key.c:40-46 | the branch-free sum is the number of a symbol, and all ones for every other signed char |
| KeyCodec.EncodeGroup | WireGuardKit/Sources/WireGuardKitC/key.c:11-22 | three octets become the four symbols of their 24-bit number, and nothing else changes |
| KeyCodec.DecodeGroup | WireGuardKit/Sources/WireGuardKitC/key.c:35-48 | the result is negative exactly when one of four characters is no symbol, and otherwise the 24-bit number that encodes to them |
| KeyCodec.KeyToBase64 | WireGuardKit/Sources/WireGuardKitC/key.c:24-33 | the string written is the base64 encoding of RFC 4648 with its padding, and a terminator |
| KeyCodec.KeyFromBase64 | WireGuardKit/Sources/WireGuardKitC/key.c:50-72 | exactly the strings of 43 symbols and a pad with zero pad bits are accepted; the key then encodes to the string, and a rejected string encodes no key |
| KeyCodec.EncodedAccepted | WireGuardKit/Sources/WireGuardKitC/key.c:24-72 | the encoding of every key is accepted |
| KeyCodec.KeysInjective | WireGuardKit/Sources/WireGuardKitC/key.c:24-33 | different keys have different encodings |
| KeyCodec.Base64RoundTrip | WireGuardKit/Sources/WireGuardKitC/key.c:24-72 | decoding the encoding of a key gives the key |
| KeyCodec.DigitBits | WireGuardKit/Sources/WireGuardKitC/key.c:79-80 | the unsigned sum is the lower-case digit for every four-bit number |
| KeyCodec.DigitBitsDecode | WireGuardKit/Sources/WireGuardKitC/key.c:94-110 | the error bits are zero exactly for hexadecimal digits of either case, whose number is then right |
| KeyCodec.KeyToHex | WireGuardKit/Sources/WireGuardKitC/key.c:74-83 | the string written is the base16 encoding in lower case, and a terminator |
| KeyCodec.KeyFromHex | WireGuardKit/Sources/WireGuardKitC/key.c:85-114 | exactly sixty-four digits of either case are accepted, and the key encodes to the string in lower case |
| KeyCodec.HexRoundTrip | WireGuardKit/Sources/WireGuardKitC/key.c:74-114 | decoding the encoding of a key gives the key |
| KeyCodec.HexInjective | WireGuardKit/Sources/WireGuardKitC/key.c:74-83 | different keys have different encodings |
| KeyCodec.KeyEq | WireGuardKit/Sources/WireGuardKitC/key.c:116-124 | the accumulated difference decides equality |
| Rfc4648.SymbolTable | WireGuardKit/Sources/WireGuardKitC/key.c:16-20 | the symbols are the alphabet of table 1 of RFC 4648, written out |
| Rfc4648.SymbolInverse | WireGuardKit/Sources/WireGuardKitC/key.c:40-46 | the numbers of the symbols invert the alphabet |
| Rfc4648.SomeEncodings | WireGuardKit/Sources/WireGuardKitC/key.c:24-33 | the encodings of f, fo and foo are those of section 10 of RFC 4648 |
| Rfc4648.DigitTable | WireGuardKit/Sources/WireGuardKitC/key.c:79-80 | the digits are the lower-case alphabet of table 5 of RFC 4648, written out |
| TunnelAdapter.Run | WireGuardKit/Sources/WireGuardKit/WireGuardAdapter.swift:177-286 | over any run of operations and failing steps: the handle table holds exactly the handle of a started adapter, every handle was turned on once more than off exactly if it is that one, the settings are those of the last successful start or update, the device was sent exactly what the operations say, and it holds the settings if and only if it did not refuse the last update that was sent to it since it started |
| TunnelAdapter.WireGuardAdapter.Start | WireGuardKit/Sources/WireGuardKit/WireGuardAdapter.swift:177-210 | state, error and backend calls are those of the life cycle; a failed start leaves no handle and no monitor |
| TunnelAdapter.WireGuardAdapter.Stop | WireGuardKit/Sources/WireGuardKit/WireGuardAdapter.swift:214-235 | a running tunnel is turned off once, the monitor ends, and a stopped adapter reports an invalid state |
| TunnelAdapter.WireGuardAdapter.Update | WireGuardKit/Sources/WireGuardKit/WireGuardAdapter.swift:241-286 | handle and monitor are kept, the settings change only on success, and exactly then a device that runs is sent them |
| TunnelAdapter.WireGuardAdapter.DidReceivePathUpdate | WireGuardKit/Sources/WireGuardKit/WireGuardAdapter.swift:416-466 | losing the path turns the handle off once; regaining it turns on a new device with the recorded settings or changes nothing; otherwise a device that runs is sent the endpoints of the recorded settings |
| TunnelAdapter.StartReports | WireGuardKit/Sources/WireGuardKit/WireGuardAdapter.swift:177-210 | which error a start reports is decided by the state, the resolver, the settings, which pass also when they time out, the file descriptor and the four steps of the backend, in this order |
| TunnelAdapter.UpdateReports | WireGuardKit/Sources/WireGuardKit/WireGuardAdapter.swift:241-286 | an update fails exactly if the adapter is stopped, a name does not resolve or the settings fail, and not when they time out |
| TunnelAdapter.PathReports | WireGuardKit/Sources/WireGuardKit/WireGuardAdapter.swift:416-466 | a paused tunnel resumes exactly if the path is satisfiable, the settings do not fail, the descriptor is found and all four steps succeed; a running one pauses exactly if the path is lost |
| TunnelAdapter.WireGuardAdapter.StartBackend | WireGuardKit/Sources/WireGuardKit/WireGuardAdapter.swift:371-384 | the error is that of the first failing step, and a failure leaves the backend unchanged |
| TunnelAdapter.WireGuardAdapter.Deinit | WireGuardKit/Sources/WireGuardKit/WireGuardAdapter.swift:139-151 | no handle and no monitor is left |
| TunnelAdapter.ConfigIsLastSuccess | WireGuardKit/Sources/WireGuardKit/WireGuardAdapter.swift:177-286 | after any run a tunnel that runs or is paused has the configuration of the last start or update that reported success |
| TunnelAdapter.FailureChangesNothing | WireGuardKit/Sources/WireGuardKit/WireGuardAdapter.swift:177-286 | an operation that reports an error changes nothing |
| TunnelAdapter.RefusedUpdate | WireGuardKit/Sources/WireGuardKit/WireGuardAdapter.swift:260-279 | an update that the device refuses reports success: the adapter records the new configuration, and the next change of path sends its endpoints to a device that accepted only the old one |
| TunnelAdapter.HoldsExactly | WireGuardKit/Sources/WireGuardKit/WireGuardAdapter.swift:177-466 | for every run, a device that runs holds the recorded configuration if and only if there is no update that it refused with no accepted update and no pause after it |
| TunnelAdapter.HoldsStep | WireGuardKit/Sources/WireGuardKit/WireGuardAdapter.swift:177-466 | a start and a resume make the device hold the configuration, an update that is sent does if and only if it is accepted, nothing else changes it |
| TunnelBackend.Backend.TurnOn | WireGuardKit/Scripts/api-apple.go:86-134 | the handle is the smallest free one and is opened while closed; -1 exactly when a step fails or no handle is free, and then nothing changes |
| TunnelBackend.Backend.TurnOff | WireGuardKit/Scripts/api-apple.go:137-144 | an open handle is closed, any other is ignored |
| TunnelBackend.Backend.SetConfig | WireGuardKit/Scripts/api-apple.go:147-161 | an unknown handle gives 0 and changes nothing; any other device gets the message behind all earlier ones, and the code is 0, the error's or -1 |
| TunnelBackend.ClosedOnceEach | WireGuardKit/Scripts/api-apple.go:122-144 | in any history in which handles are opened while closed and closed while open, no handle is closed more often than opened |
| WireGuardConfig.RoundTrip | Free VPN/WireGuardConfig.swift:42-224 | for every text the parser accepts, parsing the printed configuration gives it back if and only if there is no DNS entry or the first and the last are not blank |
| WireGuardConfig.BlankDnsExample | Free VPN/WireGuardConfig.swift:122-123 | a text with a blank last DNS entry that the parser accepts and whose printed form parses differently |
| WireGuardConfig.CleanRoundTrip | Free VPN/WireGuardConfig.swift:187-224 | every configuration of trimmed single-line values prints to a text that parses to it |
| WireGuardConfig.ParsedIsClean | Free VPN/WireGuardConfig.swift:42-179 | accepted configurations have trimmed single-line values, addresses with a suffix, items without commas, 64-bit numbers and a peer |
| WireGuardConfig.PrintedReadBack | Free VPN/WireGuardConfig.swift:42-224 | all but the DNS entries always come back |
| WireGuardConfig.BlankEndsAreLost | Free VPN/WireGuardConfig.swift:122-123 | a list whose first or last item is blank comes back shorter |
| WireGuardConfig.ListReadBack | Free VPN/WireGuardConfig.swift:118-123 | a joined list with non-blank ends splits and trims to itself, blank items in the middle included |
| WireGuardConfig.EntryStep | Free VPN/WireGuardConfig.swift:109-151 | a printed entry assigns its trimmed value to its key, in every state of the parser |
| WireGuardConfig.PeerReadBack | Free VPN/WireGuardConfig.swift:95-106 | the lines of a peer finish the previous peer and leave this one in progress, from every state |
| WireGuardConfig.NormalizedClean | Free VPN/WireGuardConfig.swift:36-39 | a normalised address has a suffix and is otherwise kept in shape, so normalising again changes nothing; which suffix is added is stated by WireGuardMeaning.SuffixAdded |
| WireGuardConfig.Parse | Free VPN/WireGuardConfig.swift:42-179 | the loop over lines with its section and peer variables computes the fold over the lines, whose meaning is that of WireGuardMeaning.ParsedMeans |
| WireGuardMeaning.ParsedMeans | Free VPN/WireGuardConfig.swift:42-179 | for every text each field of the result, and which of the two errors there is, is said on its own: the last value of a key in its section counts, Address and DNS lines add up, a peer without public key is dropped, a missing private key comes before missing peers |
| WireGuardMeaning.SuffixAdded | Free VPN/WireGuardConfig.swift:36-39 | an address with a slash is kept, any other gets /128 if it contains a colon and /32 if it does not |
| WireGuardMeaning.ListsOfText | Free VPN/WireGuardConfig.swift:109-151 | for any lists of items: two Address lines and two DNS lines add up, each address with its suffix, and of two AllowedIPs lines the last one counts |
| WireGuardConfig.LowerCharacters | Free VPN/WireGuardConfig.swift:110 | in labels the letters A to Z and the Kelvin sign become small letters, every other character is kept |
| WireGuardConfig.ToWgQuickConfig | Free VPN/WireGuardConfig.swift:187-224 | the lines appended one by one are the printed form that the other results are about |
| ConfigText.LinesOfJoin | Free VPN/WireGuardConfig.swift:74 | joining single lines and splitting at newlines gives the lines back |
| ConfigText.SplitJoined | Free VPN/WireGuardConfig.swift:118-123 | splitting a joined list drops exactly a blank first item |
| ConfigText.TrimAround | Free VPN/WireGuardConfig.swift:75 | white space around a trimmed string is all that trimming removes |
| ConfigText.ParsePrintInt | Free VPN/WireGuardConfig.swift:125-127 | a printed 64-bit number parses to itself |
| ConfigText.ParseIntIs | Free VPN/WireGuardConfig.swift:125-127 | any string of digits with an optional sign parses to the number it denotes, read from the front, exactly if that has 64 bits |
| ConfigText.ParseIntOnly | Free VPN/WireGuardConfig.swift:125-127 | nothing but digits with an optional sign parses |
| ConfigText.ValueFromFront | Free VPN/WireGuardConfig.swift:125-127 | the number a string of digits denotes has the weight of a power of ten for each digit, the first one the highest |
| ConfigText.WhiteCharacters | Free VPN/WireGuardConfig.swift:75 | the characters that trimming removes, written out |
| ConfigText.NewlineCharacters | Free VPN/WireGuardConfig.swift:74 | the characters that end a line, written out |

## Left out

- Random key generation, timing behaviour and the memory fence of `key_eq`.
- The AmneziaWG copies of the curve, the key codec and the adapter, and the packet tunnel's copy of the configuration parser: the same logic.
- Elliptic-curve group theory: the ladder of RFC 7748 is refined, not shown to be scalar multiplication.
- C strings are the characters in front of the terminator; a key buffer after a rejected string holds what the loops left, which is not specified.
- Lz4Stream.Stream.CompressGeneric: does not model non-empty external dictionaries or an attached dictionary context while compressing; without a usable dictionary the external mode is the mode without history.
- Lz4Stream.Stream.CompressFastContinue: does not model the invalidation of tiny dictionaries and the branch for input that overlaps the dictionary, because blocks follow each other in memory and need no such repair; inputs above LZ4_MAX_INPUT_SIZE are excluded.
- Lz4Compressor.CompressBlock: in the limited mode the buffer is physically at least LZ4_compressBound, because the source's estimate of long match lengths does not bound its writes for smaller capacities; acceleration is at most 2^24.
- Lz4Stream.StreamDecode.DecompressSafeContinue: models output that follows earlier output; the branch for a ring buffer that wraps around (two dictionaries) and `LZ4_setStreamDecode` are left out.
- Tables of 16-bit and 32-bit entries are one array of 8192 numbers; pointer tables (`byPtr`) do not occur on 64-bit targets.
- Pointers are positions in one memory; the overflow checks of pointer sums and negative sizes passed as C integers are not modelled.
- `fillOutput`, `limitedDestSize`, partial decoding, `LZ4_decompress_fast*`, `LZ4_loadDict`, `LZ4_saveDict`, big-endian and MSVC branches and the obsolete wrappers.
- Lz4HcFinder.HcContext.InsertAndGetWiderMatch: searches forward only in a single segment; looking back, external segments and attached dictionaries belong to the hash-chain levels 3 to 9, which are left out.
- Lz4HcOptimal.OptimalSequences: without output limit; prices are unbounded integers. Which of several equally long matches a search takes is not stated, and that the prices make the block the shortest possible is not claimed by the source either.
- Lz4HcStream.CompressHcContinue: a block elsewhere in memory (`LZ4HC_setExternalDict`) is left out.
- Lz4FrameDecoder.Dctx.Decompress: frames of independent blocks and skippable frames; linked blocks with their dictionary relocation, `LZ4F_decompress_usingDict`, `LZ4F_getFrameInfo` and failing allocations are left out. After an error the context must be reset, which is all that is specified of it.
- Lz4FrameDecoder.DecodeFrame: an input that ends before the frame does is reported neither as valid nor as wrong.
- Lz4FrameEncoder.Cctx.CompressUpdate: independent blocks at the fast levels without dictionary; the buffer is physically larger than the capacity by the slack of a limited compression, as above.
- Lz4FrameEncoder.RoomSuffices: the bound is computed without the truncation of the number of full blocks to 32 bits, which matters for inputs of 2^48 bytes and more; so for BoundOfEnd and Cctx.CompressUpdate.
- Lz4FrameEncoder.Cctx.CompressEnd: the buffer is physically larger than the capacity, so that the result can be compared with the capacity where the source's test does not cover it.
- XXH64: the same shape as XXH32.
- TunnelAdapter.WireGuardAdapter.DidReceivePathUpdate: the macOS branch, socket rebinding and the roaming switch are left out; so is a device left open when the Go backend fails after creating it.
- TunnelAdapter.HoldsExactly: what a device makes of the messages it was sent, in particular of one it refused half-way and of a configuration that does not replace every earlier value, is decided in wireguard-go, which is not part of this model; "holds" means that the configuration was accepted as the last whole one and only its endpoints were sent after it.
- DNS resolution, system settings, file descriptors and the steps of the backend are inputs; logging is left out.
- WireGuardConfig.Parse: characters are Unicode scalars, so grapheme clusters and canonical equivalence are not modelled; lower-casing is modelled as far as a comparison with ASCII labels can tell.
- `validate`, `displayName`, the user interface, network extension, keychain and servers of the applications.
