# ISDB conditional access and EIT parsing, modelled in Dafny

This project models three parts of the ISDB fork of a TV streaming server and proves properties of them.

- **The MULTI2 descrambler** (`src/descrambler/demulti2/demulti2.c`).
  - `multi2_core.dfy` holds the block cipher of ARIB STD-B25 conditional access: the four round functions pi1..pi4, one cipher round, the key schedule, and the encrypt/decrypt round loops. Each round function is an involution. So decrypt undoes encrypt exactly, for any key words, any 8-word schedule and any round count.
  - `multi2_codec.dfy` is the byte side.
    - A 64-bit block and its two 32-bit halves are related whatever the host byte order.
    - Buffers are read big-endian.
    - `descramble` runs CBC over the full 8-byte blocks and an encrypt-direction keystream over the tail. It works in place on an `array`.
    - The key store is a class with the two parities' raw keys and work keys.
    - `multi2_decrypt_packet` reads the transport packet header of ISO/IEC 13818-1 section 2.4.3.2: the scrambling control bits, the adaptation field flag and its length. It descrambles the payload and clears the control bits.
- **The B-CAS client** (`src/descrambler/bcas.c`, in `bcas.dfy`).
  - The ECM input gate and the keystate reset.
  - `bcas_caid_change`: the per-service list of ECM PIDs is marked, re-scanned against the service's CA ids and swept. Listeners are opened and closed only for PIDs that appear or disappear.
  - Service stop, and service start, which creates at most one descrambler per service.
  - Calls into code outside the file are recorded in order in an event log. The ECM decoder's answer and the log limiter's answer are inputs.
- **The EIT parsers of the EPG grabber** (`src/epggrab/module/eit.c`, in `eit.dfy`). These follow ETSI EN 300 468 section 5.2.4, in the ISDB build.
  - The section-header guard and the segment mask of the table callback.
  - The event loop of `_eit_process_data`.
  - The descriptor walk and the return value of `_eit_process_event`.
  - The decoders for the component, content, parental rating and ARIB audio component descriptors. The non-ISDB component mapping is a second function.
  - The NIT/SDT id filter.
- `bytes.dfy` holds the octet type that the three parts share.

Descrambling chains on the received bytes, not on the output. So a corrupted byte in input block k garbles output block k and flips the same byte of output block k + 1; later blocks are unaffected (Multi2Codec.DescrambleBlock). A reading of CBC in which block k + 1 is unaffected does not match the code, and the model follows the code.

Each loop of the source is a method with its invariants. It is proved against a recursive specification function, and the properties are lemmas about that function. Straight-line decoders are functions with their own postconditions. Each decoder is paired with an encoder and a round-trip lemma.

## Model

| member | source | states |
|---|---|---|
| Multi2Core.Rotl | src/descrambler/demulti2/demulti2.c:166-170 | No contract of its own: the shift-or form of left_rotate_uint32. RotlIsRotation states what it is |
| Multi2Core.RotlIsRotation | src/descrambler/demulti2/demulti2.c:166-170 | At the counts 1, 2, 4, 8 and 16 that the round functions use, the shift-or form of left_rotate_uint32 is a 32-bit left rotation |
| Multi2Core.Pi2Mix | src/descrambler/demulti2/demulti2.c:186-188 | No contract of its own: t2 of core_pi2, built from Rotl. Pi2 and Pi2Involution state what it is used for |
| Multi2Core.Pi3Mix | src/descrambler/demulti2/demulti2.c:200-205 | No contract of its own: t5 of core_pi3, built from Rotl. Pi3 and Pi3Involution state what it is used for |
| Multi2Core.Pi4Mix | src/descrambler/demulti2/demulti2.c:217-218 | No contract of its own: t1 of core_pi4, built from Rotl. Pi4 and Pi4Involution state what it is used for |
| Multi2Core.Pi1 | src/descrambler/demulti2/demulti2.c:173-178 | l is kept, and xoring l back into the new r gives the old r |
| Multi2Core.Pi2 | src/descrambler/demulti2/demulti2.c:181-192 | r is kept, and xoring the keyed mix of r back into the new l gives the old l |
| Multi2Core.Pi3 | src/descrambler/demulti2/demulti2.c:195-209 | l is kept, and xoring the keyed mix of l back into the new r gives the old r |
| Multi2Core.Pi4 | src/descrambler/demulti2/demulti2.c:212-222 | r is kept, and xoring the keyed mix of r back into the new l gives the old l |
| Multi2Core.EncRound | src/descrambler/demulti2/demulti2.c:268-275 | No contract of its own: the eight primitives of one pass of core_encrypt's loop. RoundTrace and DecRoundUndoesEncRound state what it means |
| Multi2Core.DecRound | src/descrambler/demulti2/demulti2.c:290-297 | No contract of its own: one pass of core_decrypt's loop. EncRoundUndoesDecRound and DecRoundUndoesEncRound state what it means |
| Multi2Core.Encrypt | src/descrambler/demulti2/demulti2.c:258-277 | No contract of its own: `round` encrypt rounds, none when round <= 0. CoreEncrypt is proved equal to it, and DecryptEncrypt and EncryptDecrypt relate it to Decrypt |
| Multi2Core.Decrypt | src/descrambler/demulti2/demulti2.c:280-299 | No contract of its own: `round` decrypt rounds, none when round <= 0. CoreDecrypt is proved equal to it, and DecryptEncrypt and EncryptDecrypt relate it to Encrypt |
| Multi2Core.Pi1Involution | src/descrambler/demulti2/demulti2.c:173-178 | pi1 applied twice gives the block back |
| Multi2Core.Pi2Involution | src/descrambler/demulti2/demulti2.c:181-192 | pi2 applied twice with the same key word gives the block back, for any key word |
| Multi2Core.Pi3Involution | src/descrambler/demulti2/demulti2.c:195-209 | pi3 applied twice with the same two key words gives the block back |
| Multi2Core.Pi4Involution | src/descrambler/demulti2/demulti2.c:212-222 | pi4 applied twice with the same key word gives the block back |
| Multi2Core.RoundTrace | src/descrambler/demulti2/demulti2.c:262-275 | The eight intermediate blocks of one encrypt round; the last is the round's output |
| Multi2Core.DecRoundUndoesEncRound | src/descrambler/demulti2/demulti2.c:258-299 | One decrypt round undoes one encrypt round, for any mixing functions and schedule |
| Multi2Core.EncRoundUndoesDecRound | src/descrambler/demulti2/demulti2.c:258-299 | One encrypt round undoes one decrypt round |
| Multi2Core.DecryptPeel | src/descrambler/demulti2/demulti2.c:280-299 | n + 1 decrypt rounds are the first round followed by n more |
| Multi2Core.DecryptEncrypt | src/descrambler/demulti2/demulti2.c:258-299 | decrypt(encrypt(b, w, n), w, n) == b for every block, 8-word schedule and round count |
| Multi2Core.EncryptDecrypt | src/descrambler/demulti2/demulti2.c:258-299 | encrypt(decrypt(c, w, n), w, n) == c for every block, schedule and round count |
| Multi2Core.CoreSchedule | src/descrambler/demulti2/demulti2.c:225-255 | The work key is [b2.l, b3.r, b4.l, b5.r, b6.l, b7.r, b8.l, b9.r] of the 9-step chain over the raw key seeded by the system key. The word list largely re-expresses the body through RoundTrace. The independent part is the link to the cipher: the first eight steps are one encrypt round under the system key, so words 6 and 7 are EncRound's l and l xor r |
| Multi2Core.CoreEncrypt | src/descrambler/demulti2/demulti2.c:258-277 | The loop computes `round` encrypt rounds of src (none when round <= 0) |
| Multi2Core.CoreDecrypt | src/descrambler/demulti2/demulti2.c:280-299 | The loop computes `round` decrypt rounds of src, and encrypting the result gives src back |
| Multi2Codec.Whole | src/descrambler/demulti2/demulti2.c:48-61 | No contract of its own: the `whole` view of a block, l in the high 32 bits. SubWhole and WholeSub state that it and Sub are inverse |
| Multi2Codec.Sub | src/descrambler/demulti2/demulti2.c:48-61 | No contract of its own: the `sub` view of a 64-bit value. SubWhole and WholeSub state that it and Whole are inverse |
| Multi2Codec.SubWhole | src/descrambler/demulti2/demulti2.c:48-61 | The `whole` view of the `sub` halves gives the halves back: l is the high and r the low 32 bits |
| Multi2Codec.WholeSub | src/descrambler/demulti2/demulti2.c:48-61 | The halves of a 64-bit value give the value back |
| Multi2Codec.Store64 | src/descrambler/demulti2/demulti2.c:114-124 | HTOBE64 writes exactly 8 bytes |
| Multi2Codec.LoadStore | src/descrambler/demulti2/demulti2.c:102-124 | Reading back the 8 bytes stored gives the value, whatever follows them |
| Multi2Codec.StoreLoad | src/descrambler/demulti2/demulti2.c:102-124 | Storing the value read at i gives back the same 8 bytes |
| Multi2Codec.LoadBlock | src/descrambler/demulti2/demulti2.c:102-112 | A load reads exactly the 8 bytes at i, most significant first |
| Multi2Codec.Load64 | src/descrambler/demulti2/demulti2.c:102-112 | No contract of its own: BE64TOH of bytes i..i+8. LoadBlock, LoadStore and StoreLoad state what it reads |
| Multi2Codec.LoadShift | src/descrambler/demulti2/demulti2.c:102-112 | A load reads only the bytes it names: loading from a suffix is loading further on |
| Multi2Codec.XorBytes | src/descrambler/demulti2/demulti2.c:329-330 | The tail xor keeps the length of its input |
| Multi2Codec.XorBytesTwice | src/descrambler/demulti2/demulti2.c:329-330 | Xoring twice with the same keystream gives the bytes back |
| Multi2Codec.JoinXor | src/descrambler/demulti2/demulti2.c:311 | The 64-bit xor is the byte-wise xor of the big-endian bytes |
| Multi2Codec.LoadXor | src/descrambler/demulti2/demulti2.c:311-313 | Loading the byte-wise xor of two stored values gives their 64-bit xor |
| Multi2Codec.StoreXor | src/descrambler/demulti2/demulti2.c:311-313 | Storing a 64-bit xor is xoring the stored bytes |
| Multi2Codec.CoreCipherStep | src/descrambler/demulti2/demulti2.c:308-314 | On the 8 bytes of a block, loading, running the rounds on the halves and storing loses nothing, in both directions |
| Multi2Codec.CoreCipherInvertible | src/descrambler/demulti2/demulti2.c:308-326 | The byte-level block cipher of any schedule and round count is invertible both ways |
| Multi2Codec.DescrambleSpec | src/descrambler/demulti2/demulti2.c:303-333 | Descrambling keeps the length of the buffer |
| Multi2Codec.ScrambleSpec | src/descrambler/demulti2/demulti2.c:303-333 | The scrambler that descrambling undoes keeps the length of the buffer |
| Multi2Codec.DescrambleScramble | src/descrambler/demulti2/demulti2.c:303-333 | Descrambling recovers every scrambled buffer, for every invertible block cipher and initial block |
| Multi2Codec.ScrambleDescramble | src/descrambler/demulti2/demulti2.c:303-333 | Scrambling the descrambled bytes gives the input back: descrambling loses nothing |
| Multi2Codec.Chain | src/descrambler/demulti2/demulti2.c:307-313 | The chaining block of block k > 0 is input block k - 1 |
| Multi2Codec.DescrambleBlock | src/descrambler/demulti2/demulti2.c:307-318 | Output block k is decrypt(input block k) xor the chaining block; it depends only on input blocks k and k - 1, and block 0 uses the initial value |
| Multi2Codec.DescrambleTail | src/descrambler/demulti2/demulti2.c:320-331 | The len mod 8 trailing bytes are the input xored with the leading bytes of encrypt(last full input block, or the initial value) |
| Multi2Codec.WriteBytes | src/descrambler/demulti2/demulti2.c:114-124 | Writing 8 bytes at pos changes those bytes and no others |
| Multi2Codec.DecryptBlockBytes | src/descrambler/demulti2/demulti2.c:309-314 | The 64-bit decrypt-and-xor of the loop, stored, is the byte-level decrypt xored with the stored chaining value |
| Multi2Codec.DecryptBlockAt | src/descrambler/demulti2/demulti2.c:309-314 | One pass of the block loop replaces the 8 bytes at pos by decrypt(block) xor cbc, leaves every other byte alone, and returns the block read as the next chaining value |
| Multi2Codec.EncryptBlockBytes | src/descrambler/demulti2/demulti2.c:320-326 | The tail's keystream, encrypt(cbc) read back big-endian, is the byte-level encrypt of the stored cbc |
| Multi2Codec.XorTailAt | src/descrambler/demulti2/demulti2.c:320-331 | The tail step xors n < 8 bytes at pos with the leading bytes of encrypt(cbc) and writes nothing else |
| Multi2Codec.XorInPlace | src/descrambler/demulti2/demulti2.c:329-330 | The xor loop changes exactly buf[pos .. pos + n) |
| Multi2Codec.BlockProgress | src/descrambler/demulti2/demulti2.c:309-318 | One pass of the block loop keeps the loop invariant, 8 bytes further on |
| Multi2Codec.BlockStep | src/descrambler/demulti2/demulti2.c:309-318 | One pass of the block loop, in place, keeps the invariant: done blocks descrambled, the rest untouched, cbc as the next chaining value |
| Multi2Codec.TailProgress | src/descrambler/demulti2/demulti2.c:320-331 | The tail completes the descrambling of the whole span |
| Multi2Codec.TailStep | src/descrambler/demulti2/demulti2.c:320-331 | After the tail the span holds its descrambling and nothing outside it changed |
| Multi2Codec.ProgressInit | src/descrambler/demulti2/demulti2.c:305-307 | Before the first block nothing is written and cbc is the initial value |
| Multi2Codec.BlockLoop | src/descrambler/demulti2/demulti2.c:309-318 | The block loop stops with fewer than 8 bytes left and the invariant holding |
| Multi2Codec.DescrambleSpan | src/descrambler/demulti2/demulti2.c:303-333 | The span is replaced by its descrambling; bytes outside it are unchanged |
| Multi2Codec.Descramble | src/descrambler/demulti2/demulti2.c:303-333 | In place: buf[start .. start + len) is replaced by its descrambling and nothing else is written; len <= 0 writes nothing |
| Multi2Codec.Control | src/descrambler/demulti2/demulti2.c:358 | The scrambling control is the top two bits of byte 3, below 4 |
| Multi2Codec.AdaptationLength | src/descrambler/demulti2/demulti2.c:366-369 | The bytes the adaptation field takes, 0 to 256: more than 0 exactly when flag 0x20 of byte 3 is set |
| Multi2Codec.ControlBits | src/descrambler/demulti2/demulti2.c:358 | The top two bits of a flags byte form a number below 4 |
| Multi2Codec.DescramblePayload | src/descrambler/demulti2/demulti2.c:364-371 | Descrambling the payload keeps the packet length |
| Multi2Codec.ScramblePayload | src/descrambler/demulti2/demulti2.c:364-371 | Scrambling the payload keeps the packet length |
| Multi2Codec.DescramblePayloadParts | src/descrambler/demulti2/demulti2.c:364-371 | The bytes before the payload are kept and exactly the rest is descrambled |
| Multi2Codec.ScramblePayloadParts | src/descrambler/demulti2/demulti2.c:364-371 | The bytes before the payload are kept and exactly the rest is scrambled |
| Multi2Codec.DescramblePayloadHeader | src/descrambler/demulti2/demulti2.c:370-372 | Writing a header byte before the payload commutes with descrambling the payload |
| Multi2Codec.PayloadRoundTrip | src/descrambler/demulti2/demulti2.c:364-371 | Descrambling a scrambled payload gives the packet back |
| Multi2Codec.PacketKeys | src/descrambler/demulti2/demulti2.c:64-65 | Key 0 is the even parity's cipher and key 1 the odd parity's, each with 4 rounds |
| Multi2Codec.PacketKeysInvertible | src/descrambler/demulti2/demulti2.c:370-371 | Both parities' ciphers are invertible |
| Multi2Codec.DecryptPacketSpec | src/descrambler/demulti2/demulti2.c:351-374 | The packet stays 188 bytes long |
| Multi2Codec.ScramblePacket | src/descrambler/demulti2/demulti2.c:351-374 | The scrambled packet stays 188 bytes long |
| Multi2Codec.ClearPacketUnchanged | src/descrambler/demulti2/demulti2.c:358-360 | Control 0: returns 0 and leaves the packet unchanged |
| Multi2Codec.ReservedControlRejected | src/descrambler/demulti2/demulti2.c:361-362 | Control 1: returns -EINVAL and leaves the packet unchanged |
| Multi2Codec.ClearedControl | src/descrambler/demulti2/demulti2.c:372 | Masking byte 3 with 0x3f leaves control 0 |
| Multi2Codec.ScrambledPacketDecrypted | src/descrambler/demulti2/demulti2.c:364-373 | Controls 2 and 3: returns 0. Bytes 0-2 and the adaptation field are kept and byte 3 loses its top two bits. Exactly [4 + off, 188) is descrambled, with the even key for 2 and the odd key for 3. When 4 + off >= 188 nothing is descrambled but the bits are still cleared |
| Multi2Codec.SetControl | src/descrambler/demulti2/demulti2.c:358-366 | Setting the control bits to 2 + parity keeps the adaptation flag and the low six bits |
| Multi2Codec.ScrambledPacketHeader | src/descrambler/demulti2/demulti2.c:358-369 | A scrambled clear packet has control 2 + parity and the same adaptation-field length |
| Multi2Codec.ScrambledPayloadRestored | src/descrambler/demulti2/demulti2.c:364-371 | Descrambling the payload of a scrambled packet restores every byte but the flags byte |
| Multi2Codec.DecryptScrambledPacket | src/descrambler/demulti2/demulti2.c:351-374 | Decrypting the scrambling of a clear packet, with either parity, returns 0 and gives the packet back |
| Multi2Codec.ScrambledHeader | src/descrambler/demulti2/demulti2.c:358-369 | If the bytes before the payload are kept, setting the control bits gives control 2 + parity and the same adaptation-field length |
| Multi2Codec.DescrambledPacketIs | src/descrambler/demulti2/demulti2.c:364-373 | Descrambling [p, p + len) in place and then clearing the control bits is the packet entry point's result |
| Multi2Codec.SpliceIsPayload | src/descrambler/demulti2/demulti2.c:370-371 | Descrambling a span that runs to the end of the buffer is descrambling the payload |
| Multi2Codec.KeyInfo.constructor | src/descrambler/demulti2/demulti2.c:389-391 | A new key store holds both parities, each with an 8-word work key |
| Multi2Codec.KeyInfo.KeySchedule | src/descrambler/demulti2/demulti2.c:336-344 | The 8 key bytes, read big-endian, go to k_scr[parity] and their schedule to wrk[parity]; the other parity is untouched |
| Multi2Codec.KeyInfo.OddKeySet | src/descrambler/demulti2/demulti2.c:377-380 | Only the odd parity's raw key and work key change |
| Multi2Codec.KeyInfo.EvenKeySet | src/descrambler/demulti2/demulti2.c:383-386 | Only the even parity's raw key and work key change |
| Multi2Codec.KeyInfo.PayloadBounds | src/descrambler/demulti2/demulti2.c:364-369 | The payload starts at 4, or after the adaptation field and its length byte when flag 0x20 is set, and runs to byte 188 |
| Multi2Codec.KeyInfo.DecryptPacket | src/descrambler/demulti2/demulti2.c:351-374 | The return value and the packet left behind are those of the packet specification, with the current work keys, 4 rounds and the fixed CBC initial value |
| Bcas.EcmPayload | src/descrambler/bcas.c:88 | The decoder is handed the len - 12 bytes from data + 8 |
| Bcas.GateDrops | src/descrambler/bcas.c:85-86 | No contract of its own (a predicate): the gate's test. TableInput states what is done for sections it drops and lets through |
| Bcas.BcasDescrambler.TableInput | src/descrambler/bcas.c:78-97 | EMMs, sections shorter than 38 bytes and non-0x82 tables change nothing and reach no decoder. Otherwise the decoder is called once on the payload. On failure the keystate becomes FORBIDDEN, no keys are delivered, and a log line is made only if the limiter allows it. On success keys[1] then keys[0] are delivered once and the keystate is not touched |
| Bcas.BcasDescrambler.EcmReset | src/descrambler/bcas.c:100-105 | The keystate becomes UNKNOWN from any state; returns 0 |
| Bcas.BcasDescrambler.ServiceStop | src/descrambler/bcas.c:108-126 | Every tracked PID is closed, head first. The list is left empty and the descrambler leaves the service's list |
| Bcas.BcasDescrambler.CloseAll | src/descrambler/bcas.c:118-122 | The loop closes each entry's PID in list order and empties the list |
| Bcas.Marked | src/descrambler/bcas.c:142-144 | Marking keeps the length of the list |
| Bcas.StreamScanned | src/descrambler/bcas.c:149-153 | No contract of its own (a predicate): a CA stream that passes the preferred-PID lock. ScanStreamsKeeps and CaidChangeProperties use it |
| Bcas.CaidWanted | src/descrambler/bcas.c:156-159 | No contract of its own (a predicate): a CA id in use, of B-CAS, passing the forced-caid filter. FirstWanted and CaidChangeProperties use it |
| Bcas.BcasDescrambler.MarkAll | src/descrambler/bcas.c:142-144 | Every entry is flagged for removal; PIDs and order are kept |
| Bcas.IndexOf | src/descrambler/bcas.c:161-164 | The index of the first entry with the PID, or -1 when no entry has it |
| Bcas.IndexOfUnique | src/descrambler/bcas.c:161-164 | An index with those properties is the one IndexOf returns |
| Bcas.BcasDescrambler.FindPid | src/descrambler/bcas.c:161-164 | The list search finds the first entry with the PID, or -1 |
| Bcas.FirstWanted | src/descrambler/bcas.c:155-160 | There is a first wanted CA id exactly when some id of the stream is in use, is B-CAS and passes the forced-caid filter |
| Bcas.ScanCaids | src/descrambler/bcas.c:155-175 | The PIDs opened only grow, and the list grows by exactly the PIDs opened. ScanCaidsKeeps states the scan's invariant |
| Bcas.ScanStreams | src/descrambler/bcas.c:146-176 | The PIDs opened only grow, and the list grows by exactly the PIDs opened. ScanStreamsKeeps states the scan's invariant |
| Bcas.BcasDescrambler.ScanStream | src/descrambler/bcas.c:155-175 | A wanted PID already in the list is unmarked and ends the stream's loop. A new one is put at the head and opened once, in order |
| Bcas.BcasDescrambler.ScanAll | src/descrambler/bcas.c:146-176 | Only CA streams that pass the preferred-CA-PID lock are scanned; the opens are logged in order |
| Bcas.ScanInvInit | src/descrambler/bcas.c:142-144 | After marking, the scan invariant holds: PIDs distinct, all marked, nothing opened |
| Bcas.UnmarkSets | src/descrambler/bcas.c:165-167 | Unmarking an entry keeps the PID set and adds its PID to the unmarked ones |
| Bcas.UnmarkKeeps | src/descrambler/bcas.c:165-167 | Unmarking a found wanted PID keeps the scan invariant |
| Bcas.InsertKeeps | src/descrambler/bcas.c:170-174 | Inserting and opening a PID not in the list keeps the PIDs distinct and the opens new and distinct |
| Bcas.ScanCaidsKeeps | src/descrambler/bcas.c:155-175 | One stream's CA ids keep the invariant, never re-mark a PID, and leave the stream's first wanted PID unmarked |
| Bcas.ScanStreamsKeeps | src/descrambler/bcas.c:146-176 | The whole scan keeps the invariant and leaves the first wanted PID of every scanned stream unmarked |
| Bcas.BcasDescrambler.Sweep | src/descrambler/bcas.c:178-187 | Every marked entry is closed, in list order, and dropped; unmarked entries stay in order |
| Bcas.PidSetConcat | src/descrambler/bcas.c:172 | The PIDs and unmarked PIDs of a joined list are those of its parts |
| Bcas.KeptUnmarked | src/descrambler/bcas.c:178-187 | The sweep keeps exactly the unmarked entries |
| Bcas.ClosedMarked | src/descrambler/bcas.c:178-187 | The sweep closes exactly the PIDs of the marked entries |
| Bcas.Kept | src/descrambler/bcas.c:178-187 | Nothing the sweep keeps is marked. KeptUnmarked states that exactly the unmarked entries are kept |
| Bcas.Closed | src/descrambler/bcas.c:178-187 | Every entry is either kept or closed: the two counts add up to the length of the list |
| Bcas.SweepDistinct | src/descrambler/bcas.c:178-187 | With distinct PIDs, the closed PIDs are distinct and so are the kept ones |
| Bcas.SweepClosed | src/descrambler/bcas.c:178-187 | After the scan, the sweep closes each old PID not found again, once |
| Bcas.SweepKept | src/descrambler/bcas.c:178-187 | After the scan, the sweep keeps unmarked, distinct, wanted PIDs; the new ones are exactly the opened ones |
| Bcas.ClosedNone | src/descrambler/bcas.c:181 | A list with nothing marked closes nothing |
| Bcas.CaidChangeProperties | src/descrambler/bcas.c:129-188 | After a caid change of a list with distinct PIDs: nothing is left marked and PIDs stay distinct. Each PID not found again is closed exactly once and removed. Each new PID is opened exactly once. A PID found again is neither closed nor reopened. Every tracked PID is wanted, and the first wanted PID of every scanned stream is tracked |
| Bcas.CaidChangeSpec | src/descrambler/bcas.c:129-188 | No contract of its own: mark, scan, then sweep. CaidChangeProperties states every promise of the change, and CaidChange is proved equal to it |
| Bcas.BcasDescrambler.CaidChange | src/descrambler/bcas.c:129-188 | Mark, scan and sweep give the list and the open and close calls of the caid-change specification, and keep the list's invariant |
| Bcas.MarkSweepExample | src/descrambler/bcas.c:142-187 | Tracking A and B while the CA ids name A and C: A is kept without a reopen, C is put at the head and opened once, B is closed once and dropped |
| Bcas.CaidChangeSpecEmpty | src/descrambler/bcas.c:233 | A caid change on a new, empty list closes nothing |
| Bcas.BcasDescrambler.constructor | src/descrambler/bcas.c:211-227 | A new descrambler has an empty list, belongs to its service and has logged nothing |
| Bcas.TvService.constructor | src/descrambler/bcas.c:191-199 | A service starts with no descramblers |
| Bcas.FindBcas | src/descrambler/bcas.c:201-203 | The position of the first of this client's descramblers for the service, or none when no entry is one |
| Bcas.FindBcasAt | src/descrambler/bcas.c:201-203 | The search loop stops where FindBcas points |
| Bcas.FindBcasCount | src/descrambler/bcas.c:201-205 | The search finds nothing exactly when the list holds none of this client's descramblers for the service |
| Bcas.CountBcas | src/descrambler/bcas.c:201-205 | At most one per entry of the list. FindBcasCount and StartCreatesOne state how it relates to the search and to creation |
| Bcas.StartCreatesOne | src/descrambler/bcas.c:205-229 | Creating a descrambler on a service that has none leaves it with exactly one |
| Bcas.Without | src/descrambler/bcas.c:124 | Removing a descrambler from the list drops its entries and keeps every other entry |
| Bcas.ServiceStart | src/descrambler/bcas.c:191-234 | Does nothing on a non-MPEG-TS service. Otherwise it reuses the existing descrambler for the service, or creates one at the head of the list; if allocation fails nothing changes. So a service never has more than one. The PID scan is then always run. A reused descrambler keeps its keystate, and no other descrambler of the list changes |
| Eit.FrameHeight | src/epggrab/module/eit.c:577-584 | High nibble 0 or 0xa gives 480, 0xb gives 1080, 0xc gives 720 and 0xd gives 240; any other nibble is refused |
| Eit.ComponentAccept | src/epggrab/module/eit.c:606-611 | Returns 0 with the language code from bytes 3-5. Besides the stream properties only ws and hd may change, and those only for tag 0 |
| Eit.ComponentIsdb | src/epggrab/module/eit.c:565-613 | Returns -1 with the record untouched when the body is short or not video. Accepted exactly for a known height nibble and an aspect nibble of 1, 3 or 4. Only the stream properties and, for tag 0 only, ws/hd change |
| Eit.ComponentRoundTrip | src/epggrab/module/eit.c:565-613 | Decoding an encoded video format gives back height, aspect ratio, tag and language. The width is h*4/3 or h*16/9, and 0 for 12:5. ws = (aspect != 4:3) and hd = (height >= 720) only for tag 0 |
| Eit.HdWidths | src/epggrab/module/eit.c:586-596 | 1080 lines at 16:9 are 1920 wide, 720 at 16:9 are 1280, and 1080 at 4:3 are 1440 |
| Eit.ComponentDvb | src/epggrab/module/eit.c:616-664 | Without ISDB: -1 exactly when shorter than 6 bytes. Only hd/ws/ad/st/ds change, and ws, ad, st and ds are only ever set to 1 |
| Eit.ContentGenres | src/epggrab/module/eit.c:675-690 | At most one genre per 2-byte pair, and every genre is below 0xe0 |
| Eit.ContentSpec | src/epggrab/module/eit.c:672-692 | Only the genre list changes: it keeps the genres it had and gains at most one per 2-byte pair |
| Eit.DescContent | src/epggrab/module/eit.c:672-692 | Returns 0. Genres are appended in order from the first byte of each pair. Program attributes (0xe0-0xef) and codes from 0xf0 are skipped, and nothing else in the record changes |
| Eit.EncodeGenres | src/epggrab/module/eit.c:675-690 | Two bytes per genre |
| Eit.GenresRoundTrip | src/epggrab/module/eit.c:675-690 | Genre codes below 0xe0 survive an encode and decode unchanged |
| Eit.DescParentalAt | src/epggrab/module/eit.c:697-714 | Returns 0. Over the 4-byte entries while more than 3 bytes are left, the bytes at the offset in 1..15 are counted. If any are, parental becomes the truncated mean of (byte + 3) as a uint8; otherwise nothing changes |
| Eit.ParentalSpec | src/epggrab/module/eit.c:697-714 | Only the parental field changes, and only when some entry's byte at the offset counts |
| Eit.DescParentalAsWritten | src/epggrab/module/eit.c:697-714 | The decoder as written reads offset 0 of every entry |
| Eit.DescParental | src/epggrab/module/eit.c:697-714 | The corrected decoder reads the rating byte at offset 3, after the country code |
| Eit.RatedBounds | src/epggrab/module/eit.c:701-708 | The sum lies between 4 and 18 times the count |
| Eit.ParentalRange | src/epggrab/module/eit.c:710-711 | A stored rating is the mean, between 4 and 18, so the uint8 cast loses nothing; with no counted byte the record is unchanged |
| Eit.DivBounds | src/epggrab/module/eit.c:711 | A mean of values between lo and hi lies between lo and hi |
| Eit.AsWrittenIgnoresRatings | src/epggrab/module/eit.c:701-708 | When every entry starts with a capital-letter country code, offset 0 counts nothing |
| Eit.ParentalFinding | src/epggrab/module/eit.c:702 | One Japanese entry with rating 5: as written nothing is stored, as intended 8 is |
| Eit.SamplingIndex | src/epggrab/module/eit.c:937-938 | The sampling code maps 3 to 6, 5 to 5, 7 to 3 and anything else to 0x0f |
| Eit.Channels | src/epggrab/module/eit.c:919-935 | component_type maps to 0..6 channels |
| Eit.AudioComponentAsWritten | src/epggrab/module/eit.c:903-948 | The decoder as written: -1 with the record untouched below 9 bytes. Accepted exactly when content is 2, stream_type is 0x0f and, if bit 7 of byte 6 is set, the body has 12 bytes. is_dmono and the channels follow component_type, and sri follows bits 1-3 of byte 6. The language is bytes 7 and 8 and then byte 9, read past a 9-byte body as the byte that follows it. The second language is bytes 9-11. Only the stream properties change |
| Eit.AudioOverRead | src/epggrab/module/eit.c:910-944 | The code as written decides a 9-byte body's language code by the byte that follows the body |
| Eit.AudioComponent | src/epggrab/module/eit.c:903-948 | The corrected decoder: refused when shorter than 9 bytes, with the record untouched. Accepted exactly when content is 2, stream_type is 0x0f and a body with bit 7 of byte 5 set has 12 bytes. is_dmono and the channels follow component_type, and sri follows bits 1-3 of byte 5. The language is bytes 6-8 and the second language bytes 9-11. Only the stream properties change, and the tag is always stored |
| Eit.AudioRoundTrip | src/epggrab/module/eit.c:903-948 | Every field of an encoded audio component comes back, mapped through the channel and sampling tables, with the second language only when multi-lingual |
| Eit.SamplingBits | src/epggrab/module/eit.c:937-940 | The sampling rate and the multi-lingual flag read back from their bits |
| Eit.TextResult | src/epggrab/module/eit.c:1386-1391 | A text decoder returns 0 or -1, and -1 exactly for the rejected descriptors |
| Eit.Handle | src/epggrab/module/eit.c:1384-1421 | No contract of its own: the switch on the descriptor tag, with each finding's spot as written or corrected by its own flag. HandleEffects states what it does |
| Eit.Walk | src/epggrab/module/eit.c:1375-1424 | No contract of its own: the descriptor loop as a recursion. WalkKeepsGenres, WalkIsApply and WalkFixedIgnoresLeftover state what it means |
| Eit.HandleEffects | src/epggrab/module/eit.c:1384-1421 | For the dispatch of one descriptor: each handler returns 0 or -1, except that the event-group case as written hands on the `r` it found. Genres change only through the content descriptor and are only added; parental changes only through the parental descriptor; the group only through the event-group descriptor; a tag without a handler returns 0 and changes nothing. Each of the three findings' spots runs as written or corrected by its own flag |
| Eit.WalkKeepsGenres | src/epggrab/module/eit.c:1375-1424 | Genres only accumulate along the walk, whatever the flags; WalkIsApply, DescriptorsWithin and WalkFixedIgnoresLeftover state the rest of what the walk means |
| Eit.Descriptors | src/epggrab/module/eit.c:1375-1381 | Each descriptor split off the loop has a body as long as its length byte |
| Eit.WalkIsApply | src/epggrab/module/eit.c:1375-1424 | For every choice of corrections, the walk applies the handlers to the split-off descriptors in order, stopping after the first that fails. Each body is followed by the next tag, the last by the first unread byte or the byte past the loop |
| Eit.DescriptorsWithin | src/epggrab/module/eit.c:1375-1424 | The descriptors split off, written back, are a prefix of the loop: the walk reads nothing past dllen |
| Eit.DescriptorsRoundTrip | src/epggrab/module/eit.c:1375-1381 | Well-formed descriptors whose last body is not empty are split off exactly as written |
| Eit.TrailingEmptyIgnored | src/epggrab/module/eit.c:1375 | A last descriptor with an empty body is never handled: only 2 bytes are left for it |
| Eit.EventGroupFinding | src/epggrab/module/eit.c:1406-1410 | With the parental and audio spots corrected, so that only this finding is at work: with an event-group descriptor first, a negative leftover `r` stops the walk and loses a later rating, and a leftover of 0 stores it. With the correction it is stored even after a negative leftover |
| Eit.WalkFixedIgnoresLeftover | src/epggrab/module/eit.c:1375-1424 | With the event-group correction, whatever the other two flags, the walk does not depend on the leftover r |
| Eit.HandleDescriptor | src/epggrab/module/eit.c:1386-1421 | The handler method returns what Handle gives for the same flags. With the code's flags it calls the decoders as written: parental at offset 0, the event group passing `r` on, the audio layout of byte 6 |
| Eit.WalkFrom | src/epggrab/module/eit.c:1375-1424 | One step of the walk at offset p: stop when the body does not fit or its handler fails, else go on after it |
| Eit.WalkDescriptors | src/epggrab/module/eit.c:1375-1424 | The loop computes the walk over the dllen bytes from the given initial r, as written or corrected as the flags say |
| Eit.LoopLength | src/epggrab/module/eit.c:1366 | The 12-bit descriptors_loop_length is below 4096 |
| Eit.ProcessEventSpec | src/epggrab/module/eit.c:1346-1471 | -1 when shorter than 12 bytes, when the loop runs past the data, or when the channel loop breaks off. Otherwise 12 + dllen. A record is handed on exactly when the header checks pass. The record is the walk from the undefined initial `r`, as written or corrected as the flags say |
| Eit.ProcessEvent | src/epggrab/module/eit.c:1346-1471 | The method returns what the event specification says, for every choice of flags |
| Eit.ProcessEventFinding | src/epggrab/module/eit.c:1363-1424 | One event with one Japanese entry rated 5: as written the record handed on has no rating, corrected it has 8, whatever the undefined inputs |
| Eit.ProcessDataFrom | src/epggrab/module/eit.c:1486-1492 | The loop stops within the data |
| Eit.NextEvent | src/epggrab/module/eit.c:1487-1491 | One pass returns -1 or 12 to the length left, hands on at most one record, and the loop goes on from off + r |
| Eit.ProcessData | src/epggrab/module/eit.c:1474-1499 | The loop hands on the records and stops where the specification says, for every choice of flags |
| Eit.HandedKept | src/epggrab/module/eit.c:1486-1492 | Records already handed on stay at the front, whatever the loop does after |
| Eit.ProcessDataSteps | src/epggrab/module/eit.c:1486-1492 | Each step consumes at least 12 bytes, so at most one record per 12 bytes is handed on, plus the last; the loop stops at its start or 12 or more bytes on |
| Eit.CallbackHeader | src/epggrab/module/eit.c:1538-1568 | -1 exactly when the grabber is not running, the private data is missing, the table id is outside 0x4e..0x6f or fewer than 11 bytes are given; otherwise seg is byte 9 |
| Eit.EncodeHeader | src/epggrab/module/eit.c:1564-1567 | The header is 11 bytes |
| Eit.Be16Split | src/epggrab/module/eit.c:1564-1566 | A 16-bit id comes back from its big-endian bytes |
| Eit.ExtraIdSplit | src/epggrab/module/eit.c:1568 | The table key tsid << 16 \| sid splits back into tsid and sid |
| Eit.HeaderRoundTrip | src/epggrab/module/eit.c:1557-1568 | sid, tsid, onid and seg come back from an encoded header, and the table key holds tsid and sid |
| Eit.Word | src/epggrab/module/eit.c:1591 | The word of a section is one of the 8 words of sections[] |
| Eit.SegmentMask | src/epggrab/module/eit.c:1587-1590 | No contract of its own: the mask of the code. SegmentMaskBit states which sections it holds |
| Eit.SectionBit | src/epggrab/module/eit.c:1591 | A section's bit in its word is exactly one bit |
| Eit.ClearSegmentTail | src/epggrab/module/eit.c:1585-1592 | Only the word of seg's segment changes: the mask is cleared from it |
| Eit.SegmentMaskBit | src/epggrab/module/eit.c:1587-1590 | In that word the mask holds section n's bit exactly when seg < n <= seg \| 7 |
| Eit.ClearBit | src/epggrab/module/eit.c:1591 | Clearing a mask keeps a bit exactly when the mask does not hold it |
| Eit.SegmentTailCleared | src/epggrab/module/eit.c:1585-1592 | The sections seg + 1 to seg \| 7 are forgotten, and seg itself and every other section of that word are kept |
| Eit.NitArrayCheck | src/epggrab/module/eit.c:1855-1865 | Returns 0 exactly when the count is 0 or less or the value is among the first count entries, and 1 otherwise |

## Left out

- Allocation: `calloc` and `malloc` failure in service start is the `allocOk` input. `free` is not modelled. `multi2_get_key_struct` and `multi2_free_key_struct` are modelled only as the key store's constructor.
- Multi2Codec.KeyInfo.constructor: starts from zeroed keys, while `malloc` leaves them undefined. Nothing reads them before a key is set.
- The endianness and alignment variants of BE64TOH/HTOBE64 (demulti2.c:85-163) are one big-endian load/store pair. Every variant reads and writes big-endian.
- Multi2Codec.Descramble: only the in-place call (input buffer == output buffer), the one way the packet entry point uses it. Separate input and output buffers are not modelled.
- The rounds are written over a `Mixers` value holding pi2/pi3/pi4's keyed mixing functions. The cipher itself is the constant `Multi2`, and the inverse proofs hold for any choice.
- `bcas_decodeECM` is an external library. Its answer is the `decode` input of TableInput. The log limiter `tvhlog_limit` is the `limiterAllows` input.
- `descrambler_open_pid`, `descrambler_close_pid`, `descrambler_keys` and the log line are entries of the `events` log. The RESOLVED keystate that `descrambler_keys` may set lives outside bcas.c and is not modelled.
- The keystate enumerators come from descrambler.h, which is not part of this model. Only UNKNOWN and FORBIDDEN are set here.
- The open event records the ECM PID only. The `DESCRAMBLER_ECM_PID` wrapping, the `bcas_table_input` callback and the service passed to `descrambler_open_pid` (bcas.c:173-174) are not recorded.
- The open and close events do not record the mux they are made on. `td_nicename`, `bcas_create` and `bcas_conf_changed` are not modelled.
- The text decoders (short event, extended event, CRID) depend on charset conversion outside eit.c. They are the `TextRejects` set: which descriptors they reject. The text they store is not modelled.
- `_eit_process_event` past the walk is not modelled: title scraping, the database update per channel under the global lock, and `_eit_desc_event_group`. It is the `refused` set of events whose loop over the service's channels breaks off.
- `_eit_process_data`'s skip of the `eit_data_t` header (charset and CRID authority) and its `save`/`epg_updated` step are not modelled. `_eit_process_immediate` (eit.c:1502-1516) runs the same loop without the lock, so Eit.ProcessData models it as well.
- The genre list is a sequence that the content descriptor appends to. The genre table's own mapping in `epg_genre_list_add_by_eit` is outside eit.c.
- The non-ISDB content branch (eit.c:680-684) is not modelled. The non-ISDB component branch is Eit.ComponentDvb.
- Nothing of `_eit_callback` after the header guard and the segment mask is modelled: interest registration, `dvb_table_begin`, mux lookups and the hand-off of the section. The two early exits it makes itself are the `otaRunning` and `hasPriv` inputs.
- sections[] keeps section n at bit 31 - n % 32 of word n / 32, the order the mask assumes. `dvb_table_begin`, which sets those bits, is not part of this model.
- The walk models the ISDB build. Its `Fixes` argument picks, spot by spot, the code as written (`AsWritten`) or the correction given under Findings (`Intended`). The `Undefined` input holds what the code as written reads but the section does not fix: the initial `r` and the byte past the section data. One initial `r` is used for every event of a section, whereas the real stack value may differ from call to call.

## Findings

| source | as written | input that shows it | evidently intended | confidence | as-written member | corrected member |
|---|---|---|---|---|---|---|
| src/epggrab/module/eit.c:702 | The parental rating decoder reads byte 0 of each 4-byte entry. That is the first letter of the country code, so it is never 1..15 for a real entry and no rating is stored | one Japanese entry `4a 50 4e 05` (rating 5, minimum age 8) | read byte 3, the rating after the 3-byte country code: parental = 8 | not executed | Eit.DescParentalAsWritten, Eit.ParentalFinding, Eit.AsWrittenIgnoresRatings, Eit.ProcessEventFinding | Eit.DescParental, Eit.ParentalRange |
| src/epggrab/module/eit.c:1406-1410 | The event-group case of the walk sets no `r`, yet `r < 0` is tested after it. As the first descriptor, `r` is uninitialised; later, it is the previous handler's value | loop `d6 00 55 04 4a 50 4e 05`, with the parental rating read at byte 3, and a negative leftover `r`: the walk stops and the later rating is lost; with a leftover of 0 it is 8 | r = 0 after the event-group descriptor, so the walk goes on | not executed | Eit.EventGroupFinding | Eit.WalkFixedIgnoresLeftover |
| src/epggrab/module/eit.c:937-946 | The audio component decoder reads the flags from byte 6, the language from bytes 7-9 and the second language from 9-11. ARIB STD-B10 puts the flags in byte 5 and the language in 6-8. A 9-byte body passes the length check, yet byte 9 lies past it | body `02 01 00 0f 00 00 00 00 00`: the third letter of the language is whatever byte follows the descriptor | flags from byte 5, language from bytes 6-8, second language from 9-11 | not executed | Eit.AudioComponentAsWritten, Eit.AudioOverRead | Eit.AudioComponent, Eit.AudioRoundTrip |
