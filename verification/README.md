# Di5Guise: a verified model of the vSIM authentication core

This project models the part of the repository that authenticates a subscriber, from the block cipher up to
the exchange between the UE and the enclave, and proves properties of that model.

* `Gf256`, `SBoxes`, `Fips197`, `KeySchedule` state AES as FIPS 197 does, for any number of rounds and any
  round keys; `ByteArithmetic`, `Aes`, `AesKey` are the in-place C code of `aes.c`, proved to compute it.
  A pointer to a 4x4 state is a buffer and a position in it. `CipherTrace` says byte by byte, without the layers
  of `Fips197`, what the states of an encryption are, and `KeySchedule.IsScheduleOf` what the bytes of a schedule are.
* `Counter`, `CipherModes` state CBC and CTR as NIST SP 800-38A does; `AesContext` is the `AES_ctx` structure
  and its entry points, with the IV pointer of the CBC encryptor kept as a pointer into the buffer being written.
  `ContextStreams` runs these entry points on one stretch of a buffer after another.
* `Milenage` states f1 to f5 of 3GPP TS 35.206, and `MilenageBytes` which bytes meet which in them; `MilenageCode`
  is the scratch-buffer code of the enclave's `usim.c`, `Enclave` the caller of that code and `eapp_entry`;
  `AutnCode`, `Usim` are the local functions of the UE's `usim.cc`.
* `Messages` holds the 48-byte and 46-byte layouts, what an answer is, and when an AUTN is accepted.
* `Handshake` is the exchange through shared memory: a transition system in which every byte of every memcpy and
  every flag operation of the UE, the host and the enclave is a step, taken in any order that a schedule dictates.
  Bytes written reach the other process late and out of order; only an acquire load that sees a raised flag
  brings with it what was written before the flag was raised. `HandshakeRuns` says what holds in every run,
  `HandshakeTiming` when a call is right, `HandshakePolling` how often the flag is loaded, and `HandshakeSchedules`
  what each side's steps come to when they run in one piece.
* `SharedMemory` is the same exchange as code: the record in shared memory and the stretches that each side runs
  over it. `VsimCall` composes them, the enclave's entry point and the UE's local Milenage into the UE's call.
* `Memory`, `Decimal`, `Hex` are the byte routines: `memcpy`, `memmove` and `memset` over one memory, `ltoa`,
  and the hexadecimal conversions.

Bytes are `bv8`; the C operator `^` on bytes is `Gf256.Add`. `hide` statements in proof bodies only keep
definitions away from the solver.

## What turned out false, and when the code is right

* A call through shared memory polls a bounded number of times and then copies the answer regardless, so it may
  return what shared memory held before (`HandshakeSchedules.TimedOutReturnsOldMemory`,
  `HandshakeSchedules.TimedOutCanBeWrong`). Whether it is right whatever memory held is a matter of the order of
  steps alone: it is, exactly when each of the 46 bytes was put by the host before it was shown to the UE, and shown
  before the UE copied it (`HandshakeTiming.RightFromEveryMemoryIff`). A raised flag that is seen ensures this order
  (`HandshakeTiming.SeenFlagIsInTime`).
* An IV used twice under one key makes two runs of CTR calls share key-stream blocks, and so may different IVs: the
  runs share none exactly when neither counter reaches the start of the other run (`CipherModes.RunsShareNoBlock`).
* A key stream does not repeat for exactly 2^128 blocks (`CipherModes.KeyStreamDistinct`).
* The upward copy of `memcpy` is a move, for every memory, exactly when the destination does not start inside
  the source range (`Memory.ForwardCopyIsMoveIff`).
* `ltoa` writes a decimal numeral for every `long` but the least one (`Decimal.TextIsDecimalIff`).
* `str_to_hex` takes any other character for a lower-case hex digit; rendering undoes it exactly on
  lower-case hex text of even length (`Hex.RenderOfDecodeIff`).

## Where the code is narrower than it looks, or than its comments say

* `TIMEOUT_SECONDS` (srsue/usim.cc:328) counts waits of 0.4 seconds, and the flag is loaded once more after the
  last wait: six loads in all. The model follows the code.
* `Multiply` (vsim/fpga-auth/eapp/aes.c:315-336) ignores the three high bits of its second factor. It is called only with
  0x09, 0x0b, 0x0d and 0x0e, for which it is field multiplication (`ByteArithmetic.MultiplyIsFieldMultiplication`).
* The log line at srsue/usim.cc:363 speaks of cached results; the branch recomputes Milenage locally. So does the model.

## Model

| member | source | states |
|---|---|---|
| SBoxes.InvSBoxOfSBox | vsim/fpga-auth/eapp/aes.c:79-115 | the inverse table undoes the S-box on every byte |
| SBoxes.SBoxOfInvSBox | vsim/fpga-auth/eapp/aes.c:79-115 | the S-box undoes the inverse table on every byte |
| SBoxes.SBoxIsAffineOfInverse | vsim/fpga-auth/eapp/aes.c:79-96 | every table entry is the sum of the inverse in GF(2^8), zero standing for its own inverse, its rotations by 1 to 4 bits, and 0x63 (section 5.1.1 of FIPS 197) |
| ByteArithmetic.XtimeIsTimesX | vsim/fpga-auth/eapp/aes.c:294-297 | the shift-and-multiply form is multiplication by x modulo x^8 + x^4 + x^3 + x + 1 |
| ByteArithmetic.MultiplyIsFieldMultiplication | vsim/fpga-auth/eapp/aes.c:315-336 | Multiply equals field multiplication if and only if the coefficient is below 0x20 or the byte is zero |
| ByteArithmetic.SharedMixColumn | vsim/fpga-auth/eapp/aes.c:304-312 | the four bytes computed with a shared XOR and one doubling each are the product of the column with the MixColumns matrix |
| ByteArithmetic.SumOfMultipliesIsInvMixByte | vsim/fpga-auth/eapp/aes.c:354-365 | the sums of four Multiply calls, in each of the four orders used, are the rows of the inverse matrix |
| Gf256.InvMixByteOfMixBytes | vsim/fpga-auth/eapp/aes.c:300-366 | the inverse matrix undoes the matrix on every column |
| Gf256.MixByteOfInvMixBytes | vsim/fpga-auth/eapp/aes.c:300-366 | the matrix undoes the inverse matrix on every column |
| Fips197.SubBytesInverses | vsim/fpga-auth/eapp/aes.c:251-381 | SubBytes and InvSubBytes undo each other on every state |
| Fips197.ShiftRowsInverses | vsim/fpga-auth/eapp/aes.c:266-409 | ShiftRows and InvShiftRows undo each other on every state |
| Fips197.MixColumnsInverses | vsim/fpga-auth/eapp/aes.c:300-366 | MixColumns and InvMixColumns undo each other on every state |
| Fips197.InvCipherOfCipher | vsim/fpga-auth/eapp/aes.c:413-461 | for every block, any number of rounds and any round-key bytes, decryption undoes encryption |
| Fips197.CipherOfInvCipher | vsim/fpga-auth/eapp/aes.c:413-461 | encryption undoes decryption, so the cipher is onto the blocks |
| Fips197.CipherInjective | vsim/fpga-auth/eapp/aes.c:413-436 | two blocks have the same cipher text under the same round keys only if they are the same |
| Aes.AddRoundKey | vsim/fpga-auth/eapp/aes.c:237-247 | in place, byte k of the state gets byte 16 * round + k of the schedule added; the rest of the buffer is unchanged |
| CipherTrace.AddRoundKeyByte | vsim/fpga-auth/eapp/aes.c:237-247 | byte k of the sum with round key r is the sum with byte 16r + k of the schedule |
| CipherTrace.RoundIsFullRound | vsim/fpga-auth/eapp/aes.c:421-432 | a state follows another by one full round if and only if each of its bytes is 2a + 3b + c + d + key byte, for the substituted bytes a to d that the row shifts bring into the column |
| CipherTrace.CipherIffTrace | vsim/fpga-auth/eapp/aes.c:413-436 | a block is the cipher text if and only if states lead to it byte by byte: the first key addition, full rounds with the round keys in order, and a last round without mixing, one state for each sixteen bytes of the schedule |
| CipherTrace.FirstKeyIsKey | vsim/fpga-auth/eapp/aes.c:146-418 | the first key added is the first sixteen bytes of the cipher key |
| Aes.SubBytes | vsim/fpga-auth/eapp/aes.c:251-261 | in place, every byte of the state goes through the S-box once |
| Aes.ShiftRows | vsim/fpga-auth/eapp/aes.c:266-292 | the sequence of moves through temp rotates row r by r columns, as section 5.1.2 of FIPS 197 says |
| Aes.MixColumns | vsim/fpga-auth/eapp/aes.c:300-313 | in place, each column becomes its product with the matrix of section 5.1.3 |
| Aes.InvMixColumns | vsim/fpga-auth/eapp/aes.c:350-366 | in place, each column becomes its product with the matrix of section 5.3.3 |
| Aes.InvSubBytes | vsim/fpga-auth/eapp/aes.c:371-381 | in place, every byte of the state goes through the inverse table once |
| Aes.InvShiftRows | vsim/fpga-auth/eapp/aes.c:383-409 | the sequence of moves through temp rotates row r back by r columns |
| Aes.Cipher | vsim/fpga-auth/eapp/aes.c:413-436 | the round loop with its break computes the cipher of section 5.1 in place, for any round keys |
| Aes.InvCipher | vsim/fpga-auth/eapp/aes.c:439-461 | the descending loop computes the inverse cipher of section 5.3 in place |
| AesKey.RconTable | vsim/fpga-auth/eapp/aes.c:120-121 | entry n of the table, for 1 to 10, is x to the power n - 1 |
| AesKey.ScheduleCore | vsim/fpga-auth/eapp/aes.c:164-210 | rotation, substitution and round constant on the scratch word, byte by byte in each branch, which is the temp of section 5.2, for all three key sizes |
| AesKey.KeyExpansion | vsim/fpga-auth/eapp/aes.c:146-217 | the two loops stay in bounds and fill the array with the key and then, byte by byte, what the recurrence of section 5.2 gives, for all three key sizes |
| KeySchedule.PowersOfX | vsim/fpga-auth/eapp/aes.c:120-121 | the ten round constants that are used |
| KeySchedule.ExpandIffBytes | vsim/fpga-auth/eapp/aes.c:146-217 | a byte string is the expansion of a key if and only if it starts with the key and each later byte follows from three earlier positions: the rotated and substituted byte with a power of x in every Nk-th word, the substituted byte in word 4 of eight for AES-256, the plain byte elsewhere |
| KeySchedule.ExpandIsExpansion | vsim/fpga-auth/eapp/aes.c:146-217 | the expansion starts with the key and every later word meets the recurrence of section 5.2 |
| KeySchedule.ExpansionDetermined | vsim/fpga-auth/eapp/aes.c:161-216 | two schedules that agree on any Nk consecutive words are equal, forwards and backwards |
| KeySchedule.ExpansionIsExpand | vsim/fpga-auth/eapp/aes.c:146-217 | the recurrence and the key leave only one schedule |
| KeySchedule.RoundKeyDeterminesKey | vsim/fpga-auth/eapp/aes.c:146-217 | for AES-128 each round key, the last one included, is different for different keys |
| AesContext.AesCtx.Init | vsim/fpga-auth/eapp/aes.c:219-222 | the context's round keys become the expansion of the key |
| AesContext.AesCtx.InitIv | vsim/fpga-auth/eapp/aes.c:224-228 | the round keys become the expansion of the key and the IV the given block |
| AesContext.AesCtx.SetIv | vsim/fpga-auth/eapp/aes.c:229-232 | the context's IV becomes the given block |
| AesContext.AesCtx.EcbEncrypt | vsim/fpga-auth/eapp/aes.c:470-474 | the first block of the buffer becomes its cipher text, the rest is unchanged |
| AesContext.AesCtx.EcbDecrypt | vsim/fpga-auth/eapp/aes.c:476-480 | the first block of the buffer is decrypted, the rest is unchanged |
| AesContext.XorWithIv | vsim/fpga-auth/eapp/aes.c:492-499 | in one buffer the outcome is that of sixteen byte additions in turn, for every overlap; the old block is added to the old block under the IV pointer whenever no byte is read after it was written |
| AesContext.XorForwardApart | vsim/fpga-auth/eapp/aes.c:492-499 | additions in turn are one addition of blocks when the IV block ends before the data block or does not start before it |
| AesContext.AesCtx.CbcEncryptBuffer | vsim/fpga-auth/eapp/aes.c:501-514 | with the IV pointer following the buffer, the stretch becomes the CBC cipher text and the context keeps its last block |
| AesContext.AesCtx.CbcDecryptBuffer | vsim/fpga-auth/eapp/aes.c:516-529 | the stretch becomes the CBC plain text and the context keeps the last cipher-text block |
| AesContext.CbcInPlaceRoundTrip | vsim/fpga-auth/eapp/aes.c:501-529 | in place, either direction undoes the other on any stretch of whole blocks, none included, and both leave the same IV |
| CipherModes.CbcDecryptOfEncrypt | vsim/fpga-auth/eapp/aes.c:501-529 | CBC decryption undoes CBC encryption for every key, IV and message of whole blocks |
| CipherModes.CbcEncryptOfDecrypt | vsim/fpga-auth/eapp/aes.c:501-529 | CBC encryption undoes CBC decryption |
| CipherModes.CbcEncryptBlockwise | vsim/fpga-auth/eapp/aes.c:501-514 | cipher-text block j is the cipher of plain-text block j plus cipher-text block j - 1, the IV standing before the first |
| CipherModes.CbcDecryptBlockwise | vsim/fpga-auth/eapp/aes.c:516-529 | plain-text block j is the deciphered block j plus cipher-text block j - 1 |
| CipherModes.CbcStreaming | vsim/fpga-auth/eapp/aes.c:501-529 | in both directions a message cut into any list of calls gives the bytes and the IV of one call |
| AesContext.AesCtx.IncrementIv | vsim/fpga-auth/eapp/aes.c:552-563 | the carry loop with continue and break is the standard increment of the 16-byte counter |
| AesContext.AesCtx.CtrXcryptBuffer | vsim/fpga-auth/eapp/aes.c:538-569 | output byte i is input byte i plus byte i % 16 of the cipher of counter block i / 16, and the stored IV advances by the number of blocks begun, for every length |
| AesContext.CtrInPlaceRoundTrip | vsim/fpga-auth/eapp/aes.c:537-569 | a second call from the same IV restores the buffer, whatever its length |
| Counter.IncrementBytes | vsim/fpga-auth/eapp/aes.c:552-563 | the bytes after the last one that is not 255 become zero, that one goes up by one, and the bytes before it stay |
| Counter.IncrementAddsOne | vsim/fpga-auth/eapp/aes.c:552-563 | the increment adds one to the big-endian value and wraps from all ones to zero |
| Counter.CounterBlockValue | vsim/fpga-auth/eapp/aes.c:549-563 | counter block j has the value of the IV plus j modulo 2^128 |
| Counter.CounterBlocksOfTwo | vsim/fpga-auth/eapp/aes.c:549-563 | counter blocks from any two IVs are equal if and only if IV value plus index agree modulo 2^128 |
| Counter.CounterBlocksEqual | vsim/fpga-auth/eapp/aes.c:549-563 | counter blocks i and j are equal if and only if i and j are congruent modulo 2^128 |
| CipherModes.CtrByteByValue | vsim/fpga-auth/eapp/aes.c:538-569 | output byte i is input byte i plus byte i % 16 of the cipher of the block whose value is that of the IV plus i / 16, and the IV left behind has gone up by the number of blocks begun |
| CipherModes.CtrStreaming | vsim/fpga-auth/eapp/aes.c:538-569 | a message cut into calls, all but the last of whole blocks, gives the bytes and the IV of one call |
| CipherModes.CtrUsesCallBlocks | vsim/fpga-auth/eapp/aes.c:544-568 | a call's output is its input plus the key-stream blocks attributed to the call |
| CipherModes.RunBlocksAreConsecutive | vsim/fpga-auth/eapp/aes.c:544-568 | the blocks of any run of calls on one context are consecutive blocks of one key stream |
| CipherModes.KeyStreamDistinct | vsim/fpga-auth/eapp/aes.c:538-569 | over any run of calls no two key-stream blocks are equal if and only if the run uses at most 2^128 blocks |
| CipherModes.CtrBlocksOfTwo | vsim/fpga-auth/eapp/aes.c:538-569 | under one key, key-stream blocks from any two IVs are equal if and only if IV value plus index agree modulo 2^128 |
| CipherModes.RunsShareNoBlock | vsim/fpga-auth/eapp/aes.h:84-85 | two runs of calls under one key share no key-stream block if and only if one is empty or neither counter reaches the start of the other run |
| CipherModes.SameIvSharesBlocks | vsim/fpga-auth/eapp/aes.h:84-85 | with one IV for both runs they share a block unless one run is empty |
| ContextStreams.CbcEncryptStretches | vsim/fpga-auth/eapp/aes.c:501-514 | calls on adjacent stretches of whole blocks, one context, leave the bytes and the IV of one call |
| ContextStreams.CbcDecryptStretches | vsim/fpga-auth/eapp/aes.c:516-529 | the same for decryption |
| ContextStreams.CtrStretches | vsim/fpga-auth/eapp/aes.c:538-569 | calls on adjacent stretches of any lengths leave what the successive calls say, and those of one call when all but the last are whole blocks |
| ContextStreams.StretchesAreCalls | vsim/fpga-auth/eapp/aes.c:501-569 | the calls on a message cut into parts are one call on the message |
| MilenageCode.XorRotated | vsim/fpga-auth/eapp/usim.c:66-68 | the loop with index (i + shift) % 16 overwrites the whole scratch buffer with the sum, cyclically rotated |
| MilenageCode.ComputeOut | vsim/fpga-auth/eapp/usim.c:66-74 | one stretch of f2345 computes E[rot(TEMP xor OPc, r) xor c] xor OPc of TS 35.206, whatever the reused buffers held |
| MilenageCode.DeriveOutputs | vsim/fpga-auth/eapp/usim.c:43-97 | the three outputs and four copies, in their order, for result pointers that coincide with one another or with OPc in any way |
| MilenageCode.LastWriteStays | vsim/fpga-auth/eapp/usim.c:53-97 | where result pointers coincide, the last write in the order RES, AK, CK, IK is what the buffer starts with |
| MilenageCode.ResultsAreMilenage | vsim/fpga-auth/eapp/usim.c:43-97 | when RES, AK and CK are not written over OPc, the outputs are f2, f5, f3 and f4 of TS 35.206 |
| MilenageCode.F2345 | vsim/fpga-auth/eapp/usim.c:20-102 | with non-null pointers each result buffer holds what the four writes in order leave there, which is RES, CK, IK and AK of TS 35.206 when the pointers are distinct; with a null pointer the result is the error and nothing is written |
| MilenageCode.BuildIn1 | vsim/fpga-auth/eapp/usim.c:132-140 | the two loops put SQN at 0 and 8 and AMF at 6 and 14 |
| MilenageBytes.F1Bytes | vsim/fpga-auth/eapp/usim.c:117-158 | byte j of MAC-A is byte j of the kernel output plus OPc, where kernel input byte i is TEMP byte i plus byte i + 8, cyclically, of SQN AMF SQN AMF and of OPc |
| MilenageBytes.OutBytes | vsim/fpga-auth/eapp/usim.c:37-96 | an output byte is the kernel output byte plus OPc, for the input rotated by whole bytes whose last byte is adjusted |
| MilenageBytes.F2345Bytes | vsim/fpga-auth/eapp/usim.c:37-96 | RES is the second half and AK the first six bytes of the output with rotation 0 and constant 1; CK has rotation by 4 bytes and constant 2, IK by 8 bytes and constant 4 |
| MilenageCode.F1 | vsim/fpga-auth/eapp/usim.c:104-162 | with non-null pointers MAC-A is f1 of TS 35.206; with a null pointer the result is the error and nothing is written |
| Milenage.RandOfOut | vsim/fpga-auth/eapp/usim.c:37-96 | the RAND can be computed back from an output block |
| Milenage.OutOfRand | vsim/fpga-auth/eapp/usim.c:37-96 | every block is the output for the RAND computed back from it |
| Milenage.CkAndIkAreBijective | vsim/fpga-auth/eapp/usim.c:37-96 | for fixed K and OPc the maps from RAND to CK and from RAND to IK are one-to-one and onto |
| Enclave.Eapp.GenAuthResMilenage | vsim/fpga-auth/eapp/usim.c:164-222 | RES becomes f2, CK f3 and IK f4 under the enclave's key, SQN xor AK the first six bytes of AUTN; the result is success in every case |
| Enclave.KeyBytes | vsim/fpga-auth/eapp/usim.c:174-174 | the enclave's key is 00, 11, 22 and so on to ff |
| Enclave.Eapp.Entry | vsim/fpga-auth/eapp/fpga-auth.c:69-141 | for received bytes RAND, OPc, AUTN the sent bytes are f2 in the first eight, the first six of AUTN, f3 in the next sixteen and f4 in the last sixteen |
| Messages.ChallengeRoundTrip | vsim/fpga-auth/host/host-fpga.cpp:169-176 | cutting the 48 bytes as the enclave does undoes packing them as the host does, and conversely |
| Messages.AnswerRoundTrip | vsim/fpga-auth/host/host-fpga.cpp:140-143 | cutting the 46 bytes as the host does undoes packing them as the enclave does, and conversely |
| Messages.ChallengeParts | vsim/fpga-auth/host/host-fpga.cpp:174-176 | the 48 bytes are RAND, OPc, AUTN |
| Messages.AnswerParts | vsim/fpga-auth/eapp/usim.c:177-218 | RES is f2, CK is f3, IK is f4, and SQN xor AK, recomputed from the recovered SQN, is the first six bytes of AUTN |
| Messages.AnswerBytesParts | vsim/fpga-auth/eapp/fpga-auth.c:122-131 | bytes 0 to 7 of the answer are f2, 8 to 13 the start of AUTN, 14 to 29 f3 and 30 to 45 f4 |
| Messages.AutnAcceptedIffMac | srsue/usim.cc:448-477 | for any AK and MAC function, rebuilding and comparing AUTN succeeds if and only if its last eight bytes are the MAC of the recovered SQN and AMF |
| Messages.BuiltAutnAccepted | srsue/usim.cc:448-477 | for any AK and MAC function, an AUTN built from an SQN and AMF is accepted and gives them back |
| AutnCode.RebuildAutn | srsue/usim.cc:460-469 | the three loops write (SQN xor AK), AMF and MAC over the whole AUTN |
| AutnCode.CompareAutn | srsue/usim.cc:472-477 | the loop that never leaves early reports success if and only if all sixteen bytes are equal |
| Usim.MilenageAutnAccepted | srsue/usim.cc:448-477 | the Milenage check succeeds if and only if AUTN ends with f1 of the SQN and AMF it carries |
| Usim.NetworkAutnAccepted | srsue/usim.cc:448-477 | the AUTN of a network that shares K and OPc is accepted and the UE recovers its SQN |
| Usim.UeUsim.FinishCheck | srsue/usim.cc:460-495 | the members and the result after the second half of the check |
| Usim.UeUsim.GenAuthResMilenage | srsue/usim.cc:375-511 | the result is AUTH_OK if and only if AUTN ends with the MAC computed; RES is f2, CK f3, IK f4, AK f5, the MAC f1 of the recovered SQN, and SQN xor AK the start of AUTN, accepted or not |
| Usim.UeUsim.GenAuthResXor | srsue/usim.cc:514-574 | the same for the XOR variant, over any pair of library functions |
| Handshake.NextInv | srsue/usim.cc:301-365 | every step of UE, host, enclave and memory keeps the invariant of the exchange |
| HandshakeRuns.SeenFlagMeansMilenage | srsue/usim.cc:317-347 | in every interleaving, from any content of shared memory, a call whose poll saw the flag returned exactly Milenage's answer to its challenge |
| HandshakeRuns.SeenFlagBytes | srsue/usim.cc:317-347 | the 46 bytes of such a call are f2, the start of AUTN, f3 and f4 under the enclave's key |
| HandshakeRuns.LocalMeansMilenage | srsue/usim.cc:362-365 | every later call returned Milenage's answer under the UE's own key |
| HandshakeRuns.VsimRefinesLocalMilenage | srsue/usim.cc:276-371 | with equal keys in UE and enclave, every call that did not time out returned what local Milenage gives for the same OPc, RAND and AUTN |
| HandshakeRuns.OneRequestOnly | srsue/usim.cc:301-365 | at most one request is ever raised, only the first completed call goes through shared memory, and after it no UE step changes shared memory |
| HandshakeRuns.CallsWereBegun | srsue/usim.cc:276-371 | the challenge of every completed call is one that a step of the schedule began |
| HandshakeTiming.AlikeRun | srsue/usim.cc:316-356 | two runs of one schedule from states that differ in answer bytes alone go through the same program counters, flags, routes and visible positions |
| HandshakeTiming.CurrentIffInTime | srsue/usim.cc:328-347 | a byte was visible when the UE copied it if and only if the schedule puts, shows and copies it in this order |
| HandshakeTiming.FirstCallRightIff | srsue/usim.cc:328-347 | from one given memory, the first call is right if and only if each byte was in time or was right before |
| HandshakeTiming.RightFromEveryMemoryIff | srsue/usim.cc:328-347 | the first call is right from every content of shared memory if and only if the schedule puts, shows and copies each of the 46 bytes in this order |
| HandshakeTiming.SeenFlagIsInTime | srsue/usim.cc:330-347 | if the poll saw the flag, every byte was put, shown and copied in this order |
| HandshakeTiming.SeenFlagRightFromEveryMemory | srsue/usim.cc:330-347 | so the same schedule is right from every content of shared memory |
| HandshakePolling.TimedOutIffNoneOfSixSaw | srsue/usim.cc:328-334 | in every interleaving the UE loads the flag at most six times; its call times out if and only if no load saw the flag, and then after exactly six; otherwise exactly one load saw it |
| HandshakePolling.NoBufferMeansOldMemory | vsim/fpga-auth/host/host-fpga.cpp:170-193 | while no allocation succeeds, the enclave gets nothing and a call times out with the old content of shared memory |
| HandshakeSchedules.LateAnswerIsSeen | srsue/usim.cc:328-347 | after up to five loads in vain and then the answer, the next load sees the flag and the call is right |
| HandshakeSchedules.RequestRaised | srsue/usim.cc:316-323 | the fifty UE steps of the request, in a row, leave exactly RAND, OPc and AUTN, command 1 and the flag in shared memory |
| HandshakeSchedules.HostTakes | vsim/fpga-auth/host/host-fpga.cpp:155-186 | the fifty-three host steps from the poll to the message hand the enclave exactly the bytes of the request, and lower both flags |
| HandshakeSchedules.HostAnswers | vsim/fpga-auth/host/host-fpga.cpp:134-151 | the forty-eight host steps of the answer leave exactly the enclave's 46 bytes in shared memory, and raise the flag |
| HandshakeSchedules.TimedOutReturnsOldMemory | srsue/usim.cc:328-347 | a schedule in which the poll times out after six loads, and still polls after five: the call returns the old content of shared memory, and is right if and only if that was the right answer |
| HandshakeSchedules.TimedOutCanBeWrong | srsue/usim.cc:328-347 | from the right answer with one bit flipped, that schedule returns a wrong answer |
| HandshakeSchedules.TimelyAnswerIsSeen | vsim/fpga-auth/host/host-fpga.cpp:134-199 | a schedule in which host and enclave answer in time, the flag is seen and the answer is right |
| SharedMemory.SharedData.RaiseRequest | srsue/usim.cc:316-323 | the request fields hold the challenge, the command is to authenticate, and the flag is up |
| SharedMemory.SharedData.TakeRequest | vsim/fpga-auth/host/host-fpga.cpp:155-198 | a pass of the loop yields a message exactly for a raised authentication command and a successful allocation; the message is the request laid out, and both flags end as the branches leave them |
| SharedMemory.SharedData.SendChallengeResponse | vsim/fpga-auth/host/host-fpga.cpp:134-151 | the response fields hold the answer laid out in the 46 bytes, and the flag is up |
| SharedMemory.SharedData.PollAndCopy | srsue/usim.cc:328-347 | the flag is seen exactly when it is up and one of the first six loads is not stale, and either way the UE copies what the fields hold |
| VsimCall.VsimAnswers | vsim/fpga-auth/host/host-fpga.cpp:134-199 | host, enclave and host again: the response fields hold Milenage's answer to the request held, and the flags end as the branches leave them |
| VsimCall.GenAuthResMilenageVsim | srsue/usim.cc:275-371 | the result is a failure exactly on a first call without shared memory, and then nothing changed; otherwise eight bytes of RES, SQN xor AK, CK and IK are those of the route taken, with equal keys both routes give the same, the first call leaves the other members alone and later calls leave shared memory alone |
| VsimCall.ExchangeAnswerIsRun | srsue/usim.cc:316-356 | the call composed of the stretches of code returns what the transition system returns for the same schedule |
| Memory.Memcpy | keytone-patch/string.c:5-21 | word-at-a-time copying gives the memory of byte-at-a-time copying for every alignment, length and overlap, and a move when the destination does not start inside the source |
| Memory.ForwardCopyIsMoveIff | keytone-patch/string.c:5-21 | copying upwards moves every memory correctly if and only if the destination does not start inside the source range |
| Memory.WordStep | keytone-patch/string.c:11-15 | up to eight byte steps at once are one block copy, when the destination is not above the source or at least eight above it |
| Memory.AlignmentTest | keytone-patch/string.c:10-10 | the bit test on two numbers asks whether both are multiples of eight |
| Memory.LowByteValue | keytone-patch/string.c:37-37 | the fill byte is the argument modulo 256 |
| Memory.FillWordBytes | keytone-patch/string.c:37-40 | all eight bytes of the replicated word are the argument modulo 256 |
| Memory.Memset | keytone-patch/string.c:34-49 | both branches fill the range with the argument modulo 256 and leave the rest unchanged |
| Memory.Memmove | keytone-patch/string.c:73-90 | for every overlap the destination becomes the old source and every other byte is unchanged |
| Decimal.Ltoa | vsim/fpga-auth/eapp/fpga-auth.c:31-66 | in any buffer that text and terminator fit into, it starts with them afterwards and is otherwise unchanged |
| Decimal.ReverseInPlace | vsim/fpga-auth/eapp/fpga-auth.c:57-65 | the swapping loop reverses the first n characters and leaves the rest |
| Decimal.TextIsDecimalIff | vsim/fpga-auth/eapp/fpga-auth.c:31-66 | the text is a decimal numeral without leading zeros that parses back to the number if and only if the number is not the least long |
| Decimal.TextFits | vsim/fpga-auth/eapp/fpga-auth.c:31-66 | text and terminator take at most 21 bytes, for every long |
| Hex.LowerDigits | vsim/fpga-auth/eapp/fpga-auth.c:18-18 | the digit of a nibble is the entry of the digit table |
| Hex.RenderAt | vsim/fpga-auth/eapp/fpga-auth.c:20-24 | the two digits of byte i are at 2i and 2i + 1, the high nibble first |
| Hex.DecodeOfRender | srsue/usim.cc:596-619 | str_to_hex undoes two-digit rendering for every byte string, also after the text is put in upper case |
| Hex.RenderOfDecodeIff | srsue/usim.cc:596-619 | rendering undoes str_to_hex if and only if the text is lower-case hex of even length |
| Hex.PrintHex | vsim/fpga-auth/eapp/fpga-auth.c:17-28 | the string printed for a buffer is its lower-case text with a terminator |
| Hex.StrToHex | srsue/usim.cc:596-619 | the two cascades of branches write the decoded bytes to the front of the buffer and leave the rest |

## Left out

- Handshake.Next: the processes are values and their steps a function, because the subject is their interleaving; the member arrays of the UE and the globals of the host are fields of records there (SharedMemory has them as arrays).
- Handshake.UeNext: the first read of ak_xor_sqn, made only to log it (srsue/usim.cc:338-342), and the unmapped shared memory and exception branches of the call are left out.
- Handshake.HostNext: the unused response_ready flag, CMD_EXIT, signals and the mapping of the shared memory are left out, and so is any progress claim for the polling loops.
- HandshakeRuns.VsimRefinesLocalMilenage: claims no acceptance of an AUTN, because the call through the vSIM reports AUTH_OK on both of its branches.
- Enclave.Eapp.GenAuthResMilenage: the AUTN that the enclave rebuilds and then does not compare (usim.c:191-207) is left out.
- Enclave.Eapp.Entry: timing, debug printing and a failed allocation of the 92-byte send buffer are left out.
- MilenageCode.F2345: result pointers may be equal to one another or to an input, but not point into the middle of the same buffer.
- VsimCall.GenAuthResMilenageVsim: host and enclave run in one piece between the request and the poll, or not at all; other interleavings are those of Handshake. The static member fpga_initialized is a field of one object.
- AesContext.AesCtx.CbcEncryptBuffer: lengths are multiples of 16, as aes.h demands, and the buffer is not part of the context.
- Usim.UeUsim.GenAuthResMilenage: security_milenage_f1 and security_milenage_f2345 are not part of this model; the functions of usim.c stand for them, and logging is left out.
- Usim.UeUsim.GenAuthResXor: security_xor_f1 and security_xor_f2345 are not part of this model; they are parameters.
- Memory.Memcpy: addresses are natural numbers within one memory that starts at a multiple of eight, so pointer arithmetic that wraps around the address space is not modelled.
- Memory.Memset: the volatile qualifiers are left out.
- memcmp and strlen of string.c: they would only add easy members.
- libsodium operations, provisioning and the operator's server: their properties live in libraries that are not part of this model.
- Sockets, Keystone edge calls, key derivation after authentication, logging and time measurement: input and output, and calls into other code.
