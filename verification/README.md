# Verified models of the vendored protocol and digest libraries

This project models the hard cores of the C libraries vendored under `pkg/` (net-snmp 5.5, Digest-SHA 5.48,
Digest-SHA1 2.13 and Crypt-DES 2.05) and proves what they are for; `dafny verify dfyconfig.toml` covers every file.

* **Streaming SHA and HMAC.** `shawrite` takes any number of bits through one of three paths (direct, byte-aligned,
  bit-shifted); for every way of cutting a message into calls the state after `shafinish` is the fold of the compression
  function over the padded message of section 5.1 of FIPS 180-2. The compression function is a parameter there. The
  unrolled `sha1` and `sha256` with their rolling 16-word schedule are proved equal to the textbook loops, as is
  `sha_transform` of Digest-SHA1; put together they give SHA-1, SHA-224 and SHA-256 end to end, and the two SHA-1
  implementations agree on every message. Every constant of the textbook loops is proved to be the root the standard says
  it is, and every function is stated bit by bit. HMAC is section 2 of RFC 2104. Files `Bits`, `ShaSpec`, `ShaStream`,
  `Hmac`, `Fips180`, `FipsLaws`, `ShaTransform`, `ShaDigests`, `Sha1Info`, `Sha1Agreement`.
* **BER codec.** Parsers, forward builders into a fixed buffer, and reverse builders into a buffer that may be reallocated
  at any octet, for lengths, headers, integers, unsigned integers, Counter64 (plain and inside an Opaque), octet strings
  and object identifiers; what one list of values builds, the parsers read back, and what they make of any other form
  of length and contents is stated too. Files `BerSpec`, `BerParse`, `BerAny`, `BerForward`, `BerReverse`,
  `BerRoundTrip`.
* **Containers.** The lazily sorted binary array with its own quicksort refines a finite ordered set over whole runs; the
  sorted list, both iterators and the binary array answer alike; a chain of indexes takes an entry everywhere or nowhere,
  over whole runs too. Files `Ordered`, `QuickSort`, `BinaryArray`, `SortedList`, `ContainerIterator`,
  `ContainerAgreement`, `ContainerRun`, `ContainerChain`, `ChainRun`.
* **AgentX index registry.** The two-level linked structure is proved, link by link and for all values, to compute
  functions on rows of entries; on values that can be an index those functions keep every run in order and allocation
  exclusive (sections 7.1.2 and 7.1.3 of RFC 2741), hand out a value exactly when it is free and say which one, and for
  all others it is proved exactly when they do not.
  Files `OidOrder`, `IndexSpec`, `IndexProperties`, `AgentIndex`.
* **Event and trap dispatch.** The object monitor delivers each notification, also one raised by a callback, once to
  everybody interested when it is moved, always the highest priority due and equal ones in turn, with exact reference
  counts, while callbacks notify, register and unregister; the trap registry finds the longest matching identifier; what runs on a notification
  depends on it alone, and no handler runs without its authorization. Files `ObjectMonitor`, `TrapHandlers`,
  `TrapDispatch`.
* **DES.** Decryption and encryption undo each other for any table and any schedule; key parity bits do not matter; the
  bit twiddling is shown, bit by bit, to be the initial permutation, the expansion, the sixteen rounds, the permuted
  choices and the rotations of FIPS 46-3. Files `Des`, `DesLaws`.

`Options` and `Sequences` hold what these share.

Where the code does not meet what its documentation says, the code is followed, a lemma gives an input, and the exact
condition is proved:

| what fails | input | exact condition |
|---|---|---|
| `shawrite` adds at most one carry to its length words | `CarryLost`: 2^33 bits in one call | `AddLenExact`, kept by `Sha.Write`: right if and only if the count is below 2^32 or the low word plus the count is below 2^33 |
| `hmacopen` hashes part of a long key | `LongKeyLost`: 2^29 octets | `Hashed`: the whole key if and only if it has fewer than 2^29 octets |
| `asn_parse_int` after `asn_build_int` | `WideIntLost`: 2^32 | `IntReadBack`: the value if and only if it is in -2^31..2^32-1 |
| a number without contents takes its sign from the octet behind it | `EmptyIntReadsOn`: `02 00` | `IntReadsOwn`, `UnsignedReadsOwn`, `Counter64ReadsOwn`: independent of what follows if and only if there are contents; `IntOwnMemory`, `UnsignedOwnMemory`, `Counter64OwnMemory`: for any memory, if and only if the parse stays inside, which `IntUnreadable` and `Counter64Unreadable` spell out |
| a Counter64 with its first bit set starts from halves without their top octet | `Counter64Negative`: any such contents of one to four octets | `Counter64Negative`: two's complement modulo 2^64 if and only if it has at least five octets |
| object identifiers with a second number of 40 below 0 or 1 read back differently | `FortyDecodesDifferently` | `OidRoundTrip`: read back if and only if `InRange` |
| the two identifier builders differ | `OneAloneDiffers`: the identifier `1` | `BuildersAgree`; below length 2 only for `0` |
| the forward builder cuts long lengths to two octets | `LongContentsDiffer`: 0x10000 octets | `ForwardIsReverse`: the same object if and only if there are at most 0xFFFF octets |
| an exact lookup in a sorted list returns the next greater entry | `FindReturnsGreater` | `SortedFind`: right if and only if the key is present or nothing greater is |
| a new index behind 2^31-1 leaves the integer range | `FullRowOverflows` | `RegisterExclusive`: the range is kept if and only if the row is not used up |
| `register_index` stores differences in an int and hands out a held value again, or another than the one asked for | `HeldHandedOut`: 2^31+5 behind 0 and 10 | `HandedTwiceWhen`: if and only if the search stops short of the held value, or at a free entry a multiple of 2^32 away; never while differences fit an int (`NearIsRight`) |
| removing what was just inserted into a chain of indexes takes entries out of an index whose filter kept it out | `FilteredRemoved` | `RemoveUndoes`: the chain is as before if and only if no index that filtered the entry out holds one with an equal key |
| a callback that unregisters a watcher leaves ready placeholders pointing to it | `UnregisteredCalled` | `Monitor.Process`: a call goes through a freed registration if and only if a callback between the move and the call unregistered it |
| `unregister_index` compares stored octets and misses entries | `ReleaseMisses`: 256 behind 1 | `UnregisterWhen`: released if and only if every earlier entry compares less by octets |

Modelling choices: machine words are 64-bit longs (LP64) with truncation written out, and index values are stored with
the least significant octet first, which is what `unregister_index` compares; masks of trap views are sets of bit
numbers; compare functions are parameters that satisfy `TotalPreorder`; reallocation is a function from length to length
where no growth means failure, and `snmp_realloc` is one instance of it; callbacks of the object monitor are a script
that says what the k-th call does (notify, register or unregister); access control answers and trap handler results are parameters.
Reads beyond the memory a parser was given are an outcome of their own (`Unreadable`). Memory allocation succeeds except
where a size policy says otherwise.

## Model

| member | source | states |
|---|---|---|
| ShaSpec.PadFillsBlocks | pkg/Digest-SHA-5.48/src/sha.c:382-404 | the padded message is a whole number of blocks for every message length |
| ShaSpec.PadSays | pkg/Digest-SHA-5.48/src/sha.c:382-404 | the padded message is the message, a one, zeros, and in its last 64 or 128 bits the length |
| ShaSpec.FoldConcat | pkg/Digest-SHA-5.48/src/sha.c:289-303 | folding over a concatenation at a block boundary is folding twice |
| ShaSpec.FoldBlock | pkg/Digest-SHA-5.48/src/sha.c:293-297 | one more block of bytes is one more call of the compression function |
| ShaSpec.DigestWords | pkg/Digest-SHA-5.48/src/sha.c:225-249 | the i-th four octets of a digest, read big-endian, are the i-th word of the state |
| Bits.NatBitsValue | pkg/Digest-SHA-5.48/src/sha.c:397-402 | the w bits written of a number say it modulo 2^w |
| Bits.ByteOfValue | pkg/Digest-SHA-5.48/src/sha.c:397-402 | the octet written of a number is the number modulo 256 |
| ShaStream.AddLenExact | pkg/Digest-SHA-5.48/src/sha.c:369-372 | the four length words hold the bit count mod 2^128 if and only if at most one carry leaves the low word |
| ShaStream.CarryLost | pkg/Digest-SHA-5.48/src/sha.c:369-372 | 2^33 bits in one call leave a wrong length |
| ShaStream.FilledBits | pkg/Digest-SHA-5.48/src/sha.c:340-343 | completing a partly filled octet appends exactly the first bits of the next one, whatever stale bits were there |
| ShaStream.ShiftedBits | pkg/Digest-SHA-5.48/src/sha.c:350-359 | the shifted scratch buffer holds the caller's bits from position gap on |
| ShaStream.Window | pkg/Digest-SHA-5.48/src/sha.c:350-360 | each scratch buffer of 512 octets is a window onto exactly the unconsumed bits |
| ShaStream.LenBits | pkg/Digest-SHA-5.48/src/sha.c:397-402 | the length words written as octets are the bit count in binary, 64 or 128 bits wide |
| ShaStream.Sha.Flush | pkg/Digest-SHA-5.48/src/sha.c:318-318 | a full buffer is folded in and emptied |
| ShaStream.Sha.WholeBlocks | pkg/Digest-SHA-5.48/src/sha.c:293-297 | whole blocks are folded straight from the caller's bytes |
| ShaStream.Sha.Direct | pkg/Digest-SHA-5.48/src/sha.c:289-303 | the direct path appends exactly bitcnt bits to the message represented |
| ShaStream.Sha.Complete | pkg/Digest-SHA-5.48/src/sha.c:312-319 | filling up the block appends those bits and leaves the buffer empty |
| ShaStream.Sha.Extend | pkg/Digest-SHA-5.48/src/sha.c:321-324 | bits that do not fill the block are appended in the buffer |
| ShaStream.Sha.Bytes | pkg/Digest-SHA-5.48/src/sha.c:306-326 | the byte-aligned path appends exactly bitcnt bits |
| ShaStream.Sha.FillByte | pkg/Digest-SHA-5.48/src/sha.c:340-347 | the unaligned path first completes the current octet and flushes a full block |
| ShaStream.Sha.Shifted | pkg/Digest-SHA-5.48/src/sha.c:329-362 | the bit-shifted path appends exactly bitcnt bits |
| ShaStream.Sha.Write | pkg/Digest-SHA-5.48/src/sha.c:365-379 | every call whose bits, with those in the block, stay below 2^64 appends its bits to the message, adds their count as the carry code does and returns it; the length words stay right if and only if at most one carry leaves the low one |
| ShaStream.Sha.PutBit | pkg/Digest-SHA-5.48/src/sha.c:217-218 | setting or clearing a bit behind the buffer appends one bit to the message |
| ShaStream.Sha.PadBlock | pkg/Digest-SHA-5.48/src/sha.c:389-396 | the padding loops write a one and exactly as many zeros as the padding asks for, over one or two blocks |
| ShaStream.Sha.Finish | pkg/Digest-SHA-5.48/src/sha.c:382-404 | the final state is the fold over message, one, zeros and what the length words say, which is the padded message of the standard when they are right |
| ShaStream.Sha.Digest | pkg/Digest-SHA-5.48/src/sha.c:234-249 | every four octets, read big-endian, are one word of the chaining value, in order, up to the digest length |
| Hmac.WriteAll | pkg/Digest-SHA-5.48/src/sha.c:365-379 | any sequence of writes appends the concatenation of their bits |
| Hmac.WriteCalls | pkg/Digest-SHA-5.48/src/sha.c:365-379 | any calls, also of 2^32 bits and more, append the concatenation of their bits and add their counts; the length stays right when every call keeps it right |
| Hmac.HashCalls | pkg/Digest-SHA-5.48/src/sha.c:271-411 | for every cutting of a bit string into calls of any size the digest is that of the whole padded with what the length words say, and its hash when every call keeps them right |
| Hmac.HashChunks | pkg/Digest-SHA-5.48/src/sha.c:271-411 | for every cutting of a bit string into calls of fewer than 2^32 bits the digest is the one-shot hash of the whole |
| Hmac.XorXor | pkg/Digest-SHA-5.48/src/hmac.c:51-55 | XOR with 0x5c and then with 0x5c ^ 0x36 leaves the key XOR 0x36 |
| Hmac.XorLoop | pkg/Digest-SHA-5.48/src/hmac.c:51-52 | the loop XORs the first n octets of the buffer and leaves all others as they were |
| Hmac.PrepareKey | pkg/Digest-SHA-5.48/src/hmac.c:37-50 | the key buffer is the key, or the digest of what is hashed of one longer than a block, zero-extended |
| Hmac.KeyBlockOctets | pkg/Digest-SHA-5.48/src/hmac.c:37-50 | the key block octet by octet: the key, or the digest of one longer than 64 or 128 octets, and zeros behind it |
| Hmac.Open | pkg/Digest-SHA-5.48/src/hmac.c:20-59 | the inner object has seen the key block XOR 0x36, the outer one the key block XOR 0x5c |
| Hmac.FinishMac | pkg/Digest-SHA-5.48/src/hmac.c:68-74 | the outer digest is taken over the outer pad and the inner digest |
| Hmac.HmacChunks | pkg/Digest-SHA-5.48/src/hmac.c:20-74 | for every key and every cutting of the text the result is H((K^opad) H((K^ipad) text)) with K the key block built; for keys under 2^29 octets K is the standard's K0 |
| Hmac.Hashed | pkg/Digest-SHA-5.48/src/hmac.c:46-46 | the octets of a long key that are hashed are the whole key exactly if its bit count fits 32 bits |
| Hmac.LongKeyLost | pkg/Digest-SHA-5.48/src/hmac.c:46-46 | of a key of 2^29 octets nothing is hashed |
| ShaTransform.M1IsStep | pkg/Digest-SHA-5.48/src/sha.c:103-111 | one macro with renamed registers is one step of the textbook loop with shuffled ones |
| ShaTransform.Replace | pkg/Digest-SHA-5.48/src/sha.c:113-118 | overwriting the oldest of sixteen words with the next schedule word keeps the window rolling |
| ShaTransform.Next1 | pkg/Digest-SHA-5.48/src/sha.c:113-118 | the in-place word is word t of the 80-word schedule |
| ShaTransform.Word1 | pkg/Digest-SHA-5.48/src/sha.c:113-118 | each access yields schedule word t and keeps the last sixteen |
| ShaTransform.Sha1 | pkg/Digest-SHA-5.48/src/sha.c:86-151 | for all chaining values and blocks the transform equals the 80-step loop of section 6.1.2 of FIPS 180-2 |
| ShaTransform.M2IsStep | pkg/Digest-SHA-5.48/src/sha.c:171-173 | one macro with renamed registers is one step of SHA-256 |
| ShaTransform.Next2 | pkg/Digest-SHA-5.48/src/sha.c:175-180 | the in-place word is word t of the 64-word schedule |
| ShaTransform.FourSteps | pkg/Digest-SHA-5.48/src/sha.c:182-208 | four macros in a row are four steps of the loop |
| ShaTransform.Sha256 | pkg/Digest-SHA-5.48/src/sha.c:153-213 | for all chaining values and blocks the transform equals the 64-step loop of section 6.2.2 of FIPS 180-2, whose constants and functions FipsLaws determines |
| ShaDigests.Block1 | pkg/Digest-SHA-5.48/src/sha.c:86-151 | the unrolled transform is the compression function of the SHA-1 that is folded over blocks |
| ShaDigests.Block2 | pkg/Digest-SHA-5.48/src/sha.c:153-213 | the same for SHA-224 and SHA-256 |
| ShaDigests.DigestDetermined | pkg/Digest-SHA-5.48/src/sha.c:234-249 | a digest length of whole words leaves one digest for a message |
| ShaDigests.Sha1Digest | pkg/Digest-SHA-5.48/src/sha.c:271-411 | for every cutting into calls the 20 octets are the big-endian words of the state folded over the padded message |
| ShaDigests.Sha224Digest | pkg/Digest-SHA-5.48/src/sha.c:271-411 | the same for SHA-224, the first seven of eight words |
| ShaDigests.Sha256Digest | pkg/Digest-SHA-5.48/src/sha.c:271-411 | the same for SHA-256 |
| FipsLaws.K256Roots | pkg/Digest-SHA-5.48/src/sha.c:48-66 | every constant of SHA-256 is the first 32 bits of the fraction of the cube root of its prime, for the first 64 primes |
| FipsLaws.Init256Roots | pkg/Digest-SHA-5.48/src/sha.c:80-84 | the initial value of SHA-256: the same of the square roots of the first eight primes |
| FipsLaws.Init224Roots | pkg/Digest-SHA-5.48/src/sha.c:74-78 | the initial value of SHA-224: the second 32 bits of the fractions of the square roots of the next eight primes |
| FipsLaws.K1Roots | pkg/Digest-SHA-5.48/src/sha.c:43-46 | the constants of SHA-1 are 2^30 times the square roots of 2, 3, 5 and 10, rounded down |
| FipsLaws.Init1Octets | pkg/Digest-SHA-5.48/src/sha.c:68-72 | the octets of the initial value of SHA-1 count up and down |
| FipsLaws.RotlBits | pkg/Digest-SHA-5.48/src/sha.c:31-32 | rotating to the left moves every bit up by as many places |
| FipsLaws.BigSigma0Bits | pkg/Digest-SHA-5.48/src/sha.c:38-38 | each bit is the exclusive or of the bits 2, 13 and 22 places up |
| FipsLaws.BigSigma1Bits | pkg/Digest-SHA-5.48/src/sha.c:39-39 | the same for 6, 11 and 25 |
| FipsLaws.SmallSigma0Bits | pkg/Digest-SHA-5.48/src/sha.c:40-40 | the same for 7 and 18, and 3 without coming round |
| FipsLaws.SmallSigma1Bits | pkg/Digest-SHA-5.48/src/sha.c:41-41 | the same for 17 and 19, and 10 without coming round |
| FipsLaws.ChBits | pkg/Digest-SHA-5.48/src/sha.c:34-34 | where the first word has a one the second is chosen, elsewhere the third |
| FipsLaws.ParityBits | pkg/Digest-SHA-5.48/src/sha.c:35-35 | where two words agree the third is kept, where they differ it is turned over |
| FipsLaws.MajXY | pkg/Digest-SHA-5.48/src/sha.c:36-36 | where the first two words agree that is the majority |
| FipsLaws.MajXZ | pkg/Digest-SHA-5.48/src/sha.c:36-36 | the same for the first and the third |
| FipsLaws.MajYZ | pkg/Digest-SHA-5.48/src/sha.c:36-36 | the same for the second and the third |
| FipsLaws.BlockWords | pkg/Digest-SHA-5.48/src/sha.c:86-102 | the words of a block are its octets in big-endian order |
| FipsLaws.PadAbc | pkg/Digest-SHA-5.48/src/sha.c:382-404 | the message "abc" is padded to the block 61 62 63 80 0 .. 0 18 of the standard |
| FipsLaws.Sha1Example | pkg/Digest-SHA-5.48/src/sha.c:103-151 | steps, a schedule word and the digest of the example in appendix A.1 of FIPS 180-2 |
| FipsLaws.Sha256Example | pkg/Digest-SHA-5.48/src/sha.c:171-213 | the same of the example in appendix B.1 |
| Sha1Info.FIsStep | pkg/Digest-SHA1-2.13/SHA1.c:107-147 | one unravelled macro with six rotating registers is one textbook step |
| Sha1Info.Expand | pkg/Digest-SHA1-2.13/SHA1.c:216-221 | the expansion loop computes the 80 schedule words |
| Sha1Info.Transform | pkg/Digest-SHA1-2.13/SHA1.c:150-264 | for all chaining values and blocks the transform equals the 80-step loop |
| Sha1Info.CountAdd | pkg/Digest-SHA1-2.13/SHA1.c:287-292 | the wrap test on the low count detects exactly one carry |
| Sha1Info.Info.Update | pkg/Digest-SHA1-2.13/SHA1.c:282-316 | an update appends its bytes to the message, over partial blocks and whole ones |
| Sha1Info.PadBytes | pkg/Digest-SHA1-2.13/SHA1.c:345-371 | the byte padding with the two count words is the bit padding of the standard |
| Sha1Info.Info.Final | pkg/Digest-SHA1-2.13/SHA1.c:345-371 | the 20 bytes are the SHA-1 hash of all bytes given, in one or two final blocks |
| Sha1Agreement.InfoDigest | pkg/Digest-SHA1-2.13/SHA1.c:268-371 | for every cutting of a byte message into updates the digest is the one-shot hash |
| Sha1Agreement.BothDigests | pkg/Digest-SHA1-2.13/SHA1.c:150-371 | Digest-SHA1 and Digest-SHA give the same 20 bytes for every message and every pair of cuttings |
| Des.PermOpInvolution | pkg/Crypt-DES-2.05/_des.c:440-442 | each bit-swap applied twice is the identity |
| Des.FpIp | pkg/Crypt-DES-2.05/_des.c:459-516 | the final permutation undoes the initial one and the other way round |
| Des.DoubleRound | pkg/Crypt-DES-2.05/_des.c:389-400 | two rounds with the keys in reverse order undo two rounds |
| Des.DecUndoesEnc | pkg/Crypt-DES-2.05/_des.c:485-500 | the decrypting loop undoes any number of encrypting rounds, for any table and schedule |
| Des.EncUndoesDec | pkg/Crypt-DES-2.05/_des.c:485-500 | the encrypting loop undoes any number of decrypting rounds |
| Des.PackUnpack | pkg/Crypt-DES-2.05/_des.c:64-72 | reading octets back gives the words they were written from |
| Des.UnpackPack | pkg/Crypt-DES-2.05/_des.c:64-72 | writing words back gives the octets they were read from |
| Des.CryptInverse | pkg/Crypt-DES-2.05/_des.c:445-520 | decryption undoes encryption and encryption undoes decryption on every block for every 32-word schedule |
| Des.DesCrypt | pkg/Crypt-DES-2.05/_des.c:445-520 | the round loops compute the function that CryptInverse inverts and CryptIsDes shows to be initial permutation, sixteen rounds, exchange and inverse permutation |
| Des.Pc1RoundTrip | pkg/Crypt-DES-2.05/_des.c:553-561 | the 56 key bits can be recovered from the permuted halves |
| Des.Pc1DropsParity | pkg/Crypt-DES-2.05/_des.c:553-561 | the low bit of an octet does not reach the halves |
| Des.Pc1KeepsKeyBits | pkg/Crypt-DES-2.05/_des.c:553-561 | two keys have the same permuted halves if and only if they agree except in the low bit of each octet |
| Des.ExpandKey | pkg/Crypt-DES-2.05/_des.c:522-591 | the rotation loop computes the schedule of the key, which ScheduleAt gives round by round |
| Des.ParityBitsIgnored | pkg/Crypt-DES-2.05/_des.c:522-591 | the schedule does not depend on the low bit of any key octet |
| DesLaws.IpBits | pkg/Crypt-DES-2.05/_des.c:459-476 | every bit of the two halves after the initial permutation is the bit of the block that the table of FIPS 46-3 names |
| DesLaws.OctetBits | pkg/Crypt-DES-2.05/_des.c:64-67 | the octets of a block stand one after the other in its words |
| DesLaws.GroupBits | pkg/Crypt-DES-2.05/_des.c:389-400 | bit j of the n-th group of six is bit 4n + j of the half block, counted round its end, so that neighbours share two bits |
| DesLaws.FGroups | pkg/Crypt-DES-2.05/_des.c:389-400 | for any tables: box n looks up group n of the half block xored with the first key word if n is even, with the second if odd |
| DesLaws.OneBox | pkg/Crypt-DES-2.05/_des.c:389-400 | with a table that is zero outside box n the round function is that box's entry for its group |
| DesLaws.Join8Bits | pkg/Crypt-DES-2.05/_des.c:393-400 | what the eight boxes give is joined bit by bit |
| DesLaws.XorBit | pkg/Crypt-DES-2.05/_des.c:389-393 | key words and halves are combined by exclusive or, bit by bit |
| DesLaws.EncIsRounds | pkg/Crypt-DES-2.05/_des.c:485-492 | the encrypting loop runs the rounds of the standard, halves changing places, keys in order |
| DesLaws.DecIsRounds | pkg/Crypt-DES-2.05/_des.c:493-500 | the decrypting loop runs the same rounds with the keys in reverse order |
| DesLaws.CryptIsDes | pkg/Crypt-DES-2.05/_des.c:445-520 | the block that comes out has, after the initial permutation, the halves after sixteen rounds in exchanged order |
| DesLaws.Pc1Bits | pkg/Crypt-DES-2.05/_des.c:537-561 | every bit of the two 28-bit registers is the key bit that permuted choice 1 of FIPS 46-3 names |
| DesLaws.TurnBits | pkg/Crypt-DES-2.05/_des.c:565-570 | one turn moves every bit of a register by one place, the first one to the end |
| DesLaws.ScheduleAt | pkg/Crypt-DES-2.05/_des.c:563-589 | the key words of round i come from the registers turned in all by 1, 2, 4, 6, 8, 10, 12, 14, 15, 17, 19, 21, 23, 25, 27 or 28 bits |
| DesLaws.ChoiceBits | pkg/Crypt-DES-2.05/_des.c:573-582 | the bits each key table is asked with: all but those permuted choice 2 leaves out, each once |
| DesLaws.RoundKeyBits | pkg/Crypt-DES-2.05/_des.c:573-589 | low halves of what the tables give make the first key word, high halves the second, turned by four |
| BerSpec.SignedRoundTrip | pkg/net-snmp-5.5/snmplib/asn1.c:605-656 | the shortest two's complement octets have the value they were made from and show its sign in the first bit |
| BerSpec.SignedMinimal | pkg/net-snmp-5.5/snmplib/asn1.c:625-639 | the integer form has no nine equal leading bits |
| BerSpec.NatRoundTrip | pkg/net-snmp-5.5/snmplib/asn1.c:2622-2674 | length octets have the value they were made from |
| BerSpec.TakeBase128 | pkg/net-snmp-5.5/snmplib/asn1.c:1324-1329 | a subidentifier written in base 128 is read back exactly, whatever follows |
| BerSpec.TakeSubsOf | pkg/net-snmp-5.5/snmplib/asn1.c:1323-1346 | a list of numbers comes back if and only if there is room for it and none exceeds MAX_SUBID |
| BerSpec.OidRoundTrip | pkg/net-snmp-5.5/snmplib/asn1.c:1286-1558 | for identifiers of length at least 2 that are not refused, parsing undoes either builder if and only if all values are in range |
| BerSpec.OidDistinct | pkg/net-snmp-5.5/snmplib/asn1.c:1408-1558 | distinct identifiers in range have distinct encodings |
| BerSpec.FortyDecodesDifferently | pkg/net-snmp-5.5/snmplib/asn1.c:1452-1457 | x.40 with x below 2 passes the guard and is read back as (x+1).0 |
| BerSpec.ParseOidBound | pkg/net-snmp-5.5/snmplib/asn1.c:1286-1383 | a successful parse with capacity n yields 1 to n subidentifiers of 32 bits |
| BerSpec.BuildersAgree | pkg/net-snmp-5.5/snmplib/asn1.c:2992-3103 | forward and reverse contents are equal if and only if the stated condition on length and first number holds |
| BerSpec.OneAloneDiffers | pkg/net-snmp-5.5/snmplib/asn1.c:2992-3103 | the identifier 1 gets the contents 40 forward and 1 in reverse |
| BerParse.ParseLength | pkg/net-snmp-5.5/snmplib/asn1.c:1140-1189 | short and long lengths, indefinite, oversized and negative ones refused; LengthOfAny and LengthRefused say which of all length fields are read, and as what |
| BerParse.ParseHeader | pkg/net-snmp-5.5/snmplib/asn1.c:288-314 | tag and length, refused when the object would overrun the octets left; HeaderOfAny says for any length field when |
| BerParse.SignedRange | pkg/net-snmp-5.5/snmplib/asn1.c:498-504 | up to eight octets never leave the range of a long |
| BerParse.StaysLong | pkg/net-snmp-5.5/snmplib/asn1.c:497-504 | no value the loop of asn_parse_int computes leaves the range of a long |
| BerParse.ParseInt | pkg/net-snmp-5.5/snmplib/asn1.c:469-512 | the value is the sign-extended fold of the contents, truncated as CHECK_OVERFLOW_S does; every failure condition |
| BerParse.ParseUnsigned | pkg/net-snmp-5.5/snmplib/asn1.c:536-579 | the value is the fold modulo 2^64, truncated to 32 bits; nine octets only with a leading zero |
| BerParse.ShiftIn | pkg/net-snmp-5.5/snmplib/asn1.c:1838-1841 | shifting two 32-bit halves is one shift of the 64-bit number they make |
| BerParse.ParseHeader64 | pkg/net-snmp-5.5/snmplib/asn1.c:1795-1826 | a short Opaque that starts with a special tag is unwrapped and its inner length checked in the same way |
| BerParse.ParseCounter64 | pkg/net-snmp-5.5/snmplib/asn1.c:1779-1847 | the tag, the Opaque wrapper taken off, and two halves that make the fold of the contents modulo 2^64; every failure condition |
| BerParse.ParseString | pkg/net-snmp-5.5/snmplib/asn1.c:783-833 | the contents are copied when they fit, a terminator follows when there is room |
| BerParse.ParseSub | pkg/net-snmp-5.5/snmplib/asn1.c:1324-1329 | the inner loop reads one subidentifier up to its end |
| BerParse.ParseSubs | pkg/net-snmp-5.5/snmplib/asn1.c:1320-1352 | the outer loop stores all numbers, or fails for a cut one, a large one or want of room |
| BerParse.SplitInPlace | pkg/net-snmp-5.5/snmplib/asn1.c:1360-1376 | the first number becomes two subidentifiers, nothing else changes |
| BerParse.ParseObjid | pkg/net-snmp-5.5/snmplib/asn1.c:1286-1383 | array contents and count equal the specified parse for every array size, in all failure cases and the overrun of an empty array too |
| BerAny.LengthOfAny | pkg/net-snmp-5.5/snmplib/asn1.c:1140-1189 | every length field, of the short form or of one to eight octets with or without leading zeros, is read as the length it says, and refused exactly if that is 2^63 or more |
| BerAny.LengthRefused | pkg/net-snmp-5.5/snmplib/asn1.c:1150-1184 | the indefinite form and more than eight octets are refused whatever follows |
| BerAny.LengthCutShort | pkg/net-snmp-5.5/snmplib/asn1.c:1140-1189 | a long length with octets missing cannot be read |
| BerAny.HeaderOfAny | pkg/net-snmp-5.5/snmplib/asn1.c:288-314 | a header with any length field is taken exactly if its object fits the octets left and an int, and then with that length and place |
| BerAny.SequenceReadBack | pkg/net-snmp-5.5/snmplib/asn1.c:1100-1121 | the header asn_build_sequence writes is read back as that of its contents if and only if these have at most 0xFFFF octets |
| BerAny.IntOfAny | pkg/net-snmp-5.5/snmplib/asn1.c:469-512 | what an integer with any length field and any contents parses to, whatever follows it |
| BerAny.UnsignedOfAny | pkg/net-snmp-5.5/snmplib/asn1.c:536-579 | the same for unsigned integers |
| BerAny.Counter64OfAny | pkg/net-snmp-5.5/snmplib/asn1.c:1779-1847 | the same for 64-bit counters that are not Opaque |
| BerAny.StringOfAny | pkg/net-snmp-5.5/snmplib/asn1.c:783-833 | the same for octet strings |
| BerAny.OpaqueStays | pkg/net-snmp-5.5/snmplib/asn1.c:1795-1826 | an Opaque of more than twelve octets, or one that does not begin with 9F 76 or 9F 7B, is not unwrapped |
| BerAny.OpaqueUnwraps | pkg/net-snmp-5.5/snmplib/asn1.c:1795-1826 | one that does, with any inner length field, is unwrapped exactly if its contents fit |
| BerAny.TruncatedSigned | pkg/net-snmp-5.5/snmplib/asn1.c:469-512 | what fits 32 bits is kept; a larger value keeps its residue modulo 2^32, a smaller one that of its opposite |
| BerAny.TruncatedUnsigned | pkg/net-snmp-5.5/snmplib/asn1.c:536-579 | the truncated value is the remainder modulo 2^32 |
| BerAny.SubOfAny | pkg/net-snmp-5.5/snmplib/asn1.c:1324-1329 | a subidentifier of any number of octets, leading zeros or not, is read as their value in base 128 modulo 2^64 |
| BerAny.SubCut | pkg/net-snmp-5.5/snmplib/asn1.c:1324-1329 | octets that all announce another one are taken to the last |
| BerAny.SubsOfAny | pkg/net-snmp-5.5/snmplib/asn1.c:1320-1352 | any list of subidentifiers is read as their values exactly if there is room for all, each fits 32 bits and the last one ends; otherwise it fails |
| BerAny.SplitLaw | pkg/net-snmp-5.5/snmplib/asn1.c:1360-1376 | forty times the first part plus the second makes the first number again, the first at most 2 and the second below 40 unless the first is 2 |
| BerAny.ObjidOfAny | pkg/net-snmp-5.5/snmplib/asn1.c:1286-1383 | what an object identifier with any length field and any contents parses to, and when it fails |
| BerAny.SmallArray | pkg/net-snmp-5.5/snmplib/asn1.c:1286-1383 | one entry is too small for any contents; an array of none is overrun exactly by a first number that ends and fits 32 bits |
| BerAny.NoContents | pkg/net-snmp-5.5/snmplib/asn1.c:1286-1383 | an identifier without contents is read as 0, if there is room for two entries |
| BerForward.ForwardLengthExact | pkg/net-snmp-5.5/snmplib/asn1.c:1211-1259 | the forward length field is the BER length if and only if it is at most 0xFFFF |
| BerForward.MinimalUnique | pkg/net-snmp-5.5/snmplib/asn1.c:625-639 | an octet string without nine equal leading bits is the only such form of its value |
| BerForward.Shrink | pkg/net-snmp-5.5/snmplib/asn1.c:631-639 | the mask loop strips the word to the shortest form of its value |
| BerForward.EmitWord | pkg/net-snmp-5.5/snmplib/asn1.c:645-652 | the output loop writes the first octets of the word and nothing else |
| BerForward.BuildLength | pkg/net-snmp-5.5/snmplib/asn1.c:1211-1259 | succeeds exactly when the octets fit and writes only inside the room |
| BerForward.BuildHeader | pkg/net-snmp-5.5/snmplib/asn1.c:1058-1075 | succeeds exactly when tag and length fit and writes exactly them |
| BerForward.BuildSequence | pkg/net-snmp-5.5/snmplib/asn1.c:1100-1121 | succeeds exactly when four octets fit, writes the tag, 82 and the low 16 bits of the length, and nothing else |
| BerForward.ForwardLengthSays | pkg/net-snmp-5.5/snmplib/asn1.c:1211-1259 | the forward length field says the length, or its low sixteen bits if it has more |
| BerForward.BuildInt | pkg/net-snmp-5.5/snmplib/asn1.c:605-656 | succeeds exactly when the object fits and writes the shortest form of the truncated value |
| BerForward.BuildUnsigned | pkg/net-snmp-5.5/snmplib/asn1.c:683-752 | the same for unsigned values |
| BerForward.BuildWord | pkg/net-snmp-5.5/snmplib/asn1.c:706-748 | for any 64-bit word, with the null octet before a set first bit |
| BerForward.BuildString | pkg/net-snmp-5.5/snmplib/asn1.c:858-906 | succeeds exactly when the object fits; zeros for a null string |
| BerForward.SubOctetsFirst | pkg/net-snmp-5.5/snmplib/asn1.c:1473-1546 | a first number sized after truncation and written without it takes the octets ForwardFirst gives |
| BerForward.SizeAll | pkg/net-snmp-5.5/snmplib/asn1.c:1471-1494 | the sizing loop finds the octets of each subidentifier and of all |
| BerForward.EmitAll | pkg/net-snmp-5.5/snmplib/asn1.c:1507-1547 | the output loop writes exactly the sized octets of every subidentifier |
| BerForward.BuildObjid | pkg/net-snmp-5.5/snmplib/asn1.c:1408-1558 | succeeds exactly for identifiers not refused, of at most 128 subidentifiers, that fit; writes exactly their octets |
| BerReverse.Packet.Realloc | pkg/net-snmp-5.5/snmplib/asn1.c:2580-2604 | a longer buffer ends with the old octets; on failure nothing changes |
| BerReverse.Packet.RuleGrows | pkg/net-snmp-5.5/snmplib/tools.c:120-151 | under snmp_realloc the buffer always grows, by 256 to 8192 octets |
| BerReverse.Packet.Put | pkg/net-snmp-5.5/snmplib/asn1.c:2632-2641 | one octet goes in front, with reallocation at any point; the octets already written stay the end |
| BerReverse.Packet.BuildLength | pkg/net-snmp-5.5/snmplib/asn1.c:2622-2674 | all BER length octets go in front or the call fails for want of room |
| BerReverse.Packet.BuildHeader | pkg/net-snmp-5.5/snmplib/asn1.c:2693-2714 | tag and length go in front |
| BerReverse.PushStep | pkg/net-snmp-5.5/snmplib/asn1.c:2751-2776 | what is left and what is out together always make the shortest form |
| BerReverse.Packet.PutInteger | pkg/net-snmp-5.5/snmplib/asn1.c:2749-2776 | the octet loop with its sign octet emits the shortest form of every integer |
| BerReverse.Packet.BuildInt | pkg/net-snmp-5.5/snmplib/asn1.c:2733-2793 | the whole object or failure for want of room; without reallocation success is exactly enough room; old octets end the packet |
| BerReverse.Packet.BuildString | pkg/net-snmp-5.5/snmplib/asn1.c:2813-2869 | the same for octet strings |
| BerReverse.Packet.BuildUnsigned | pkg/net-snmp-5.5/snmplib/asn1.c:2888-2946 | the same for unsigned integers |
| BerReverse.Packet.PutSub | pkg/net-snmp-5.5/snmplib/asn1.c:3041-3056 | one subidentifier goes in front in base 128 |
| BerReverse.Packet.PutTail | pkg/net-snmp-5.5/snmplib/asn1.c:3037-3057 | all subidentifiers after the second, last one first |
| BerReverse.Packet.BuildObjid | pkg/net-snmp-5.5/snmplib/asn1.c:2992-3103 | the same for identifiers; a refused one fails and leaves the old octets as the end |
| BerReverse.Packet.PutHalves | pkg/net-snmp-5.5/snmplib/asn1.c:3260-3325 | two 32-bit halves come out as the shortest form of the 64-bit number |
| BerReverse.Packet.Wrap | pkg/net-snmp-5.5/snmplib/asn1.c:3333-3384 | the special tag, the inner length and the Opaque header go in front of the contents, or the call fails for want of room |
| BerReverse.Packet.BuildCounter64 | pkg/net-snmp-5.5/snmplib/asn1.c:3238-3401 | the same as a whole object, wrapped in an Opaque for the two special tags |
| BerRoundTrip.HeaderReadBack | pkg/net-snmp-5.5/snmplib/asn1.c:288-314 | a header in front of its contents is read back and points at them |
| BerRoundTrip.IntReadBack | pkg/net-snmp-5.5/snmplib/asn1.c:469-656 | parse after build gives the value truncated twice, which is the value if and only if it is in -2^31..2^32-1 |
| BerRoundTrip.WideIntLost | pkg/net-snmp-5.5/snmplib/asn1.c:469-656 | 2^32 does not come back |
| BerRoundTrip.UnsignedReadBack | pkg/net-snmp-5.5/snmplib/asn1.c:536-752 | parse after build gives the value if and only if it fits 32 bits |
| BerRoundTrip.Counter64ReadBack | pkg/net-snmp-5.5/snmplib/asn1.c:1779-1847 | parse after reverse build gives the 64-bit number of the truncated halves |
| BerRoundTrip.WrappedReadBack | pkg/net-snmp-5.5/snmplib/asn1.c:1805-1824 | a counter inside an Opaque is found under its special tag |
| BerRoundTrip.Counter64ObjectReadBack | pkg/net-snmp-5.5/snmplib/asn1.c:1779-1847 | whatever the tag, parse after reverse build gives the halves, unchanged if and only if both fit 32 bits |
| BerRoundTrip.Counter64Negative | pkg/net-snmp-5.5/snmplib/asn1.c:1828-1841 | contents with the first bit set have their two's complement value modulo 2^64 if and only if there are at least five octets |
| BerRoundTrip.HeaderUnreadable | pkg/net-snmp-5.5/snmplib/asn1.c:288-314 | a header runs out of memory exactly when tag, length octet or announced length octets are missing |
| BerRoundTrip.IntUnreadable | pkg/net-snmp-5.5/snmplib/asn1.c:469-579 | a number runs out of memory exactly in its header or when it is empty and ends the memory |
| BerRoundTrip.Counter64Unreadable | pkg/net-snmp-5.5/snmplib/asn1.c:1779-1847 | the same for a counter, with the octets looked at in a short Opaque |
| BerRoundTrip.IntOwnMemory | pkg/net-snmp-5.5/snmplib/asn1.c:469-512 | for any memory, nothing behind it can change the parsed integer if and only if the parse stays inside |
| BerRoundTrip.UnsignedOwnMemory | pkg/net-snmp-5.5/snmplib/asn1.c:536-579 | the same for unsigned integers |
| BerRoundTrip.Counter64OwnMemory | pkg/net-snmp-5.5/snmplib/asn1.c:1779-1847 | the same for 64-bit counters, Opaque or not |
| BerRoundTrip.IntReadsOwn | pkg/net-snmp-5.5/snmplib/asn1.c:497-504 | the value of an integer is independent of what follows it if and only if it has contents |
| BerRoundTrip.UnsignedReadsOwn | pkg/net-snmp-5.5/snmplib/asn1.c:536-579 | the same for unsigned integers |
| BerRoundTrip.Counter64ReadsOwn | pkg/net-snmp-5.5/snmplib/asn1.c:1828-1841 | the same for 64-bit counters that are not Opaque |
| BerRoundTrip.EmptyIntReadsOn | pkg/net-snmp-5.5/snmplib/asn1.c:497-504 | an INTEGER without contents takes its value from the octet behind it |
| BerRoundTrip.StringReadBack | pkg/net-snmp-5.5/snmplib/asn1.c:783-906 | a string comes back if it fits the result buffer and fails otherwise |
| BerRoundTrip.ObjidReadBack | pkg/net-snmp-5.5/snmplib/asn1.c:1286-1383 | an identifier object comes back if and only if it is in range |
| BerRoundTrip.EncodeTag | pkg/net-snmp-5.5/snmplib/asn1.c:2733-3401 | the first octet of every encoding is the tag of the standard |
| BerRoundTrip.ValueReadBack | pkg/net-snmp-5.5/snmplib/asn1.c:469-1847 | a value of any type is read back if and only if it is in range and fits, and then exactly its octets are used |
| BerRoundTrip.ForwardIsReverse | pkg/net-snmp-5.5/snmplib/asn1.c:1211-1259 | forward and reverse builders emit the same object for the same contents if and only if these have at most 0xFFFF octets |
| BerRoundTrip.LongContentsDiffer | pkg/net-snmp-5.5/snmplib/asn1.c:1211-1259 | contents of 0x10000 octets get different objects |
| BerRoundTrip.ObjidObjectsAgree | pkg/net-snmp-5.5/snmplib/asn1.c:1408-1558 | for every identifier of at most 128 numbers that is not refused, both builders emit the same object if and only if the stated condition on its first number holds; so for every one in range |
| BerRoundTrip.ListReadBack | pkg/net-snmp-5.5/snmplib/asn1.c:2580-3401 | every list of values is read back from its encoding, whatever follows it in memory, if and only if every value is in range and fits the result buffers |
| BerRoundTrip.BuildList | pkg/net-snmp-5.5/snmplib/asn1.c:2580-3401 | a list built back to front is its encoding in front of the old octets, which never change |
| BerRoundTrip.BuildAndParse | pkg/net-snmp-5.5/snmplib/asn1.c:2580-3401 | with reallocation at any octet the encoding goes in front of the old octets or the build fails for want of room, without reallocation exactly then; parsing the octets written returns the same list if and only if all values are sound |
| Ordered.WalkVisitsAll | pkg/net-snmp-5.5/snmplib/container_iterator.c:132-277 | asking for the next entry from no key on visits every entry exactly once in ascending order |
| Ordered.FindUnique | pkg/net-snmp-5.5/snmplib/container_iterator.c:77-123 | with unique keys an exact lookup has one right answer |
| Ordered.NextUnique | pkg/net-snmp-5.5/snmplib/container_iterator.c:132-277 | with unique keys a search for the next entry has one right answer |
| QuickSort.Turn | pkg/net-snmp-5.5/snmplib/container_binary_array.c:68-86 | one pass keeps both sides bounded by the pivot, keeps a sentinel for each scan, and makes progress |
| QuickSort.Partition | pkg/net-snmp-5.5/snmplib/container_binary_array.c:64-86 | both parts are strictly shorter than the whole and bounded by the pivot; the entries are only rearranged |
| QuickSort.Sort | pkg/net-snmp-5.5/snmplib/container_binary_array.c:58-93 | terminates with the stretch sorted, a permutation of what it was, and everything outside unchanged |
| BinaryArray.PermKeeps | pkg/net-snmp-5.5/snmplib/container_binary_array.c:95-117 | sorting changes neither the set of entries nor the uniqueness of keys |
| BinaryArray.Probe | pkg/net-snmp-5.5/snmplib/container_binary_array.c:135-159 | the halving loop finds the first entry not below the key |
| BinaryArray.BinarySearch | pkg/net-snmp-5.5/snmplib/container_binary_array.c:119-173 | the index of the equal entry, or of the first greater one, or -1 exactly when there is none |
| BinaryArray.SearchStart | pkg/net-snmp-5.5/snmplib/container_binary_array.c:389-422 | the first entry ncompare accepts, for an ncompare that follows the order |
| BinaryArray.Table.SortArray | pkg/net-snmp-5.5/snmplib/container_binary_array.c:95-117 | a dirty table becomes sorted, its set unchanged |
| BinaryArray.Table.Get | pkg/net-snmp-5.5/snmplib/container_binary_array.c:225-252 | exact lookup, next entry or first entry of the set |
| BinaryArray.Table.Insert | pkg/net-snmp-5.5/snmplib/container_binary_array.c:335-382 | an equal key is refused, otherwise the set grows by the entry |
| BinaryArray.Table.Reserve | pkg/net-snmp-5.5/snmplib/container_binary_array.c:356-374 | growth keeps the entries and their order |
| BinaryArray.Table.Remove | pkg/net-snmp-5.5/snmplib/container_binary_array.c:254-299 | exactly the equal entry leaves; the result code, 0 for an empty table |
| BinaryArray.Table.Clear | pkg/net-snmp-5.5/snmplib/container_binary_array.c:316-333 | the set becomes empty |
| BinaryArray.Table.GetSubset | pkg/net-snmp-5.5/snmplib/container_binary_array.c:424-463 | exactly the accepted entries, ascending, as one stretch of the table |
| ContainerRun.Run | pkg/net-snmp-5.5/snmplib/container_binary_array.c:119-382 | every run of insert, find, find_next, remove and clear is a run of a finite ordered set, answer for answer |
| ContainerRun.RunDetermined | pkg/net-snmp-5.5/snmplib/container_binary_array.c:119-382 | the set alone determines all answers of a run |
| SortedList.SortedFind | pkg/net-snmp-5.5/snmplib/container_list_ssll.c:57-90 | an exact lookup in a sorted list is right if and only if the key is present or nothing greater is |
| SortedList.FindReturnsGreater | pkg/net-snmp-5.5/snmplib/container_list_ssll.c:57-90 | a list of 2 asked for exactly 1 answers 2 |
| SortedList.List.Get | pkg/net-snmp-5.5/snmplib/container_list_ssll.c:57-90 | the entry returned is the first at which the scan stops, exactly; right or not as above, right when unsorted; the next entry of a sorted list; the head without a key |
| SortedList.List.Insert | pkg/net-snmp-5.5/snmplib/container_list_ssll.c:124-191 | order is kept and the entry goes behind all that are not greater, equal ones too; keys stay unique if and only if the key was absent; tail or head when unsorted |
| SortedList.DuplicateBehind | pkg/net-snmp-5.5/snmplib/container_list_ssll.c:57-191 | after a duplicate went in, an exact lookup still finds the entry it found before |
| SortedList.List.Remove | pkg/net-snmp-5.5/snmplib/container_list_ssll.c:193-240 | exactly the first equal entry leaves, or the head without a key; result codes exactly |
| ContainerIterator.Find | pkg/net-snmp-5.5/snmplib/container_iterator.c:77-123 | the scan is an exact lookup, sorted or not |
| ContainerIterator.FindNext | pkg/net-snmp-5.5/snmplib/container_iterator.c:132-277 | the scan finds the least entry above the key, sorted or not, for unique keys |
| ContainerAgreement.NextEverywhere | pkg/net-snmp-5.5/snmplib/container_iterator.c:132-277 | binary array, sorted list, sorted and unsorted iterator give the same next entry |
| ContainerAgreement.FindEverywhere | pkg/net-snmp-5.5/snmplib/container_iterator.c:77-123 | exact lookups agree, the sorted list exactly unless the key is absent and something greater present |
| ContainerAgreement.WalkTable | pkg/net-snmp-5.5/snmplib/container_binary_array.c:225-252 | repeated find_next enumerates the set once in ascending order |
| ContainerChain.InsertFrom | pkg/net-snmp-5.5/snmplib/container.c:294-311 | all accepting indexes take the entry or, after rollback, every index holds what it held; success exactly when all keys are free |
| ContainerChain.Insert | pkg/net-snmp-5.5/snmplib/container.c:317-323 | all or nothing over the chain; filterless equal indexes stay equal |
| ContainerChain.Remove | pkg/net-snmp-5.5/snmplib/container.c:329-348 | each index loses exactly the equal entry; result code; filterless equal indexes stay equal for a stored entry |
| ChainRun.Run | pkg/net-snmp-5.5/snmplib/container.c:294-348 | every run of inserts and removes over a chain is a run of its sets, one for each index, code for code |
| ChainRun.RunKeyed | pkg/net-snmp-5.5/snmplib/container.c:294-348 | keys stay unique in every index all through a run |
| ChainRun.RunUniform | pkg/net-snmp-5.5/snmplib/container.c:294-348 | equal indexes without filters are equal all through a run that removes only stored entries |
| ChainRun.RemoveUndoes | pkg/net-snmp-5.5/snmplib/container.c:329-348 | a remove undoes an insert if and only if no index that filtered the entry out holds one with an equal key |
| ChainRun.FilteredRemoved | pkg/net-snmp-5.5/snmplib/container.c:329-348 | an index that filtered 2 out loses its 1, which has an equal key, when 2 is removed |
| OidOrder.Compare | pkg/net-snmp-5.5/snmplib/snmp_api.c:6631-6670 | the loop decides lexicographic order |
| OidOrder.CompareSubtree | pkg/net-snmp-5.5/snmplib/snmp_api.c:6741-6748 | zero if and only if the first identifier is a prefix of the second |
| OidOrder.LessTotal | pkg/net-snmp-5.5/snmplib/snmp_api.c:6631-6670 | exactly one of less, equal and greater holds |
| OidOrder.LessExact | pkg/net-snmp-5.5/snmplib/snmp_api.c:6631-6670 | one identifier is less exactly if behind a common beginning it ends or goes on with a smaller number |
| OidOrder.LongerPrefix | pkg/net-snmp-5.5/snmplib/snmp_api.c:6741-6748 | of two prefixes of one identifier the longer is the greater |
| IndexSpec.ToIntRight | pkg/net-snmp-5.5/agent/agent_index.c:220-248 | a difference stored in an int has the right sign if and only if it fits |
| IndexSpec.PlaceIsValueAt | pkg/net-snmp-5.5/agent/agent_index.c:220-248 | while all differences fit an int the search by int differences stops at the first entry not below the value |
| IndexSpec.OctetsLessExact | pkg/net-snmp-5.5/agent/agent_index.c:522-529 | stored numbers compare by the first octet, from the least significant one on, in which they differ |
| IndexProperties.RegisterExclusive | pkg/net-snmp-5.5/agent/agent_index.c:156-451 | in a tidy registry: well-formedness is kept; order and range are kept if and only if no row is used up; the value handed out is the one asked for, is held by nobody, new ones are absent, and no other entry changes |
| IndexProperties.RegisterWhen | pkg/net-snmp-5.5/agent/agent_index.c:156-451 | in a tidy registry an integer asked for is refused if and only if it is held; any or a new integer is never refused |
| IndexProperties.RegisterValue | pkg/net-snmp-5.5/agent/agent_index.c:156-451 | which value is handed out: the one asked for; 1 for a name without values; for any value the least free one; otherwise one above the greatest |
| IndexProperties.RegisterOther | pkg/net-snmp-5.5/agent/agent_index.c:190-451 | other types: exactly when an entry is handed out; never one of another type than the name has |
| IndexProperties.RegisterWellFormed | pkg/net-snmp-5.5/agent/agent_index.c:156-451 | for any registry and any request the registry stays well formed, and unchanged when nothing is handed out |
| IndexProperties.HandedTwiceWhen | pkg/net-snmp-5.5/agent/agent_index.c:220-280 | for any values: a held value is handed out again if and only if it is asked for and the search stops short of it; another value than the one asked for if and only if the search stops at a free entry with int difference zero |
| IndexProperties.NearIsRight | pkg/net-snmp-5.5/agent/agent_index.c:220-248 | while all differences fit an int neither happens |
| IndexProperties.HeldHandedOut | pkg/net-snmp-5.5/agent/agent_index.c:220-248 | 2^31+5, held behind 0 and 10, is handed out a second time |
| IndexProperties.FullRowOverflows | pkg/net-snmp-5.5/agent/agent_index.c:156-451 | a row that ends in 2^31-1 hands out 2^31, out of range |
| IndexProperties.UnregisterWhen | pkg/net-snmp-5.5/agent/agent_index.c:505-534 | for any registry and any long: release succeeds if and only if the session holds the value and every earlier entry of the row compares less by octets |
| IndexProperties.UnregisterCodes | pkg/net-snmp-5.5/agent/agent_index.c:488-572 | for any registry and any long the result is 0, -2, -3 or -4 exactly when the value is released, of another type, not found or held by another session |
| IndexProperties.ReleaseMisses | pkg/net-snmp-5.5/agent/agent_index.c:522-532 | 256 registered behind 1 cannot be released |
| IndexProperties.UnregisterExact | pkg/net-snmp-5.5/agent/agent_index.c:488-572 | a release changes exactly the entry asked for, a failed one nothing; the registry stays well formed |
| IndexProperties.UnregisterWellFormed | pkg/net-snmp-5.5/agent/agent_index.c:488-572 | for any registry and any value a release keeps the registry well formed |
| IndexProperties.ReleaseSessionExact | pkg/net-snmp-5.5/agent/agent_index.c:473-485 | exactly the session's entries become free and stay in their places, held by nobody; every other entry stays as it was |
| IndexProperties.RunStaysGood | pkg/net-snmp-5.5/agent/agent_index.c:156-572 | every registry a run passes through is well formed, in order and in range |
| AgentIndex.Registry.FindRow | pkg/net-snmp-5.5/agent/agent_index.c:178-188 | the walk over row heads stops at the first row not before the name |
| AgentIndex.FindFree | pkg/net-snmp-5.5/agent/agent_index.c:206-218 | the first unused entry, or the last entry of the row |
| AgentIndex.FindValue | pkg/net-snmp-5.5/agent/agent_index.c:220-248 | the search by differences stored in an int, for any values |
| AgentIndex.FindOctets | pkg/net-snmp-5.5/agent/agent_index.c:522-529 | the search by stored octets, for any values |
| AgentIndex.Retarget | pkg/net-snmp-5.5/agent/agent_index.c:442-446 | every node of the row points to the new next row |
| AgentIndex.Registry.LinkAfter | pkg/net-snmp-5.5/agent/agent_index.c:429-432 | a node spliced into a row keeps all links and shows as its entry |
| AgentIndex.Registry.LinkFirst | pkg/net-snmp-5.5/agent/agent_index.c:433-449 | a new row head is what the row in front, or the registry, points to |
| AgentIndex.Registry.LinkRow | pkg/net-snmp-5.5/agent/agent_index.c:433-449 | a new row is linked between its neighbours |
| AgentIndex.Registry.Register | pkg/net-snmp-5.5/agent/agent_index.c:156-451 | for any registry and any value the linked structure changes as the specified registration, of which RegisterWhen and RegisterValue say when it succeeds and with which value; all links kept and all nodes distinct |
| AgentIndex.Registry.Unlink | pkg/net-snmp-5.5/agent/agent_index.c:552-570 | removal keeps all links, a row of one entry goes away whole |
| AgentIndex.Registry.Unregister | pkg/net-snmp-5.5/agent/agent_index.c:488-572 | for any registry and any value the linked structure changes as the specified release and returns its code |
| AgentIndex.Registry.UnregisterBySession | pkg/net-snmp-5.5/agent/agent_index.c:473-485 | both loops free exactly the session's entries, links unchanged |
| ObjectMonitor.Monitor.InsertWatcher | pkg/net-snmp-5.5/agent/object_monitor.c:441-508 | the registry becomes the specified one: priority order and uniqueness kept, a new watcher behind those of equal priority, a twin refused with -57 and nothing changed, other objects untouched |
| ObjectMonitor.RegisteredExact | pkg/net-snmp-5.5/agent/object_monitor.c:441-508 | a registration adds exactly one watcher to one object, or changes nothing for a twin |
| ObjectMonitor.UnregisteredExact | pkg/net-snmp-5.5/agent/object_monitor.c:200-239 | exactly the watcher named leaves |
| ObjectMonitor.Monitor.UnregisterWatcher | pkg/net-snmp-5.5/agent/object_monitor.c:200-239 | the registry loses exactly the watcher named, success if and only if there is one; exactly the ready placeholders that refer to it are left without a watcher |
| ObjectMonitor.InterestedAtEntry | pkg/net-snmp-5.5/agent/object_monitor.c:598-668 | a notification went to exactly those registered when it was moved that want it; whoever was registered at the start, was not unregistered by then and wants it is among them |
| ObjectMonitor.FirstWanting | pkg/net-snmp-5.5/agent/object_monitor.c:528-560 | the first watcher interested in the event |
| ObjectMonitor.ReadyPlace | pkg/net-snmp-5.5/agent/object_monitor.c:565-590 | the place behind exactly those of at least equal priority |
| ObjectMonitor.WantingOnce | pkg/net-snmp-5.5/agent/object_monitor.c:632-664 | each interested watcher is found exactly once |
| ObjectMonitor.LedgerMoved | pkg/net-snmp-5.5/agent/object_monitor.c:598-668 | moving a notification owes it once to each watcher interested now and to nobody else |
| ObjectMonitor.Monitor.NotifyMonitor | pkg/net-snmp-5.5/agent/object_monitor.c:265-278 | the notification waits first, with no references |
| ObjectMonitor.Monitor.InsertReady | pkg/net-snmp-5.5/agent/object_monitor.c:650-662 | one placeholder more and one reference more |
| ObjectMonitor.Monitor.MoveOne | pkg/net-snmp-5.5/agent/object_monitor.c:605-665 | one notification goes to exactly the watchers interested at that moment, which the table of moves records; references, ledger and earlier choices kept |
| ObjectMonitor.Monitor.MovePending | pkg/net-snmp-5.5/agent/object_monitor.c:598-668 | nothing waits afterwards, everything that waited went to those interested now, earlier moves are kept |
| ObjectMonitor.ChosenMoved | pkg/net-snmp-5.5/agent/object_monitor.c:598-668 | moving a later notification disturbs no earlier choice |
| ObjectMonitor.QuietDescends | pkg/net-snmp-5.5/agent/object_monitor.c:302-360 | while nothing new is raised, deliveries come in descending priority |
| ObjectMonitor.Monitor.CallOne | pkg/net-snmp-5.5/agent/object_monitor.c:324-354 | with nothing waiting, a callback of highest priority among all ready ones is called; its notification is freed exactly with its last placeholder |
| ObjectMonitor.Monitor.Turn | pkg/net-snmp-5.5/agent/object_monitor.c:320-356 | one callback is called, does its actions, and all it raised goes to exactly the watchers interested then; exactly the placeholders of watchers it unregistered lose them |
| ObjectMonitor.Monitor.Process | pkg/net-snmp-5.5/agent/object_monitor.c:302-360 | for any script of callbacks: nothing waits or is ready at the end and all counters are zero; notifications and registry are what the callbacks made them; every notification was moved, went to exactly those interested after the callback that raised it, and was delivered exactly once to each; every delivery had the highest priority of all due then; a call goes through a freed registration if and only if a callback between the move and the call unregistered it; those waiting were moved first and then what each callback raised, the last raised first each time; deliveries of equal priority come in the order of the moves and, within one, of the registry |
| ObjectMonitor.TiesOfOne | pkg/net-snmp-5.5/agent/object_monitor.c:302-360 | of two watchers of equal priority a notification went to, the one that stands first in the registry was called first |
| ObjectMonitor.TiesOfTwo | pkg/net-snmp-5.5/agent/object_monitor.c:302-360 | of two notifications whose watchers have equal priority, the one moved first was delivered first |
| ObjectMonitor.Monitor.Act | pkg/net-snmp-5.5/agent/object_monitor.c:320-356 | what one action of a callback changes: it raises a notification, registers or unregisters a watcher, and nothing else |
| ObjectMonitor.SharesBits | pkg/net-snmp-5.5/agent/object_monitor.c:528-560 | a watcher is interested if and only if its mask and the event have a bit in common: bit by bit over joined events, never for none |
| ObjectMonitor.MaskedShares | pkg/net-snmp-5.5/agent/object_monitor.c:528-560 | the test of the code finds exactly that |
| ObjectMonitor.UnregisteredCalled | pkg/net-snmp-5.5/agent/object_monitor.c:302-360 | a watcher unregistered by the callback before its own is called all the same |
| TrapHandlers.FirstIsLongest | pkg/net-snmp-5.5/apps/snmptrapd_handlers.c:555-596 | in a descending registry an earlier match is the longer one |
| TrapHandlers.MatchesWhen | pkg/net-snmp-5.5/apps/snmptrapd_handlers.c:555-596 | a handler takes the trap it names unless it wants strictly those below, the ones below it exactly if it is for a tree, and no others |
| TrapHandlers.ChainUnique | pkg/net-snmp-5.5/apps/snmptrapd_handlers.c:440-492 | an identifier has one chain |
| TrapHandlers.AnswerUnique | pkg/net-snmp-5.5/apps/snmptrapd_handlers.c:543-604 | there is one chain of the longest matching identifier: the answer for a trap is determined |
| TrapHandlers.Handlers.Add | pkg/net-snmp-5.5/apps/snmptrapd_handlers.c:413-495 | chain heads stay strictly descending; the handler ends the chain of its identifier; other chains are unchanged |
| TrapHandlers.Handlers.AddGlobal | pkg/net-snmp-5.5/apps/snmptrapd_handlers.c:357-397 | in front of the named list, the others unchanged |
| TrapHandlers.Handlers.Get | pkg/net-snmp-5.5/apps/snmptrapd_handlers.c:543-604 | the chain of the longest matching identifier, the default list if and only if none matches, nothing for an empty identifier |
| TrapDispatch.ListsRunCovered | pkg/net-snmp-5.5/apps/snmptrapd_handlers.c:1037-1055 | under the granted mask no handler runs whose authtypes it does not cover, and the mask stays |
| TrapDispatch.ListRunAll | pkg/net-snmp-5.5/apps/snmptrapd_handlers.c:1045-1054 | when nobody stops early every covered handler of a list runs |
| TrapDispatch.ListRunExact | pkg/net-snmp-5.5/apps/snmptrapd_handlers.c:1045-1054 | under a mask nobody changes: exactly the allowed handlers up to the first that ends the list run, in order; everything is over exactly if that one says so |
| TrapDispatch.GrantedSteady | pkg/net-snmp-5.5/apps/snmptrapd_auth.c:115-139 | the mask of what is granted is one that no handler changes |
| TrapDispatch.ListsRunJoin | pkg/net-snmp-5.5/apps/snmptrapd_handlers.c:1037-1055 | a break ends its own list only, a finish all of them |
| TrapDispatch.GrantedViews | pkg/net-snmp-5.5/apps/snmptrapd_auth.c:113-148 | eight views are looked at, and among them those for logging, executing and forwarding, 3, 4 and 5 |
| TrapDispatch.GuardedRun | pkg/net-snmp-5.5/apps/snmptrapd_handlers.c:1037-1055 | behind the authorization handler the rest runs under exactly what is granted, or nothing does |
| TrapDispatch.OneRun | pkg/net-snmp-5.5/apps/snmptrapd_handlers.c:1037-1055 | the four stages of one notification run the same handlers whatever the mask was |
| TrapDispatch.Daemon.TrapdAuth | pkg/net-snmp-5.5/apps/snmptrapd_auth.c:50-148 | passes exactly for a legal, converted and identified notification that is granted one of eight views, with exactly the granted views as mask; otherwise it is finished and the mask untouched; turned off, everything passes |
| TrapDispatch.Daemon.CheckAuth | pkg/net-snmp-5.5/apps/snmptrapd_auth.c:154-168 | exactly the authtypes within the mask pass, or all when authorization is turned off |
| TrapDispatch.Daemon.RunList | pkg/net-snmp-5.5/apps/snmptrapd_handlers.c:1045-1054 | for any configuration the handlers run are those specified, in order, with skip, break and finish, under the mask as they change it |
| TrapDispatch.Daemon.Dispatch | pkg/net-snmp-5.5/apps/snmptrapd_handlers.c:1037-1055 | for any configuration exactly the specified handlers of the four stages run, the third being the chain of the longest matching identifier |
| TrapDispatch.Daemon.DispatchAll | pkg/net-snmp-5.5/apps/snmptrapd_auth.c:44-168 | with authorization on and its handler first, over any sequence of notifications: what runs on each is a function of that notification and its chain alone, whatever mask was left behind; the chain is the one the registry answers; every handler run has its authtypes granted for the very notification it ran on; the mask left is that of the last one authorized |

## Left out

- SHA-384 and SHA-512 transforms (`sha64bit.c`) and the 64-bit words of their digests; the streaming part covers their 1024-bit blocks with an abstract compression function.
- Byte-order dependent loads, hex and base64 digests, dump and load of SHA states, wiping of the HMAC key buffer.
- ShaStream.Sha.Write: unaligned calls of more than 2^35 - 8 bits, for which the octet count wraps and the code reads behind its scratch buffer, and calls whose count added to that of the block wraps.
- Hmac.HashChunks: single calls of 2^32 bits or more; Hmac.HashCalls covers them.
- Hmac.HmacChunks: text in single calls of 2^32 bits or more, and the length of a key of 2^32 octets or more, which an unsigned int cannot hold.
- The contents of des_SPtrans_x and des_skb, which fold the S-boxes with the permutation P and permuted choice 2 with its order: they are arbitrary tables here and everything is proved for all of them.
- BER floats, doubles, signed 64-bit integers, bit strings, nulls, the contents of sequences, other Opaque types and the forward Counter64 builder, whose masks assume a 4-byte long.
- BerRoundTrip.BuildAndParse: identifiers that the builders refuse, for which BuildObjid itself says that it fails.
- Containers with the flags CONTAINER_KEY_UNSORTED or CONTAINER_KEY_ALLOW_DUPLICATES, iterators with sync counters, duplication and for_each.
- The nodes of the sorted list, the monitor's lists and the trap handler registry: these are sequences in the objects that own them, so relinking and aliasing are modelled only in AgentIndex.
- AgentIndex.Registry.Register: string and object identifier index values, whose rollover does not keep order, and the overflow of a new value behind 2^63-1; also agentx sub-agent forwarding and count_indexes.
- IndexProperties.RegisterExclusive: values outside 0..2^31-1, the integers that can be an index (sections 7.1.1 and 7.7 of RFC 2578); IndexProperties.HandedTwiceWhen covers them.
- ObjectMonitor.Monitor.Process: re-entering processing from a callback, which the code's own comment forbids, and callbacks that notify without end.
- The trap identifier conversion of SNMPv1 notifications, INFORM responses, and the handler bodies (logging, SQL, forwarding, execution).
- Command-line tools, network and terminal I/O, Perl glue, memory exhaustion and debug output.
