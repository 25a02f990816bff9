# Bit-sliced SHA-256 over a prime field

This project models the two SHA-256 hashers of a Rust repository that computes
SHA-256 on bit arrays whose elements live in a prime field: `NativeSha256`, a
one-shot hasher from H(0), and `DynamicSha256`, a hasher that may start from a
given intermediate state and records the index of the length field in its
preimage. It also models the helpers both use: the bit conversions,
`sha256_pad`, the field encodings of AND, NOT and XOR, the rotations and shifts,
the ripple-carry `wrapping_add` and the read-back of the digest words.

A field element that holds a binary digit is an `int` that is 0 or 1. A word
(`[F; 32]`) is a sequence of 32 of them, most significant bit first. `Bits.Val`
reads a word as a number. The reference is the hash algorithm of FIPS PUB 180-4
(sections 4.1.2, 4.2.2, 5.1.1, 5.3.3 and 6.2), written on integers in module
`Sha256Ref`.

The modules are:

- `Bits`: bit strings and their values.
- `Sha256Ref`: the FIPS 180-4 reference on integers.
- `ShaHelpers`: `src/sha_helpers.rs`.
- `Compression`: the schedule, the rounds and the state update that the two
  `process_chunk` bodies share. The bodies are identical; one writes
  `self.state` and the other a state passed in.
- `Dynamic` and `Native`: the two structs, as classes.
- `Refinement`: the proofs that the bit-level computation is the FIPS
  computation.
- `Hashers`: the hashers used as the tests use them.

The main results are:

- `Refinement.Sha256Correct`: hashing the padded bits of any bit message from
  H(0) with the round constants gives words whose values are the SHA-256
  digest of the message.
- `Hashers.Digest`: padding the bits of a byte string to its minimal length,
  hashing with `DynamicSha256` and reading the words back gives its SHA-256
  digest.
- `Hashers.HashersAgree`: the native hasher and the dynamic hasher started
  without a state compute the same words.

## Model

| member | source | states |
|---|---|---|
| ShaHelpers.FromHexBytes | src/sha_helpers.rs:8-14 | each decoded byte becomes eight 0/1 elements, most significant first, whose value is the byte |
| ShaHelpers.ToBitsBE | src/sha_helpers.rs:17-20 | the N-element array is all bits, is `Bin(n, N)` and denotes n modulo 2^N |
| ShaHelpers.U32RoundTrip | src/sha_helpers.rs:133-138 | `bits_to_u32` undoes `to_bits_be::<32>` on every 32-bit value |
| ShaHelpers.U32ThroughField | src/sha_helpers.rs:17-29 | a 32-bit value taken to bits, to field elements and back through `bits_to_u32` is unchanged |
| ShaHelpers.BitsToField | src/sha_helpers.rs:23-29 | the result has N elements: the first min(len, N) are copied and the rest are zero |
| ShaHelpers.MinPaddedLength | src/sha_helpers.rs:38-52 | `pre_pad_len` is a multiple of 512 with L + 65 <= n < L + 577 |
| ShaHelpers.Sha256Pad | src/sha_helpers.rs:36-71 | it fails (the panic) exactly when max_bits is below the minimal padded length; otherwise the output has max_bits elements, its prefix is the padding of FIPS 180-4 section 5.1.1, zeros follow, and the index is where the length field starts |
| ShaHelpers.MarkerZerosEnd | src/sha_helpers.rs:42-44 | the zero-fill loop stops at the first length that is 448 modulo 512, after the number of zeros FIPS 180-4 section 5.1.1 prescribes |
| ShaHelpers.PadLayout | src/sha_helpers.rs:38-45 | the padding is the message, a single 1, zeros, then the 64-bit big-endian length |
| ShaHelpers.And | src/sha_helpers.rs:76-78 | on 0/1 elements each result element is a bit and is 1 exactly when both inputs are 1 |
| ShaHelpers.Not | src/sha_helpers.rs:81-83 | on 0/1 elements each result element is a bit and is 1 exactly when the input is 0 |
| ShaHelpers.Xor | src/sha_helpers.rs:86-89 | on 0/1 elements each result element is a bit and is 1 exactly when the inputs differ |
| ShaHelpers.AndValue | src/sha_helpers.rs:76-78 | on bit strings the element-wise product denotes the bitwise AND of the values |
| ShaHelpers.XorValue | src/sha_helpers.rs:86-89 | on bit strings `a + b - 2ab` denotes the bitwise XOR of the values |
| ShaHelpers.NotValue | src/sha_helpers.rs:81-83 | on bit strings `1 - a` denotes the bitwise complement of the value |
| ShaHelpers.RotateRight | src/sha_helpers.rs:92-98 | the loop's result sends source i to destination (i + rot) mod N, for every i |
| ShaHelpers.RotateTarget | src/sha_helpers.rs:95 | destination j receives source i exactly when j = (i + rot) mod N, so each destination is written once |
| ShaHelpers.RotrCompose | src/sha_helpers.rs:92-98 | rotating by x after rotating by y is rotating by x + y |
| ShaHelpers.RotrInverse | src/sha_helpers.rs:92-98 | rotating by r and by N - r, in either order, gives the word back |
| ShaHelpers.RotrSplit | src/sha_helpers.rs:92-98 | rotating by r < N moves the last r elements to the front |
| ShaHelpers.RotrValue | src/sha_helpers.rs:92-98 | rotating a bit word right by r < 32 is ROTR^r of its value (FIPS 180-4 section 3.2) |
| ShaHelpers.RightShift | src/sha_helpers.rs:101-107 | destination j is zero below the shift and source j - shift above it, for any shift |
| ShaHelpers.RightShiftValue | src/sha_helpers.rs:101-107 | shifting a bit word right by s < 32 is SHR^s of its value |
| ShaHelpers.WrappingAdd | src/sha_helpers.rs:110-128 | the loop from index 31 down to 0 computes the ripple-carry sum word |
| ShaHelpers.AddSuffixValue | src/sha_helpers.rs:116-125 | after the columns i..31, the sum digits plus the carry at its weight equal the sum of the two suffixes |
| ShaHelpers.AddWithCarryValue | src/sha_helpers.rs:110-128 | the sum word plus the final carry at weight 2^32 is the sum of the two values |
| ShaHelpers.AddBitsValue | src/sha_helpers.rs:110-128 | on bit words the result is a bit word whose value is the sum modulo 2^32 |
| ShaHelpers.AddBitsAreBits | src/sha_helpers.rs:116-125 | on bit words every digit the adder writes is 0 or 1 |
| ShaHelpers.BitsToU32 | src/sha_helpers.rs:133-138 | the result is the big-endian value of the word with nonzero elements read as 1, and on a bit word it is the word's value |
| ShaHelpers.U32FoldValue | src/sha_helpers.rs:134-137 | after n steps the fold holds the first n bits shifted to the top |
| ShaHelpers.DigestWords | src/sha_helpers.rs:141-146 | word j of the digest, read back, is the value of state word j |
| Compression.MessageSchedule | src/dynamic_sha256.rs:42-58 | the W array filled by the two loops holds the schedule of the chunk at every index |
| Compression.ScheduleNext | src/dynamic_sha256.rs:48-58 | one turn of the schedule loop writes W[i] and keeps every earlier word equal to the schedule |
| Compression.ScheduleWord | src/dynamic_sha256.rs:49-57 | one new schedule word is (s1 + W[i-7]) + (s0 + W[i-16]) with s0 and s1 from W[i-15] and W[i-2] |
| Compression.RoundTemps | src/dynamic_sha256.rs:73-88 | T1 and T2 of a round, with the additions in the source's order |
| Compression.CompressionLoop | src/dynamic_sha256.rs:61-98 | the eight working variables after the 64 iterations are the 64 rounds applied to the state |
| Compression.UpdateState | src/dynamic_sha256.rs:101-108 | each state word becomes its working variable plus its old value, in place |
| Compression.CompressChunk | src/dynamic_sha256.rs:38-109 | the state array after `process_chunk` is the compression of its old contents with the chunk |
| Compression.NewState | src/dynamic_sha256.rs:27 | a fresh state array holding the given eight words |
| Compression.HashBitsPrefix | src/dynamic_sha256.rs:120-128 | hashing up to the end of a chunk is compressing that chunk into the state reached before it |
| Compression.HashChunk | src/dynamic_sha256.rs:120-128 | chunk c of an aligned preimage lies inside it and extends the hash by one compression |
| Compression.HashBitsConcat | src/dynamic_sha256.rs:120-128 | hashing two aligned strings one after the other is hashing their concatenation |
| Compression.InitialState | src/native_sha256.rs:106 | eight bit words whose values are H(0) of FIPS 180-4 section 5.3.3 |
| Compression.RoundConstants | src/dynamic_sha256.rs:118 | 64 bit words whose values are the K of FIPS 180-4 section 4.2.2 |
| Refinement.AddRefines | src/sha_helpers.rs:110-128 | `wrapping_add` on bit words is addition modulo 2^32 |
| Refinement.AndRefines | src/sha_helpers.rs:76-78 | `and` on a bit word is the 32-bit AND |
| Refinement.XorRefines | src/sha_helpers.rs:86-89 | `xor` on a bit word is the 32-bit XOR |
| Refinement.NotRefines | src/sha_helpers.rs:81-83 | `not` on a bit word is the 32-bit complement |
| Refinement.Xor3Refines | src/dynamic_sha256.rs:49-56 | XOR of three bit words is a bit word with the XOR of the three values |
| Refinement.BigSigma1Refines | src/dynamic_sha256.rs:73-76 | S1 on a bit word is the function of FIPS 180-4 equation 4.5 |
| Refinement.BigSigma0Refines | src/dynamic_sha256.rs:83-86 | S0 on a bit word is the function of FIPS 180-4 equation 4.4 |
| Refinement.SmallSigma0Refines | src/dynamic_sha256.rs:49-52 | s0 on a bit word is the function of FIPS 180-4 equation 4.6 |
| Refinement.SmallSigma1Refines | src/dynamic_sha256.rs:53-56 | s1 on a bit word is the function of FIPS 180-4 equation 4.7 |
| Refinement.ChRefines | src/dynamic_sha256.rs:77 | Ch on bit words is the function of FIPS 180-4 equation 4.2 |
| Refinement.MajRefines | src/dynamic_sha256.rs:87 | Maj on bit words is the function of FIPS 180-4 equation 4.3 |
| Refinement.ScheduleStep | src/dynamic_sha256.rs:57 | one step of the schedule recurrence on bit words is the recurrence of step 1 of FIPS 180-4 section 6.2.2 on their values |
| Refinement.ScheduleRefines | src/dynamic_sha256.rs:42-58 | each schedule word of a bit chunk is a bit word whose value is W_t of the chunk as a 16-word block |
| Refinement.Temp1Refines | src/dynamic_sha256.rs:78-81 | T1 on bit words is h + S1(e) + Ch(e, f, g) + K_t + W_t modulo 2^32 |
| Refinement.Temp2Refines | src/dynamic_sha256.rs:88 | T2 on bit words is S0(a) + Maj(a, b, c) modulo 2^32 |
| Refinement.RoundRefines | src/dynamic_sha256.rs:72-98 | one iteration on bit words is one iteration of step 3 of FIPS 180-4 section 6.2.2 |
| Refinement.RoundsRefines | src/dynamic_sha256.rs:72-98 | the first n iterations on bit words are the first n FIPS rounds |
| Refinement.AddVarsRefines | src/dynamic_sha256.rs:101-108 | the final state update on bit words is step 4 of FIPS 180-4 section 6.2.2 |
| Refinement.CompressRefines | src/dynamic_sha256.rs:38-109 | `process_chunk` on a bit state and a bit chunk gives the next intermediate hash value of FIPS 180-4 section 6.2.2 |
| Refinement.HashBitsRefines | src/dynamic_sha256.rs:112-132 | hashing an aligned bit preimage is the block-by-block hash computation of FIPS 180-4 section 6.2 |
| Refinement.PadBits | src/sha_helpers.rs:36-71 | padding a bit message gives a bit string |
| Refinement.InitialValues | src/native_sha256.rs:106 | the initial state is a set of bit words whose values are H(0) |
| Refinement.DigestOfBits | src/sha_helpers.rs:141-146 | reading back a state of bit words gives their values |
| Refinement.Sha256Correct | src/dynamic_sha256.rs:137-149 | hashing the padded bits of a bit message from H(0) and reading the words back gives SHA-256 of the message |
| Dynamic.DynamicSha256.constructor | src/dynamic_sha256.rs:22-34 | the state is the given one, or H(0) when none is given; the preimage and index are stored |
| Dynamic.DynamicSha256.ProcessChunk | src/dynamic_sha256.rs:38-109 | the struct's state becomes the compression of its old value with the chunk |
| Dynamic.DynamicSha256.HashNext | src/dynamic_sha256.rs:126-128 | one turn of the chunk loop extends the hash of the chunks so far by chunk c |
| Dynamic.DynamicSha256.Hash | src/dynamic_sha256.rs:112-132 | the returned state is the hash of the preimage's chunks, in order, from the state the hasher held |
| Native.NativeSha256.constructor | src/native_sha256.rs:24-29 | the preimage is stored |
| Native.NativeSha256.ProcessChunk | src/native_sha256.rs:33-97 | the state passed in becomes the compression of its old value with the chunk |
| Native.NativeSha256.HashNext | src/native_sha256.rs:115-117 | one turn of the chunk loop extends the hash of the chunks so far by chunk c |
| Native.NativeSha256.Hash | src/native_sha256.rs:100-121 | the result is the hash of the preimage's chunks, in order, from H(0) |
| Hashers.RunNative | src/native_sha256.rs:100-121 | a new native hasher returns the hash of its preimage from H(0) |
| Hashers.RunDynamic | src/dynamic_sha256.rs:22-34 | a new dynamic hasher returns the hash of its preimage from the given state or H(0) |
| Hashers.HashersAgree | src/native_sha256.rs:100-121 | the native hasher and a dynamic hasher without a state give the same words |
| Hashers.DigestIndexIgnored | src/dynamic_sha256.rs:14-18 | the stored digest index does not change the dynamic hasher's result |
| Hashers.PadAndHash | src/sha_helpers.rs:36-71 | padding fails exactly when the capacity is too small; otherwise the hash is the message's state followed by the compression of the zero filler chunks |
| Hashers.PaddedHash | src/sha_helpers.rs:52-57 | a preimage padded beyond its minimal length hashes as the padded message followed by whole zero chunks |
| Hashers.FillerSplit | src/sha_helpers.rs:55-57 | an aligned string that is q up to an aligned n and zero after it is q followed by zero chunks |
| Hashers.NoFiller | src/dynamic_sha256.rs:137-149 | without filler chunks the words read back are SHA-256 of the message |
| Hashers.Digest | src/dynamic_sha256.rs:137-149 | a byte string padded to its minimal length, hashed and read back gives its SHA-256 digest |
| Hashers.PadTestVectors | src/dynamic_sha256.rs:140-210 | 64 bytes padded to 1024 bits put the length field at 960, 128 bytes padded to 1536 put it at 1472, and one byte padded to 512 puts it at 448 |

## Left out

- Field arithmetic: elements are unbounded integers, not residues modulo the field's prime. On 0/1 inputs the model gives the same results as the field: every value that occurs is 0, 1, 2 or 3, and `sum >= two` in `wrapping_add` compares canonical representatives. A state or chunk element other than 0 or 1 is outside the model. There `1 - a` wraps around in the field (`not` of 2 is p - 1, not -1), so `sum >= two` then takes the other branch. The members below carry no precondition that excludes such inputs, because the source has none; their results on such inputs follow integer arithmetic, not the field.
- ShaHelpers.Not, ShaHelpers.Xor, ShaHelpers.WrappingAdd, Compression.CompressChunk, Dynamic.DynamicSha256.constructor, Dynamic.DynamicSha256.Hash, Native.NativeSha256.Hash: for elements other than 0 and 1 (such as a non-bit `init_state` passed to `DynamicSha256::new`), the integer model does not compute what the prime-field code computes. The correspondence with SHA-256 (`Refinement`) is proved only for bit inputs.
- The `hex::decode` step of `from_hex` and its panic on invalid hex: `FromHexBytes` starts from the decoded bytes.
- The string formatting in `digest_to_hex` (`format!("{:08x}")`, `join`): `DigestWords` stops at the eight 32-bit values.
- The `constants` module is not part of this model. `InitialState` and `RoundConstants` are written from sections 5.3.3 and 4.2.2 of FIPS PUB 180-4. The source's constants are assumed to be the same.
- The tests' oracle (`sha2::Sha256`), the random field elements (`Fp::rand`, `to_hex`) and the hex comparison. `Hashers.Digest` and `Hashers.PadTestVectors` state for every input what those tests check for particular inputs.
- `PhantomData` and copying each chunk into its own vector: the chunks are read as slices of the preimage.
- ShaHelpers.ToBitsBE: the `T: Into<u64>` conversion is not modelled. The value is given as a natural number, and N is at most 64.
- ShaHelpers.Sha256Pad: a message longer than 2^64 - 1 bits is not rejected. Its length field is the length modulo 2^64, as the `as u64` cast gives.
- `u8` bit elements are `int`s. Every element the model produces as a bit (`to_bits_be`, `from_hex`, `sha256_pad`) is 0 or 1. Elements consumed as bits are 0 or 1 only when the caller supplies bits, as in the bit-input hypotheses of the `Refinement` lemmas.
- The panics: `sha256_pad` with `max_bits` too small is the `Failure` result. The asserts of `hash` (alignment) and `process_chunk` (length 512) are preconditions.
- `hash(mut self)` consumes the struct; the model keeps the object and updates its state.
- ShaHelpers.BitsToU32: the fold's `acc | (b << (31 - i))` is written as an addition. The bit positions are distinct, so the two agree.
- Hashers.PadAndHash: with `max_bits` above the minimal padded length, the result is not SHA-256 of the message. The contract states what it is: the message's state followed by compressions of zero chunks.
- ShaHelpers.WrappingAdd: its contract only ties the loop to the adder function `AddBits`. The value claim (addition modulo 2^32) is in `AddBitsValue` and `Refinement.AddRefines`.
