/**
 * The two hashers side by side, and the way the tests drive them: pad the
 * message with `Sha256Pad`, hash the padded preimage, read the eight words
 * back as 32-bit values.
 */
module Hashers {
  import opened Bits
  import opened ShaHelpers
  import opened Compression
  import opened Dynamic
  import opened Native
  import Ref = Sha256Ref
  import Refinement

  /** `NativeSha256::new(p).hash()`. */
  method RunNative(p: seq<int>) returns (digest: seq<Word>)
    requires |p| % 512 == 0
    ensures digest == HashBits(InitialState(), p, RoundConstants())
  {
    var hasher := new NativeSha256(p);
    digest := hasher.Hash();
  }

  /** `DynamicSha256::new(p, digestIndex, init).hash()`. */
  method RunDynamic(p: seq<int>, digestIndex: nat, init: Option<seq<Word>>) returns (digest: seq<Word>)
    requires |p| % 512 == 0
    requires init.Some? ==> |init.value| == 8
    ensures digest == HashBits(if init.Some? then init.value else InitialState(), p, RoundConstants())
  {
    var hasher := new DynamicSha256(p, digestIndex, init);
    digest := hasher.Hash();
  }

  /** The one-shot hasher and the resumable hasher started without a state
      compute the same digest, and it is the fold of the compression over
      the chunks from H(0). */
  method HashersAgree(p: seq<int>, digestIndex: nat) returns (native: seq<Word>, dynamic: seq<Word>)
    requires |p| % 512 == 0
    ensures native == dynamic
    ensures native == HashBits(InitialState(), p, RoundConstants())
  {
    native := RunNative(p);
    dynamic := RunDynamic(p, digestIndex, None);
  }

  /** The digest index a resumable hasher stores has no effect on its digest. */
  method DigestIndexIgnored(p: seq<int>, i: nat, j: nat, init: Option<seq<Word>>)
    returns (first: seq<Word>, second: seq<Word>)
    requires |p| % 512 == 0
    requires init.Some? ==> |init.value| == 8
    ensures first == second
  {
    first := RunDynamic(p, i, init);
    second := RunDynamic(p, j, init);
  }

  /** The state after hashing the minimally padded message m from H(0). */
  function MessageState(m: seq<int>): (S: seq<Word>)
    ensures |S| == 8
  {
    Ref.PadLength(|m|);
    HashBits(InitialState(), Ref.Pad(m), RoundConstants())
  }

  /** The state after n all-zero chunks are compressed into S. */
  function ZeroChunks(S: seq<Word>, n: nat): (T: seq<Word>)
    requires |S| == 8
    ensures |T| == 8
  {
    HashBits(S, Zeros(512 * n), RoundConstants())
  }

  /** Pad a bit message to maxBits and hash it with the resumable hasher:
      the filler chunks are compressed after the message's own. */
  method PadAndHash(m: seq<int>, maxBits: nat) returns (r: Result<seq<Word>>)
    requires maxBits % 512 == 0
    ensures r.Failure? <==> maxBits < MinPaddedLength(|m|)
    ensures r.Success? ==>
      r.value == ZeroChunks(MessageState(m), (maxBits - MinPaddedLength(|m|)) / 512)
  {
    var padded := Sha256Pad(m, maxBits);
    if padded.Failure? {
      return Failure(padded.error);
    }
    var p := padded.value.0;
    var digestIndex := padded.value.1;
    PaddedHash(m, p, digestIndex, maxBits);
    var words := RunDynamic(p, digestIndex, None);
    r := Success(words);
  }

  /** The tests' use of the hashers: the bits of a byte string, padded to
      exactly their padded length, hashed and read back as eight 32-bit
      values, are the SHA-256 digest of the byte string. */
  method Digest(bytes: seq<Byte>) returns (digest: seq<Ref.U32>)
    ensures digest == Ref.Sha256(FromHexBytes(bytes))
  {
    var m := FromHexBytes(bytes);
    var r := PadAndHash(m, MinPaddedLength(|m|));
    NoFiller(m);
    digest := DigestWords(r.value);
  }

  /** A preimage padded past its minimal length, as `Sha256Pad` returns it,
      hashes the minimally padded message first and the zero filler after it. */
  lemma PaddedHash(m: seq<int>, p: seq<int>, digestIndex: nat, maxBits: nat)
    requires maxBits % 512 == 0 && |p| == maxBits
    requires digestIndex == MinPaddedLength(|m|) - 64 && digestIndex + 64 <= maxBits
    requires p[..digestIndex + 64] == Ref.Pad(m)
    requires forall i | digestIndex + 64 <= i < maxBits :: p[i] == 0
    ensures HashBits(InitialState(), p, RoundConstants()) ==
            ZeroChunks(MessageState(m), (maxBits - MinPaddedLength(|m|)) / 512)
  {
    var z := (maxBits - MinPaddedLength(|m|)) / 512;
    FillerSplit(p, Ref.Pad(m), MinPaddedLength(|m|));
    HashBitsConcat(InitialState(), Ref.Pad(m), Zeros(512 * z), RoundConstants());
  }

  /** A string of whole chunks that is q up to n and zero after it is q
      followed by whole zero chunks. */
  lemma FillerSplit(p: seq<int>, q: seq<int>, n: nat)
    requires n <= |p| && n % 512 == 0 && |p| % 512 == 0
    requires p[..n] == q
    requires forall i | n <= i < |p| :: p[i] == 0
    ensures p == q + Zeros(512 * ((|p| - n) / 512))
  {
    var z := (|p| - n) / 512;
    assert 512 * z == |p| - n;
    assert p[n..] == Zeros(512 * z);
    assert p == p[..n] + p[n..];
  }

  /** Without filler the digest is the SHA-256 digest of the message. */
  lemma NoFiller(m: seq<int>)
    requires IsBits(m)
    ensures DigestWords(ZeroChunks(MessageState(m), 0)) == Ref.Sha256(m)
  {
    assert Zeros(512 * 0) == [];
    Refinement.Sha256Correct(m);
  }

  /** How the tests pad: two field elements' 64 bytes into 1024 bits put
      the length field at 960, four elements' 128 bytes into 1536 bits put it
      at 1472, and the single byte 00 into 512 bits puts it at 448. */
  method PadTestVectors(two: seq<Byte>, four: seq<Byte>) returns (first: nat, second: nat, third: nat)
    requires |two| == 64 && |four| == 128
    ensures first == 960 && second == 1472 && third == 448
  {
    var r1 := Sha256Pad(FromHexBytes(two), 1024);
    var r2 := Sha256Pad(FromHexBytes(four), 1536);
    var r3 := Sha256Pad(FromHexBytes([0]), 512);
    first, second, third := r1.value.1, r2.value.1, r3.value.1;
  }
}
