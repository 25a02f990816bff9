/**
 * The one-shot hasher: it owns only the padded preimage; `Hash` keeps the
 * state in a local array that starts at H(0) and that `ProcessChunk` updates
 * in place.
 */
module Native {
  import opened ShaHelpers
  import opened Compression

  class NativeSha256 {
    var paddedPreimage: seq<int>

    constructor (paddedPreimage: seq<int>)
      ensures this.paddedPreimage == paddedPreimage
    {
      this.paddedPreimage := paddedPreimage;
    }

    /** process_chunk: one compression of a 512-bit chunk into the caller's
        state array; nothing else is written. */
    method ProcessChunk(bits: seq<int>, state: array<Word>, K: seq<Word>)
      requires |bits| == 512 && state.Length == 8 && |K| == 64
      modifies state
      ensures state[..] == Compress(old(state[..]), bits, K)
    {
      CompressChunk(bits, state, K);
    }

    /** One turn of the loop of hash: chunk c of p goes into a state that
        holds the hash of the chunks before it. */
    method HashNext(ghost H: seq<Word>, p: seq<int>, K: seq<Word>, c: nat, state: array<Word>)
      requires |H| == 8 && |K| == 64 && |p| % 512 == 0 && c < |p| / 512 && state.Length == 8
      requires state[..] == HashBits(H, p[..512 * c], K)
      modifies state
      ensures state[..] == HashBits(H, p[..512 * (c + 1)], K)
    {
      HashChunk(H, p, K, c);
      ProcessChunk(p[512 * c..512 * (c + 1)], state, K);
    }

    /** hash: from H(0), the chunks of the preimage compressed in order. */
    method Hash() returns (digest: seq<Word>)
      requires |paddedPreimage| % 512 == 0
      ensures digest == HashBits(InitialState(), paddedPreimage, RoundConstants())
    {
      var H := InitialState();
      var state := NewState(H);
      var K := RoundConstants();
      var p := paddedPreimage;
      var c := 0;
      while c < |p| / 512
        invariant c <= |p| / 512
        invariant state[..] == HashBits(H, p[..512 * c], K)
      {
        HashNext(H, p, K, c, state);
        c := c + 1;
      }
      ChunkCount(|p|);
      assert p[..|p|] == p;
      digest := state[..];
    }
  }
}
