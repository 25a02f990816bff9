/**
 * The resumable hasher: it owns the padded preimage, a digest index that is
 * stored but never read, and an eight-word state that `ProcessChunk` updates
 * in place.
 */
module Dynamic {
  import opened ShaHelpers
  import opened Compression

  datatype Option<T> = None | Some(value: T)

  class DynamicSha256 {
    var paddedPreimage: seq<int>
    var digestIndex: nat
    /** The eight state words; the array is the struct's own and is updated in place. */
    const state: array<Word>

    /** new: the state is the given one, or H(0) when none is given. */
    constructor (paddedPreimage: seq<int>, digestIndex: nat, initState: Option<seq<Word>>)
      requires initState.Some? ==> |initState.value| == 8
      ensures this.paddedPreimage == paddedPreimage && this.digestIndex == digestIndex
      ensures fresh(state) && state.Length == 8
      ensures state[..] == if initState.Some? then initState.value else InitialState()
    {
      var H := if initState.Some? then initState.value else InitialState();
      var words := NewState(H);
      this.paddedPreimage := paddedPreimage;
      this.digestIndex := digestIndex;
      state := words;
    }

    /** process_chunk: one compression of a 512-bit chunk into the state. */
    method ProcessChunk(bits: seq<int>, K: seq<Word>)
      requires |bits| == 512 && state.Length == 8 && |K| == 64
      modifies state
      ensures state[..] == Compress(old(state[..]), bits, K)
    {
      CompressChunk(bits, state, K);
    }

    /** One turn of the loop of hash: chunk c of p goes into a state that
        holds the hash of the chunks before it. */
    method HashNext(ghost H: seq<Word>, p: seq<int>, K: seq<Word>, c: nat)
      requires |H| == 8 && |K| == 64 && |p| % 512 == 0 && c < |p| / 512 && state.Length == 8
      requires state[..] == HashBits(H, p[..512 * c], K)
      modifies state
      ensures state[..] == HashBits(H, p[..512 * (c + 1)], K)
    {
      HashChunk(H, p, K, c);
      ProcessChunk(p[512 * c..512 * (c + 1)], K);
    }

    /** hash: the chunks of the preimage, compressed in order into the state,
        which is also returned. */
    method Hash() returns (digest: seq<Word>)
      requires |paddedPreimage| % 512 == 0 && state.Length == 8
      modifies state
      ensures digest == state[..]
      ensures digest == HashBits(old(state[..]), paddedPreimage, RoundConstants())
    {
      var K := RoundConstants();
      var p := paddedPreimage;
      ghost var H := state[..];
      var c := 0;
      while c < |p| / 512
        invariant c <= |p| / 512
        invariant state[..] == HashBits(H, p[..512 * c], K)
      {
        HashNext(H, p, K, c);
        c := c + 1;
      }
      ChunkCount(|p|);
      assert p[..|p|] == p;
      digest := state[..];
    }
  }
}
