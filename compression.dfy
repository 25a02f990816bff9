/**
 * The SHA-256 compression of one 512-bit chunk on bit words, as both hashers
 * perform it (src/dynamic_sha256.rs:38-109 and src/native_sha256.rs:33-97 hold
 * the same body): the message schedule, the 64 rounds over the eight working
 * variables, and the addition into the state array.
 *
 * The functions below say what each step computes, built from the bit algebra
 * of the helpers; `CompressChunk` is the loop code, proved to compute them.
 */
module Compression {
  import opened Bits
  import opened ShaHelpers
  import Ref = Sha256Ref

  type Vars = Ref.Vars<Word>

  // ========== The functions of section 4.1.2 on bit words ==========

  function BigSigma0(x: Word): Word { Xor(Xor(Rotr(2, x), Rotr(13, x)), Rotr(22, x)) }
  function BigSigma1(x: Word): Word { Xor(Xor(Rotr(6, x), Rotr(11, x)), Rotr(25, x)) }
  function SmallSigma0(x: Word): Word { Xor(Xor(Rotr(7, x), Rotr(18, x)), RightShift(3, x)) }
  function SmallSigma1(x: Word): Word { Xor(Xor(Rotr(17, x), Rotr(19, x)), RightShift(10, x)) }
  function Ch(e: Word, f: Word, g: Word): Word { Xor(And(e, f), And(Not(e), g)) }
  function Maj(a: Word, b: Word, c: Word): Word { Xor(Xor(And(a, b), And(a, c)), And(b, c)) }

  // ========== Message schedule ==========

  /** Word t of the chunk: its bits 32t .. 32t+31. */
  function ChunkWord(bits: seq<int>, t: nat): Word
    requires |bits| == 512 && t < 16
  {
    bits[32 * t..32 * t + 32]
  }

  /** W[t]: the chunk's words, then the sigma recurrence, added in the
      source's grouping (s1 + W[t-7]) + (s0 + W[t-16]). */
  function Schedule(bits: seq<int>, t: nat): Word
    requires |bits| == 512 && t < 64
  {
    if t < 16 then ChunkWord(bits, t)
    else
      AddBits(AddBits(SmallSigma1(Schedule(bits, t - 2)), Schedule(bits, t - 7)),
              AddBits(SmallSigma0(Schedule(bits, t - 15)), Schedule(bits, t - 16)))
  }

  /** The whole schedule W[0 .. 63] of a chunk. */
  function ScheduleOf(bits: seq<int>): (W: seq<Word>)
    requires |bits| == 512
    ensures |W| == 64 && forall t | 0 <= t < 64 :: W[t] == Schedule(bits, t)
  {
    seq(64, t requires 0 <= t < 64 => Schedule(bits, t))
  }

  // ========== Rounds ==========

  /** T1 of a round, added in the source's order ((((h + S1) + ch) + k) + w). */
  function Temp1(e: Word, f: Word, g: Word, h: Word, k: Word, w: Word): Word
  {
    AddBits(AddBits(AddBits(AddBits(h, BigSigma1(e)), Ch(e, f, g)), k), w)
  }

  /** T2 of a round: S0 + maj. */
  function Temp2(a: Word, b: Word, c: Word): Word
  {
    AddBits(BigSigma0(a), Maj(a, b, c))
  }

  /** One iteration of the compression loop. */
  function Round(v: Vars, k: Word, w: Word): Vars
  {
    var t1 := Temp1(v.e, v.f, v.g, v.h, k, w);
    Ref.Vars(AddBits(t1, Temp2(v.a, v.b, v.c)), v.a, v.b, v.c, AddBits(v.d, t1), v.e, v.f, v.g)
  }

  /** The working variables after iterations 0 .. n-1. */
  function Rounds(v: Vars, bits: seq<int>, K: seq<Word>, n: nat): Vars
    requires |bits| == 512 && |K| == 64 && n <= 64
  {
    if n == 0 then v else Round(Rounds(v, bits, K, n - 1), K[n - 1], Schedule(bits, n - 1))
  }

  function VarsOf(H: seq<Word>): Vars
    requires |H| == 8
  {
    Ref.Vars(H[0], H[1], H[2], H[3], H[4], H[5], H[6], H[7])
  }

  /** Each state word plus its working variable. */
  function AddVars(v: Vars, H: seq<Word>): (r: seq<Word>)
    requires |H| == 8
    ensures |r| == 8
  {
    [AddBits(v.a, H[0]), AddBits(v.b, H[1]), AddBits(v.c, H[2]), AddBits(v.d, H[3]),
     AddBits(v.e, H[4]), AddBits(v.f, H[5]), AddBits(v.g, H[6]), AddBits(v.h, H[7])]
  }

  /** The state after one chunk. */
  function Compress(H: seq<Word>, bits: seq<int>, K: seq<Word>): (r: seq<Word>)
    requires |H| == 8 && |bits| == 512 && |K| == 64
    ensures |r| == 8
  {
    AddVars(Rounds(VarsOf(H), bits, K, 64), H)
  }

  /** The state after the chunks of p, first to last, starting from H. */
  function HashBits(H: seq<Word>, p: seq<int>, K: seq<Word>): (r: seq<Word>)
    requires |H| == 8 && |p| % 512 == 0 && |K| == 64
    ensures |r| == 8
    decreases |p|
  {
    if |p| == 0 then H
    else Compress(HashBits(H, p[..|p| - 512], K), p[|p| - 512..], K)
  }

  /** The chunks of p are hashed strictly in order: hashing the bits up to
      the end of the chunk at offset i is compressing that chunk into the hash
      of the bits before it. */
  lemma HashBitsPrefix(H: seq<Word>, p: seq<int>, K: seq<Word>, i: nat)
    requires |H| == 8 && |K| == 64 && i % 512 == 0 && i + 512 <= |p|
    ensures HashBits(H, p[..i + 512], K) == Compress(HashBits(H, p[..i], K), p[i..i + 512], K)
  {
    var q := p[..i + 512];
    assert q[..|q| - 512] == p[..i];
    assert q[|q| - 512..] == p[i..i + 512];
  }

  /** Chunk c of a preimage of whole chunks lies within it, and hashing up
      to its end is compressing it into the hash of the chunks before it. */
  lemma HashChunk(H: seq<Word>, p: seq<int>, K: seq<Word>, c: nat)
    requires |H| == 8 && |K| == 64 && |p| % 512 == 0 && c < |p| / 512
    ensures 512 * (c + 1) <= |p|
    ensures HashBits(H, p[..512 * (c + 1)], K) ==
            Compress(HashBits(H, p[..512 * c], K), p[512 * c..512 * (c + 1)], K)
  {
    MulMonotone(c + 1, |p| / 512, 512);
    assert (512 * c) % 512 == 0 && 512 * (c + 1) == 512 * c + 512;
    HashBitsPrefix(H, p, K, 512 * c);
  }

  lemma ChunkCount(n: nat)
    requires n % 512 == 0
    ensures 512 * (n / 512) == n
  {
  }

  /** Hashing p1 and then p2 is hashing their concatenation. */
  lemma {:induction false} HashBitsConcat(H: seq<Word>, p1: seq<int>, p2: seq<int>, K: seq<Word>)
    requires |H| == 8 && |p1| % 512 == 0 && |p2| % 512 == 0 && |K| == 64
    ensures HashBits(H, p1 + p2, K) == HashBits(HashBits(H, p1, K), p2, K)
    decreases |p2|
  {
    if |p2| == 0 {
      assert p1 + p2 == p1;
    } else {
      var p := p1 + p2;
      var i := |p| - 512;
      var front := p2[..|p2| - 512];
      assert p[..i + 512] == p && p[..i] == p1 + front;
      assert p[i..i + 512] == p2[|p2| - 512..];
      HashBitsPrefix(H, p, K, i);
      HashBitsConcat(H, p1, front, K);
    }
  }

  // ========== Constants ==========

  /** initial_state(): H(0) of section 5.3.3 as bit words. */
  function InitialState(): (H: seq<Word>)
    ensures |H| == 8
    ensures forall j | 0 <= j < 8 :: IsBits(H[j]) && Val(H[j]) == Ref.H0[j]
  {
    var H := seq(8, j requires 0 <= j < 8 => ToBitsBE(Ref.H0[j], 32));
    WordsOfValues(Ref.H0, H);
    H
  }

  /** round_constants(): K of section 4.2.2 as bit words. */
  function RoundConstants(): (K: seq<Word>)
    ensures |K| == 64
    ensures forall i | 0 <= i < 64 :: IsBits(K[i]) && Val(K[i]) == Ref.K[i]
  {
    var K := seq(64, i requires 0 <= i < 64 => ToBitsBE(Ref.K[i], 32));
    WordsOfValues(Ref.K, K);
    K
  }

  lemma WordsOfValues(xs: seq<Ref.U32>, ws: seq<Word>)
    requires |ws| == |xs|
    requires forall i | 0 <= i < |xs| :: ws[i] == ToBitsBE(xs[i], 32)
    ensures forall i | 0 <= i < |xs| :: IsBits(ws[i]) && Val(ws[i]) == xs[i]
  {
    forall i | 0 <= i < |xs| ensures IsBits(ws[i]) && Val(ws[i]) == xs[i] {
      U32RoundTrip(xs[i]);
    }
  }

  // ========== The loop code ==========

  /** process_chunk: fills W from the chunk and the recurrence, runs the 64
      rounds on the working variables, and adds them into `state` in place. */
  method CompressChunk(bits: seq<int>, state: array<Word>, K: seq<Word>)
    requires |bits| == 512 && state.Length == 8 && |K| == 64
    modifies state
    ensures state[..] == Compress(old(state[..]), bits, K)
  {
    var W := MessageSchedule(bits);
    assert W[..] == ScheduleOf(bits);
    var v := CompressionLoop(VarsOf(state[..]), bits, W, K);
    UpdateState(state, v);
  }

  /** A fresh state array holding the words of H. */
  method NewState(H: seq<Word>) returns (state: array<Word>)
    requires |H| == 8
    ensures fresh(state) && state[..] == H
  {
    state := new Word[8](i requires 0 <= i < 8 => H[i]);
  }

  /** The final state update of process_chunk, word by word in place. */
  method UpdateState(state: array<Word>, v: Vars)
    requires state.Length == 8
    modifies state
    ensures state[..] == AddVars(v, old(state[..]))
  {
    state[0] := WrappingAdd(v.a, state[0]);
    state[1] := WrappingAdd(v.b, state[1]);
    state[2] := WrappingAdd(v.c, state[2]);
    state[3] := WrappingAdd(v.d, state[3]);
    state[4] := WrappingAdd(v.e, state[4]);
    state[5] := WrappingAdd(v.f, state[5]);
    state[6] := WrappingAdd(v.g, state[6]);
    state[7] := WrappingAdd(v.h, state[7]);
  }

  /** The two loops of process_chunk that fill W: the chunk's sixteen words
      (bits_to_field, then chunks_exact(32)), then the sigma recurrence. */
  method MessageSchedule(bits: seq<int>) returns (W: array<Word>)
    requires |bits| == 512
    ensures fresh(W) && W.Length == 64
    ensures forall t | 0 <= t < 64 :: W[t] == Schedule(bits, t)
  {
    var fieldValues := BitsToField(bits, 512);
    assert fieldValues == bits;
    W := new Word[64](_ => Zeros(32));
    for i := 0 to 16
      invariant forall t | 0 <= t < i :: W[t] == Schedule(bits, t)
    {
      W[i] := fieldValues[32 * i..32 * i + 32];
    }
    for i := 16 to 64
      invariant forall t | 0 <= t < i :: W[t] == Schedule(bits, t)
    {
      ScheduleNext(bits, W, i);
    }
  }

  /** One turn of the schedule loop: W[i] from W[i-2], W[i-7], W[i-15] and W[i-16]. */
  method ScheduleNext(bits: seq<int>, W: array<Word>, i: nat)
    requires |bits| == 512 && W.Length == 64 && 16 <= i < 64
    requires forall t | 0 <= t < i :: W[t] == Schedule(bits, t)
    modifies W
    ensures forall t | 0 <= t <= i :: W[t] == Schedule(bits, t)
  {
    var w2, w7, w15, w16 := W[i - 2], W[i - 7], W[i - 15], W[i - 16];
    assert w2 == Schedule(bits, i - 2) && w7 == Schedule(bits, i - 7);
    assert w15 == Schedule(bits, i - 15) && w16 == Schedule(bits, i - 16);
    var w := ScheduleWord(w2, w7, w15, w16);
    W[i] := w;
  }

  /** The compression loop: the eight working variables, reassigned in each
      of the 64 iterations. */
  method CompressionLoop(v: Vars, bits: seq<int>, W: array<Word>, K: seq<Word>) returns (r: Vars)
    requires |bits| == 512 && |K| == 64
    requires W[..] == ScheduleOf(bits)
    ensures r == Rounds(v, bits, K, 64)
  {
    var a, b, c, d, e, f, g, h := v.a, v.b, v.c, v.d, v.e, v.f, v.g, v.h;
    for i := 0 to 64
      invariant Ref.Vars(a, b, c, d, e, f, g, h) == Rounds(v, bits, K, i)
    {
      assert W[i] == W[..][i];
      var t1, t2 := RoundTemps(a, b, c, e, f, g, h, K[i], W[i]);
      ghost var before := Ref.Vars(a, b, c, d, e, f, g, h);
      h := g;
      g := f;
      f := e;
      e := WrappingAdd(d, t1);
      d := c;
      c := b;
      b := a;
      a := WrappingAdd(t1, t2);
      assert Ref.Vars(a, b, c, d, e, f, g, h) == Round(before, K[i], W[i]);
    }
    r := Ref.Vars(a, b, c, d, e, f, g, h);
  }

  /** The body of the schedule loop: s0 and s1 from W[i-15] and W[i-2], then
      (s1 + W[i-7]) + (s0 + W[i-16]). */
  method ScheduleWord(w2: Word, w7: Word, w15: Word, w16: Word) returns (w: Word)
    ensures w == AddBits(AddBits(SmallSigma1(w2), w7), AddBits(SmallSigma0(w15), w16))
  {
    var r7 := RotateRight(7, w15);
    var r18 := RotateRight(18, w15);
    var s0: Word := Xor(Xor(r7, r18), RightShift(3, w15));
    var r17 := RotateRight(17, w2);
    var r19 := RotateRight(19, w2);
    var s1: Word := Xor(Xor(r17, r19), RightShift(10, w2));
    var x := WrappingAdd(s1, w7);
    var y := WrappingAdd(s0, w16);
    w := WrappingAdd(x, y);
  }

  /** T1 and T2 of one round, from the working variables, K[i] and W[i]. */
  method RoundTemps(a: Word, b: Word, c: Word, e: Word, f: Word, g: Word, h: Word, k: Word, w: Word)
    returns (t1: Word, t2: Word)
    ensures t1 == Temp1(e, f, g, h, k, w) && t2 == Temp2(a, b, c)
  {
    var r6 := RotateRight(6, e);
    var r11 := RotateRight(11, e);
    var r25 := RotateRight(25, e);
    var s1: Word := Xor(Xor(r6, r11), r25);
    var ch: Word := Xor(And(e, f), And(Not(e), g));
    t1 := WrappingAdd(h, s1);
    t1 := WrappingAdd(t1, ch);
    t1 := WrappingAdd(t1, k);
    t1 := WrappingAdd(t1, w);
    var r2 := RotateRight(2, a);
    var r13 := RotateRight(13, a);
    var r22 := RotateRight(22, a);
    var s0: Word := Xor(Xor(r2, r13), r22);
    var maj: Word := Xor(Xor(And(a, b), And(a, c)), And(b, c));
    t2 := WrappingAdd(s0, maj);
  }
}
