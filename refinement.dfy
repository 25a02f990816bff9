/**
 * The bit-sliced compression computes SHA-256: on bit words (every element
 * 0 or 1), each function of the model has the value that FIPS PUB 180-4
 * gives its word-level counterpart, and so the whole hash of a padded
 * message, read back into 32-bit words, is the message digest.
 */
module Refinement {
  import opened Bits
  import opened ShaHelpers
  import opened Compression
  import Ref = Sha256Ref

  const M: nat := Ref.WordModulus

  /** The values of a sequence of bit words. */
  function Vals(H: seq<Word>): (r: seq<int>)
    ensures |r| == |H| && forall j | 0 <= j < |H| :: r[j] == Val(H[j])
  {
    seq(|H|, j requires 0 <= j < |H| => Val(H[j]))
  }

  predicate AllBits(H: seq<Word>) {
    forall j | 0 <= j < |H| :: IsBits(H[j])
  }

  predicate VarsBits(v: Vars) {
    IsBits(v.a) && IsBits(v.b) && IsBits(v.c) && IsBits(v.d) &&
    IsBits(v.e) && IsBits(v.f) && IsBits(v.g) && IsBits(v.h)
  }

  function VarsVal(v: Vars): Ref.Vars<int> {
    Ref.Vars(Val(v.a), Val(v.b), Val(v.c), Val(v.d), Val(v.e), Val(v.f), Val(v.g), Val(v.h))
  }

  /** The round constants are the words of K. */
  predicate ConstantsOk(K: seq<Word>) {
    |K| == 64 && forall i | 0 <= i < 64 :: IsBits(K[i]) && Val(K[i]) == Ref.K[i]
  }

  // ========== Addition ==========

  /** The ripple-carry sum of two bit words is their sum modulo 2^32. */
  lemma AddRefines(a: Word, b: Word)
    requires IsBits(a) && IsBits(b)
    ensures IsBits(AddBits(a, b)) && Val(AddBits(a, b)) == Ref.Add(Val(a), Val(b))
  {
    AddBitsValue(a, b);
  }

  /** Modular addition may be regrouped: (w + x) + (y + z) = ((w + x) + y) + z. */
  lemma AddRegroup(w: int, x: int, y: int, z: int)
    ensures Ref.Add(Ref.Add(w, x), Ref.Add(y, z)) == Ref.Add(Ref.Add(Ref.Add(w, x), y), z)
  {
    var s := Ref.Add(w, x);
    ModAddRight(s, y + z);
    ModAddLeft(s + y, z);
  }

  lemma ModAddLeft(x: int, y: int)
    ensures ((x % M) + y) % M == (x + y) % M
  {
    assert x == (x / M) * M + x % M;
    ModAddMultiple(x % M + y, x / M, M);
  }

  lemma ModAddRight(x: int, y: int)
    ensures (x + (y % M)) % M == (x + y) % M
  {
    ModAddLeft(y, x);
  }

  // ========== The bitwise functions ==========

  lemma AndRefines(a: Word, b: Word)
    requires IsBits(a) && IsBits(b)
    ensures IsBits(And(a, b)) && Val(And(a, b)) == Ref.And(Val(a), Val(b))
  {
    AndValue(a, b);
  }

  lemma XorRefines(a: Word, b: Word)
    requires IsBits(a) && IsBits(b)
    ensures IsBits(Xor(a, b)) && Val(Xor(a, b)) == Ref.Xor(Val(a), Val(b))
  {
    XorValue(a, b);
  }

  lemma NotRefines(a: Word)
    requires IsBits(a)
    ensures IsBits(Not(a)) && Val(Not(a)) == Ref.Not(Val(a))
  {
    NotValue(a);
  }

  /** XOR of three rotations or shifts, the shape of all four sigmas. */
  lemma Xor3Refines(p: Word, q: Word, r: Word)
    requires IsBits(p) && IsBits(q) && IsBits(r)
    ensures IsBits(Xor(Xor(p, q), r))
    ensures Val(Xor(Xor(p, q), r)) == Ref.Xor(Ref.Xor(Val(p), Val(q)), Val(r))
  {
    XorRefines(p, q);
    XorRefines(Xor(p, q), r);
  }

  lemma BigSigma0Refines(x: Word)
    requires IsBits(x)
    ensures IsBits(BigSigma0(x)) && Val(BigSigma0(x)) == Ref.BigSigma0(Val(x))
  {
    RotrValue(2, x);
    RotrValue(13, x);
    RotrValue(22, x);
    Xor3Refines(Rotr(2, x), Rotr(13, x), Rotr(22, x));
  }

  lemma BigSigma1Refines(x: Word)
    requires IsBits(x)
    ensures IsBits(BigSigma1(x)) && Val(BigSigma1(x)) == Ref.BigSigma1(Val(x))
  {
    RotrValue(6, x);
    RotrValue(11, x);
    RotrValue(25, x);
    Xor3Refines(Rotr(6, x), Rotr(11, x), Rotr(25, x));
  }

  lemma SmallSigma0Refines(x: Word)
    requires IsBits(x)
    ensures IsBits(SmallSigma0(x)) && Val(SmallSigma0(x)) == Ref.SmallSigma0(Val(x))
  {
    RotrValue(7, x);
    RotrValue(18, x);
    RightShiftValue(3, x);
    Xor3Refines(Rotr(7, x), Rotr(18, x), RightShift(3, x));
  }

  lemma SmallSigma1Refines(x: Word)
    requires IsBits(x)
    ensures IsBits(SmallSigma1(x)) && Val(SmallSigma1(x)) == Ref.SmallSigma1(Val(x))
  {
    RotrValue(17, x);
    RotrValue(19, x);
    RightShiftValue(10, x);
    Xor3Refines(Rotr(17, x), Rotr(19, x), RightShift(10, x));
  }

  lemma ChRefines(e: Word, f: Word, g: Word)
    requires IsBits(e) && IsBits(f) && IsBits(g)
    ensures IsBits(Ch(e, f, g)) && Val(Ch(e, f, g)) == Ref.Ch(Val(e), Val(f), Val(g))
  {
    AndRefines(e, f);
    NotRefines(e);
    AndRefines(Not(e), g);
    XorRefines(And(e, f), And(Not(e), g));
  }

  lemma MajRefines(a: Word, b: Word, c: Word)
    requires IsBits(a) && IsBits(b) && IsBits(c)
    ensures IsBits(Maj(a, b, c)) && Val(Maj(a, b, c)) == Ref.Maj(Val(a), Val(b), Val(c))
  {
    AndRefines(a, b);
    AndRefines(a, c);
    AndRefines(b, c);
    Xor3Refines(And(a, b), And(a, c), And(b, c));
  }

  // ========== Message schedule ==========

  lemma SliceBits(s: seq<int>, i: nat, j: nat)
    requires IsBits(s) && i <= j <= |s|
    ensures IsBits(s[i..j])
  {
    forall k | 0 <= k < j - i ensures IsBit(s[i..j][k]) {
      assert s[i..j][k] == s[i + k];
    }
  }

  /** One step of the schedule recurrence on bit words of values x2, x7, x15
      and x16: the source's grouping (s1 + w7) + (s0 + w16) gives the sum
      of section 6.2.2, step 1. */
  lemma ScheduleStep(w2: Word, w7: Word, w15: Word, w16: Word, x2: int, x7: int, x15: int, x16: int)
    requires IsBits(w2) && IsBits(w7) && IsBits(w15) && IsBits(w16)
    requires Val(w2) == x2 && Val(w7) == x7 && Val(w15) == x15 && Val(w16) == x16
    ensures IsBits(AddBits(AddBits(SmallSigma1(w2), w7), AddBits(SmallSigma0(w15), w16)))
    ensures Val(AddBits(AddBits(SmallSigma1(w2), w7), AddBits(SmallSigma0(w15), w16)))
         == Ref.Add(Ref.Add(Ref.Add(Ref.SmallSigma1(x2), x7), Ref.SmallSigma0(x15)), x16)
  {
    var s1, s0 := SmallSigma1(w2), SmallSigma0(w15);
    SmallSigma1Refines(w2);
    SmallSigma0Refines(w15);
    AddRefines(s1, w7);
    AddRefines(s0, w16);
    AddRefines(AddBits(s1, w7), AddBits(s0, w16));
    AddRegroup(Val(s1), x7, Val(s0), x16);
  }

  /** Each schedule word is the W_t of section 6.2.2 for the chunk as a block. */
  lemma {:induction false} ScheduleRefines(bits: seq<int>, t: nat)
    requires |bits| == 512 && IsBits(bits) && t < 64
    ensures IsBits(Schedule(bits, t))
    ensures Val(Schedule(bits, t)) == Ref.W(Ref.LastBlock(bits), t)
  {
    var block := Ref.LastBlock(bits);
    if t < 16 {
      SliceBits(bits, 32 * t, 32 * t + 32);
      assert block[t] == Val(bits[32 * t..32 * t + 32]);
    } else {
      ScheduleRefines(bits, t - 2);
      ScheduleRefines(bits, t - 7);
      ScheduleRefines(bits, t - 15);
      ScheduleRefines(bits, t - 16);
      ScheduleStep(Schedule(bits, t - 2), Schedule(bits, t - 7), Schedule(bits, t - 15), Schedule(bits, t - 16),
                   Ref.W(block, t - 2), Ref.W(block, t - 7), Ref.W(block, t - 15), Ref.W(block, t - 16));
    }
  }

  // ========== Rounds ==========

  lemma Temp1Refines(e: Word, f: Word, g: Word, h: Word, k: Word, w: Word)
    requires IsBits(e) && IsBits(f) && IsBits(g) && IsBits(h) && IsBits(k) && IsBits(w)
    ensures IsBits(Temp1(e, f, g, h, k, w))
    ensures Val(Temp1(e, f, g, h, k, w))
         == Ref.Add(Ref.Add(Ref.Add(Ref.Add(Val(h), Ref.BigSigma1(Val(e))),
                                    Ref.Ch(Val(e), Val(f), Val(g))), Val(k)), Val(w))
  {
    BigSigma1Refines(e);
    ChRefines(e, f, g);
    var x1 := AddBits(h, BigSigma1(e));
    var x2 := AddBits(x1, Ch(e, f, g));
    var x3 := AddBits(x2, k);
    AddRefines(h, BigSigma1(e));
    AddRefines(x1, Ch(e, f, g));
    AddRefines(x2, k);
    AddRefines(x3, w);
  }

  lemma Temp2Refines(a: Word, b: Word, c: Word)
    requires IsBits(a) && IsBits(b) && IsBits(c)
    ensures IsBits(Temp2(a, b, c))
    ensures Val(Temp2(a, b, c)) == Ref.Add(Ref.BigSigma0(Val(a)), Ref.Maj(Val(a), Val(b), Val(c)))
  {
    BigSigma0Refines(a);
    MajRefines(a, b, c);
    AddRefines(BigSigma0(a), Maj(a, b, c));
  }

  /** One round on bit words is one iteration of step 3 of section 6.2.2. */
  lemma RoundRefines(v: Vars, k: Word, w: Word)
    requires VarsBits(v) && IsBits(k) && IsBits(w)
    ensures VarsBits(Round(v, k, w))
    ensures VarsVal(Round(v, k, w)) == Ref.Round(VarsVal(v), Val(k), Val(w))
  {
    var t1, t2 := Temp1(v.e, v.f, v.g, v.h, k, w), Temp2(v.a, v.b, v.c);
    Temp1Refines(v.e, v.f, v.g, v.h, k, w);
    Temp2Refines(v.a, v.b, v.c);
    AddRefines(t1, t2);
    AddRefines(v.d, t1);
  }

  lemma {:induction false} RoundsRefines(v: Vars, bits: seq<int>, K: seq<Word>, n: nat)
    requires VarsBits(v) && |bits| == 512 && IsBits(bits) && ConstantsOk(K) && n <= 64
    ensures VarsBits(Rounds(v, bits, K, n))
    ensures VarsVal(Rounds(v, bits, K, n)) == Ref.Rounds(VarsVal(v), Ref.LastBlock(bits), n)
  {
    if n > 0 {
      RoundsRefines(v, bits, K, n - 1);
      ScheduleRefines(bits, n - 1);
      RoundRefines(Rounds(v, bits, K, n - 1), K[n - 1], Schedule(bits, n - 1));
    }
  }

  // ========== Compression and the hash ==========

  /** One chunk compressed on bit words is the next intermediate hash value. */
  lemma CompressRefines(H: seq<Word>, bits: seq<int>, K: seq<Word>)
    requires |H| == 8 && AllBits(H) && |bits| == 512 && IsBits(bits) && ConstantsOk(K)
    ensures AllBits(Compress(H, bits, K))
    ensures Vals(Compress(H, bits, K)) == Ref.Compress(Vals(H), Ref.LastBlock(bits))
  {
    var v := Rounds(VarsOf(H), bits, K, 64);
    var x := Vals(H);
    assert VarsVal(VarsOf(H)) == Ref.Vars(x[0], x[1], x[2], x[3], x[4], x[5], x[6], x[7]);
    RoundsRefines(VarsOf(H), bits, K, 64);
    AddVarsRefines(v, H);
    RefCompress(x, Ref.LastBlock(bits));
  }

  /** The final additions of a compression, on bit words. */
  lemma AddVarsRefines(v: Vars, H: seq<Word>)
    requires VarsBits(v) && |H| == 8 && AllBits(H)
    ensures AllBits(AddVars(v, H))
    ensures Vals(AddVars(v, H))
         == [Ref.Add(Val(v.a), Val(H[0])), Ref.Add(Val(v.b), Val(H[1])),
             Ref.Add(Val(v.c), Val(H[2])), Ref.Add(Val(v.d), Val(H[3])),
             Ref.Add(Val(v.e), Val(H[4])), Ref.Add(Val(v.f), Val(H[5])),
             Ref.Add(Val(v.g), Val(H[6])), Ref.Add(Val(v.h), Val(H[7]))]
  {
    AddRefines(v.a, H[0]);
    AddRefines(v.b, H[1]);
    AddRefines(v.c, H[2]);
    AddRefines(v.d, H[3]);
    AddRefines(v.e, H[4]);
    AddRefines(v.f, H[5]);
    AddRefines(v.g, H[6]);
    AddRefines(v.h, H[7]);
  }

  /** Ref.Compress in terms of its rounds. */
  lemma RefCompress(H: seq<int>, block: seq<int>)
    requires |H| == 8 && |block| == 16
    ensures var v := Ref.Rounds(Ref.Vars(H[0], H[1], H[2], H[3], H[4], H[5], H[6], H[7]), block, 64);
      Ref.Compress(H, block)
      == [Ref.Add(v.a, H[0]), Ref.Add(v.b, H[1]), Ref.Add(v.c, H[2]), Ref.Add(v.d, H[3]),
          Ref.Add(v.e, H[4]), Ref.Add(v.f, H[5]), Ref.Add(v.g, H[6]), Ref.Add(v.h, H[7])]
  {
  }

  /** The last block of p is the block read from its last 512 bits. */
  lemma LastBlockOfSuffix(p: seq<int>)
    requires |p| >= 512
    ensures Ref.LastBlock(p[|p| - 512..]) == Ref.LastBlock(p)
  {
    var b := |p| - 512;
    forall j | 0 <= j < 16
      ensures p[b..][32 * j..32 * j + 32] == p[b + 32 * j..b + 32 * j + 32]
    {
    }
  }

  lemma PrefixBits(s: seq<int>, k: nat)
    requires IsBits(s) && k <= |s|
    ensures IsBits(s[..k])
  {
    forall i | 0 <= i < k ensures IsBit(s[..k][i]) {
      assert s[..k][i] == s[i];
    }
  }

  /** Hashing on bit words follows the hash computation of section 6.2 block
      by block. */
  lemma {:induction false} HashBitsRefines(H: seq<Word>, p: seq<int>, K: seq<Word>)
    requires |H| == 8 && AllBits(H) && |p| % 512 == 0 && IsBits(p) && ConstantsOk(K)
    ensures AllBits(HashBits(H, p, K))
    ensures Vals(HashBits(H, p, K)) == Ref.HashBlocks(Vals(H), p)
    decreases |p|
  {
    if |p| > 0 {
      var front, chunk := p[..|p| - 512], p[|p| - 512..];
      assert IsBits(front) && IsBits(chunk) by {
        PrefixBits(p, |p| - 512);
        SuffixBits(p, |p| - 512);
      }
      var G := HashBits(H, front, K);
      HashBitsRefines(H, front, K);
      CompressRefines(G, chunk, K);
      LastBlockOfSuffix(p);
      assert Ref.HashBlocks(Vals(H), p) == Ref.Compress(Vals(G), Ref.LastBlock(chunk));
    }
  }

  /** A padded bit message is a bit string. */
  lemma PadBits(m: seq<int>)
    requires IsBits(m)
    ensures IsBits(Ref.Pad(m))
  {
    var zeros := Zeros(Ref.PadZeros(|m|));
    BinIsValue(|m|, 64);
    assert IsBit(1);
    ConcatBits(m, [1]);
    ConcatBits(m + [1], zeros);
    ConcatBits(m + [1] + zeros, Bin(|m|, 64));
  }

  /** The main correctness theorem: for a message of bits, hashing its padding
      on bit words from the initial state with the round constants, and
      reading back the eight state words, gives SHA-256 of the message. */
  lemma Sha256Correct(m: seq<int>)
    requires IsBits(m)
    ensures |Ref.Pad(m)| % 512 == 0 &&
            DigestWords(HashBits(InitialState(), Ref.Pad(m), RoundConstants())) == Ref.Sha256(m)
  {
    Ref.PadLength(|m|);
    PadBits(m);
    var H := HashBits(InitialState(), Ref.Pad(m), RoundConstants());
    HashBitsRefines(InitialState(), Ref.Pad(m), RoundConstants());
    InitialValues();
    DigestOfBits(H);
  }

  lemma InitialValues()
    ensures AllBits(InitialState()) && Vals(InitialState()) == Ref.H0
  {
  }

  /** Reading back bit words gives their values. */
  lemma DigestOfBits(H: seq<Word>)
    requires |H| == 8 && AllBits(H)
    ensures DigestWords(H) == Vals(H)
  {
  }
}
