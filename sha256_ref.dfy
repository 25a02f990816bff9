/**
 * Word-level SHA-256 as FIPS PUB 180-4 defines it: the reference against which
 * the bit-sliced model is proved.
 *
 * Words are integers in [0, 2^32). Addition is modulo 2^32 (section 3.2),
 * ROTR and SHR are written with division and remainder by powers of two
 * (section 3.2), and AND, XOR and complement are defined bit by bit from the
 * lowest bit up, by their truth tables. None of this mentions the bit arrays
 * of the model.
 */
module Sha256Ref {
  import opened Bits

  /** Words are added modulo 2^32. */
  const WordModulus: nat := 0x1_0000_0000

  type U32 = x: nat | x < 0x1_0000_0000

  /** The initial hash value H(0) of section 5.3.3. */
  const H0: seq<U32> := [
    0x6a09e667, 0xbb67ae85, 0x3c6ef372, 0xa54ff53a,
    0x510e527f, 0x9b05688c, 0x1f83d9ab, 0x5be0cd19
  ]

  /** The sixty-four constants K of section 4.2.2. */
  const K: seq<U32> := [
    0x428a2f98, 0x71374491, 0xb5c0fbcf, 0xe9b5dba5, 0x3956c25b, 0x59f111f1, 0x923f82a4, 0xab1c5ed5,
    0xd807aa98, 0x12835b01, 0x243185be, 0x550c7dc3, 0x72be5d74, 0x80deb1fe, 0x9bdc06a7, 0xc19bf174,
    0xe49b69c1, 0xefbe4786, 0x0fc19dc6, 0x240ca1cc, 0x2de92c6f, 0x4a7484aa, 0x5cb0a9dc, 0x76f988da,
    0x983e5152, 0xa831c66d, 0xb00327c8, 0xbf597fc7, 0xc6e00bf3, 0xd5a79147, 0x06ca6351, 0x14292967,
    0x27b70a85, 0x2e1b2138, 0x4d2c6dfc, 0x53380d13, 0x650a7354, 0x766a0abb, 0x81c2c92e, 0x92722c85,
    0xa2bfe8a1, 0xa81a664b, 0xc24b8b70, 0xc76c51a3, 0xd192e819, 0xd6990624, 0xf40e3585, 0x106aa070,
    0x19a4c116, 0x1e376c08, 0x2748774c, 0x34b0bcb5, 0x391c0cb3, 0x4ed8aa4a, 0x5b9cca4f, 0x682e6ff3,
    0x748f82ee, 0x78a5636f, 0x84c87814, 0x8cc70208, 0x90befffa, 0xa4506ceb, 0xbef9a3f7, 0xc67178f2
  ]

  // ---------- Operations on words (section 3.2) ----------

  /** Addition of words, modulo 2^32. */
  function Add(x: int, y: int): int
  {
    (x + y) % WordModulus
  }

  /** ROTR^n(x) = (x >> n) | (x << (32 - n)): the low n bits move to the top. */
  function Rotr(n: nat, x: int): int
    requires n < 32
  {
    x / Pow2(n) + (x % Pow2(n)) * Pow2(32 - n)
  }

  /** SHR^n(x) = x >> n. */
  function Shr(n: nat, x: int): int
  {
    x / Pow2(n)
  }

  /** The lowest w bits of x AND y. */
  function BitwiseAnd(w: nat, x: int, y: int): int
  {
    if w == 0 then 0
    else 2 * BitwiseAnd(w - 1, x / 2, y / 2) + (if x % 2 == 1 && y % 2 == 1 then 1 else 0)
  }

  /** The lowest w bits of x XOR y. */
  function BitwiseXor(w: nat, x: int, y: int): int
  {
    if w == 0 then 0
    else 2 * BitwiseXor(w - 1, x / 2, y / 2) + (if x % 2 != y % 2 then 1 else 0)
  }

  /** The lowest w bits of the complement of x. */
  function BitwiseNot(w: nat, x: int): int
  {
    if w == 0 then 0 else 2 * BitwiseNot(w - 1, x / 2) + (1 - x % 2)
  }

  function And(x: int, y: int): int { BitwiseAnd(32, x, y) }
  function Xor(x: int, y: int): int { BitwiseXor(32, x, y) }
  function Not(x: int): int { BitwiseNot(32, x) }

  // ---------- The functions of section 4.1.2 ----------

  function Ch(x: int, y: int, z: int): int { Xor(And(x, y), And(Not(x), z)) }
  function Maj(x: int, y: int, z: int): int { Xor(Xor(And(x, y), And(x, z)), And(y, z)) }
  function BigSigma0(x: int): int { Xor(Xor(Rotr(2, x), Rotr(13, x)), Rotr(22, x)) }
  function BigSigma1(x: int): int { Xor(Xor(Rotr(6, x), Rotr(11, x)), Rotr(25, x)) }
  function SmallSigma0(x: int): int { Xor(Xor(Rotr(7, x), Rotr(18, x)), Shr(3, x)) }
  function SmallSigma1(x: int): int { Xor(Xor(Rotr(17, x), Rotr(19, x)), Shr(10, x)) }

  // ---------- Padding and parsing (sections 5.1.1 and 5.2.1) ----------

  /** The number k of zero bits that follow the 1 marker: the least k >= 0
      with L + 1 + k = 448 (mod 512). */
  function PadZeros(L: nat): nat
  {
    (448 - (L + 1)) % 512
  }

  /** The padded message: M, a 1 bit, k zero bits, and L as a 64-bit number. */
  function Pad(m: seq<int>): (p: seq<int>)
    ensures |p| == |m| + 1 + PadZeros(|m|) + 64
  {
    m + [1] + Zeros(PadZeros(|m|)) + Bin(|m|, 64)
  }

  /** The sixteen 32-bit words of the 512-bit block that ends the bit string p. */
  function LastBlock(p: seq<int>): (M: seq<int>)
    requires |p| >= 512
    ensures |M| == 16
  {
    var b := |p| - 512;
    seq(16, j requires 0 <= j < 16 => Val(p[b + 32 * j..b + 32 * j + 32]))
  }

  // ---------- Hash computation (section 6.2.2) ----------

  /** The message schedule W_t of step 1. */
  function W(M: seq<int>, t: nat): int
    requires |M| == 16 && t < 64
  {
    if t < 16 then M[t]
    else Add(Add(Add(SmallSigma1(W(M, t - 2)), W(M, t - 7)), SmallSigma0(W(M, t - 15))), W(M, t - 16))
  }

  /** The eight working variables a, ..., h. */
  datatype Vars<T> = Vars(a: T, b: T, c: T, d: T, e: T, f: T, g: T, h: T)

  /** One iteration t of step 3. */
  function Round(v: Vars<int>, k: int, w: int): Vars<int>
  {
    var t1 := Add(Add(Add(Add(v.h, BigSigma1(v.e)), Ch(v.e, v.f, v.g)), k), w);
    var t2 := Add(BigSigma0(v.a), Maj(v.a, v.b, v.c));
    Vars(Add(t1, t2), v.a, v.b, v.c, Add(v.d, t1), v.e, v.f, v.g)
  }

  /** The working variables after iterations 0, ..., n - 1 of step 3. */
  function Rounds(v: Vars<int>, M: seq<int>, n: nat): Vars<int>
    requires |M| == 16 && n <= 64
  {
    if n == 0 then v else Round(Rounds(v, M, n - 1), K[n - 1], W(M, n - 1))
  }

  /** Steps 2 to 4 for one message block M: the next intermediate hash value. */
  function Compress(H: seq<int>, M: seq<int>): (r: seq<int>)
    requires |H| == 8 && |M| == 16
    ensures |r| == 8
  {
    var v := Rounds(Vars(H[0], H[1], H[2], H[3], H[4], H[5], H[6], H[7]), M, 64);
    [Add(v.a, H[0]), Add(v.b, H[1]), Add(v.c, H[2]), Add(v.d, H[3]),
     Add(v.e, H[4]), Add(v.f, H[5]), Add(v.g, H[6]), Add(v.h, H[7])]
  }

  /** The hash value after the blocks of p, processed first to last from H. */
  function HashBlocks(H: seq<int>, p: seq<int>): (r: seq<int>)
    requires |H| == 8 && |p| % 512 == 0
    ensures |r| == 8
    decreases |p|
  {
    if |p| == 0 then H else Compress(HashBlocks(H, p[..|p| - 512]), LastBlock(p))
  }

  /** SHA-256 of the bit string m: the eight words of the message digest. */
  function Sha256(m: seq<int>): (r: seq<int>)
    ensures |r| == 8
  {
    PadLength(|m|);
    HashBlocks(H0, Pad(m))
  }

  /** The padded length is a multiple of 512, and the least one that leaves
      room for the marker bit and the 64-bit length. */
  lemma PadLength(L: nat)
    ensures (L + 1 + PadZeros(L) + 64) % 512 == 0
    ensures L + 65 <= L + 1 + PadZeros(L) + 64 < L + 65 + 512
  {
  }
}
