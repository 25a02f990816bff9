/**
 * The helpers of the bit-sliced SHA-256 (src/sha_helpers.rs): conversions
 * between numbers, bytes and bit arrays, the padding of section 5.1.1 of
 * FIPS PUB 180-4 extended to a fixed capacity, and the field-bitwise algebra.
 *
 * A field element is an `int`; on elements that are 0 or 1 the ring
 * operations `+`, `-`, `*` and the comparison with 2 give the same results
 * over the integers as in a prime field of characteristic above 3, which is
 * all the algebra below relies on. A fixed-size array `[F; N]` is a value in
 * the source (it is copied, never shared), so it is a `seq<int>` here.
 */
module ShaHelpers {
  import opened Bits
  import Sha256Ref

  /** A 32-bit word in field form, `[F; 32]`. */
  type Word = s: seq<int> | |s| == 32 witness Zeros(32)

  /** A decoded byte. */
  type Byte = x: int | 0 <= x < 256

  // ========== Bit conversion ==========

  /** from_hex, after hex decoding: each byte becomes eight bits, most
      significant first, so bits 8j .. 8j+7 spell byte j. */
  function FromHexBytes(bytes: seq<Byte>): (bits: seq<int>)
    ensures |bits| == 8 * |bytes|
    ensures IsBits(bits)
    ensures forall j | 0 <= j < |bytes| :: Val(bits[8 * j..8 * j + 8]) == bytes[j]
  {
    if |bytes| == 0 then []
    else
      var head := seq(8, t requires 0 <= t < 8 => (bytes[0] / Pow2(7 - t)) % 2);
      var tail := FromHexBytes(bytes[1..]);
      FromHexHead(bytes[0], head);
      FromHexSlices(head, tail, bytes);
      head + tail
  }

  lemma FromHexHead(b: Byte, head: seq<int>)
    requires head == seq(8, t requires 0 <= t < 8 => (b / Pow2(7 - t)) % 2)
    ensures IsBits(head) && Val(head) == b
  {
    var bits := ToBitsBE(b, 8);
    forall t | 0 <= t < 8 ensures head[t] == bits[t] {
      assert 7 - t == 8 - 1 - t;
    }
    assert head == bits;
    assert Pow2(8) == 256;
    DivModUnique(0, b, 256);
  }

  lemma FromHexSlices(head: seq<int>, tail: seq<int>, bytes: seq<Byte>)
    requires |bytes| > 0 && |head| == 8 && Val(head) == bytes[0]
    requires |tail| == 8 * (|bytes| - 1)
    requires forall j | 0 <= j < |bytes| - 1 :: Val(tail[8 * j..8 * j + 8]) == bytes[1..][j]
    ensures forall j | 0 <= j < |bytes| :: Val((head + tail)[8 * j..8 * j + 8]) == bytes[j]
  {
    forall j | 0 <= j < |bytes|
      ensures Val((head + tail)[8 * j..8 * j + 8]) == bytes[j]
    {
      if j == 0 {
        assert (head + tail)[..8] == head;
      } else {
        assert (head + tail)[8 * j..8 * j + 8] == tail[8 * (j - 1)..8 * (j - 1) + 8];
      }
    }
  }

  /** to_bits_be::<N>: bit N-1-i of n at index i. The array is n modulo 2^N
      written big-endian. N is at most 64, the width of the u64 it shifts. */
  function ToBitsBE(n: nat, N: nat): (bits: seq<int>)
    requires N <= 64
    ensures |bits| == N
    ensures bits == Bin(n, N)
    ensures IsBits(bits) && Val(bits) == n % Pow2(N)
  {
    var bits := seq(N, i requires 0 <= i < N => (n / Pow2(N - 1 - i)) % 2);
    ToBitsAreBin(n, N, bits);
    BinIsValue(n, N);
    bits
  }

  lemma {:induction false} ToBitsAreBin(n: nat, N: nat, bits: seq<int>)
    requires |bits| == N
    requires forall i | 0 <= i < N :: bits[i] == (n / Pow2(N - 1 - i)) % 2
    ensures bits == Bin(n, N)
  {
    if N > 0 {
      var rest := bits[..N - 1];
      forall i | 0 <= i < N - 1 ensures rest[i] == (n / 2 / Pow2(N - 1 - 1 - i)) % 2 {
        HalfShift(n, N - 2 - i);
      }
      ToBitsAreBin(n / 2, N - 1, rest);
      assert bits[N - 1] == (n / Pow2(0)) % 2;
      assert bits == rest + [bits[N - 1]];
    }
  }

  /** Shifting right by k + 1 is halving and then shifting right by k. */
  lemma HalfShift(n: nat, k: nat)
    ensures n / Pow2(k + 1) == n / 2 / Pow2(k)
  {
    DivModTwice(n, Pow2(k));
  }

  /** bits_to_field::<N>: the first min(|bits|, N) elements are copied, every
      other entry of the N-element result is zero. */
  method BitsToField(bits: seq<int>, N: nat) returns (arr: seq<int>)
    ensures |arr| == N
    ensures forall i | 0 <= i < N :: arr[i] == if i < |bits| then bits[i] else 0
  {
    arr := Zeros(N);
    var i := 0;
    while i < |bits| && i < N
      invariant 0 <= i <= N && i <= |bits|
      invariant |arr| == N
      invariant forall j | 0 <= j < N :: arr[j] == if j < i then bits[j] else 0
    {
      arr := arr[i := bits[i]];
      i := i + 1;
    }
  }

  // ========== Padding ==========

  /** The panic of `sha256_pad` when the capacity is too small. */
  datatype PadError = CapacityError

  datatype Result<T> = Success(value: T) | Failure(error: PadError)

  /** pre_pad_len for a message of L bits: the least multiple of 512 that
      holds the message, the marker bit and the 64-bit length. */
  function MinPaddedLength(L: nat): (n: nat)
    ensures n % 512 == 0
    ensures L + 65 <= n < L + 65 + 512
  {
    Sha256Ref.PadLength(L);
    L + 1 + Sha256Ref.PadZeros(L) + 64
  }

  /** sha256_pad: the message, the marker, the zeros and the length field of
      section 5.1.1, then zero filler up to exactly maxBits; the second result
      is where the 64-bit length field starts. Fails when maxBits cannot hold
      the minimally padded message. */
  method Sha256Pad(inputBits: seq<int>, maxBits: nat) returns (r: Result<(seq<int>, nat)>)
    ensures r.Failure? <==> maxBits < MinPaddedLength(|inputBits|)
    ensures r.Success? ==>
      var (padded, digestIndex) := r.value;
      && |padded| == maxBits
      && digestIndex == MinPaddedLength(|inputBits|) - 64
      && padded[..digestIndex + 64] == Sha256Ref.Pad(inputBits)
      && forall i | digestIndex + 64 <= i < maxBits :: padded[i] == 0
  {
    var padded := inputBits;
    var bitLength := |padded|;
    padded := padded + [1];
    ghost var zeros := Sha256Ref.PadZeros(bitLength);
    while |padded| % 512 != 448
      invariant bitLength + 1 <= |padded| <= bitLength + 1 + zeros
      invariant padded == inputBits + [1] + Zeros(|padded| - bitLength - 1)
      decreases bitLength + 1 + zeros - |padded|
    {
      MarkerZerosEnd(bitLength, |padded|);
      padded := padded + [0];
    }
    MarkerZerosEnd(bitLength, |padded|);
    padded := padded + ToBitsBE(bitLength, 64);
    ghost var minimal := padded;
    assert minimal == Sha256Ref.Pad(inputBits);
    var prePadLen := |padded|;
    while |padded| < maxBits
      invariant prePadLen <= |padded|
      invariant |padded| == prePadLen || |padded| <= maxBits
      invariant padded[..prePadLen] == minimal
      invariant forall i | prePadLen <= i < |padded| :: padded[i] == 0
    {
      padded := padded + [0];
    }
    if |padded| != maxBits {
      return Failure(CapacityError);
    }
    var outputHashIndex := prePadLen - 64;
    return Success((padded, outputHashIndex));
  }

  /** The zero fill after the marker stops at the first length that is 448
      modulo 512, which is where section 5.1.1 puts the length field. */
  lemma MarkerZerosEnd(L: nat, x: nat)
    requires L + 1 <= x <= L + 1 + Sha256Ref.PadZeros(L)
    ensures x % 512 == 448 <==> x == L + 1 + Sha256Ref.PadZeros(L)
  {
    var k := Sha256Ref.PadZeros(L);
    var q := (448 - (L + 1)) / 512;
    assert 448 - (L + 1) == q * 512 + k;
    assert L + 1 + k == (-q) * 512 + 448;
    DivModUnique(-q, 448, 512);
    if x % 512 == 448 {
      var q' := x / 512;
      assert x - (L + 1 + k) == (q' + q) * 512;
      assert 0 <= L + 1 + k - x < 512;
    }
  }

  /** What section 5.1.1 puts where: the message, then a single 1, then zeros,
      then the message length as a 64-bit big-endian number. */
  lemma PadLayout(m: seq<int>)
    ensures var p := Sha256Ref.Pad(m);
      && |p| == MinPaddedLength(|m|)
      && p[..|m|] == m
      && p[|m|] == 1
      && (forall i | |m| < i < |p| - 64 :: p[i] == 0)
      && IsBits(p[|p| - 64..])
      && Val(p[|p| - 64..]) == |m| % Pow2(64)
  {
    var p := Sha256Ref.Pad(m);
    assert p[|p| - 64..] == Bin(|m|, 64);
    BinIsValue(|m|, 64);
  }

  // ========== Field bitwise logic ==========

  /** and: element-wise product, which is AND on 0/1 elements. */
  function And(a: seq<int>, b: seq<int>): (r: seq<int>)
    requires |a| == |b|
    ensures |r| == |a|
    ensures forall i | 0 <= i < |a| && IsBit(a[i]) && IsBit(b[i]) ::
      IsBit(r[i]) && (r[i] == 1 <==> a[i] == 1 && b[i] == 1)
  {
    seq(|a|, i requires 0 <= i < |a| => a[i] * b[i])
  }

  /** not: one minus the element, which is NOT on 0/1 elements. */
  function Not(a: seq<int>): (r: seq<int>)
    ensures |r| == |a|
    ensures forall i | 0 <= i < |a| && IsBit(a[i]) :: IsBit(r[i]) && (r[i] == 1 <==> a[i] == 0)
  {
    seq(|a|, i requires 0 <= i < |a| => 1 - a[i])
  }

  /** xor: a + b - 2ab, with the product taken from `and`. */
  function Xor(a: seq<int>, b: seq<int>): (r: seq<int>)
    requires |a| == |b|
    ensures |r| == |a|
    ensures forall i | 0 <= i < |a| && IsBit(a[i]) && IsBit(b[i]) ::
      IsBit(r[i]) && (r[i] == 1 <==> a[i] != b[i])
  {
    var andAB := And(a, b);
    seq(|a|, i requires 0 <= i < |a| => a[i] + b[i] - 2 * andAB[i])
  }

  /** The word rotated right by rot positions: destination j holds source
      (j - rot) mod N. */
  function Rotr(rot: nat, w: seq<int>): (r: seq<int>)
    ensures |r| == |w|
  {
    seq(|w|, j requires 0 <= j < |w| => w[(j - rot) % |w|])
  }

  /** rotate_right: source bit i goes to destination (i + rot) mod N. */
  method RotateRight(rot: nat, word: seq<int>) returns (rotated: seq<int>)
    ensures rotated == Rotr(rot, word)
    ensures forall i | 0 <= i < |word| :: rotated[(i + rot) % |word|] == word[i]
  {
    var n := |word|;
    rotated := Zeros(n);
    for i := 0 to n
      invariant |rotated| == n
      invariant forall j | 0 <= j < n ::
        rotated[j] == if (j - rot) % n < i then word[(j - rot) % n] else 0
    {
      var dest := (i + rot) % n;
      ghost var before := rotated;
      rotated := rotated[dest := word[i]];
      forall j | 0 <= j < n
        ensures rotated[j] == if (j - rot) % n < i + 1 then word[(j - rot) % n] else 0
      {
        RotateTarget(i, j, rot, n);
        if j != dest {
          assert rotated[j] == before[j];
        }
      }
    }
    forall i | 0 <= i < n ensures rotated[(i + rot) % n] == word[i] {
      RotateTarget(i, (i + rot) % n, rot, n);
    }
  }

  /** Destination j receives source i exactly when j = (i + rot) mod n. */
  lemma RotateTarget(i: int, j: int, rot: int, n: int)
    requires 0 <= i < n && 0 <= j < n
    ensures (j - rot) % n == i <==> j == (i + rot) % n
  {
    if (j - rot) % n == i {
      var q := (j - rot) / n;
      assert i + rot == (-q) * n + j;
      DivModUnique(-q, j, n);
    }
    if j == (i + rot) % n {
      var q := (i + rot) / n;
      assert j - rot == (-q) * n + i;
      DivModUnique(-q, i, n);
    }
  }

  /** Rotations compose by adding their amounts. */
  lemma RotrCompose(x: nat, y: nat, w: seq<int>)
    ensures Rotr(x, Rotr(y, w)) == Rotr(x + y, w)
  {
    var n := |w|;
    var inner := Rotr(y, w);
    forall j | 0 <= j < n ensures Rotr(x, inner)[j] == Rotr(x + y, w)[j] {
      var i := (j - x) % n;
      assert Rotr(x, inner)[j] == inner[i];
      assert inner[i] == w[(i - y) % n];
      ModSubTwice(j, x, y, n);
    }
  }

  lemma ModSubTwice(j: int, x: int, y: int, n: int)
    requires n > 0
    ensures ((j - x) % n - y) % n == (j - (x + y)) % n
  {
    var q, r := (j - x) / n, (j - x) % n;
    assert r - y == (j - (x + y)) + (-q) * n;
    ModAddMultiple(j - (x + y), -q, n);
  }

  /** Rotating by the word size is the identity, so rotating by r and
      then by N - r gives the word back: rotation permutes positions. */
  lemma RotrInverse(r: nat, w: seq<int>)
    requires r <= |w|
    ensures Rotr(|w| - r, Rotr(r, w)) == w
    ensures Rotr(r, Rotr(|w| - r, w)) == w
  {
    var n := |w|;
    var there, back := Rotr(n - r, Rotr(r, w)), Rotr(r, Rotr(n - r, w));
    forall j {:trigger there[j]} | 0 <= j < n ensures there[j] == w[j] {
      ModSubTwice(j, n - r, r, n);
      DivModOf(j - n, -1, j, n);
    }
    forall j {:trigger back[j]} | 0 <= j < n ensures back[j] == w[j] {
      ModSubTwice(j, r, n - r, n);
      DivModOf(j - n, -1, j, n);
    }
  }

  /** right_shift: destinations [shift, N) take sources [0, N - shift) and
      the first shift positions are zero; a shift of N or more gives zero. */
  function RightShift(shift: nat, word: seq<int>): (shifted: seq<int>)
    ensures |shifted| == |word|
    ensures forall j | 0 <= j < |word| :: shifted[j] == if j < shift then 0 else word[j - shift]
  {
    if shift < |word| then Zeros(shift) + word[..|word| - shift] else Zeros(|word|)
  }

  /** Carry out of positions i .. 31 of the ripple-carry adder (none at 32). */
  function CarryFrom(a: Word, b: Word, i: nat): int
    requires i <= 32
    decreases 32 - i
  {
    if i == 32 then 0
    else if a[i] + b[i] + CarryFrom(a, b, i + 1) >= 2 then 1
    else 0
  }

  /** The sum word of the ripple-carry adder: position i adds the carry from
      the positions to its right. The carry out of position 0 is dropped. */
  function AddBits(a: Word, b: Word): Word
  {
    seq(32, i requires 0 <= i < 32 =>
      var sum := a[i] + b[i] + CarryFrom(a, b, i + 1);
      if sum >= 2 then sum - 2 else sum)
  }

  /** wrapping_add: ripple-carry addition from index 31 down to index 0; on
      bit words the result is the sum modulo 2^32. */
  method WrappingAdd(a: Word, b: Word) returns (result: Word)
    ensures result == AddBits(a, b)
  {
    result := Zeros(32);
    var carry := 0;
    for i := 32 downto 0
      invariant |result| == 32
      invariant carry == CarryFrom(a, b, i)
      invariant forall j | i <= j < 32 :: result[j] == AddBits(a, b)[j]
    {
      var sum := a[i] + b[i] + carry;
      if sum >= 2 {
        result := result[i := sum - 2];
        carry := 1;
      } else {
        result := result[i := sum];
        carry := 0;
      }
    }
  }

  /** The positions i .. 31 of the sum, plus the carry out of them at its
      weight, add up to the same positions of a and b. */
  lemma {:induction false} AddSuffixValue(a: Word, b: Word, i: nat)
    requires i <= 32
    ensures Val(AddBits(a, b)[i..]) + CarryFrom(a, b, i) * Pow2(32 - i) == Val(a[i..]) + Val(b[i..])
    decreases 32 - i
  {
    var r := AddBits(a, b);
    if i < 32 {
      AddSuffixValue(a, b, i + 1);
      var c, c' := CarryFrom(a, b, i + 1), CarryFrom(a, b, i);
      var p := Pow2(31 - i);
      assert Pow2(32 - i) == 2 * p;
      assert r[i] + 2 * c' == a[i] + b[i] + c;
      assert r[i..] == [r[i]] + r[i + 1..];
      assert a[i..] == [a[i]] + a[i + 1..];
      assert b[i..] == [b[i]] + b[i + 1..];
      ValCons(r[i], r[i + 1..]);
      ValCons(a[i], a[i + 1..]);
      ValCons(b[i], b[i + 1..]);
      WeightedDigit(r[i], c', a[i], b[i], c, p);
    } else {
      assert a[32..] == [] && b[32..] == [] && r[32..] == [];
    }
  }

  /** One column of the adder, scaled by its weight p. */
  lemma WeightedDigit(s: int, cOut: int, x: int, y: int, cIn: int, p: int)
    requires s + 2 * cOut == x + y + cIn
    ensures s * p + cOut * (2 * p) == x * p + y * p + cIn * p
  {
    assert (s + 2 * cOut) * p == (x + y + cIn) * p;
  }

  /** wrapping_add is addition modulo 2^32 on bit words: the carry out of the
      top bit is dropped. */
  lemma AddBitsValue(a: Word, b: Word)
    requires IsBits(a) && IsBits(b)
    ensures IsBits(AddBits(a, b))
    ensures Val(AddBits(a, b)) == (Val(a) + Val(b)) % Sha256Ref.WordModulus
  {
    var r := AddBits(a, b);
    AddBitsAreBits(a, b);
    AddWithCarryValue(a, b);
    ValBounds(r);
    Pow2Of32();
    DropCarry(Val(r), CarryFrom(a, b, 0), Sha256Ref.WordModulus, Val(a) + Val(b));
  }

  /** The sum word plus the carry out of position 0 at weight 2^32. */
  lemma AddWithCarryValue(a: Word, b: Word)
    ensures Val(AddBits(a, b)) + CarryFrom(a, b, 0) * Pow2(32) == Val(a) + Val(b)
  {
    var r := AddBits(a, b);
    AddSuffixValue(a, b, 0);
    assert r[0..] == r;
    assert a[0..] == a;
    assert b[0..] == b;
  }

  /** A sum that fits below the modulus once a carry is dropped is the
      remainder of the full sum. */
  lemma DropCarry(v: int, c: int, m: int, x: int)
    requires m > 0 && 0 <= v < m && v + c * m == x
    ensures v == x % m
  {
    DivModUnique(c, v, m);
  }

  /** On bit words every digit of the sum is a bit. */
  lemma AddBitsAreBits(a: Word, b: Word)
    requires IsBits(a) && IsBits(b)
    ensures IsBits(AddBits(a, b))
  {
    var r := AddBits(a, b);
    forall i | 0 <= i < 32 ensures IsBit(r[i]) {
      var c := CarryFrom(a, b, i + 1);
      assert c == 0 || c == 1;
    }
  }

  // ========== Digest ==========

  /** Each element read as 0 when it is zero and as 1 otherwise. */
  function AsBits(s: seq<int>): (r: seq<int>)
    ensures |r| == |s| && IsBits(r)
  {
    seq(|s|, i requires 0 <= i < |s| => if s[i] == 0 then 0 else 1)
  }

  /** The fold of bits_to_u32 over indices 0 .. n-1, bit i at weight 2^(31-i).
      The source combines with `|`; no two terms share a bit, so it is `+`. */
  function U32Fold(bits: Word, n: nat): int
    requires n <= 32
  {
    if n == 0 then 0
    else U32Fold(bits, n - 1) + (if bits[n - 1] == 0 then 0 else 1) * Pow2(32 - n)
  }

  /** bits_to_u32: the big-endian value of the word, nonzero elements read as 1. */
  function BitsToU32(bits: Word): (r: Sha256Ref.U32)
    ensures r == Val(AsBits(bits))
    ensures IsBits(bits) ==> r == Val(bits)
  {
    U32FoldValue(bits, 32);
    assert AsBits(bits)[..32] == AsBits(bits);
    WordBounds(AsBits(bits));
    AsBitsOfBits(bits);
    U32Fold(bits, 32)
  }

  lemma AsBitsOfBits(s: seq<int>)
    ensures IsBits(s) ==> AsBits(s) == s
  {
  }

  lemma WordBounds(s: seq<int>)
    requires |s| == 32 && IsBits(s)
    ensures 0 <= Val(s) < Sha256Ref.WordModulus
  {
    ValBounds(s);
    Pow2Of32();
  }

  /** After n steps the fold holds the first n bits, shifted to the top. */
  lemma {:induction false} U32FoldValue(bits: Word, n: nat)
    requires n <= 32
    ensures U32Fold(bits, n) == Val(AsBits(bits)[..n]) * Pow2(32 - n)
  {
    var s := AsBits(bits);
    if n > 0 {
      U32FoldValue(bits, n - 1);
      var p, v, d := Pow2(32 - n), Val(s[..n - 1]), s[n - 1];
      assert Pow2(32 - (n - 1)) == 2 * p;
      assert s[..n][..n - 1] == s[..n - 1];
      assert Val(s[..n]) == 2 * v + d;
      assert U32Fold(bits, n) == v * (2 * p) + d * p;
      ScaledDigit(v, d, p, Val(s[..n]));
    } else {
      assert s[..0] == [];
    }
  }

  /** Appending digit d to v, at weight p. */
  lemma ScaledDigit(v: int, d: int, p: int, x: int)
    requires x == 2 * v + d
    ensures v * (2 * p) + d * p == x * p
  {
  }

  /** to_bits_be::<32> and bits_to_u32 are inverse on 32-bit values. */
  lemma U32RoundTrip(n: Sha256Ref.U32)
    ensures BitsToU32(ToBitsBE(n, 32)) == n
  {
    var bits := ToBitsBE(n, 32);
    Pow2Of32();
    DropCarry(n, 0, Pow2(32), n);
  }

  /** to_bits_be::<32>, then bits_to_field::<32>, then bits_to_u32 gives the
      number back. */
  method U32ThroughField(n: Sha256Ref.U32) returns (r: Sha256Ref.U32)
    ensures r == n
  {
    var bits := ToBitsBE(n, 32);
    var fields := BitsToField(bits, 32);
    assert fields == bits;
    U32RoundTrip(n);
    r := BitsToU32(fields);
  }

  /** The word values of digest_to_hex, before formatting: word j of the
      state read through bits_to_u32. */
  function DigestWords(H: seq<Word>): (r: seq<Sha256Ref.U32>)
    requires |H| == 8
    ensures |r| == 8
    ensures forall j | 0 <= j < 8 && IsBits(H[j]) :: r[j] == Val(H[j])
  {
    seq(8, j requires 0 <= j < 8 => BitsToU32(H[j]))
  }

  // ========== What the algebra computes on bit words ==========

  lemma {:induction false} AndValue(a: seq<int>, b: seq<int>)
    requires |a| == |b| && IsBits(a) && IsBits(b)
    ensures Val(And(a, b)) == Sha256Ref.BitwiseAnd(|a|, Val(a), Val(b))
  {
    var n := |a|;
    if n > 0 {
      var a', b' := a[..n - 1], b[..n - 1];
      assert And(a, b)[..n - 1] == And(a', b');
      AndValue(a', b');
      assert Val(a) / 2 == Val(a') && Val(a) % 2 == a[n - 1];
      assert Val(b) / 2 == Val(b') && Val(b) % 2 == b[n - 1];
    }
  }

  lemma {:induction false} XorValue(a: seq<int>, b: seq<int>)
    requires |a| == |b| && IsBits(a) && IsBits(b)
    ensures Val(Xor(a, b)) == Sha256Ref.BitwiseXor(|a|, Val(a), Val(b))
  {
    var n := |a|;
    if n > 0 {
      var a', b' := a[..n - 1], b[..n - 1];
      assert Xor(a, b)[..n - 1] == Xor(a', b');
      XorValue(a', b');
      assert Val(a) / 2 == Val(a') && Val(a) % 2 == a[n - 1];
      assert Val(b) / 2 == Val(b') && Val(b) % 2 == b[n - 1];
    }
  }

  lemma {:induction false} NotValue(a: seq<int>)
    requires IsBits(a)
    ensures Val(Not(a)) == Sha256Ref.BitwiseNot(|a|, Val(a))
  {
    var n := |a|;
    if n > 0 {
      var a' := a[..n - 1];
      assert Not(a)[..n - 1] == Not(a');
      NotValue(a');
      assert Val(a) / 2 == Val(a') && Val(a) % 2 == a[n - 1];
    }
  }

  /** Rotating right by r < N moves the last r elements to the front. */
  lemma RotrSplit(r: nat, w: seq<int>)
    requires r < |w|
    ensures Rotr(r, w) == w[|w| - r..] + w[..|w| - r]
  {
    var n := |w|;
    forall j | 0 <= j < n ensures Rotr(r, w)[j] == (w[n - r..] + w[..n - r])[j] {
      if j < r {
        DivModUnique(-1, j - r + n, n);
        assert (j - r) % n == j - r + n;
      } else {
        DivModUnique(0, j - r, n);
        assert (j - r) % n == j - r;
      }
    }
  }

  /** Rotating the bits right is ROTR of their value. */
  lemma RotrValue(r: nat, w: seq<int>)
    requires |w| == 32 && IsBits(w) && r < 32
    ensures IsBits(Rotr(r, w))
    ensures Val(Rotr(r, w)) == Sha256Ref.Rotr(r, Val(w))
  {
    RotrSplit(r, w);
    SwapValue(w, r);
  }

  /** The last r bits of a word put before the others make ROTR^r of its
      value. */
  lemma SwapValue(w: seq<int>, r: nat)
    requires |w| == 32 && IsBits(w) && r < 32
    ensures IsBits(w[32 - r..] + w[..32 - r])
    ensures Val(w[32 - r..] + w[..32 - r]) == Sha256Ref.Rotr(r, Val(w))
  {
    var hi, lo := w[..32 - r], w[32 - r..];
    assert IsBits(hi) by {
      forall i | 0 <= i < |hi| ensures IsBit(hi[i]) {
        assert hi[i] == w[i];
      }
    }
    SuffixBits(w, 32 - r);
    ConcatBits(lo, hi);
    ValConcat(lo, hi);
    ValSplit(w, 32 - r);
  }

  /** Shifting the bits right is SHR of their value. */
  lemma RightShiftValue(s: nat, w: seq<int>)
    requires |w| == 32 && IsBits(w) && s < 32
    ensures IsBits(RightShift(s, w))
    ensures Val(RightShift(s, w)) == Sha256Ref.Shr(s, Val(w))
  {
    var hi := w[..32 - s];
    assert RightShift(s, w) == Zeros(s) + hi;
    ValConcat(Zeros(s), hi);
    ValZeros(s);
    ValSplit(w, 32 - s);
  }
}
