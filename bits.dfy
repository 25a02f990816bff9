/**
 * Bit strings as sequences of integers, most significant bit first, and the
 * arithmetic facts about them that the rest of the model relies on.
 *
 * A field element that encodes a binary digit is modelled as an `int` that is
 * 0 or 1. `Val` reads a bit string as a natural number, the way FIPS PUB 180-4
 * reads a 32-bit word or the 64-bit length field (big-endian); `Bin` writes a
 * number back as a fixed-width bit string.
 */
module Bits {

  /** 2 to the power n. */
  function Pow2(n: nat): (r: nat)
    ensures r >= 1
  {
    if n == 0 then 1 else 2 * Pow2(n - 1)
  }

  /** A field element that encodes a binary digit. */
  predicate IsBit(x: int) {
    x == 0 || x == 1
  }

  predicate IsBits(s: seq<int>) {
    forall i | 0 <= i < |s| :: IsBit(s[i])
  }

  /** n zero elements (the source's `[F::zero(); N]` and its zero fillers). */
  function Zeros(n: nat): (r: seq<int>)
    ensures |r| == n
    ensures forall i | 0 <= i < n :: r[i] == 0
  {
    seq(n, _ => 0)
  }

  /** The number a bit string denotes, most significant bit first. */
  function Val(s: seq<int>): int
  {
    if |s| == 0 then 0 else 2 * Val(s[..|s| - 1]) + s[|s| - 1]
  }

  /** n written in w bits, most significant bit first: the last bit is the
      lowest bit of n and the others write n / 2. */
  function Bin(n: nat, w: nat): (r: seq<int>)
    ensures |r| == w
  {
    if w == 0 then [] else Bin(n / 2, w - 1) + [n % 2]
  }

  lemma Pow2Add(m: nat, n: nat)
    ensures Pow2(m + n) == Pow2(m) * Pow2(n)
  {
    if n > 0 {
      Pow2Add(m, n - 1);
      assert Pow2(m + n) == 2 * Pow2(m + n - 1);
    }
  }

  lemma Pow2Of32()
    ensures Pow2(32) == 0x1_0000_0000
  {
    assert Pow2(4) == 16;
    Pow2Add(4, 4);
    Pow2Add(8, 8);
    Pow2Add(16, 16);
  }

  /** Division with remainder has only one answer. */
  lemma DivModUnique(q: int, r: int, d: int)
    requires d > 0 && 0 <= r < d
    ensures (q * d + r) / d == q && (q * d + r) % d == r
  {
    var n := q * d + r;
    var q', r' := n / d, n % d;
    assert n == q' * d + r';
    if q' < q {
      MulMonotone(q' + 1, q, d);
    } else if q' > q {
      MulMonotone(q + 1, q', d);
    }
  }

  /** The quotient and remainder of x are q and r when x = q * d + r. */
  lemma DivModOf(x: int, q: int, r: int, d: int)
    requires d > 0 && 0 <= r < d && x == q * d + r
    ensures x / d == q && x % d == r
  {
    DivModUnique(q, r, d);
  }

  lemma MulMonotone(a: int, b: int, d: int)
    requires a <= b && d >= 0
    ensures a * d <= b * d
  {
    assert b * d - a * d == (b - a) * d;
  }

  /** Adding multiples of the modulus does not change a remainder. */
  lemma ModAddMultiple(x: int, q: int, d: int)
    requires d > 0
    ensures (x + q * d) % d == x % d
  {
    assert x + q * d == (x / d + q) * d + x % d;
    DivModUnique(x / d + q, x % d, d);
  }

  /** n / (2 * p) is (n / 2) / p, and the remainder splits accordingly. */
  lemma DivModTwice(n: nat, p: nat)
    requires p > 0
    ensures n / (2 * p) == (n / 2) / p
    ensures n % (2 * p) == 2 * ((n / 2) % p) + n % 2
  {
    var q, r := (n / 2) / p, (n / 2) % p;
    assert n / 2 == q * p + r;
    assert n == q * (2 * p) + (2 * r + n % 2);
    DivModUnique(q, 2 * r + n % 2, 2 * p);
  }

  lemma {:induction false} ValBounds(s: seq<int>)
    requires IsBits(s)
    ensures 0 <= Val(s) < Pow2(|s|)
  {
    if |s| > 0 {
      ValBounds(s[..|s| - 1]);
    }
  }

  lemma {:induction false} ValConcat(u: seq<int>, v: seq<int>)
    ensures Val(u + v) == Val(u) * Pow2(|v|) + Val(v)
  {
    if |v| == 0 {
      assert u + v == u;
    } else {
      var v' := v[..|v| - 1];
      assert (u + v)[..|u + v| - 1] == u + v';
      ValConcat(u, v');
      calc {
        Val(u + v);
        2 * Val(u + v') + v[|v| - 1];
        2 * (Val(u) * Pow2(|v'|) + Val(v')) + v[|v| - 1];
        Val(u) * (2 * Pow2(|v'|)) + (2 * Val(v') + v[|v| - 1]);
        Val(u) * Pow2(|v|) + Val(v);
      }
    }
  }

  /** The first element of a bit string weighs 2^(length of the rest). */
  lemma ValCons(x: int, s: seq<int>)
    ensures Val([x] + s) == x * Pow2(|s|) + Val(s)
  {
    ValConcat([x], s);
    assert [x][..0] == [];
  }

  lemma {:induction false} ValZeros(n: nat)
    ensures Val(Zeros(n)) == 0
  {
    if n > 0 {
      assert Zeros(n)[..n - 1] == Zeros(n - 1);
      ValZeros(n - 1);
    }
  }

  /** Splitting a bit string at k splits its value into quotient and
      remainder by 2^(|s| - k). */
  lemma ValSplit(s: seq<int>, k: nat)
    requires IsBits(s) && k <= |s|
    ensures Val(s) / Pow2(|s| - k) == Val(s[..k])
    ensures Val(s) % Pow2(|s| - k) == Val(s[k..])
  {
    var u, v := s[..k], s[k..];
    assert s == u + v;
    ValConcat(u, v);
    SuffixBits(s, k);
    ValBounds(v);
    DivModOf(Val(s), Val(u), Val(v), Pow2(|v|));
  }

  lemma SuffixBits(s: seq<int>, k: nat)
    requires IsBits(s) && k <= |s|
    ensures IsBits(s[k..])
  {
    forall i | 0 <= i < |s| - k ensures IsBit(s[k..][i]) {
      assert s[k..][i] == s[k + i];
    }
  }

  lemma ConcatBits(u: seq<int>, v: seq<int>)
    requires IsBits(u) && IsBits(v)
    ensures IsBits(u + v)
  {
    forall i | 0 <= i < |u + v| ensures IsBit((u + v)[i]) {
      if i < |u| {
        assert (u + v)[i] == u[i];
      } else {
        assert (u + v)[i] == v[i - |u|];
      }
    }
  }

  lemma {:induction false} BinIsValue(n: nat, w: nat)
    ensures IsBits(Bin(n, w))
    ensures Val(Bin(n, w)) == n % Pow2(w)
  {
    if w > 0 {
      BinIsValue(n / 2, w - 1);
      assert Bin(n, w)[..w - 1] == Bin(n / 2, w - 1);
      DivModTwice(n, Pow2(w - 1));
    }
  }

  /** Writing back the value of a bit string gives the same bits. */
  lemma {:induction false} BinOfVal(s: seq<int>)
    requires IsBits(s)
    ensures Val(s) >= 0 && Bin(Val(s), |s|) == s
  {
    ValBounds(s);
    if |s| > 0 {
      var s' := s[..|s| - 1];
      ValBounds(s');
      BinOfVal(s');
      assert Val(s) / 2 == Val(s') && Val(s) % 2 == s[|s| - 1];
      assert s == s' + [s[|s| - 1]];
    }
  }
}
