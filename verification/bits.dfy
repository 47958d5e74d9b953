/** A `u32` as its 32 bits, least significant first, and the bitwise
    operators the pixel code applies to it, each defined bit by bit. */
module Bits {
  import opened MachineInts

  const WIDTH: nat := 32

  /** A `u32` word. */
  type Word = w: seq<bool> | |w| == WIDTH witness seq(32, i => false)

  function Pow2(n: nat): (p: nat)
    ensures p >= 1
  {
    if n == 0 then 1 else 2 * Pow2(n - 1)
  }

  lemma {:induction false} Pow2Add(a: nat, b: nat)
    ensures Pow2(a + b) == Pow2(a) * Pow2(b)
  {
    if b > 0 {
      Pow2Add(a, b - 1);
      assert Pow2(a + b) == 2 * Pow2(a + b - 1);
    }
  }

  lemma Pow2Monotone(a: nat, b: nat)
    requires a <= b
    ensures Pow2(a) <= Pow2(b)
  {
    Pow2Add(a, b - a);
    MulAtLeast(Pow2(a), Pow2(b - a));
  }

  lemma MulAtLeast(x: nat, k: nat)
    requires k >= 1
    ensures x <= x * k
  {
  }

  lemma Pow2Width()
    ensures Pow2(WIDTH) == TWO_32
  {
    Pow2Add(16, 16);
    assert Pow2(16) == 0x1_0000 by {
      Pow2Add(8, 8);
      assert Pow2(8) == 256 by {
        assert Pow2(4) == 16;
      }
    }
  }

  /** Bit `i` of a non-negative integer. */
  function Bit(v: nat, i: nat): bool {
    (v / Pow2(i)) % 2 == 1
  }

  /** A value below `2^i` has no bit `i`. */
  lemma BitOfSmall(v: nat, i: nat)
    requires v < Pow2(i)
    ensures !Bit(v, i)
  {
    DivMod(v, Pow2(i), 0, v);
  }

  /** The bits of `v % 2^n` are the bits of `v` below `n`. */
  lemma BitOfMod(v: nat, n: nat, i: nat)
    ensures Bit(v % Pow2(n), i) == (i < n && Bit(v, i))
  {
    if i >= n {
      Pow2Monotone(n, i);
      BitOfSmall(v % Pow2(n), i);
    } else {
      Pow2Add(i, n - i);
      assert Pow2(n - i) == 2 * Pow2(n - i - 1);
      ModParity(v, Pow2(i), Pow2(n - i - 1));
    }
  }

  /** Reducing modulo `p * 2m` keeps the parity of the quotient by `p`. */
  lemma ModParity(v: nat, p: nat, m: nat)
    requires p >= 1 && m >= 1
    ensures ((v % (p * (2 * m))) / p) % 2 == (v / p) % 2
  {
    var k := 2 * m;
    var q, r := v / (p * k), v % (p * k);
    var a, b := r / p, r % p;
    assert v == (q * k + a) * p + b by {
      assert r == a * p + b;
      assert v == q * (p * k) + r;
      Regroup(q, k, a, p, b);
    }
    DivMod(v, p, q * k + a, b);
    assert q * k + a == (q * m + a / 2) * 2 + a % 2;
    DivMod(q * k + a, 2, q * m + a / 2, a % 2);
  }

  lemma Regroup(q: int, k: int, a: int, p: int, b: int)
    ensures q * (p * k) + (a * p + b) == (q * k + a) * p + b
  {
  }

  /** The bits of `2^n - 1` are exactly the bits below `n`. */
  lemma BitOfLowOnes(n: nat, i: nat)
    ensures Bit(Pow2(n) - 1, i) == (i < n)
  {
    if i >= n {
      Pow2Monotone(n, i);
      BitOfSmall(Pow2(n) - 1, i);
    } else {
      Pow2Add(i, n - i);
      assert Pow2(n - i) == 2 * Pow2(n - i - 1);
      LowOnesQuotient(Pow2(i), Pow2(n - i - 1));
    }
  }

  /** `(p * 2m - 1) / p` is odd. */
  lemma LowOnesQuotient(p: nat, m: nat)
    requires p >= 1 && m >= 1
    ensures ((p * (2 * m) - 1) / p) % 2 == 1
  {
    var k := 2 * m;
    assert p * k - 1 == (k - 1) * p + (p - 1);
    DivMod(p * k - 1, p, k - 1, p - 1);
    DivMod(k - 1, 2, m - 1, 1);
  }

  /** Euclidean division is unique. */
  lemma DivMod(v: int, d: int, q: int, r: int)
    requires d > 0 && 0 <= r < d && v == q * d + r
    ensures v / d == q && v % d == r
  {
    var q0, r0 := v / d, v % d;
    assert (q0 - q) * d == r - r0;
    if q0 > q {
      MulAtLeast(d, q0 - q);
    } else if q0 < q {
      MulAtLeast(d, q - q0);
    }
  }

  // ------------------------------------------------------------ operators

  /** The low 32 bits of `v`: a `u32` value, or `v as u32` for a wider one. */
  function FromU32(v: nat): Word {
    seq(WIDTH, i requires 0 <= i < WIDTH => Bit(v, i))
  }

  function And(a: Word, b: Word): Word {
    seq(WIDTH, i requires 0 <= i < WIDTH => a[i] && b[i])
  }

  function Or(a: Word, b: Word): Word {
    seq(WIDTH, i requires 0 <= i < WIDTH => a[i] || b[i])
  }

  /** `w << k`: bits moved up, those past bit 31 dropped. */
  function Shl(w: Word, k: nat): Word
    requires k < WIDTH
  {
    seq(WIDTH, i requires 0 <= i < WIDTH => k <= i && w[i - k])
  }

  /** `w >> k` for an unsigned word. */
  function Shr(w: Word, k: nat): Word
    requires k < WIDTH
  {
    seq(WIDTH, i requires 0 <= i < WIDTH => i + k < WIDTH && w[i + k])
  }

  /** `(1 << n) - 1` on `u32`. */
  function LowOnes(n: nat): (w: Word)
    requires n < WIDTH
    ensures forall i :: 0 <= i < WIDTH ==> w[i] == (i < n)
  {
    Pow2Monotone(n, WIDTH);
    Pow2Width();
    var w := FromU32(Pow2(n) - 1);
    forall i | 0 <= i < WIDTH
      ensures w[i] == (i < n)
    {
      BitOfLowOnes(n, i);
    }
    w
  }

  /** `v & ((1 << n) - 1)` is `v % 2^n`: the low `n` bits. */
  lemma AndLowOnes(v: u32, n: nat)
    requires n < WIDTH
    ensures v % Pow2(n) < Pow2(n)
    ensures And(FromU32(v), LowOnes(n)) == FromU32(v % Pow2(n))
  {
    forall i | 0 <= i < WIDTH
      ensures And(FromU32(v), LowOnes(n))[i] == FromU32(v % Pow2(n))[i]
    {
      BitOfMod(v, n, i);
    }
  }
}
