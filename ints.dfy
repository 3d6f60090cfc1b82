/** Go's fixed-width integers, as mathematical integers in their ranges.
    The masks, shifts right and continuation bits of the client apply to
    non-negative values, so `x & 0x7F` is `x % 0x80`, `x >> 7` is
    `x / 0x80`, and `b | 0x80` on a 7-bit value is `b + 0x80`. ToInt's
    `x |= g << shift` can involve negative int32s and is computed on the
    32-bit patterns (`Shl32`, `Or32`). */
module Ints {

  /** Go's `byte`. */
  type byte = b: int | 0 <= b < 0x100

  /** Go's `int32`. */
  type int32 = x: int | -0x8000_0000 <= x < 0x8000_0000

  /** Go's `uint32`. */
  type uint32 = u: int | 0 <= u < 0x1_0000_0000

  const Two32: int := 0x1_0000_0000

  /** `uint32(x)`: the two's-complement bit pattern of an int32. */
  function Uint32Of(x: int32): (u: uint32)
    ensures u == if x < 0 then x + Two32 else x
  {
    x % Two32
  }

  /** Reading a 32-bit pattern back as an int32. */
  function Int32Of(u: uint32): (x: int32)
    ensures Uint32Of(x) == u
  {
    if u < 0x8000_0000 then u else u - Two32
  }

  lemma Int32OfUint32(x: int32)
    ensures Int32Of(Uint32Of(x)) == x
  {
  }

  /** `int32(n)` on a wider integer: only the low 32 bits are kept. */
  function Wrap32(n: int): (x: int32)
    ensures Uint32Of(x) == n % Two32
    ensures -0x8000_0000 <= n < 0x8000_0000 ==> x == n
  {
    Int32Of(n % Two32)
  }

  function Pow2(k: nat): (p: nat)
    ensures p >= 1
  {
    if k == 0 then 1 else 2 * Pow2(k - 1)
  }

  lemma {:induction false} Pow2Add(a: nat, b: nat)
    ensures Pow2(a + b) == Pow2(a) * Pow2(b)
    decreases b
  {
    if b > 0 {
      Pow2Add(a, b - 1);
      calc {
        Pow2(a + b);
        2 * Pow2(a + b - 1);
        2 * (Pow2(a) * Pow2(b - 1));
        Pow2(a) * (2 * Pow2(b - 1));
        Pow2(a) * Pow2(b);
      }
    }
  }

  lemma {:induction false} Pow2Monotone(a: nat, b: nat)
    requires a <= b
    ensures Pow2(a) <= Pow2(b)
    decreases b
  {
    if a < b {
      Pow2Monotone(a, b - 1);
    }
  }

  lemma Pow2Of32()
    ensures Pow2(7) == 0x80 && Pow2(32) == Two32
  {
    assert Pow2(8) == 0x100;
    Pow2Add(8, 8);
    Pow2Add(16, 16);
  }

  /** `a << shift` on an int32 with an unsigned count: the bits pushed past
      bit 31 are lost, and a count of 32 or more leaves nothing. */
  function Shl32(a: int32, shift: nat): (r: int32)
  {
    if shift >= 32 then 0 else Wrap32(a * Pow2(shift))
  }

  /** Bitwise OR of the low w bits of a and c, least significant bit first. */
  function BitOr(a: nat, c: nat, w: nat): (r: nat)
    ensures r < Pow2(w)
  {
    if w == 0 then 0
    else (if a % 2 == 1 || c % 2 == 1 then 1 else 0) + 2 * BitOr(a / 2, c / 2, w - 1)
  }

  /** Go's `|` on two 32-bit patterns. */
  function Or32(a: uint32, c: uint32): (r: uint32)
  {
    Pow2Of32();
    BitOr(a, c, 32)
  }

  lemma {:induction false} OrZero(c: nat, w: nat)
    requires c < Pow2(w)
    ensures BitOr(0, c, w) == c
    decreases w
  {
    if w > 0 {
      OrZero(c / 2, w - 1);
    }
  }

  /** OR of a value below 2^k and a multiple of 2^k is their sum: no bit is
      set in both. */
  lemma {:induction false} OrDisjoint(a: nat, c: nat, q: nat, k: nat, w: nat)
    requires k <= w && a < Pow2(k) && c < Pow2(w) && c == q * Pow2(k)
    ensures BitOr(a, c, w) == a + c
    decreases w
  {
    if k == 0 {
      OrZero(c, w);
    } else {
      var p := Pow2(k - 1);
      assert c == 2 * (q * p) by {
        MulAssoc(q, 2, p);
      }
      OrDisjoint(a / 2, c / 2, q, k - 1, w - 1);
      assert BitOr(a, c, w) == a % 2 + 2 * BitOr(a / 2, c / 2, w - 1);
    }
  }

  /** The low 32 bits of g shifted left by k < 32: the low 32 - k bits of g,
      shifted by k. */
  lemma ShiftedLowBits(g: nat, k: nat)
    requires k < 32
    ensures (g * Pow2(k)) % Two32 == (g % Pow2(32 - k)) * Pow2(k)
  {
    var p := Pow2(k);
    var q := Pow2(32 - k);
    assert Two32 == p * q by {
      Pow2Add(k, 32 - k);
      Pow2Of32();
    }
    var d, m := MulSplit(g, p, q, Two32);
    ModMultiple(m, d);
  }

  /** g * p split at a multiple q * p == t, for q = 2^(32-k) and p = 2^k:
      t * (g / q) plus (g % q) * p, the latter below t. */
  lemma MulSplit(g: nat, p: nat, q: nat, t: int) returns (d: int, m: int)
    requires p >= 1 && q >= 1 && t == p * q
    ensures g * p == t * d + m && 0 <= m < t && m == (g % q) * p
  {
    d := g / q;
    var r := g % q;
    m := r * p;
    assert g == q * d + r;
    assert g * p == (q * d) * p + r * p;
    assert (q * d) * p == t * d;
    assert r * p < q * p;
  }

  /** A multiple of 2^k with k >= 32 has no bits in the low 32. */
  lemma HighBitsVanish(g: nat, k: nat)
    requires k >= 32
    ensures (g * Pow2(k)) % Two32 == 0
  {
    Pow2Add(32, k - 32);
    Pow2Of32();
    var t := Pow2(k - 32);
    assert Pow2(k) == Two32 * t;
    MulAssoc(g, Two32, t);
    ModMultiple(0, g * t);
  }

  lemma MulAssoc(a: int, b: int, c: int)
    ensures a * (b * c) == b * (a * c)
  {
  }

  lemma ModMultiple(a: int, m: int)
    ensures (a + Two32 * m) % Two32 == a % Two32
  {
  }

  lemma ModBelow(n: int)
    requires 0 <= n < Two32
    ensures n % Two32 == n
  {
  }

  lemma ModAdd(a: int, c: int)
    ensures (a % Two32 + c % Two32) % Two32 == (a + c) % Two32
  {
  }
}
