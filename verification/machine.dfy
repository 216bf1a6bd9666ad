/** The integer types of kernel/include/types.h and the bitwise operators the
    kernel applies to them, as arithmetic on natural numbers. */
module Machine {

  const U32_LIMIT: int := 0x1_0000_0000

  type u8 = x: int | 0 <= x < 0x100
  type u16 = x: int | 0 <= x < 0x1_0000
  type u32 = x: int | 0 <= x < 0x1_0000_0000

  const NULL: u32 := 0

  type Bytes = seq<u8>

  datatype Option<+T> = None | Some(value: T)

  function Min(a: int, b: int): (m: int)
    ensures m <= a && m <= b && (m == a || m == b)
  {
    if a <= b then a else b
  }

  /** Removing one member of a list without repeats leaves no repeats. */
  lemma RemovedDistinct(q: seq<u32>, k: nat)
    requires k < |q| && forall i, j | 0 <= i < j < |q| :: q[i] != q[j]
    ensures var q' := q[..k] + q[k + 1..]; forall i, j | 0 <= i < j < |q'| :: q'[i] != q'[j]
  {
  }

  /** The link that member `i` of a list stores; the head pointer is that of member -1. */
  function Next(q: seq<u32>, i: int): u32 {
    if 0 <= i + 1 < |q| then q[i + 1] else NULL
  }

  /** Unsigned 32-bit reduction: what a store into a uint32_t keeps. */
  function Wrap(x: int): (r: u32) {
    if 0 <= x < 0x1_0000_0000 then x else x % 0x1_0000_0000
  }

  /** The bitwise `x & y`, bit by bit from the low end. */
  function And(x: nat, y: nat): (r: nat)
    ensures r <= x && r <= y
  {
    if x == 0 || y == 0 then 0 else 2 * And(x / 2, y / 2) + (if x % 2 == 1 && y % 2 == 1 then 1 else 0)
  }

  /** The bitwise `x & ~y`: `x` without the bits it shares with `y`. */
  function AndNot(x: nat, y: nat): (r: nat)
    ensures x - y <= r <= x
  {
    x - And(x, y)
  }

  /** The bitwise `x | y`: shared bits are counted once. */
  function Or(x: nat, y: nat): (r: nat)
    ensures r >= x && r >= y && r <= x + y
  {
    x + y - And(x, y)
  }

  function Pow2(k: nat): (r: nat)
    ensures r >= 1
  {
    if k == 0 then 1 else 2 * Pow2(k - 1)
  }

  lemma ModDouble(x: nat, m: nat)
    requires m >= 1
    ensures x % (2 * m) == 2 * ((x / 2) % m) + x % 2
  {
    var q, r := (x / 2) / m, (x / 2) % m;
    assert x / 2 == q * m + r;
    assert x == q * (2 * m) + (2 * r + x % 2) by {
      assert x == 2 * (q * m + r) + x % 2;
    }
    ModUnique(x, 2 * m, q, 2 * r + x % 2);
  }

  lemma ModUnique(x: int, m: nat, q: int, r: nat)
    requires r < m && x == q * m + r
    ensures x % m == r && x / m == q
  {
    var q', r' := x / m, x % m;
    assert x == q' * m + r';
    assert (q - q') * m == r' - r;
    MulBound(q - q', m);
  }

  lemma MulBound(d: int, m: nat)
    ensures d >= 1 ==> d * m >= m
    ensures d <= -1 ==> d * m <= 0 - m
  {
  }

  lemma AndOddMask(x: nat, h: nat)
    requires h >= 1
    ensures And(x, 2 * h - 1) == 2 * And(x / 2, h - 1) + x % 2
  {
    assert (2 * h - 1) / 2 == h - 1 && (2 * h - 1) % 2 == 1;
  }

  /** Masking with the low `k` bits is the remainder by `2^k`. */
  lemma {:induction false} AndLowMask(x: nat, k: nat)
    ensures And(x, Pow2(k) - 1) == x % Pow2(k)
  {
    hide And;
    if k == 0 {
      AndZero(x);
    } else {
      var h := Pow2(k - 1);
      AndLowMask(x / 2, k - 1);
      AndOddMask(x, h);
      ModDouble(x, h);
    }
  }

  lemma AndZero(x: nat)
    ensures And(x, 0) == 0
  {
  }

  /** Clearing the low `k` bits rounds down to a multiple of `2^k`. */
  lemma AndNotLowMask(x: nat, k: nat)
    ensures AndNot(x, Pow2(k) - 1) == x - x % Pow2(k)
    ensures AndNot(x, Pow2(k) - 1) % Pow2(k) == 0
  {
    AndLowMask(x, k);
    MultipleBelow(x, Pow2(k));
  }

  lemma ClearLowBits(x: nat)
    ensures AndNot(x, 7) == x / 8 * 8
    ensures AndNot(x, 0xFFF) == x / 0x1000 * 0x1000
  {
    assert Pow2(3) == 8;
    AndLowMask(x, 3);
    assert Pow2(6) == 64 && Pow2(12) == 0x1000;
    AndLowMask(x, 12);
  }

  lemma AndNotMultiple(x: nat, k: nat)
    ensures AndNot(x, Pow2(k) - 1) % Pow2(k) == 0
  {
    AndNotLowMask(x, k);
  }

  lemma MultipleBelow(x: nat, m: nat)
    requires m >= 1
    ensures (x - x % m) % m == 0
  {
    ModUnique(x - x % m, m, x / m, 0);
  }

  /** Joining keeps every bit of either number. */
  lemma {:induction false} OrKeeps(x: nat, y: nat)
    ensures And(Or(x, y), x) == x && And(Or(x, y), y) == y
  {
    if x > 0 || y > 0 {
      OrKeeps(x / 2, y / 2);
      assert Or(x, y) / 2 == Or(x / 2, y / 2);
    }
  }

  /** Bits of a part are bits of the whole. */
  lemma {:induction false} AndThrough(x: nat, y: nat, z: nat)
    requires And(x, y) == y && And(y, z) == z
    ensures And(x, z) == z
  {
    if z > 0 {
      assert x > 0 && y > 0;
      AndThrough(x / 2, y / 2, z / 2);
    }
  }

  /** Joining two numbers of `k` bits gives one of `k` bits. */
  lemma {:induction false} OrBelow(x: nat, y: nat, k: nat)
    requires x < Pow2(k) && y < Pow2(k)
    ensures Or(x, y) < Pow2(k)
  {
    if k > 0 {
      OrBelow(x / 2, y / 2, k - 1);
    }
  }

  lemma Pow2At32()
    ensures Pow2(32) == 0x1_0000_0000
  {
    assert Pow2(4) == 0x10 && Pow2(8) == 0x100 && Pow2(12) == 0x1000 && Pow2(16) == 0x1_0000;
    assert Pow2(20) == 0x10_0000 && Pow2(24) == 0x100_0000 && Pow2(28) == 0x1000_0000;
  }

  /** A multiple of `2^k` shares no bit with a number below `2^k`. */
  lemma {:induction false} AndDisjoint(h: nat, l: nat, k: nat)
    requires l < Pow2(k)
    ensures And(h * Pow2(k), l) == 0
  {
    if k == 0 || h == 0 || l == 0 {
    } else {
      var x := h * Pow2(k);
      assert x == 2 * (h * Pow2(k - 1));
      assert x / 2 == h * Pow2(k - 1) && x % 2 == 0;
      AndDisjoint(h, l / 2, k - 1);
    }
  }
}
