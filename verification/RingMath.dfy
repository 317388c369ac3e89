/**
  Machine integers, the power-of-two mask and the free-running 64-bit cursors
  of the ring.

  The code keeps `write_pos` and `read_pos` as unsigned 64-bit numbers that are
  never reset, masks them with `Capacity - 1` to find a cell and subtracts them
  to count bytes. The rest of the project reasons with unbounded stream
  positions; the lemmas here say that the two agree, also after a cursor has
  wrapped past 2^64.
 */
module RingMath {

  newtype byte = x: int | 0 <= x < 256
  type u16 = x: int | 0 <= x < 0x1_0000
  type u32 = x: int | 0 <= x < 0x1_0000_0000
  type u64 = x: int | 0 <= x < 0x1_0000_0000_0000_0000

  const TWO_16: int := 0x1_0000
  const TWO_31: int := 0x8000_0000
  const TWO_32: int := 0x1_0000_0000
  const TWO_64: int := 0x1_0000_0000_0000_0000

  function Wrap32(x: int): (r: u32) { if 0 <= x < TWO_32 then x else x % TWO_32 }

  function Wrap64(x: int): (r: u64) { x % TWO_64 }

  function Add64(a: u64, b: u64): (r: u64) { Wrap64(a + b) }

  function Sub64(a: u64, b: u64): (r: u64) { Wrap64(a - b) }

  /** Bitwise AND of two naturals, bit by bit. */
  function BitAnd(a: nat, b: nat): (r: nat)
  {
    if a == 0 || b == 0 then 0
    else (if a % 2 == 1 && b % 2 == 1 then 1 else 0) + 2 * BitAnd(a / 2, b / 2)
  }

  function Pow2(k: nat): (r: nat)
    ensures r >= 1
  {
    if k == 0 then 1 else 2 * Pow2(k - 1)
  }

  /** The static assertions on the template parameter `Capacity`. */
  predicate StaticAsserts(cap: nat) {
    1024 <= cap < TWO_32 && BitAnd(cap, cap - 1) == 0
  }

  /** The capacities they admit; see StaticAssertsIff. */
  ghost predicate ValidCapacity(cap: nat) {
    1024 <= cap <= TWO_31 && exists k: nat :: cap == Pow2(k)
  }

  function RingPhys(cap: nat, pos: u64): (r: nat)
    requires cap >= 1
  {
    BitAnd(pos, cap - 1)
  }

  /** The tests of TryWrite, Reserve and BatchWriter::TryWrite, on unbounded cursors. */
  predicate Accepts(cap: nat, w: nat, r: nat, len: nat) {
    0 < len <= cap / 2 && w + len <= r + cap
  }

  // ---------------------------------------------------------------------
  // The mask and the capacity test
  // ---------------------------------------------------------------------

  lemma TimesAtLeast(m: nat, d: int)
    requires d >= 1
    ensures m * d >= m
  {
    assert m * d == m + m * (d - 1);
  }

  /** Quotient and remainder are determined by the division equation. */
  lemma DivModUnique(p: int, m: int, q: int, r: int)
    requires m > 0 && 0 <= r < m && p == m * q + r
    ensures p % m == r && p / m == q
  {
    var q0, r0 := p / m, p % m;
    var d := q - q0;
    assert m * d == r0 - r by {
      assert p == m * q0 + r0;
      assert m * q == m * q0 + m * d;
    }
    assert m * -d == -(m * d);
    if d >= 1 {
      TimesAtLeast(m, d);
    } else if d <= -1 {
      TimesAtLeast(m, -d);
    }
  }

  lemma {:induction false} BitAndSelf(a: nat)
    ensures BitAnd(a, a) == a
  {
    if a != 0 {
      BitAndSelf(a / 2);
    }
  }

  /** Masking with 2^k - 1 is the remainder modulo 2^k. */
  lemma {:induction false} MaskIsMod(p: nat, k: nat)
    ensures BitAnd(p, Pow2(k) - 1) == p % Pow2(k)
    decreases k
  {
    if k == 0 {
      assert Pow2(k) - 1 == 0 && BitAnd(p, 0) == 0;
    } else if p == 0 {
      DivModUnique(0, Pow2(k), 0, 0);
    } else {
      MaskIsMod(p / 2, k - 1);
      MaskStep(p, Pow2(k), Pow2(k - 1));
    }
  }

  lemma {:induction false} MaskStep(p: nat, n: nat, m: nat)
    requires p >= 1 && m >= 1 && n == 2 * m && BitAnd(p / 2, m - 1) == (p / 2) % m
    ensures BitAnd(p, n - 1) == p % n
  {
    OddMask(p, n, m);
    HalfMod(p, n, m);
  }

  lemma OddMask(p: nat, n: nat, m: nat)
    requires p >= 1 && m >= 1 && n == 2 * m
    ensures BitAnd(p, n - 1) == p % 2 + 2 * BitAnd(p / 2, m - 1)
  {
    assert (n - 1) / 2 == m - 1 && (n - 1) % 2 == 1;
  }

  lemma HalfMod(p: nat, n: nat, m: nat)
    requires m >= 1 && n == 2 * m
    ensures p % n == p % 2 + 2 * ((p / 2) % m)
  {
    var q := p / 2;
    var a, b := q / m, q % m;
    assert q == m * a + b;
    assert p == n * a + (2 * b + p % 2) by {
      assert n * a == 2 * (m * a);
    }
    DivModUnique(p, n, a, 2 * b + p % 2);
  }

  lemma {:induction false} ClearLowestBit(k: nat)
    ensures BitAnd(Pow2(k), Pow2(k) - 1) == 0
  {
    if k != 0 {
      var m := Pow2(k - 1);
      ClearLowestBit(k - 1);
      assert (2 * m) / 2 == m && (2 * m) % 2 == 0 && (2 * m - 1) / 2 == m - 1;
    }
  }

  /** The exponent that the test `c & (c - 1) == 0` certifies. */
  lemma {:induction false} Exponent(c: nat) returns (k: nat)
    requires c >= 1 && BitAnd(c, c - 1) == 0
    ensures c == Pow2(k)
  {
    if c == 1 {
      k := 0;
    } else if c % 2 == 1 {
      BitAndSelf(c / 2);
      assert false;
    } else {
      assert (c - 1) / 2 == c / 2 - 1;
      var j := Exponent(c / 2);
      k := j + 1;
    }
  }

  lemma {:induction false} Pow2Add(a: nat, b: nat)
    ensures Pow2(a + b) == Pow2(a) * Pow2(b)
  {
    if a != 0 {
      Pow2Add(a - 1, b);
      assert Pow2(a) * Pow2(b) == 2 * (Pow2(a - 1) * Pow2(b));
    }
  }

  lemma {:induction false} Pow2Monotone(a: nat, b: nat)
    ensures a < b <==> Pow2(a) < Pow2(b)
  {
    if a != 0 && b != 0 {
      Pow2Monotone(a - 1, b - 1);
    } else if a == 0 && b != 0 {
      assert Pow2(b) == 2 * Pow2(b - 1);
    }
  }

  lemma Pow2Small()
    ensures Pow2(1) == 2 && Pow2(8) == 256 && Pow2(10) == 1024
  {
    assert Pow2(2) == 4;
    assert Pow2(4) == 16 by { Pow2Add(2, 2); }
    assert Pow2(8) == 256 by { Pow2Add(4, 4); }
    assert Pow2(10) == 1024 by { Pow2Add(2, 8); }
  }

  lemma Pow2Large()
    ensures Pow2(16) == TWO_16 && Pow2(31) == TWO_31 && Pow2(32) == TWO_32 && Pow2(64) == TWO_64
  {
    assert Pow2(16) == TWO_16 by { Pow2Small(); Pow2Add(8, 8); }
    assert Pow2(32) == TWO_32 by { Pow2Add(16, 16); }
    assert Pow2(64) == TWO_64 by { Pow2Add(32, 32); }
    assert Pow2(31) == TWO_31 by { Pow2Small(); Pow2Add(1, 31); }
  }

  /** The bounds on the capacity are bounds on the exponent. */
  lemma {:induction false} ExponentBounds(k: nat)
    ensures 1024 <= Pow2(k) <==> 10 <= k
    ensures Pow2(k) <= TWO_31 <==> k <= 31
    ensures Pow2(k) < TWO_32 <==> k <= 31
  {
    assert 1024 <= Pow2(k) <==> 10 <= k by { Pow2Small(); Pow2Monotone(k, 10); }
    assert Pow2(k) <= TWO_31 <==> k <= 31 by { Pow2Large(); Pow2Monotone(31, k); }
    assert Pow2(k) < TWO_32 <==> k <= 31 by { Pow2Large(); Pow2Monotone(k, 32); }
  }

  lemma PowerAsserts(k: nat)
    ensures StaticAsserts(Pow2(k)) <==> 10 <= k <= 31
  {
    ExponentBounds(k);
    ClearLowestBit(k);
  }

  /** The static assertions admit exactly the powers of two from 2^10 to 2^31. */
  lemma StaticAssertsIff(cap: nat)
    ensures StaticAsserts(cap) <==> ValidCapacity(cap)
    ensures ValidCapacity(cap) <==> exists k: nat :: 10 <= k <= 31 && cap == Pow2(k)
  {
    if StaticAsserts(cap) {
      var k := Exponent(cap);
      PowerAsserts(k);
      ExponentBounds(k);
      assert 10 <= k <= 31 && cap == Pow2(k);
    }
    if ValidCapacity(cap) {
      var k: nat :| cap == Pow2(k);
      ExponentBounds(k);
      PowerAsserts(k);
    }
    if k: nat :| 10 <= k <= 31 && cap == Pow2(k) {
      ExponentBounds(k);
    }
  }

  /** Every admissible capacity divides 2^64. */
  lemma CapacityDivides(cap: nat) returns (m: nat)
    requires ValidCapacity(cap)
    ensures m >= 1 && cap * m == TWO_64
  {
    StaticAssertsIff(cap);
    var k: nat :| 10 <= k <= 31 && cap == Pow2(k);
    Pow2Large();
    Pow2Add(k, 64 - k);
    m := Pow2(64 - k);
  }

  // ---------------------------------------------------------------------
  // Wrapped cursors against unbounded positions
  // ---------------------------------------------------------------------

  lemma ModOfMod(p: nat, c: nat, m: nat)
    requires c >= 1 && m >= 1
    ensures (p % (c * m)) % c == p % c
  {
    var n := c * m;
    assert n >= 1;
    var q := p / n;
    var r := p % n;
    assert p == c * (m * q) + r by {
      assert p == n * q + r;
      assert (c * m) * q == c * (m * q);
    }
    DivModUnique(p, c, m * q + r / c, r % c) by {
      assert r == c * (r / c) + r % c;
      assert c * (m * q + r / c) == c * (m * q) + c * (r / c);
    }
  }

  /** The masked 64-bit cursor is the unbounded position modulo the capacity. */
  lemma PhysExact(cap: nat, pos: nat)
    requires ValidCapacity(cap)
    ensures RingPhys(cap, Wrap64(pos)) == pos % cap
  {
    var k: nat :| cap == Pow2(k);
    MaskIsMod(Wrap64(pos), k);
    var m := CapacityDivides(cap);
    ModOfMod(pos, cap, m);
  }

  lemma WrapSmall(x: nat)
    ensures x < TWO_64 ==> Wrap64(x) == x
    ensures x < TWO_32 ==> Wrap32(x) == x
  {}

  /** Wrapping commutes with advancing a cursor. */
  lemma AdvanceExact(pos: nat, n: nat)
    requires n < TWO_64
    ensures Add64(Wrap64(pos), n) == Wrap64(pos + n)
  {
    DivModUnique(Wrap64(pos) + n, TWO_64, (pos + n) / TWO_64 - pos / TWO_64, (pos + n) % TWO_64);
  }

  /** The wrapped difference of two cursors less than 2^64 apart is their true distance. */
  lemma DistanceExact(hi: nat, lo: nat)
    requires lo <= hi < lo + TWO_64
    ensures Sub64(Wrap64(hi), Wrap64(lo)) == hi - lo
  {
    DivModUnique(Wrap64(hi) - Wrap64(lo), TWO_64, lo / TWO_64 - hi / TWO_64, hi - lo);
  }

  /** The space test and the count of free bytes on wrapped cursors. */
  lemma SpaceTestExact(cap: nat, w: nat, r: nat, len: u32)
    requires cap < TWO_32 && r <= w <= r + cap
    ensures Sub64(Add64(Wrap64(w), len), Wrap64(r)) <= cap <==> w + len <= r + cap
    ensures Sub64(cap, Sub64(Wrap64(w), Wrap64(r))) == r + cap - w
  {
    AdvanceExact(w, len);
    DistanceExact(w + len, r);
    DistanceExact(w, r);
    WrapSmall(cap - (w - r));
  }

  // ---------------------------------------------------------------------
  // Cells
  // ---------------------------------------------------------------------

  /** The cell of a stream position: walk around the ring. */
  function CellOf(cap: nat, p: nat): (r: nat)
    ensures cap >= 1 ==> r < cap
    decreases p
  {
    if cap == 0 || p < cap then p else CellOf(cap, p - cap)
  }

  lemma {:induction false} CellIsMod(cap: nat, p: nat)
    requires cap >= 1
    ensures CellOf(cap, p) == p % cap
    decreases p
  {
    if p < cap {
      DivModUnique(p, cap, 0, p);
    } else {
      CellIsMod(cap, p - cap);
      var q := (p - cap) / cap;
      DivModUnique(p, cap, q + 1, (p - cap) % cap) by {
        assert cap * (q + 1) == cap * q + cap;
      }
    }
  }

  /** The masked 64-bit cursor is the cell of the unbounded position. */
  lemma PhysIsCell(cap: nat, pos: nat)
    requires ValidCapacity(cap)
    ensures RingPhys(cap, Wrap64(pos)) == CellOf(cap, pos)
  {
    PhysExact(cap, pos);
    CellIsMod(cap, pos);
  }

  /** Two different positions share a cell only when they are at least a capacity apart. */
  lemma {:induction false} SameCell(cap: nat, p: nat, q: nat)
    requires cap >= 1 && CellOf(cap, p) == CellOf(cap, q) && p != q
    ensures p + cap <= q || q + cap <= p
    decreases p + q
  {
    if p >= cap && q >= cap {
      SameCell(cap, p - cap, q - cap);
    }
  }

  /** Offsets that stay below the end of the array move along without wrapping. */
  lemma {:induction false} CellOffset(cap: nat, p: nat, k: nat)
    requires cap >= 1 && k < cap
    ensures CellOf(cap, p + k) == if CellOf(cap, p) + k < cap then CellOf(cap, p) + k else CellOf(cap, p) + k - cap
    decreases p
  {
    if p >= cap {
      CellOffset(cap, p - cap, k);
    }
  }
}
