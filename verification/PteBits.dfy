/** The bitwise operators, bit by bit, on natural numbers. */
module Bits {

  function Or(x: nat, y: nat): nat {
    if x == 0 && y == 0 then 0
    else 2 * Or(x / 2, y / 2) + if x % 2 == 1 || y % 2 == 1 then 1 else 0
  }

  function And(x: nat, y: nat): nat {
    if x == 0 || y == 0 then 0
    else 2 * And(x / 2, y / 2) + if x % 2 == 1 && y % 2 == 1 then 1 else 0
  }

  /** `x & ~y`. */
  function AndNot(x: nat, y: nat): nat {
    if x == 0 then 0
    else 2 * AndNot(x / 2, y / 2) + if x % 2 == 1 && y % 2 == 0 then 1 else 0
  }

  function Pow2(k: nat): (r: nat)
    ensures r > 0
  {
    if k == 0 then 1 else 2 * Pow2(k - 1)
  }

  function Shr(x: nat, k: nat): nat
    decreases k
  {
    if k == 0 then x else Shr(x / 2, k - 1)
  }

  /** The low `k` bits. */
  function Low(x: nat, k: nat): nat
    decreases k
  {
    if k == 0 then 0 else x % 2 + 2 * Low(x / 2, k - 1)
  }

  /** `k` bits of `x` from bit `a` on. */
  function Field(x: nat, a: nat, k: nat): nat {
    Low(Shr(x, a), k)
  }

  lemma {:induction false} LowBound(x: nat, k: nat)
    ensures Low(x, k) < Pow2(k)
    decreases k
  {
    if k > 0 {
      LowBound(x / 2, k - 1);
    }
  }

  lemma {:induction false} ShrOps(x: nat, y: nat, a: nat)
    ensures Shr(Or(x, y), a) == Or(Shr(x, a), Shr(y, a))
    ensures Shr(And(x, y), a) == And(Shr(x, a), Shr(y, a))
    ensures Shr(AndNot(x, y), a) == AndNot(Shr(x, a), Shr(y, a))
    decreases a
  {
    if a > 0 {
      ShrOps(x / 2, y / 2, a - 1);
      assert Or(x, y) / 2 == Or(x / 2, y / 2);
      assert And(x, y) / 2 == And(x / 2, y / 2);
      assert AndNot(x, y) / 2 == AndNot(x / 2, y / 2);
    }
  }

  lemma {:induction false} LowOps(x: nat, y: nat, k: nat)
    ensures Low(Or(x, y), k) == Or(Low(x, k), Low(y, k))
    ensures Low(And(x, y), k) == And(Low(x, k), Low(y, k))
    ensures Low(AndNot(x, y), k) == AndNot(Low(x, k), Low(y, k))
    decreases k
  {
    if k > 0 {
      LowOps(x / 2, y / 2, k - 1);
      assert Or(x, y) / 2 == Or(x / 2, y / 2) && Or(x, y) % 2 == if x % 2 == 1 || y % 2 == 1 then 1 else 0;
      assert And(x, y) / 2 == And(x / 2, y / 2) && And(x, y) % 2 == if x % 2 == 1 && y % 2 == 1 then 1 else 0;
      assert AndNot(x, y) / 2 == AndNot(x / 2, y / 2) && AndNot(x, y) % 2 == if x % 2 == 1 && y % 2 == 0 then 1 else 0;
      assert Low(x, k) / 2 == Low(x / 2, k - 1) && Low(x, k) % 2 == x % 2;
      assert Low(y, k) / 2 == Low(y / 2, k - 1) && Low(y, k) % 2 == y % 2;
    }
  }

  /** The operators work on every field separately. */
  lemma FieldOps(x: nat, y: nat, a: nat, k: nat)
    ensures Field(Or(x, y), a, k) == Or(Field(x, a, k), Field(y, a, k))
    ensures Field(And(x, y), a, k) == And(Field(x, a, k), Field(y, a, k))
    ensures Field(AndNot(x, y), a, k) == AndNot(Field(x, a, k), Field(y, a, k))
  {
    ShrOps(x, y, a);
    LowOps(Shr(x, a), Shr(y, a), k);
  }

  lemma {:induction false} Units(x: nat)
    ensures Or(x, 0) == x && Or(0, x) == x && And(x, 0) == 0 && AndNot(x, 0) == x
    decreases x
  {
    if x > 0 {
      Units(x / 2);
    }
  }

  lemma {:induction false} Zeros(a: nat)
    ensures Shr(0, a) == 0 && Low(0, a) == 0
    decreases a
  {
    if a > 0 {
      Zeros(a - 1);
    }
  }

  lemma {:induction false} ShrPow(k: nat, a: nat)
    ensures Shr(Pow2(k), a) == if a <= k then Pow2(k - a) else 0
    decreases a
  {
    if a > 0 {
      if k == 0 {
        Zeros(a - 1);
      } else {
        assert Pow2(k) / 2 == Pow2(k - 1);
        ShrPow(k - 1, a - 1);
      }
    }
  }

  lemma {:induction false} LowPow(k: nat, n: nat)
    ensures Low(Pow2(k), n) == if k < n then Pow2(k) else 0
    decreases n
  {
    if n > 0 {
      if k == 0 {
        Zeros(n - 1);
      } else {
        LowPow(k - 1, n - 1);
      }
    }
  }

  /** A single bit lies in the fields that cover it. */
  lemma FieldOfBit(k: nat, a: nat, n: nat)
    ensures Field(Pow2(k), a, n) == if a <= k < a + n then Pow2(k - a) else 0
  {
    ShrPow(k, a);
    Zeros(n);
    if a <= k {
      LowPow(k - a, n);
    }
  }

  lemma {:induction false} PowAdd(a: nat, b: nat)
    ensures Pow2(a + b) == Pow2(a) * Pow2(b)
  {
    if a > 0 {
      PowAdd(a - 1, b);
    }
  }

  lemma {:induction false} ShrIsDiv(x: nat, a: nat)
    ensures Shr(x, a) == x / Pow2(a)
    decreases a
  {
    if a > 0 {
      ShrIsDiv(x / 2, a - 1);
      DivTwice(x, Pow2(a - 1));
    }
  }

  lemma DivTwice(x: nat, d: nat)
    requires d > 0
    ensures x / 2 / d == x / (2 * d)
  {
    var q, r := x / 2 / d, x / 2 % d;
    assert x / 2 == q * d + r;
    assert x == (2 * d) * q + (2 * r + x % 2);
    QuotientIs(x, 2 * d, q, 2 * r + x % 2);
  }

  lemma DivDiv(x: nat, d: nat, k: nat)
    requires d > 0 && k > 0
    ensures d * k > 0 && x / d / k == x / (d * k)
  {
    Euclid(x, d);
    Euclid(x / d, k);
    DigitQuotient(x, d, k, x / d / k, x / d % k, x % d);
  }

  lemma Euclid(x: nat, d: nat)
    requires d > 0
    ensures x == d * (x / d) + x % d && 0 <= x % d < d
  {
  }

  lemma DigitQuotient(x: nat, d: nat, k: nat, q: nat, r: nat, low: nat)
    requires low < d && r < k && x == d * (k * q + r) + low
    ensures d * k > 0 && x / (d * k) == q
  {
    Digits(d, k, q, r, low);
    QuotientIs(x, d * k, q, d * r + low);
  }

  /** Two-digit numbers in mixed radix. */
  lemma Digits(d: nat, k: nat, q: nat, r: nat, low: nat)
    requires low < d && r < k
    ensures d * (k * q + r) + low == (d * k) * q + (d * r + low)
    ensures 0 <= d * r + low < d * k
  {
    Regroup(d, k, q, r);
    TimesMore(d, r + 1, k);
  }

  lemma Regroup(d: nat, k: nat, q: nat, r: nat)
    ensures d * (k * q + r) == (d * k) * q + d * r
  {
    assert d * (k * q + r) == d * (k * q) + d * r;
    assert d * (k * q) == (d * k) * q;
  }

  lemma TimesMore(w: nat, a: nat, b: nat)
    requires a <= b
    ensures a * w <= b * w && w * a <= w * b
  {
    assert (b - a) * w >= 0;
    assert b * w == a * w + (b - a) * w;
  }

  lemma AtLeast(d: int, k: int)
    requires d > 0 && k >= 1
    ensures d * k >= d
  {
  }

  lemma QuotientIs(x: int, d: int, q: int, r: int)
    requires d > 0 && x == d * q + r && 0 <= r < d
    ensures x / d == q && x % d == r
  {
    var q', r' := x / d, x % d;
    assert x == d * q' + r';
    assert d * (q - q') == d * q - d * q';
    assert d * (q' - q) == d * q' - d * q;
    if q > q' {
      AtLeast(d, q - q');
      assert false;
    }
    if q < q' {
      AtLeast(d, q' - q);
      assert false;
    }
  }

  lemma ModStep(x: nat, d: nat)
    requires d > 0
    ensures x % (2 * d) == x % 2 + 2 * (x / 2 % d)
  {
    var q, r := x / 2 / d, x / 2 % d;
    assert x / 2 == d * q + r;
    DoubleTimes(d, q);
    QuotientIs(x, 2 * d, q, x % 2 + 2 * r);
  }

  lemma {:induction false} LowIsMod(x: nat, k: nat)
    ensures Low(x, k) == x % Pow2(k)
    decreases k
  {
    if k > 0 {
      LowIsMod(x / 2, k - 1);
      ModStep(x, Pow2(k - 1));
    }
  }

  lemma {:induction false} OpBounds(x: nat, y: nat, k: nat)
    requires x < Pow2(k) && y < Pow2(k)
    ensures Or(x, y) < Pow2(k) && And(x, y) < Pow2(k) && AndNot(x, y) < Pow2(k)
    decreases k
  {
    if k > 0 {
      OpBounds(x / 2, y / 2, k - 1);
    }
  }

  /** Setting or clearing bit `k` in the field from bit `a` on. */
  lemma FieldWithBit(x: nat, k: nat, a: nat, n: nat)
    ensures Field(Or(x, Pow2(k)), a, n) == if a <= k < a + n then Or(Field(x, a, n), Pow2(k - a)) else Field(x, a, n)
    ensures Field(AndNot(x, Pow2(k)), a, n) ==
            if a <= k < a + n then AndNot(Field(x, a, n), Pow2(k - a)) else Field(x, a, n)
  {
    FieldOps(x, Pow2(k), a, n);
    FieldOfBit(k, a, n);
    Units(Field(x, a, n));
  }

  /** A one-bit field. */
  lemma OneBitField(x: nat, k: nat)
    ensures Field(x, k, 1) < 2
    ensures Field(Or(x, Pow2(k)), k, 1) == 1 && Field(AndNot(x, Pow2(k)), k, 1) == 0
  {
    FieldWithBit(x, k, k, 1);
    LowBound(Shr(x, k), 1);
  }

  lemma {:induction false} AndOnes(x: nat, k: nat)
    ensures And(x, Pow2(k) - 1) == Low(x, k)
    decreases k
  {
    if k > 0 {
      AndOnes(x / 2, k - 1);
      assert (Pow2(k) - 1) / 2 == Pow2(k - 1) - 1 && (Pow2(k) - 1) % 2 == 1;
      if x == 0 {
        Zeros(k);
      }
    }
  }

  /** Masking one bit. */
  lemma {:induction false} AndBit(x: nat, k: nat)
    ensures And(x, Pow2(k)) == Pow2(k) * Field(x, k, 1)
    decreases k
  {
    if k == 0 {
      Units(x / 2);
      assert Pow2(0) == 1 && And(x / 2, 0) == 0;
    } else {
      AndBit(x / 2, k - 1);
      AndDouble(x, Pow2(k - 1));
      DoubleTimes(Pow2(k - 1), Field(x, k, 1));
    }
  }

  lemma AndDouble(x: nat, z: nat)
    ensures And(x, 2 * z) == 2 * And(x / 2, z)
  {
  }

  lemma DoubleTimes(p: nat, t: nat)
    ensures (2 * p) * t == 2 * (p * t)
  {
  }

  /** Masking a field in place. */
  lemma {:induction false} AndShifted(x: nat, y: nat, k: nat)
    ensures And(x, Pow2(k) * y) == Pow2(k) * And(Shr(x, k), y)
    decreases k
  {
    hide And;
    if k > 0 {
      AndShifted(x / 2, y, k - 1);
      ShiftOnce(x, y, Pow2(k - 1), And(Shr(x / 2, k - 1), y));
    }
  }

  lemma ShiftOnce(x: nat, y: nat, p: nat, z: nat)
    requires And(x / 2, p * y) == p * z
    ensures And(x, (2 * p) * y) == (2 * p) * z
  {
    hide And;
    DoubleTimes(p, y);
    AndDouble(x, p * y);
    DoubleTimes(p, z);
  }
}

/** Page-table entries as the 64-bit words the kernel reads and writes.  Each
    expression the source applies to an entry is shown to be the operation on
    `Pte` records that the other modules use. */
module PteWords {
  import opened Types
  import opened Bits
  import opened PageTables
  import opened Addresses

  const PRESENT := 1
  const WRITABLE := 2
  const USER := 4
  const HUGE := 128
  const NX := 0x8000_0000_0000_0000
  const ADDR_MASK := 0x000F_FFFF_FFFF_F000

  /** The parts of an entry word, from bit 0 up. */
  datatype Parts = Parts(p: nat, w: nat, u: nat, b3: nat, ps: nat, b8: nat, frame: nat, b52: nat, nx: nat)

  function Split(x: U64): Parts {
    Parts(Field(x, 0, 1), Field(x, 1, 1), Field(x, 2, 1), Field(x, 3, 4), Field(x, 7, 1), Field(x, 8, 4),
          Field(x, 12, 40), Field(x, 52, 11), Field(x, 63, 1))
  }

  lemma FieldIs(x: nat, a: nat, n: nat)
    ensures Field(x, a, n) == x / Pow2(a) % Pow2(n)
  {
    ShrIsDiv(x, a);
    LowIsMod(Shr(x, a), n);
  }

  lemma SmallPowers()
    ensures Pow2(0) == 1 && Pow2(1) == 2 && Pow2(2) == 4 && Pow2(3) == 8 && Pow2(4) == 16 && Pow2(7) == 128
            && Pow2(8) == 256
    ensures Pow2(11) == 0x800 && Pow2(12) == 0x1000
  {
  }

  lemma Powers()
    ensures Pow2(0) == 1 && Pow2(1) == 2 && Pow2(2) == 4 && Pow2(3) == 8 && Pow2(4) == 16 && Pow2(7) == 128
            && Pow2(8) == 256
    ensures Pow2(11) == 0x800 && Pow2(12) == 0x1000 && Pow2(40) == 0x100_0000_0000
    ensures Pow2(52) == 0x10_0000_0000_0000 && Pow2(63) == NX
  {
    hide Pow2;
    SmallPowers();
    PowAdd(8, 12);
    PowAdd(20, 20);
    PowAdd(40, 12);
    PowAdd(52, 11);
  }

  /** The parts in plain arithmetic. */
  lemma SplitIs(x: U64)
    ensures Split(x) ==
            Parts(x % 2, x / 2 % 2, x / 4 % 2, x / 8 % 16, x / 128 % 2, x / 256 % 16,
                  x / 0x1000 % 0x100_0000_0000, x / 0x10_0000_0000_0000 % 0x800, x / NX % 2)
  {
    hide Field, Pow2;
    Powers();
    FieldIs(x, 0, 1);
    FieldIs(x, 1, 1);
    FieldIs(x, 2, 1);
    FieldIs(x, 3, 4);
    FieldIs(x, 7, 1);
    FieldIs(x, 8, 4);
    FieldIs(x, 12, 40);
    FieldIs(x, 52, 11);
    FieldIs(x, 63, 1);
  }

  predicate InBounds(f: Parts) {
    && f.p < 2 && f.w < 2 && f.u < 2 && f.b3 < 16 && f.ps < 2 && f.b8 < 16
    && f.frame < 0x100_0000_0000 && f.b52 < 0x800 && f.nx < 2
  }

  function Join(f: Parts): nat {
    f.p + 2 * f.w + 4 * f.u + 8 * f.b3 + 128 * f.ps + 256 * f.b8 + 0x1000 * f.frame
    + 0x10_0000_0000_0000 * f.b52 + NX * f.nx
  }

  lemma Peel(x: nat, d: nat, k: nat)
    requires d > 0 && k > 0
    ensures d * k > 0 && x / d == x / d % k + k * (x / (d * k))
  {
    DivDiv(x, d, k);
  }

  lemma PeelLow(x: nat)
    ensures x == x % 2 + 2 * (x / 2) && x / 2 == x / 2 % 2 + 2 * (x / 4) && x / 4 == x / 4 % 2 + 2 * (x / 8)
  {
    Peel(x, 2, 2);
    Peel(x, 4, 2);
  }

  lemma PeelMiddle(x: nat)
    ensures x / 8 == x / 8 % 16 + 16 * (x / 128) && x / 128 == x / 128 % 2 + 2 * (x / 256)
    ensures x / 256 == x / 256 % 16 + 16 * (x / 0x1000)
  {
    Peel(x, 8, 16);
    Peel(x, 128, 2);
    Peel(x, 256, 16);
  }

  lemma PeelHigh(x: U64)
    ensures x / 0x1000 == x / 0x1000 % 0x100_0000_0000 + 0x100_0000_0000 * (x / 0x10_0000_0000_0000)
    ensures x / 0x10_0000_0000_0000 == x / 0x10_0000_0000_0000 % 0x800 + 0x800 * (x / NX)
    ensures x / NX == x / NX % 2
  {
    Peel(x, 0x1000, 0x100_0000_0000);
    Peel(x, 0x10_0000_0000_0000, 0x800);
  }

  /** Words and their parts determine each other. */
  lemma JoinSplit(x: U64)
    ensures InBounds(Split(x)) && Join(Split(x)) == x
  {
    hide Field;
    SplitIs(x);
    PeelLow(x);
    PeelMiddle(x);
    PeelHigh(x);
  }

  lemma LowParts(f: Parts, x: int, high: nat)
    requires InBounds(f) && x == f.p + 2 * f.w + 4 * f.u + 8 * f.b3 + 128 * f.ps + 256 * f.b8 + 0x1000 * high
    ensures x % 2 == f.p && x / 2 % 2 == f.w && x / 4 % 2 == f.u && x / 8 % 16 == f.b3
    ensures x / 128 % 2 == f.ps && x / 256 % 16 == f.b8 && x / 0x1000 == high
  {
    QuotientIs(x, 2, f.w + 2 * f.u + 4 * f.b3 + 64 * f.ps + 128 * f.b8 + 0x800 * high, f.p);
    QuotientIs(x, 4, f.u + 2 * f.b3 + 32 * f.ps + 64 * f.b8 + 0x400 * high, f.p + 2 * f.w);
    QuotientIs(x, 8, f.b3 + 16 * f.ps + 32 * f.b8 + 0x200 * high, f.p + 2 * f.w + 4 * f.u);
    QuotientIs(x, 128, f.ps + 2 * f.b8 + 32 * high, f.p + 2 * f.w + 4 * f.u + 8 * f.b3);
    QuotientIs(x, 256, f.b8 + 16 * high, f.p + 2 * f.w + 4 * f.u + 8 * f.b3 + 128 * f.ps);
    QuotientIs(x, 0x1000, high, f.p + 2 * f.w + 4 * f.u + 8 * f.b3 + 128 * f.ps + 256 * f.b8);
    QuotientIs(x / 2, 2, f.u + 2 * f.b3 + 32 * f.ps + 64 * f.b8 + 0x400 * high, f.w);
    QuotientIs(x / 4, 2, f.b3 + 16 * f.ps + 32 * f.b8 + 0x200 * high, f.u);
    QuotientIs(x / 8, 16, f.ps + 2 * f.b8 + 32 * high, f.b3);
    QuotientIs(x / 128, 2, f.b8 + 16 * high, f.ps);
    QuotientIs(x / 256, 16, high, f.b8);
  }

  lemma HighParts(f: Parts, x: int, high: nat)
    requires InBounds(f) && x / 0x1000 == high == f.frame + 0x100_0000_0000 * (f.b52 + 0x800 * f.nx)
    ensures high % 0x100_0000_0000 == f.frame
    ensures x / 0x10_0000_0000_0000 % 0x800 == f.b52 && x / NX % 2 == f.nx
  {
    assert x / 0x10_0000_0000_0000 == high / 0x100_0000_0000 == f.b52 + 0x800 * f.nx;
    assert x / NX == high / 0x800_0000_0000_00 == f.nx;
  }

  lemma SplitJoin(f: Parts)
    requires InBounds(f)
    ensures Join(f) < TWO64 && Split(Join(f)) == f
  {
    hide Field;
    var high := f.frame + 0x100_0000_0000 * (f.b52 + 0x800 * f.nx);
    LowParts(f, Join(f), high);
    HighParts(f, Join(f), high);
    SplitIs(Join(f));
  }

  // --------------------------------------------------- words and records

  function ToPte(f: Parts): Pte
    requires InBounds(f)
  {
    Pte(f.p == 1, f.w == 1, f.u == 1, f.ps == 1, f.nx == 1, f.frame, f.b3 + 16 * f.b8 + 256 * f.b52)
  }

  function Bit(b: bool): nat {
    if b then 1 else 0
  }

  function FromPte(e: Pte): Parts
    requires 0 <= e.rest < 0x8_0000
  {
    Parts(Bit(e.p), Bit(e.w), Bit(e.u), e.rest % 16, Bit(e.ps), e.rest / 16 % 16, e.frame, e.rest / 256, Bit(e.nx))
  }

  function Decode(x: U64): Pte {
    JoinSplit(x);
    ToPte(Split(x))
  }

  function Encode(e: Pte): U64
    requires 0 <= e.rest < 0x8_0000
  {
    SplitJoin(FromPte(e));
    Join(FromPte(e))
  }

  /** Entry words and entry records are in one-to-one correspondence. */
  lemma WordRoundTrip(x: U64)
    ensures 0 <= Decode(x).rest < 0x8_0000 && Encode(Decode(x)) == x
  {
    hide Split, Join;
    JoinSplit(x);
    PartsRoundTrip(Split(x));
  }

  lemma RestParts(low: nat, middle: nat, high: nat)
    requires low < 16 && middle < 16 && high < 0x800
    ensures var rest := low + 16 * middle + 256 * high;
            0 <= rest < 0x8_0000 && rest % 16 == low && rest / 16 % 16 == middle && rest / 256 == high
  {
    var rest := low + 16 * middle + 256 * high;
    QuotientIs(rest, 16, middle + 16 * high, low);
    QuotientIs(rest / 16, 16, high, middle);
    QuotientIs(rest, 256, high, low + 16 * middle);
  }

  lemma PartsRoundTrip(f: Parts)
    requires InBounds(f)
    ensures 0 <= ToPte(f).rest < 0x8_0000 && FromPte(ToPte(f)) == f
  {
    RestParts(f.b3, f.b8, f.b52);
  }

  lemma RecordRoundTrip(e: Pte)
    requires 0 <= e.rest < 0x8_0000
    ensures Decode(Encode(e)) == e
  {
    hide Split, Join;
    SplitJoin(FromPte(e));
    assert ToPte(FromPte(e)) == e;
  }

  // ------------------------------------------- the source's expressions

  lemma WordBounds(x: U64, y: U64)
    ensures Or(x, y) < TWO64 && And(x, y) < TWO64
    ensures AndNot(x, y) < TWO64
  {
    hide Pow2, Or, And, AndNot;
    Powers();
    PowAdd(63, 1);
    OpBounds(x, y, 64);
  }

  /** The operators on words. */
  function OrW(x: U64, y: U64): U64 {
    WordBounds(x, y);
    Or(x, y)
  }

  function AndW(x: U64, y: U64): U64 {
    WordBounds(x, y);
    And(x, y)
  }

  function AndNotW(x: U64, y: U64): U64 {
    WordBounds(x, y);
    AndNot(x, y)
  }

  /** The word with only bit 0, 1, 2 or 63 set. */
  function BitWord(k: nat): U64
    requires k == 0 || k == 1 || k == 2 || k == 63
  {
    if k == 0 then PRESENT else if k == 1 then WRITABLE else if k == 2 then USER else NX
  }

  /** `x | bit` and `x & ~bit` change the part of that bit only. */
  lemma ChangeBit(x: U64, k: nat)
    requires k == 0 || k == 1 || k == 2 || k == 63
    ensures var f := Split(x);
            && Split(OrW(x, BitWord(k))) == f.(p := if k == 0 then 1 else f.p, w := if k == 1 then 1 else f.w,
                                               u := if k == 2 then 1 else f.u, nx := if k == 63 then 1 else f.nx)
            && Split(AndNotW(x, BitWord(k))) == f.(p := if k == 0 then 0 else f.p, w := if k == 1 then 0 else f.w,
                                                   u := if k == 2 then 0 else f.u, nx := if k == 63 then 0 else f.nx)
  {
    hide Field, Pow2, Or, AndNot;
    Powers();
    OneBitField(x, k);
    FieldWithBit(x, k, 0, 1);
    FieldWithBit(x, k, 1, 1);
    FieldWithBit(x, k, 2, 1);
    FieldWithBit(x, k, 3, 4);
    FieldWithBit(x, k, 7, 1);
    FieldWithBit(x, k, 8, 4);
    FieldWithBit(x, k, 12, 40);
    FieldWithBit(x, k, 52, 11);
    FieldWithBit(x, k, 63, 1);
  }

  /** `entry |= USER`, `entry |= WRITABLE`, `entry &= ~WRITABLE`, `entry &= ~NX`. */
  lemma FlagUpdates(x: U64)
    ensures Decode(OrW(x, PRESENT)) == Decode(x).(p := true)
    ensures Decode(OrW(x, USER)) == Decode(x).(u := true)
    ensures Decode(OrW(x, WRITABLE)) == Decode(x).(w := true)
    ensures Decode(AndNotW(x, WRITABLE)) == Decode(x).(w := false)
    ensures Decode(AndNotW(x, NX)) == Decode(x).(nx := false)
  {
    hide Split, OrW, AndNotW, Join;
    ChangeBit(x, 0);
    ChangeBit(x, 1);
    ChangeBit(x, 2);
    ChangeBit(x, 63);
  }

  /** `entry & PRESENT`, `entry & HUGEPAGE` and the like test one flag. */
  lemma FlagTests(x: U64)
    ensures AndW(x, PRESENT) != 0 <==> Decode(x).p
    ensures AndW(x, WRITABLE) != 0 <==> Decode(x).w
    ensures AndW(x, HUGE) != 0 <==> Decode(x).ps
  {
    hide Field, Pow2, And, Join;
    Powers();
    JoinSplit(x);
    AndBit(x, 0);
    AndBit(x, 1);
    AndBit(x, 7);
  }

  /** `entry & PTE_ADDR_MASK` is the address of the entry's frame. */
  lemma AddressOfEntry(x: U64)
    ensures AndW(x, ADDR_MASK) == 0x1000 * Decode(x).frame
  {
    hide Pow2, And, Join, Shr, Low;
    Powers();
    JoinSplit(x);
    AndShifted(x, 0xFF_FFFF_FFFF, 12);
    AndOnes(Shr(x, 12), 40);
  }

  /** A page address has nothing but a frame, and its bits from 52 up. */
  lemma SplitAddress(a: U64)
    requires a % 0x1000 == 0
    ensures Split(a) == Parts(0, 0, 0, 0, 0, 0, a / 0x1000 % 0x100_0000_0000, a / 0x10_0000_0000_0000 % 0x800, a / NX)
  {
    hide Split;
    PeelHigh(a);
    SplitJoin(Parts(0, 0, 0, 0, 0, 0, a / 0x1000 % 0x100_0000_0000, a / 0x10_0000_0000_0000 % 0x800, a / NX));
  }

  lemma SmallAddress(a: U64)
    requires a < 0x10_0000_0000_0000
    ensures a / 0x1000 < 0x100_0000_0000 && a / 0x10_0000_0000_0000 == 0 && a / NX == 0
  {
  }

  lemma DecodeAddress(a: U64)
    requires a % 0x1000 == 0 && a < 0x10_0000_0000_0000
    ensures Decode(a) == ZERO.(frame := a / 0x1000)
  {
    hide Split, Join;
    JoinSplit(a);
    SplitAddress(a);
    SmallAddress(a);
  }

  lemma SplitOr(x: U64, y: U64)
    ensures var (f, g) := (Split(x), Split(y));
            Split(OrW(x, y)) == Parts(Or(f.p, g.p), Or(f.w, g.w), Or(f.u, g.u), Or(f.b3, g.b3), Or(f.ps, g.ps),
                                      Or(f.b8, g.b8), Or(f.frame, g.frame), Or(f.b52, g.b52), Or(f.nx, g.nx))
  {
    hide Field, Or;
    FieldOps(x, y, 0, 1);
    FieldOps(x, y, 1, 1);
    FieldOps(x, y, 2, 1);
    FieldOps(x, y, 3, 4);
    FieldOps(x, y, 7, 1);
    FieldOps(x, y, 8, 4);
    FieldOps(x, y, 12, 40);
    FieldOps(x, y, 52, 11);
    FieldOps(x, y, 63, 1);
  }

  lemma OrBits(x: nat, y: nat)
    requires x < 2 && y < 2
    ensures Or(x, y) == if x == 1 || y == 1 then 1 else 0
  {
  }

  /** `address | flags` for any page address and any flags: the flags' low bits,
      and address bits or-ed together. */
  lemma AddressOrFlags(a: U64, flags: U64)
    requires a % 0x1000 == 0
    ensures var (e, f) := (Decode(OrW(a, flags)), Decode(flags));
            && e.p == f.p && e.w == f.w && e.u == f.u && e.ps == f.ps && e.nx == (f.nx || a >= NX)
            && e.frame == Or(a / 0x1000 % 0x100_0000_0000, f.frame)
            && (a < 0x10_0000_0000_0000 ==> e.rest == f.rest)
  {
    hide Split, OrW, Or, Join;
    JoinSplit(flags);
    SplitAddress(a);
    SplitOr(a, flags);
    var f := Split(flags);
    Units(f.p);
    Units(f.w);
    Units(f.u);
    Units(f.b3);
    Units(f.ps);
    Units(f.b8);
    Units(f.b52);
    OrBits(a / NX, f.nx);
  }

  /** Or-ing in `y` changes nothing exactly when `y` has no bit that `x` lacks. */
  lemma {:induction false} OrAbsorbs(x: nat, y: nat)
    ensures Or(x, y) == x <==> AndNot(y, x) == 0
    decreases x + y
  {
    if x > 0 || y > 0 {
      OrAbsorbs(x / 2, y / 2);
    }
  }

  /** Flags without address bits leave the frame alone. */
  lemma AddressWithFlags(a: U64, flags: U64)
    requires a % 0x1000 == 0 && a < 0x10_0000_0000_0000 && AndW(flags, ADDR_MASK) == 0
    ensures Decode(flags).frame == 0 && Decode(OrW(a, flags)) == Decode(flags).(frame := a / 0x1000)
  {
    hide Decode, OrW, AndW, Or;
    AddressOfEntry(flags);
    AddressOrFlags(a, flags);
    Units(a / 0x1000);
  }

  lemma MaskedAddress(pa: U64)
    ensures AndW(pa, ADDR_MASK) == pa / 0x1000 % 0x100_0000_0000 * 0x1000
  {
    hide AndW, Split, Join;
    AddressOfEntry(pa);
    JoinSplit(pa);
    SplitIs(pa);
  }

  // --------------------------------------------- the entries the code stores

  function AddressOf(f: Frame): U64 {
    f as int * 0x1000
  }

  /** Entries for a new kernel table, and for a new table that users may pass. */
  function Link(c: Frame): Pte {
    Pte(true, true, false, false, false, c, 0)
  }

  function UserLink(c: Frame): Pte {
    Link(c).(u := true)
  }

  /** `phys | PRESENT | WRITE`, and the same with `USER`. */
  lemma LinkWords(c: Frame)
    ensures var link := OrW(OrW(AddressOf(c), PRESENT), WRITABLE);
            Decode(link) == Link(c) && Decode(OrW(link, USER)) == UserLink(c)
  {
    hide Decode, OrW, AndNotW;
    var a := AddressOf(c);
    DecodeAddress(a);
    FlagUpdates(a);
    FlagUpdates(OrW(a, PRESENT));
    FlagUpdates(OrW(OrW(a, PRESENT), WRITABLE));
  }

  /** `vmm_map_page` stores `paddr | flags | PRESENT`, `paddr` rounded down to a page. */
  function LeafFor(pa: U64, flags: U64): Pte {
    Decode(OrW(OrW(pa / 0x1000 * 0x1000, flags), PRESENT))
  }

  /** Rights come from the flags; the frame is that of `pa` exactly when the
      flags have no address bit that `pa` lacks. */
  lemma LeafForIs(pa: U64, flags: U64)
    ensures var (e, f) := (LeafFor(pa, flags), Decode(flags));
            && e.p && e.w == f.w && e.u == f.u && e.ps == f.ps && e.nx == (f.nx || pa >= NX)
            && (e.frame == pa / 0x1000 % 0x100_0000_0000 <==> AndNot(f.frame, pa / 0x1000 % 0x100_0000_0000) == 0)
  {
    hide Decode, OrW, Or, AndNot;
    var a: U64 := pa / 0x1000 * 0x1000;
    AddressOrFlags(a, flags);
    FlagUpdates(OrW(a, flags));
    OrAbsorbs(pa / 0x1000 % 0x100_0000_0000, Decode(flags).frame);
  }

  /** In the intended use the entry is the flags with the frame put in. */
  lemma LeafWord(pa: U64, flags: U64)
    ensures pa < 0x10_0000_0000_0000 && AndW(flags, ADDR_MASK) == 0 ==>
              LeafFor(pa, flags) == Decode(flags).(frame := pa / 0x1000, p := true)
  {
    hide Decode, OrW, AndW;
    if pa < 0x10_0000_0000_0000 && AndW(flags, ADDR_MASK) == 0 {
      var a: U64 := pa / 0x1000 * 0x1000;
      AddressWithFlags(a, flags);
      FlagUpdates(OrW(a, flags));
    }
  }

  /** `map_user_4k` stores `(phys & MASK) | flags | USER`. */
  function UserLeaf(pa: U64, flags: U64): Pte {
    Decode(OrW(OrW(AndW(pa, ADDR_MASK), flags), USER))
  }

  lemma UserLeafIs(pa: U64, flags: U64)
    ensures var (e, f) := (UserLeaf(pa, flags), Decode(flags));
            && e.u && e.p == f.p && e.w == f.w && e.ps == f.ps && e.nx == f.nx
            && (e.frame == pa / 0x1000 % 0x100_0000_0000 <==> AndNot(f.frame, pa / 0x1000 % 0x100_0000_0000) == 0)
  {
    hide Decode, OrW, AndW, Or, AndNot;
    MaskedAddress(pa);
    var a := AndW(pa, ADDR_MASK);
    AddressOrFlags(a, flags);
    FlagUpdates(OrW(a, flags));
    OrAbsorbs(pa / 0x1000 % 0x100_0000_0000, Decode(flags).frame);
  }

  lemma UserLeafWord(pa: U64, flags: U64)
    ensures AndW(flags, ADDR_MASK) == 0 ==>
              UserLeaf(pa, flags) == Decode(flags).(frame := pa / 0x1000 % 0x100_0000_0000, u := true)
  {
    hide Decode, OrW, AndW;
    if AndW(flags, ADDR_MASK) == 0 {
      MaskedAddress(pa);
      AddressWithFlags(AndW(pa, ADDR_MASK), flags);
      FlagUpdates(OrW(AndW(pa, ADDR_MASK), flags));
    }
  }

  /** The flags `user_map_4k_in_pml4` builds: present and user, writable and
      no-execute as asked. */
  function UserFlags(w: bool, x: bool): U64 {
    var flags := OrW(PRESENT, USER);
    var flags := if w then OrW(flags, WRITABLE) else flags;
    if !x then OrW(flags, NX) else flags
  }

  lemma UserFlagsAre(w: bool, x: bool)
    ensures Decode(UserFlags(w, x)) == Pte(true, w, true, false, !x, 0, 0)
  {
    hide Decode, OrW, AndNotW;
    OrZero();
    FlagUpdates(0);
    FlagUpdates(PRESENT);
    var flags := OrW(PRESENT, USER);
    FlagUpdates(flags);
    SetNx(if w then OrW(flags, WRITABLE) else flags);
  }

  lemma OrZero()
    ensures OrW(0, PRESENT) == PRESENT && Decode(0) == ZERO
  {
    hide Decode, Or;
    Units(PRESENT);
    DecodeAddress(0);
  }

  lemma SetNx(x: U64)
    ensures Decode(OrW(x, NX)) == Decode(x).(nx := true)
  {
    hide Split, OrW, AndNotW, Join;
    ChangeBit(x, 63);
  }

  /** Leaf entry for the frame of `pa`; address bits above 51 are masked off. */
  function LeafEntry(pa: U64, w: bool, x: bool): Pte {
    Pte(true, w, true, false, !x, pa / 0x1000 % 0x100_0000_0000, 0)
  }

  /** `user_map_4k_in_pml4` stores `(pa & MASK) | flags`. */
  lemma UserAsLeafWord(pa: U64, w: bool, x: bool)
    ensures Decode(OrW(AndW(pa, ADDR_MASK), UserFlags(w, x))) == LeafEntry(pa, w, x)
  {
    hide Decode, OrW, AndW, UserFlags;
    MaskedAddress(pa);
    UserFlagsAre(w, x);
    AddressOfEntry(UserFlags(w, x));
    AddressWithFlags(AndW(pa, ADDR_MASK), UserFlags(w, x));
  }

  // ------------------------------------------------------ bytes of a word

  /** The weight of byte `k`. */
  function Weight(k: nat): (r: nat)
    ensures r > 0
  {
    if k == 0 then 1 else 256 * Weight(k - 1)
  }

  function ByteOf(x: nat, k: nat): nat {
    x / Weight(k) % 256
  }

  /** The word after a store to its byte `k`. */
  function WithByte(x: U64, k: nat, b: Byte): U64
    requires k < 8
  {
    WithByteBound(x, k, b);
    x + (b - ByteOf(x, k)) * Weight(k)
  }

  lemma {:induction false} WeightAdd(a: nat, b: nat)
    ensures Weight(a + b) == Weight(a) * Weight(b)
  {
    if a > 0 {
      WeightAdd(a - 1, b);
      TimesThree(256, Weight(a - 1), Weight(b));
    }
  }

  lemma TimesThree(x: nat, y: nat, z: nat)
    ensures x * y * z == x * (y * z)
  {
  }

  lemma Weight8()
    ensures Weight(8) == TWO64
  {
    assert Weight(4) == 0x1_0000_0000;
    WeightAdd(4, 4);
  }

  /** A word around its byte `k`. */
  lemma AroundByte(x: nat, k: nat) returns (high: nat, low: nat)
    ensures low < Weight(k) && x == high * Weight(k + 1) + ByteOf(x, k) * Weight(k) + low
    ensures high == x / Weight(k + 1)
  {
    var w := Weight(k);
    high, low := x / w / 256, x % w;
    DivDiv(x, w, 256);
    var q := x / w;
    assert q == 256 * high + ByteOf(x, k);
    assert x == w * q + low;
    Distribute(w, high, ByteOf(x, k));
  }

  lemma Distribute(w: nat, high: nat, byte: nat)
    ensures w * (256 * high + byte) == high * (256 * w) + byte * w
  {
  }

  /** A word before and after a store to its byte `k`. */
  lemma ByteStored(x: nat, k: nat, b: Byte) returns (high: nat, low: nat)
    ensures low < Weight(k) && x == high * (256 * Weight(k)) + ByteOf(x, k) * Weight(k) + low
    ensures x + (b - ByteOf(x, k)) * Weight(k) == high * (256 * Weight(k)) + b * Weight(k) + low
  {
    hide ByteOf, Weight;
    high, low := AroundByte(x, k);
    WeightNext(k);
    Replaced(x, Weight(k), high, ByteOf(x, k), b, low);
  }

  lemma HighBound(x: nat, w: nat, n: nat, high: nat)
    requires w > 0 && high * w <= x < w * n
    ensures high + 1 <= n && (high + 1) * w <= w * n
  {
    if high >= n {
      TimesMore(w, n, high);
      assert false;
    }
    TimesMore(w, high + 1, n);
  }

  lemma WithByteBound(x: U64, k: nat, b: Byte)
    requires k < 8
    ensures 0 <= x + (b - ByteOf(x, k)) * Weight(k) < TWO64
  {
    hide ByteOf, Weight;
    var high, low := ByteStored(x, k, b);
    Weight8();
    WeightAdd(k + 1, 7 - k);
    WeightNext(k);
    ByteBound(x, k);
    BelowNext(Weight(k), high, ByteOf(x, k), low);
    HighBound(x, 256 * Weight(k), Weight(7 - k), high);
    BelowNext(Weight(k), high, b, low);
  }

  lemma ByteBound(x: nat, k: nat)
    ensures 0 <= ByteOf(x, k) < 256
  {
  }

  lemma Replaced(x: int, w: int, high: int, byte: int, b: int, low: int)
    requires x == high * (256 * w) + byte * w + low
    ensures x + (b - byte) * w == high * (256 * w) + b * w + low
  {
  }

  lemma BelowNext(w: nat, high: nat, b: Byte, low: nat)
    requires low < w
    ensures 0 <= high * (256 * w) <= high * (256 * w) + b * w + low < (high + 1) * (256 * w)
  {
    TimesMore(w, b, 255);
    assert (high + 1) * (256 * w) == high * (256 * w) + 256 * w;
  }

  /** A store to a byte changes that byte and no other. */
  lemma WithByteIs(x: U64, k: nat, b: Byte, j: nat)
    requires k < 8
    ensures ByteOf(WithByte(x, k, b), j) == if j == k then b else ByteOf(x, j)
  {
    hide ByteOf, Weight;
    var high, low := ByteStored(x, k, b);
    ByteBound(x, k);
    if j == k {
      StoredByte(WithByte(x, k, b), k, high, b, low);
    } else if j > k {
      HigherByte(WithByte(x, k, b), k, high, b, low, j);
      HigherByte(x, k, high, ByteOf(x, k), low, j);
    } else {
      WithByteBound(x, k, b);
      LowerByte(x, b - ByteOf(x, k), k, j);
    }
  }

  lemma WeightNext(k: nat)
    ensures Weight(k + 1) == 256 * Weight(k)
  {
  }

  lemma StoredByte(x: nat, k: nat, high: nat, b: Byte, low: nat)
    requires low < Weight(k) && x == high * (256 * Weight(k)) + b * Weight(k) + low
    ensures ByteOf(x, k) == b
  {
    var w := Weight(k);
    Distribute(w, high, b);
    QuotientIs(x, w, 256 * high + b, low);
    QuotientIs(256 * high + b, 256, high, b);
  }

  lemma HigherByte(x: nat, k: nat, high: nat, byte: nat, low: nat, j: nat)
    requires low < Weight(k) && byte < 256 && j > k && x == high * (256 * Weight(k)) + byte * Weight(k) + low
    ensures ByteOf(x, j) == high / Weight(j - k - 1) % 256
  {
    var w := Weight(k);
    BelowNext(w, high, byte, low);
    QuotientIs(x, 256 * w, high, byte * w + low);
    WeightAdd(k + 1, j - k - 1);
    DivDiv(x, 256 * w, Weight(j - k - 1));
  }

  lemma LowerByte(x: nat, d: int, k: nat, j: nat)
    requires j < k && x + d * Weight(k) >= 0
    ensures ByteOf(x + d * Weight(k), j) == ByteOf(x, j)
  {
    hide Weight;
    var w, v := Weight(j), Weight(k - j - 1);
    WeightAdd(j, k - j);
    WeightNext(k - j - 1);
    var e := d * (256 * v);
    assert d * (w * (256 * v)) == w * e by {
      Shuffle(d, w, 256 * v);
    }
    assert x + d * Weight(k) == w * (x / w + e) + x % w by {
      Spread(w, x / w, e);
    }
    QuotientIs(x + d * Weight(k), w, x / w + e, x % w);
    assert e == 256 * (d * v) by {
      Shuffle(d, 256, v);
    }
    SameMod(x / w, d * v);
  }

  lemma Shuffle(d: int, w: int, v: int)
    ensures d * (w * v) == w * (d * v)
  {
  }

  lemma Spread(w: int, q: int, e: int)
    ensures w * (q + e) == w * q + w * e
  {
  }

  lemma SameMod(q: int, t: int)
    ensures (q + 256 * t) % 256 == q % 256
  {
  }

  /** The word an entry of memory holds. */
  function WordOf(e: Pte): U64 {
    if 0 <= e.rest < 0x8_0000 then Encode(e) else 0
  }

  /** The entry after a byte store. */
  function StoreByte(e: Pte, k: nat, b: Byte): Pte
    requires k < 8
  {
    Decode(WithByte(WordOf(e), k, b))
  }

  lemma StoreByteIs(e: Pte, k: nat, b: Byte, j: nat)
    requires k < 8
    ensures ByteOf(WordOf(StoreByte(e, k, b)), j) == if j == k then b else ByteOf(WordOf(e), j)
  {
    hide Decode, Encode, WithByte, ByteOf;
    WordRoundTrip(WithByte(WordOf(e), k, b));
    WithByteIs(WordOf(e), k, b, j);
  }

  lemma ZeroBytes(j: nat)
    ensures ByteOf(WordOf(ZERO), j) == 0
  {
    hide Decode, Encode;
    OrZero();
    WordRoundTrip(0);
  }

  /** The index macros `(va >> k) & 0x1FF` are the indices of the page. */
  lemma IndexWords(va: U64)
    ensures var pg := PageOf(va);
            && And(Shr(va, 39), 0x1FF) == pg.i4 && And(Shr(va, 30), 0x1FF) == pg.i3
            && And(Shr(va, 21), 0x1FF) == pg.i2 && And(Shr(va, 12), 0x1FF) == pg.i1
  {
    hide And, Shr, Pow2;
    IndexPowers();
    OneIndex(va, 39);
    OneIndex(va, 30);
    OneIndex(va, 21);
    OneIndex(va, 12);
  }

  lemma OneIndex(va: nat, k: nat)
    ensures And(Shr(va, k), Pow2(9) - 1) == va / Pow2(k) % Pow2(9)
  {
    hide And, Shr, Pow2;
    AndOnes(Shr(va, k), 9);
    LowIsMod(Shr(va, k), 9);
    ShrIsDiv(va, k);
  }

  lemma IndexPowers()
    ensures Pow2(9) == 0x200 && Pow2(12) == 0x1000 && Pow2(21) == 0x20_0000
    ensures Pow2(30) == 0x4000_0000 && Pow2(39) == 0x80_0000_0000
  {
    hide Pow2;
    SmallPowers();
    PowAdd(8, 1);
    PowAdd(12, 9);
    PowAdd(21, 9);
    PowAdd(30, 9);
  }
}
