/**
 The fixed-width primitives: a 128 x 128 -> 256 multiply over 64-bit limbs, a two-limb 256-bit
 integer, and two restoring long dividers. Shifts and masks are written as division and remainder
 by powers of two; `|` always joins disjoint bits here, so it is written `+`.
 */
module WideMath {
  import opened Words
  import opened Arithmetic

  // ---- 128-bit words ----

  function CheckedAdd(a: u128, b: u128): Option<u128> {
    if a + b < POW128 then Some(a + b) else None
  }

  function CheckedSub(a: u128, b: u128): Option<u128> {
    if b <= a then Some(a - b) else None
  }

  function WrappingSub(a: u128, b: u128): u128 {
    if b <= a then a - b else a - b + POW128
  }

  function OverflowingAdd(a: u128, b: u128): (u128, bool) {
    if a + b < POW128 then (a + b, false) else (a + b - POW128, true)
  }

  function OverflowingSub(a: u128, b: u128): (u128, bool) { (WrappingSub(a, b), a < b) }

  /** `a << 1`, losing the top bit. */
  function ShiftLeftOne(a: u128): u128 {
    if a < POW127 then 2 * a else 2 * a - POW128
  }

  /** `a >> 127`. */
  function TopBit(a: u128): u128 { if a < POW127 then 0 else 1 }

  function Bit(b: bool): u128 { if b then 1 else 0 }

  /** Schoolbook product over 64-bit limbs. No partial product or column sum leaves 128 bits. */
  function WideningMul(a: u128, b: u128): (r: (u128, u128))
    ensures r.0 * POW128 + r.1 == a * b
  {
    var aLo, aHi := a % POW64, a / POW64;
    var bLo, bHi := b % POW64, b / POW64;
    MulBounds(aLo, POW64 - 1, bLo, POW64 - 1);
    MulBounds(aLo, POW64 - 1, bHi, POW64 - 1);
    MulBounds(aHi, POW64 - 1, bLo, POW64 - 1);
    MulBounds(aHi, POW64 - 1, bHi, POW64 - 1);
    var ll: u128, lh: u128, hl: u128, hh: u128 := aLo * bLo, aLo * bHi, aHi * bLo, aHi * bHi;
    var mid: u128 := ll / POW64 + lh % POW64 + hl % POW64;
    var lo: u128 := ll % POW64 + (mid % POW64) * POW64;
    LimbProduct(aLo, aHi, bLo, bHi);
    ColumnSum(ll, lh, hl, hh);
    MulBounds(a, POW128 - 1, b, POW128 - 1);
    var hi: u128 := hh + lh / POW64 + hl / POW64 + mid / POW64;
    (hi, lo)
  }

  /** Carrying the middle column loses nothing. */
  lemma ColumnSum(ll: nat, lh: nat, hl: nat, hh: nat)
    ensures var mid := ll / POW64 + lh % POW64 + hl % POW64;
            && (hh + lh / POW64 + hl / POW64 + mid / POW64) * POW128 + ll % POW64 + (mid % POW64) * POW64
            == hh * POW128 + (lh + hl) * POW64 + ll
  {}

  lemma LimbProduct(aLo: nat, aHi: nat, bLo: nat, bHi: nat)
    ensures (aHi * POW64 + aLo) * (bHi * POW64 + bLo)
         == (aHi * bHi) * POW128 + (aLo * bHi + aHi * bLo) * POW64 + aLo * bLo
  {
    var m := POW64;
    assert (aHi * m + aLo) * (bHi * m + bLo)
        == (aHi * m) * (bHi * m) + (aHi * m) * bLo + aLo * (bHi * m) + aLo * bLo;
    assert (aHi * m) * (bHi * m) == (aHi * bHi) * (m * m);
    assert (aHi * m) * bLo == (aHi * bLo) * m;
    assert aLo * (bHi * m) == (aLo * bHi) * m;
  }

  // ---- 256-bit integers ----

  datatype U256 = U256(hi: u128, lo: u128) {
    function Value(): nat { hi * POW128 + lo }

    predicate IsZero() { hi == 0 && lo == 0 }

    /** The derived ordering: high limb first. */
    predicate Below(other: U256) {
      hi < other.hi || (hi == other.hi && lo < other.lo)
    }

    function ToU128(): Option<u128> { if hi == 0 then Some(lo) else None }

    function Plus(other: U256): (r: Option<U256>)
      ensures r == Narrow(Value() + other.Value())
    {
      var (sum, carry) := OverflowingAdd(lo, other.lo);
      match CheckedAdd(hi, other.hi)
      case None => None
      case Some(h) =>
        match CheckedAdd(h, Bit(carry))
        case None => None
        case Some(h') => Some(U256(h', sum))
    }

    function Minus(other: U256): (r: Option<U256>)
      ensures r == Narrow(Value() - other.Value())
    {
      var (diff, borrow) := OverflowingSub(lo, other.lo);
      match CheckedSub(hi, other.hi)
      case None => None
      case Some(h) =>
        match CheckedSub(h, Bit(borrow))
        case None => None
        case Some(h') => Some(U256(h', diff))
    }

    function WrappingMinus(other: U256): (r: U256)
      ensures r.Value() == if other.Value() <= Value() then Value() - other.Value()
                           else Value() - other.Value() + POW256
    {
      var (diff, borrow) := OverflowingSub(lo, other.lo);
      U256(WrappingSub(WrappingSub(hi, other.hi), Bit(borrow)), diff)
    }

    function Shl1(): (r: U256)
      ensures r.Value() == if Value() < POW256 / 2 then 2 * Value() else 2 * Value() - POW256
      ensures r.lo + 1 < POW128
    {
      U256(ShiftLeftOne(hi) + TopBit(lo), ShiftLeftOne(lo))
    }

    function Times(k: u128): (r: Option<U256>)
      ensures r == Narrow(Value() * k)
    {
      var (loHi, loLo) := WideningMul(lo, k);
      var (hiHi, hiLo) := WideningMul(hi, k);
      assert Value() * k == (hi * k) * POW128 + lo * k by { TimesDistributes(hi, lo, k); }
      if hiHi != 0 then None else
        match CheckedAdd(loHi, hiLo)
        case None => None
        case Some(h) => Some(U256(h, loLo))
    }
  }

  lemma TimesDistributes(hi: nat, lo: nat, k: nat)
    ensures (hi * POW128 + lo) * k == (hi * k) * POW128 + lo * k
  {
    var m := POW128;
    assert (hi * m) * k == (hi * k) * m;
  }

  function FromNat(n: nat): (r: U256)
    requires n < POW256
    ensures r.Value() == n
  {
    U256(n / POW128, n % POW128)
  }

  /** The 256-bit integer of this value, when there is one. */
  function Narrow(n: int): (r: Option<U256>)
    ensures r.Some? <==> 0 <= n < POW256
    ensures r.Some? ==> r.value.Value() == n
  {
    if 0 <= n < POW256 then Some(FromNat(n)) else None
  }

  lemma ValueInjective(x: U256, y: U256)
    requires x.Value() == y.Value()
    ensures x == y
  {}

  /** Comparing limbs is comparing values. */
  lemma BelowIsLess(x: U256, y: U256)
    ensures x.Below(y) <==> x.Value() < y.Value()
  {}

  function MulU128(a: u128, b: u128): (r: U256)
    ensures r.Value() == a * b
  {
    var (hi, lo) := WideningMul(a, b);
    U256(hi, lo)
  }

  // ---- Division: what it means ----

  function MulDivRem(a: u128, b: u128, d: u128): (r: Option<(u128, u128)>)
    ensures r.Some? <==> d != 0 && (a * b) / d <= U128_MAX
    ensures r.Some? ==> a * b == r.value.0 * d + r.value.1 && r.value.1 < d
  {
    MulLe(0, a, b);
    if d == 0 then None else
      FloorBounds(a * b, d);
      DivMod(a * b, d);
      if (a * b) / d > U128_MAX then None else Some(((a * b) / d, (a * b) % d))
  }

  function MulDivFloor(a: u128, b: u128, d: u128): (r: Option<u128>)
    ensures r.Some? <==> d != 0 && (a * b) / d <= U128_MAX
    ensures r.Some? ==> r.value == (a * b) / d
  {
    match MulDivRem(a, b, d)
    case None => None
    case Some((q, rem)) => DivModUnique(a * b, d, q, rem); Some(q)
  }

  function MulDivCeil(a: u128, b: u128, d: u128): (r: Option<u128>)
    ensures a * b >= 0
    ensures r.Some? <==> d != 0 && CeilDiv(a * b, d) <= U128_MAX
    ensures r.Some? ==> r.value == CeilDiv(a * b, d)
  {
    MulLe(0, a, b);
    match MulDivRem(a, b, d)
    case None => None
    case Some((q, rem)) =>
      DivModUnique(a * b, d, q, rem);
      if rem == 0 then Some(q) else CheckedAdd(q, 1)
  }

  // ---- Division: the loops ----

  /** `a << 1` modulo `m`. */
  ghost function Doubled(a: nat, m: nat): int { if 2 * a < m then 2 * a else 2 * a - m }

  /** One bit of restoring division modulo `m`: the carry bit decides when the shift overflowed. */
  lemma RestoringStep(prefix: nat, bit: nat, quo: nat, rem: nat, d: nat, m: nat)
    requires bit <= 1 && rem < d < m
    requires prefix == quo * d + rem && 2 * prefix + bit < m * d
    ensures var shifted := Doubled(rem, m) + bit;
            var take := 2 * rem >= m || shifted >= d;
            var left := if d <= shifted then shifted - d else shifted - d + m;
            && 2 * quo < m
            && (!take ==> shifted < d && 2 * prefix + bit == (2 * quo) * d + shifted)
            && (take ==> 0 <= left < d && 2 * prefix + bit == (2 * quo + 1) * d + left)
  {
    assert (2 * quo) * d == 2 * (quo * d);
    assert (2 * quo + 1) * d == 2 * (quo * d) + d;
    if m <= 2 * quo { MulLe(m, 2 * quo, d); }
  }

  /** `prefix == quo * d + rem` with `rem < d`. */
  ghost predicate Divides(d: nat, prefix: nat, quo: nat, rem: nat) {
    rem < d && prefix == quo * d + rem
  }

  /** Shift, set the low bit, and subtract with wrap-around when the carry or the compare says so. */
  function DivStep(quo: U256, rem: U256, d: U256, bit: u128): (U256, U256)
    requires bit <= 1
  {
    var carry := TopBit(rem.hi);
    var shifted := U256(rem.Shl1().hi, rem.Shl1().lo + bit);
    if carry == 1 || !shifted.Below(d) then
      (U256(quo.Shl1().hi, quo.Shl1().lo + 1), shifted.WrappingMinus(d))
    else (quo.Shl1(), shifted)
  }

  /** The step by value. */
  lemma DivStepValues(quo: U256, rem: U256, d: U256, bit: u128, qv: nat, rv: nat, dv: nat)
    requires quo.Value() == qv && rem.Value() == rv && d.Value() == dv
    requires bit <= 1 && rv < dv && 2 * qv < POW256
    ensures var shifted := Doubled(rv, POW256) + bit;
            var (quo', rem') := DivStep(quo, rem, d, bit);
            if 2 * rv >= POW256 || shifted >= dv then
              && quo'.Value() == 2 * qv + 1
              && rem'.Value() == if dv <= shifted then shifted - dv else shifted - dv + POW256
            else quo'.Value() == 2 * qv && rem'.Value() == shifted
  {
    BelowIsLess(U256(rem.Shl1().hi, rem.Shl1().lo + bit), d);
  }

  lemma DivStepDivides(prefix: nat, quo: U256, rem: U256, d: U256, bit: u128)
    requires bit <= 1 && 2 * prefix + bit < POW256
    requires Divides(d.Value(), prefix, quo.Value(), rem.Value())
    ensures var (quo', rem') := DivStep(quo, rem, d, bit);
            Divides(d.Value(), 2 * prefix + bit, quo'.Value(), rem'.Value())
  {
    var qv, rv, dv := quo.Value(), rem.Value(), d.Value();
    MulLe(1, dv, POW256);
    RestoringStep(prefix, bit, qv, rv, dv, POW256);
    DivStepValues(quo, rem, d, bit, qv, rv, dv);
  }

  lemma QuotientNoLarger(n: nat, p: nat)
    requires p > 0
    ensures 0 <= n / p <= n
  {
    FloorBounds(n, p);
    MulLe(1, p, n / p);
  }

  /** `(x >> i) & 1`. */
  function BitAt(x: u128, i: nat): (b: u128)
    ensures b <= 1
  {
    (x / Pow2(i)) % 2
  }

  /** The bits of `n` from position `i` up. */
  ghost function Prefix(n: nat, i: nat): (p: nat)
    ensures p <= n
  {
    var p := Pow2(i);
    QuotientNoLarger(n, p);
    n / p
  }

  lemma NextPrefix(n: nat, hi: u128, lo: u128, i: nat, bit: u128)
    requires n == hi * POW128 + lo && i < 256
    requires bit == if i >= 128 then BitAt(hi, i - 128) else BitAt(lo, i)
    ensures Prefix(n, i) == 2 * Prefix(n, i + 1) + bit
  {
    HalvePrefix(n, Pow2(i));
    LimbBit(hi, lo, i);
  }

  /** Every prefix of a numerator whose high limb is below `d` has a one-word quotient. */
  lemma PrefixBelow(n: nat, hi: nat, d: nat, i: nat)
    requires hi < d && hi * POW128 <= n < (hi + 1) * POW128
    ensures Prefix(n, i) < POW128 * d
  {
    QuotientNoLarger(n, Pow2(i));
    MulLe(hi + 1, d, POW128);
  }

  lemma {:induction false} Pow2Half(k: nat)
    requires k == 32
    ensures Pow2(k) == 0x1_0000_0000
  {
    var b2, b4, b8, b16 := 2, 4, 8, 16;
    Pow2Add(1, 1);
    assert Pow2(b2) == 4;
    Pow2Add(b2, b2);
    assert Pow2(b4) == 0x10;
    Pow2Add(b4, b4);
    assert Pow2(b8) == 0x100;
    Pow2Add(b8, b8);
    assert Pow2(b16) == 0x1_0000;
    Pow2Add(b16, b16);
  }

  lemma {:induction false} Pow2Word(k: nat)
    requires k == 128
    ensures Pow2(k) == POW128
  {
    var b32, b64 := 32, 64;
    Pow2Half(b32);
    Pow2Add(b32, b32);
    assert Pow2(b64) == POW64;
    Pow2Add(b64, b64);
  }

  lemma {:induction false} Pow2DoubleWord(k: nat)
    requires k == 256
    ensures Pow2(k) == POW256
  {
    var b128 := 128;
    Pow2Word(b128);
    Pow2Add(b128, b128);
  }

  lemma HighBit(hi: nat, lo: nat, m: nat, p: nat)
    requires lo < m && 0 < p
    ensures 0 < m * p && (hi * m + lo) / (m * p) == hi / p
  {
    var q, r := hi / p, hi % p;
    DivMod(hi, p);
    assert (q * p + r) * m + lo == q * (m * p) + (r * m + lo) by {
      assert (q * p) * m == q * (m * p);
      assert (q * p + r) * m == (q * p) * m + r * m;
    }
    assert r * m + lo < m * p by {
      MulLe(r + 1, p, m);
      assert (r + 1) * m == r * m + m;
    }
    MulLe(0, r, m);
    MulLe(1, p, m);
    DivModUnique(hi * m + lo, m * p, q, r * m + lo);
  }

  /** An even multiple of the divisor leaves the quotient's parity. */
  lemma AddEven(n: nat, p: nat, half: nat, q: nat, r: nat)
    requires 0 < p && r < p && n == (2 * half) * p + (q * p + r)
    ensures (n / p) % 2 == q % 2
  {
    assert (2 * half) * p + q * p == (2 * half + q) * p;
    DivModUnique(n, p, 2 * half + q, r);
  }

  lemma TopLimbShift(hi: nat, k: nat, p: nat)
    ensures hi * (2 * (k * p)) == (2 * (hi * k)) * p
  {
    assert hi * (k * p) == (hi * k) * p;
  }

  lemma LowBit(hi: nat, lo: nat, k: nat, p: nat)
    requires 0 < p
    ensures ((hi * (2 * (k * p)) + lo) / p) % 2 == (lo / p) % 2
  {
    var q, r := lo / p, lo % p;
    DivMod(lo, p);
    TopLimbShift(hi, k, p);
    AddEven(hi * (2 * (k * p)) + lo, p, hi * k, q, r);
  }

  /** A low bit of a two-limb number comes from its low limb, a high bit from its high limb. */
  lemma LimbBit(hi: u128, lo: u128, i: nat)
    requires i < 256
    ensures ((hi * POW128 + lo) / Pow2(i)) % 2
         == if i >= 128 then (hi / Pow2(i - 128)) % 2 else (lo / Pow2(i)) % 2
  {
    Pow2Word(128);
    if i >= 128 {
      Pow2Add(128, i - 128);
      HighBit(hi, lo, POW128, Pow2(i - 128));
    } else {
      Pow2Add(127 - i, i);
      assert Pow2(128) == 2 * (Pow2(127 - i) * Pow2(i));
      LowBit(hi, lo, Pow2(127 - i), Pow2(i));
    }
  }

  /** 128 steps of restoring division on a 128-bit remainder. */
  method LongDivide128(hi: u128, lo: u128, d: u128) returns (quo: u128, rem: u128)
    requires hi < d
    ensures Divides(d, hi * POW128 + lo, quo, rem)
  {
    ghost var n := hi * POW128 + lo;
    rem, quo := hi, 0;
    var i: nat := 128;
    Pow2Word(128);
    assert Prefix(n, 128) == hi by { DivModUnique(n, POW128, hi, lo); }
    while i > 0
      invariant i <= 128
      invariant rem < d
      invariant Prefix(n, i) == quo * d + rem
    {
      i := i - 1;
      var bit := BitAt(lo, i);
      NextPrefix(n, hi, lo, i, bit);
      PrefixBelow(n, hi, d, i);
      RestoringStep(Prefix(n, i + 1), bit, quo, rem, d, POW128);
      var carry := TopBit(rem);
      rem := ShiftLeftOne(rem) + bit;
      if carry == 1 || rem >= d {
        rem := WrappingSub(rem, d);
        quo := ShiftLeftOne(quo) + 1;
      } else {
        quo := ShiftLeftOne(quo);
      }
    }
    assert Prefix(n, 0) == n by { DivModUnique(n, 1, n, 0); }
  }

  /** `(floor(a*b/d), a*b mod d)` of a 256-bit product by a word. */
  method MulDivRemLoop(a: u128, b: u128, d: u128) returns (r: Option<(u128, u128)>)
    ensures r == MulDivRem(a, b, d)
  {
    hide MulDivRem, WideningMul;
    if d == 0 { return None; }
    var (hi, lo) := WideningMul(a, b);
    if hi == 0 {
      DivMod(lo, d);
      FloorBounds(lo, d);
      OneWordQuotient(lo, d);
      IsMulDivRem(a, b, d, lo / d, lo % d);
      return Some((lo / d, lo % d));
    }
    if hi >= d {
      HighLimbTooLarge(a * b, hi, lo, d);
      return None;
    }
    var quo, rem := LongDivide128(hi, lo, d);
    IsMulDivRem(a, b, d, quo, rem);
    return Some((quo, rem));
  }

  lemma IsMulDivRem(a: u128, b: u128, d: u128, quo: u128, rem: u128)
    requires a * b == quo * d + rem && rem < d
    ensures MulDivRem(a, b, d) == Some((quo, rem))
  {
    MulLe(0, a, b);
    QuotientFitsWord(a * b, d, quo, rem);
  }

  lemma OneWordQuotient(n: u128, d: u128)
    requires 0 < d
    ensures n / d <= U128_MAX
  {
    FloorGalois(n, d, POW128);
    MulLe(1, d, POW128);
  }

  lemma HighLimbTooLarge(n: nat, hi: nat, lo: nat, d: nat)
    requires n == hi * POW128 + lo && 0 < d <= hi
    ensures n / d > U128_MAX
  {
    MulLe(d, hi, POW128);
    FloorGalois(n, d, POW128);
  }

  lemma QuotientFitsWord(n: nat, d: nat, quo: nat, rem: nat)
    requires n == quo * d + rem && rem < d && quo <= U128_MAX
    ensures quo == n / d && rem == n % d && n / d <= U128_MAX
  {
    DivModUnique(n, d, quo, rem);
  }

  /** Quotient and remainder of two 256-bit integers. */
  function DivRem(n: U256, d: U256): (r: Option<(U256, U256)>)
    ensures r.None? <==> d.Value() == 0
    ensures r.Some? ==> r.value.0.Value() == n.Value() / d.Value() && r.value.1.Value() == n.Value() % d.Value()
  {
    if d.Value() == 0 then None else
      FloorBounds(n.Value(), d.Value());
      DivMod(n.Value(), d.Value());
      MulLe(1, d.Value(), n.Value() / d.Value());
      Some((FromNat(n.Value() / d.Value()), FromNat(n.Value() % d.Value())))
  }

  /** 256 steps of restoring division on a 256-bit remainder. */
  method LongDivide256(n: U256, d: U256) returns (quo: U256, rem: U256)
    requires 0 < d.Value()
    ensures Divides(d.Value(), n.Value(), quo.Value(), rem.Value())
  {
    ghost var nv, dv := n.Value(), d.Value();
    rem, quo := U256(0, 0), U256(0, 0);
    var i: nat := 256;
    Pow2DoubleWord(256);
    assert Prefix(nv, 256) == 0 by { DivModUnique(nv, POW256, 0, nv); }
    while i > 0
      invariant i <= 256
      invariant Divides(dv, Prefix(nv, i), quo.Value(), rem.Value())
    {
      i := i - 1;
      var bit := if i >= 128 then BitAt(n.hi, i - 128) else BitAt(n.lo, i);
      NextPrefix(nv, n.hi, n.lo, i, bit);
      DivStepDivides(Prefix(nv, i + 1), quo, rem, d, bit);
      var next := DivStep(quo, rem, d, bit);
      quo, rem := next.0, next.1;
    }
    assert Prefix(nv, 0) == nv by { DivModUnique(nv, 1, nv, 0); }
  }

  method DivRemLoop(n: U256, d: U256) returns (r: Option<(U256, U256)>)
    ensures r == DivRem(n, d)
  {
    if d.IsZero() { return None; }
    BelowIsLess(n, d);
    if n.Below(d) {
      DivModUnique(n.Value(), d.Value(), 0, n.Value());
      ValueInjective(n, DivRem(n, d).value.1);
      return Some((U256(0, 0), n));
    }
    if n.hi == 0 {
      return Some((U256(0, n.lo / d.lo), U256(0, n.lo % d.lo)));
    }
    var quo, rem := LongDivide256(n, d);
    DivModUnique(n.Value(), d.Value(), quo.Value(), rem.Value());
    ValueInjective(quo, DivRem(n, d).value.0);
    ValueInjective(rem, DivRem(n, d).value.1);
    return Some((quo, rem));
  }

  /** `floor(num / den)` narrowed to 128 bits. */
  method DivFloorU256(num: U256, den: U256) returns (r: Option<u128>)
    ensures den.Value() == 0 ==> r == None
    ensures den.Value() != 0 ==> (r.Some? <==> num.Value() / den.Value() <= U128_MAX)
    ensures r.Some? ==> r.value == num.Value() / den.Value()
  {
    var qr := DivRemLoop(num, den);
    return match qr case None => None case Some((q, _)) => q.ToU128();
  }

  /** `ceil(num / den)` narrowed to 128 bits. */
  method DivCeilU256(num: U256, den: U256) returns (r: Option<u128>)
    ensures den.Value() == 0 ==> r == None
    ensures den.Value() != 0 ==> (r.Some? <==> CeilDiv(num.Value(), den.Value()) <= U128_MAX)
    ensures r.Some? ==> r.value == CeilDiv(num.Value(), den.Value())
  {
    var qr := DivRemLoop(num, den);
    match qr
    case None => return None;
    case Some((q, rem)) =>
      match q.ToU128()
      case None => return None;
      case Some(q') =>
        if rem.IsZero() { return Some(q'); }
        return CheckedAdd(q', 1);
  }
}
