/**
 Disk geometry: the logical cylinder/head/sector shape that is chosen for a drive, and the
 translation of a CHS request into a sector number.
 */
module Disk {
  import opened Words
  import opened Wrappers

  function U16(x: int): (w: nat)
    ensures w < 0x1_0000
    ensures 0 <= x < 0x1_0000 ==> w == x
  {
    x % 0x1_0000
  }

  datatype Geometry = Geometry(heads: nat, cylinders: nat, spt: nat)

  function Capacity(g: Geometry): nat {
    MulNat(g.heads, g.cylinders);
    MulNat(g.heads * g.cylinders, g.spt);
    g.heads * g.cylinders * g.spt
  }

  /** Three 16-bit fields. */
  predicate Fits(g: Geometry) {
    g.heads < 0x1_0000 && g.cylinders < 0x1_0000 && g.spt < 0x1_0000
  }

  // ----- choice of a geometry

  datatype Translation = Plain | Lba | Large

  /** The heuristic part of `get_translation`. */
  function GetTranslation(p: Geometry, sectors: nat): Translation {
    if p.heads == 0 || p.cylinders == 0 || p.spt == 0 || Capacity(p) > sectors then Lba
    else if p.cylinders <= 1024 && p.heads <= 16 && p.spt <= 63 then Plain
    else if p.cylinders * p.heads <= 131072 then Large
    else Lba
  }

  const LBA_LIMIT: nat := 63 * 255 * 1024

  function LbaHeads(h: nat): nat {
    if h > 128 then 255 else if h > 64 then 128 else if h > 32 then 64 else if h > 16 then 32 else 16
  }

  /** Halving cylinders and doubling heads, while there are too many cylinders. */
  function Halved(g: Geometry): Geometry
    decreases g.cylinders
  {
    if g.cylinders <= 1024 then g else
    var n := g.(cylinders := g.cylinders / 2, heads := 2 * g.heads);
    if n.heads > 127 then n else Halved(n)
  }

  function Clipped(g: Geometry): Geometry {
    if g.cylinders > 1024 then g.(cylinders := 1024) else g
  }

  /** The logical geometry, in unbounded arithmetic. */
  function Logical(p: Geometry, sectors: nat): Geometry {
    match GetTranslation(p, sectors)
    case Plain => Clipped(p)
    case Large => Clipped(Halved(p))
    case Lba =>
      if sectors > LBA_LIMIT then Geometry(255, 1024, 63)
      else Clipped(LbaGeometry(sectors))
  }

  lemma {:induction false} HalvedFits(g: Geometry)
    requires g.cylinders * g.heads <= 131072 && Fits(g)
    ensures Fits(Halved(g)) && Capacity(Halved(g)) <= Capacity(g) && Halved(g).spt == g.spt
    ensures Halved(g).heads * Halved(g).cylinders <= g.heads * g.cylinders
    decreases g.cylinders
  {
    if g.cylinders > 1024 {
      FewHeads(g);
      HalfProduct(g.heads, g.cylinders, g.spt);
      var n := g.(cylinders := g.cylinders / 2, heads := 2 * g.heads);
      if n.heads <= 127 { HalvedFits(n); }
    }
  }

  lemma FewHeads(g: Geometry)
    requires g.cylinders * g.heads <= 131072 && g.cylinders > 1024
    ensures g.heads <= 127
  {
    if g.heads >= 128 { MulLe(g.cylinders, 128, g.heads); }
  }

  lemma HalfProduct(h: nat, c: nat, s: nat)
    ensures 2 * h * (c / 2) <= h * c && 2 * h * (c / 2) * s <= h * c * s
  {
    MulLe(h, 2 * (c / 2), c);
    assert 2 * h * (c / 2) == h * (2 * (c / 2));
    MulLe(s, 2 * h * (c / 2), h * c);
  }

  lemma ClippedFits(g: Geometry)
    ensures Clipped(g).cylinders <= 1024 && Capacity(Clipped(g)) <= Capacity(g) && (Fits(g) ==> Fits(Clipped(g)))
    ensures Clipped(g).heads * Clipped(g).cylinders <= g.heads * g.cylinders && Clipped(g).spt == g.spt
  {
    MulLe(g.heads, Clipped(g).cylinders, g.cylinders);
    MulLe(g.spt, g.heads * Clipped(g).cylinders, g.heads * g.cylinders);
  }

  function LbaGeometry(sectors: nat): Geometry {
    var h := LbaHeads(sectors / 63 / 1024);
    Geometry(h, sectors / 63 / h, 63)
  }

  lemma LbaFits(sectors: nat)
    requires sectors <= LBA_LIMIT
    ensures Fits(LbaGeometry(sectors)) && Capacity(LbaGeometry(sectors)) <= sectors
  {
  }

  lemma LargestFits()
    ensures Capacity(Geometry(255, 1024, 63)) == LBA_LIMIT
  {
  }

  /**
   The logical geometry has at most 1024 cylinders and 16-bit fields, and it does not reach
   beyond the disk.
   */
  lemma LogicalFits(p: Geometry, sectors: nat)
    requires Fits(p)
    ensures var g := Logical(p, sectors);
            Fits(g) && g.cylinders <= 1024 && Capacity(g) <= sectors
  {
    hide Halved, Clipped, LbaGeometry;
    match GetTranslation(p, sectors) {
      case Plain => ClippedFits(p);
      case Large =>
        HalvedFits(p);
        ClippedFits(Halved(p));
      case Lba =>
        LargestFits();
        hide Capacity;
        if sectors <= LBA_LIMIT {
          LbaFits(sectors);
          ClippedFits(LbaGeometry(sectors));
        }
    }
  }

  // ----- what the choice comes to

  /** Is the physical geometry believed: no field is zero and it does not exceed the disk? */
  predicate Believed(p: Geometry, sectors: nat) {
    p.heads > 0 && p.cylinders > 0 && p.spt > 0 && p.heads * p.cylinders * p.spt <= sectors
  }

  /** A small physical geometry is used as it is. */
  lemma PlainChoice(p: Geometry, sectors: nat)
    requires Believed(p, sectors) && p.cylinders <= 1024 && p.heads <= 16 && p.spt <= 63
    ensures Logical(p, sectors) == p
  {
  }

  /** Heads multiplied and cylinders divided by `2^n`. */
  function Shifted(p: Geometry, n: nat): Geometry {
    DivBounds(p.cylinders, Pow2(n));
    MulNat(p.heads, Pow2(n));
    Geometry(p.heads * Pow2(n), p.cylinders / Pow2(n), p.spt)
  }

  lemma ShiftedNext(p: Geometry, k: nat)
    ensures Shifted(p, 0) == p
    ensures var g := Shifted(p, k); Shifted(p, k + 1) == g.(cylinders := g.cylinders / 2, heads := 2 * g.heads)
  {
    assert Pow2(0) == 1;
    DivModUnique(p.cylinders, 1, p.cylinders, 0);
    DivTwice(p.cylinders, k);
    ScaleTwice(p.heads, k + 1);
  }

  lemma DivTwice(x: nat, k: nat)
    ensures x / Pow2(k + 1) == x / Pow2(k) / 2
  {
    var p, q := Pow2(k), x / Pow2(k);
    Euclid(x, p);
    DivBounds(x, p);
    Euclid(q, 2);
    assert x == q / 2 * (2 * p) + (q % 2 * p + x % p);
    DivModUnique(x, 2 * p, q / 2, q % 2 * p + x % p);
  }

  /** There are still too many cylinders after `m` steps, and not too many heads. */
  predicate GoesOn(p: Geometry, m: nat) {
    Shifted(p, m).cylinders > 1024 && (m == 0 || Shifted(p, m).heads <= 127)
  }

  /** The loop stops after `n` steps and not before. */
  ghost predicate Stops(p: Geometry, n: nat) {
    !GoesOn(p, n) && forall m: nat :: m < n ==> GoesOn(p, m)
  }

  lemma {:induction false} HalvedFrom(p: Geometry, k: nat) returns (n: nat)
    requires (forall m: nat :: m < k ==> GoesOn(p, m)) && (k == 0 || Shifted(p, k).heads <= 127)
    ensures Stops(p, n) && Halved(Shifted(p, k)) == Shifted(p, n)
    decreases Shifted(p, k).cylinders
  {
    ShiftedNext(p, k);
    hide Shifted;
    if Shifted(p, k).cylinders <= 1024 {
      n := k;
    } else if Shifted(p, k + 1).heads > 127 {
      n := k + 1;
    } else {
      n := HalvedFrom(p, k + 1);
    }
  }

  /**
   A large one is shifted by the least number of steps that brings the cylinders to 1024 or the heads
   above 127; no clipping is then needed, and less than `2^n` cylinders are lost.
   */
  lemma LargeChoice(p: Geometry, sectors: nat) returns (n: nat)
    requires Believed(p, sectors) && p.cylinders * p.heads <= 131072
    requires p.cylinders > 1024 || p.heads > 16 || p.spt > 63
    ensures Stops(p, n)
    ensures Logical(p, sectors) == Geometry(p.heads * Pow2(n), p.cylinders / Pow2(n), p.spt)
    ensures p.heads * (p.cylinders - Pow2(n) + 1) * p.spt <= Capacity(Logical(p, sectors)) <= Capacity(p)
  {
    ShiftedNext(p, 0);
    n := HalvedFrom(p, 0);
    FewCylinders(p, n);
    ShiftedCapacity(p, n);
    LargeLogical(p, sectors, n);
  }

  lemma LargeLogical(p: Geometry, sectors: nat, n: nat)
    requires Believed(p, sectors) && p.cylinders * p.heads <= 131072
    requires p.cylinders > 1024 || p.heads > 16 || p.spt > 63
    requires Halved(p) == Shifted(p, n) && Shifted(p, n).cylinders <= 1024
    ensures Logical(p, sectors) == Shifted(p, n)
  {
    hide Halved, Shifted;
  }

  /** With that many heads there are few cylinders. */
  lemma FewCylinders(p: Geometry, n: nat)
    requires Stops(p, n) && p.cylinders * p.heads <= 131072
    ensures Shifted(p, n).cylinders <= 1024
  {
    var g := Shifted(p, n);
    ShiftedCapacity(p, n);
    assert g.heads * g.cylinders <= p.heads * p.cylinders;
    hide Shifted;
    if g.cylinders > 1024 { MulLe(g.cylinders, 128, g.heads); }
  }

  lemma ShiftedCapacity(p: Geometry, n: nat)
    ensures Shifted(p, n).heads * Shifted(p, n).cylinders <= p.heads * p.cylinders
    ensures p.heads * (p.cylinders - Pow2(n) + 1) * p.spt <= Capacity(Shifted(p, n)) <= Capacity(p)
  {
    var q := Pow2(n);
    hide Pow2;
    Euclid(p.cylinders, q);
    var m := p.cylinders / q * q;
    MulAround(p.heads, q, p.cylinders / q);
    MulLe(p.heads, m, p.cylinders);
    MulLe(p.heads, p.cylinders - q + 1, m);
    MulLe(p.spt, p.heads * m, p.heads * p.cylinders);
    MulLe(p.spt, p.heads * (p.cylinders - q + 1), p.heads * m);
  }

  lemma MulAround(h: nat, q: nat, c: int)
    ensures h * q * c == h * (c * q)
  {
  }

  /**
   In every other case the geometry comes from the number of sectors: the largest one, or 63 sectors and
   the least number of heads in the table that reaches the disk's 1024th part, which leaves
   less than 1024 tracks of the disk out of reach.
   */
  lemma LbaChoice(p: Geometry, sectors: nat)
    requires !Believed(p, sectors)
             || (p.cylinders * p.heads > 131072 && !(p.cylinders <= 1024 && p.heads <= 16 && p.spt <= 63))
    ensures var g := Logical(p, sectors);
            && g.spt == 63
            && (sectors > 63 * 255 * 1024 ==> g.heads == 255 && g.cylinders == 1024)
            && (sectors <= 63 * 255 * 1024 ==>
                && g.heads in {16, 32, 64, 128, 255} && sectors / 63 / 1024 <= g.heads
                && (g.heads > 16 ==> sectors / 63 / 1024 > 16) && (g.heads > 32 ==> sectors / 63 / 1024 > 32)
                && (g.heads > 64 ==> sectors / 63 / 1024 > 64) && (g.heads > 128 ==> sectors / 63 / 1024 > 128)
                && sectors - 63 * 1024 < Capacity(g) <= sectors)
  {
    assert GetTranslation(p, sectors) == Lba;
    if sectors <= LBA_LIMIT {
      LbaCapacity(sectors);
    }
  }

  lemma LbaCapacity(sectors: nat)
    requires sectors <= LBA_LIMIT
    ensures sectors - 63 * 1024 < Capacity(Clipped(LbaGeometry(sectors))) <= sectors
  {
    var t := sectors / 63;
    if t / 1024 > 128 {
    } else if t / 1024 > 64 {
    } else if t / 1024 > 32 {
    } else if t / 1024 > 16 {
    } else {
    }
  }

  class Drive {
    const pchs: Geometry
    const sectors: nat
    var lchs: Geometry

    constructor (pchs: Geometry, sectors: nat)
      ensures this.pchs == pchs && this.sectors == sectors
    {
      this.pchs, this.sectors, lchs := pchs, sectors, Geometry(0, 0, 0);
    }

    /**
     `setup_translation` after the heuristic, in 16-bit arithmetic: nothing is lost to truncation.
     The product of cylinders and heads is computed as a C `int`.
     */
    method SetupTranslation()
      requires Fits(pchs) && pchs.heads * pchs.cylinders < 0x8000_0000
      modifies `lchs
      ensures lchs == Logical(pchs, sectors)
    {
      hide Capacity;
      var heads, cylinders, spt := pchs.heads, pchs.cylinders, pchs.spt;
      match GetTranslation(pchs, sectors) {
        case Plain =>
        case Lba =>
          spt := 63;
          if sectors > LBA_LIMIT {
            heads, cylinders := 255, 1024;
          } else {
            LbaFits(sectors);
            var sect := U32(sectors) / 63;
            heads := U16(sect / 1024);
            if heads > 128 { heads := 255; }
            else if heads > 64 { heads := 128; }
            else if heads > 32 { heads := 64; }
            else if heads > 16 { heads := 32; }
            else { heads := 16; }
            cylinders := U16(sect / heads);
          }
        case Large =>
          heads, cylinders := LargeLoop(pchs);
      }
      if cylinders > 1024 { cylinders := 1024; }
      lchs := Geometry(heads, cylinders, spt);
    }
  }

  /** The shifting loop, in 16-bit arithmetic. */
  method LargeLoop(p: Geometry) returns (heads: nat, cylinders: nat)
    requires Fits(p) && p.cylinders * p.heads <= 131072
    ensures Geometry(heads, cylinders, p.spt) == Halved(p)
  {
    heads, cylinders := p.heads, p.cylinders;
    while cylinders > 1024
      invariant cylinders < 0x1_0000 && cylinders * heads <= 131072
      invariant Halved(Geometry(heads, cylinders, p.spt)) == Halved(p)
      decreases cylinders
    {
      FewHeads(Geometry(heads, cylinders, p.spt));
      HalfProduct(heads, cylinders, 1);
      cylinders, heads := cylinders / 2, U16(2 * heads);
      if heads > 127 { break; }
    }
  }

  // ----- from CHS to a sector number

  predicate Accepts(g: Geometry, c: nat, h: nat, s: nat) {
    c < g.cylinders && h < g.heads && 1 <= s <= g.spt
  }

  /** The sector number of a triple, in unbounded arithmetic. */
  function Sector(g: Geometry, c: nat, h: nat, s: nat): (r: nat)
    requires s >= 1
  {
    MulNat(c, g.heads);
    MulNat(c * g.heads + h, g.spt);
    (c * g.heads + h) * g.spt + s - 1
  }

  /** Sectors are numbered from 0 through each track, then through the heads, then through the cylinders. */
  lemma SectorOrder(g: Geometry, c: nat, h: nat, s: nat)
    requires Accepts(g, c, h, s)
    ensures Sector(g, 0, 0, 1) == 0
    ensures s < g.spt ==> Sector(g, c, h, s + 1) == Sector(g, c, h, s) + 1
    ensures s == g.spt && h + 1 < g.heads ==> Sector(g, c, h + 1, 1) == Sector(g, c, h, s) + 1
    ensures s == g.spt && h + 1 == g.heads ==> Sector(g, c + 1, 0, 1) == Sector(g, c, h, s) + 1
  {
    var t := c * g.heads + h;
    assert (t + 1) * g.spt == t * g.spt + g.spt;
    assert (c + 1) * g.heads == c * g.heads + g.heads;
  }

  /** An accepted triple addresses a sector within the capacity. */
  lemma SectorBelow(g: Geometry, c: nat, h: nat, s: nat)
    requires Accepts(g, c, h, s)
    ensures Sector(g, c, h, s) < Capacity(g)
  {
    MulLe(g.heads, c + 1, g.cylinders);
    MulLe(g.spt, c * g.heads + h + 1, g.heads * g.cylinders);
    assert (c * g.heads + h + 1) * g.spt == (c * g.heads + h) * g.spt + g.spt;
  }

  /** Different accepted triples address different sectors. */
  lemma SectorInjective(g: Geometry, c: nat, h: nat, s: nat, d: nat, i: nat, t: nat)
    requires Accepts(g, c, h, s) && Accepts(g, d, i, t) && Sector(g, c, h, s) == Sector(g, d, i, t)
    ensures c == d && h == i && s == t
  {
    DivModUnique(Sector(g, c, h, s), g.spt, c * g.heads + h, s - 1);
    DivModUnique(Sector(g, d, i, t), g.spt, d * g.heads + i, t - 1);
    DivModUnique(c * g.heads + h, g.heads, c, h);
    DivModUnique(d * g.heads + i, g.heads, d, i);
  }

  /** Every sector within the capacity has an accepted triple. */
  lemma SectorOnto(g: Geometry, n: nat) returns (c: nat, h: nat, s: nat)
    requires n < Capacity(g)
    ensures Accepts(g, c, h, s) && Sector(g, c, h, s) == n
  {
    Positive(g);
    var t := n / g.spt;
    QuotientBelow(n, g.spt, g.heads * g.cylinders);
    QuotientBelow(t, g.heads, g.cylinders);
    c, h, s := t / g.heads, t % g.heads, n % g.spt + 1;
  }

  lemma QuotientBelow(x: nat, d: nat, m: nat)
    requires d > 0 && x < d * m
    ensures 0 <= x / d < m && 0 <= x % d < d && x == x / d * d + x % d
  {
    Euclid(x, d);
    DivBounds(x, d);
    if x / d >= m { MulLe(d, m, x / d); }
  }

  lemma Positive(g: Geometry)
    requires Capacity(g) > 0
    ensures g.heads > 0 && g.cylinders > 0 && g.spt > 0
  {
  }

  // ----- the INT 13h request

  /** The byte registers of a request. */
  datatype Regs = Regs(al: nat, ch: nat, cl: nat, dh: nat)

  predicate IsRegs(r: Regs) {
    r.al < 256 && r.ch < 256 && r.cl < 256 && r.dh < 256
  }

  function Cylinder(r: Regs): nat {
    Or(r.ch, And(r.cl * 4, 0x300))
  }

  function SectorField(r: Regs): nat {
    And(r.cl, 0x3f)
  }

  /** The cylinder's upper bits are the upper bits of `cl`. */
  lemma RegisterFields(r: Regs)
    requires IsRegs(r)
    ensures Cylinder(r) == r.ch + 256 * (r.cl / 64) && SectorField(r) == r.cl % 64
  {
    Powers();
    hide Pow2, And, Or;
    AndMask(r.cl, 6);
    AndHighMask(10, r.cl * 4, 8);
    UpperBits(r.cl);
    OrDisjoint(r.cl / 64, 8, r.ch);
  }

  lemma Powers()
    ensures Pow2(6) == 64 && Pow2(8) == 256 && Pow2(10) == 1024
  {
  }

  lemma UpperBits(x: nat)
    ensures x * 4 - x * 4 % 256 == (x / 64) * 256
  {
    DivModUnique(x * 4, 256, x / 64, x % 64 * 4);
  }

  /** Registers that ask for a triple. */
  function Encoded(count: nat, c: nat, h: nat, s: nat): Regs {
    Regs(count, c % 256, c / 256 * 64 + s, h)
  }

  /** Every triple within the limits of the registers can be asked for. */
  lemma RegisterRoundTrip(count: nat, c: nat, h: nat, s: nat)
    requires count < 256 && c < 1024 && h < 256 && s < 64
    ensures var r := Encoded(count, c, h, s);
            IsRegs(r) && Cylinder(r) == c && SectorField(r) == s && r.dh == h && r.al == count
  {
    var cl := c / 256 * 64 + s;
    DivModUnique(cl, 64, c / 256, s);
    RegisterFields(Encoded(count, c, h, s));
    hide Cylinder, SectorField;
  }

  datatype Request = Request(lba: nat, count: nat)

  /** A request is refused for its count, a zero sector, or a triple outside the geometry. */
  predicate Valid(r: Regs, g: Geometry) {
    1 <= r.al <= 128 && Accepts(g, Cylinder(r), r.dh, SectorField(r))
  }

  /** `basic_access` up to the driver call, with the sector number in 32-bit arithmetic. */
  method BasicAccess(r: Regs, lchs: Geometry) returns (q: Option<Request>)
    requires IsRegs(r) && Fits(lchs)
    ensures q.Some? <==> Valid(r, lchs)
    ensures Valid(r, lchs) <==> && 1 <= r.al <= 128 && 1 <= r.cl % 64 <= lchs.spt
                                && r.dh < lchs.heads && r.ch + 256 * (r.cl / 64) < lchs.cylinders
    ensures q.Some? ==> q.value.count == r.al
    ensures q.Some? ==> q.value.lba == U32(Sector(lchs, r.ch + 256 * (r.cl / 64), r.dh, r.cl % 64))
  {
    RegisterFields(r);
    hide And, Or;
    var count := r.al;
    var cylinder := Cylinder(r);
    var sector := SectorField(r);
    var head := r.dh;
    if count > 128 || count == 0 || sector == 0 { return None; }
    if cylinder >= lchs.cylinders || head >= lchs.heads || sector > lchs.spt { return None; }
    var track := U32(U32(cylinder * lchs.heads) + head);
    var lba := U32(U32(track * lchs.spt) + sector - 1);
    Reduced(cylinder, lchs.heads, head, lchs.spt, sector);
    return Some(Request(lba, count));
  }

  lemma Reduced(c: nat, n: nat, h: nat, m: nat, s: nat)
    requires s >= 1
    ensures U32(U32(U32(U32(c * n) + h) * m) + s - 1) == U32((c * n + h) * m + s - 1)
  {
    Congruent(c * n, h);
    ProductReduced(c * n + h, m);
    Congruent((c * n + h) * m, s - 1);
    hide U32;
  }

  lemma ProductReduced(t: int, m: nat)
    ensures U32(U32(t) * m) == U32(t * m)
  {
    var q := t / 0x1_0000_0000;
    assert t == q * 0x1_0000_0000 + U32(t);
    assert t * m == q * m * 0x1_0000_0000 + U32(t) * m;
    Multiple(U32(t) * m, q * m);
  }

  lemma Multiple(x: int, k: int)
    ensures U32(k * 0x1_0000_0000 + x) == U32(x)
  {
  }

  /** An accepted request starts on the disk. */
  lemma RequestOnDisk(p: Geometry, sectors: nat, r: Regs)
    requires Fits(p) && IsRegs(r) && Valid(r, Logical(p, sectors))
    ensures Sector(Logical(p, sectors), Cylinder(r), r.dh, SectorField(r)) < sectors
  {
    hide Cylinder, SectorField, Capacity, Sector, Logical;
    LogicalFits(p, sectors);
    SectorBelow(Logical(p, sectors), Cylinder(r), r.dh, SectorField(r));
  }

  /** With at most 255 physical heads and sectors per track, no accepted request wraps in 32 bits. */
  lemma RequestExact(p: Geometry, sectors: nat, r: Regs)
    requires Fits(p) && p.heads <= 255 && p.spt <= 255 && IsRegs(r) && Valid(r, Logical(p, sectors))
    ensures var n := Sector(Logical(p, sectors), Cylinder(r), r.dh, SectorField(r)); U32(n) == n
  {
    hide Cylinder, SectorField, Capacity, Sector, Logical;
    SectorBelow(Logical(p, sectors), Cylinder(r), r.dh, SectorField(r));
    LogicalSmall(p, sectors);
  }

  lemma LogicalSmall(p: Geometry, sectors: nat)
    requires Fits(p) && p.heads <= 255 && p.spt <= 255
    ensures Capacity(Logical(p, sectors)) <= 0x1_0000_0000
  {
    hide Halved, Clipped, LbaGeometry;
    match GetTranslation(p, sectors) {
      case Plain =>
        ClippedFits(p);
        MulLe(p.heads, p.cylinders, 1024);
        SmallCapacity(Clipped(p));
      case Large =>
        HalvedFits(p);
        ClippedFits(Halved(p));
        SmallCapacity(Clipped(Halved(p)));
      case Lba =>
        LogicalFits(p, sectors);
        LargestFits();
        if sectors <= LBA_LIMIT {
          LbaFits(sectors);
          ClippedFits(LbaGeometry(sectors));
        }
    }
  }

  lemma SmallCapacity(g: Geometry)
    requires g.heads * g.cylinders <= 131072 && g.spt <= 255
    ensures Capacity(g) <= 0x1_0000_0000
  {
    MulLe(g.spt, g.heads * g.cylinders, 131072);
  }
}
