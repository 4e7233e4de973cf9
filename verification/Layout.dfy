/**
 Placing the sections of the ROM. Most groups of sections are laid out downwards, each group
 ending where the previous one starts; 16-bit code is also used to fill the gaps between the
 sections that have a fixed address.
 */
module Layout {
  import opened Words
  import opened Wrappers

  // ----- alignment

  ghost predicate PowerOfTwo(a: nat) {
    exists k: nat :: a == Pow2(k)
  }

  /** `alignpos`: adding the mask and clearing its bits, for a power of two. */
  function AlignUp(pos: int, a: nat): (r: int)
    requires a > 0
    ensures pos <= r < pos + a
  {
    var x := pos + (a - 1);
    Residue(x, a);
    x - x % a
  }

  lemma AlignedUp(pos: int, a: nat)
    requires a > 0
    ensures AlignUp(pos, a) % a == 0
  {
    var x := pos + (a - 1);
    Euclid(x, a);
    DivModUnique(AlignUp(pos, a), a, x / a, 0);
  }

  /** A start that is aligned for `a` can be taken out. */
  lemma AlignFrom(start: int, x: int, a: nat)
    requires a > 0 && start % a == 0
    ensures AlignUp(start + x, a) == start + AlignUp(x, a)
  {
    SameRemainder(start, x + (a - 1), a);
  }

  lemma SameRemainder(s: int, x: int, a: nat)
    requires a > 0 && s % a == 0
    ensures (s + x) % a == x % a
  {
    Euclid(s, a);
    Euclid(x, a);
    assert s + x == (s / a + x / a) * a + x % a;
    DivModUnique(s + x, a, s / a + x / a, x % a);
  }

  /** The smaller of two powers of two divides the larger, and so its multiples. */
  lemma LargerAligns(a: nat, b: nat, x: int)
    requires PowerOfTwo(a) && PowerOfTwo(b) && a <= b && x % b == 0
    ensures x % a == 0
  {
    var i: nat :| a == Pow2(i);
    var j: nat :| b == Pow2(j);
    if j < i {
      Pow2Mono(j, i);
      Pow2Mono(j + 1, i);
    } else {
      Pow2Add(i, j - i);
      hide Pow2;
      Euclid(x, b);
      assert x == x / b * Pow2(j - i) * a by { assert x / b * (a * Pow2(j - i)) == x / b * Pow2(j - i) * a; }
      DivModUnique(x, a, x / b * Pow2(j - i), 0);
    }
  }

  /** Integer division that rounds toward zero. */
  function Trunc(x: int, d: nat): int
    requires d > 0
  {
    if x >= 0 then x / d else -((-x) / d)
  }

  // ----- a group of sections

  datatype Shape = Shape(size: nat, align: nat)

  ghost predicate Shaped(l: seq<Shape>) {
    forall k :: 0 <= k < |l| ==> PowerOfTwo(l[k].align)
  }

  lemma AlignPositive(a: nat)
    requires PowerOfTwo(a)
    ensures a > 0
  {
  }

  /** Space taken by the first `n` sections when the group starts at zero. */
  ghost function Space(l: seq<Shape>, n: nat): nat
    requires Shaped(l) && n <= |l|
    decreases n, 0
  {
    if n == 0 then 0 else Offset(l, n - 1) + l[n - 1].size
  }

  /** Where section `k` of a group that starts at zero goes. */
  ghost function Offset(l: seq<Shape>, k: nat): (r: nat)
    requires Shaped(l) && k < |l|
    ensures r >= Space(l, k)
    decreases k, 1
  {
    AlignPositive(l[k].align);
    AlignUp(Space(l, k), l[k].align)
  }

  lemma NoSpace(l: seq<Shape>)
    requires Shaped(l)
    ensures Space(l, 0) == 0
  {
  }

  lemma NextSection(l: seq<Shape>, k: nat)
    requires Shaped(l) && k < |l|
    ensures l[k].align > 0 && Offset(l, k) == AlignUp(Space(l, k), l[k].align)
    ensures Space(l, k + 1) == Offset(l, k) + l[k].size
  {
    AlignPositive(l[k].align);
  }

  ghost function MinAlign(l: seq<Shape>, n: nat, least: nat): nat
    requires n <= |l|
  {
    if n == 0 then least else Max(MinAlign(l, n - 1, least), l[n - 1].align)
  }

  function Max(a: nat, b: nat): nat {
    if a >= b then a else b
  }

  lemma {:induction false} MinAlignBounds(l: seq<Shape>, n: nat, least: nat, k: nat)
    requires Shaped(l) && n <= |l| && PowerOfTwo(least) && k < n
    ensures PowerOfTwo(MinAlign(l, n, least)) && MinAlign(l, n, least) >= l[k].align && MinAlign(l, n, least) >= least
  {
    hide PowerOfTwo;
    if k < n - 1 {
      MinAlignBounds(l, n - 1, least, k);
    } else {
      MinAlignPower(l, n - 1, least);
    }
  }

  lemma {:induction false} MinAlignPower(l: seq<Shape>, n: nat, least: nat)
    requires Shaped(l) && n <= |l| && PowerOfTwo(least)
    ensures PowerOfTwo(MinAlign(l, n, least)) && MinAlign(l, n, least) >= least
  {
    hide PowerOfTwo;
    if n == 0 {
    } else {
      MinAlignPower(l, n - 1, least);
    }
  }

  /** Where a group that has to end at `endaddr` starts. */
  ghost function Start(l: seq<Shape>, endaddr: int, least: nat): int
    requires Shaped(l) && PowerOfTwo(least)
  {
    MinAlignPower(l, |l|, least);
    AlignPositive(MinAlign(l, |l|, least));
    Trunc(endaddr - Space(l, |l|), MinAlign(l, |l|, least)) * MinAlign(l, |l|, least)
  }

  /** The start is aligned for every section. */
  lemma StartAligned(l: seq<Shape>, endaddr: int, least: nat, k: nat)
    requires Shaped(l) && PowerOfTwo(least) && k < |l|
    ensures l[k].align > 0 && Start(l, endaddr, least) % l[k].align == 0
  {
    AlignPositive(l[k].align);
    MinAlignBounds(l, |l|, least, k);
    var m := MinAlign(l, |l|, least);
    DivModUnique(Start(l, endaddr, least), m, Trunc(endaddr - Space(l, |l|), m), 0);
    LargerAligns(l[k].align, m, Start(l, endaddr, least));
  }

  /** The start is a multiple of the least alignment asked for. */
  lemma StartLeast(l: seq<Shape>, endaddr: int, least: nat)
    requires Shaped(l) && PowerOfTwo(least)
    ensures least > 0 && Start(l, endaddr, least) % least == 0
  {
    AlignPositive(least);
    MinAlignPower(l, |l|, least);
    var m := MinAlign(l, |l|, least);
    AlignPositive(m);
    DivModUnique(Start(l, endaddr, least), m, Trunc(endaddr - Space(l, |l|), m), 0);
    LargerAligns(least, m, Start(l, endaddr, least));
  }

  /** The alignment of a group is the largest of the least one and those of its sections. */
  lemma {:induction false} MinAlignLargest(l: seq<Shape>, n: nat, least: nat)
    requires n <= |l|
    ensures MinAlign(l, n, least) >= least && forall k :: 0 <= k < n ==> MinAlign(l, n, least) >= l[k].align
    ensures MinAlign(l, n, least) == least || exists k :: 0 <= k < n && MinAlign(l, n, least) == l[k].align
  {
    if n == 0 {
    } else {
      MinAlignLargest(l, n - 1, least);
    }
  }

  /** Sections are packed: between two there is less than the alignment of the second. */
  lemma SectionsTight(l: seq<Shape>, k: nat)
    requires Shaped(l) && k < |l|
    ensures Offset(l, k) < l[k].align + if k == 0 then 0 else Offset(l, k - 1) + l[k - 1].size
  {
    NextSection(l, k);
    if k > 0 { NextSection(l, k - 1); }
  }

  /** Every section of a group is aligned. */
  lemma SectionAligned(l: seq<Shape>, endaddr: int, least: nat, k: nat)
    requires Shaped(l) && PowerOfTwo(least) && k < |l|
    ensures l[k].align > 0 && (Start(l, endaddr, least) + Offset(l, k)) % l[k].align == 0
  {
    hide Start, Trunc;
    StartAligned(l, endaddr, least, k);
    AlignedUp(Space(l, k), l[k].align);
    SameRemainder(Start(l, endaddr, least), Offset(l, k), l[k].align);
  }

  /** Sections of a group follow one another. */
  lemma {:induction false} SectionsOrdered(l: seq<Shape>, j: nat, k: nat)
    requires Shaped(l) && j < k < |l|
    ensures Offset(l, j) + l[j].size <= Space(l, k) <= Offset(l, k)
  {
    hide PowerOfTwo, AlignUp, Space, Offset;
    NextSection(l, k - 1);
    if j + 1 < k { SectionsOrdered(l, j, k - 1); }
  }

  /** The group ends at or below its end address. */
  ghost predicate Fits(l: seq<Shape>, endaddr: int, least: nat)
    requires Shaped(l) && PowerOfTwo(least)
  {
    Start(l, endaddr, least) + Space(l, |l|) <= endaddr
  }

  /**
   A group ends at or below its end address exactly when it fits above zero or the space left is
   a negative multiple of its alignment, since the division rounds toward zero.
   */
  lemma EndsBelow(l: seq<Shape>, endaddr: int, least: nat)
    requires Shaped(l) && PowerOfTwo(least)
    ensures var m := MinAlign(l, |l|, least);
            m > 0 && (Fits(l, endaddr, least) <==> Space(l, |l|) <= endaddr || (endaddr - Space(l, |l|)) % m == 0)
  {
    MinAlignPower(l, |l|, least);
    var m := MinAlign(l, |l|, least);
    AlignPositive(m);
    hide PowerOfTwo, Shaped;
    TruncBelow(endaddr - Space(l, |l|), m);
  }

  /** The most a group can lower the address at which the next one has to end. */
  ghost function Need(l: seq<Shape>, least: nat): int
    requires Shaped(l) && PowerOfTwo(least)
  {
    Space(l, |l|) + MinAlign(l, |l|, least) - 1
  }

  lemma StartAbove(l: seq<Shape>, endaddr: int, least: nat)
    requires Shaped(l) && PowerOfTwo(least) && Space(l, |l|) <= endaddr
    ensures Fits(l, endaddr, least) && Start(l, endaddr, least) >= 0
    ensures Start(l, endaddr, least) >= endaddr - Need(l, least)
  {
    hide PowerOfTwo, Shaped, Space, MinAlign;
    MinAlignPower(l, |l|, least);
    AlignPositive(MinAlign(l, |l|, least));
    TruncNear(endaddr - Space(l, |l|), MinAlign(l, |l|, least));
  }

  lemma TruncNear(x: nat, m: nat)
    requires m > 0
    ensures 0 <= Trunc(x, m) * m <= x <= Trunc(x, m) * m + m - 1
  {
    Euclid(x, m);
    DivBounds(x, m);
    MulNat(x / m, m);
  }

  /** The space taken from `pos` on. */
  ghost function SpaceFrom(pos: nat, l: seq<Shape>): nat
    requires Shaped(l)
    decreases |l|
  {
    if l == [] then pos else
      AlignPositive(l[0].align);
      SpaceFrom(AlignUp(pos, l[0].align) + l[0].size, l[1..])
  }

  ghost function AlignFromLeast(least: nat, l: seq<Shape>): nat
    decreases |l|
  {
    if l == [] then least else AlignFromLeast(Max(least, l[0].align), l[1..])
  }

  lemma {:induction false} SpaceSplit(l: seq<Shape>, n: nat, least: nat)
    requires Shaped(l) && n <= |l|
    ensures SpaceFrom(Space(l, n), l[n..]) == Space(l, |l|)
    ensures AlignFromLeast(MinAlign(l, n, least), l[n..]) == MinAlign(l, |l|, least)
    decreases |l| - n
  {
    hide PowerOfTwo;
    if n < |l| {
      NextSection(l, n);
      SpaceSplit(l, n + 1, least);
      assert l[n..][1..] == l[n + 1..];
    }
  }

  lemma AlignUpMono(x: int, y: int, a: nat)
    requires a > 0 && x <= y
    ensures AlignUp(x, a) <= AlignUp(y, a)
  {
    AlignedUp(x, a);
    AlignedUp(y, a);
    var u, v := AlignUp(x, a), AlignUp(y, a);
    hide AlignUp;
    Euclid(u, a);
    Euclid(v, a);
    MultiplesNear(u / a, v / a, a);
  }

  lemma MultiplesNear(p: int, q: int, a: nat)
    requires a > 0 && p * a < q * a + a
    ensures p * a <= q * a
  {
    if q < p {
      MulLe(a, q + 1, p);
    } else {
      MulLe(a, p, q);
    }
  }

  lemma {:induction false} SpaceMono(pos: nat, more: nat, l: seq<Shape>)
    requires Shaped(l) && pos <= more
    ensures SpaceFrom(pos, l) <= SpaceFrom(more, l)
    decreases |l|
  {
    hide PowerOfTwo, AlignUp;
    if l == [] {
    } else {
      AlignPositive(l[0].align);
      AlignUpMono(pos, more, l[0].align);
      SpaceMono(AlignUp(pos, l[0].align) + l[0].size, AlignUp(more, l[0].align) + l[0].size, l[1..]);
    }
  }

  lemma {:induction false} AlignMono(least: nat, more: nat, l: seq<Shape>)
    requires least <= more
    ensures AlignFromLeast(least, l) <= AlignFromLeast(more, l)
    decreases |l|
  {
    if l == [] {
    } else {
      AlignMono(Max(least, l[0].align), Max(more, l[0].align), l[1..]);
    }
  }

  lemma TruncBelow(x: int, m: nat)
    requires m > 0
    ensures Trunc(x, m) * m <= x <==> x >= 0 || x % m == 0
    ensures Trunc(x, m) * m > 0 ==> x > 0
  {
    if x >= 0 {
      Euclid(x, m);
    } else {
      var q, r := (-x) / m, (-x) % m;
      Euclid(-x, m);
      MulNeg(q, m);
      if r == 0 {
        DivModUnique(x, m, -q, 0);
      } else {
        assert x == (-q - 1) * m + (m - r);
        DivModUnique(x, m, -q - 1, m - r);
      }
    }
  }

  lemma MulNeg(q: int, m: nat)
    ensures -q * m == -(q * m)
    ensures q >= 0 ==> q * m >= 0
  {
  }

  // ----- sections as objects

  datatype Category =
    | Fixed | Code16 | Code32Seg | Text32Fseg | Data32Fseg | Flat32 | Init32 | Low32 | Dropped

  datatype Prefix = Text | Rodata | Data | Bss | NoPrefix

  /** A section; `rank` orders sections by name and `fixedaddr` is the address in a fixed name. */
  class Section {
    const size: nat
    const align: nat
    const rank: nat
    const category: Category
    const prefix: Prefix
    const fixedaddr: Option<nat>
    var finalloc: Option<int>
    var finalsegloc: Option<int>

    constructor (size: nat, align: nat, rank: nat, category: Category, prefix: Prefix, fixedaddr: Option<nat>)
      ensures this.size == size && this.align == align && this.rank == rank
      ensures this.category == category && this.prefix == prefix && this.fixedaddr == fixedaddr
      ensures finalloc == None && finalsegloc == None
    {
      this.size, this.align, this.rank := size, align, rank;
      this.category, this.prefix, this.fixedaddr := category, prefix, fixedaddr;
      finalloc, finalsegloc := None, None;
    }
  }

  function Shapes(l: seq<Section>): (r: seq<Shape>)
    ensures |r| == |l| && forall k :: 0 <= k < |l| ==> r[k] == Shape(l[k].size, l[k].align)
  {
    if l == [] then [] else [Shape(l[0].size, l[0].align)] + Shapes(l[1..])
  }

  predicate Distinct(l: seq<Section>) {
    forall j, k :: 0 <= j < k < |l| ==> l[j] != l[k]
  }

  /** The first loop of `setSectionsStart`. */
  method Measure(sections: seq<Section>, least: nat) returns (totspace: nat, minalign: nat)
    requires Shaped(Shapes(sections)) && PowerOfTwo(least)
    ensures totspace == Space(Shapes(sections), |sections|)
    ensures minalign == MinAlign(Shapes(sections), |sections|, least)
  {
    hide PowerOfTwo, AlignUp;
    ghost var l := Shapes(sections);
    totspace, minalign := 0, least;
    var n := 0;
    while n < |sections|
      invariant 0 <= n <= |sections| && totspace == Space(l, n) && minalign == MinAlign(l, n, least)
    {
      AlignPositive(l[n].align);
      minalign := Max(minalign, sections[n].align);
      totspace := AlignUp(totspace, sections[n].align) + sections[n].size;
      n := n + 1;
    }
  }

  /** Every section of a group is at its offset from the start. */
  ghost predicate GroupAt(l: seq<Section>, startaddr: int, segoffset: int)
    requires Shaped(Shapes(l))
    reads l
  {
    forall k :: 0 <= k < |l| ==>
      && l[k].finalloc == Some(startaddr + Offset(Shapes(l), k))
      && l[k].finalsegloc == Some(startaddr + Offset(Shapes(l), k) - segoffset)
  }

  /** The second loop: sections one after another from an aligned start. */
  method Place(sections: seq<Section>, startaddr: int, segoffset: int)
    requires Distinct(sections) && Shaped(Shapes(sections))
    requires forall k :: 0 <= k < |sections| ==> AlignedFor(startaddr, sections[k].align)
    modifies sections
    ensures GroupAt(sections, startaddr, segoffset)
  {
    hide PowerOfTwo, AlignUp, Shapes, Shaped, Space, Offset;
    ghost var l := Shapes(sections);
    var curaddr := startaddr;
    NoSpace(l);
    var n := 0;
    while n < |sections|
      invariant 0 <= n <= |sections| && curaddr == startaddr + Space(l, n)
      invariant forall k :: 0 <= k < n ==> sections[k].finalloc == Some(startaddr + Offset(l, k))
      invariant forall k :: 0 <= k < n ==> sections[k].finalsegloc == Some(startaddr + Offset(l, k) - segoffset)
    {
      AlignFrom(startaddr, Space(l, n), sections[n].align);
      NextSection(l, n);
      curaddr := AlignUp(curaddr, sections[n].align);
      sections[n].finalloc := Some(curaddr);
      sections[n].finalsegloc := Some(curaddr - segoffset);
      curaddr := curaddr + sections[n].size;
      n := n + 1;
    }
  }

  predicate AlignedFor(x: int, a: nat) {
    a > 0 && x % a == 0
  }

  /** `setSectionsStart`. */
  method SetSectionsStart(sections: seq<Section>, endaddr: int, least: nat, segoffset: int)
    returns (startaddr: int, minalign: nat)
    requires Distinct(sections) && Shaped(Shapes(sections)) && PowerOfTwo(least)
    modifies sections
    ensures minalign == MinAlign(Shapes(sections), |sections|, least)
    ensures startaddr == Start(Shapes(sections), endaddr, least)
    ensures GroupAt(sections, startaddr, segoffset)
  {
    hide PowerOfTwo, Trunc, Space, Offset, MinAlign, Distinct, Shaped;
    var totspace;
    totspace, minalign := Measure(sections, least);
    MinAlignPower(Shapes(sections), |sections|, least);
    AlignPositive(minalign);
    startaddr := Trunc(endaddr - totspace, minalign) * minalign;
    assert startaddr == Start(Shapes(sections), endaddr, least);
    hide Start;
    forall k | 0 <= k < |sections| ensures AlignedFor(startaddr, sections[k].align) {
      StartAligned(Shapes(sections), endaddr, least, k);
    }
    Place(sections, startaddr, segoffset);
  }
}
