/**
 Moving the init code to temporary memory. The build script lists the fields that have to change
 and `reloc_preinit` copies the code and adds the distance moved to the listed fields, in three
 passes. A field is a little-endian 32-bit word that holds the address of a symbol plus an
 addend, or that sum minus the address of the field.
 */
module Relocation {
  import opened Words
  import opened Wrappers

  // ----- 32-bit fields of byte memory

  function Field(mem: seq<nat>, a: nat): nat
    requires a + 4 <= |mem|
  {
    mem[a] + 0x100 * mem[a + 1] + 0x1_0000 * mem[a + 2] + 0x100_0000 * mem[a + 3]
  }

  function Store(mem: seq<nat>, a: nat, v: nat): seq<nat>
    requires a + 4 <= |mem|
  {
    mem[a := v % 256][a + 1 := v / 0x100 % 256][a + 2 := v / 0x1_0000 % 256][a + 3 := v / 0x100_0000 % 256]
  }

  lemma FieldStore(mem: seq<nat>, a: nat, v: nat)
    requires a + 4 <= |mem| && v < 0x1_0000_0000
    ensures Field(Store(mem, a, v), a) == v
  {
    Digits4(v);
  }

  lemma Digits4(v: nat)
    requires v < 0x1_0000_0000
    ensures v % 256 + 0x100 * (v / 0x100 % 256) + 0x1_0000 * (v / 0x1_0000 % 256) + 0x100_0000 * (v / 0x100_0000 % 256) == v
  {
    assert v / 0x1_0000 == v / 0x100 / 0x100 && v / 0x100_0000 == v / 0x1_0000 / 0x100;
  }

  predicate Apart(a: int, b: int) {
    a + 4 <= b || b + 4 <= a
  }

  // ----- one pass

  predicate InRange(mem: seq<nat>, dest: nat, list: seq<nat>) {
    forall k :: 0 <= k < |list| ==> dest + list[k] + 4 <= |mem|
  }

  predicate ListApart(list: seq<nat>) {
    forall j, k :: 0 <= j < k < |list| ==> list[j] + 4 <= list[k]
  }

  /** `updateRelocs`: `delta` added to every listed field. */
  function Patch(mem: seq<nat>, dest: nat, list: seq<nat>, delta: int): (m: seq<nat>)
    requires InRange(mem, dest, list)
    ensures |m| == |mem|
    decreases |list|
  {
    if list == [] then mem else
    var a := dest + list[0];
    Patch(Store(mem, a, U32(Field(mem, a) + delta)), dest, list[1..], delta)
  }

  /** A byte that is in no listed field stays. */
  lemma {:induction false} PatchByte(mem: seq<nat>, dest: nat, list: seq<nat>, delta: int, b: nat)
    requires InRange(mem, dest, list) && b < |mem|
    requires forall k :: 0 <= k < |list| ==> !(dest + list[k] <= b < dest + list[k] + 4)
    ensures Patch(mem, dest, list, delta)[b] == mem[b]
    decreases |list|
  {
    if list == [] {
    } else {
      hide U32, Field;
      var a := dest + list[0];
      PatchByte(Store(mem, a, U32(Field(mem, a) + delta)), dest, list[1..], delta, b);
    }
  }

  /** A field apart from every listed one stays. */
  lemma PatchOther(mem: seq<nat>, dest: nat, list: seq<nat>, delta: int, a: nat)
    requires InRange(mem, dest, list) && a + 4 <= |mem|
    requires forall k :: 0 <= k < |list| ==> Apart(dest + list[k], a)
    ensures Field(Patch(mem, dest, list, delta), a) == Field(mem, a)
  {
    hide Patch;
    PatchByte(mem, dest, list, delta, a);
    PatchByte(mem, dest, list, delta, a + 1);
    PatchByte(mem, dest, list, delta, a + 2);
    PatchByte(mem, dest, list, delta, a + 3);
  }

  /** A listed field moves by `delta`, modulo `2^32`. */
  lemma {:induction false} PatchListed(mem: seq<nat>, dest: nat, list: seq<nat>, delta: int, k: nat)
    requires InRange(mem, dest, list) && ListApart(list) && k < |list|
    ensures Field(Patch(mem, dest, list, delta), dest + list[k]) == U32(Field(mem, dest + list[k]) + delta)
    decreases |list|
  {
    hide U32;
    var a := dest + list[0];
    var v := U32(Field(mem, a) + delta);
    if k == 0 {
      PatchOther(Store(mem, a, v), dest, list[1..], delta, a);
      FieldStore(mem, a, v);
    } else {
      PatchListed(Store(mem, a, v), dest, list[1..], delta, k - 1);
      StoreOther(mem, a, v, dest + list[k]);
    }
  }

  lemma StoreOther(mem: seq<nat>, a: nat, v: nat, b: nat)
    requires a + 4 <= b && b + 4 <= |mem|
    ensures Field(Store(mem, a, v), b) == Field(mem, b)
  {
  }

  /** The loop of `updateRelocs`. */
  method UpdateRelocs(mem: array<nat>, dest: nat, list: seq<nat>, delta: int)
    requires InRange(mem[..], dest, list)
    modifies mem
    ensures mem[..] == Patch(old(mem[..]), dest, list, delta)
  {
    var k := 0;
    while k < |list|
      invariant 0 <= k <= |list|
      invariant InRange(mem[..], dest, list[k..])
      invariant Patch(mem[..], dest, list[k..], delta) == Patch(old(mem[..]), dest, list, delta)
    {
      var a := dest + list[k];
      ghost var was := mem[..];
      var v := U32(Field(mem[..], a) + delta);
      mem[a], mem[a + 1], mem[a + 2], mem[a + 3] :=
        v % 256, v / 0x100 % 256, v / 0x1_0000 % 256, v / 0x100_0000 % 256;
      assert mem[..] == Store(was, a, v);
      assert list[k..][1..] == list[k + 1..];
      k := k + 1;
    }
  }

  // ----- the linked image

  datatype Kind = Abs32 | Pc32

  datatype Section = Section(init: bool, loc: nat, size: nat)

  /** A field of a section; `target` is the section of its symbol, or none for an absolute symbol. */
  datatype Ref = Ref(section: nat, offset: nat, kind: Kind, target: Option<nat>, symbol: nat, addend: int)

  datatype Image = Image(sections: seq<Section>, refs: seq<Ref>, flatStart: nat, initStart: nat, initEnd: nat, end: nat)

  function Pos(img: Image, k: nat): nat
    requires Linkable(img) && k < |img.refs|
  {
    img.sections[img.refs[k].section].loc + img.refs[k].offset
  }

  predicate FromInit(img: Image, k: nat)
    requires Linkable(img) && k < |img.refs|
  {
    img.sections[img.refs[k].section].init
  }

  predicate ToSection(img: Image, k: nat, init: bool)
    requires Linkable(img) && k < |img.refs|
  {
    img.refs[k].target.Some? && img.sections[img.refs[k].target.value].init == init
  }

  predicate Linkable(img: Image) {
    && img.flatStart <= img.initStart <= img.initEnd <= img.end
    && (forall k :: 0 <= k < |img.refs| ==> InSections(img, img.refs[k]))
    && (forall n :: 0 <= n < |img.sections| ==> Placed(img, img.sections[n]))
  }

  predicate InSections(img: Image, r: Ref) {
    && r.section < |img.sections| && r.offset + 4 <= img.sections[r.section].size
    && (r.target.Some? ==> r.target.value < |img.sections|)
  }

  /** Init sections lie in the init range and the others outside it. */
  predicate Placed(img: Image, s: Section) {
    && img.flatStart <= s.loc && s.loc + s.size <= img.end
    && if s.init then img.initStart <= s.loc && s.loc + s.size <= img.initEnd
       else s.loc + s.size <= img.initStart || img.initEnd <= s.loc
  }

  predicate FieldsApart(img: Image)
    requires Linkable(img)
  {
    forall j, k :: 0 <= j < |img.refs| && 0 <= k < |img.refs| && j != k ==> Apart(Pos(img, j), Pos(img, k))
  }

  /** What field `k` must hold when its own code has moved by `p` and its target by `t`. */
  function Resolved(img: Image, k: nat, p: int, t: int): int
    requires Linkable(img) && k < |img.refs|
  {
    var r := img.refs[k];
    var base := if r.target.Some? then img.sections[r.target.value].loc else 0;
    base + r.symbol + t + r.addend - if r.kind == Pc32 then Pos(img, k) + p else 0
  }

  /** Every field resolves to its target where the linker put it. */
  predicate Linked(mem: seq<nat>, img: Image)
    requires Linkable(img)
  {
    img.end <= |mem| &&
    forall k :: 0 <= k < |img.refs| ==> Field(mem, Pos(img, k)) == U32(Resolved(img, k, 0, 0))
  }

  // ----- the generated lists

  predicate Selected(img: Image, k: nat, from: bool, to: bool, kind: Option<Kind>)
    requires Linkable(img) && k < |img.refs|
  {
    FromInit(img, k) == from && ToSection(img, k, to) && (kind.Some? ==> img.refs[k].kind == kind.value)
  }

  /** `getRelocs` over the first `n` relocations. */
  function GetRelocs(img: Image, n: nat, from: bool, to: bool, kind: Option<Kind>): seq<nat>
    requires Linkable(img) && n <= |img.refs|
  {
    if n == 0 then [] else
    GetRelocs(img, n - 1, from, to, kind) + if Selected(img, n - 1, from, to, kind) then [Pos(img, n - 1)] else []
  }

  lemma {:induction false} RelocOf(img: Image, n: nat, from: bool, to: bool, kind: Option<Kind>, x: nat)
    returns (k: nat)
    requires Linkable(img) && n <= |img.refs| && x in GetRelocs(img, n, from, to, kind)
    ensures k < n && Selected(img, k, from, to, kind) && x == Pos(img, k)
  {
    hide Linkable, Selected, Pos;
    if x in GetRelocs(img, n - 1, from, to, kind) {
      k := RelocOf(img, n - 1, from, to, kind, x);
    } else {
      k := n - 1;
    }
  }

  lemma {:induction false} RelocIn(img: Image, n: nat, from: bool, to: bool, kind: Option<Kind>, k: nat)
    requires Linkable(img) && k < n <= |img.refs| && Selected(img, k, from, to, kind)
    ensures Pos(img, k) in GetRelocs(img, n, from, to, kind)
  {
    hide Linkable, Selected, Pos;
    if k + 1 < n { RelocIn(img, n - 1, from, to, kind, k); }
  }

  /** `strRelocs`: the positions in increasing order, relative to `base`. */
  predicate Listed(list: seq<nat>, relocs: seq<nat>, base: nat) {
    Increasing(list) && OnlyFrom(list, relocs, base) && Covers(list, relocs, base)
  }

  predicate Increasing(list: seq<nat>) {
    forall j, k :: 0 <= j < k < |list| ==> list[j] < list[k]
  }

  predicate OnlyFrom(list: seq<nat>, relocs: seq<nat>, base: nat) {
    forall k :: 0 <= k < |list| ==> base + list[k] in relocs
  }

  predicate Covers(list: seq<nat>, relocs: seq<nat>, base: nat) {
    forall x :: x in relocs ==> base <= x && x - base in list
  }

  datatype Lists = Lists(abs: seq<nat>, rel: seq<nat>, init: seq<nat>)

  predicate Generated(img: Image, l: Lists)
    requires Linkable(img)
  {
    && Listed(l.abs, GetRelocs(img, |img.refs|, true, true, Some(Abs32)), img.initStart)
    && Listed(l.rel, GetRelocs(img, |img.refs|, true, false, Some(Pc32)), img.initStart)
    && Listed(l.init, GetRelocs(img, |img.refs|, false, true, None), img.flatStart)
  }

  // ----- what a pass does to a field

  lemma ListFits(img: Image, from: bool, to: bool, kind: Option<Kind>, list: seq<nat>, base: nat)
    requires Linkable(img) && FieldsApart(img) && Listed(list, GetRelocs(img, |img.refs|, from, to, kind), base)
    ensures ListApart(list)
    ensures forall k :: 0 <= k < |list| ==> base + list[k] + 4 <= if from then img.initEnd else img.end
  {
    hide GetRelocs, FieldsApart, Linkable, ListApart, Covers, Increasing;
    forall k | 0 <= k < |list|
      ensures base + list[k] + 4 <= if from then img.initEnd else img.end
    {
      var i := RelocOf(img, |img.refs|, from, to, kind, base + list[k]);
      FieldFits(img, i);
    }
    ListSpaced(img, from, to, kind, list, base);
  }

  lemma FieldFits(img: Image, k: nat)
    requires Linkable(img) && k < |img.refs|
    ensures img.flatStart <= Pos(img, k) && Pos(img, k) + 4 <= img.end
    ensures FromInit(img, k) ==> img.initStart <= Pos(img, k) && Pos(img, k) + 4 <= img.initEnd
  {
    assert Placed(img, img.sections[img.refs[k].section]);
  }

  lemma ListSpaced(img: Image, from: bool, to: bool, kind: Option<Kind>, list: seq<nat>, base: nat)
    requires Linkable(img) && FieldsApart(img) && Listed(list, GetRelocs(img, |img.refs|, from, to, kind), base)
    ensures ListApart(list)
  {
    hide GetRelocs, Linkable, Pos, Selected, Covers;
    forall j, k | 0 <= j < k < |list|
      ensures list[j] + 4 <= list[k]
    {
      var i := RelocOf(img, |img.refs|, from, to, kind, base + list[j]);
      var n := RelocOf(img, |img.refs|, from, to, kind, base + list[k]);
      assert Apart(Pos(img, i), Pos(img, n));
    }
  }

  lemma PassSelected(mem: seq<nat>, img: Image, from: bool, to: bool, kind: Option<Kind>, list: seq<nat>,
                     base: nat, dest: nat, delta: int, k: nat)
    requires Linkable(img) && FieldsApart(img) && Listed(list, GetRelocs(img, |img.refs|, from, to, kind), base)
    requires InRange(mem, dest, list) && k < |img.refs| && Selected(img, k, from, to, kind)
    ensures base <= Pos(img, k) && dest + Pos(img, k) - base + 4 <= |mem|
    ensures var a := dest + Pos(img, k) - base;
            Field(Patch(mem, dest, list, delta), a) == U32(Field(mem, a) + delta)
  {
    hide GetRelocs, Patch, Field, U32, Linkable, Selected, Pos, ListApart, FieldsApart, Increasing, OnlyFrom;
    ListSpaced(img, from, to, kind, list, base);
    RelocIn(img, |img.refs|, from, to, kind, k);
    var n :| 0 <= n < |list| && list[n] == Pos(img, k) - base;
    PatchListed(mem, dest, list, delta, n);
  }

  lemma PassUnselected(mem: seq<nat>, img: Image, from: bool, to: bool, kind: Option<Kind>, list: seq<nat>,
                       base: nat, dest: nat, delta: int, k: nat)
    requires Linkable(img) && FieldsApart(img) && Listed(list, GetRelocs(img, |img.refs|, from, to, kind), base)
    requires InRange(mem, dest, list) && k < |img.refs| && base <= Pos(img, k) && dest + Pos(img, k) - base + 4 <= |mem|
    requires !Selected(img, k, from, to, kind)
    ensures var a := dest + Pos(img, k) - base;
            Field(Patch(mem, dest, list, delta), a) == Field(mem, a)
  {
    hide GetRelocs, Patch, Field, Linkable, Selected, Pos, InRange, Increasing, Covers;
    forall n | 0 <= n < |list|
      ensures Apart(dest + list[n], dest + Pos(img, k) - base)
    {
      var i := RelocOf(img, |img.refs|, from, to, kind, base + list[n]);
    }
    PatchOther(mem, dest, list, delta, dest + Pos(img, k) - base);
  }

  /** A pass moves exactly the selected fields. */
  lemma PassField(mem: seq<nat>, img: Image, from: bool, to: bool, kind: Option<Kind>, list: seq<nat>,
                  base: nat, dest: nat, delta: int, k: nat)
    requires Linkable(img) && FieldsApart(img) && Listed(list, GetRelocs(img, |img.refs|, from, to, kind), base)
    requires InRange(mem, dest, list) && k < |img.refs| && base <= Pos(img, k) && dest + Pos(img, k) - base + 4 <= |mem|
    ensures var a := dest + Pos(img, k) - base;
            Field(Patch(mem, dest, list, delta), a) ==
              if Selected(img, k, from, to, kind) then U32(Field(mem, a) + delta) else Field(mem, a)
  {
    hide *;
    if Selected(img, k, from, to, kind) {
      PassSelected(mem, img, from, to, kind, list, base, dest, delta, k);
    } else {
      PassUnselected(mem, img, from, to, kind, list, base, dest, delta, k);
    }
  }

  // ----- the move

  function Copied(mem: seq<nat>, src: nat, n: nat, dest: nat): (m: seq<nat>)
    requires src + n <= |mem| && dest + n <= |mem|
    ensures |m| == |mem|
  {
    mem[..dest] + mem[src..src + n] + mem[dest + n..]
  }

  function CopiedByte(mem: seq<nat>, src: nat, n: nat, dest: nat, a: nat): nat
    requires src + n <= |mem| && dest + n <= |mem| && a < |mem|
  {
    if dest <= a < dest + n then mem[src + (a - dest)] else mem[a]
  }

  function InitSize(img: Image): nat
    requires Linkable(img)
  {
    img.initEnd - img.initStart
  }

  /** There is room for the code at `dest`, away from the image. */
  predicate Room(mem: seq<nat>, img: Image, dest: nat)
    requires Linkable(img)
  {
    && img.end <= |mem| && dest + InitSize(img) <= |mem|
    && (dest + InitSize(img) <= img.flatStart || img.end <= dest)
  }

  lemma PassesFit(mem: seq<nat>, img: Image, l: Lists, dest: nat)
    requires Linkable(img) && FieldsApart(img) && Generated(img, l) && Room(mem, img, dest)
    ensures InRange(mem, dest, l.abs) && InRange(mem, dest, l.rel) && InRange(mem, img.flatStart, l.init)
  {
    hide GetRelocs, Listed, FieldsApart, ListApart;
    ListFits(img, true, true, Some(Abs32), l.abs, img.initStart);
    ListFits(img, true, false, Some(Pc32), l.rel, img.initStart);
    ListFits(img, false, true, None, l.init, img.flatStart);
  }

  /** Memory after `reloc_preinit`: the copy and the three passes. */
  function Relocated(mem: seq<nat>, img: Image, l: Lists, dest: nat): seq<nat>
    requires Linkable(img) && FieldsApart(img) && Generated(img, l) && Room(mem, img, dest)
  {
    PassesFit(mem, img, l, dest);
    var delta := dest - img.initStart;
    var copied := Copied(mem, img.initStart, InitSize(img), dest);
    var abs := Patch(copied, dest, l.abs, delta);
    var rel := Patch(abs, dest, l.rel, -delta);
    Patch(rel, img.flatStart, l.init, delta)
  }

  lemma CopiedField(mem: seq<nat>, src: nat, n: nat, dest: nat, a: nat)
    requires src + n <= |mem| && dest + n <= |mem| && src <= a && a + 4 <= src + n
    ensures Field(Copied(mem, src, n, dest), dest + a - src) == Field(mem, a)
  {
  }

  lemma KeptField(mem: seq<nat>, src: nat, n: nat, dest: nat, a: nat)
    requires src + n <= |mem| && dest + n <= |mem| && a + 4 <= |mem| && (a + 4 <= dest || dest + n <= a)
    ensures Field(Copied(mem, src, n, dest), a) == Field(mem, a)
  {
  }

  /** How much the three passes change field `k`. */
  function Change(img: Image, k: nat, delta: int): int
    requires Linkable(img) && k < |img.refs|
  {
    if FromInit(img, k) then
      (if ToSection(img, k, true) && img.refs[k].kind == Abs32 then delta
       else if ToSection(img, k, false) && img.refs[k].kind == Pc32 then -delta else 0)
    else if ToSection(img, k, true) then delta else 0
  }

  /** Where field `k` is after the move. */
  function NewPos(img: Image, k: nat, delta: int): int
    requires Linkable(img) && k < |img.refs|
  {
    Pos(img, k) + if FromInit(img, k) then delta else 0
  }

  lemma InitField(mem: seq<nat>, img: Image, l: Lists, dest: nat, k: nat)
    requires Linkable(img) && FieldsApart(img) && Generated(img, l) && Room(mem, img, dest)
    requires k < |img.refs| && FromInit(img, k) && Field(mem, Pos(img, k)) < 0x1_0000_0000
    ensures var delta := dest - img.initStart;
            Field(Relocated(mem, img, l, dest), dest + Pos(img, k) - img.initStart) == U32(Field(mem, Pos(img, k)) + Change(img, k, delta))
  {
    hide GetRelocs, Patch, Field, Copied, ListApart, Listed;
    PassesFit(mem, img, l, dest);
    var delta, a := dest - img.initStart, dest + Pos(img, k) - img.initStart;
    var copied := Copied(mem, img.initStart, InitSize(img), dest);
    var abs := Patch(copied, dest, l.abs, delta);
    var rel := Patch(abs, dest, l.rel, -delta);
    CopiedField(mem, img.initStart, InitSize(img), dest, Pos(img, k));
    PassField(copied, img, true, true, Some(Abs32), l.abs, img.initStart, dest, delta, k);
    PassField(abs, img, true, false, Some(Pc32), l.rel, img.initStart, dest, -delta, k);
    ListFits(img, false, true, None, l.init, img.flatStart);
    PatchOther(rel, img.flatStart, l.init, delta, a);
  }

  lemma OtherField(mem: seq<nat>, img: Image, l: Lists, dest: nat, k: nat)
    requires Linkable(img) && FieldsApart(img) && Generated(img, l) && Room(mem, img, dest)
    requires k < |img.refs| && !FromInit(img, k) && Field(mem, Pos(img, k)) < 0x1_0000_0000
    ensures var delta := dest - img.initStart;
            Field(Relocated(mem, img, l, dest), Pos(img, k)) == U32(Field(mem, Pos(img, k)) + Change(img, k, delta))
  {
    hide GetRelocs, Patch, Field, Copied, ListApart, Listed;
    PassesFit(mem, img, l, dest);
    var delta, a := dest - img.initStart, Pos(img, k);
    var copied := Copied(mem, img.initStart, InitSize(img), dest);
    var abs := Patch(copied, dest, l.abs, delta);
    var rel := Patch(abs, dest, l.rel, -delta);
    KeptField(mem, img.initStart, InitSize(img), dest, a);
    ListFits(img, true, true, Some(Abs32), l.abs, img.initStart);
    PatchOther(copied, dest, l.abs, delta, a);
    ListFits(img, true, false, Some(Pc32), l.rel, img.initStart);
    PatchOther(abs, dest, l.rel, -delta, a);
    PassField(rel, img, false, true, None, l.init, img.flatStart, img.flatStart, delta, k);
  }

  /** The one reference that no list covers: from moved code, relative, to an absolute symbol. */
  predicate Uncovered(img: Image, k: nat)
    requires Linkable(img) && k < |img.refs|
  {
    FromInit(img, k) && img.refs[k].kind == Pc32 && img.refs[k].target.None?
  }

  /** How far the target of field `k` moves. */
  function TargetMove(img: Image, k: nat, delta: int): int
    requires Linkable(img) && k < |img.refs|
  {
    if ToSection(img, k, true) then delta else 0
  }

  /**
   After the move every field resolves, modulo `2^32`, to its target's new address. The exception
   is a relative reference from moved code to an absolute symbol, which resolves exactly when the
   code has moved by a multiple of `2^32`.
   */
  lemma RelocationPreserves(mem: seq<nat>, img: Image, l: Lists, dest: nat, k: nat)
    requires Linkable(img) && FieldsApart(img) && Generated(img, l) && Room(mem, img, dest)
    requires Linked(mem, img) && k < |img.refs|
    ensures var delta := dest - img.initStart;
            && 0 <= NewPos(img, k, delta) && NewPos(img, k, delta) + 4 <= |Relocated(mem, img, l, dest)|
            && (Field(Relocated(mem, img, l, dest), NewPos(img, k, delta))
                  == U32(Resolved(img, k, NewPos(img, k, delta) - Pos(img, k), TargetMove(img, k, delta)))
                <==> !Uncovered(img, k) || delta % 0x1_0000_0000 == 0)
  {
    hide GetRelocs, Patch, Field, Copied, FieldsApart, Relocated, Generated;
    var delta := dest - img.initStart;
    RelocatedLength(mem, img, l, dest);
    if FromInit(img, k) {
      InitField(mem, img, l, dest, k);
    } else {
      OtherField(mem, img, l, dest, k);
    }
    Congruent(Resolved(img, k, 0, 0), Change(img, k, delta));
    SameResidue(Resolved(img, k, 0, 0), delta);
  }

  const STALE := Image([Section(true, 0, 8)], [Ref(0, 0, Pc32, None, 0, 0)], 0, 0, 8, 8)

  predicate Zeros(mem: seq<nat>) {
    |mem| == 16 && forall i :: 0 <= i < 16 ==> mem[i] == 0
  }

  lemma StaleLinkable(img: Image)
    requires img == STALE
    ensures Linkable(img) && |img.refs| == 1
    ensures Pos(img, 0) == 0 && Resolved(img, 0, 0, 0) == 0 && img.flatStart == img.initStart == 0
    ensures img.initEnd == img.end == 8
  {
    assert img.sections[0] == Section(true, 0, 8);
  }

  lemma StaleLinks(mem: seq<nat>, img: Image)
    requires Linkable(img) && |img.refs| == 1 && Zeros(mem) && Pos(img, 0) == 0 && Resolved(img, 0, 0, 0) == 0
    requires img.flatStart == img.initStart == 0 && img.initEnd == img.end == 8
    ensures FieldsApart(img) && Room(mem, img, 8) && Linked(mem, img)
  {
    hide Linkable, Pos, Resolved;
    assert Field(mem, 0) == 0;
  }

  lemma StaleLists(img: Image)
    requires img == STALE
    ensures Linkable(img) && Generated(img, Lists([], [], []))
    ensures |img.refs| == 1 && img.initStart == 0 && Uncovered(img, 0)
    ensures Pos(img, 0) == 0 && NewPos(img, 0, 8) == 8 && TargetMove(img, 0, 8) == 0
  {
    assert img.sections[0] == Section(true, 0, 8);
    NothingListed(img, true, true, Some(Abs32));
    NothingListed(img, true, false, Some(Pc32));
    NothingListed(img, false, true, None);
  }

  lemma NothingListed(img: Image, from: bool, to: bool, kind: Option<Kind>)
    requires Linkable(img) && |img.refs| == 1 && img.refs[0].target.None?
    ensures GetRelocs(img, 1, from, to, kind) == []
  {
    assert GetRelocs(img, 0, from, to, kind) == [];
  }

  /** Such a field does occur: sixteen zero bytes, of which the first eight move up by eight. */
  lemma UncoveredStale(mem: seq<nat>) returns (img: Image, l: Lists)
    requires Zeros(mem)
    ensures Linkable(img) && FieldsApart(img) && Generated(img, l) && Room(mem, img, 8) && Linked(mem, img)
    ensures |img.refs| == 1 && |Relocated(mem, img, l, 8)| == 16
    ensures Field(Relocated(mem, img, l, 8), 8) != U32(Resolved(img, 0, 8, 0))
    ensures img == STALE && NewPos(img, 0, 8) == 8 && l == Lists([], [], [])
  {
    img, l := STALE, Lists([], [], []);
    StaleLinkable(img);
    StaleLists(img);
    hide *;
    StaleLinks(mem, img);
    StaleField(mem, img, l);
  }

  lemma StaleField(mem: seq<nat>, img: Image, l: Lists)
    requires Linkable(img) && FieldsApart(img) && Generated(img, l) && Room(mem, img, 8) && Linked(mem, img)
    requires |img.refs| == 1 && img.initStart == 0 && Uncovered(img, 0)
    requires Pos(img, 0) == 0 && NewPos(img, 0, 8) == 8 && TargetMove(img, 0, 8) == 0
    ensures |Relocated(mem, img, l, 8)| == |mem| >= 12
    ensures Field(Relocated(mem, img, l, 8), 8) != U32(Resolved(img, 0, 8, 0))
  {
    hide *;
    RelocatedLength(mem, img, l, 8);
    RelocationPreserves(mem, img, l, 8, 0);
  }

  /** A pass leaves every byte that is part of no field. */
  lemma PassByte(mem: seq<nat>, img: Image, from: bool, to: bool, kind: Option<Kind>, list: seq<nat>,
                 base: nat, dest: nat, delta: int, b: nat)
    requires Linkable(img) && Listed(list, GetRelocs(img, |img.refs|, from, to, kind), base)
    requires InRange(mem, dest, list) && base <= b && dest + b - base < |mem|
    requires forall k :: 0 <= k < |img.refs| ==> !(Pos(img, k) <= b < Pos(img, k) + 4)
    ensures Patch(mem, dest, list, delta)[dest + b - base] == mem[dest + b - base]
  {
    hide GetRelocs, Patch, Field, Linkable, Selected, Pos, InRange, Increasing, Covers;
    forall n | 0 <= n < |list|
      ensures !(dest + list[n] <= dest + b - base < dest + list[n] + 4)
    {
      var i := RelocOf(img, |img.refs|, from, to, kind, base + list[n]);
    }
    PatchByte(mem, dest, list, delta, dest + b - base);
  }

  /** The moved code is the old code byte for byte, outside its fields. */
  lemma RelocationCopies(mem: seq<nat>, img: Image, l: Lists, dest: nat, b: nat)
    requires Linkable(img) && FieldsApart(img) && Generated(img, l) && Room(mem, img, dest)
    requires img.initStart <= b < img.initEnd
    requires forall k :: 0 <= k < |img.refs| ==> !(Pos(img, k) <= b < Pos(img, k) + 4)
    ensures |Relocated(mem, img, l, dest)| == |mem| && Relocated(mem, img, l, dest)[dest + b - img.initStart] == mem[b]
  {
    hide GetRelocs, Patch, ListApart, Listed, Pos;
    PassesFit(mem, img, l, dest);
    var delta, a := dest - img.initStart, dest + b - img.initStart;
    var copied := Copied(mem, img.initStart, InitSize(img), dest);
    var abs := Patch(copied, dest, l.abs, delta);
    var rel := Patch(abs, dest, l.rel, -delta);
    PassByte(copied, img, true, true, Some(Abs32), l.abs, img.initStart, dest, delta, b);
    PassByte(abs, img, true, false, Some(Pc32), l.rel, img.initStart, dest, -delta, b);
    ListFits(img, false, true, None, l.init, img.flatStart);
    PatchByte(rel, img.flatStart, l.init, delta, a);
  }

  /** Outside the new place nothing changes but the fields of code that stays. */
  lemma RelocationFrame(mem: seq<nat>, img: Image, l: Lists, dest: nat, b: nat)
    requires Linkable(img) && FieldsApart(img) && Generated(img, l) && Room(mem, img, dest)
    requires b < |mem| && !(dest <= b < dest + InitSize(img))
    requires forall k :: 0 <= k < |img.refs| ==> FromInit(img, k) || !(Pos(img, k) <= b < Pos(img, k) + 4)
    ensures |Relocated(mem, img, l, dest)| == |mem| && Relocated(mem, img, l, dest)[b] == mem[b]
  {
    hide GetRelocs, Patch, ListApart, Listed, Pos, FromInit;
    PassesFit(mem, img, l, dest);
    var delta := dest - img.initStart;
    var copied := Copied(mem, img.initStart, InitSize(img), dest);
    var abs := Patch(copied, dest, l.abs, delta);
    var rel := Patch(abs, dest, l.rel, -delta);
    ListFits(img, true, true, Some(Abs32), l.abs, img.initStart);
    PatchByte(copied, dest, l.abs, delta, b);
    ListFits(img, true, false, Some(Pc32), l.rel, img.initStart);
    PatchByte(abs, dest, l.rel, -delta, b);
    InitListMisses(img, l, b);
    PatchByte(rel, img.flatStart, l.init, delta, b);
  }

  lemma InitListMisses(img: Image, l: Lists, b: nat)
    requires Linkable(img) && Generated(img, l)
    requires forall k :: 0 <= k < |img.refs| ==> FromInit(img, k) || !(Pos(img, k) <= b < Pos(img, k) + 4)
    ensures forall n :: 0 <= n < |l.init| ==> !(img.flatStart + l.init[n] <= b < img.flatStart + l.init[n] + 4)
  {
    hide GetRelocs, Linkable, Pos, FromInit, Increasing, Covers;
    forall n | 0 <= n < |l.init|
      ensures !(img.flatStart + l.init[n] <= b < img.flatStart + l.init[n] + 4)
    {
      var i := RelocOf(img, |img.refs|, false, true, None, img.flatStart + l.init[n]);
    }
  }

  lemma RelocatedLength(mem: seq<nat>, img: Image, l: Lists, dest: nat)
    requires Linkable(img) && FieldsApart(img) && Generated(img, l) && Room(mem, img, dest)
    ensures |Relocated(mem, img, l, dest)| == |mem|
  {
    PassesFit(mem, img, l, dest);
  }

  lemma SameResidue(x: int, d: int)
    ensures U32(x) == U32(x - d) <==> d % 0x1_0000_0000 == 0
  {
  }

  method Memcpy(mem: array<nat>, dest: nat, src: nat, n: nat)
    requires src + n <= mem.Length && dest + n <= mem.Length && (dest + n <= src || src + n <= dest)
    modifies mem
    ensures mem[..] == Copied(old(mem[..]), src, n, dest)
  {
    ghost var was := mem[..];
    var k := 0;
    while k < n
      invariant 0 <= k <= n
      invariant forall a :: 0 <= a < |was| ==> mem[a] == CopiedByte(was, src, k, dest, a)
    {
      assert mem[src + k] == was[src + k];
      mem[dest + k] := mem[src + k];
      k := k + 1;
    }
    forall a | 0 <= a < |was| ensures mem[a] == Copied(was, src, n, dest)[a] {}
  }

  /** `reloc_preinit`, after the space has been allocated. */
  method RelocPreinit(mem: array<nat>, img: Image, l: Lists, dest: nat)
    requires Linkable(img) && FieldsApart(img) && Generated(img, l) && Room(mem[..], img, dest)
    modifies mem
    ensures mem[..] == Relocated(old(mem[..]), img, l, dest)
  {
    hide GetRelocs, Patch, FieldsApart, Generated, Copied;
    PassesFit(mem[..], img, l, dest);
    var delta := dest - img.initStart;
    Memcpy(mem, dest, img.initStart, img.initEnd - img.initStart);
    UpdateRelocs(mem, dest, l.abs, delta);
    UpdateRelocs(mem, dest, l.rel, -delta);
    UpdateRelocs(mem, img.flatStart, l.init, delta);
  }
}
