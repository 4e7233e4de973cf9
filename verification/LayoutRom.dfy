/** The whole layout, `doLayout`: groups of sections from the end of the ROM downwards. */
module LayoutRom {
  import opened Wrappers
  import opened Words
  import opened Layout
  import opened LayoutFit

  const MIN_BIOSTABLE: int := 2048
  const ROM_START: int := 0xc0000
  const LOWRAM_END: int := 0xa0000

  // ----- groups

  /** Sections of a category, and of a name prefix when one is given. */
  function Select(l: seq<Section>, c: Category, p: Option<Prefix>): seq<Section> {
    if l == [] then [] else
    (if l[0].category == c && (p.Some? ==> l[0].prefix == p.value) then [l[0]] else []) + Select(l[1..], c, p)
  }

  predicate Selects(s: Section, c: Category, p: Option<Prefix>) {
    s.category == c && (p.Some? ==> s.prefix == p.value)
  }

  lemma {:induction false} SelectIn(l: seq<Section>, c: Category, p: Option<Prefix>, s: Section)
    ensures s in Select(l, c, p) <==> s in l && Selects(s, c, p)
  {
    if l == [] {
    } else {
      SelectIn(l[1..], c, p, s);
    }
  }

  lemma {:induction false} SelectDistinct(l: seq<Section>, c: Category, p: Option<Prefix>)
    requires Distinct(l)
    ensures Distinct(Select(l, c, p))
  {
    if l == [] {
    } else {
      SelectDistinct(l[1..], c, p);
      SelectIn(l[1..], c, p, l[0]);
    }
  }

  lemma DistinctConcat(a: seq<Section>, b: seq<Section>)
    requires Distinct(a) && Distinct(b) && forall s :: s in a ==> s !in b
    ensures Distinct(a + b)
  {
    forall j, k | 0 <= j < k < |a + b| ensures (a + b)[j] != (a + b)[k] {
      if j < |a| <= k { assert a[j] in a && b[k - |a|] in b; }
    }
  }

  /** Text, then read-only data, then data, of one category. */
  function Group(l: seq<Section>, c: Category): seq<Section> {
    Select(l, c, Some(Text)) + Select(l, c, Some(Rodata)) + Select(l, c, Some(Data))
  }

  /** The same followed by zero-initialised data. */
  function FlatGroup(l: seq<Section>, c: Category): seq<Section> {
    Group(l, c) + Select(l, c, Some(Bss))
  }

  lemma GroupIn(l: seq<Section>, c: Category, s: Section)
    ensures s in Group(l, c) <==> s in l && s.category == c && s.prefix in {Text, Rodata, Data}
    ensures s in FlatGroup(l, c) <==> s in l && s.category == c && s.prefix in {Text, Rodata, Data, Bss}
  {
    hide Select;
    SelectIn(l, c, Some(Text), s);
    SelectIn(l, c, Some(Rodata), s);
    SelectIn(l, c, Some(Data), s);
    SelectIn(l, c, Some(Bss), s);
  }

  lemma SelectApart(l: seq<Section>, c: Category, p: Prefix, q: Prefix)
    requires p != q
    ensures forall s :: s in Select(l, c, Some(p)) ==> s !in Select(l, c, Some(q))
  {
    hide Select;
    forall s | s in Select(l, c, Some(p)) ensures s !in Select(l, c, Some(q)) {
      SelectIn(l, c, Some(p), s);
      SelectIn(l, c, Some(q), s);
    }
  }

  lemma GroupDistinct(l: seq<Section>, c: Category)
    requires Distinct(l)
    ensures Distinct(Group(l, c)) && Distinct(FlatGroup(l, c))
  {
    hide Select, Distinct;
    var t, r := Select(l, c, Some(Text)), Select(l, c, Some(Rodata));
    var d, b := Select(l, c, Some(Data)), Select(l, c, Some(Bss));
    SelectDistinct(l, c, Some(Text));
    SelectDistinct(l, c, Some(Rodata));
    SelectDistinct(l, c, Some(Data));
    SelectDistinct(l, c, Some(Bss));
    SelectApart(l, c, Text, Rodata);
    SelectApart(l, c, Text, Data);
    SelectApart(l, c, Rodata, Data);
    SelectApart(l, c, Text, Bss);
    SelectApart(l, c, Rodata, Bss);
    SelectApart(l, c, Data, Bss);
    DistinctConcat(t, r);
    DistinctConcat(t + r, d);
    DistinctConcat(t + r + d, b);
  }

  // ----- the order within a group

  /** Some categories are ordered by name prefix, the others as in the input. */
  function PrefixRank(s: Section): nat {
    if s.category in {Code16, Code32Seg, Flat32, Init32}
    then match s.prefix case Text => 0 case Rodata => 1 case Data => 2 case Bss => 3 case NoPrefix => 4
    else 0
  }

  /** Section `j` comes after section `i` in their category. */
  predicate Follows(sections: seq<Section>, i: nat, j: nat)
    requires i < |sections| && j < |sections|
  {
    var s, t := sections[i], sections[j];
    s.category == t.category && (PrefixRank(s) < PrefixRank(t) || (PrefixRank(s) == PrefixRank(t) && i < j))
  }

  ghost predicate Before(l: seq<Section>, s: Section, t: Section) {
    exists a, b :: 0 <= a < b < |l| && l[a] == s && l[b] == t
  }

  predicate InPair(sections: seq<Section>, i: nat, j: nat, l: seq<Section>)
    requires i < |sections| && j < |sections|
  {
    sections[i] in l && sections[j] in l
  }

  ghost predicate InOrder(sections: seq<Section>, l: seq<Section>) {
    forall i, j :: 0 <= i < |sections| && 0 <= j < |sections| && InPair(sections, i, j, l) && Follows(sections, i, j) ==>
      Before(l, sections[i], sections[j])
  }

  lemma {:induction false} SelectConcat(x: seq<Section>, y: seq<Section>, c: Category, p: Option<Prefix>)
    ensures Select(x + y, c, p) == Select(x, c, p) + Select(y, c, p)
  {
    if x == [] {
      assert x + y == y;
    } else {
      SelectConcat(x[1..], y, c, p);
      assert (x + y)[0] == x[0] && (x + y)[1..] == x[1..] + y;
      SelectFirst(x, c, p);
      SelectFirst(x + y, c, p);
      hide Select;
      var h: seq<Section> := if Selects(x[0], c, p) then [x[0]] else [];
      JoinParts(h, Select(x[1..], c, p), Select(y, c, p));
    }
  }

  lemma JoinParts(a: seq<Section>, b: seq<Section>, c: seq<Section>)
    ensures a + (b + c) == (a + b) + c
  {
  }

  lemma SelectFirst(l: seq<Section>, c: Category, p: Option<Prefix>)
    requires l != []
    ensures Select(l, c, p) == (if Selects(l[0], c, p) then [l[0]] else []) + Select(l[1..], c, p)
  {
  }

  /** The place of section `i` in a selection. */
  function SelectPos(l: seq<Section>, c: Category, p: Option<Prefix>, i: nat): nat
    requires i <= |l|
  {
    |Select(l[..i], c, p)|
  }

  lemma SelectAt(l: seq<Section>, c: Category, p: Option<Prefix>, i: nat)
    requires i < |l| && Selects(l[i], c, p)
    ensures SelectPos(l, c, p, i) < |Select(l, c, p)| && Select(l, c, p)[SelectPos(l, c, p, i)] == l[i]
  {
    SelectConcat(l[..i], l[i..], c, p);
    assert l == l[..i] + l[i..];
    assert Select(l[i..], c, p)[0] == l[i];
  }

  lemma SelectBefore(l: seq<Section>, c: Category, p: Option<Prefix>, i: nat, j: nat)
    requires i < j < |l| && Selects(l[i], c, p)
    ensures SelectPos(l, c, p, i) < SelectPos(l, c, p, j)
  {
    SelectConcat(l[..i], l[i..j], c, p);
    assert l[..j] == l[..i] + l[i..j];
    assert l[i..j][0] == l[i];
    assert Select(l[i..j], c, p) != [];
  }

  /** The places of the prefixes in a group. */
  function GroupPos(l: seq<Section>, c: Category, i: nat): nat
    requires i < |l|
  {
    var t, r, d := |Select(l, c, Some(Text))|, |Select(l, c, Some(Rodata))|, |Select(l, c, Some(Data))|;
    SelectPos(l, c, Some(l[i].prefix), i)
    + match l[i].prefix case Text => 0 case Rodata => t case Data => t + r case Bss => t + r + d case NoPrefix => 0
  }

  lemma GroupAtPos(l: seq<Section>, c: Category, i: nat)
    requires i < |l| && l[i].category == c && l[i].prefix != NoPrefix
    ensures GroupPos(l, c, i) < |FlatGroup(l, c)| && FlatGroup(l, c)[GroupPos(l, c, i)] == l[i]
    ensures l[i].prefix != Bss ==> GroupPos(l, c, i) < |Group(l, c)| && Group(l, c)[GroupPos(l, c, i)] == l[i]
  {
    hide Select, SelectPos;
    SelectAt(l, c, Some(l[i].prefix), i);
  }

  lemma GroupPosBefore(l: seq<Section>, c: Category, i: nat, j: nat)
    requires i < |l| && j < |l| && l[i].category == c && l[i].prefix != NoPrefix && l[j].prefix != NoPrefix
    requires c in {Code16, Code32Seg, Flat32, Init32} && Follows(l, i, j)
    ensures GroupPos(l, c, i) < GroupPos(l, c, j)
  {
    hide Select, SelectPos;
    SelectAt(l, c, Some(l[i].prefix), i);
    if PrefixRank(l[i]) == PrefixRank(l[j]) { SelectBefore(l, c, Some(l[i].prefix), i, j); }
  }

  lemma GroupInOrder(sections: seq<Section>, c: Category)
    requires c in {Code16, Code32Seg, Flat32, Init32}
    ensures InOrder(sections, Group(sections, c)) && InOrder(sections, FlatGroup(sections, c))
  {
    var g, h := Group(sections, c), FlatGroup(sections, c);
    hide Group, FlatGroup, GroupPos, Follows;
    forall i, j | 0 <= i < |sections| && 0 <= j < |sections| && Follows(sections, i, j)
      ensures sections[i] in g && sections[j] in g ==> Before(g, sections[i], sections[j])
      ensures sections[i] in h && sections[j] in h ==> Before(h, sections[i], sections[j])
    {
      GroupIn(sections, c, sections[i]);
      GroupIn(sections, c, sections[j]);
      if sections[i] in h && sections[j] in h {
        GroupAtPos(sections, c, i);
        GroupAtPos(sections, c, j);
        GroupPosBefore(sections, c, i, j);
      }
    }
  }

  lemma SelectInOrder(sections: seq<Section>, c: Category)
    requires c in {Text32Fseg, Data32Fseg, Low32}
    ensures InOrder(sections, Select(sections, c, None))
  {
    var g := Select(sections, c, None);
    hide Select, SelectPos;
    forall i, j | 0 <= i < |sections| && 0 <= j < |sections| && InPair(sections, i, j, g) && Follows(sections, i, j)
      ensures Before(g, sections[i], sections[j])
    {
      SelectIn(sections, c, None, sections[i]);
      SelectIn(sections, c, None, sections[j]);
      SelectAt(sections, c, None, i);
      SelectAt(sections, c, None, j);
      SelectBefore(sections, c, None, i, j);
    }
  }

  /** A group rises from each section to the next. */
  ghost predicate Rising(l: seq<Section>)
    reads l
  {
    forall a, b :: 0 <= a < b < |l| ==> BelowOf(l[a], l[b])
  }

  predicate BelowOf(s: Section, t: Section)
    reads s, t
  {
    s.finalloc.Some? && t.finalloc.Some? && s.finalloc.value + s.size <= t.finalloc.value
  }

  predicate Moved(s: Section, p: set<Section>) {
    s in p && s.category !in {Fixed, Code16} && LaidOut(s)
  }

  /** Sections of a category rise in their order; fixed and 16-bit sections are treated apart. */
  ghost predicate Sequenced(sections: seq<Section>, p: set<Section>)
    reads p
  {
    forall i, j :: 0 <= i < |sections| && 0 <= j < |sections| && Follows(sections, i, j) ==>
      Moved(sections[i], p) && Moved(sections[j], p) ==> BelowOf(sections[i], sections[j])
  }

  /** The sections of one category in `l` rise in their order. */
  ghost predicate GroupSequenced(sections: seq<Section>, l: seq<Section>, c: Category)
    reads sections
  {
    forall i, j :: 0 <= i < |sections| && 0 <= j < |sections| && Follows(sections, i, j) ==>
      sections[i].category == c && sections[j].category == c && InPair(sections, i, j, l) ==>
        BelowOf(sections[i], sections[j])
  }

  lemma RisingGroup(sections: seq<Section>, l: seq<Section>, c: Category)
    requires Rising(l) && InOrder(sections, l)
    ensures GroupSequenced(sections, l, c)
  {
    hide Follows, BelowOf;
    forall i, j | 0 <= i < |sections| && 0 <= j < |sections| && InPair(sections, i, j, l) && Follows(sections, i, j)
      ensures BelowOf(sections[i], sections[j])
    {
      assert Before(l, sections[i], sections[j]);
      var a, b :| 0 <= a < b < |l| && l[a] == sections[i] && l[b] == sections[j];
    }
  }

  lemma SequencedMore(sections: seq<Section>, p: set<Section>, l: seq<Section>, c: Category)
    requires Sequenced(sections, p) && GroupSequenced(sections, l, c) && (forall s :: s in l ==> s.category == c)
    requires forall s :: s in p ==> s.category != c
    ensures Sequenced(sections, p + Elements(l))
  {
    hide LaidOut, BelowOf;
  }

  // ----- what has been laid out

  /** Every section of `p` has a place at or above `lo`, and no two overlap. */
  ghost predicate Laid(p: set<Section>, lo: int)
    reads p
  {
    AllApart(p) && forall s :: s in p ==> s.finalloc.Some? && lo <= s.finalloc.value
  }

  ghost predicate Between(l: seq<Section>, lo: int, hi: int)
    reads l
  {
    forall s :: s in l ==> s.finalloc.Some? && lo <= s.finalloc.value && s.finalloc.value + s.size <= hi
  }

  /** Segment locations are `base` below the flat ones. */
  ghost predicate InSegment(l: seq<Section>, base: int)
    reads l
  {
    forall s :: s in l ==> s.finalloc.Some? && s.finalsegloc == Some(s.finalloc.value - base)
  }

  ghost function Elements(l: seq<Section>): set<Section> {
    set s | s in l
  }

  lemma JoinLaid(p: set<Section>, l: seq<Section>, lo: int, hi: int)
    requires Laid(p, hi) && Between(l, lo, hi) && AllApart(Elements(l)) && lo <= hi
    ensures Laid(p + Elements(l), lo)
  {
  }

  ghost predicate AllShaped(l: seq<Section>) {
    forall s :: s in l ==> PowerOfTwo(s.align)
  }

  lemma GroupPlaced(l: seq<Section>, start: int, endaddr: int, least: nat, segoffset: int)
    requires Distinct(l) && AllShaped(l) && Shaped(Shapes(l)) && PowerOfTwo(least)
    requires start == Start(Shapes(l), endaddr, least) && Fits(Shapes(l), endaddr, least)
    requires GroupAt(l, start, segoffset)
    ensures start <= endaddr && Between(l, start, endaddr) && AllApart(Elements(l))
  {
    hide PowerOfTwo, Start, Space, Offset;
    var g := Shapes(l);
    forall s | s in l ensures s.finalloc.Some? && start <= s.finalloc.value && s.finalloc.value + s.size <= endaddr {
      var k :| 0 <= k < |l| && l[k] == s;
      SpaceBound(g, k);
    }
    forall s, t | s in Elements(l) && t in Elements(l) && s != t ensures Apart(s, t) {
      var j :| 0 <= j < |l| && l[j] == s;
      var k :| 0 <= k < |l| && l[k] == t;
      if j < k { SectionsOrdered(g, j, k); } else { SectionsOrdered(g, k, j); }
    }
  }

  /** Ending in place is also needed: the last section ends where the group does. */
  lemma GroupExact(l: seq<Section>, start: int, endaddr: int, least: nat, segoffset: int)
    requires l != [] && Distinct(l) && AllShaped(l) && Shaped(Shapes(l)) && PowerOfTwo(least)
    requires start == Start(Shapes(l), endaddr, least) && GroupAt(l, start, segoffset)
    ensures Between(l, start, endaddr) <==> Fits(Shapes(l), endaddr, least)
  {
    hide PowerOfTwo, Start, Space, Offset, Distinct, AllShaped, Shaped, Shapes;
    assert l[|l| - 1] in l;
    NextSection(Shapes(l), |l| - 1);
    if Fits(Shapes(l), endaddr, least) {
      GroupPlaced(l, start, endaddr, least, segoffset);
    }
  }

  lemma SpaceBound(g: seq<Shape>, k: nat)
    requires Shaped(g) && k < |g|
    ensures Offset(g, k) + g[k].size <= Space(g, |g|)
  {
    hide PowerOfTwo, Shaped, Space, Offset;
    NextSection(g, k);
    if k + 1 < |g| {
      NextSection(g, |g| - 1);
      SectionsOrdered(g, k, |g| - 1);
    }
  }

  /** A group that starts above zero fits. */
  lemma StartFits(g: seq<Shape>, endaddr: int, least: nat)
    requires Shaped(g) && PowerOfTwo(least) && Start(g, endaddr, least) > 0
    ensures Fits(g, endaddr, least) && endaddr > 0
  {
    EndsBelow(g, endaddr, least);
    var m := MinAlign(g, |g|, least);
    TruncBelow(endaddr - Space(g, |g|), m);
  }

  /** One group below what has been laid out so far; `fit` says whether all groups so far did fit. */
  method PlaceGroup(ghost p: set<Section>, ghost fit: bool, l: seq<Section>, endaddr: int, least: nat, segoffset: int)
    returns (start: int, align: nat)
    requires Distinct(l) && AllShaped(l) && PowerOfTwo(least) && p !! Elements(l)
    requires fit ==> Laid(p, endaddr)
    modifies l
    ensures Shaped(Shapes(l)) && start == Start(Shapes(l), endaddr, least)
    ensures fit && Fits(Shapes(l), endaddr, least) ==>
              start <= endaddr && Between(l, start, endaddr) && Laid(p + Elements(l), start)
    ensures InSegment(l, segoffset) && Rising(l) && forall s :: s in l ==> AlignedAt(s)
    ensures align == MinAlign(Shapes(l), |l|, least)
  {
    ShapesShaped(l);
    hide PowerOfTwo, Laid, AllShaped, AllApart, Between, Start, Fits;
    hide Offset, MinAlign, Shapes, Shaped, Distinct, GroupAt, InSegment, AlignedAt, Rising;
    assert forall s :: s in p ==> s !in l;
    hide Elements;
    start, align := SetSectionsStart(l, endaddr, least, segoffset);
    GroupInSegment(l, start, segoffset);
    GroupAligned(l, start, endaddr, least, segoffset);
    GroupRises(l, start, segoffset);
    if fit && Fits(Shapes(l), endaddr, least) {
      GroupPlaced(l, start, endaddr, least, segoffset);
      JoinLaid(p, l, start, endaddr);
    }
  }

  /** A section has an address that is a multiple of its alignment. */
  predicate AlignedAt(s: Section)
    reads s
  {
    s.align > 0 && s.finalloc.Some? && s.finalloc.value % s.align == 0
  }

  lemma GroupAligned(l: seq<Section>, start: int, endaddr: int, least: nat, segoffset: int)
    requires Shaped(Shapes(l)) && PowerOfTwo(least) && start == Start(Shapes(l), endaddr, least)
    requires GroupAt(l, start, segoffset)
    ensures forall s :: s in l ==> AlignedAt(s)
  {
    hide Offset, Shapes, Shaped, PowerOfTwo, Start, GroupAt, AlignedAt;
    forall s | s in l ensures AlignedAt(s) {
      var k :| 0 <= k < |l| && l[k] == s;
      SectionAlignedAt(l, start, endaddr, least, segoffset, k);
    }
  }

  lemma SectionAlignedAt(l: seq<Section>, start: int, endaddr: int, least: nat, segoffset: int, k: nat)
    requires Shaped(Shapes(l)) && PowerOfTwo(least) && start == Start(Shapes(l), endaddr, least)
    requires GroupAt(l, start, segoffset) && k < |l|
    ensures AlignedAt(l[k])
  {
    hide Offset, Shapes, Shaped, PowerOfTwo, Start;
    SectionAligned(Shapes(l), endaddr, least, k);
  }

  lemma GroupRises(l: seq<Section>, start: int, segoffset: int)
    requires Shaped(Shapes(l)) && GroupAt(l, start, segoffset)
    ensures Rising(l)
  {
    hide Offset, Shapes, Shaped, PowerOfTwo;
    forall a, b | 0 <= a < b < |l| ensures BelowOf(l[a], l[b]) { SectionsOrdered(Shapes(l), a, b); }
  }

  lemma GroupInSegment(l: seq<Section>, start: int, segoffset: int)
    requires Shaped(Shapes(l)) && GroupAt(l, start, segoffset)
    ensures InSegment(l, segoffset)
  {
    hide Offset, Shapes, Shaped, PowerOfTwo, GroupAt;
    forall s | s in l ensures s.finalloc.Some? && s.finalsegloc == Some(s.finalloc.value - segoffset) {
      var k :| 0 <= k < |l| && l[k] == s;
      SectionInSegment(l, start, segoffset, k);
    }
  }

  lemma SectionInSegment(l: seq<Section>, start: int, segoffset: int, k: nat)
    requires Shaped(Shapes(l)) && GroupAt(l, start, segoffset) && k < |l|
    ensures l[k].finalloc.Some? && l[k].finalsegloc == Some(l[k].finalloc.value - segoffset)
  {
    hide Offset, Shapes, Shaped, PowerOfTwo;
  }

  lemma ShapesShaped(l: seq<Section>)
    requires AllShaped(l)
    ensures Shaped(Shapes(l))
  {
    var g := Shapes(l);
    hide PowerOfTwo, Shapes;
    forall k | 0 <= k < |g| ensures PowerOfTwo(g[k].align) {
      assert l[k] in l;
    }
  }

  // ----- the 16-bit part

  /** Each fixed section, by address, ends where the next one starts or before. */
  predicate FixedFit(f: seq<Item>) {
    forall i :: 0 <= i < |f| - 1 ==> f[i].key + f[i].section.size <= f[i + 1].key
  }

  ghost function Placed(l: seq<Section>): set<Section>
    reads l
  {
    set s | s in l && s.finalloc.Some?
  }

  lemma FixedOrder(f: seq<Item>, i: nat, j: nat)
    requires Ascending(f) && FixedFit(f) && i < j < |f|
    ensures f[i].key + f[i].section.size <= NextAddr(f, i) <= f[j].key
  {
    assert f[i].key + f[i].section.size <= f[i + 1].key;
  }

  /** A section in the gap after `i` is apart from fixed section `j`. */
  lemma GapApart(f: seq<Item>, i: nat, j: nat, s: Section)
    requires Ascending(f) && FixedFit(f) && FixedAt(f) && i < |f| && j < |f|
    requires Within(s, f[i].key + f[i].section.size, NextAddr(f, i))
    ensures Apart(s, f[j].section)
  {
    if i < j { FixedOrder(f, i, j); }
    if j < i { FixedOrder(f, j, i); }
  }

  /** The fixed sections and the fillers together. */
  lemma FittedLaid(f: seq<Item>, fixed: seq<Section>, fill: seq<Section>)
    requires f != [] && Ascending(f) && DistinctItems(f) && FixedFit(f) && Fitted(f, fill)
    requires forall s :: s in fixed && s.finalloc.Some? ==> exists i :: 0 <= i < |f| && f[i].section == s
    ensures Laid(Placed(fixed) + Placed(fill), f[0].key + BIOS_ADDR)
  {
    hide FixedFit, DistinctItems, AllApart;
    var p, q := Placed(fixed), Placed(fill);
    forall s: Section | s in p + q
      ensures f[0].key + BIOS_ADDR <= s.finalloc.value
    {
      if s in q {
        var i :| 0 <= i < |f| && Within(s, f[i].key + f[i].section.size, NextAddr(f, i));
        assert f[0].key <= f[i].key;
      } else {
        var i :| 0 <= i < |f| && f[i].section == s;
        assert f[0].key <= f[i].key;
      }
    }
    forall s: Section, t: Section | s in p + q && t in p + q && s != t ensures Apart(s, t) {
      FittedPair(f, fixed, fill, s, t);
    }
    assert AllApart(p + q) by { PairsApart(p + q); }
  }

  lemma FittedSegmented(f: seq<Item>, fixed: seq<Section>, fill: seq<Section>)
    requires Fitted(f, fill) && (forall s :: s in fixed ==> s.category == Fixed)
    requires forall s :: s in fill ==> s.category == Code16
    requires forall s :: s in fixed && s.finalloc.Some? ==> exists i :: 0 <= i < |f| && f[i].section == s
    ensures Segmented(Placed(fixed) + Placed(fill), 0)
  {
    hide AllApart;
    forall s: Section | s in Placed(fixed) + Placed(fill)
      ensures s.finalsegloc == Some(s.finalloc.value - BIOS_ADDR) && SegmentBase(s.category, 0) == BIOS_ADDR
    {
      if s in Placed(fill) {
        var i :| 0 <= i < |f| && Within(s, f[i].key + f[i].section.size, NextAddr(f, i));
      } else {
        var i :| 0 <= i < |f| && f[i].section == s;
      }
    }
  }

  lemma PairsApart(p: set<Section>)
    requires forall s, t :: s in p && t in p && s != t ==> Apart(s, t)
    ensures AllApart(p)
  {
  }

  lemma FittedPair(f: seq<Item>, fixed: seq<Section>, fill: seq<Section>, s: Section, t: Section)
    requires Ascending(f) && FixedFit(f) && Fitted(f, fill) && s != t
    requires forall s :: s in fixed && s.finalloc.Some? ==> exists i :: 0 <= i < |f| && f[i].section == s
    requires s in Placed(fixed) + Placed(fill) && t in Placed(fixed) + Placed(fill)
    ensures Apart(s, t)
  {
    hide FixedFit, Ascending, FixedAt, InSomeGap, Apart;
    if s in Placed(fill) && t in Placed(fill) {
    } else if s in Placed(fill) {
      FillerFixed(f, fixed, s, t);
    } else if t in Placed(fill) {
      FillerFixed(f, fixed, t, s);
      ApartSymmetric(t, s);
    } else {
      FixedPair(f, fixed, s, t);
    }
  }

  lemma ApartSymmetric(s: Section, t: Section)
    requires Apart(s, t)
    ensures Apart(t, s)
  {
  }

  lemma FillerFixed(f: seq<Item>, fixed: seq<Section>, s: Section, t: Section)
    requires Ascending(f) && FixedFit(f) && FixedAt(f) && InSomeGap(f, s)
    requires exists i :: 0 <= i < |f| && f[i].section == t
    ensures Apart(s, t)
  {
    hide FixedFit, Ascending;
    var i :| 0 <= i < |f| && Within(s, f[i].key + f[i].section.size, NextAddr(f, i));
    var j :| 0 <= j < |f| && f[j].section == t;
    GapApart(f, i, j, s);
  }

  lemma FixedPair(f: seq<Item>, fixed: seq<Section>, s: Section, t: Section)
    requires Ascending(f) && FixedFit(f) && FixedAt(f) && s != t
    requires (exists i :: 0 <= i < |f| && f[i].section == s) && (exists i :: 0 <= i < |f| && f[i].section == t)
    ensures Apart(s, t)
  {
    hide FixedFit, Ascending;
    var i :| 0 <= i < |f| && f[i].section == s;
    var j :| 0 <= j < |f| && f[j].section == t;
    if i < j { FixedOrder(f, i, j); } else { FixedOrder(f, j, i); }
  }

  // ----- doLayout

  function Unplaced(l: seq<Section>): seq<Section>
    reads l
  {
    if l == [] then [] else (if l[0].finalloc.None? then [l[0]] else []) + Unplaced(l[1..])
  }

  lemma {:induction false} UnplacedIn(l: seq<Section>, s: Section)
    ensures s in Unplaced(l) <==> s in l && s.finalloc.None?
  {
    if l == [] {
    } else {
      UnplacedIn(l[1..], s);
    }
  }

  lemma {:induction false} UnplacedDistinct(l: seq<Section>)
    requires Distinct(l)
    ensures Distinct(Unplaced(l))
  {
    if l == [] {
    } else {
      UnplacedDistinct(l[1..]);
      UnplacedIn(l[1..], l[0]);
    }
  }

  /** Fixed sections of the input, by address. */
  function FixedOfRom(sections: seq<Section>): seq<Item> {
    ByAddress(Select(sections, Fixed, None))
  }

  /** What `doLayout` needs of its input: sections once each, aligned to powers of two, not yet placed. */
  ghost predicate Input(sections: seq<Section>)
    reads sections
  {
    && Distinct(sections) && AllShaped(sections) && (forall s :: s in sections ==> s.finalloc.None?)
    && FixedOfRom(sections) != []
  }

  /** The placed sections among those of two categories. */
  ghost predicate PlacedOnly(sections: seq<Section>, p: set<Section>)
    reads sections
  {
    forall s :: s in sections && s.finalloc.Some? ==> s in p
  }

  lemma FitInputs(sections: seq<Section>, fixed: seq<Section>, fill: seq<Section>)
    requires Distinct(sections) && AllShaped(sections)
    requires fixed == Select(sections, Fixed, None) && fill == Select(sections, Code16, Some(Text))
    ensures Distinct(fixed) && Distinct(fill) && Aligned(fill)
    ensures forall s :: s in fixed ==> s in sections && s.category == Fixed
    ensures forall s :: s in fill ==> s in sections && s.category == Code16
    ensures forall s :: s in sections && s.category == Fixed ==> s in fixed
  {
    SelectDistinct(sections, Fixed, None);
    SelectDistinct(sections, Code16, Some(Text));
    hide Select, Distinct;
    forall s | s in fixed ensures s in sections && s.category == Fixed { SelectIn(sections, Fixed, None, s); }
    forall s | s in sections && s.category == Fixed ensures s in fixed { SelectIn(sections, Fixed, None, s); }
    forall s | s in fill ensures s in sections && s.category == Code16 { SelectIn(sections, Code16, Some(Text), s); }
    forall k | 0 <= k < |fill| ensures fill[k].align > 0 {
      assert fill[k] in fill;
      AlignPositive(fill[k].align);
    }
  }

  lemma ByAddressHas(l: seq<Section>, s: Section)
    requires Distinct(l) && s in l && s.fixedaddr.Some?
    ensures exists i :: 0 <= i < |ByAddress(l)| && ByAddress(l)[i].section == s
  {
    assert l[..|l|] == l;
    FixedItemsHas(l, |l|, s);
    var x := Item(s.fixedaddr.value, 0, 0, s);
    var items, f := FixedItems(l, |l|), ByAddress(l);
    hide Sort, FixedItems;
    assert x in multiset(items);
    var i :| 0 <= i < |f| && f[i] == x;
  }

  /** Every fixed section is at the address in its name. */
  ghost predicate FixedInPlace(sections: seq<Section>)
    reads sections
  {
    forall s :: s in sections && s.category == Fixed && s.fixedaddr.Some? ==> AtName(s)
  }

  lemma FittedInPlace(sections: seq<Section>, fixed: seq<Section>, fill: seq<Section>)
    requires Distinct(fixed) && Fitted(ByAddress(fixed), fill)
    requires forall s :: s in sections && s.category == Fixed ==> s in fixed
    ensures FixedInPlace(sections)
  {
    hide ByAddress, Fitted, Distinct, AtName;
    forall s | s in sections && s.category == Fixed && s.fixedaddr.Some? ensures AtName(s) {
      FixedInPlaceAt(fixed, fill, s);
    }
  }

  lemma FixedInPlaceAt(fixed: seq<Section>, fill: seq<Section>, s: Section)
    requires Distinct(fixed) && Fitted(ByAddress(fixed), fill) && s in fixed && s.fixedaddr.Some?
    ensures AtName(s)
  {
    hide ByAddress, AllApart, InSomeGap, Distinct, DistinctItems, Ascending, FixedOf;
    ByAddressOf(fixed);
    ByAddressHas(fixed, s);
    var f := ByAddress(fixed);
    var i :| 0 <= i < |f| && f[i].section == s;
    assert AtKey(f[i]);
  }

  ghost predicate FixedSolid(sections: seq<Section>) {
    forall s :: s in sections && s.category == Fixed ==> s.size > 0
  }

  /** Fixed sections that are not empty are apart from each other only if they fit. */
  lemma FixedFitNeeded(sections: seq<Section>)
    requires Distinct(sections) && FixedInPlace(sections) && AllApart(Elements(sections))
    requires FixedSolid(sections)
    ensures FixedFit(FixedOfRom(sections))
  {
    var fixed := Select(sections, Fixed, None);
    SelectDistinct(sections, Fixed, None);
    forall s | s in fixed ensures s in sections && s.category == Fixed { SelectIn(sections, Fixed, None, s); }
    hide Select, Distinct;
    ByAddressOf(fixed);
    var f := FixedOfRom(sections);
    hide ByAddress, AllApart, FixedInPlace;
    forall i | 0 <= i < |f| - 1 ensures f[i].key + f[i].section.size <= f[i + 1].key {
      var s, t := f[i].section, f[i + 1].section;
      assert f[i] in f && f[i + 1] in f;
      TwoApart(sections, s, t);
    }
  }

  lemma TwoApart(sections: seq<Section>, s: Section, t: Section)
    requires FixedInPlace(sections) && AllApart(Elements(sections)) && s in sections && t in sections && s != t
    requires s.category == Fixed && t.category == Fixed && s.fixedaddr.Some? && t.fixedaddr.Some?
    ensures s.fixedaddr.value + s.size <= t.fixedaddr.value || t.fixedaddr.value + t.size <= s.fixedaddr.value
  {
    assert s in Elements(sections) && t in Elements(sections) && Apart(s, t);
    assert AtName(s) && AtName(t);
  }

  /** The sections that get an address. */
  predicate LaidOut(s: Section) {
    match s.category
    case Fixed => s.fixedaddr.Some?
    case Code16 => s.prefix in {Text, Rodata, Data}
    case Code32Seg => s.prefix in {Text, Rodata, Data}
    case Text32Fseg => true
    case Data32Fseg => true
    case Flat32 => s.prefix in {Text, Rodata, Data, Bss}
    case Init32 => s.prefix in {Text, Rodata, Data, Bss}
    case Low32 => true
    case Dropped => false
  }

  /** What has been placed is fixed sections, and 16-bit code in gaps between them. */
  ghost predicate FillersInGaps(sections: seq<Section>, p: set<Section>)
    reads p
  {
    forall s :: s in p ==>
      LaidOut(s) && (s.category == Code16 ==> s.prefix == Text && InSomeGap(FixedOfRom(sections), s))
  }

  lemma FittedInGaps(sections: seq<Section>, fixed: seq<Section>, fill: seq<Section>, p: set<Section>)
    requires Distinct(fixed) && fixed == Select(sections, Fixed, None) && fill == Select(sections, Code16, Some(Text))
    requires Fitted(ByAddress(fixed), fill) && p == Placed(fixed) + Placed(fill)
    requires forall s :: s in fixed && s.finalloc.Some? ==>
               exists i :: 0 <= i < |ByAddress(fixed)| && ByAddress(fixed)[i].section == s
    ensures FillersInGaps(sections, p)
  {
    hide Select, ByAddress, AllApart, InSomeGap, FixedAt;
    ByAddressOf(fixed);
    forall s: Section | s in p
      ensures LaidOut(s) && (s.category == Code16 ==> s.prefix == Text && InSomeGap(ByAddress(fixed), s))
    {
      if s in Placed(fill) {
        SelectIn(sections, Code16, Some(Text), s);
      } else {
        SelectIn(sections, Fixed, None, s);
        var f := ByAddress(fixed);
        var i :| 0 <= i < |f| && f[i].section == s;
        assert f[i] in f;
      }
    }
  }

  /** Fixed sections, and the gaps between them filled with 16-bit code. */
  method LayoutFixed(sections: seq<Section>) returns (ok: bool, first: int, ghost p: set<Section>)
    requires Input(sections)
    modifies sections
    ensures ok <==> forall s :: s in sections && s.category == Fixed && s.fixedaddr.Some? ==> s.align == 1
    ensures ok ==> first == FixedOfRom(sections)[0].key + BIOS_ADDR && PlacedOnly(sections, p)
    ensures ok && FixedFit(FixedOfRom(sections)) ==> Laid(p, first)
    ensures ok ==> Segmented(p, 0) && FixedInPlace(sections) && FillersInGaps(sections, p)
    ensures ok ==> forall s :: s in p ==> s in sections && (s.category == Fixed || s.category == Code16) && s.finalloc.Some?
  {
    hide Select, Distinct, AllShaped, Laid, Fitted, FixedFit, ByAddress, FixedItems, Segmented, FixedInPlace, AtName;
    hide FillersInGaps, GapsFull;
    var fixed, fill := Select(sections, Fixed, None), Select(sections, Code16, Some(Text));
    FitInputs(sections, fixed, fill);
    ByAddressOf(fixed);
    assert forall k :: 0 <= k < |fixed| ==> fixed[k] in fixed && fixed[k] in sections;
    assert forall k :: 0 <= k < |fill| ==> fill[k] in fill && fill[k] in sections;
    ghost var home;
    ok, first, home := FitSections(fixed, fill);
    p := Placed(fixed) + Placed(fill);
    if ok {
      forall s | s in fixed && s.finalloc.Some?
        ensures exists i :: 0 <= i < |ByAddress(fixed)| && ByAddress(fixed)[i].section == s
      {
        ByAddressHas(fixed, s);
      }
      FittedSegmented(ByAddress(fixed), fixed, fill);
      FittedInPlace(sections, fixed, fill);
      FittedInGaps(sections, fixed, fill, p);
      if FixedFit(FixedOfRom(sections)) { FittedLaid(ByAddress(fixed), fixed, fill); }
    }
  }

  /** A group is part of the input, of one category, and has no section twice. */
  ghost predicate IsGroup(sections: seq<Section>, l: seq<Section>, c: Category) {
    && Distinct(l) && AllShaped(l)
    && (forall s :: s in l ==> s in sections && s.category == c)
    && (forall k :: 0 <= k < |l| ==> l[k] in sections)
  }

  lemma GroupIs(sections: seq<Section>, c: Category)
    requires Distinct(sections) && AllShaped(sections)
    ensures IsGroup(sections, Group(sections, c), c) && IsGroup(sections, FlatGroup(sections, c), c)
    ensures IsGroup(sections, Select(sections, c, None), c)
  {
    GroupDistinct(sections, c);
    SelectDistinct(sections, c, None);
    hide Distinct, AllShaped, Select, Group, FlatGroup, IsGroup;
    forall s | s in Group(sections, c) ensures s in sections && s.category == c { GroupIn(sections, c, s); }
    MakeGroup(sections, Group(sections, c), c);
    forall s | s in FlatGroup(sections, c) ensures s in sections && s.category == c { GroupIn(sections, c, s); }
    MakeGroup(sections, FlatGroup(sections, c), c);
    forall s | s in Select(sections, c, None) ensures s in sections && s.category == c {
      SelectIn(sections, c, None, s);
    }
    MakeGroup(sections, Select(sections, c, None), c);
  }

  /** The group holds exactly the sections of its category that get an address. */
  ghost predicate Whole(sections: seq<Section>, l: seq<Section>, c: Category) {
    && (forall s :: s in l ==> s in sections && s.category == c && LaidOut(s))
    && (forall s :: s in sections && s.category == c && LaidOut(s) ==> s in l)
  }

  lemma GroupWhole(sections: seq<Section>, c: Category)
    ensures c == Code16 || c == Code32Seg ==> Whole(sections, Group(sections, c), c)
    ensures c == Flat32 || c == Init32 ==> Whole(sections, FlatGroup(sections, c), c)
    ensures c == Text32Fseg || c == Data32Fseg || c == Low32 ==> Whole(sections, Select(sections, c, None), c)
  {
    hide Group, FlatGroup, Select;
    forall s | s in Group(sections, c) ensures s in sections && s.category == c && s.prefix in {Text, Rodata, Data} {
      GroupIn(sections, c, s);
    }
    forall s | s in FlatGroup(sections, c)
      ensures s in sections && s.category == c && s.prefix in {Text, Rodata, Data, Bss}
    {
      GroupIn(sections, c, s);
    }
    forall s | s in Select(sections, c, None) ensures s in sections && s.category == c {
      SelectIn(sections, c, None, s);
    }
    forall s | s in sections && s.category == c
      ensures s.prefix in {Text, Rodata, Data} ==> s in Group(sections, c)
      ensures s.prefix in {Text, Rodata, Data, Bss} ==> s in FlatGroup(sections, c)
      ensures s in Select(sections, c, None)
    {
      GroupIn(sections, c, s);
      SelectIn(sections, c, None, s);
    }
  }

  lemma MakeGroup(sections: seq<Section>, l: seq<Section>, c: Category)
    requires AllShaped(sections) && Distinct(l) && forall s :: s in l ==> s in sections && s.category == c
    ensures IsGroup(sections, l, c)
  {
    hide Distinct, PowerOfTwo;
  }

  /** The order in which categories are laid out. */
  function Turn(c: Category): nat {
    match c
    case Fixed => 0
    case Code16 => 1
    case Code32Seg => 2
    case Text32Fseg => 3
    case Data32Fseg => 4
    case Flat32 => 5
    case Init32 => 6
    case Low32 => 7
    case Dropped => 8
  }

  /** What the segment locations of a category are relative to; `low` is for low memory. */
  function SegmentBase(c: Category, low: int): int {
    match c
    case Fixed => BIOS_ADDR
    case Code16 => BIOS_ADDR
    case Code32Seg => BIOS_ADDR
    case Data32Fseg => BIOS_ADDR
    case Low32 => low
    case _ => 0
  }

  ghost predicate Segmented(p: set<Section>, low: int)
    reads p
  {
    forall s :: s in p && s.finalloc.Some? ==>
      s.finalsegloc == Some(s.finalloc.value - if s.category in {Fixed, Code16, Code32Seg, Data32Fseg} then 0xf0000
                                               else if s.category == Low32 then low else 0)
  }

  lemma SegmentedMore(p: set<Section>, l: seq<Section>, c: Category, low: int)
    requires Segmented(p, low) && InSegment(l, SegmentBase(c, low)) && forall s :: s in l ==> s.category == c
    ensures Segmented(p + Elements(l), low)
  {
  }

  /** Which categories lie above which. */
  predicate Above(c: Category, d: Category) {
    match d
    case Code32Seg => c in {Fixed, Code16}
    case Text32Fseg => c in {Fixed, Code16, Code32Seg}
    case Data32Fseg => c in {Fixed, Code16, Code32Seg, Text32Fseg}
    case Flat32 => c in {Fixed, Code16, Code32Seg, Text32Fseg, Data32Fseg}
    case Init32 => c in {Fixed, Code16, Code32Seg, Text32Fseg, Data32Fseg, Flat32}
    case Low32 => c in {Fixed, Code16, Code32Seg, Text32Fseg, Data32Fseg, Flat32, Init32}
    case _ => false
  }

  ghost predicate Stacked(p: set<Section>)
    reads p
  {
    forall s, t :: s in p && t in p && Above(s.category, t.category) && s.finalloc.Some? && t.finalloc.Some? ==>
      t.finalloc.value + t.size <= s.finalloc.value
  }

  lemma StackedMore(p: set<Section>, l: seq<Section>, c: Category, lo: int, hi: int)
    requires Stacked(p) && Laid(p, hi) && Between(l, lo, hi) && (forall s :: s in l ==> s.category == c)
    requires forall s :: s in p ==> Turn(s.category) < Turn(c)
    ensures Stacked(p + Elements(l))
  {
    hide AllApart;
  }

  ghost predicate AfterTurn(sections: seq<Section>, p: set<Section>, n: nat) {
    && (forall s :: s in p ==> s in sections && Turn(s.category) <= n && LaidOut(s))
    && (forall s :: s in sections && Turn(s.category) <= n && LaidOut(s) ==> s in p)
  }

  /**
   Everything placed so far is what the first `n` turns have to place, aligned and, if it did fit, laid out from
   `lo` up in the order of the turns.
   */
  ghost predicate Done(sections: seq<Section>, p: set<Section>, n: nat, lo: int, fit: bool)
    reads p
  {
    && (fit ==> Laid(p, lo) && Stacked(p)) && Segmented(p, 0)
    && AfterTurn(sections, p, n)
    && (forall s :: s in p ==> s.finalloc.Some? && (Turn(s.category) >= 2 ==> AlignedAt(s)))
    && Sequenced(sections, p)
  }

  /** One turn. */
  method Next(ghost sections: seq<Section>, ghost rest: seq<Section>, ghost p: set<Section>, ghost fit: bool,
              ghost c: Category, l: seq<Section>, lo: int, least: nat, segoffset: int)
    returns (start: int, align: nat, ghost q: set<Section>)
    requires IsGroup(sections, l, c) && Whole(sections, l, c) && InOrder(sections, l) && PowerOfTwo(least)
    requires 1 < Turn(c) < 7 && Done(sections, p, Turn(c) - 1, lo, fit) && segoffset == SegmentBase(c, 0)
    modifies l
    ensures Shaped(Shapes(l)) && start == Start(Shapes(l), lo, least)
    ensures q == p + Elements(l) && Done(sections, q, Turn(c), start, fit && Fits(Shapes(l), lo, least))
    ensures fit && Fits(Shapes(l), lo, least) ==> start <= lo && Between(l, start, lo)
    ensures old(PlacedOnly(sections, p + Elements(l))) ==> PlacedOnly(sections, q)
    ensures old(PlacedOnly(sections, p)) ==> PlacedOnly(sections, q)
    ensures old(TopInPlace(sections, rest)) ==> TopInPlace(sections, rest)
    ensures align == MinAlign(Shapes(l), |l|, least)
  {
    hide PowerOfTwo, Laid, AllShaped, Distinct, Between, Segmented, Start, Fits, MinAlign, Shaped;
    hide Stacked, AlignedAt, LaidOut;
    hide AtName, InSomeGap, FixedOfRom, InOrder, Rising, BelowOf, Follows;
    q := p + Elements(l);
    start, align := PlaceGroup(p, fit, l, lo, least, segoffset);
    RisingGroup(sections, l, c);
    assert Sequenced(sections, p);
    SequencedMore(sections, p, l, c);
    SegmentedMore(p, l, c, 0);
    if fit && Fits(Shapes(l), lo, least) { StackedMore(p, l, c, start, lo); }
    WholeTurn(sections, p, l, c);
  }

  lemma LaterTurn(sections: seq<Section>, p: set<Section>, n: nat, l: seq<Section>, c: Category)
    requires AfterTurn(sections, p, n) && Whole(sections, l, c) && n < Turn(c)
    ensures p !! Elements(l)
  {
    hide LaidOut;
  }

  lemma WholeTurn(sections: seq<Section>, p: set<Section>, l: seq<Section>, c: Category)
    requires Whole(sections, l, c) && Turn(c) > 0 && AfterTurn(sections, p, Turn(c) - 1)
    ensures AfterTurn(sections, p + Elements(l), Turn(c))
  {
    hide LaidOut;
    assert forall d :: Turn(d) == Turn(c) ==> d == c;
  }

  lemma SmallPowers()
    ensures PowerOfTwo(1) && PowerOfTwo(16)
  {
    assert Pow2(0) == 1 && Pow2(4) == 16;
  }

  // ----- where the groups go

  /** The shapes of the groups, in the order in which they are laid out. */
  datatype Plan = Plan(
    code16: seq<Shape>, seg: seq<Shape>, textFseg: seq<Shape>, dataFseg: seq<Shape>,
    flat: seq<Shape>, init: seq<Shape>, low: seq<Shape>)

  ghost predicate ValidPlan(p: Plan) {
    && Shaped(p.code16) && Shaped(p.seg) && Shaped(p.textFseg) && Shaped(p.dataFseg)
    && Shaped(p.flat) && Shaped(p.init) && Shaped(p.low)
  }

  /** The groups of the input, where `rest` is what is left of the 16-bit sections. */
  ghost function PlanOf(sections: seq<Section>, rest: seq<Section>): Plan {
    Plan(Shapes(rest), Shapes(Group(sections, Code32Seg)),
         Shapes(Select(sections, Text32Fseg, None)), Shapes(Select(sections, Data32Fseg, None)),
         Shapes(FlatGroup(sections, Flat32)), Shapes(FlatGroup(sections, Init32)), Shapes(Select(sections, Low32, None)))
  }

  /** Where the f-segment variables, the last group of the upper part, start. */
  ghost function UpperStart(p: Plan, first: int): int
    requires ValidPlan(p)
  {
    SmallPowers();
    Start(p.dataFseg, Start(p.textFseg, Start(p.seg, Start(p.code16, first, 1), 1), 16), 16)
  }

  ghost predicate UpperFits(p: Plan, first: int)
    requires ValidPlan(p)
  {
    SmallPowers();
    var sec16 := Start(p.code16, first, 1);
    var seg := Start(p.seg, sec16, 1);
    && Fits(p.code16, first, 1) && Fits(p.seg, sec16, 1)
    && Fits(p.textFseg, seg, 16) && Fits(p.dataFseg, Start(p.textFseg, seg, 16), 16)
  }

  /** Where the zone that starts with the f-segment would end. */
  ghost function PlainZoneEnd(p: Plan, fseg: int, genreloc: bool): int
    requires ValidPlan(p)
  {
    SmallPowers();
    var flat := Start(p.flat, fseg, 16);
    if genreloc then flat else Start(p.init, flat, 16)
  }

  /** Where the flat code has to end: below the f-segment variables, or below a zone forced there. */
  ghost function FlatEnd(p: Plan, fseg: int, genreloc: bool): int
    requires ValidPlan(p)
  {
    if BIOS_ADDR + MIN_BIOSTABLE > PlainZoneEnd(p, fseg, genreloc) then fseg - MIN_BIOSTABLE else fseg
  }

  ghost function FlatStart(p: Plan, fseg: int, genreloc: bool): int
    requires ValidPlan(p)
  {
    SmallPowers();
    Start(p.flat, FlatEnd(p, fseg, genreloc), 16)
  }

  ghost function InitStart(p: Plan, fseg: int, genreloc: bool): int
    requires ValidPlan(p)
  {
    SmallPowers();
    Start(p.init, FlatStart(p, fseg, genreloc), 16)
  }

  ghost predicate FlatFits(p: Plan, fseg: int, genreloc: bool)
    requires ValidPlan(p)
  {
    SmallPowers();
    Fits(p.flat, FlatEnd(p, fseg, genreloc), 16) && Fits(p.init, FlatStart(p, fseg, genreloc), 16)
  }

  ghost function LowStart(p: Plan, first: int, genreloc: bool): int
    requires ValidPlan(p)
  {
    SmallPowers();
    Start(p.low, InitStart(p, UpperStart(p, first), genreloc), 16)
  }

  /** Every group ends at or below the address where it has to end. */
  ghost predicate GroupsFit(p: Plan, first: int, genreloc: bool)
    requires ValidPlan(p)
  {
    SmallPowers();
    && UpperFits(p, first) && FlatFits(p, UpperStart(p, first), genreloc)
    && Fits(p.low, InitStart(p, UpperStart(p, first), genreloc), 16)
  }

  /** Sizes and alignments leave room for all groups and the zone below the first fixed section. */
  ghost predicate Room(p: Plan, first: int)
    requires ValidPlan(p)
  {
    SmallPowers();
    Need(p.code16, 1) + Need(p.seg, 1) + Need(p.textFseg, 16) + Need(p.dataFseg, 16) + MIN_BIOSTABLE
    + Need(p.flat, 16) + Need(p.init, 16) + Space(p.low, |p.low|) <= first
  }

  lemma NeedPositive(g: seq<Shape>, least: nat)
    requires Shaped(g) && PowerOfTwo(least)
    ensures Need(g, least) >= Space(g, |g|)
  {
    hide Space, MinAlign, PowerOfTwo;
    MinAlignPower(g, |g|, least);
    AlignPositive(MinAlign(g, |g|, least));
  }

  /** With room every group fits; it does not matter which 16-bit sections went into the gaps. */
  lemma RoomFits(all: Plan, p: Plan, first: int, genreloc: bool)
    requires ValidPlan(all) && ValidPlan(p) && p == all.(code16 := p.code16) && Room(all, first)
    requires PowerOfTwo(1) && Need(p.code16, 1) <= Need(all.code16, 1)
    ensures GroupsFit(p, first, genreloc)
  {
    SmallPowers();
    hide PowerOfTwo, Shaped, Space, Start, Need, Fits;
    NeedPositive(p.code16, 1);
    NeedPositive(p.seg, 1);
    NeedPositive(p.textFseg, 16);
    NeedPositive(p.dataFseg, 16);
    NeedPositive(p.flat, 16);
    NeedPositive(p.init, 16);
    StartAbove(p.code16, first, 1);
    var sec16 := Start(p.code16, first, 1);
    StartAbove(p.seg, sec16, 1);
    var seg := Start(p.seg, sec16, 1);
    StartAbove(p.textFseg, seg, 16);
    StartAbove(p.dataFseg, Start(p.textFseg, seg, 16), 16);
    var fseg := UpperStart(p, first);
    StartAbove(p.flat, FlatEnd(p, fseg, genreloc), 16);
    StartAbove(p.init, FlatStart(p, fseg, genreloc), 16);
    StartAbove(p.low, InitStart(p, fseg, genreloc), 16);
  }

  /** A lowest group above zero is enough as well. */
  lemma PositiveFits(p: Plan, first: int, genreloc: bool)
    requires ValidPlan(p) && LowStart(p, first, genreloc) > 0
    ensures GroupsFit(p, first, genreloc)
  {
    SmallPowers();
    hide PowerOfTwo, Shaped, Space, Start, Fits;
    var sec16 := Start(p.code16, first, 1);
    var seg := Start(p.seg, sec16, 1);
    var fseg := UpperStart(p, first);
    StartFits(p.low, InitStart(p, fseg, genreloc), 16);
    StartFits(p.init, FlatStart(p, fseg, genreloc), 16);
    StartFits(p.flat, FlatEnd(p, fseg, genreloc), 16);
    StartFits(p.dataFseg, Start(p.textFseg, seg, 16), 16);
    StartFits(p.textFseg, seg, 16);
    StartFits(p.seg, sec16, 1);
    StartFits(p.code16, first, 1);
  }

  lemma {:induction false} UnplacedSmaller(l: seq<Section>, pos: nat, least: nat)
    requires Shaped(Shapes(l)) && Shaped(Shapes(Unplaced(l)))
    ensures SpaceFrom(pos, Shapes(Unplaced(l))) <= SpaceFrom(pos, Shapes(l))
    ensures AlignFromLeast(least, Shapes(Unplaced(l))) <= AlignFromLeast(least, Shapes(l))
    decreases |l|
  {
    hide PowerOfTwo, AlignUp;
    if l == [] {
    } else {
      var g, u := Shapes(l), Shapes(Unplaced(l));
      UnplacedFirst(l);
      hide Shapes, Unplaced, Max;
      AlignPositive(g[0].align);
      var next, more := AlignUp(pos, g[0].align) + g[0].size, Max(least, g[0].align);
      if l[0].finalloc.None? {
        UnplacedSmaller(l[1..], next, more);
      } else {
        UnplacedSmaller(l[1..], pos, least);
        SpaceMono(pos, next, g[1..]);
        MaxAbove(least, g[0].align);
        AlignMono(least, more, g[1..]);
      }
    }
  }

  lemma UnplacedFirst(l: seq<Section>)
    requires l != []
    ensures var g, u, rest := Shapes(l), Shapes(Unplaced(l)), Shapes(Unplaced(l[1..]));
            && g[1..] == Shapes(l[1..])
            && if l[0].finalloc.None? then u != [] && u[0] == g[0] && u[1..] == rest else u == rest
  {
  }

  lemma MaxAbove(a: nat, b: nat)
    ensures Max(a, b) >= a
  {
  }

  lemma UnplacedNeed(l: seq<Section>)
    requires Shaped(Shapes(l)) && Shaped(Shapes(Unplaced(l))) && PowerOfTwo(1)
    ensures Need(Shapes(Unplaced(l)), 1) <= Need(Shapes(l), 1)
  {
    hide PowerOfTwo, Unplaced, Shapes, Shaped;
    var g, u := Shapes(l), Shapes(Unplaced(l));
    UnplacedSmaller(l, 0, 1);
    SpaceSplit(g, 0, 1);
    SpaceSplit(u, 0, 1);
    assert g[0..] == g && u[0..] == u;
  }

  /** What was left of the 16-bit sections when the gaps were filled. */
  ghost predicate IsRest(sections: seq<Section>, rest: seq<Section>) {
    && IsGroup(sections, rest, Code16)
    && var all := Group(sections, Code16);
       && Shaped(Shapes(all)) && Shaped(Shapes(rest)) && PowerOfTwo(1) && Need(Shapes(rest), 1) <= Need(Shapes(all), 1)
  }

  function FirstFixed(sections: seq<Section>): int
    requires FixedOfRom(sections) != []
  {
    FixedOfRom(sections)[0].key + BIOS_ADDR
  }

  /** The 16-bit sections that are left go below the fixed ones. */
  method Layout16(sections: seq<Section>)
    returns (ok: bool, start: int, ghost p: set<Section>, ghost rest: seq<Section>)
    requires Input(sections)
    modifies sections
    ensures ok <==> forall s :: s in sections && s.category == Fixed && s.fixedaddr.Some? ==> s.align == 1
    ensures ok ==> IsRest(sections, rest) && start == Start(Shapes(rest), FirstFixed(sections), 1)
    ensures ok ==> Done(sections, p, 1, start, FixedFit(FixedOfRom(sections)) && Fits(Shapes(rest), FirstFixed(sections), 1))
    ensures ok ==> PlacedOnly(sections, p) && TopInPlace(sections, rest)
  {
    hide Laid, AllShaped, Distinct, Between, PowerOfTwo, FixedFit;
    hide FixedOfRom, Group, Segmented, Start, Fits, Need;
    hide MinAlign, PlacedOnly, FillersInGaps, TopInPlace, FixedInPlace, Done, IsRest;
    var first;
    ok, first, p := LayoutFixed(sections);
    if !ok { return false, 0, {}, []; }
    start, p, rest := PlaceRest(sections, first, p, FixedFit(FixedOfRom(sections)));
  }

  ghost predicate TopOnly(sections: seq<Section>, p: set<Section>)
    reads p
  {
    forall s :: s in p ==> s in sections && (s.category == Fixed || s.category == Code16) && s.finalloc.Some?
  }

  /** The 16-bit sections that have no address yet, below `first`. */
  method PlaceRest(sections: seq<Section>, first: int, ghost p0: set<Section>, ghost fit: bool)
    returns (start: int, ghost p: set<Section>, ghost rest: seq<Section>)
    requires Distinct(sections) && AllShaped(sections)
    requires PlacedOnly(sections, p0) && FixedInPlace(sections) && FillersInGaps(sections, p0) && TopOnly(sections, p0)
    requires (fit ==> Laid(p0, first)) && Segmented(p0, 0)
    modifies sections
    ensures IsRest(sections, rest) && start == Start(Shapes(rest), first, 1)
    ensures Done(sections, p, 1, start, fit && Fits(Shapes(rest), first, 1))
    ensures PlacedOnly(sections, p) && TopInPlace(sections, rest)
  {
    hide Laid, AllShaped, Distinct, Between, PowerOfTwo, Segmented, Start, Fits, Need, MinAlign, Group, Shapes, Shaped;
    hide AlignedAt, AfterTurn, FillersInGaps, NamesIn, Done, TopInPlace, FixedInPlace, CoversTop, InOrder, Rising;
    SmallPowers();
    GroupIs(sections, Code16);
    var l := Unplaced(Group(sections, Code16));
    RestIs(sections, l);
    RestCovers(sections, p0, l);
    RestInOrder(sections, l);
    assert forall k :: 0 <= k < |l| ==> l[k] in l && l[k] in sections;
    assert forall s :: s in p0 ==> s !in l;
    var align;
    start, align := PlaceGroup(p0, fit, l, first, 1, BIOS_ADDR);
    p := p0 + Elements(l);
    rest := l;
    RisingGroup(sections, l, Code16);
    RestDone(sections, p0, l, start, fit && Fits(Shapes(l), first, 1));
    RestTop(sections, p0, l);
  }

  ghost predicate NamesIn(p: set<Section>)
    reads p
  {
    forall s :: s in p && s.category == Fixed ==> s.fixedaddr.Some? && AtName(s)
  }

  /** Every section of the first two turns that gets an address is in one of the two. */
  ghost predicate CoversTop(sections: seq<Section>, p: set<Section>, rest: seq<Section>) {
    && (forall s :: s in sections && s.category == Fixed && s.fixedaddr.Some? ==> s in p)
    && (forall s :: s in sections && s.category == Code16 && LaidOut(s) && s !in rest ==> s in p)
  }

  lemma RestDone(sections: seq<Section>, p0: set<Section>, l: seq<Section>, start: int, fit: bool)
    requires AfterTurn(sections, p0 + Elements(l), 1) && TopOnly(sections, p0) && Segmented(p0, 0)
    requires InSegment(l, BIOS_ADDR) && (forall s :: s in l ==> s.category == Code16)
    requires fit ==> Laid(p0 + Elements(l), start)
    ensures Done(sections, p0 + Elements(l), 1, start, fit)
  {
    hide Laid, AfterTurn, Stacked;
    SegmentedMore(p0, l, Code16, 0);
    NotStacked(p0 + Elements(l));
    NotSequenced(sections, p0 + Elements(l));
  }

  lemma NotSequenced(sections: seq<Section>, p: set<Section>)
    requires forall s :: s in p ==> s.category == Fixed || s.category == Code16
    ensures Sequenced(sections, p)
  {
  }

  lemma {:induction false} UnplacedConcat(x: seq<Section>, y: seq<Section>)
    ensures Unplaced(x + y) == Unplaced(x) + Unplaced(y)
  {
    if x == [] {
      assert x + y == y;
    } else {
      UnplacedConcat(x[1..], y);
      assert (x + y)[1..] == x[1..] + y;
    }
  }

  lemma UnplacedBefore(l: seq<Section>, a: nat, b: nat)
    requires a < b < |l| && l[a].finalloc.None? && l[b].finalloc.None?
    ensures Before(Unplaced(l), l[a], l[b])
  {
    UnplacedAt(l, a);
    UnplacedAt(l, b);
    UnplacedLess(l, a, b);
    hide Unplaced;
    var x, y := |Unplaced(l[..a])|, |Unplaced(l[..b])|;
    assert 0 <= x < y < |Unplaced(l)|;
  }

  lemma UnplacedAt(l: seq<Section>, a: nat)
    requires a < |l| && l[a].finalloc.None?
    ensures |Unplaced(l[..a])| < |Unplaced(l)| && Unplaced(l)[|Unplaced(l[..a])|] == l[a]
  {
    var x, y := l[..a], l[a..];
    UnplacedConcat(x, y);
    assert l == x + y;
    assert Unplaced(y)[0] == l[a];
    hide Unplaced;
  }

  lemma UnplacedLess(l: seq<Section>, a: nat, b: nat)
    requires a < b < |l| && l[a].finalloc.None?
    ensures |Unplaced(l[..a])| < |Unplaced(l[..b])|
  {
    var x, y := l[..a], l[a..b];
    UnplacedConcat(x, y);
    assert l[..b] == x + y;
    assert y[0] == l[a] && Unplaced(y) != [];
    hide Unplaced;
  }

  lemma RestInOrder(sections: seq<Section>, rest: seq<Section>)
    requires rest == Unplaced(Group(sections, Code16))
    ensures InOrder(sections, rest)
  {
    var g := Group(sections, Code16);
    GroupInOrder(sections, Code16);
    hide Group, Unplaced, Follows;
    forall i, j | 0 <= i < |sections| && 0 <= j < |sections| && InPair(sections, i, j, rest) && Follows(sections, i, j)
      ensures Before(rest, sections[i], sections[j])
    {
      UnplacedIn(g, sections[i]);
      UnplacedIn(g, sections[j]);
      assert Before(g, sections[i], sections[j]);
      var a, b :| 0 <= a < b < |g| && g[a] == sections[i] && g[b] == sections[j];
      UnplacedBefore(g, a, b);
    }
  }

  lemma RestTop(sections: seq<Section>, p: set<Section>, rest: seq<Section>)
    requires CoversTop(sections, p, rest) && NamesIn(p) && FillersInGaps(sections, p)
    requires GroupSequenced(sections, rest, Code16) && forall s :: s in rest ==> AlignedAt(s)
    ensures TopInPlace(sections, rest)
  {
    hide AlignedAt, InSomeGap, AtName, FixedOfRom, GroupSequenced;
  }

  /** Every 16-bit section that gets an address is aligned below the fixed ones, or is code in a gap between them. */
  ghost predicate Filled16(sections: seq<Section>, rest: seq<Section>)
    reads sections
  {
    forall s :: s in sections && s.category == Code16 && LaidOut(s) ==>
      || (s in rest && AlignedAt(s))
      || (s.prefix == Text && InSomeGap(FixedOfRom(sections), s))
  }

  ghost predicate TopInPlace(sections: seq<Section>, rest: seq<Section>)
    reads sections
  {
    FixedInPlace(sections) && Filled16(sections, rest) && GroupSequenced(sections, rest, Code16)
  }

  /** Sections of the first two turns are in no fixed order. */
  lemma NotStacked(p: set<Section>)
    requires forall s :: s in p ==> s.category == Fixed || s.category == Code16
    ensures Stacked(p)
  {
  }

  /** What the gaps have not taken is left over. */
  lemma RestCovers(sections: seq<Section>, p: set<Section>, rest: seq<Section>)
    requires rest == Unplaced(Group(sections, Code16)) && PlacedOnly(sections, p) && FixedInPlace(sections)
    requires FillersInGaps(sections, p)
    requires forall s :: s in p ==> s in sections && (s.category == Fixed || s.category == Code16) && s.finalloc.Some?
    ensures AfterTurn(sections, p + Elements(rest), 1) && CoversTop(sections, p, rest) && NamesIn(p)
  {
    var g := Group(sections, Code16);
    GroupWhole(sections, Code16);
    hide Group, Unplaced, InSomeGap, FixedOfRom;
    forall s | s in rest ensures s in g { UnplacedIn(g, s); }
    forall s | s in g && s.finalloc.None? ensures s in rest { UnplacedIn(g, s); }
    forall s | s in sections && Turn(s.category) <= 1 && LaidOut(s) ensures s in p + Elements(rest) {
      if s.category == Fixed { assert AtName(s); }
    }
  }

  lemma RestIs(sections: seq<Section>, rest: seq<Section>)
    requires IsGroup(sections, Group(sections, Code16), Code16) && rest == Unplaced(Group(sections, Code16))
    ensures IsRest(sections, rest) && forall s :: s in rest ==> s.finalloc.None?
  {
    var g := Group(sections, Code16);
    UnplacedDistinct(g);
    SmallPowers();
    hide Group, Distinct, PowerOfTwo, Need, Unplaced, AllShaped, Shapes, Shaped, IsGroup;
    forall s | s in rest ensures s in g && s.finalloc.None? { UnplacedIn(g, s); }
    SubGroup(sections, g, rest);
    UnplacedNeed(g);
  }

  lemma SubGroup(sections: seq<Section>, g: seq<Section>, rest: seq<Section>)
    requires IsGroup(sections, g, Code16) && Distinct(rest) && forall s :: s in rest ==> s in g
    ensures IsGroup(sections, rest, Code16) && Shaped(Shapes(g)) && Shaped(Shapes(rest))
  {
    hide Distinct, PowerOfTwo, Shapes, Shaped;
    assert forall k :: 0 <= k < |rest| ==> rest[k] in rest;
    ShapesShaped(g);
    ShapesShaped(rest);
  }

  /** The sections of the f-segment, from the top down to its variables. */
  method LayoutUpper(sections: seq<Section>)
    returns (ok: bool, start: int, ghost p: set<Section>, ghost rest: seq<Section>)
    requires Input(sections)
    modifies sections
    ensures ok <==> forall s :: s in sections && s.category == Fixed && s.fixedaddr.Some? ==> s.align == 1
    ensures ok ==> IsRest(sections, rest) && ValidPlan(PlanOf(sections, rest))
    ensures ok ==> start == UpperStart(PlanOf(sections, rest), FirstFixed(sections))
    ensures ok ==> Done(sections, p, 4, start,
                        FixedFit(FixedOfRom(sections)) && UpperFits(PlanOf(sections, rest), FirstFixed(sections)))
    ensures ok ==> PlacedOnly(sections, p) && TopInPlace(sections, rest)
  {
    hide Group, Select, FlatGroup, Distinct, AllShaped, Laid, FixedFit, FixedOfRom, PowerOfTwo, Between, Segmented;
    hide Start, Fits, Need, Shapes, Shaped, MinAlign, Whole, LaidOut, Done, TopInPlace, PlacedOnly, InOrder;
    SmallPowers();
    ok, start, p, rest := Layout16(sections);
    if !ok { return; }
    PlanValid(sections, rest);
    ghost var plan, first := PlanOf(sections, rest), FirstFixed(sections);
    ghost var fit := FixedFit(FixedOfRom(sections)) && Fits(plan.code16, first, 1);
    var align, seg, text;
    GroupIs(sections, Code32Seg);
    GroupWhole(sections, Code32Seg);
    GroupInOrder(sections, Code32Seg);
    seg, align, p := Next(sections, rest, p, fit, Code32Seg, Group(sections, Code32Seg), start, 1, BIOS_ADDR);
    GroupIs(sections, Text32Fseg);
    GroupWhole(sections, Text32Fseg);
    SelectInOrder(sections, Text32Fseg);
    fit := fit && Fits(plan.seg, start, 1);
    text, align, p := Next(sections, rest, p, fit, Text32Fseg, Select(sections, Text32Fseg, None), seg, 16, 0);
    GroupIs(sections, Data32Fseg);
    GroupWhole(sections, Data32Fseg);
    SelectInOrder(sections, Data32Fseg);
    fit := fit && Fits(plan.textFseg, seg, 16);
    start, align, p := Next(sections, rest, p, fit, Data32Fseg, Select(sections, Data32Fseg, None), text, 16, BIOS_ADDR);
  }

  lemma PlanValid(sections: seq<Section>, rest: seq<Section>)
    requires Distinct(sections) && AllShaped(sections) && IsRest(sections, rest)
    ensures ValidPlan(PlanOf(sections, rest))
    ensures ValidPlan(PlanOf(sections, Group(sections, Code16)))
  {
    hide Group, Select, FlatGroup, Distinct, AllShaped, Shapes, Shaped, Need;
    GroupIs(sections, Code32Seg);
    GroupIs(sections, Text32Fseg);
    GroupIs(sections, Data32Fseg);
    GroupIs(sections, Flat32);
    GroupIs(sections, Init32);
    GroupIs(sections, Low32);
    ShapesShaped(Group(sections, Code32Seg));
    ShapesShaped(Select(sections, Text32Fseg, None));
    ShapesShaped(Select(sections, Data32Fseg, None));
    ShapesShaped(FlatGroup(sections, Flat32));
    ShapesShaped(FlatGroup(sections, Init32));
    ShapesShaped(Select(sections, Low32, None));
  }

  lemma LowerDone(sections: seq<Section>, p: set<Section>, n: nat, lo: int, hi: int, fit: bool)
    requires Done(sections, p, n, hi, fit) && lo <= hi
    ensures Done(sections, p, n, lo, fit)
  {
    hide AllApart;
  }

  /** No section that keeps its place meets the zone; with `genreloc` the init sections move away. */
  ghost predicate ZoneFree(p: set<Section>, lo: int, hi: int, genreloc: bool)
    reads p
  {
    forall s :: s in p && (s.category != Init32 || !genreloc) && s.finalloc.Some? ==>
      s.finalloc.value + s.size <= lo || hi <= s.finalloc.value
  }

  /** The init range holds exactly the init sections. */
  ghost predicate InitRange(p: set<Section>, lo: int, hi: int)
    reads p
  {
    forall s :: s in p && s.finalloc.Some? ==>
      if s.category == Init32 then lo <= s.finalloc.value && s.finalloc.value + s.size <= hi
      else s.finalloc.value + s.size <= lo || hi <= s.finalloc.value
  }

  lemma InitInside(sections: seq<Section>, p: set<Section>, init: seq<Section>, lo: int, hi: int)
    requires Laid(p, hi) && AfterTurn(sections, p, 5) && Between(init, lo, hi)
    requires forall s :: s in init ==> s.category == Init32
    ensures InitRange(p + Elements(init), lo, hi)
  {
    hide AllApart;
  }

  lemma InitOfSections(sections: seq<Section>, p: set<Section>, low: seq<Section>, bottom: int, lo: int, hi: int)
    requires InitRange(p, lo, hi) && PlacedOnly(sections, p + Elements(low)) && Between(low, bottom, lo)
    requires forall s :: s in low ==> s.category == Low32
    ensures InitRange(Elements(sections), lo, hi)
  {
  }

  datatype Flat = Flat(flatStart: int, initStart: int, initAlign: nat, zoneStart: int, zoneEnd: int)

  lemma ZoneBelow(p: set<Section>, q: set<Section>, lo: int, flat: int, init: int, genreloc: bool)
    requires Laid(p, flat) && Laid(q, init) && init <= flat
    requires forall s :: s in q && s !in p ==> s.category == Init32
    ensures ZoneFree(q, lo, if genreloc then flat else init, genreloc)
  {
    hide AllApart;
  }

  lemma ZoneInside(p: set<Section>, flat: seq<Section>, init: seq<Section>, zs: int, ze: int, fs: int, bottom: int,
                   genreloc: bool)
    requires Laid(p, ze) && Between(flat, fs, zs) && Between(init, bottom, fs) && fs <= zs
    ensures ZoneFree(p + Elements(flat) + Elements(init), zs, ze, genreloc)
  {
    hide AllApart;
  }

  lemma PlacedMore(sections: seq<Section>, p: set<Section>, q: set<Section>)
    requires PlacedOnly(sections, p) && p <= q
    ensures PlacedOnly(sections, q)
  {
  }

  /** Flat code ending at `top`, and init code below it. */
  method PlaceFlat(sections: seq<Section>, ghost rest: seq<Section>, ghost p: set<Section>, ghost fit: bool,
                   flat: seq<Section>, init: seq<Section>, top: int)
    returns (flatStart: int, initStart: int, initAlign: nat, ghost p5: set<Section>, ghost q: set<Section>)
    requires IsGroup(sections, flat, Flat32) && IsGroup(sections, init, Init32) && Done(sections, p, 4, top, fit)
    requires Whole(sections, flat, Flat32) && Whole(sections, init, Init32) && PowerOfTwo(16)
    requires InOrder(sections, flat) && InOrder(sections, init)
    modifies flat, init
    ensures Shaped(Shapes(flat)) && flatStart == Start(Shapes(flat), top, 16)
    ensures Shaped(Shapes(init)) && initStart == Start(Shapes(init), flatStart, 16)
    ensures p5 == p + Elements(flat) && q == p5 + Elements(init)
    ensures Done(sections, q, 6, initStart, fit && Fits(Shapes(flat), top, 16) && Fits(Shapes(init), flatStart, 16))
    ensures fit && Fits(Shapes(flat), top, 16) && Fits(Shapes(init), flatStart, 16) ==>
              && initStart <= flatStart <= top && Between(flat, flatStart, top) && Between(init, initStart, flatStart)
              && Laid(p5, flatStart) && Laid(q, initStart) && InitRange(q, initStart, flatStart)
    ensures old(PlacedOnly(sections, p + Elements(flat) + Elements(init))) ==> PlacedOnly(sections, q)
    ensures old(TopInPlace(sections, rest)) ==> TopInPlace(sections, rest)
    ensures initAlign == MinAlign(Shapes(init), |init|, 16)
  {
    hide Select, Distinct, AllShaped, Laid, PowerOfTwo, FlatGroup, InitRange, Segmented, AtName;
    hide Start, Fits, Shapes, Shaped, MinAlign, AlignedAt, TopInPlace, Stacked, LaidOut, InOrder, Sequenced;
    var flatAlign;
    flatStart, flatAlign, p5 := Next(sections, rest, p, fit, Flat32, flat, top, 16, 0);
    ghost var fit5 := fit && Fits(Shapes(flat), top, 16);
    initStart, initAlign, q := Next(sections, rest, p5, fit5, Init32, init, flatStart, 16, 0);
    if fit5 && Fits(Shapes(init), flatStart, 16) { InitInside(sections, p5, init, initStart, flatStart); }
  }

  lemma FlatApart(sections: seq<Section>, p: set<Section>, flat: seq<Section>, init: seq<Section>, lo: int, fit: bool)
    requires Done(sections, p, 4, lo, fit) && Whole(sections, flat, Flat32) && Whole(sections, init, Init32)
    ensures p !! Elements(flat) && p !! Elements(init) && (fit ==> Laid(p, lo))
  {
    hide Laid, Whole, Stacked, Segmented, AfterTurn;
    LaterTurn(sections, p, 4, flat, Flat32);
    LaterTurn(sections, p, 4, init, Init32);
  }

  /** Flat code and init code, and the f-segment zone. */
  method LayoutFlat(sections: seq<Section>, ghost rest: seq<Section>, ghost p: set<Section>, ghost fit: bool,
                    ghost plan: Plan, fseg: int, genreloc: bool)
    returns (r: Flat, ghost q: set<Section>)
    requires Distinct(sections) && AllShaped(sections) && Done(sections, p, 4, fseg, fit) && ValidPlan(plan)
    requires plan.flat == Shapes(FlatGroup(sections, Flat32)) && plan.init == Shapes(FlatGroup(sections, Init32))
    modifies sections
    ensures r.flatStart == FlatStart(plan, fseg, genreloc) && r.initStart == InitStart(plan, fseg, genreloc)
    ensures Done(sections, q, 6, r.initStart, fit && FlatFits(plan, fseg, genreloc))
    ensures p <= q && r.zoneEnd - r.zoneStart >= MIN_BIOSTABLE
    ensures fit && FlatFits(plan, fseg, genreloc) ==>
              ZoneFree(q, r.zoneStart, r.zoneEnd, genreloc) && InitRange(q, r.initStart, r.flatStart)
    ensures old(PlacedOnly(sections, p)) ==> PlacedOnly(sections, q)
    ensures old(TopInPlace(sections, rest)) ==> TopInPlace(sections, rest)
    ensures r.initAlign == MinAlign(plan.init, |plan.init|, 16)
    ensures if 0xf0000 + 2048 <= PlainZoneEnd(plan, fseg, genreloc)
            then r.zoneStart == 0xf0000 && r.zoneEnd == (if genreloc then r.flatStart else r.initStart)
            else r.zoneEnd == fseg && r.zoneStart == fseg - 2048
  {
    hide Select, Distinct, AllShaped, Laid, PowerOfTwo, Between, FlatGroup, ZoneFree, InitRange, Segmented;
    hide Start, Fits, Shapes, Shaped, MinAlign, PlacedOnly, TopInPlace, Whole, Done, InOrder;
    SmallPowers();
    GroupIs(sections, Flat32);
    GroupIs(sections, Init32);
    GroupWhole(sections, Flat32);
    GroupWhole(sections, Init32);
    GroupInOrder(sections, Flat32);
    GroupInOrder(sections, Init32);
    FlatApart(sections, p, FlatGroup(sections, Flat32), FlatGroup(sections, Init32), fseg, fit);
    var flat, init := FlatGroup(sections, Flat32), FlatGroup(sections, Init32);
    if PlacedOnly(sections, p) { PlacedMore(sections, p, p + Elements(flat) + Elements(init)); }
    ghost var p5;
    var flatStart, initStart, initAlign;
    flatStart, initStart, initAlign, p5, q := PlaceFlat(sections, rest, p, fit, flat, init, fseg);
    var zoneEnd := if genreloc then flatStart else initStart;
    var zoneStart := BIOS_ADDR;
    if zoneStart + MIN_BIOSTABLE > zoneEnd {
      zoneEnd := fseg;
      zoneStart := zoneEnd - MIN_BIOSTABLE;
      LowerDone(sections, p, 4, zoneStart, fseg, fit);
      flatStart, initStart, initAlign, p5, q := PlaceFlat(sections, rest, p, fit, flat, init, zoneStart);
      if fit && Fits(plan.flat, zoneStart, 16) && Fits(plan.init, flatStart, 16) {
        ZoneInside(p, flat, init, zoneStart, zoneEnd, flatStart, initStart, genreloc);
      }
    } else if fit && Fits(plan.flat, fseg, 16) && Fits(plan.init, flatStart, 16) {
      ZoneBelow(p5, q, zoneStart, flatStart, initStart, genreloc);
    }
    r := Flat(flatStart, initStart, initAlign, zoneStart, zoneEnd);
  }

  datatype LayoutInfo = LayoutInfo(
    initStart: int, initEnd: int, initAlign: nat, readonlyStart: int, zonefsegStart: int, zonefsegEnd: int,
    lowStart: int, lowEnd: int, zonelowBase: int, finalLowStart: int)

  function Min(a: int, b: int): int {
    if a <= b then a else b
  }

  /** Before the last turn there is no section in low memory. */
  lemma AnyLowBase(sections: seq<Section>, p: set<Section>, lo: int, low: int, fit: bool)
    requires Done(sections, p, 6, lo, fit)
    ensures Segmented(p, low)
  {
    hide Laid;
  }

  lemma SegmentedSections(sections: seq<Section>, p: set<Section>, low: int)
    requires Segmented(p, low) && PlacedOnly(sections, p)
    ensures Segmented(Elements(sections), low)
  {
  }

  /** Sections that are not placed overlap nothing. */
  lemma AllSections(sections: seq<Section>, p: set<Section>, lo: int)
    requires Laid(p, lo) && PlacedOnly(sections, p)
    ensures AllApart(Elements(sections))
  {
  }

  /** Sections that are not moved to low memory. */
  ghost function Staying(sections: seq<Section>): set<Section> {
    set s | s in sections && s.category != Low32
  }

  lemma ZoneOfSections(sections: seq<Section>, p: set<Section>, l: seq<Section>, lo: int, hi: int, genreloc: bool)
    requires ZoneFree(p, lo, hi, genreloc) && PlacedOnly(sections, p + Elements(l))
    requires forall s :: s in l ==> s.category == Low32
    ensures ZoneFree(Staying(sections), lo, hi, genreloc)
  {
  }

  /**
   Exactly the sections to be laid out have an address; fixed sections have the one in their name, 16-bit
   code may fill gaps between these, and every other section is aligned and in the order of its category.
   */
  ghost predicate AllPlaced(sections: seq<Section>, rest: seq<Section>)
    reads sections
  {
    && (forall s :: s in sections ==> (s.finalloc.Some? <==> LaidOut(s)))
    && TopInPlace(sections, rest)
    && (forall s :: s in sections && LaidOut(s) && s.category !in {Fixed, Code16} ==> AlignedAt(s))
    && Sequenced(sections, Elements(sections))
  }

  lemma PlacedSections(sections: seq<Section>, rest: seq<Section>, p: set<Section>)
    requires AfterTurn(sections, p, 7) && PlacedOnly(sections, p) && TopInPlace(sections, rest)
    requires Sequenced(sections, p)
    requires forall s :: s in p ==> s.finalloc.Some? && (Turn(s.category) >= 2 ==> AlignedAt(s))
    ensures AllPlaced(sections, rest)
  {
    hide TopInPlace, AlignedAt, BelowOf, Follows;
  }

  lemma StackedSections(sections: seq<Section>, p: set<Section>)
    requires Stacked(p) && PlacedOnly(sections, p)
    ensures Stacked(Elements(sections))
  {
  }

  /**
   What the computed addresses mean: read-only memory starts with the f-segment or the lowest section that stays;
   low memory ends at its final end; its zone is 64 KiB or what is left of them above the ROM start.
   */
  ghost predicate InfoRight(li: LayoutInfo, genreloc: bool, upperMemory: bool) {
    var lowest := if genreloc then li.initEnd else li.initStart;
    && li.lowEnd == li.initStart
    && li.readonlyStart == (if lowest < 0xf0000 then lowest else 0xf0000)
    && li.finalLowStart + (li.lowEnd - li.lowStart) == (if upperMemory then li.readonlyStart else 0xa0000)
    && (!upperMemory ==> li.zonelowBase == 0x90000)
    && (upperMemory ==>
        && li.zonelowBase % 2048 == 0 && 0xc0000 <= li.zonelowBase && li.readonlyStart - 0x10000 <= li.zonelowBase
        && (li.zonelowBase == 0xc0000 || li.zonelowBase < li.readonlyStart - 0x10000 + 2048))
  }

  /** The final end of low memory and the base of its zone. */
  method FinalLow(readonlyStart: int, upperMemory: bool) returns (end: int, base: int)
    ensures end == if upperMemory then readonlyStart else 0xa0000
    ensures !upperMemory ==> base == 0x90000
    ensures upperMemory ==>
      && base % 2048 == 0 && 0xc0000 <= base && readonlyStart - 0x10000 <= base
      && (base == 0xc0000 || base < readonlyStart - 0x10000 + 2048)
  {
    end := if upperMemory then readonlyStart else LOWRAM_END;
    base := end - 64 * 1024;
    if upperMemory {
      AlignedUp(base, 2 * 1024);
      base := AlignUp(base, 2 * 1024);
      if base < ROM_START { base := ROM_START; }
    }
  }

  lemma StartsOnParagraphs(p: Plan, first: int, genreloc: bool)
    requires ValidPlan(p)
    ensures var fseg := UpperStart(p, first);
            && fseg % 16 == 0 && FlatStart(p, fseg, genreloc) % 16 == 0 && InitStart(p, fseg, genreloc) % 16 == 0
            && LowStart(p, first, genreloc) % 16 == 0
  {
    SmallPowers();
    hide PowerOfTwo, Start, FlatEnd;
    var fseg := UpperStart(p, first);
    StartLeast(p.dataFseg, Start(p.textFseg, Start(p.seg, Start(p.code16, first, 1), 1), 16), 16);
    StartLeast(p.flat, FlatEnd(p, fseg, genreloc), 16);
    StartLeast(p.init, FlatStart(p, fseg, genreloc), 16);
    StartLeast(p.low, InitStart(p, fseg, genreloc), 16);
  }

  /**
   No two sections overlap, categories lie in their order, the zone is free of every section that
   keeps its place, and the init range holds exactly the init sections.
   */
  ghost predicate Sound(sections: seq<Section>, zoneStart: int, zoneEnd: int, initStart: int, initEnd: int,
                        genreloc: bool)
    reads sections
  {
    && AllApart(Elements(sections)) && Stacked(Elements(sections))
    && ZoneFree(Staying(sections), zoneStart, zoneEnd, genreloc)
    && InitRange(Elements(sections), initStart, initEnd)
  }

  lemma FitsParts(p: Plan, first: int, genreloc: bool)
    requires ValidPlan(p) && GroupsFit(p, first, genreloc)
    ensures UpperFits(p, first) && FlatFits(p, UpperStart(p, first), genreloc)
  {
  }

  /**
   `doLayout`. Every section to be laid out gets an address. When the fixed sections fit and every
   group ends where it has to, no two sections overlap, the init range holds exactly the init
   sections, and the f-segment zone is free of every section that keeps its place. Every group does
   end there if sizes and alignments leave room below the first fixed section. Segment locations are
   relative to their segment's base.
   */
  method DoLayout(sections: seq<Section>, genreloc: bool, upperMemory: bool)
    returns (ok: bool, li: LayoutInfo, ghost rest: seq<Section>)
    requires Input(sections)
    modifies sections
    ensures ok <==> forall s :: s in sections && s.category == Fixed && s.fixedaddr.Some? ==> s.align == 1
    ensures ok ==> ValidPlan(PlanOf(sections, rest)) && ValidPlan(PlanOf(sections, Group(sections, Code16)))
    ensures ok ==> var plan, first := PlanOf(sections, rest), FirstFixed(sections);
      && li.initEnd == FlatStart(plan, UpperStart(plan, first), genreloc)
      && li.initStart == InitStart(plan, UpperStart(plan, first), genreloc)
      && li.lowStart == LowStart(plan, first, genreloc)
      && li.initAlign == MinAlign(plan.init, |plan.init|, 16)
      && (if 0xf0000 + 2048 <= PlainZoneEnd(plan, UpperStart(plan, first), genreloc)
          then li.zonefsegStart == 0xf0000 && li.zonefsegEnd == (if genreloc then li.initEnd else li.initStart)
          else li.zonefsegEnd == UpperStart(plan, first) && li.zonefsegStart == li.zonefsegEnd - 2048)
    ensures ok ==> AllPlaced(sections, rest) && InfoRight(li, genreloc, upperMemory)
    ensures ok ==> li.initStart % 16 == 0 && li.initEnd % 16 == 0 && li.lowStart % 16 == 0
    ensures ok && FixedFit(FixedOfRom(sections)) && GroupsFit(PlanOf(sections, rest), FirstFixed(sections), genreloc) ==>
      Sound(sections, li.zonefsegStart, li.zonefsegEnd, li.initStart, li.initEnd, genreloc)
    ensures ok && (Room(PlanOf(sections, Group(sections, Code16)), FirstFixed(sections)) || li.lowStart > 0) ==>
      GroupsFit(PlanOf(sections, rest), FirstFixed(sections), genreloc)
    ensures ok && FixedSolid(sections) && AllApart(Elements(sections)) ==> FixedFit(FixedOfRom(sections))
    ensures ok ==> Segmented(Elements(sections), li.zonelowBase - (li.finalLowStart - li.lowStart))
    ensures ok ==> li.zonefsegEnd - li.zonefsegStart >= MIN_BIOSTABLE
  {
    hide Select, Distinct, AllShaped, Laid, PowerOfTwo, Between;
    hide ZoneFree, FixedFit, FixedOfRom, InitRange, Segmented, InSegment, AllApart;
    hide Group, FlatGroup, Shapes, ValidPlan, UpperStart, UpperFits;
    hide FlatStart, InitStart, FlatFits, LowStart, GroupsFit, Room, AtName;
    hide Sound, FixedSolid, IsRest, PlacedOnly, TopInPlace, Done, FlatEnd, PlainZoneEnd, MinAlign, AllPlaced;
    var fseg, lowStart;
    ghost var p;
    ok, fseg, p, rest := LayoutUpper(sections);
    if !ok { li := LayoutInfo(0, 0, 0, 0, 0, 0, 0, 0, 0, 0); return; }
    ghost var plan, first := PlanOf(sections, rest), FirstFixed(sections);
    ghost var fit := FixedFit(FixedOfRom(sections)) && UpperFits(plan, first);
    PlanValid(sections, rest);
    var r: Flat;
    r, p := LayoutFlat(sections, rest, p, fit, plan, fseg, genreloc);
    fit := fit && FlatFits(plan, fseg, genreloc);
    var readonlyStart := Min(BIOS_ADDR, if genreloc then r.flatStart else r.initStart);
    var finalLowEnd, zonelowBase := FinalLow(readonlyStart, upperMemory);
    StartsOnParagraphs(plan, first, genreloc);
    var delta := finalLowEnd - r.initStart;
    if GroupsFit(plan, first, genreloc) { FitsParts(plan, first, genreloc); }
    lowStart := LayoutLow(sections, rest, p, fit, plan, first, r, zonelowBase - delta, genreloc);
    li := LayoutInfo(r.initStart, r.flatStart, r.initAlign, readonlyStart, r.zoneStart, r.zoneEnd,
                     lowStart, r.initStart, zonelowBase, lowStart + delta);
    if Room(PlanOf(sections, Group(sections, Code16)), first) || lowStart > 0 {
      PlanFits(sections, rest, first, genreloc);
    }
    if FixedSolid(sections) && AllApart(Elements(sections)) { FixedPlacedFit(sections, rest); }
  }

  lemma FixedPlacedFit(sections: seq<Section>, rest: seq<Section>)
    requires Distinct(sections) && AllPlaced(sections, rest) && AllApart(Elements(sections)) && FixedSolid(sections)
    ensures FixedFit(FixedOfRom(sections))
  {
    hide FixedInPlace, Filled16, AllApart, FixedSolid, Distinct, FixedFit, FixedOfRom, LaidOut, AlignedAt;
    FixedFitNeeded(sections);
  }

  lemma PlanFits(sections: seq<Section>, rest: seq<Section>, first: int, genreloc: bool)
    requires ValidPlan(PlanOf(sections, rest)) && ValidPlan(PlanOf(sections, Group(sections, Code16)))
    requires IsRest(sections, rest)
    requires Room(PlanOf(sections, Group(sections, Code16)), first) || LowStart(PlanOf(sections, rest), first, genreloc) > 0
    ensures GroupsFit(PlanOf(sections, rest), first, genreloc)
  {
    hide Group, FlatGroup, Select, Shapes, ValidPlan, Room, LowStart, GroupsFit, Need;
    var all, plan := PlanOf(sections, Group(sections, Code16)), PlanOf(sections, rest);
    if Room(all, first) { RoomFits(all, plan, first, genreloc); } else { PositiveFits(plan, first, genreloc); }
  }

  /** The sections of low memory, below the init code. */
  method LayoutLow(sections: seq<Section>, ghost rest: seq<Section>, ghost p: set<Section>, ghost fit: bool,
                   ghost plan: Plan, ghost first: int, r: Flat, segoffset: int, ghost genreloc: bool)
    returns (lowStart: int)
    requires Distinct(sections) && AllShaped(sections) && Done(sections, p, 6, r.initStart, fit)
    requires PlacedOnly(sections, p) && TopInPlace(sections, rest)
    requires ValidPlan(plan) && plan.low == Shapes(Select(sections, Low32, None))
    requires r.initStart == InitStart(plan, UpperStart(plan, first), genreloc)
    requires fit ==> ZoneFree(p, r.zoneStart, r.zoneEnd, genreloc) && InitRange(p, r.initStart, r.flatStart)
    modifies sections
    ensures lowStart == LowStart(plan, first, genreloc)
    ensures Segmented(Elements(sections), segoffset)
    ensures fit && GroupsFit(plan, first, genreloc) ==>
      Sound(sections, r.zoneStart, r.zoneEnd, r.initStart, r.flatStart, genreloc)
    ensures AllPlaced(sections, rest)
  {
    hide Select, Distinct, AllShaped, Laid, PowerOfTwo, Between, ZoneFree, InitRange, Segmented, InSegment, AllApart;
    hide Shapes, Shaped, Start, Fits, UpperStart, UpperFits, InitStart, FlatFits, MinAlign;
    hide AlignedAt, InSomeGap, FixedOfRom, Stacked, LaidOut, AfterTurn, AllPlaced, AtName, Whole;
    hide InOrder, Rising, BelowOf, Follows;
    GroupIs(sections, Low32);
    GroupWhole(sections, Low32);
    LaterTurn(sections, p, 6, Select(sections, Low32, None), Low32);
    SelectInOrder(sections, Low32);
    SmallPowers();
    var low := Select(sections, Low32, None);
    AnyLowBase(sections, p, r.initStart, segoffset, fit);
    var align;
    lowStart, align := PlaceGroup(p, fit, low, r.initStart, 16, segoffset);
    ghost var q := p + Elements(low);
    SegmentedMore(p, low, Low32, segoffset);
    SegmentedSections(sections, q, segoffset);
    WholeTurn(sections, p, low, Low32);
    LowSettled(p, low, segoffset);
    RisingGroup(sections, low, Low32);
    LowSequenced(sections, p, low);
    PlacedSections(sections, rest, q);
    if fit && Fits(plan.low, r.initStart, 16) {
      LowStacked(sections, p, low, lowStart, r.initStart);
      StackedSections(sections, q);
      AllSections(sections, q, lowStart);
      ZoneOfSections(sections, p, low, r.zoneStart, r.zoneEnd, genreloc);
      InitOfSections(sections, p, low, lowStart, r.initStart, r.flatStart);
    }
  }

  lemma LowSettled(p: set<Section>, low: seq<Section>, base: int)
    requires (forall s :: s in p ==> s.finalloc.Some? && (Turn(s.category) >= 2 ==> AlignedAt(s)))
    requires InSegment(low, base) && forall s :: s in low ==> AlignedAt(s)
    ensures forall s :: s in p + Elements(low) ==> s.finalloc.Some? && (Turn(s.category) >= 2 ==> AlignedAt(s))
  {
    hide AlignedAt;
  }

  lemma LowSequenced(sections: seq<Section>, p: set<Section>, low: seq<Section>)
    requires AfterTurn(sections, p, 6) && Sequenced(sections, p) && GroupSequenced(sections, low, Low32)
    requires Whole(sections, low, Low32)
    ensures Sequenced(sections, p + Elements(low))
  {
    hide LaidOut, Sequenced, GroupSequenced;
    SequencedMore(sections, p, low, Low32);
  }

  lemma LowStacked(sections: seq<Section>, p: set<Section>, low: seq<Section>, lo: int, hi: int)
    requires AfterTurn(sections, p, 6) && Stacked(p) && Laid(p, hi) && Between(low, lo, hi)
    requires Whole(sections, low, Low32)
    ensures Stacked(p + Elements(low))
  {
    hide LaidOut, Stacked, Laid, Between;
    StackedMore(p, low, Low32, lo, hi);
  }
}
