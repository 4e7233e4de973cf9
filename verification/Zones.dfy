/**
 The zone allocator's lists as values: `alloc_new`, `alloc_free`, `alloc_add` on one zone.

 A zone is a list of address ranges in descending order. A range is either a block, whose
 `size` bytes at its start are in use, or the marker of an added region, with size zero. The
 free space of a zone is what its ranges hold beyond their `size`.
 */
module Zones {
  import opened Words

  const M: nat := 0x1_0000_0000

  /** Which member of a bookkeeping record a list node belongs to. */
  datatype Role = Data | Detail

  /** An `allocinfo_s`: its range, and the address of the `allocdetail_s` it is embedded in. */
  datatype Info = Info(start: nat, end: nat, size: nat, rec: nat, role: Role) {
    predicate Live() { size > 0 }

    predicate Wf() { start + size <= end < M && (start == 0 ==> end == 0) }
  }

  /** A region given to a zone by `alloc_add`; it may be empty. */
  datatype Region = Region(start: nat, end: nat)

  predicate InRegions(rs: seq<Region>, a: int) {
    exists i :: 0 <= i < |rs| && rs[i].start <= a < rs[i].end
  }

  /** Two regions do not overlap; an empty one may lie at the edge of another, but not inside it. */
  predicate Apart(r: Region, q: Region) {
    r.end <= q.start || q.end <= r.start
  }

  ghost predicate Disjoint(rs: seq<Region>) {
    forall i, j :: 0 <= i < j < |rs| ==> Apart(rs[i], rs[j])
  }

  /** `ALIGN_DOWN` with alignment `2^k` on a 32-bit word. */
  function AlignDown(x: nat, k: nat): (r: nat)
    requires x < M && k <= 32
    ensures r == x - x % Pow2(k) && 0 <= x % Pow2(k) < Pow2(k)
  {
    Pow2Values();
    AndHighMask(32, x, k);
    Euclid(x, Pow2(k));
    And(x, Pow2(32) - Pow2(k))
  }

  /** Where `alloc_new` would put a block at the top of a range; the wrap guard is the C code's. */
  function Fit(x: Info, size: nat, k: nat): (r: int)
    requires k <= 32
  {
    var allocEnd := U32(x.start + x.size);
    var top := AlignDown(U32(x.end - size), k);
    if top >= allocEnd && top <= x.end then top else -1
  }

  /** Does the range hold an aligned block of this size in its free space? */
  ghost predicate HasRoom(x: Info, size: nat, k: nat) {
    exists q :: RoomAt(x, size, k, q)
  }

  ghost predicate RoomAt(x: Info, size: nat, k: nat, q: int) {
    0 <= q && x.start + x.size <= q * Pow2(k) && q * Pow2(k) + size <= x.end
  }

  /** A multiple of `p` at or below `x` is at or below the aligned-down `x`. */
  lemma HighestMultiple(x: nat, p: nat, q: int)
    requires p > 0 && q * p <= x
    ensures q * p <= x - x % p
  {
    Euclid(x, p);
    var h := x / p;
    if q > h { MulLe(p, h + 1, q); assert false; }
    MulLe(p, q, h);
  }

  lemma AlignedMultiple(x: nat, p: nat)
    requires p > 0
    ensures 0 <= x / p && x / p * p == x - x % p && (x - x % p) % p == 0
  {
    Euclid(x, p);
    DivBounds(x, p);
    DivModUnique(x - x % p, p, x / p, 0);
  }

  /** `Fit` on a range that the size does not exceed: nothing wraps. */
  lemma FitDefinition(x: Info, size: nat, k: nat)
    requires x.Wf() && k <= 32 && size + Pow2(k) <= M
    ensures size > x.end ==> Fit(x, size, k) == -1
    ensures size <= x.end ==>
              var top := x.end - size - (x.end - size) % Pow2(k);
              Fit(x, size, k) == if top >= x.start + x.size then top else -1
  {
    hide AlignDown, U32, Pow2;
  }

  /**
   The wrap guard is adequate while size and alignment together stay within 2^32: `Fit` then
   finds the highest aligned place in the free space, exactly when there is one.
   */
  lemma FitExact(x: Info, size: nat, k: nat)
    requires x.Wf() && k <= 32 && size + Pow2(k) <= M
    ensures Fit(x, size, k) >= 0 <==> HasRoom(x, size, k)
    ensures Fit(x, size, k) >= 0 ==>
              && Fit(x, size, k) % Pow2(k) == 0
              && x.start + x.size <= Fit(x, size, k) && Fit(x, size, k) + size <= x.end
    ensures forall q :: RoomAt(x, size, k, q) ==> q * Pow2(k) <= Fit(x, size, k)
  {
    hide Fit;
    FitDefinition(x, size, k);
    var p := Pow2(k);
    if size <= x.end {
      var raw := x.end - size;
      Euclid(raw, p);
      AlignedMultiple(raw, p);
      forall q | RoomAt(x, size, k, q) ensures q * p <= raw - raw % p {
        HighestMultiple(raw, p, q);
      }
      if Fit(x, size, k) >= 0 { assert RoomAt(x, size, k, raw / p); }
    } else {
      forall q: nat { MulNat(q, p); }
    }
  }

  /** Beyond that limit it is not: an aligned empty range then passes the guard. */
  lemma WrapGuardLimit(size: nat, k: nat)
    requires size < M && k <= 31
    ensures (forall x: Info :: x.Wf() && Fit(x, size, k) >= 0 ==> Fit(x, size, k) + size <= x.end)
            <==> size + Pow2(k) <= M
  {
    hide Fit;
    if size + Pow2(k) <= M {
      forall x: Info | x.Wf() { FitExact(x, size, k); }
    } else {
      var p := Pow2(k);
      Pow2Values();
      Pow2Mono(k, 31);
      var x := Info(p, p, 0, 0, Data);
      GuardPassed(x, size, k);
    }
  }

  lemma GuardPassed(x: Info, size: nat, k: nat)
    requires k <= 31 && x == Info(Pow2(k), Pow2(k), 0, 0, Data) && Pow2(k) < M
    requires size < M && size + Pow2(k) > M && size > Pow2(k)
    ensures Fit(x, size, k) == Pow2(k)
  {
    hide AlignDown, Pow2;
    DivModUnique(x.end - size + M, Pow2(k), 1, M - size);
  }

  // ----- the shape of a zone list

  /** What must follow a range: a block ends its free space where the next range ends. */
  ghost predicate LinkTo(x: Info, below: int) {
    x.Live() ==> x.start == below
  }

  /**
   A well-formed list, where `below` is the end of whatever follows it (-1 for nothing): every
   block is followed by a range that ends where the block starts. A region's blocks and its marker
   thus stand together, from the region's end down to its start.
   */
  ghost predicate Chain(l: seq<Info>, below: int) {
    l == [] || (l[0].Wf() && LinkTo(l[0], Below(l[1..], below)) && Chain(l[1..], below))
  }

  function Below(l: seq<Info>, below: int): int {
    if l == [] then below else l[0].end
  }

  /** The regions that a list is made of, in list order, followed by `rest`. */
  function Spans(l: seq<Info>, rest: seq<Region>): seq<Region> {
    if l == [] then rest else
    var t := Spans(l[1..], rest);
    if !l[0].Live() then [Region(l[0].start, l[0].end)] + t
    else if t == [] then []
    else [Region(t[0].start, l[0].end)] + t[1..]
  }

  /** Is the address inside some range? */
  predicate Covered(l: seq<Info>, a: int) {
    l != [] && (l[0].start <= a < l[0].end || Covered(l[1..], a))
  }

  /** How many nodes satisfy `p`. */
  function Count(l: seq<Info>, p: Info -> bool): nat {
    if l == [] then 0 else (if p(l[0]) then 1 else 0) + Count(l[1..], p)
  }

  /** `p` does not look at where a range ends, the only field that changes while a node is listed. */
  ghost predicate EndBlind(p: Info -> bool) {
    forall x: Info, e: nat :: p(x.(end := e)) == p(x)
  }

  lemma {:induction false} ChainConcat(x: seq<Info>, y: seq<Info>, below: int)
    ensures Chain(x + y, below) <==> Chain(x, Below(y, below)) && Chain(y, below)
  {
    if x == [] {
      assert x + y == y;
    } else {
      ChainConcat(x[1..], y, below);
      assert (x + y)[1..] == x[1..] + y;
      assert Below(x[1..] + y, below) == Below(x[1..], Below(y, below));
    }
  }

  lemma {:induction false} SpansConcat(x: seq<Info>, y: seq<Info>, rest: seq<Region>)
    ensures Spans(x + y, rest) == Spans(x, Spans(y, rest))
  {
    if x == [] {
      assert x + y == y;
    } else {
      SpansConcat(x[1..], y, rest);
      assert (x + y)[1..] == x[1..] + y;
    }
  }

  lemma {:induction false} CountConcat(x: seq<Info>, y: seq<Info>, p: Info -> bool)
    ensures Count(x + y, p) == Count(x, p) + Count(y, p)
  {
    if x == [] {
      assert x + y == y;
    } else {
      CountConcat(x[1..], y, p);
      assert (x + y)[1..] == x[1..] + y;
    }
  }

  lemma {:induction false} CoveredAt(l: seq<Info>, i: nat, a: int)
    requires i < |l| && l[i].start <= a < l[i].end
    ensures Covered(l, a)
  {
    if i == 0 {
    } else {
      CoveredAt(l[1..], i - 1, a);
    }
  }

  lemma {:induction false} CoveredBy(l: seq<Info>, a: int) returns (i: nat)
    requires Covered(l, a)
    ensures i < |l| && l[i].start <= a < l[i].end
  {
    if l[0].start <= a < l[0].end {
      i := 0;
    } else {
      i := CoveredBy(l[1..], a);
      i := i + 1;
    }
  }

  lemma {:induction false} ChainAt(l: seq<Info>, below: int, i: nat)
    requires Chain(l, below) && i < |l|
    ensures l[i].Wf() && LinkTo(l[i], Below(l[i + 1..], below))
  {
    if i == 0 {
    } else {
      ChainAt(l[1..], below, i - 1);
      assert l[1..][i..] == l[i + 1..];
    }
  }

  // ----- the regions of a list

  /** The number of region markers: the position of a node's region among the spans. */
  function Group(l: seq<Info>, i: nat): nat
    requires i <= |l|
  {
    if i == 0 then 0 else (if l[0].Live() then 0 else 1) + Group(l[1..], i - 1)
  }

  lemma SpansTop(l: seq<Info>)
    requires Chain(l, -1) && l != []
    ensures Spans(l, []) != [] && Spans(l, [])[0].end == l[0].end
  {
    if l[0].Live() { SpansTop(l[1..]); }
  }

  /** Every range lies in its region; a marker starts where its region starts. */
  lemma {:induction false} InSpan(l: seq<Info>, i: nat)
    requires Chain(l, -1) && i < |l|
    ensures Group(l, i) < |Spans(l, [])|
    ensures var r := Spans(l, [])[Group(l, i)];
            && r.start <= l[i].start && l[i].end <= r.end
            && (!l[i].Live() ==> l[i].start == r.start)
  {
    if i == 0 {
      if l[0].Live() { InSpan(l[1..], 0); }
    } else {
      InSpan(l[1..], i - 1);
      SpansTop(l[1..]);
    }
  }

  /** Within a region, ranges descend. */
  lemma {:induction false} SameGroup(l: seq<Info>, i: nat, j: nat)
    requires Chain(l, -1) && i < j < |l| && Group(l, i) == Group(l, j)
    ensures l[i].Live() && l[i].start >= l[j].end
  {
    if i > 0 {
      SameGroup(l[1..], i - 1, j - 1);
    } else {
      if j > 1 { SameGroup(l[1..], 0, j - 1); }
      ChainAt(l, -1, 1);
    }
  }

  lemma {:induction false} GroupOrder(l: seq<Info>, i: nat, j: nat)
    requires i <= j <= |l|
    ensures Group(l, i) <= Group(l, j)
  {
    if i == 0 {
    } else {
      GroupOrder(l[1..], i - 1, j - 1);
    }
  }

  /** Ranges at different positions of a list do not overlap. */
  lemma NodesApart(l: seq<Info>, i: nat, j: nat)
    requires Chain(l, -1) && Disjoint(Spans(l, [])) && i < j < |l|
    ensures l[i].end <= l[j].start || l[j].end <= l[i].start
  {
    hide Chain, Spans, Group;
    InSpan(l, i);
    InSpan(l, j);
    GroupOrder(l, i, j);
    if Group(l, i) == Group(l, j) { SameGroup(l, i, j); }
  }

  // ----- alloc_new on one zone

  /** The first range with room. */
  function FirstFit(l: seq<Info>, size: nat, k: nat): (i: nat)
    requires k <= 32
    ensures i <= |l|
    ensures i < |l| ==> Fit(l[i], size, k) >= 0
    ensures forall j :: 0 <= j < i ==> Fit(l[j], size, k) < 0
  {
    if l == [] || Fit(l[0], size, k) >= 0 then 0 else 1 + FirstFit(l[1..], size, k)
  }

  /** Range `x` with a block cut off its top at `at`. */
  function Carved(x: Info, at: nat, size: nat, rec: nat, role: Role): seq<Info> {
    [Info(at, x.end, size, rec, role), x.(end := at)]
  }

  /** `alloc_new`: the new list, and the block's address or 0. */
  function AllocNew(l: seq<Info>, size: nat, k: nat, rec: nat, role: Role): (r: (seq<Info>, nat))
    requires k <= 32
  {
    var i := FirstFit(l, size, k);
    if i == |l| then (l, 0) else
      var at := Fit(l[i], size, k);
      (l[..i] + Carved(l[i], at, size, rec, role) + l[i + 1..], at)
  }

  /** `alloc_free` of the node at `i`: its range goes to its successor if they are adjacent. */
  function AllocFree(l: seq<Info>, i: nat): (r: seq<Info>)
    requires i < |l|
  {
    if i + 1 < |l| && l[i + 1].end == l[i].start then
      l[..i] + [l[i + 1].(end := l[i].end)] + l[i + 2..]
    else
      l[..i] + l[i + 1..]
  }

  /** `alloc_add`: insert before the first range that starts below the new one. */
  function InsertPosition(l: seq<Info>, start: nat): (i: nat)
    ensures i <= |l|
    ensures i < |l| ==> l[i].start < start
    ensures forall j :: 0 <= j < i ==> l[j].start >= start
  {
    if l == [] || l[0].start < start then 0 else 1 + InsertPosition(l[1..], start)
  }

  function InsertMarker(l: seq<Info>, start: nat, end: nat, rec: nat): (r: seq<Info>) {
    var i := InsertPosition(l, start);
    l[..i] + [Info(start, end, 0, rec, Data)] + l[i..]
  }

  // ----- two pieces of list with the same outline can stand for each other

  /** Same extent, same regions: `y` may replace `x` inside any list. */
  ghost predicate SameOutline(x: seq<Info>, y: seq<Info>) {
    && x != [] && y != []
    && x[0].end == y[0].end
    && (forall below :: Chain(x, below) <==> Chain(y, below))
    && (forall rest :: Spans(x, rest) == Spans(y, rest))
  }

  lemma ReplaceOutline(pre: seq<Info>, x: seq<Info>, y: seq<Info>, post: seq<Info>, below: int)
    requires SameOutline(x, y)
    ensures Chain(pre + x + post, below) <==> Chain(pre + y + post, below)
    ensures Spans(pre + x + post, []) == Spans(pre + y + post, [])
  {
    hide Chain, Spans;
    ChainConcat(pre + x, post, below);
    ChainConcat(pre + y, post, below);
    ChainConcat(pre, x, Below(post, below));
    ChainConcat(pre, y, Below(post, below));
    SpansConcat(pre + x, post, []);
    SpansConcat(pre + y, post, []);
    SpansConcat(pre, x, Spans(post, []));
    SpansConcat(pre, y, Spans(post, []));
  }

  /** Carving a block off a range keeps its outline. */
  lemma CarvedOutline(x: Info, at: nat, size: nat, rec: nat, role: Role)
    requires x.Wf() && x.start + x.size <= at && at + size <= x.end && size > 0
    ensures SameOutline([x], Carved(x, at, size, rec, role))
  {
    var c := Carved(x, at, size, rec, role);
    assert c[1..] == [x.(end := at)];
    forall below ensures Chain([x], below) <==> Chain(c, below) {
      assert Chain(c[1..], below) <==> x.(end := at).Wf() && LinkTo(x, below);
    }
    forall rest ensures Spans([x], rest) == Spans(c, rest) {
      CarvedSpans(x, at, size, rec, role, rest);
    }
  }

  lemma CarvedSpans(x: Info, at: nat, size: nat, rec: nat, role: Role, rest: seq<Region>)
    requires size > 0
    ensures Spans([x], rest) == Spans(Carved(x, at, size, rec, role), rest)
  {
    var c := Carved(x, at, size, rec, role);
    assert c[1..] == [x.(end := at)] && c[1..][1..] == [] && [x][1..] == [];
  }

  // ----- what the operations keep

  const RECORD_SIZE: nat := 44
  const DATA_OFFSET: nat := 20

  /** A bookkeeping node describes the block its own record lives in (unless still on the stack, 0). */
  predicate OkDetail(x: Info) {
    x.role.Detail? ==> x.size == RECORD_SIZE && (x.rec == 0 || x.rec == x.start)
  }

  ghost predicate OkDetails(l: seq<Info>) {
    forall i :: 0 <= i < |l| ==> OkDetail(l[i])
  }

  /** A well-formed list whose regions do not overlap. */
  ghost predicate GoodZone(l: seq<Info>) {
    Chain(l, -1) && Disjoint(Spans(l, [])) && OkDetails(l)
  }

  ghost predicate SameSpans(x: seq<Info>, y: seq<Info>) {
    Spans(x, []) == Spans(y, [])
  }

  lemma Around(l: seq<Info>, i: nat)
    requires i < |l|
    ensures l == l[..i] + [l[i]] + l[i + 1..]
    ensures i + 1 < |l| ==> l == l[..i] + [l[i], l[i + 1]] + l[i + 2..]
  {
  }

  /** The effect of `alloc_new` on a list in which it finds room. */
  lemma AllocNewShape(l: seq<Info>, size: nat, k: nat, rec: nat, role: Role)
    requires GoodZone(l) && 0 < size && k <= 32 && size + Pow2(k) <= M
    requires FirstFit(l, size, k) < |l|
    ensures var r, i := AllocNew(l, size, k, rec, role), FirstFit(l, size, k);
            && Chain(r.0, -1) && SameSpans(l, r.0)
            && r.1 > 0 && r.1 % Pow2(k) == 0
            && l[i].start + l[i].size <= r.1 && r.1 + size <= l[i].end
            && l[i].Wf()
  {
    hide Chain, Spans, FirstFit, Fit;
    var i := FirstFit(l, size, k);
    ChainAt(l, -1, i);
    FitExact(l[i], size, k);
    var at := Fit(l[i], size, k);
    CarvedOutline(l[i], at, size, rec, role);
    ReplaceOutline(l[..i], [l[i]], Carved(l[i], at, size, rec, role), l[i + 1..], -1);
    Around(l, i);
  }

  lemma CountAllocNew(l: seq<Info>, size: nat, k: nat, rec: nat, role: Role, p: Info -> bool)
    requires k <= 32 && FirstFit(l, size, k) < |l| && EndBlind(p)
    ensures var at := AllocNew(l, size, k, rec, role).1;
            Count(AllocNew(l, size, k, rec, role).0, p)
            == Count(l, p) + if p(Info(at, at, size, rec, role)) then 1 else 0
  {
    hide FirstFit, Fit;
    var i := FirstFit(l, size, k);
    var at := Fit(l[i], size, k);
    var c := Carved(l[i], at, size, rec, role);
    Around(l, i);
    CountConcat(l[..i] + [l[i]], l[i + 1..], p);
    CountConcat(l[..i], [l[i]], p);
    CountConcat(l[..i] + c, l[i + 1..], p);
    CountConcat(l[..i], c, p);
    assert c[1..] == [l[i].(end := at)];
    assert p(c[0]) == p(c[0].(end := at));
    assert p(c[1]) == p(l[i]);
    assert Count(c[1..], p) == Count([l[i]], p);
  }

  /** Freeing what was just allocated restores the list exactly. */
  lemma AllocThenFree(l: seq<Info>, size: nat, k: nat, rec: nat, role: Role)
    requires k <= 32 && FirstFit(l, size, k) < |l|
    ensures FirstFit(l, size, k) < |AllocNew(l, size, k, rec, role).0|
    ensures AllocFree(AllocNew(l, size, k, rec, role).0, FirstFit(l, size, k)) == l
  {
    hide FirstFit, Fit;
    var i := FirstFit(l, size, k);
    Around(l, i);
  }

  /** No block starts where there was free space. */
  lemma FreeSpaceUnused(l: seq<Info>, i: nat, at: nat, j: nat)
    requires GoodZone(l) && i < |l| && j < |l|
    requires l[i].start + l[i].size <= at < l[i].end && l[j].Live()
    ensures l[j].start != at
  {
    hide Chain, Spans;
    ChainAt(l, -1, j);
    if i < j { NodesApart(l, i, j); } else if j < i { NodesApart(l, j, i); }
  }

  /** The effect of `alloc_free` on a block: its space always goes to its successor. */
  lemma AllocFreeShape(l: seq<Info>, i: nat)
    requires GoodZone(l) && i < |l| && l[i].Live()
    ensures i + 1 < |l| && l[i + 1].end == l[i].start
    ensures Chain(AllocFree(l, i), -1) && SameSpans(l, AllocFree(l, i))
  {
    hide Spans;
    ChainAt(l, -1, i);
    ChainAt(l, -1, i + 1);
    var x := l[i + 1].(end := l[i].end);
    CarvedOutline(x, l[i].start, l[i].size, l[i].rec, l[i].role);
    assert Carved(x, l[i].start, l[i].size, l[i].rec, l[i].role) == [l[i], l[i + 1]];
    hide Chain;
    ReplaceOutline(l[..i], [x], [l[i], l[i + 1]], l[i + 2..], -1);
    Around(l, i);
  }

  lemma AllocFreeGood(l: seq<Info>, i: nat)
    requires GoodZone(l) && i < |l| && l[i].Live()
    ensures GoodZone(AllocFree(l, i))
  {
    hide Spans, Chain;
    AllocFreeShape(l, i);
    var l' := AllocFree(l, i);
    forall j | 0 <= j < |l'| ensures OkDetail(l'[j]) {
      if j < i { assert l'[j] == l[j]; } else { assert l'[j] == l[j + 1].(end := l'[j].end); }
    }
  }

  lemma CountAllocFree(l: seq<Info>, i: nat, p: Info -> bool)
    requires i < |l| && EndBlind(p)
    ensures Count(AllocFree(l, i), p) == Count(l, p) - if p(l[i]) then 1 else 0
  {
    Around(l, i);
    CountConcat(l[..i] + [l[i]], l[i + 1..], p);
    CountConcat(l[..i], [l[i]], p);
    CountConcat(l[..i], l[i + 1..], p);
    if i + 1 < |l| {
      var x := l[i + 1].(end := l[i].end);
      assert p(x) == p(l[i + 1]);
      CountConcat(l[..i] + [x], l[i + 2..], p);
      CountConcat(l[..i], [x], p);
      CountConcat([l[i + 1]], l[i + 2..], p);
      assert [l[i + 1]] + l[i + 2..] == l[i + 1..];
    }
  }

  // ----- alloc_add on one zone

  /** The regions with one more, before the first that starts below it. */
  function InsertRegion(rs: seq<Region>, r: Region): seq<Region> {
    if rs == [] || rs[0].start < r.start then [r] + rs else [rs[0]] + InsertRegion(rs[1..], r)
  }

  lemma {:induction false} InsertRegionAt(p: seq<Region>, q: seq<Region>, r: Region)
    requires (forall i :: 0 <= i < |p| ==> p[i].start >= r.start) && (q != [] ==> q[0].start < r.start)
    ensures InsertRegion(p + q, r) == p + [r] + q
  {
    if p == [] {
      assert p + q == q;
    } else {
      InsertRegionAt(p[1..], q, r);
      assert (p + q)[1..] == p[1..] + q;
    }
  }

  lemma {:induction false} InsertRegionDisjoint(rs: seq<Region>, r: Region)
    requires Disjoint(rs) && forall i :: 0 <= i < |rs| ==> Apart(rs[i], r)
    ensures Disjoint(InsertRegion(rs, r))
    ensures forall q :: q in InsertRegion(rs, r) <==> q == r || q in rs
  {
    if rs == [] || rs[0].start < r.start {
    } else {
      InsertRegionDisjoint(rs[1..], r);
      var t := InsertRegion(rs[1..], r);
      forall j | 0 <= j < |t| ensures Apart(rs[0], t[j]) {
        assert t[j] in t;
      }
    }
  }

  /** A list that ends in a marker may be followed by anything. */
  ghost predicate Closed(l: seq<Info>) {
    l == [] || !l[|l| - 1].Live()
  }

  lemma {:induction false} ClosedChain(l: seq<Info>, below: int, below': int)
    requires Closed(l) && Chain(l, below)
    ensures Chain(l, below')
  {
    if |l| > 1 { ClosedChain(l[1..], below, below'); }
  }

  lemma SpansCons(l: seq<Info>, rest: seq<Region>)
    requires l != []
    ensures var t := Spans(l[1..], rest);
            Spans(l, rest) == if !l[0].Live() then [Region(l[0].start, l[0].end)] + t
                              else if t == [] then [] else [Region(t[0].start, l[0].end)] + t[1..]
  {
  }

  lemma JoinSpans(r: Region, t: seq<Region>, rest: seq<Region>)
    ensures [r] + (t + rest) == [r] + t + rest
    ensures t != [] ==> (t + rest)[0] == t[0] && [r] + (t + rest)[1..] == [r] + t[1..] + rest
  {
  }

  lemma {:induction false} ClosedSpans(l: seq<Info>, rest: seq<Region>)
    requires Closed(l)
    ensures Spans(l, rest) == Spans(l, []) + rest
    ensures l != [] ==> Spans(l, []) != []
  {
    if l == [] {
      assert Spans(l, []) == [] && Spans(l, rest) == rest;
    } else {
      ClosedSpans(l[1..], rest);
      hide Spans;
      SpansCons(l, rest);
      SpansCons(l, []);
      var t := Spans(l[1..], []);
      JoinSpans(Region(if l[0].Live() then t[0].start else l[0].start, l[0].end), t, rest);
    }
  }

  /** The region of every span of a closed list starts where one of its markers does. */
  lemma {:induction false} SpanMarker(l: seq<Info>, g: nat) returns (i: nat)
    requires Closed(l) && g < |Spans(l, [])|
    ensures i < |l| && !l[i].Live() && l[i].start == Spans(l, [])[g].start
  {
    if !l[0].Live() && g == 0 {
      i := 0;
    } else {
      i := SpanMarker(l[1..], if l[0].Live() then g else g - 1);
      i := i + 1;
    }
  }

  /** A new region never falls between a block and the range that ends where the block starts. */
  lemma NoBlockSplit(l: seq<Info>, start: nat, end: nat)
    requires GoodZone(l) && start <= end
    requires forall g :: 0 <= g < |Spans(l, [])| ==> Apart(Spans(l, [])[g], Region(start, end))
    ensures Closed(l[..InsertPosition(l, start)])
  {
    hide Spans, Group, Chain;
    var i := InsertPosition(l, start);
    if i > 0 && l[i - 1].Live() {
      ChainAt(l, -1, i - 1);
      InSpan(l, i - 1);
      InSpan(l, i);
      LiveGroup(l, i - 1);
      assert false;
    }
  }

  /** A block is in the same region as the range after it. */
  lemma {:induction false} LiveGroup(l: seq<Info>, i: nat)
    requires i + 1 <= |l| && l[i].Live()
    ensures Group(l, i) == Group(l, i + 1)
  {
    if i == 0 {
    } else {
      LiveGroup(l[1..], i - 1);
    }
  }

  lemma InsertMarkerShape(l: seq<Info>, start: nat, end: nat, rec: nat)
    requires GoodZone(l) && start <= end < M && (start == 0 ==> end == 0)
    requires forall g :: 0 <= g < |Spans(l, [])| ==> Apart(Spans(l, [])[g], Region(start, end))
    ensures GoodZone(InsertMarker(l, start, end, rec))
    ensures Spans(InsertMarker(l, start, end, rec), []) == InsertRegion(Spans(l, []), Region(start, end))
  {
    hide Spans, Chain, InsertRegion;
    var i := InsertPosition(l, start);
    var pre, m, post := l[..i], Info(start, end, 0, rec, Data), l[i..];
    assert l == pre + post;
    NoBlockSplit(l, start, end);
    ChainConcat(pre, post, -1);
    MarkerChain(pre, m, post);
    MarkerSpans(pre, m, post);
    var p, q := Spans(pre, []), Spans(post, []);
    forall g | 0 <= g < |p| ensures p[g].start >= start {
      var j := SpanMarker(pre, g);
      assert pre[j] == l[j];
    }
    if q != [] {
      SpansNonempty(post);
      InSpan(post, 0);
      FirstGroup(post);
    }
    InsertRegionAt(p, q, Region(start, end));
    InsertRegionDisjoint(p + q, Region(start, end));
    var l' := InsertMarker(l, start, end, rec);
    forall j | 0 <= j < |l'| ensures OkDetail(l'[j]) {
      if j < i { assert l'[j] == l[j]; } else if j > i { assert l'[j] == l[j - 1]; }
    }
  }

  lemma FirstGroup(l: seq<Info>)
    ensures Group(l, 0) == 0
  {
  }

  lemma SpansNonempty(l: seq<Info>)
    requires Spans(l, []) != []
    ensures l != []
  {
  }

  lemma MarkerChain(pre: seq<Info>, m: Info, post: seq<Info>)
    requires Closed(pre) && Chain(pre, Below(post, -1)) && Chain(post, -1) && m.Wf() && !m.Live()
    ensures Chain(pre + [m] + post, -1)
  {
    ChainConcat(pre + [m], post, -1);
    ChainConcat(pre, [m], Below(post, -1));
    ClosedChain(pre, Below(post, -1), m.end);
  }

  lemma MarkerSpans(pre: seq<Info>, m: Info, post: seq<Info>)
    requires Closed(pre) && !m.Live()
    ensures Spans(pre + post, []) == Spans(pre, []) + Spans(post, [])
    ensures Spans(pre + [m] + post, []) == Spans(pre, []) + [Region(m.start, m.end)] + Spans(post, [])
  {
    SpansConcat(pre, post, []);
    ClosedSpans(pre, Spans(post, []));
    SpansConcat(pre + [m], post, []);
    SpansConcat(pre, [m], Spans(post, []));
    assert Spans([m], Spans(post, [])) == [Region(m.start, m.end)] + Spans(post, []);
    ClosedSpans(pre, [Region(m.start, m.end)] + Spans(post, []));
  }

  lemma CountInsertMarker(l: seq<Info>, start: nat, end: nat, rec: nat, p: Info -> bool)
    ensures Count(InsertMarker(l, start, end, rec), p)
            == Count(l, p) + if p(Info(start, end, 0, rec, Data)) then 1 else 0
  {
    var i := InsertPosition(l, start);
    var m := Info(start, end, 0, rec, Data);
    assert l == l[..i] + l[i..];
    CountConcat(l[..i], l[i..], p);
    CountConcat(l[..i] + [m], l[i..], p);
    CountConcat(l[..i], [m], p);
  }

  lemma {:induction false} CountIndex(l: seq<Info>, p: Info -> bool) returns (i: nat)
    requires Count(l, p) > 0
    ensures i < |l| && p(l[i])
  {
    if p(l[0]) {
      i := 0;
    } else {
      i := CountIndex(l[1..], p);
      i := i + 1;
    }
  }

  lemma {:induction false} CountAt(l: seq<Info>, p: Info -> bool, i: nat)
    requires i < |l| && p(l[i])
    ensures Count(l, p) > 0
  {
    if i == 0 {
    } else {
      CountAt(l[1..], p, i - 1);
    }
  }

  lemma {:induction false} CountTwo(l: seq<Info>, p: Info -> bool, i: nat, j: nat)
    requires i < j < |l| && p(l[i]) && p(l[j])
    ensures Count(l, p) >= 2
  {
    if i == 0 {
      CountAt(l[1..], p, j - 1);
    } else {
      CountTwo(l[1..], p, i - 1, j - 1);
    }
  }

  lemma {:induction false} CountTwoIndex(l: seq<Info>, p: Info -> bool) returns (i: nat, j: nat)
    requires Count(l, p) >= 2
    ensures i < j < |l| && p(l[i]) && p(l[j])
  {
    if p(l[0]) {
      i := 0;
      j := CountIndex(l[1..], p);
    } else {
      i, j := CountTwoIndex(l[1..], p);
      i := i + 1;
    }
    j := j + 1;
  }

  // ----- the regions in the order they were added

  /** The order in which a zone's list keeps the regions added to it. */
  function Placed(rs: seq<Region>): seq<Region> {
    if rs == [] then [] else InsertRegion(Placed(rs[..|rs| - 1]), rs[|rs| - 1])
  }

  ghost predicate Sorted(rs: seq<Region>) {
    forall i, j :: 0 <= i < j < |rs| ==> rs[i].start >= rs[j].start
  }

  /** `t` is `rs` with `r` inserted before its element `n`. */
  ghost predicate InsertedAt(rs: seq<Region>, r: Region, n: nat, t: seq<Region>) {
    n <= |rs| && |t| == |rs| + 1 && t[n] == r &&
    (forall i :: 0 <= i < n ==> t[i] == rs[i]) && forall i :: n < i < |t| ==> t[i] == rs[i - 1]
  }

  lemma {:induction false} InsertRegionSplit(rs: seq<Region>, r: Region) returns (n: nat)
    requires Sorted(rs)
    ensures InsertedAt(rs, r, n, InsertRegion(rs, r))
    ensures forall i :: 0 <= i < n ==> rs[i].start >= r.start
    ensures forall i :: n <= i < |rs| ==> rs[i].start < r.start
  {
    if rs == [] || rs[0].start < r.start {
      n := 0;
    } else {
      var m := InsertRegionSplit(rs[1..], r);
      n := m + 1;
      assert forall i :: 1 <= i < |rs| ==> rs[i] == rs[1..][i - 1];
    }
  }

  lemma InsertRegionSorted(rs: seq<Region>, r: Region)
    requires Sorted(rs)
    ensures Sorted(InsertRegion(rs, r))
  {
    hide InsertRegion;
    var _ := InsertRegionSplit(rs, r);
  }

  lemma {:induction false} PlacedSame(rs: seq<Region>)
    requires Disjoint(rs)
    ensures Disjoint(Placed(rs)) && Sorted(Placed(rs)) && forall q :: q in Placed(rs) <==> q in rs
  {
    if rs == [] {
    } else {
      var n := |rs| - 1;
      PlacedSame(rs[..n]);
      var t := Placed(rs[..n]);
      assert rs == rs[..n] + [rs[n]];
      forall i | 0 <= i < |t| ensures Apart(t[i], rs[n]) {
        assert t[i] in t && t[i] in rs[..n];
      }
      InsertRegionDisjoint(t, rs[n]);
      InsertRegionSorted(t, rs[n]);
    }
  }

  /** An empty region at `p` comes before the region that holds `p`. */
  ghost predicate EmptyAhead(rs: seq<Region>, p: nat) {
    exists i, j :: 0 <= i < j < |rs| && rs[i] == Region(p, p) && rs[j].start <= p < rs[j].end
  }

  lemma AheadSnoc(rs: seq<Region>, r: Region, p: nat)
    ensures EmptyAhead(rs + [r], p) <==> EmptyAhead(rs, p) || (Region(p, p) in rs && r.start <= p < r.end)
  {
    var t := rs + [r];
    if EmptyAhead(rs, p) {
      var i, j :| 0 <= i < j < |rs| && rs[i] == Region(p, p) && rs[j].start <= p < rs[j].end;
      assert t[i] == Region(p, p) && t[j] == rs[j];
    }
    if Region(p, p) in rs && r.start <= p < r.end {
      var i :| 0 <= i < |rs| && rs[i] == Region(p, p);
      assert t[i] == Region(p, p) && t[|rs|] == r;
    }
    if EmptyAhead(t, p) {
      var i, j :| 0 <= i < j < |t| && t[i] == Region(p, p) && t[j].start <= p < t[j].end;
      assert rs[i] == t[i];
      if j < |rs| { assert rs[j] == t[j]; }
    }
  }

  lemma AheadInserted(rs: seq<Region>, r: Region, n: nat, t: seq<Region>, p: nat)
    requires InsertedAt(rs, r, n, t)
    ensures EmptyAhead(rs, p) ==> EmptyAhead(t, p)
  {
    if EmptyAhead(rs, p) {
      var i, j :| 0 <= i < j < |rs| && rs[i] == Region(p, p) && rs[j].start <= p < rs[j].end;
      var x, y := if i < n then i else i + 1, if j < n then j else j + 1;
      assert t[x] == rs[i] && t[y] == rs[j];
    }
  }

  lemma AheadInsert(rs: seq<Region>, r: Region, p: nat)
    requires Sorted(rs) && forall i :: 0 <= i < |rs| ==> Apart(rs[i], r)
    ensures EmptyAhead(InsertRegion(rs, r), p) <==> EmptyAhead(rs, p) || (Region(p, p) in rs && r.start <= p < r.end)
  {
    hide InsertRegion;
    var n := InsertRegionSplit(rs, r);
    var t := InsertRegion(rs, r);
    AheadInserted(rs, r, n, t, p);
    if Region(p, p) in rs && r.start <= p < r.end {
      var i :| 0 <= i < |rs| && rs[i] == Region(p, p);
      assert Apart(rs[i], r);
      assert i < n && t[i] == rs[i] && t[n] == r;
    }
    if EmptyAhead(t, p) {
      var i, j :| 0 <= i < j < |t| && t[i] == Region(p, p) && t[j].start <= p < t[j].end;
      AheadRemoved(rs, r, n, t, p, i, j);
    }
  }

  lemma AheadRemoved(rs: seq<Region>, r: Region, n: nat, t: seq<Region>, p: nat, i: nat, j: nat)
    requires InsertedAt(rs, r, n, t) && forall k :: 0 <= k < |rs| ==> Apart(rs[k], r)
    requires forall k :: n <= k < |rs| ==> rs[k].start < r.start
    requires i < j < |t| && t[i] == Region(p, p) && t[j].start <= p < t[j].end
    ensures EmptyAhead(rs, p) || (Region(p, p) in rs && r.start <= p < r.end)
  {
    if j == n {
      assert rs[i] == t[i];
    } else if i != n {
      var x, y := if i < n then i else i - 1, if j < n then j else j - 1;
      assert rs[x] == t[i] && rs[y] == t[j];
    }
  }

  /** The list keeps empty regions ahead of exactly those that were added after them. */
  lemma {:induction false} AheadPlaced(rs: seq<Region>, p: nat)
    requires Disjoint(rs)
    ensures EmptyAhead(Placed(rs), p) <==> EmptyAhead(rs, p)
  {
    if rs == [] {
    } else {
      var n := |rs| - 1;
      var t := Placed(rs[..n]);
      AheadPlaced(rs[..n], p);
      PlacedSame(rs[..n]);
      assert rs == rs[..n] + [rs[n]];
      forall i | 0 <= i < |t| ensures Apart(t[i], rs[n]) {
        assert t[i] in t && t[i] in rs[..n];
      }
      AheadSnoc(rs[..n], rs[n], p);
      AheadInsert(t, rs[n], p);
    }
  }

  // ----- what the ranges cover, and their order

  /** The ranges cover exactly the regions. */
  lemma {:induction false} CoverExact(l: seq<Info>, a: int)
    requires Chain(l, -1)
    ensures Covered(l, a) <==> InRegions(Spans(l, []), a)
  {
    if l == [] {
    } else {
      CoverExact(l[1..], a);
      var t := Spans(l[1..], []);
      if l[0].Live() {
        SpansTop(l[1..]);
        InSpan(l[1..], 0);
        InRegionsCons(t[0], t[1..], a);
        InRegionsCons(Region(t[0].start, l[0].end), t[1..], a);
        assert t == [t[0]] + t[1..];
      } else {
        InRegionsCons(Region(l[0].start, l[0].end), t, a);
      }
    }
  }

  lemma InRegionsCons(r: Region, rs: seq<Region>, a: int)
    ensures InRegions([r] + rs, a) <==> r.start <= a < r.end || InRegions(rs, a)
  {
    var t := [r] + rs;
    assert t[0] == r;
    if InRegions(rs, a) {
      var i :| 0 <= i < |rs| && rs[i].start <= a < rs[i].end;
      assert t[i + 1] == rs[i];
    }
    if InRegions(t, a) {
      var i :| 0 <= i < |t| && t[i].start <= a < t[i].end;
      if i > 0 { assert rs[i - 1] == t[i]; }
    }
  }

  ghost predicate Descends(l: seq<Info>) {
    forall i, j :: 0 <= i < j < |l| ==> l[i].start >= l[j].end
  }

  /** The first range and the marker of a region. */
  lemma {:induction false} SpanNodes(l: seq<Info>, g: nat) returns (i: nat, j: nat)
    requires Chain(l, -1) && g < |Spans(l, [])|
    ensures i < |l| && Group(l, i) == g && l[i].end == Spans(l, [])[g].end
    ensures j < |l| && Group(l, j) == g && !l[j].Live() && l[j].start == Spans(l, [])[g].start
  {
    if l[0].Live() {
      i, j := SpanNodes(l[1..], g);
      i, j := if g == 0 then 0 else i + 1, j + 1;
    } else if g == 0 {
      i, j := 0, 0;
    } else {
      i, j := SpanNodes(l[1..], g - 1);
      i, j := i + 1, j + 1;
    }
  }

  /** Ranges descend unless an empty region stands ahead of one that starts at its address. */
  lemma Descending(l: seq<Info>)
    requires GoodZone(l) && Sorted(Spans(l, []))
    ensures Descends(l) <==> forall p: nat :: !EmptyAhead(Spans(l, []), p)
  {
    hide Chain, Spans, Group;
    var rs := Spans(l, []);
    if p: nat :| EmptyAhead(rs, p) {
      var g, h :| 0 <= g < h < |rs| && rs[g] == Region(p, p) && rs[h].start <= p < rs[h].end;
      var _, i := SpanNodes(l, g);
      var j, _ := SpanNodes(l, h);
      if j < i { GroupOrder(l, j, i); }
      assert l[i].start < l[j].end;
    } else {
      forall i, j | 0 <= i < j < |l| ensures l[i].start >= l[j].end {
        DescendingPair(l, i, j);
      }
    }
  }

  lemma DescendingPair(l: seq<Info>, i: nat, j: nat)
    requires GoodZone(l) && Sorted(Spans(l, [])) && i < j < |l|
    requires forall p: nat :: !EmptyAhead(Spans(l, []), p)
    ensures l[i].start >= l[j].end
  {
    hide Chain, Spans, Group;
    var rs := Spans(l, []);
    GroupOrder(l, i, j);
    InSpan(l, i);
    InSpan(l, j);
    ChainAt(l, -1, i);
    var g, h := Group(l, i), Group(l, j);
    if g == h {
      SameGroup(l, i, j);
    } else if rs[g].end <= rs[h].start {
      assert rs[g] == Region(rs[h].start, rs[h].start);
      assert !EmptyAhead(rs, rs[h].start);
    }
  }

  /** Which does happen: an empty region, then one that starts at its address. */
  lemma AscendingList()
    ensures var l := InsertMarker(InsertMarker([], 4096, 4096, 1), 4096, 8192, 2);
            GoodZone(l) && !Descends(l)
  {
    InsertMarkerShape([], 4096, 4096, 1);
    var one := InsertMarker([], 4096, 4096, 1);
    assert one == [Info(4096, 4096, 0, 1, Data)];
    InsertMarkerShape(one, 4096, 8192, 2);
    var l := InsertMarker(one, 4096, 8192, 2);
    assert l == [Info(4096, 4096, 0, 1, Data), Info(4096, 8192, 0, 2, Data)];
  }
}
