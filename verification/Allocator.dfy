/**
 The tracked allocator over five zones: every block and every added region has a bookkeeping
 record, which is itself a block in one of the temporary zones.
 */
module Allocator {
  import opened Words
  import opened Zones

  // The order of the `Zones` array.
  const TMP_LOW := 0
  const LOW := 1
  const FSEG := 2
  const TMP_HIGH := 3
  const HIGH := 4
  const ZONES := 5

  const MIN_ALIGN_LOG := 4
  const DEFAULT_HANDLE: nat := 0xFFFF_FFFF

  /**
   `zones` are the lists; `handles` maps the address of each bookkeeping record to its handle
   field; `added` is the history of the regions each zone received.
   */
  datatype State = State(zones: seq<seq<Info>>, handles: map<nat, nat>, added: seq<seq<Region>>)

  /** The physical address of a node: `detailinfo` is first in its record, `datainfo` at offset 20. */
  function Address(x: Info): nat {
    x.rec + if x.role.Data? then DATA_OFFSET else 0
  }

  /** Number of nodes in all zones that satisfy `p`. */
  function Total(zones: seq<seq<Info>>, p: Info -> bool): nat {
    if zones == [] then 0 else Count(zones[0], p) + Total(zones[1..], p)
  }

  lemma {:induction false} TotalUpdate(zones: seq<seq<Info>>, z: nat, l: seq<Info>, p: Info -> bool)
    requires z < |zones|
    ensures Total(zones[z := l], p) == Total(zones, p) - Count(zones[z], p) + Count(l, p)
  {
    if z > 0 {
      TotalUpdate(zones[1..], z - 1, l, p);
      assert zones[z := l][1..] == zones[1..][z - 1 := l];
    } else {
      assert zones[z := l][1..] == zones[1..];
    }
  }

  lemma {:induction false} TotalIndex(zones: seq<seq<Info>>, p: Info -> bool) returns (z: nat, i: nat)
    requires Total(zones, p) > 0
    ensures z < |zones| && i < |zones[z]| && p(zones[z][i])
  {
    if Count(zones[0], p) > 0 {
      i := CountIndex(zones[0], p);
      z := 0;
    } else {
      z, i := TotalIndex(zones[1..], p);
      z := z + 1;
    }
  }

  lemma {:induction false} TotalAt(zones: seq<seq<Info>>, p: Info -> bool, z: nat, i: nat)
    requires z < |zones| && i < |zones[z]| && p(zones[z][i])
    ensures Total(zones, p) > 0
  {
    if z == 0 {
      CountAt(zones[0], p, i);
    } else {
      TotalAt(zones[1..], p, z - 1, i);
    }
  }

  lemma {:induction false} TotalTwoIndex(zones: seq<seq<Info>>, p: Info -> bool)
    returns (z: nat, i: nat, w: nat, j: nat)
    requires Total(zones, p) >= 2
    ensures z < |zones| && i < |zones[z]| && p(zones[z][i])
    ensures w < |zones| && j < |zones[w]| && p(zones[w][j])
    ensures z != w || i != j
  {
    if Count(zones[0], p) >= 2 {
      i, j := CountTwoIndex(zones[0], p);
      z, w := 0, 0;
    } else if Count(zones[0], p) == 1 {
      i := CountIndex(zones[0], p);
      w, j := TotalIndex(zones[1..], p);
      z, w := 0, w + 1;
    } else {
      z, i, w, j := TotalTwoIndex(zones[1..], p);
      z, w := z + 1, w + 1;
    }
  }

  /** Two different positions count twice. */
  lemma {:induction false} TotalTwo(zones: seq<seq<Info>>, p: Info -> bool, z: nat, i: nat, w: nat, j: nat)
    requires z < |zones| && i < |zones[z]| && p(zones[z][i])
    requires w < |zones| && j < |zones[w]| && p(zones[w][j])
    requires z != w || i != j
    ensures Total(zones, p) >= 2
  {
    if z > 0 && w > 0 {
      TotalTwo(zones[1..], p, z - 1, i, w - 1, j);
    } else if z == 0 && w == 0 {
      if i < j { CountTwo(zones[0], p, i, j); } else { CountTwo(zones[0], p, j, i); }
    } else if z == 0 {
      CountAt(zones[0], p, i);
      TotalAt(zones[1..], p, w - 1, j);
    } else {
      CountAt(zones[0], p, j);
      TotalAt(zones[1..], p, z - 1, i);
    }
  }

  // ----- the invariant

  /** The lists are well formed and made of exactly the added regions, which do not overlap. */
  ghost predicate Base(zones: seq<seq<Info>>, added: seq<seq<Region>>) {
    && |zones| == ZONES && |added| == ZONES
    && (forall z :: 0 <= z < ZONES ==> GoodZone(zones[z]) && Spans(zones[z], []) == Placed(added[z]))
    && RegionsApart(added)
  }

  ghost predicate RegionsApart(added: seq<seq<Region>>) {
    && (forall z :: 0 <= z < |added| ==> Disjoint(added[z]))
    && forall z, w, i, j :: 0 <= z < w < |added| && 0 <= i < |added[z]| && 0 <= j < |added[w]|
                            ==> Apart(added[z][i], added[w][j])
  }

  /** A region that `alloc_add` may be given: below 2^32, overlapping none, and empty if it starts at 0. */
  ghost predicate Addable(added: seq<seq<Region>>, start: nat, end: nat) {
    && start <= end < M && (start == 0 ==> end == 0)
    && forall w, i :: 0 <= w < |added| && 0 <= i < |added[w]| ==> Apart(added[w][i], Region(start, end))
  }

  function ByRecord(rec: nat, role: Role): Info -> bool {
    (x: Info) => x.rec == rec && x.role == role
  }

  /** Every record in use has exactly one node of each role in the lists, and no other node exists. */
  ghost predicate Records(zones: seq<seq<Info>>, handles: map<nat, nat>) {
    && 0 !in handles
    && forall rec, role :: Total(zones, ByRecord(rec, role)) == if rec in handles then 1 else 0
  }

  ghost predicate Inv(s: State) {
    Base(s.zones, s.added) && Records(s.zones, s.handles)
  }

  /** The ranges of a zone cover exactly the regions it received. */
  lemma CoverAdded(zones: seq<seq<Info>>, added: seq<seq<Region>>, z: nat, a: int)
    requires Base(zones, added) && z < ZONES
    ensures Covered(zones[z], a) <==> InRegions(added[z], a)
  {
    hide Covered, Chain, Spans, Placed;
    CoverExact(zones[z], a);
    PlacedSame(added[z]);
    if InRegions(Placed(added[z]), a) {
      var i :| 0 <= i < |Placed(added[z])| && Placed(added[z])[i].start <= a < Placed(added[z])[i].end;
      assert Placed(added[z])[i] in added[z];
    }
    if InRegions(added[z], a) {
      var i :| 0 <= i < |added[z]| && added[z][i].start <= a < added[z][i].end;
      assert added[z][i] in Placed(added[z]);
    }
  }

  /** The region that a range is part of. */
  ghost function RegionOf(l: seq<Info>, i: nat): Region
    requires i < |l|
  {
    if Group(l, i) < |Spans(l, [])| then Spans(l, [])[Group(l, i)] else Region(0, 0)
  }

  lemma InRegion(zones: seq<seq<Info>>, added: seq<seq<Region>>, z: nat, i: nat)
    requires Base(zones, added) && z < ZONES && i < |zones[z]|
    ensures Group(zones[z], i) < |Spans(zones[z], [])| && zones[z][i].Wf()
    ensures var r := RegionOf(zones[z], i);
            && r in added[z] && r.start <= zones[z][i].start && zones[z][i].end <= r.end
            && (!zones[z][i].Live() ==> zones[z][i].start == r.start)
  {
    hide Chain, Spans, Placed, Group, Disjoint;
    InSpan(zones[z], i);
    ChainAt(zones[z], -1, i);
    PlacedSame(added[z]);
    assert RegionOf(zones[z], i) in Placed(added[z]);
  }

  lemma OtherZones(added: seq<seq<Region>>, z: nat, r: Region, w: nat, q: Region)
    requires RegionsApart(added) && z < |added| && w < |added| && z != w && r in added[z] && q in added[w]
    ensures Apart(r, q)
  {
    var i :| 0 <= i < |added[z]| && added[z][i] == r;
    var j :| 0 <= j < |added[w]| && added[w][j] == q;
    if z < w { assert Apart(added[z][i], added[w][j]); } else { assert Apart(added[w][j], added[z][i]); }
  }

  /** Two ranges at different positions do not overlap. */
  lemma RangesApart(zones: seq<seq<Info>>, added: seq<seq<Region>>, z: nat, i: nat, w: nat, j: nat)
    requires Base(zones, added) && z < ZONES && w < ZONES && i < |zones[z]| && j < |zones[w]|
    requires z != w || i != j
    ensures zones[z][i].end <= zones[w][j].start || zones[w][j].end <= zones[z][i].start
  {
    hide Chain, Spans, Placed, RegionOf, RegionsApart;
    if z == w {
      if i < j { NodesApart(zones[z], i, j); } else { NodesApart(zones[z], j, i); }
    } else {
      InRegion(zones, added, z, i);
      InRegion(zones, added, w, j);
      OtherZones(added, z, RegionOf(zones[z], i), w, RegionOf(zones[w], j));
    }
  }

  /** No range starts strictly inside another. */
  lemma StartsOutside(zones: seq<seq<Info>>, added: seq<seq<Region>>, z: nat, i: nat, w: nat, j: nat)
    requires Base(zones, added) && z < ZONES && w < ZONES && i < |zones[z]| && j < |zones[w]|
    ensures !(zones[w][j].start < zones[z][i].start < zones[w][j].end)
  {
    hide Base;
    BaseZones(zones, added);
    InRegion(zones, added, z, i);
    if z != w || i != j { RangesApart(zones, added, z, i, w, j); }
  }

  /**
   At most one block starts at an address. Anything else that starts there is empty: the block's own
   region marker, further down the same list, or the marker of an empty region.
   */
  lemma BlockStartUnique(zones: seq<seq<Info>>, added: seq<seq<Region>>, z: nat, i: nat, w: nat, j: nat)
    requires Base(zones, added) && z < ZONES && w < ZONES && i < |zones[z]| && j < |zones[w]|
    requires zones[z][i].Live() && zones[w][j].start == zones[z][i].start && (z != w || i != j)
    ensures !zones[w][j].Live() && zones[w][j].end == zones[w][j].start
    ensures var p := zones[z][i].start;
            (z == w && i < j) || (RegionOf(zones[w], j) == Region(p, p) && Region(p, p) in added[w])
  {
    hide Base, RegionOf;
    BaseZones(zones, added);
    InRegion(zones, added, z, i);
    InRegion(zones, added, w, j);
    RangesApart(zones, added, z, i, w, j);
    RegionsOfTwo(zones, added, z, i, w, j);
  }

  /** Two ranges are of the same region, where all but the last are blocks, or of regions that are apart. */
  lemma RegionsOfTwo(zones: seq<seq<Info>>, added: seq<seq<Region>>, z: nat, i: nat, w: nat, j: nat)
    requires Base(zones, added) && z < ZONES && w < ZONES && i < |zones[z]| && j < |zones[w]| && (z != w || i != j)
    ensures || Apart(RegionOf(zones[z], i), RegionOf(zones[w], j))
            || (z == w && j < i && zones[w][j].Live())
            || (z == w && i < j)
  {
    hide Chain, Spans, Placed, Group, RegionsApart;
    InRegion(zones, added, z, i);
    InRegion(zones, added, w, j);
    if z != w {
      OtherZones(added, z, RegionOf(zones[z], i), w, RegionOf(zones[w], j));
    } else if j < i {
      if Group(zones[z], i) == Group(zones[z], j) {
        SameGroup(zones[z], j, i);
      } else {
        GroupOrder(zones[z], j, i);
      }
    }
  }

  /** A zone's list descends exactly if no empty region was added to the zone before a region that starts there. */
  lemma ZoneDescends(zones: seq<seq<Info>>, added: seq<seq<Region>>, z: nat)
    requires Base(zones, added) && z < ZONES
    ensures Descends(zones[z]) <==> forall p: nat :: !EmptyAhead(added[z], p)
  {
    hide GoodZone, Spans, Placed, EmptyAhead, Disjoint, Descends;
    PlacedSame(added[z]);
    Descending(zones[z]);
    forall p: nat ensures EmptyAhead(Placed(added[z]), p) <==> EmptyAhead(added[z], p) { AheadPlaced(added[z], p); }
  }

  // ----- operations

  /** A node whose record moved from the stack (address 0 here) to `rec`. */
  function MovedNode(x: Info, rec: nat): Info {
    if x.rec == 0 then x.(rec := rec) else x
  }

  /** The list after its stack nodes were replaced by those of the record at `rec`. */
  function Moved(l: seq<Info>, rec: nat): (r: seq<Info>)
    ensures |r| == |l|
    ensures forall i :: 0 <= i < |l| ==> r[i] == MovedNode(l[i], rec)
  {
    seq(|l|, i requires 0 <= i < |l| => MovedNode(l[i], rec))
  }

  function MovedAll(zones: seq<seq<Info>>, rec: nat): (r: seq<seq<Info>>)
    ensures |r| == |zones|
    ensures forall z :: 0 <= z < |zones| ==> r[z] == Moved(zones[z], rec)
  {
    seq(|zones|, z requires 0 <= z < |zones| => Moved(zones[z], rec))
  }

  /** Reserve a record in the high temporary zone, else in the low one; 0 if neither has room. */
  function NewDetail(zones: seq<seq<Info>>): (r: (seq<seq<Info>>, nat))
    requires |zones| == ZONES
    ensures |r.0| == ZONES
  {
    var high := AllocNew(zones[TMP_HIGH], RECORD_SIZE, MIN_ALIGN_LOG, 0, Detail);
    if high.1 != 0 then (zones[TMP_HIGH := high.0], high.1) else
      var low := AllocNew(zones[TMP_LOW], RECORD_SIZE, MIN_ALIGN_LOG, 0, Detail);
      if low.1 != 0 then (zones[TMP_LOW := low.0], low.1) else (zones, 0)
  }

  /** `malloc_palloc`: the block's address, or 0. */
  function Palloc(s: State, z: nat, size: nat, k: nat): (r: (State, nat))
    requires |s.zones| == ZONES && z < ZONES && k <= 32
  {
    if size == 0 then (s, 0) else
      var block := AllocNew(s.zones[z], size, k, 0, Data);
      if block.1 == 0 then (s, 0) else
        var i := FirstFit(s.zones[z], size, k);
        var zones := s.zones[z := block.0];
        var detail := NewDetail(zones);
        if detail.1 == 0 then
          (if i < |block.0| then s.(zones := zones[z := AllocFree(block.0, i)]) else s, 0)
        else
          (s.(zones := MovedAll(detail.0, detail.1), handles := s.handles[detail.1 := DEFAULT_HANDLE]), block.1)
  }

  /** `alloc_add`; the region is taken back when no record can be reserved for it. */
  function AddRegion(s: State, z: nat, start: nat, end: nat): (r: State)
    requires |s.zones| == ZONES && |s.added| == ZONES && z < ZONES
  {
    var zones := s.zones[z := InsertMarker(s.zones[z], start, end, 0)];
    var detail := NewDetail(zones);
    if detail.1 == 0 then s else
      State(MovedAll(detail.0, detail.1), s.handles[detail.1 := DEFAULT_HANDLE],
            s.added[z := s.added[z] + [Region(start, end)]])
  }

  // ----- the move

  lemma {:induction false} MovedChain(l: seq<Info>, rec: nat, below: int)
    ensures Chain(Moved(l, rec), below) <==> Chain(l, below)
  {
    if l == [] {
    } else {
      MovedChain(l[1..], rec, below);
      assert Moved(l, rec)[1..] == Moved(l[1..], rec);
    }
  }

  lemma {:induction false} MovedSpans(l: seq<Info>, rec: nat)
    ensures Spans(Moved(l, rec), []) == Spans(l, [])
  {
    if l == [] {
    } else {
      MovedSpans(l[1..], rec);
      assert Moved(l, rec)[1..] == Moved(l[1..], rec);
    }
  }

  lemma {:induction false} MovedCount(l: seq<Info>, rec: nat, p: Info -> bool)
    ensures Count(Moved(l, rec), p) == Count(l, x => p(MovedNode(x, rec)))
  {
    if l == [] {
    } else {
      MovedCount(l[1..], rec, p);
      assert Moved(l, rec)[1..] == Moved(l[1..], rec);
    }
  }

  lemma {:induction false} MovedTotal(zones: seq<seq<Info>>, rec: nat, p: Info -> bool)
    ensures Total(MovedAll(zones, rec), p) == Total(zones, x => p(MovedNode(x, rec)))
  {
    if zones == [] {
    } else {
      MovedTotal(zones[1..], rec, p);
      MovedCount(zones[0], rec, p);
      assert MovedAll(zones, rec)[1..] == MovedAll(zones[1..], rec);
    }
  }

  lemma {:induction false} CountSum(l: seq<Info>, p: Info -> bool, q: Info -> bool, r: Info -> bool)
    requires forall x :: p(x) <==> q(x) || r(x)
    requires forall x :: !(q(x) && r(x))
    ensures Count(l, p) == Count(l, q) + Count(l, r)
  {
    if l == [] {
    } else {
      CountSum(l[1..], p, q, r);
    }
  }

  lemma {:induction false} TotalSum(zones: seq<seq<Info>>, p: Info -> bool, q: Info -> bool, r: Info -> bool)
    requires forall x :: p(x) <==> q(x) || r(x)
    requires forall x :: !(q(x) && r(x))
    ensures Total(zones, p) == Total(zones, q) + Total(zones, r)
  {
    if zones == [] {
    } else {
      CountSum(zones[0], p, q, r);
      TotalSum(zones[1..], p, q, r);
    }
  }

  lemma {:induction false} TotalNone(zones: seq<seq<Info>>, p: Info -> bool)
    requires forall x :: !p(x)
    ensures Total(zones, p) == 0
  {
    if zones == [] {
    } else {
      if Count(zones[0], p) > 0 { var i := CountIndex(zones[0], p); }
      TotalNone(zones[1..], p);
    }
  }

  /** The stack nodes become the record's: their counts are added up and the stack's become zero. */
  lemma MovedRecords(zones: seq<seq<Info>>, rec: nat, rec': nat, role: Role)
    requires rec != 0
    ensures Total(MovedAll(zones, rec), ByRecord(rec', role))
            == if rec' == 0 then 0
               else if rec' == rec then Total(zones, ByRecord(0, role)) + Total(zones, ByRecord(rec, role))
               else Total(zones, ByRecord(rec', role))
  {
    var p := (x: Info) => ByRecord(rec', role)(MovedNode(x, rec));
    MovedTotal(zones, rec, ByRecord(rec', role));
    assert forall x: Info :: p(x) <==> MovedNode(x, rec).rec == rec' && x.role == role;
    if rec' == 0 {
      TotalNone(zones, p);
    } else if rec' == rec {
      TotalSum(zones, p, ByRecord(0, role), ByRecord(rec, role));
    } else {
      TotalSum(zones, p, ByRecord(rec', role), (x: Info) => false);
      TotalNone(zones, (x: Info) => false);
    }
  }

  lemma TotalCongruent(zones: seq<seq<Info>>, p: Info -> bool, q: Info -> bool)
    requires forall x :: p(x) == q(x)
    ensures Total(zones, p) == Total(zones, q)
  {
    TotalSum(zones, p, q, (x: Info) => false);
    TotalNone(zones, (x: Info) => false);
  }

  // ----- reserving space

  lemma BaseUpdate(zones: seq<seq<Info>>, added: seq<seq<Region>>, z: nat, l: seq<Info>)
    requires Base(zones, added) && z < ZONES && GoodZone(l) && SameSpans(zones[z], l)
    ensures Base(zones[z := l], added)
  {
    hide GoodZone, Spans, Placed, RegionsApart;
  }

  /** `alloc_new` keeps a zone good, and puts its node first-fit into free space. */
  lemma AllocNewGood(l: seq<Info>, size: nat, k: nat, role: Role)
    requires GoodZone(l) && 0 < size && k <= 32 && size + Pow2(k) <= M
    requires role.Detail? ==> size == RECORD_SIZE
    ensures var r, i := AllocNew(l, size, k, 0, role), FirstFit(l, size, k);
            && (r.1 == 0 <==> i == |l|)
            && (i == |l| ==> r.0 == l)
            && (i < |l| ==>
                && GoodZone(r.0) && SameSpans(l, r.0) && r.1 % Pow2(k) == 0
                && l[i].start + l[i].size <= r.1 && r.1 + size <= l[i].end
                && i < |r.0| && r.0[i] == Info(r.1, l[i].end, size, 0, role))
  {
    hide Chain, Spans, FirstFit, Fit;
    var i := FirstFit(l, size, k);
    if i < |l| {
      AllocNewShape(l, size, k, 0, role);
      var r := AllocNew(l, size, k, 0, role);
      forall j | 0 <= j < |r.0| ensures OkDetail(r.0[j]) {
        if j < i { assert r.0[j] == l[j]; }
        else if j == i { }
        else if j == i + 1 { assert r.0[j] == l[i].(end := r.1); }
        else { assert r.0[j] == l[j - 1]; }
      }
    }
  }

  /** A record's block is carved from free space of one of the temporary zones. */
  lemma NewDetailGood(zones: seq<seq<Info>>, added: seq<seq<Region>>) returns (w: nat, i: nat)
    requires Base(zones, added)
    ensures var r := NewDetail(zones);
            && Base(r.0, added)
            && (r.1 == 0 ==> r.0 == zones)
            && (r.1 != 0 ==>
                && w < ZONES && i < |zones[w]| && i < |r.0[w]|
                && zones[w][i].start + zones[w][i].size <= r.1 < zones[w][i].end
                && r.0[w][i].role == Detail && r.0[w][i].rec == 0 && r.0[w][i].start == r.1
                && FirstFit(zones[w], RECORD_SIZE, MIN_ALIGN_LOG) == i
                && r == (zones[w := AllocNew(zones[w], RECORD_SIZE, MIN_ALIGN_LOG, 0, Detail).0],
                         AllocNew(zones[w], RECORD_SIZE, MIN_ALIGN_LOG, 0, Detail).1))
  {
    hide GoodZone, SameSpans, FirstFit, AllocNew, Base;
    assert Pow2(MIN_ALIGN_LOG) == 16;
    BaseZones(zones, added);
    AllocNewGood(zones[TMP_HIGH], RECORD_SIZE, MIN_ALIGN_LOG, Detail);
    AllocNewGood(zones[TMP_LOW], RECORD_SIZE, MIN_ALIGN_LOG, Detail);
    w := if AllocNew(zones[TMP_HIGH], RECORD_SIZE, MIN_ALIGN_LOG, 0, Detail).1 != 0 then TMP_HIGH else TMP_LOW;
    i := FirstFit(zones[w], RECORD_SIZE, MIN_ALIGN_LOG);
    if i < |zones[w]| {
      BaseUpdate(zones, added, w, AllocNew(zones[w], RECORD_SIZE, MIN_ALIGN_LOG, 0, Detail).0);
    }
  }

  lemma BaseZones(zones: seq<seq<Info>>, added: seq<seq<Region>>)
    requires Base(zones, added)
    ensures |zones| == ZONES && |added| == ZONES && forall z :: 0 <= z < ZONES ==> GoodZone(zones[z])
  {
  }

  /** A record is never placed where another one is in use. */
  lemma FreshRecord(zones: seq<seq<Info>>, added: seq<seq<Region>>, w: nat, i: nat, at: nat)
    requires Base(zones, added) && w < ZONES && i < |zones[w]| && at != 0
    requires zones[w][i].start + zones[w][i].size <= at < zones[w][i].end
    ensures Total(zones, ByRecord(at, Detail)) == 0
  {
    hide Chain, Spans, Placed, RegionsApart, Total;
    if Total(zones, ByRecord(at, Detail)) > 0 {
      var z, j := TotalIndex(zones, ByRecord(at, Detail));
      assert OkDetail(zones[z][j]);
      ChainAt(zones[z], -1, j);
      if z != w || i != j { RangesApart(zones, added, z, j, w, i); }
      assert false;
    }
  }

  /** Lists that hold the two stack nodes of a record about to be moved to `rec`. */
  ghost predicate Pending(zones: seq<seq<Info>>, handles: map<nat, nat>, rec: nat) {
    && rec != 0 && rec !in handles && 0 !in handles
    && (forall role :: Total(zones, ByRecord(0, role)) == 1)
    && (forall r, role :: r != 0 ==> Total(zones, ByRecord(r, role)) == if r in handles then 1 else 0)
  }

  /** The only stack node of a record's own block is the one at `w, i`. */
  lemma StackNode(zones: seq<seq<Info>>, w: nat, i: nat, z: nat, j: nat)
    requires Total(zones, ByRecord(0, Detail)) == 1
    requires w < |zones| && i < |zones[w]| && zones[w][i].role == Detail && zones[w][i].rec == 0
    requires z < |zones| && j < |zones[z]| && zones[z][j].role == Detail && zones[z][j].rec == 0
    ensures z == w && j == i
  {
    if z != w || j != i { TotalTwo(zones, ByRecord(0, Detail), z, j, w, i); }
  }

  lemma MovedGood(l: seq<Info>, rec: nat)
    requires GoodZone(l)
    requires forall j :: 0 <= j < |l| && l[j].role == Detail && l[j].rec == 0 ==> l[j].start == rec
    ensures GoodZone(Moved(l, rec)) && SameSpans(l, Moved(l, rec))
  {
    hide Chain, Spans;
    MovedChain(l, rec, -1);
    MovedSpans(l, rec);
  }

  /** Moving the record into its block completes the state. */
  lemma FinishMove(zones: seq<seq<Info>>, added: seq<seq<Region>>, handles: map<nat, nat>, rec: nat, w: nat,
                   i: nat, h: nat)
    requires Base(zones, added) && Pending(zones, handles, rec)
    requires w < ZONES && i < |zones[w]|
    requires zones[w][i].role == Detail && zones[w][i].rec == 0 && zones[w][i].start == rec
    ensures Inv(State(MovedAll(zones, rec), handles[rec := h], added))
  {
    hide GoodZone, Spans, Placed, RegionsApart, Total;
    forall z | 0 <= z < ZONES ensures GoodZone(Moved(zones[z], rec)) && SameSpans(zones[z], Moved(zones[z], rec)) {
      forall j | 0 <= j < |zones[z]| && zones[z][j].role == Detail && zones[z][j].rec == 0
        ensures zones[z][j].start == rec
      {
        StackNode(zones, w, i, z, j);
      }
      MovedGood(zones[z], rec);
    }
    forall r, role ensures Total(MovedAll(zones, rec), ByRecord(r, role)) == if r in handles[rec := h] then 1 else 0 {
      MovedRecords(zones, rec, r, role);
    }
  }

  // ----- live blocks

  /** A tracked block: where it starts and how many bytes were asked for. */
  datatype Block = Block(start: nat, size: nat)

  function ByBlock(b: Block): Info -> bool {
    (x: Info) => x.role == Data && x.size == b.size && x.size > 0 && x.start == b.start
  }

  ghost predicate Live(s: State, b: Block) {
    Total(s.zones, ByBlock(b)) > 0
  }

  lemma AllocTotal(zones: seq<seq<Info>>, z: nat, size: nat, k: nat, role: Role, p: Info -> bool)
    requires z < |zones| && k <= 32 && FirstFit(zones[z], size, k) < |zones[z]| && EndBlind(p)
    ensures var r := AllocNew(zones[z], size, k, 0, role);
            Total(zones[z := r.0], p) == Total(zones, p) + if p(Info(r.1, r.1, size, 0, role)) then 1 else 0
  {
    hide FirstFit, AllocNew, Total;
    TotalUpdate(zones, z, AllocNew(zones[z], size, k, 0, role).0, p);
    CountAllocNew(zones[z], size, k, 0, role, p);
  }

  /** With the block's node in place, a record makes the state pending. */
  lemma PendingAfterDetail(zones: seq<seq<Info>>, handles: map<nat, nat>, added: seq<seq<Region>>, w: nat, i: nat)
    requires Base(zones, added) && 0 !in handles
    requires forall r, role :: Total(zones, ByRecord(r, role))
                               == if r in handles || (r == 0 && role == Data) then 1 else 0
    requires w < ZONES && i < |zones[w]| && i == FirstFit(zones[w], RECORD_SIZE, MIN_ALIGN_LOG)
    requires var r := AllocNew(zones[w], RECORD_SIZE, MIN_ALIGN_LOG, 0, Detail);
             r.1 != 0 && zones[w][i].start + zones[w][i].size <= r.1 < zones[w][i].end
    ensures var r := AllocNew(zones[w], RECORD_SIZE, MIN_ALIGN_LOG, 0, Detail);
            Pending(zones[w := r.0], handles, r.1)
  {
    hide FirstFit, AllocNew, Total, Base;
    BaseZones(zones, added);
    var r := AllocNew(zones[w], RECORD_SIZE, MIN_ALIGN_LOG, 0, Detail);
    FreshRecord(zones, added, w, i, r.1);
    assert r.1 !in handles by { assert Total(zones, ByRecord(r.1, Detail)) == 0; }
    forall q, role ensures Total(zones[w := r.0], ByRecord(q, role))
                           == Total(zones, ByRecord(q, role)) + if q == 0 && role == Detail then 1 else 0 {
      AllocTotal(zones, w, RECORD_SIZE, MIN_ALIGN_LOG, Detail, ByRecord(q, role));
    }
  }

  /** The block's address does not depend on where its record goes. */
  lemma MovedBlocks(zones: seq<seq<Info>>, rec: nat, b: Block)
    ensures Total(MovedAll(zones, rec), ByBlock(b)) == Total(zones, ByBlock(b))
  {
    MovedTotal(zones, rec, ByBlock(b));
    var p := (x: Info) => ByBlock(b)(MovedNode(x, rec));
    forall x: Info ensures p(x) == ByBlock(b)(x) {
      var y := MovedNode(x, rec);
      assert y.role == x.role && y.size == x.size && y.start == x.start;
    }
    TotalCongruent(zones, p, ByBlock(b));
  }

  /**
   `malloc_palloc`: either nothing changes and 0 is returned, or the invariant is kept and
   exactly one block is added, aligned, inside the zone's regions and starting at an address
   no block had; its record gets the default handle.
   */
  lemma PallocSound(s: State, z: nat, size: nat, k: nat) returns (rec: nat)
    requires Inv(s) && z < ZONES && k <= 32 && size + Pow2(k) <= M
    ensures var r := Palloc(s, z, size, k);
            && (r.1 == 0 ==> r.0 == s)
            && (r.1 != 0 ==>
                && Inv(r.0) && r.1 % Pow2(k) == 0
                && (forall a :: r.1 <= a < r.1 + size ==> InRegions(s.added[z], a))
                && (forall b :: Total(r.0.zones, ByBlock(b))
                                == Total(s.zones, ByBlock(b)) + if b == Block(r.1, size) then 1 else 0)
                && rec !in s.handles && r.0.handles == s.handles[rec := DEFAULT_HANDLE]
                && r.0.added == s.added)
  {
    hide GoodZone, SameSpans, Base, FirstFit, AllocNew, AllocFree, Total, InRegions, NewDetail, Pending, MovedAll;
    rec := 0;
    BaseZones(s.zones, s.added);
    if size > 0 {
      var block, i := AllocNew(s.zones[z], size, k, 0, Data), FirstFit(s.zones[z], size, k);
      AllocNewGood(s.zones[z], size, k, Data);
      if block.1 != 0 {
        var zones := s.zones[z := block.0];
        BaseUpdate(s.zones, s.added, z, block.0);
        var w, j := NewDetailGood(zones, s.added);
        var detail := NewDetail(zones);
        if detail.1 == 0 {
          AllocThenFree(s.zones[z], size, k, 0, Data);
          UpdateBack(s.zones, z, block.0);
        } else {
          rec := detail.1;
          PallocRecords(s, z, size, k);
          PendingAfterDetail(zones, s.handles, s.added, w, j);
          FinishMove(detail.0, s.added, s.handles, rec, w, j, DEFAULT_HANDLE);
          PendingFresh(detail.0, s.handles, rec);
          InsideRegions(s.zones, s.added, z, i, block.1, size);
          forall b ensures Total(MovedAll(detail.0, rec), ByBlock(b))
                           == Total(s.zones, ByBlock(b)) + if b == Block(block.1, size) then 1 else 0 {
            MovedBlocks(detail.0, rec, b);
            PallocBlock(s.zones, z, size, k, w, b);
          }
        }
      }
    }
  }

  lemma UpdateBack(zones: seq<seq<Info>>, z: nat, l: seq<Info>)
    requires z < |zones|
    ensures zones[z := l][z := zones[z]] == zones
  {
  }

  lemma PallocBlock(zones: seq<seq<Info>>, z: nat, size: nat, k: nat, w: nat, b: Block)
    requires z < |zones| && w < |zones| && k <= 32 && FirstFit(zones[z], size, k) < |zones[z]| && size > 0
    requires var one := zones[z := AllocNew(zones[z], size, k, 0, Data).0];
             FirstFit(one[w], RECORD_SIZE, MIN_ALIGN_LOG) < |one[w]|
    ensures var block := AllocNew(zones[z], size, k, 0, Data);
            var one := zones[z := block.0];
            Total(one[w := AllocNew(one[w], RECORD_SIZE, MIN_ALIGN_LOG, 0, Detail).0], ByBlock(b))
            == Total(zones, ByBlock(b)) + if b == Block(block.1, size) then 1 else 0
  {
    hide FirstFit, AllocNew, Total;
    var one := zones[z := AllocNew(zones[z], size, k, 0, Data).0];
    AllocTotal(one, w, RECORD_SIZE, MIN_ALIGN_LOG, Detail, ByBlock(b));
    AllocTotal(zones, z, size, k, Data, ByBlock(b));
  }

  lemma PendingFresh(zones: seq<seq<Info>>, handles: map<nat, nat>, rec: nat)
    requires Pending(zones, handles, rec)
    ensures rec !in handles
  {
  }

  lemma InsideRegions(zones: seq<seq<Info>>, added: seq<seq<Region>>, z: nat, i: nat, at: nat, size: nat)
    requires Base(zones, added) && z < ZONES && i < |zones[z]|
    requires zones[z][i].start <= at && at + size <= zones[z][i].end
    ensures forall a :: at <= a < at + size ==> InRegions(added[z], a)
  {
    hide Base, RegionOf;
    BaseZones(zones, added);
    InRegion(zones, added, z, i);
    var g :| 0 <= g < |added[z]| && added[z][g] == RegionOf(zones[z], i);
    forall a | at <= a < at + size ensures InRegions(added[z], a) {
      assert added[z][g].start <= a < added[z][g].end;
    }
  }

  lemma PallocRecords(s: State, z: nat, size: nat, k: nat)
    requires Inv(s) && z < ZONES && k <= 32 && FirstFit(s.zones[z], size, k) < |s.zones[z]|
    ensures var zones := s.zones[z := AllocNew(s.zones[z], size, k, 0, Data).0];
            forall r, role :: Total(zones, ByRecord(r, role))
                              == if r in s.handles || (r == 0 && role == Data) then 1 else 0
  {
    hide FirstFit, AllocNew, Total;
    var zones := s.zones[z := AllocNew(s.zones[z], size, k, 0, Data).0];
    forall r, role ensures Total(zones, ByRecord(r, role))
                           == if r in s.handles || (r == 0 && role == Data) then 1 else 0 {
      AllocTotal(s.zones, z, size, k, Data, ByRecord(r, role));
    }
  }

  // ----- alloc_add

  /** The zone lists with the new region's marker are made of the added regions and the new one. */
  lemma BaseAddRegion(s: State, z: nat, start: nat, end: nat)
    requires Base(s.zones, s.added) && z < ZONES && Addable(s.added, start, end)
    ensures Base(s.zones[z := InsertMarker(s.zones[z], start, end, 0)],
                 s.added[z := s.added[z] + [Region(start, end)]])
  {
    hide GoodZone, Spans, InsertMarker, InsertRegion, Placed;
    var l := s.zones[z];
    var r, rs := Region(start, end), s.added[z];
    PlacedSame(rs);
    forall g | 0 <= g < |Spans(l, [])| ensures Apart(Spans(l, [])[g], r) {
      assert Spans(l, [])[g] in rs;
    }
    InsertMarkerShape(l, start, end, 0);
    PlacedSnoc(rs, r);
    RegionsApartSnoc(s.added, z, start, end);
  }

  lemma PlacedSnoc(rs: seq<Region>, r: Region)
    ensures Placed(rs + [r]) == InsertRegion(Placed(rs), r)
  {
    assert (rs + [r])[..|rs|] == rs;
  }

  lemma RegionsApartSnoc(added: seq<seq<Region>>, z: nat, start: nat, end: nat)
    requires RegionsApart(added) && z < |added| && Addable(added, start, end)
    ensures RegionsApart(added[z := added[z] + [Region(start, end)]])
  {
  }

  lemma MarkerTotal(zones: seq<seq<Info>>, z: nat, start: nat, end: nat, p: Info -> bool)
    requires z < |zones|
    ensures Total(zones[z := InsertMarker(zones[z], start, end, 0)], p)
            == Total(zones, p) + if p(Info(start, end, 0, 0, Data)) then 1 else 0
  {
    TotalUpdate(zones, z, InsertMarker(zones[z], start, end, 0), p);
    CountInsertMarker(zones[z], start, end, 0, p);
  }

  /** `alloc_add` of a region apart from the others keeps the invariant and every block; it may be refused whole. */
  lemma AddRegionSound(s: State, z: nat, start: nat, end: nat) returns (rec: nat)
    requires Inv(s) && z < ZONES && Addable(s.added, start, end)
    ensures var r := AddRegion(s, z, start, end);
            && Inv(r)
            && (r == s || (&& r.added == s.added[z := s.added[z] + [Region(start, end)]]
                           && rec !in s.handles && r.handles == s.handles[rec := DEFAULT_HANDLE]))
            && (forall b :: Total(r.zones, ByBlock(b)) == Total(s.zones, ByBlock(b)))
  {
    hide Base, InsertMarker, Total, NewDetail, Pending, MovedAll, FirstFit, AllocNew, Addable;
    BaseZones(s.zones, s.added);
    var zones := s.zones[z := InsertMarker(s.zones[z], start, end, 0)];
    var added := s.added[z := s.added[z] + [Region(start, end)]];
    BaseAddRegion(s, z, start, end);
    var w, j := NewDetailGood(zones, added);
    var detail := NewDetail(zones);
    rec := detail.1;
    if detail.1 != 0 {
      forall r, role ensures Total(zones, ByRecord(r, role))
                             == if r in s.handles || (r == 0 && role == Data) then 1 else 0 {
        MarkerTotal(s.zones, z, start, end, ByRecord(r, role));
      }
      PendingAfterDetail(zones, s.handles, added, w, j);
      FinishMove(detail.0, added, s.handles, detail.1, w, j, DEFAULT_HANDLE);
      PendingFresh(detail.0, s.handles, rec);
      forall b ensures Total(MovedAll(detail.0, detail.1), ByBlock(b)) == Total(s.zones, ByBlock(b)) {
        MovedBlocks(detail.0, detail.1, b);
        AllocTotal(zones, w, RECORD_SIZE, MIN_ALIGN_LOG, Detail, ByBlock(b));
        MarkerTotal(s.zones, z, start, end, ByBlock(b));
      }
    }
  }

  // ----- finding nodes

  function FindIn(l: seq<Info>, p: Info -> bool): (i: nat)
    ensures i <= |l|
    ensures i < |l| ==> p(l[i])
    ensures forall j :: 0 <= j < i ==> !p(l[j])
  {
    if l == [] || p(l[0]) then 0 else 1 + FindIn(l[1..], p)
  }

  /** The first node, in zone and list order, that satisfies `p`; the zone is `|zones|` if there is none. */
  function Find(zones: seq<seq<Info>>, p: Info -> bool): (r: (nat, nat))
    ensures r.0 <= |zones| && (r.0 == |zones| ==> r.1 == 0)
    ensures r.0 < |zones| ==> r.1 < |zones[r.0]| && p(zones[r.0][r.1])
                              && forall j :: 0 <= j < r.1 ==> !p(zones[r.0][j])
    ensures forall w, j :: 0 <= w < r.0 && 0 <= j < |zones[w]| ==> !p(zones[w][j])
  {
    if zones == [] then (0, 0)
    else if FindIn(zones[0], p) < |zones[0]| then (0, FindIn(zones[0], p))
    else var rest := Find(zones[1..], p); (rest.0 + 1, rest.1)
  }

  /** `alloc_find`: the first node whose range starts at `data`. */
  function AllocFind(zones: seq<seq<Info>>, data: nat): (nat, nat) {
    Find(zones, (x: Info) => x.start == data)
  }

  ghost predicate EmptyBefore(added: seq<seq<Region>>, z: nat, p: nat)
    requires z <= |added|
  {
    exists w :: 0 <= w < z && Region(p, p) in added[w]
  }

  /**
   An empty region at `p` stands ahead of the region that holds `p`: it belongs to an earlier zone,
   or it was added to the same zone before.
   */
  ghost predicate Shadowed(added: seq<seq<Region>>, p: nat) {
    exists z :: 0 <= z < |added| && InRegions(added[z], p) && (EmptyAhead(added[z], p) || EmptyBefore(added, z, p))
  }

  /** An empty region at an address has a marker there. */
  lemma EmptyMarker(zones: seq<seq<Info>>, added: seq<seq<Region>>, w: nat, p: nat) returns (j: nat)
    requires Base(zones, added) && w < ZONES && Region(p, p) in added[w]
    ensures j < |zones[w]| && zones[w][j].start == p
  {
    hide Chain, Spans, Placed, Disjoint;
    PlacedSame(added[w]);
    assert Region(p, p) in Spans(zones[w], []);
    var g :| 0 <= g < |Spans(zones[w], [])| && Spans(zones[w], [])[g] == Region(p, p);
    var _, m := SpanNodes(zones[w], g);
    j := m;
  }

  /** An empty region ahead of a block's region in the same zone has its marker ahead of the block. */
  lemma MarkerAhead(zones: seq<seq<Info>>, added: seq<seq<Region>>, z: nat, i: nat) returns (j: nat)
    requires Base(zones, added) && z < ZONES && i < |zones[z]| && zones[z][i].Live()
    requires EmptyAhead(added[z], zones[z][i].start)
    ensures j < i && zones[z][j].start == zones[z][i].start
  {
    hide Chain, Spans, Placed, Group;
    var l, p := zones[z], zones[z][i].start;
    var rs := Spans(l, []);
    AheadPlaced(added[z], p);
    var g, h :| 0 <= g < h < |rs| && rs[g] == Region(p, p) && rs[h].start <= p < rs[h].end;
    InSpan(l, i);
    ChainAt(l, -1, i);
    assert Group(l, i) == h;
    var _, m := SpanNodes(l, g);
    if i <= m { GroupOrder(l, i, m); }
    j := m;
  }

  /** A marker ahead of a block with the same address is that of an empty region added before. */
  lemma AheadMarker(zones: seq<seq<Info>>, added: seq<seq<Region>>, z: nat, i: nat, j: nat)
    requires Base(zones, added) && z < ZONES && j < i < |zones[z]| && zones[z][i].Live()
    requires zones[z][j].start == zones[z][i].start
    ensures EmptyAhead(added[z], zones[z][i].start)
  {
    hide Chain, Spans, Placed, Group, Apart;
    var l, p := zones[z], zones[z][i].start;
    BlockStartUnique(zones, added, z, i, z, j);
    GroupOrder(l, j, i);
    InSpan(l, i);
    InSpan(l, j);
    ChainAt(l, -1, i);
    assert EmptyAhead(Spans(l, []), p);
    AheadPlaced(added[z], p);
  }

  lemma OneZone(zones: seq<seq<Info>>, added: seq<seq<Region>>, z: nat, i: nat, w: nat)
    requires Base(zones, added) && z < ZONES && i < |zones[z]| && zones[z][i].Live() && w < ZONES
    ensures InRegions(added[w], zones[z][i].start) <==> w == z
  {
    hide Chain, Spans, Placed, RegionOf, RegionsApart;
    var p := zones[z][i].start;
    InRegion(zones, added, z, i);
    var g :| 0 <= g < |added[z]| && added[z][g] == RegionOf(zones[z], i);
    assert added[z][g].start <= p < added[z][g].end;
    if w != z && InRegions(added[w], p) {
      var h :| 0 <= h < |added[w]| && added[w][h].start <= p < added[w][h].end;
      OtherZones(added, z, added[z][g], w, added[w][h]);
    }
  }

  /** `alloc_find` on a block's address finds the block exactly if no empty region there stands ahead of it. */
  lemma FindsBlock(zones: seq<seq<Info>>, added: seq<seq<Region>>, z: nat, i: nat)
    requires Base(zones, added) && z < ZONES && i < |zones[z]| && zones[z][i].Live()
    ensures AllocFind(zones, zones[z][i].start) == (z, i) <==> !Shadowed(added, zones[z][i].start)
  {
    hide Find, Base, InRegions, EmptyAhead;
    BaseZones(zones, added);
    var p := zones[z][i].start;
    var r := AllocFind(zones, p);
    forall w | 0 <= w < ZONES ensures InRegions(added[w], p) <==> w == z { OneZone(zones, added, z, i, w); }
    if r != (z, i) {
      BlockStartUnique(zones, added, z, i, r.0, r.1);
      if r.0 == z { AheadMarker(zones, added, z, i, r.1); }
      assert EmptyAhead(added[z], p) || EmptyBefore(added, z, p);
    } else if Shadowed(added, p) {
      if EmptyAhead(added[z], p) {
        var _ := MarkerAhead(zones, added, z, i);
      } else {
        var w :| 0 <= w < z && Region(p, p) in added[w];
        var _ := EmptyMarker(zones, added, w, p);
      }
    }
  }

  /** What `alloc_find` finds instead is a marker. */
  lemma FindsMarker(zones: seq<seq<Info>>, added: seq<seq<Region>>, z: nat, i: nat)
    requires Base(zones, added) && z < ZONES && i < |zones[z]| && zones[z][i].Live()
    requires Shadowed(added, zones[z][i].start)
    ensures var f := AllocFind(zones, zones[z][i].start);
            f.0 < ZONES && f.1 < |zones[f.0]| && !zones[f.0][f.1].Live()
  {
    hide Find, Base, Shadowed;
    BaseZones(zones, added);
    FindsBlock(zones, added, z, i);
    var f := AllocFind(zones, zones[z][i].start);
    BlockStartUnique(zones, added, z, i, f.0, f.1);
  }

  lemma RecordInUse(s: State, z: nat, i: nat)
    requires Inv(s) && z < ZONES && i < |s.zones[z]|
    ensures s.zones[z][i].rec in s.handles && s.zones[z][i].rec != 0
  {
    hide Base, Total;
    BaseZones(s.zones, s.added);
    var x := s.zones[z][i];
    TotalAt(s.zones, ByRecord(x.rec, x.role), z, i);
  }

  lemma DetailNode(s: State, rec: nat) returns (w: nat, j: nat)
    requires Inv(s) && rec in s.handles
    ensures w < ZONES && j < |s.zones[w]|
    ensures var d := s.zones[w][j];
            d.rec == rec && d.role == Detail && d.start == rec && d.size == RECORD_SIZE && d.Wf()
  {
    hide Total, Chain, Spans, Placed, RegionsApart;
    assert Total(s.zones, ByRecord(rec, Detail)) == 1;
    w, j := TotalIndex(s.zones, ByRecord(rec, Detail));
    assert GoodZone(s.zones[w]);
    assert OkDetail(s.zones[w][j]);
    ChainAt(s.zones[w], -1, j);
  }

  /** The self-address test: a node lies at the start of its own range exactly if it is a bookkeeping node. */
  lemma SelfAddress(s: State, z: nat, i: nat)
    requires Inv(s) && z < ZONES && i < |s.zones[z]|
    ensures Address(s.zones[z][i]) == s.zones[z][i].start <==> s.zones[z][i].role == Detail
  {
    hide Base, Records;
    BaseZones(s.zones, s.added);
    var x := s.zones[z][i];
    RecordInUse(s, z, i);
    assert OkDetail(x);
    if x.role == Data && Address(x) == x.start {
      var w, j := DetailNode(s, x.rec);
      StartsOutside(s.zones, s.added, z, i, w, j);
      assert false;
    }
  }

  // ----- malloc_pfree

  /** `malloc_pfree`: whether the address was accepted. `container_of` subtracts the member's offset. */
  function Pfree(s: State, data: nat): (r: (State, bool))
    requires |s.zones| == ZONES
  {
    var f := AllocFind(s.zones, data);
    if f.0 == ZONES then (s, false) else
      var x := s.zones[f.0][f.1];
      if data == Address(x) || x.size == 0 || Address(x) < DATA_OFFSET then (s, false) else
        var rec := Address(x) - DATA_OFFSET;
        (State(FreeRecord(s.zones[f.0 := AllocFree(s.zones[f.0], f.1)], rec), s.handles - {rec}, s.added), true)
  }

  /** `alloc_free` of the record's own node. */
  function FreeRecord(zones: seq<seq<Info>>, rec: nat): (r: seq<seq<Info>>)
    ensures |r| == |zones|
  {
    var f := Find(zones, ByRecord(rec, Detail));
    if f.0 == |zones| then zones else zones[f.0 := AllocFree(zones[f.0], f.1)]
  }

  lemma FreeTotal(zones: seq<seq<Info>>, z: nat, i: nat, p: Info -> bool)
    requires z < |zones| && i < |zones[z]| && EndBlind(p)
    ensures Total(zones[z := AllocFree(zones[z], i)], p) == Total(zones, p) - if p(zones[z][i]) then 1 else 0
  {
    hide AllocFree, Total;
    TotalUpdate(zones, z, AllocFree(zones[z], i), p);
    CountAllocFree(zones[z], i, p);
  }

  lemma BaseFree(zones: seq<seq<Info>>, added: seq<seq<Region>>, z: nat, i: nat)
    requires Base(zones, added) && z < ZONES && i < |zones[z]| && zones[z][i].Live()
    ensures Base(zones[z := AllocFree(zones[z], i)], added)
  {
    hide Base, AllocFree, GoodZone, SameSpans;
    BaseZones(zones, added);
    AllocFreeShape(zones[z], i);
    AllocFreeGood(zones[z], i);
    BaseUpdate(zones, added, z, AllocFree(zones[z], i));
  }

  /** Freeing the two nodes of a record, block first. */
  lemma FreeBoth(s: State, z: nat, i: nat)
    requires Inv(s) && z < ZONES && i < |s.zones[z]| && s.zones[z][i].Live() && s.zones[z][i].role == Data
    ensures var rec := s.zones[z][i].rec;
            var zones := FreeRecord(s.zones[z := AllocFree(s.zones[z], i)], rec);
            && Inv(State(zones, s.handles - {rec}, s.added))
            && (forall b :: Total(zones, ByBlock(b))
                            == Total(s.zones, ByBlock(b)) - if ByBlock(b)(s.zones[z][i]) then 1 else 0)
  {
    hide Base, AllocFree, Total, Find;
    BaseZones(s.zones, s.added);
    var rec := s.zones[z][i].rec;
    RecordInUse(s, z, i);
    var one := s.zones[z := AllocFree(s.zones[z], i)];
    BaseFree(s.zones, s.added, z, i);
    BaseZones(one, s.added);
    FreeTotal(s.zones, z, i, ByRecord(rec, Detail));
    var w, j := TotalIndex(one, ByRecord(rec, Detail));
    var f := Find(one, ByRecord(rec, Detail));
    assert f.0 < ZONES;
    assert OkDetail(one[f.0][f.1]);
    BaseFree(one, s.added, f.0, f.1);
    var two := one[f.0 := AllocFree(one[f.0], f.1)];
    forall r, role ensures Total(two, ByRecord(r, role)) == if r in s.handles - {rec} then 1 else 0 {
      FreeTotal(s.zones, z, i, ByRecord(r, role));
      FreeTotal(one, f.0, f.1, ByRecord(r, role));
    }
    forall b ensures Total(two, ByBlock(b))
                     == Total(s.zones, ByBlock(b)) - if ByBlock(b)(s.zones[z][i]) then 1 else 0 {
      FreeTotal(s.zones, z, i, ByBlock(b));
      FreeTotal(one, f.0, f.1, ByBlock(b));
    }
  }

  lemma LiveNode(s: State, b: Block) returns (z: nat, i: nat)
    requires Inv(s) && Live(s, b)
    ensures z < ZONES && i < |s.zones[z]| && ByBlock(b)(s.zones[z][i])
    ensures s.zones[z][i].Wf()
  {
    hide Total, Base, Records;
    BaseZones(s.zones, s.added);
    z, i := TotalIndex(s.zones, ByBlock(b));
    ChainAt(s.zones[z], -1, i);
  }

  /**
   `malloc_pfree` of a live block finds that block's own record, frees both its nodes and
   nothing else, and keeps the invariant; unless an empty region hides the block, and then it is refused.
   */
  lemma PfreeBlock(s: State, b: Block) returns (rec: nat)
    requires Inv(s) && Live(s, b)
    ensures var r := Pfree(s, b.start);
            if Shadowed(s.added, b.start) then r == (s, false) else
              && r.1 && Inv(r.0) && r.0.added == s.added
              && (forall c :: Total(r.0.zones, ByBlock(c)) == Total(s.zones, ByBlock(c)) - if c == b then 1 else 0)
              && rec in s.handles && r.0.handles == s.handles - {rec}
  {
    hide Base, Records, AllocFind, AllocFree, FreeRecord, Total, Shadowed;
    BaseZones(s.zones, s.added);
    var z, i := LiveNode(s, b);
    var x := s.zones[z][i];
    rec := x.rec;
    if Shadowed(s.added, b.start) {
      FindsMarker(s.zones, s.added, z, i);
    } else {
      FindsBlock(s.zones, s.added, z, i);
      SelfAddress(s, z, i);
      RecordInUse(s, z, i);
      FreeBoth(s, z, i);
      forall c ensures ByBlock(c)(x) <==> c == b { }
    }
  }

  /** Any other address is refused and nothing changes. */
  lemma PfreeOther(s: State, data: nat)
    requires Inv(s) && forall size :: !Live(s, Block(data, size))
    ensures Pfree(s, data) == (s, false)
  {
    hide Base, Records, Find, AllocFree, FreeRecord, Total;
    BaseZones(s.zones, s.added);
    var f := AllocFind(s.zones, data);
    if f.0 < ZONES {
      var x := s.zones[f.0][f.1];
      SelfAddress(s, f.0, f.1);
      assert !Live(s, Block(data, x.size));
      if x.role == Data && x.size > 0 {
        TotalAt(s.zones, ByBlock(Block(data, x.size)), f.0, f.1);
      }
    }
  }

  /** Live blocks do not overlap. */
  lemma BlocksApart(s: State, b: Block, c: Block)
    requires Inv(s) && Live(s, b) && Live(s, c) && b != c
    ensures b.start + b.size <= c.start || c.start + c.size <= b.start
  {
    hide Base, Records, Total;
    var z, i := LiveNode(s, b);
    var w, j := LiveNode(s, c);
    RangesApart(s.zones, s.added, z, i, w, j);
  }

  /** A block never overlaps a bookkeeping record, its own included. */
  lemma RecordsApart(s: State, b: Block, rec: nat)
    requires Inv(s) && Live(s, b) && rec in s.handles
    ensures b.start + b.size <= rec || rec + RECORD_SIZE <= b.start
  {
    hide Base, Records, Total;
    var z, i := LiveNode(s, b);
    var w, j := DetailNode(s, rec);
    RangesApart(s.zones, s.added, z, i, w, j);
  }

  // ----- handles

  /** `malloc_sethandle`. */
  function SetHandle(s: State, data: nat, handle: nat): (r: State)
    requires |s.zones| == ZONES
  {
    var f := AllocFind(s.zones, data);
    if f.0 == ZONES then s else
      var x := s.zones[f.0][f.1];
      if data == Address(x) || x.size == 0 || Address(x) < DATA_OFFSET then s
      else s.(handles := s.handles[Address(x) - DATA_OFFSET := handle])
  }

  /** A bookkeeping node, by the self-address test, of a record with this handle. */
  function HandleTest(handles: map<nat, nat>, handle: nat): Info -> bool {
    (x: Info) => x.start == Address(x) && Address(x) in handles && handles[Address(x)] == handle
  }

  /** `malloc_findhandle`: the start of the range its first match describes, or 0. */
  function FindHandle(s: State, handle: nat): (data: nat)
    requires |s.zones| == ZONES
  {
    var f := Find(s.zones, HandleTest(s.handles, handle));
    if f.0 == ZONES then 0 else
      var g := Find(s.zones, ByRecord(Address(s.zones[f.0][f.1]), Data));
      if g.0 == ZONES then 0 else s.zones[g.0][g.1].start
  }

  /** `rec` is the record of block `b`. */
  ghost predicate Owns(s: State, rec: nat, b: Block) {
    exists z, i :: 0 <= z < |s.zones| && 0 <= i < |s.zones[z]| && ByBlock(b)(s.zones[z][i]) && s.zones[z][i].rec == rec
  }

  /** Setting a block's handle changes that handle alone, or nothing if an empty region hides the block. */
  lemma SetHandleSound(s: State, b: Block, handle: nat) returns (rec: nat)
    requires Inv(s) && Live(s, b)
    ensures rec in s.handles && Owns(s, rec, b)
    ensures SetHandle(s, b.start, handle)
            == if Shadowed(s.added, b.start) then s else s.(handles := s.handles[rec := handle])
    ensures Inv(SetHandle(s, b.start, handle))
  {
    hide Base, AllocFind, Total, Shadowed;
    var z, i := LiveNode(s, b);
    BaseZones(s.zones, s.added);
    rec := s.zones[z][i].rec;
    FindsBlock(s.zones, s.added, z, i);
    if Shadowed(s.added, b.start) { FindsMarker(s.zones, s.added, z, i); }
    SelfAddress(s, z, i);
    RecordInUse(s, z, i);
  }

  /** While one block alone carries a handle, looking the handle up returns that block. */
  lemma FindHandleSound(s: State, b: Block, rec: nat, handle: nat)
    requires Inv(s) && Owns(s, rec, b) && rec in s.handles && s.handles[rec] == handle
    requires forall r :: r in s.handles && s.handles[r] == handle ==> r == rec
    ensures FindHandle(s, handle) == b.start
  {
    hide Base, Find, Total, Records;
    BaseZones(s.zones, s.added);
    var w, j := DetailNode(s, rec);
    var test := HandleTest(s.handles, handle);
    assert test(s.zones[w][j]);
    var f := Find(s.zones, test);
    assert f.0 < ZONES;
    assert Address(s.zones[f.0][f.1]) == rec;
    FindsOwned(s, b, rec);
  }

  /** Node `(v, i)` comes before node `(w, j)` in zone and list order. */
  predicate Earlier(v: nat, i: nat, w: nat, j: nat) {
    v < w || (v == w && i < j)
  }

  /** Of several blocks with one handle, the one whose record comes first in zone and list order is returned. */
  lemma FindHandleFirst(s: State, b: Block, rec: nat, handle: nat, w: nat, j: nat)
    requires Inv(s) && Owns(s, rec, b) && rec in s.handles && s.handles[rec] == handle
    requires w < |s.zones| && j < |s.zones[w]| && s.zones[w][j].role == Detail && s.zones[w][j].rec == rec
    requires forall v, i :: 0 <= v < |s.zones| && 0 <= i < |s.zones[v]| && Earlier(v, i, w, j) ==>
               s.zones[v][i].role == Detail && s.zones[v][i].rec in s.handles ==> s.handles[s.zones[v][i].rec] != handle
    ensures FindHandle(s, handle) == b.start
  {
    hide Base, Find, Total, Records;
    BaseZones(s.zones, s.added);
    var test := HandleTest(s.handles, handle);
    SelfAddress(s, w, j);
    assert test(s.zones[w][j]);
    var f := Find(s.zones, test);
    SelfAddress(s, f.0, f.1);
    assert !Earlier(f.0, f.1, w, j);
    assert f == (w, j);
    FindsOwned(s, b, rec);
  }

  lemma FindsOwned(s: State, b: Block, rec: nat)
    requires Inv(s) && Owns(s, rec, b) && rec in s.handles
    ensures var g := Find(s.zones, ByRecord(rec, Data));
            g.0 < |s.zones| && g.1 < |s.zones[g.0]| && s.zones[g.0][g.1].start == b.start
  {
    hide Base, Find, Total;
    var z, i :| 0 <= z < |s.zones| && 0 <= i < |s.zones[z]| && ByBlock(b)(s.zones[z][i]) && s.zones[z][i].rec == rec;
    var p := ByRecord(rec, Data);
    assert p(s.zones[z][i]);
    var g := Find(s.zones, p);
    assert g.0 < |s.zones| && Total(s.zones, p) == 1;
    if g != (z, i) { TotalTwo(s.zones, p, z, i, g.0, g.1); }
  }

  /** A handle that no record carries is not found. */
  lemma FindHandleNone(s: State, handle: nat)
    requires Inv(s) && forall r :: r in s.handles ==> s.handles[r] != handle
    ensures FindHandle(s, handle) == 0
  {
    hide Base, Find;
    BaseZones(s.zones, s.added);
  }

  /** Setting the handle of anything else changes nothing. */
  lemma SetHandleOther(s: State, data: nat, handle: nat)
    requires Inv(s) && forall size :: !Live(s, Block(data, size))
    ensures SetHandle(s, data, handle) == s
  {
    hide Base, Records, Find;
    PfreeOther(s, data);
  }

  const INITIAL := State([[], [], [], [], []], map[], [[], [], [], [], []])

  lemma InitialTotal(p: Info -> bool)
    ensures Total(INITIAL.zones, p) == 0
  {
    assert INITIAL.zones[1..] == [[], [], [], []];
    assert INITIAL.zones[1..][1..] == [[], [], []];
    assert INITIAL.zones[1..][1..][1..] == [[], []];
  }

  lemma InitialState()
    ensures Inv(INITIAL)
  {
    hide Total;
    forall rec, role ensures Total(INITIAL.zones, ByRecord(rec, role)) == 0 {
      InitialTotal(ByRecord(rec, role));
    }
  }

  lemma LiveSize(s: State, b: Block)
    requires Inv(s) && Live(s, b)
    ensures b.size > 0
  {
    var z, i := LiveNode(s, b);
  }

  /** No two nodes describe the same block. */
  lemma BlockOnce(s: State, b: Block)
    requires Inv(s)
    ensures Total(s.zones, ByBlock(b)) <= 1
  {
    hide Base, Records, Total;
    BaseZones(s.zones, s.added);
    if Total(s.zones, ByBlock(b)) >= 2 {
      var z, i, w, j := TotalTwoIndex(s.zones, ByBlock(b));
      BlockStartUnique(s.zones, s.added, z, i, w, j);
    }
  }

  lemma {:induction false} CountUnion(l: seq<Info>, p: Info -> bool, q: Info -> bool, r: Info -> bool)
    requires forall x :: p(x) ==> q(x) || r(x)
    ensures Count(l, p) <= Count(l, q) + Count(l, r)
  {
    if l == [] {
    } else {
      CountUnion(l[1..], p, q, r);
    }
  }

  lemma {:induction false} TotalUnion(zones: seq<seq<Info>>, p: Info -> bool, q: Info -> bool, r: Info -> bool)
    requires forall x :: p(x) ==> q(x) || r(x)
    ensures Total(zones, p) <= Total(zones, q) + Total(zones, r)
  {
    if zones == [] {
    } else {
      CountUnion(zones[0], p, q, r);
      TotalUnion(zones[1..], p, q, r);
    }
  }

  /** How `malloc_palloc` changes any count of nodes: two are added, then the record moves. */
  lemma PallocTotal(s: State, z: nat, size: nat, k: nat, rec: nat, p: Info -> bool, q: Info -> bool)
    requires Inv(s) && z < ZONES && k <= 32 && size + Pow2(k) <= M
    requires var r := Palloc(s, z, size, k);
             r.1 != 0 && rec !in s.handles && r.0.handles == s.handles[rec := DEFAULT_HANDLE]
    requires EndBlind(q) && forall x :: q(x) == p(MovedNode(x, rec))
    ensures var r := Palloc(s, z, size, k);
            Total(r.0.zones, p) == Total(s.zones, q)
                                   + (if q(Info(r.1, r.1, size, 0, Data)) then 1 else 0)
                                   + (if q(Info(rec, rec, RECORD_SIZE, 0, Detail)) then 1 else 0)
  {
    hide GoodZone, SameSpans, Base, FirstFit, AllocNew, Total, NewDetail, MovedAll;
    BaseZones(s.zones, s.added);
    var block := AllocNew(s.zones[z], size, k, 0, Data);
    AllocNewGood(s.zones[z], size, k, Data);
    var zones := s.zones[z := block.0];
    BaseUpdate(s.zones, s.added, z, block.0);
    var w, j := NewDetailGood(zones, s.added);
    var detail := NewDetail(zones);
    assert rec == detail.1 by { assert rec in s.handles[detail.1 := DEFAULT_HANDLE]; }
    AllocTotal(s.zones, z, size, k, Data, q);
    AllocTotal(zones, w, RECORD_SIZE, MIN_ALIGN_LOG, Detail, q);
    MovedTotal(detail.0, rec, p);
    TotalCongruent(detail.0, (x: Info) => p(MovedNode(x, rec)), q);
  }

  lemma AddRegionTotal(s: State, z: nat, start: nat, end: nat, rec: nat, p: Info -> bool, q: Info -> bool)
    requires Inv(s) && z < ZONES && Addable(s.added, start, end)
    requires var r := AddRegion(s, z, start, end);
             r != s && rec !in s.handles && r.handles == s.handles[rec := DEFAULT_HANDLE]
    requires EndBlind(q) && forall x :: q(x) == p(MovedNode(x, rec))
    ensures Total(AddRegion(s, z, start, end).zones, p)
            == Total(s.zones, q) + (if q(Info(start, end, 0, 0, Data)) then 1 else 0)
                                 + (if q(Info(rec, rec, RECORD_SIZE, 0, Detail)) then 1 else 0)
  {
    hide Base, FirstFit, AllocNew, Total, NewDetail, MovedAll, InsertMarker, Addable;
    BaseZones(s.zones, s.added);
    var zones := s.zones[z := InsertMarker(s.zones[z], start, end, 0)];
    BaseAddRegion(s, z, start, end);
    var w, j := NewDetailGood(zones, s.added[z := s.added[z] + [Region(start, end)]]);
    var detail := NewDetail(zones);
    assert rec == detail.1 by { assert rec in s.handles[detail.1 := DEFAULT_HANDLE]; }
    MarkerTotal(s.zones, z, start, end, q);
    AllocTotal(zones, w, RECORD_SIZE, MIN_ALIGN_LOG, Detail, q);
    MovedTotal(detail.0, rec, p);
    TotalCongruent(detail.0, (x: Info) => p(MovedNode(x, rec)), q);
  }

  /** Freeing a block adds no node. */
  lemma PfreeTotal(s: State, b: Block, p: Info -> bool)
    requires Inv(s) && Live(s, b) && EndBlind(p) && !Shadowed(s.added, b.start)
    ensures Total(Pfree(s, b.start).0.zones, p) <= Total(s.zones, p)
  {
    hide Base, Records, AllocFree, Find, Total, Shadowed;
    BaseZones(s.zones, s.added);
    var z, i := LiveNode(s, b);
    FindsBlock(s.zones, s.added, z, i);
    SelfAddress(s, z, i);
    var one := s.zones[z := AllocFree(s.zones[z], i)];
    FreeTotal(s.zones, z, i, p);
    var f := Find(one, ByRecord(s.zones[z][i].rec, Detail));
    if f.0 < ZONES { FreeTotal(one, f.0, f.1, p); }
  }
}
