/**
 When the allocator succeeds, in terms of free memory: a request is served exactly if the zone has an aligned
 free place for the block and a temporary zone has one for its record beside it.
 */
module AllocatorRoom {
  import opened Words
  import opened Zones
  import opened Allocator

  /** An aligned place for `size` bytes at `a` in the free space of a range. */
  ghost predicate FreeAt(x: Info, size: nat, k: nat, a: int) {
    a % Pow2(k) == 0 && x.start + x.size <= a && a + size <= x.end
  }

  /** The highest such place of the first range that has one. */
  ghost predicate Takes(l: seq<Info>, size: nat, k: nat, i: nat, a: int) {
    && i < |l| && FreeAt(l[i], size, k, a)
    && (forall b :: FreeAt(l[i], size, k, b) ==> b <= a)
    && (forall j, b :: 0 <= j < i ==> !FreeAt(l[j], size, k, b))
  }

  /** A place for a record that does not overlap the block of `size` bytes at `at`. */
  ghost predicate FreeBeside(x: Info, at: nat, size: nat, a: int) {
    FreeAt(x, RECORD_SIZE, MIN_ALIGN_LOG, a) && (a + RECORD_SIZE <= at || at + size <= a)
  }

  ghost predicate TakesBeside(l: seq<Info>, at: nat, size: nat, j: nat, a: int) {
    && j < |l| && FreeBeside(l[j], at, size, a)
    && (forall b :: FreeBeside(l[j], at, size, b) ==> b <= a)
    && (forall h, b :: 0 <= h < j ==> !FreeBeside(l[h], at, size, b))
  }

  ghost predicate HasPlace(l: seq<Info>, size: nat, k: nat) {
    exists i, a :: 0 <= i < |l| && FreeAt(l[i], size, k, a)
  }

  ghost predicate HasBeside(l: seq<Info>, at: nat, size: nat) {
    exists j, a :: 0 <= j < |l| && FreeBeside(l[j], at, size, a)
  }

  // ----- one list

  lemma FitFree(x: Info, size: nat, k: nat)
    requires x.Wf() && k <= 32 && size + Pow2(k) <= M
    ensures Fit(x, size, k) >= 0 ==> FreeAt(x, size, k, Fit(x, size, k))
    ensures forall a :: FreeAt(x, size, k, a) ==> 0 <= a <= Fit(x, size, k)
  {
    hide Fit, Pow2, FreeAt, RoomAt;
    FitExact(x, size, k);
    if Fit(x, size, k) >= 0 { FreeAtFit(x, size, k, Fit(x, size, k)); }
    forall a | FreeAt(x, size, k, a) ensures 0 <= a <= Fit(x, size, k) {
      FreeRoom(x, size, k, a);
    }
  }

  lemma FreeAtFit(x: Info, size: nat, k: nat, a: int)
    requires a % Pow2(k) == 0 && x.start + x.size <= a && a + size <= x.end
    ensures FreeAt(x, size, k, a)
  {
  }

  lemma FreeRoom(x: Info, size: nat, k: nat, a: int)
    requires FreeAt(x, size, k, a)
    ensures a >= 0 && a / Pow2(k) * Pow2(k) == a && RoomAt(x, size, k, a / Pow2(k))
  {
    hide Pow2;
    Euclid(a, Pow2(k));
    DivBounds(a, Pow2(k));
  }

  /** `alloc_new` succeeds exactly if there is a place, and takes the highest one of the first range that has any. */
  lemma FirstPlace(l: seq<Info>, size: nat, k: nat)
    requires GoodZone(l) && 0 < size && k <= 32 && size + Pow2(k) <= M
    ensures var i := FirstFit(l, size, k);
            && (i < |l| <==> HasPlace(l, size, k))
            && (i < |l| ==> Fit(l[i], size, k) > 0 && Takes(l, size, k, i, Fit(l[i], size, k)))
  {
    hide Chain, Spans, FreeAt, Fit, FirstFit;
    var i := FirstFit(l, size, k);
    forall j | 0 <= j < |l|
      ensures l[j].Wf() && (Fit(l[j], size, k) >= 0 ==> FreeAt(l[j], size, k, Fit(l[j], size, k)))
      ensures forall a :: FreeAt(l[j], size, k, a) ==> 0 <= a <= Fit(l[j], size, k)
    {
      ChainAt(l, -1, j);
      FitFree(l[j], size, k);
    }
    if i < |l| { FreePositive(l[i], size, k, Fit(l[i], size, k)); }
  }

  /** No place starts at 0. */
  lemma FreePositive(x: Info, size: nat, k: nat, a: int)
    requires x.Wf() && size > 0 && FreeAt(x, size, k, a)
    ensures a > 0
  {
  }

  // ----- the list after a block has been carved

  /** The range that node `f` of the carved list came from. */
  function Origin(f: nat, i: nat): nat {
    if f <= i then f else f - 1
  }

  lemma CarvedNode(l: seq<Info>, i: nat, at: nat, size: nat, t: seq<Info>, f: nat)
    requires i < |l| && t == l[..i] + Carved(l[i], at, size, 0, Data) + l[i + 1..] && f < |t|
    ensures |t| == |l| + 1
    ensures t[f] == if f == i then Info(at, l[i].end, size, 0, Data)
                    else if f == i + 1 then l[i].(end := at) else l[Origin(f, i)]
  {
  }

  /** A place in another range is beside the block. */
  lemma OtherBeside(l: seq<Info>, i: nat, at: nat, size: nat, j: nat, a: int)
    requires GoodZone(l) && i < |l| && j < |l| && i != j
    requires l[i].start <= at && at + size <= l[i].end && FreeAt(l[j], RECORD_SIZE, MIN_ALIGN_LOG, a)
    ensures FreeBeside(l[j], at, size, a)
  {
    hide Chain, Spans;
    if i < j { NodesApart(l, i, j); } else { NodesApart(l, j, i); }
  }

  /** Places left after the block has been carved are the places beside it. */
  lemma CarvedPlaces(l: seq<Info>, i: nat, at: nat, size: nat, t: seq<Info>, f: nat, a: int)
    requires GoodZone(l) && i < |l| && l[i].start + l[i].size <= at && at + size <= l[i].end
    requires t == l[..i] + Carved(l[i], at, size, 0, Data) + l[i + 1..] && f < |t|
    requires FreeAt(t[f], RECORD_SIZE, MIN_ALIGN_LOG, a)
    ensures Origin(f, i) < |l| && FreeBeside(l[Origin(f, i)], at, size, a)
  {
    hide Chain, Spans, Carved, GoodZone;
    CarvedNode(l, i, at, size, t, f);
    if f != i && f != i + 1 { OtherBeside(l, i, at, size, Origin(f, i), a); }
  }

  lemma BesideCarved(l: seq<Info>, i: nat, at: nat, size: nat, t: seq<Info>, j: nat, a: int) returns (f: nat)
    requires i < |l| && l[i].start + l[i].size <= at && at + size <= l[i].end && j < |l|
    requires t == l[..i] + Carved(l[i], at, size, 0, Data) + l[i + 1..] && FreeBeside(l[j], at, size, a)
    ensures f < |t| && Origin(f, i) == j && FreeAt(t[f], RECORD_SIZE, MIN_ALIGN_LOG, a)
    ensures j == i ==> (f == i <==> at + size <= a)
  {
    f := if j < i then j else if j > i then j + 1 else if at + size <= a then i else i + 1;
    CarvedNode(l, i, at, size, t, f);
  }

  /** A record is taken from the carved list at the place that is described on the list as it was. */
  lemma CarvedTakes(l: seq<Info>, i: nat, at: nat, size: nat, t: seq<Info>)
    requires GoodZone(l) && i < |l| && size > 0 && l[i].start + l[i].size <= at && at + size <= l[i].end
    requires t == l[..i] + Carved(l[i], at, size, 0, Data) + l[i + 1..]
    ensures HasPlace(t, RECORD_SIZE, MIN_ALIGN_LOG) <==> HasBeside(l, at, size)
    ensures forall f, a :: Takes(t, RECORD_SIZE, MIN_ALIGN_LOG, f, a) ==> TakesBeside(l, at, size, Origin(f, i), a)
  {
    hide GoodZone, Carved, FreeAt, FreeBeside;
    if HasPlace(t, RECORD_SIZE, MIN_ALIGN_LOG) {
      var f, a :| 0 <= f < |t| && FreeAt(t[f], RECORD_SIZE, MIN_ALIGN_LOG, a);
      CarvedPlaces(l, i, at, size, t, f, a);
    }
    if HasBeside(l, at, size) {
      var j, a :| 0 <= j < |l| && FreeBeside(l[j], at, size, a);
      var f := BesideCarved(l, i, at, size, t, j, a);
    }
    forall f, a | Takes(t, RECORD_SIZE, MIN_ALIGN_LOG, f, a)
      ensures TakesBeside(l, at, size, Origin(f, i), a)
    {
      CarvedTaken(l, i, at, size, t, f, a);
    }
  }

  lemma CarvedTaken(l: seq<Info>, i: nat, at: nat, size: nat, t: seq<Info>, f: nat, a: int)
    requires GoodZone(l) && i < |l| && size > 0 && l[i].start + l[i].size <= at && at + size <= l[i].end
    requires t == l[..i] + Carved(l[i], at, size, 0, Data) + l[i + 1..] && Takes(t, RECORD_SIZE, MIN_ALIGN_LOG, f, a)
    ensures TakesBeside(l, at, size, Origin(f, i), a)
  {
    hide GoodZone, Carved, FreeAt, FreeBeside;
    var j := Origin(f, i);
    CarvedPlaces(l, i, at, size, t, f, a);
    forall b | FreeBeside(l[j], at, size, b) ensures b <= a {
      var g := BesideCarved(l, i, at, size, t, j, b);
      if g != f { UpperPart(l, i, at, size, t, f, a, g, b); }
    }
    forall h, b | 0 <= h < j ensures !FreeBeside(l[h], at, size, b) {
      if FreeBeside(l[h], at, size, b) {
        var g := BesideCarved(l, i, at, size, t, h, b);
      }
    }
  }

  /** Of the two parts of the carved range the upper one comes first. */
  lemma UpperPart(l: seq<Info>, i: nat, at: nat, size: nat, t: seq<Info>, f: nat, a: int, g: nat, b: int)
    requires i < |l| && t == l[..i] + Carved(l[i], at, size, 0, Data) + l[i + 1..]
    requires Takes(t, RECORD_SIZE, MIN_ALIGN_LOG, f, a) && g < |t| && FreeAt(t[g], RECORD_SIZE, MIN_ALIGN_LOG, b)
    requires g != f && Origin(g, i) == Origin(f, i)
    ensures b <= a
  {
    hide Carved;
    CarvedNode(l, i, at, size, t, f);
    CarvedNode(l, i, at, size, t, g);
    assert g > f;
  }

  // ----- records

  /** The place of a record comes from the high temporary zone if that has one, else from the low one. */
  ghost predicate RecordFrom(zones: seq<seq<Info>>, at: nat, size: nat, rec: nat)
    requires |zones| == ZONES
  {
    if HasBeside(zones[TMP_HIGH], at, size) then exists j :: TakesBeside(zones[TMP_HIGH], at, size, j, rec)
    else exists j :: TakesBeside(zones[TMP_LOW], at, size, j, rec)
  }

  lemma ZoneBeside(zones: seq<seq<Info>>, added: seq<seq<Region>>, z: nat, i: nat, at: nat, size: nat, w: nat)
    requires Base(zones, added) && z < ZONES && w < ZONES && w != z && i < |zones[z]|
    requires zones[z][i].start <= at && at + size <= zones[z][i].end
    ensures forall j, a :: 0 <= j < |zones[w]| ==>
              (FreeAt(zones[w][j], RECORD_SIZE, MIN_ALIGN_LOG, a) <==> FreeBeside(zones[w][j], at, size, a))
  {
    hide Base;
    BaseZones(zones, added);
    forall j, a | 0 <= j < |zones[w]|
      ensures FreeAt(zones[w][j], RECORD_SIZE, MIN_ALIGN_LOG, a) <==> FreeBeside(zones[w][j], at, size, a)
    {
      RangesApart(zones, added, z, i, w, j);
    }
  }

  /** The same in another zone, whose list stays as it is. */
  lemma OtherTakes(l: seq<Info>, at: nat, size: nat)
    requires forall j, a :: 0 <= j < |l| ==>
               (FreeAt(l[j], RECORD_SIZE, MIN_ALIGN_LOG, a) <==> FreeBeside(l[j], at, size, a))
    ensures HasPlace(l, RECORD_SIZE, MIN_ALIGN_LOG) <==> HasBeside(l, at, size)
    ensures forall j, a :: Takes(l, RECORD_SIZE, MIN_ALIGN_LOG, j, a) ==> TakesBeside(l, at, size, j, a)
  {
    hide FreeAt, FreeBeside;
  }

  lemma ZoneTakes(zones: seq<seq<Info>>, added: seq<seq<Region>>, z: nat, i: nat, at: nat, size: nat, w: nat)
    requires Base(zones, added) && z < ZONES && i < |zones[z]| && w < ZONES && size > 0
    requires zones[z][i].start + zones[z][i].size <= at && at + size <= zones[z][i].end
    ensures var t := zones[z := zones[z][..i] + Carved(zones[z][i], at, size, 0, Data) + zones[z][i + 1..]][w];
            && (HasPlace(t, RECORD_SIZE, MIN_ALIGN_LOG) <==> HasBeside(zones[w], at, size))
            && forall f, a :: Takes(t, RECORD_SIZE, MIN_ALIGN_LOG, f, a) ==>
                 exists j :: TakesBeside(zones[w], at, size, j, a)
  {
    hide Base, Carved, HasPlace, HasBeside, Takes, TakesBeside, FreeAt, FreeBeside;
    BaseZones(zones, added);
    if w == z {
      CarvedTakes(zones[z], i, at, size, zones[z][..i] + Carved(zones[z][i], at, size, 0, Data) + zones[z][i + 1..]);
    } else {
      ZoneBeside(zones, added, z, i, at, size, w);
      OtherTakes(zones[w], at, size);
    }
  }

  /** `alloc_new_detail` finds a record exactly if a temporary zone has a place for one. */
  lemma DetailPlace(zones: seq<seq<Info>>, added: seq<seq<Region>>)
    requires Base(zones, added)
    ensures var high, low := HasPlace(zones[TMP_HIGH], RECORD_SIZE, MIN_ALIGN_LOG),
                             HasPlace(zones[TMP_LOW], RECORD_SIZE, MIN_ALIGN_LOG);
            var rec := NewDetail(zones).1;
            && (rec != 0 <==> high || low)
            && (high ==> TakesRecord(zones[TMP_HIGH], rec)) && (!high && low ==> TakesRecord(zones[TMP_LOW], rec))
  {
    hide Base, GoodZone, HasPlace, Takes, FirstFit, Fit;
    assert Pow2(MIN_ALIGN_LOG) == 16;
    BaseZones(zones, added);
    FirstPlace(zones[TMP_HIGH], RECORD_SIZE, MIN_ALIGN_LOG);
    FirstPlace(zones[TMP_LOW], RECORD_SIZE, MIN_ALIGN_LOG);
  }

  ghost predicate TakesRecord(l: seq<Info>, rec: nat) {
    exists i :: Takes(l, RECORD_SIZE, MIN_ALIGN_LOG, i, rec)
  }

  // ----- malloc_palloc

  /** The zone has a place for the block, and a temporary zone has one for the record beside it. */
  ghost predicate Servable(s: State, z: nat, size: nat, k: nat)
    requires |s.zones| == ZONES && z < ZONES
  {
    size > 0 && exists i, at :: && Takes(s.zones[z], size, k, i, at)
                                && (HasBeside(s.zones[TMP_HIGH], at, size) || HasBeside(s.zones[TMP_LOW], at, size))
  }

  lemma TakesOnce(l: seq<Info>, size: nat, k: nat, i: nat, a: int, j: nat, b: int)
    requires Takes(l, size, k, i, a) && Takes(l, size, k, j, b)
    ensures i == j && a == b
  {
    hide FreeAt;
  }

  /**
   An allocation succeeds exactly if it is servable. The block is then at the highest place of the first
   range of its zone that has any, and its record at the highest place beside it of the first range
   of the high temporary zone or, if that has none, of the low one.
   */
  lemma PallocExact(s: State, z: nat, size: nat, k: nat)
    requires Inv(s) && z < ZONES && k <= 32 && size + Pow2(k) <= M
    ensures var r := Palloc(s, z, size, k);
            && |s.zones| == ZONES
            && (r.1 != 0 <==> Servable(s, z, size, k))
            && (r.1 != 0 ==> exists i :: Takes(s.zones[z], size, k, i, r.1))
            && (r.1 != 0 ==> exists rec :: && RecordFrom(s.zones, r.1, size, rec) && rec !in s.handles
                                           && r.0.handles == s.handles[rec := DEFAULT_HANDLE])
  {
    hide Base, Records, GoodZone, HasPlace, HasBeside, Takes, TakesBeside, FreeAt, FreeBeside;
    hide FirstFit, Fit, NewDetail, Palloc;
    BaseZones(s.zones, s.added);
    PallocCases(s, z, size, k);
    if size > 0 {
      var l := s.zones[z];
      FirstPlace(l, size, k);
      var i := FirstFit(l, size, k);
      if i < |l| {
        BlockThenRecord(s, z, size, k, i, Fit(l[i], size, k));
      } else if Servable(s, z, size, k) {
        var j, at :| Takes(l, size, k, j, at);
        TakesHas(l, size, k, j, at);
      }
    }
  }

  lemma TakesHas(l: seq<Info>, size: nat, k: nat, i: nat, a: int)
    requires Takes(l, size, k, i, a)
    ensures HasPlace(l, size, k) && FreeAt(l[i], size, k, a)
  {
    hide FreeAt;
  }

  /** The branches of `Palloc`. */
  lemma PallocCases(s: State, z: nat, size: nat, k: nat)
    requires |s.zones| == ZONES && z < ZONES && k <= 32
    ensures size == 0 ==> Palloc(s, z, size, k).1 == 0
    ensures var l := s.zones[z];
            var i := FirstFit(l, size, k);
            && (size > 0 && i == |l| ==> Palloc(s, z, size, k).1 == 0)
            && (size > 0 && i < |l| && Fit(l[i], size, k) > 0 ==>
                var at := Fit(l[i], size, k);
                var d := NewDetail(s.zones[z := l[..i] + Carved(l[i], at, size, 0, Data) + l[i + 1..]]);
                && Palloc(s, z, size, k).1 == (if d.1 == 0 then 0 else at)
                && (d.1 != 0 ==> Palloc(s, z, size, k).0.handles == s.handles[d.1 := DEFAULT_HANDLE]))
  {
    hide FirstFit, Fit, NewDetail, Carved, AllocFree;
  }

  lemma BlockThenRecord(s: State, z: nat, size: nat, k: nat, i: nat, at: nat)
    requires Inv(s) && z < ZONES && 0 < size && k <= 32 && size + Pow2(k) <= M
    requires i == FirstFit(s.zones[z], size, k) < |s.zones[z]| && at == Fit(s.zones[z][i], size, k) > 0
    requires Takes(s.zones[z], size, k, i, at)
    ensures var d := NewDetail(s.zones[z := s.zones[z][..i] + Carved(s.zones[z][i], at, size, 0, Data)
                                           + s.zones[z][i + 1..]]);
            && (d.1 != 0 <==> Servable(s, z, size, k))
            && (d.1 != 0 ==> RecordFrom(s.zones, at, size, d.1) && d.1 !in s.handles)
  {
    hide Base, Records, GoodZone, HasPlace, HasBeside, Takes, TakesBeside, FreeBeside, FirstFit, Fit, NewDetail, Carved;
    BaseZones(s.zones, s.added);
    var l := s.zones[z];
    TakesHas(l, size, k, i, at);
    var zones := s.zones[z := l[..i] + Carved(l[i], at, size, 0, Data) + l[i + 1..]];
    ZoneTakes(s.zones, s.added, z, i, at, size, TMP_HIGH);
    ZoneTakes(s.zones, s.added, z, i, at, size, TMP_LOW);
    AllocNewGood(l, size, k, Data);
    BaseUpdate(s.zones, s.added, z, zones[z]);
    DetailPlace(zones, s.added);
    forall j, b | Takes(l, size, k, j, b) ensures b == at { TakesOnce(l, size, k, i, at, j, b); }
    if NewDetail(zones).1 != 0 {
      var rec := NewDetail(zones).1;
      if HasBeside(s.zones[TMP_HIGH], at, size) {
        var f :| Takes(zones[TMP_HIGH], RECORD_SIZE, MIN_ALIGN_LOG, f, rec);
        assert exists j :: TakesBeside(s.zones[TMP_HIGH], at, size, j, rec);
      } else {
        var f :| Takes(zones[TMP_LOW], RECORD_SIZE, MIN_ALIGN_LOG, f, rec);
        assert exists j :: TakesBeside(s.zones[TMP_LOW], at, size, j, rec);
      }
      assert RecordFrom(s.zones, at, size, rec);
      var w, j := NewDetailGood(zones, s.added);
      PallocRecords(s, z, size, k);
      FreshRecord(zones, s.added, w, j, NewDetail(zones).1);
    }
  }

  // ----- alloc_add

  /** A record has a place in a temporary zone, or in the new region if it is added to one of them. */
  ghost predicate Recordable(s: State, z: nat, start: nat, end: nat)
    requires |s.zones| == ZONES
  {
    || HasPlace(s.zones[TMP_HIGH], RECORD_SIZE, MIN_ALIGN_LOG) || HasPlace(s.zones[TMP_LOW], RECORD_SIZE, MIN_ALIGN_LOG)
    || ((z == TMP_HIGH || z == TMP_LOW)
        && exists a :: FreeAt(Info(start, end, 0, 0, Data), RECORD_SIZE, MIN_ALIGN_LOG, a))
  }

  lemma MarkerPlace(l: seq<Info>, start: nat, end: nat)
    ensures HasPlace(InsertMarker(l, start, end, 0), RECORD_SIZE, MIN_ALIGN_LOG) <==>
              HasPlace(l, RECORD_SIZE, MIN_ALIGN_LOG)
              || exists a :: FreeAt(Info(start, end, 0, 0, Data), RECORD_SIZE, MIN_ALIGN_LOG, a)
  {
    hide FreeAt;
    var i, t := InsertPosition(l, start), InsertMarker(l, start, end, 0);
    hide InsertPosition;
    assert t[i] == Info(start, end, 0, 0, Data);
    if HasPlace(l, RECORD_SIZE, MIN_ALIGN_LOG) {
      var j, a :| 0 <= j < |l| && FreeAt(l[j], RECORD_SIZE, MIN_ALIGN_LOG, a);
      assert t[if j < i then j else j + 1] == l[j];
    }
    if HasPlace(t, RECORD_SIZE, MIN_ALIGN_LOG) {
      var j, a :| 0 <= j < |t| && FreeAt(t[j], RECORD_SIZE, MIN_ALIGN_LOG, a);
      if j != i { assert t[j] == l[if j < i then j else j - 1]; }
    }
  }

  /** A region is taken exactly if there is a place for its record, else nothing changes. */
  lemma AddRegionExact(s: State, z: nat, start: nat, end: nat)
    requires Inv(s) && z < ZONES && Addable(s.added, start, end)
    ensures var r := AddRegion(s, z, start, end);
            && |s.zones| == ZONES && |s.added| == ZONES
            && r.added == (if Recordable(s, z, start, end) then s.added[z := s.added[z] + [Region(start, end)]]
                           else s.added)
            && (!Recordable(s, z, start, end) ==> r == s)
  {
    hide Base, Records, HasPlace, FreeAt, NewDetail, InsertMarker, Addable;
    BaseZones(s.zones, s.added);
    var zones := s.zones[z := InsertMarker(s.zones[z], start, end, 0)];
    BaseAddRegion(s, z, start, end);
    DetailPlace(zones, s.added[z := s.added[z] + [Region(start, end)]]);
    MarkerPlace(s.zones[z], start, end);
  }
}
