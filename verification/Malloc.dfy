/**
 The allocator as the C code runs it: zone lists that are searched by loops and changed in
 place. Every method computes the corresponding function of
 `Allocator` on the old state.
 */
module Malloc {
  import opened Words
  import opened Zones
  import A = Allocator
  import R = AllocatorRuns
  import F = AllocatorRoom

  class Heap {
    var zones: seq<seq<Info>>
    var handles: map<nat, nat>
    ghost var added: seq<seq<Region>>
    /** What the caller knows: the blocks it holds and their handles. */
    ghost var held: R.Held

    ghost function Value(): A.State
      reads this
    {
      A.State(zones, handles, added)
    }

    ghost predicate Valid()
      reads this
    {
      A.Inv(Value()) && R.Refines(Value(), held)
    }

    constructor ()
      ensures Valid() && Value() == A.INITIAL && held == map[]
    {
      held := map[];
      zones := [[], [], [], [], []];
      handles := map[];
      added := [[], [], [], [], []];
      A.InitialState();
      R.InitialRefines();
    }

    /** `alloc_new`: reserve space at the top of the first range with room. */
    method AllocNew(z: nat, size: nat, k: nat, role: Role) returns (at: nat, i: nat)
      requires z < |zones| && k <= 32
      modifies this`zones
      ensures var r := Zones.AllocNew(old(zones)[z], size, k, 0, role);
              zones == old(zones)[z := r.0] && at == r.1
      ensures i == FirstFit(old(zones)[z], size, k)
    {
      hide Fit, AlignDown;
      var l := zones[z];
      i := 0;
      while i < |l|
        invariant i <= |l| && zones == old(zones)
        invariant forall j :: 0 <= j < i ==> Fit(l[j], size, k) < 0
      {
        var top := Fit(l[i], size, k);
        if top >= 0 {
          FirstFitIs(l, size, k, i);
          zones := zones[z := l[..i] + Carved(l[i], top, size, 0, role) + l[i + 1..]];
          return top, i;
        }
        i := i + 1;
      }
      FirstFitIs(l, size, k, i);
      assert zones == zones[z := l];
      at := 0;
    }

    /** `alloc_free`. */
    method AllocFree(z: nat, i: nat)
      requires z < |zones| && i < |zones[z]|
      modifies this`zones
      ensures zones == old(zones)[z := Zones.AllocFree(old(zones)[z], i)]
    {
      var l := zones[z];
      ghost var l0 := l;
      if i + 1 < |l| && l[i + 1].end == l[i].start {
        l := l[i + 1 := l[i + 1].(end := l[i].end)];
        assert l[i + 1..] == [l[i + 1]] + l0[i + 2..];
      }
      assert l[..i] + l[i + 1..] == Zones.AllocFree(l0, i);
      zones := zones[z := l[..i] + l[i + 1..]];
    }

    /** `alloc_new_detail` up to the move: reserve a record. */
    method NewDetail() returns (at: nat)
      requires |zones| == A.ZONES && GoodZone(zones[A.TMP_HIGH]) && GoodZone(zones[A.TMP_LOW])
      modifies this`zones
      ensures (zones, at) == A.NewDetail(old(zones))
    {
      hide GoodZone, Zones.AllocNew, FirstFit;
      assert Pow2(A.MIN_ALIGN_LOG) == 16;
      A.AllocNewGood(zones[A.TMP_HIGH], RECORD_SIZE, A.MIN_ALIGN_LOG, Detail);
      A.AllocNewGood(zones[A.TMP_LOW], RECORD_SIZE, A.MIN_ALIGN_LOG, Detail);
      var i;
      at, i := AllocNew(A.TMP_HIGH, RECORD_SIZE, A.MIN_ALIGN_LOG, Detail);
      if at == 0 {
        assert zones == old(zones);
        at, i := AllocNew(A.TMP_LOW, RECORD_SIZE, A.MIN_ALIGN_LOG, Detail);
        assert at == 0 ==> zones == old(zones);
      }
    }

    /** The second half of `alloc_new_detail`: copy the record and replace its two nodes. */
    method MoveRecord(rec: nat)
      modifies this`zones, this`handles
      ensures zones == A.MovedAll(old(zones), rec)
      ensures handles == old(handles)[rec := A.DEFAULT_HANDLE]
    {
      zones := A.MovedAll(zones, rec);
      handles := handles[rec := A.DEFAULT_HANDLE];
    }

    /** The steps of `malloc_palloc`: reserve the block, then its record, else give the block back. */
    method Reserve(z: nat, size: nat, k: nat) returns (data: nat)
      requires A.Inv(Value()) && z < A.ZONES && k <= 32 && size + Pow2(k) <= M
      modifies this`zones, this`handles
      ensures (Value(), data) == A.Palloc(old(Value()), z, size, k)
    {
      hide GoodZone, Zones.AllocNew, FirstFit, A.Base, A.NewDetail, A.Records;
      ghost var s := Value();
      A.BaseZones(zones, added);
      if size == 0 {
        return 0;
      }
      A.AllocNewGood(zones[z], size, k, Data);
      var i;
      data, i := AllocNew(z, size, k, Data);
      if data == 0 {
        assert zones == s.zones;
        return;
      }
      ghost var zones1 := zones;
      A.BaseUpdate(s.zones, added, z, zones[z]);
      A.BaseZones(zones, added);
      var detail := NewDetail();
      if detail == 0 {
        ghost var w, j := A.NewDetailGood(zones1, added);
        AllocFree(z, i);
        return 0;
      }
      MoveRecord(detail);
    }

    /**
     `malloc_palloc`: a fresh aligned block with the default handle at the highest place of the first range with
     room or, exactly if there is no room for it or for its record, nothing at all.
     */
    method Palloc(z: nat, size: nat, k: nat) returns (data: nat)
      requires Valid() && z < A.ZONES && k <= 32 && size + Pow2(k) <= M
      modifies this
      ensures Valid() && (Value(), data) == A.Palloc(old(Value()), z, size, k)
      ensures data == 0 ==> Value() == old(Value()) && held == old(held)
      ensures data != 0 ==> data % Pow2(k) == 0 && A.Block(data, size) !in old(held)
      ensures data != 0 ==> held == old(held)[A.Block(data, size) := A.DEFAULT_HANDLE]
      ensures |old(zones)| == A.ZONES && (data != 0 <==> F.Servable(old(Value()), z, size, k))
      ensures data != 0 ==> exists i :: F.Takes(old(zones)[z], size, k, i, data)
    {
      hide A.Inv, R.Refines, A.Palloc, F.Servable, F.Takes, F.RecordFrom;
      ghost var s := Value();
      F.PallocExact(s, z, size, k);
      ghost var _ := A.PallocSound(s, z, size, k);
      R.PallocFresh(s, held, z, size, k);
      data := Reserve(z, size, k);
      if data != 0 {
        R.StepAlloc(s, held, z, size, k);
        held := held[A.Block(data, size) := A.DEFAULT_HANDLE];
      }
    }

    /** `alloc_add`: the region is taken exactly if there is a place for its record. */
    method AddRegion(z: nat, start: nat, end: nat)
      requires Valid() && z < A.ZONES && A.Addable(added, start, end)
      modifies this
      ensures Valid() && held == old(held)
      ensures Value() == A.AddRegion(old(Value()), z, start, end)
      ensures |old(zones)| == A.ZONES && |old(added)| == A.ZONES
      ensures added == if F.Recordable(old(Value()), z, start, end)
                       then old(added)[z := old(added)[z] + [Region(start, end)]] else old(added)
    {
      hide A.Inv, A.AddRegion, A.Addable, R.Refines, F.Recordable;
      F.AddRegionExact(Value(), z, start, end);
      InsertThenRecord(z, start, end);
    }

    /** The steps of `alloc_add`: insert the marker, then reserve its record, else take the marker back. */
    method InsertThenRecord(z: nat, start: nat, end: nat)
      requires Valid() && z < A.ZONES && A.Addable(added, start, end)
      modifies this
      ensures Valid() && held == old(held)
      ensures Value() == A.AddRegion(old(Value()), z, start, end)
    {
      hide GoodZone, A.Base, A.NewDetail, A.Records, R.Refines, A.Addable, InsertMarker;
      ghost var s := Value();
      R.StepAdd(s, held, z, start, end);
      A.BaseAddRegion(s, z, start, end);
      A.BaseZones(zones, added);
      var l := zones[z];
      var i := 0;
      while i < |l| && l[i].start >= start
        invariant i <= |l|
        invariant forall j :: 0 <= j < i ==> l[j].start >= start
      {
        i := i + 1;
      }
      InsertPositionIs(l, start, end, i);
      zones := zones[z := l[..i] + [Info(start, end, 0, 0, Data)] + l[i..]];
      ghost var more := s.added[z := s.added[z] + [Region(start, end)]];
      A.BaseZones(zones, more);
      ghost var zones1 := zones;
      var detail := NewDetail();
      if detail == 0 {
        ghost var w, j := A.NewDetailGood(zones1, more);
        zones := zones[z := l[..i] + l[i..]];
        assert l == l[..i] + l[i..];
        assert zones == s.zones;
        return;
      }
      MoveRecord(detail);
      added := more;
    }

    /** The search loop of `alloc_find`, `malloc_findhandle` and the dereference of a record's member. */
    method FindNode(p: Info -> bool) returns (z: nat, i: nat)
      ensures (z, i) == A.Find(zones, p)
    {
      z, i := 0, 0;
      while z < |zones|
        invariant z <= |zones| && i == 0
        invariant forall w, j :: 0 <= w < z && 0 <= j < |zones[w]| ==> !p(zones[w][j])
      {
        while i < |zones[z]|
          invariant i <= |zones[z]|
          invariant forall j :: 0 <= j < i ==> !p(zones[z][j])
        {
          if p(zones[z][i]) {
            FindIs(zones, p, z, i);
            return;
          }
          i := i + 1;
        }
        z, i := z + 1, 0;
      }
      FindIs(zones, p, z, i);
    }

    /** The body of `malloc_pfree`. */
    method Release(data: nat) returns (ok: bool)
      requires |zones| == A.ZONES
      modifies this`zones, this`handles
      ensures |old(zones)| == A.ZONES && (Value(), ok) == A.Pfree(old(Value()), data)
    {
      hide A.Find, Zones.AllocFree;
      var z, i := FindNode((x: Info) => x.start == data);
      if z == |zones| {
        return false;
      }
      var x := zones[z][i];
      if data == A.Address(x) || x.size == 0 || A.Address(x) < DATA_OFFSET {
        return false;
      }
      var rec := A.Address(x) - DATA_OFFSET;
      AllocFree(z, i);
      var w, j := FindNode(A.ByRecord(rec, Detail));
      if w < |zones| {
        AllocFree(w, j);
      }
      handles := handles - {rec};
      ok := true;
    }

    /** `malloc_pfree`: accepts exactly the addresses of held blocks that no empty region hides. */
    method Pfree(data: nat) returns (ok: bool)
      requires Valid()
      modifies this
      ensures Valid() && |old(zones)| == A.ZONES && (Value(), ok) == A.Pfree(old(Value()), data)
      ensures ok <==> (exists b :: b in old(held) && b.start == data) && !A.Shadowed(added, data)
      ensures held == R.Freed(old(held), added, data) && added == old(added)
    {
      hide A.Base, A.Records, A.Pfree, A.Shadowed, R.Refines, R.Freed;
      A.BaseZones(zones, added);
      R.StepFree(Value(), held, data);
      R.FreeAccepts(Value(), held, data);
      held := R.Freed(held, added, data);
      ok := Release(data);
    }

    /** `malloc_sethandle`. */
    method SetHandle(data: nat, handle: nat)
      requires Valid()
      modifies this`handles, this`held
      ensures Valid() && Value() == A.SetHandle(old(Value()), data, handle)
      ensures held == R.Rehandled(old(held), added, data, handle)
    {
      hide A.Base, A.Find, A.Records, R.Refines, R.Rehandled;
      A.BaseZones(zones, added);
      R.StepHandle(Value(), held, data, handle);
      held := R.Rehandled(held, added, data, handle);
      var z, i := FindNode((x: Info) => x.start == data);
      if z == |zones| {
        return;
      }
      var x := zones[z][i];
      if data == A.Address(x) || x.size == 0 || A.Address(x) < DATA_OFFSET {
        return;
      }
      handles := handles[A.Address(x) - DATA_OFFSET := handle];
    }

    /** `malloc_findhandle`: a held block with this handle, or 0 if there is none. */
    method FindHandle(handle: nat) returns (data: nat)
      requires Valid()
      ensures data == A.FindHandle(Value(), handle)
      ensures handle != A.DEFAULT_HANDLE ==>
                || (data == 0 && forall b :: b in held ==> held[b] != handle)
                || (exists b :: b in held && held[b] == handle && b.start == data)
    {
      hide A.Base, A.Find, A.Records, R.Refines;
      A.BaseZones(zones, added);
      if handle != A.DEFAULT_HANDLE { R.LookUp(Value(), held, handle); }
      var z, i := FindNode(A.HandleTest(handles, handle));
      if z == |zones| {
        return 0;
      }
      var w, j := FindNode(A.ByRecord(A.Address(zones[z][i]), Data));
      return if w == |zones| then 0 else zones[w][j].start;
    }
  }

  lemma {:induction false} InsertPositionIs(l: seq<Info>, start: nat, end: nat, i: nat)
    requires i <= |l| && (forall j :: 0 <= j < i ==> l[j].start >= start) && (i < |l| ==> l[i].start < start)
    ensures InsertMarker(l, start, end, 0) == l[..i] + [Info(start, end, 0, 0, Data)] + l[i..]
  {
  }

  lemma FindIs(zones: seq<seq<Info>>, p: Info -> bool, z: nat, i: nat)
    requires z <= |zones|
    requires z < |zones| ==> i < |zones[z]| && p(zones[z][i]) && forall j :: 0 <= j < i ==> !p(zones[z][j])
    requires z == |zones| ==> i == 0
    requires forall w, j :: 0 <= w < z && 0 <= j < |zones[w]| ==> !p(zones[w][j])
    ensures A.Find(zones, p) == (z, i)
  {
    var r := A.Find(zones, p);
  }

  lemma {:induction false} FirstFitIs(l: seq<Info>, size: nat, k: nat, i: nat)
    requires k <= 32 && i <= |l|
    requires forall j :: 0 <= j < i ==> Fit(l[j], size, k) < 0
    requires i < |l| ==> Fit(l[i], size, k) >= 0
    ensures FirstFit(l, size, k) == i
  {
  }
}
