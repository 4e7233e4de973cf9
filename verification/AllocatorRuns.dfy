/**
 Runs of the allocator. The state refines a plain map from the blocks the caller holds to their
 handles: the caller sees nothing of zones, records or lists.
 */
module AllocatorRuns {
  import opened Words
  import opened Zones
  import opened Allocator

  datatype Op = Add(z: nat, start: nat, end: nat)
              | Alloc(z: nat, size: nat, k: nat)
              | Free(data: nat)
              | Handle(data: nat, handle: nat)

  /** Callers add regions apart from the earlier ones, and keep sizes and alignments within the wrap guard's limit. */
  ghost predicate Legal(s: State, op: Op) {
    && |s.zones| == ZONES && |s.added| == ZONES
    && match op
       case Add(z, start, end) =>
         z < ZONES && Addable(s.added, start, end)
       case Alloc(z, size, k) => z < ZONES && k <= 32 && size + Pow2(k) <= M
       case Free(_) => true
       case Handle(_, _) => true
  }

  ghost function Step(s: State, op: Op): State
    requires Legal(s, op)
  {
    match op
    case Add(z, start, end) => AddRegion(s, z, start, end)
    case Alloc(z, size, k) => Palloc(s, z, size, k).0
    case Free(data) => Pfree(s, data).0
    case Handle(data, handle) => SetHandle(s, data, handle)
  }

  /** The blocks handed out and not yet taken back, with their handles. */
  type Held = map<Block, nat>

  /** The abstract step; only the address an allocation returns comes from the allocator. */
  ghost function Track(held: Held, s: State, op: Op): Held
    requires Legal(s, op)
  {
    match op
    case Add(_, _, _) => held
    case Alloc(z, size, k) =>
      var data := Palloc(s, z, size, k).1;
      if data == 0 then held else held[Block(data, size) := DEFAULT_HANDLE]
    case Free(data) => Freed(held, s.added, data)
    case Handle(data, handle) => Rehandled(held, s.added, data, handle)
  }

  /** A free or a handle update does nothing to a block that an empty region hides. */
  ghost function Freed(held: Held, added: seq<seq<Region>>, data: nat): Held {
    if Shadowed(added, data) then held else Without(held, data)
  }

  ghost function Rehandled(held: Held, added: seq<seq<Region>>, data: nat, handle: nat): Held {
    if Shadowed(added, data) then held else WithHandle(held, data, handle)
  }

  ghost function Without(held: Held, data: nat): Held {
    map b | b in held && b.start != data :: held[b]
  }

  ghost function WithHandle(held: Held, data: nat, handle: nat): Held {
    map b | b in held :: if b.start == data then handle else held[b]
  }

  ghost predicate IsRun(trace: seq<State>, ops: seq<Op>) {
    && |trace| == |ops| + 1 && trace[0] == INITIAL
    && forall i :: 0 <= i < |ops| ==> Legal(trace[i], ops[i]) && trace[i + 1] == Step(trace[i], ops[i])
  }

  ghost function HeldAfter(trace: seq<State>, ops: seq<Op>, n: nat): Held
    requires IsRun(trace, ops) && n <= |ops|
  {
    if n == 0 then map[] else Track(HeldAfter(trace, ops, n - 1), trace[n - 1], ops[n - 1])
  }

  // ----- refinement

  /** A block or marker whose record does not carry the handle it should. */
  ghost predicate IsWrong(handles: map<nat, nat>, held: Held, x: Info) {
    x.role == Data && !(x.rec in handles && HandleIs(held, x, handles[x.rec]))
  }

  ghost function Wrong(handles: map<nat, nat>, held: Held): Info -> bool {
    (x: Info) => IsWrong(handles, held, x)
  }

  /** The same test, made before the record moves to `rec`. */
  ghost function WrongMoved(handles: map<nat, nat>, held: Held, rec: nat): Info -> bool {
    (x: Info) => IsWrong(handles, held, MovedNode(x, rec))
  }

  ghost predicate HandleIs(held: Held, x: Info, handle: nat) {
    if x.size == 0 then handle == DEFAULT_HANDLE
    else Block(x.start, x.size) in held && held[Block(x.start, x.size)] == handle
  }

  /** The lists hold exactly the held blocks, once each, and every record carries the right handle. */
  ghost predicate Refines(s: State, held: Held) {
    && (forall b :: Total(s.zones, ByBlock(b)) == if b in held then 1 else 0)
    && Total(s.zones, Wrong(s.handles, held)) == 0
  }

  lemma RefinesLive(s: State, held: Held, b: Block)
    requires Refines(s, held)
    ensures Live(s, b) <==> b in held
  {
  }

  /** A block is never handed out twice. */
  lemma PallocFresh(s: State, held: Held, z: nat, size: nat, k: nat)
    requires Inv(s) && Refines(s, held) && z < ZONES && k <= 32 && size + Pow2(k) <= M
    ensures var data := Palloc(s, z, size, k).1; data != 0 ==> Block(data, size) !in held
  {
    hide Palloc, Base, Records, Total;
    BaseZones(s.zones, s.added);
    var r := Palloc(s, z, size, k);
    var _ := PallocSound(s, z, size, k);
    if r.1 != 0 && Block(r.1, size) in held {
      BlockOnce(r.0, Block(r.1, size));
    }
  }

  lemma StepAlloc(s: State, held: Held, z: nat, size: nat, k: nat)
    requires Inv(s) && Refines(s, held) && z < ZONES && k <= 32 && size + Pow2(k) <= M
    requires Palloc(s, z, size, k).1 != 0
    ensures var r := Palloc(s, z, size, k);
            Inv(r.0) && Refines(r.0, held[Block(r.1, size) := DEFAULT_HANDLE])
  {
    hide Palloc, Base, Records, Total;
    BaseZones(s.zones, s.added);
    var r := Palloc(s, z, size, k);
    var b := Block(r.1, size);
    PallocFresh(s, held, z, size, k);
    var rec := PallocSound(s, z, size, k);
    var held' := held[b := DEFAULT_HANDLE];
    var p := Wrong(r.0.handles, held');
    WrongAfterAlloc(s, held, b, rec);
    PallocTotal(s, z, size, k, rec, p, WrongMoved(r.0.handles, held', rec));
  }

  /** No node of the old lists gets the wrong handle, and the new block's handle is right. */
  lemma WrongAfterAlloc(s: State, held: Held, b: Block, rec: nat)
    requires Inv(s) && Refines(s, held) && b !in held && rec !in s.handles
    ensures var q := WrongMoved(s.handles[rec := DEFAULT_HANDLE], held[b := DEFAULT_HANDLE], rec);
            && EndBlind(q) && Total(s.zones, q) == 0
            && !q(Info(b.start, b.start, b.size, 0, Data)) && !q(Info(rec, rec, RECORD_SIZE, 0, Detail))
  {
    hide Base, Total;
    BaseZones(s.zones, s.added);
    var q := WrongMoved(s.handles[rec := DEFAULT_HANDLE], held[b := DEFAULT_HANDLE], rec);
    WrongBlind(s.handles[rec := DEFAULT_HANDLE], held[b := DEFAULT_HANDLE], rec);
    if Total(s.zones, q) > 0 {
      var z, i := TotalIndex(s.zones, q);
      var x := s.zones[z][i];
      RecordInUse(s, z, i);
      assert !ByBlock(b)(x) by {
        if ByBlock(b)(x) { TotalAt(s.zones, ByBlock(b), z, i); }
      }
      assert MovedNode(x, rec) == x;
      assert Wrong(s.handles, held)(x);
      TotalAt(s.zones, Wrong(s.handles, held), z, i);
    }
  }

  lemma WrongBlind(handles: map<nat, nat>, held: Held, rec: nat)
    ensures EndBlind(WrongMoved(handles, held, rec)) && EndBlind(Wrong(handles, held))
  {
    var p, q := Wrong(handles, held), WrongMoved(handles, held, rec);
    forall x: Info, e: nat ensures p(x.(end := e)) == p(x) && q(x.(end := e)) == q(x) {
      var y := x.(end := e);
      assert forall h :: HandleIs(held, x, h) == HandleIs(held, y, h);
      assert forall h :: HandleIs(held, MovedNode(x, rec), h) == HandleIs(held, MovedNode(y, rec), h);
    }
  }

  lemma WrongAfterAdd(s: State, held: Held, start: nat, end: nat, rec: nat)
    requires Inv(s) && Refines(s, held) && rec !in s.handles
    ensures var q := WrongMoved(s.handles[rec := DEFAULT_HANDLE], held, rec);
            && EndBlind(q) && Total(s.zones, q) == 0
            && !q(Info(start, end, 0, 0, Data)) && !q(Info(rec, rec, RECORD_SIZE, 0, Detail))
  {
    hide Base, Total;
    BaseZones(s.zones, s.added);
    var q := WrongMoved(s.handles[rec := DEFAULT_HANDLE], held, rec);
    WrongBlind(s.handles[rec := DEFAULT_HANDLE], held, rec);
    if Total(s.zones, q) > 0 {
      var z, i := TotalIndex(s.zones, q);
      RecordInUse(s, z, i);
      assert MovedNode(s.zones[z][i], rec) == s.zones[z][i];
      assert Wrong(s.handles, held)(s.zones[z][i]);
      TotalAt(s.zones, Wrong(s.handles, held), z, i);
    }
  }

  lemma StepAdd(s: State, held: Held, z: nat, start: nat, end: nat)
    requires Inv(s) && Refines(s, held) && z < ZONES && Addable(s.added, start, end)
    ensures Inv(AddRegion(s, z, start, end)) && Refines(AddRegion(s, z, start, end), held)
  {
    hide AddRegion, Base, Records, Total, Addable;
    BaseZones(s.zones, s.added);
    var r := AddRegion(s, z, start, end);
    var rec := AddRegionSound(s, z, start, end);
    if r != s {
      WrongAfterAdd(s, held, start, end, rec);
      AddRegionTotal(s, z, start, end, rec, Wrong(r.handles, held), WrongMoved(r.handles, held, rec));
    }
  }

  lemma HeldStarts(s: State, held: Held, b: Block, c: Block)
    requires Inv(s) && Refines(s, held) && b in held && c in held && b.start == c.start
    ensures b == c
  {
    hide Inv, Total;
    assert Live(s, b) && Live(s, c);
    LiveSize(s, b);
    LiveSize(s, c);
    if b != c { BlocksApart(s, b, c); }
  }

  lemma StepFreeHeld(s: State, held: Held, b: Block)
    requires Inv(s) && Refines(s, held) && b in held && !Shadowed(s.added, b.start)
    ensures Inv(Pfree(s, b.start).0) && Refines(Pfree(s, b.start).0, Without(held, b.start))
  {
    hide Base, Pfree, Total, Shadowed;
    BaseZones(s.zones, s.added);
    assert Live(s, b);
    var r := Pfree(s, b.start);
    var rec := PfreeBlock(s, b);
    forall c | c in held && c != b ensures c.start != b.start {
      if c.start == b.start { HeldStarts(s, held, b, c); }
    }
    var held' := Without(held, b.start);
    var wrong, wrong' := Wrong(s.handles, held), Wrong(r.0.handles, held');
    var gone := (x: Info) => ByRecord(rec, Data)(x) || ByBlock(b)(x);
    WrongBlind(s.handles, held, rec);
    PfreeTotal(s, b, wrong);
    assert forall x: Info :: wrong'(x) ==> wrong(x) || gone(x);
    TotalUnion(r.0.zones, wrong', wrong, gone);
    TotalUnion(r.0.zones, gone, ByRecord(rec, Data), ByBlock(b));
  }

  lemma StepFree(s: State, held: Held, data: nat)
    requires Inv(s) && Refines(s, held)
    ensures Inv(Pfree(s, data).0) && Refines(Pfree(s, data).0, Freed(held, s.added, data))
  {
    hide Inv, Pfree, Total, Shadowed;
    if b :| b in held && b.start == data {
      if Shadowed(s.added, data) {
        RefinesLive(s, held, b);
        var _ := PfreeBlock(s, b);
      } else {
        StepFreeHeld(s, held, b);
      }
    } else {
      forall size ensures !Live(s, Block(data, size)) {
        assert Block(data, size) !in held;
      }
      PfreeOther(s, data);
      assert held == Without(held, data);
    }
  }

  /**
   An address is accepted for freeing exactly if a held block starts there and no empty region at
   that address stands ahead of it, in zone order and in the order of addition.
   */
  lemma FreeAccepts(s: State, held: Held, data: nat)
    requires Inv(s) && Refines(s, held)
    ensures Pfree(s, data).1 <==> (exists b :: b in held && b.start == data) && !Shadowed(s.added, data)
    ensures !Pfree(s, data).1 ==> Pfree(s, data).0 == s
  {
    hide Inv, Pfree, Total, Shadowed;
    if b :| b in held && b.start == data {
      RefinesLive(s, held, b);
      var _ := PfreeBlock(s, b);
    } else {
      forall size ensures !Live(s, Block(data, size)) {
        assert Block(data, size) !in held;
      }
      PfreeOther(s, data);
    }
  }

  lemma StepHandleHeld(s: State, held: Held, b: Block, handle: nat)
    requires Inv(s) && Refines(s, held) && b in held && !Shadowed(s.added, b.start)
    ensures Inv(SetHandle(s, b.start, handle))
    ensures Refines(SetHandle(s, b.start, handle), WithHandle(held, b.start, handle))
  {
    hide Base, SetHandle, Total, Shadowed;
    BaseZones(s.zones, s.added);
    assert Live(s, b);
    var rec := SetHandleSound(s, b, handle);
    var s' := SetHandle(s, b.start, handle);
    var held' := WithHandle(held, b.start, handle);
    var wrong' := Wrong(s'.handles, held');
    if Total(s.zones, wrong') > 0 {
      var z, i := TotalIndex(s.zones, wrong');
      var x := s.zones[z][i];
      var w, j :| 0 <= w < |s.zones| && 0 <= j < |s.zones[w]| && ByBlock(b)(s.zones[w][j]) && s.zones[w][j].rec == rec;
      assert (w, j) != (z, i);
      assert x.rec != rec by {
        if x.rec == rec { TotalTwo(s.zones, ByRecord(rec, Data), z, i, w, j); }
      }
      assert !ByBlock(b)(x) by {
        if ByBlock(b)(x) { TotalTwo(s.zones, ByBlock(b), z, i, w, j); }
      }
      var c := Block(x.start, x.size);
      assert c in held && c.start == b.start ==> c == b by {
        if c in held && c.start == b.start { HeldStarts(s, held, b, c); }
      }
      assert Wrong(s.handles, held)(x);
      TotalAt(s.zones, Wrong(s.handles, held), z, i);
    }
  }

  lemma StepHandle(s: State, held: Held, data: nat, handle: nat)
    requires Inv(s) && Refines(s, held)
    ensures Inv(SetHandle(s, data, handle))
    ensures Refines(SetHandle(s, data, handle), Rehandled(held, s.added, data, handle))
  {
    hide Inv, SetHandle, Total, Shadowed;
    if b :| b in held && b.start == data {
      if Shadowed(s.added, data) {
        RefinesLive(s, held, b);
        var _ := SetHandleSound(s, b, handle);
      } else {
        StepHandleHeld(s, held, b, handle);
      }
    } else {
      forall size ensures !Live(s, Block(data, size)) {
        assert Block(data, size) !in held;
      }
      SetHandleOther(s, data, handle);
      assert held == WithHandle(held, data, handle);
    }
  }

  /** A handle update takes effect on a held block under the same condition as a free. */
  lemma HandleTakes(s: State, held: Held, b: Block, handle: nat)
    requires Inv(s) && Refines(s, held) && b in held && held[b] != handle
    ensures Refines(SetHandle(s, b.start, handle), held[b := handle]) <==> !Shadowed(s.added, b.start)
  {
    hide Inv, Refines, SetHandle, Shadowed;
    RefinesLive(s, held, b);
    if Shadowed(s.added, b.start) {
      var _ := SetHandleSound(s, b, handle);
      var z, i := LiveNode(s, b);
      RightHandle(s, held, z, i);
      if Refines(s, held[b := handle]) { RightHandle(s, held[b := handle], z, i); }
    } else {
      StepHandle(s, held, b.start, handle);
      OnlyHeldAt(s, held, b, handle);
    }
  }

  lemma StepSafe(s: State, held: Held, op: Op)
    requires Inv(s) && Refines(s, held) && Legal(s, op)
    ensures Inv(Step(s, op)) && Refines(Step(s, op), Track(held, s, op))
  {
    hide Inv, Refines, Palloc, AddRegion, Pfree, SetHandle, Freed, Rehandled;
    match op
    case Add(z, start, end) =>
      StepAdd(s, held, z, start, end);
    case Alloc(z, size, k) =>
      var _ := PallocSound(s, z, size, k);
      if Palloc(s, z, size, k).1 != 0 { StepAlloc(s, held, z, size, k); }
    case Free(data) =>
      StepFree(s, held, data);
    case Handle(data, handle) =>
      StepHandle(s, held, data, handle);
  }

  /**
   Safety and refinement over every run of region additions, allocations, frees and handle
   updates: the invariant holds in each state, the lists hold exactly the blocks handed out and
   not taken back, each once and with the handle last set on it, and a free is taken exactly at
   the held blocks that no empty region hides.
   */
  lemma {:induction false} RunSafe(trace: seq<State>, ops: seq<Op>, n: nat)
    requires IsRun(trace, ops) && n <= |ops|
    ensures Inv(trace[n]) && Refines(trace[n], HeldAfter(trace, ops, n))
    ensures forall data :: Pfree(trace[n], data).1 <==>
                             && (exists b :: b in HeldAfter(trace, ops, n) && b.start == data)
                             && !Shadowed(trace[n].added, data)
  {
    hide Inv, Refines, Step, Track, Legal, Pfree, Shadowed;
    if n == 0 {
      InitialState();
      InitialRefines();
    } else {
      RunSafe(trace, ops, n - 1);
      StepSafe(trace[n - 1], HeldAfter(trace, ops, n - 1), ops[n - 1]);
    }
    forall data { FreeAccepts(trace[n], HeldAfter(trace, ops, n), data); }
  }

  /**
   Every held block is aligned as it was asked for: it was returned by an allocation of its size, at
   a multiple of the alignment and inside the regions of the zone, and has been held ever since.
   */
  lemma {:induction false} RunAligned(trace: seq<State>, ops: seq<Op>, n: nat, b: Block) returns (m: nat)
    requires IsRun(trace, ops) && n <= |ops| && b in HeldAfter(trace, ops, n)
    ensures m < n && ops[m].Alloc? && ops[m].size == b.size && Legal(trace[m], ops[m])
    ensures b.start == Palloc(trace[m], ops[m].z, ops[m].size, ops[m].k).1
    ensures b.start % Pow2(ops[m].k) == 0
    ensures forall a :: b.start <= a < b.start + b.size ==> InRegions(trace[m].added[ops[m].z], a)
    ensures forall i :: m < i <= n ==> b in HeldAfter(trace, ops, i)
  {
    hide Palloc, Freed, Rehandled, Inv, Refines, Step, InRegions;
    if n > 0 && b in HeldAfter(trace, ops, n - 1) {
      m := RunAligned(trace, ops, n - 1, b);
    } else if n > 0 {
      m := n - 1;
      RunSafe(trace, ops, m);
      TrackNew(HeldAfter(trace, ops, m), trace[m], ops[m], b);
      var _ := PallocSound(trace[m], ops[m].z, ops[m].size, ops[m].k);
    }
  }

  lemma TrackNew(held: Held, s: State, op: Op, b: Block)
    requires Legal(s, op) && b !in held && b in Track(held, s, op)
    ensures op.Alloc? && op.size == b.size && b.start == Palloc(s, op.z, op.size, op.k).1 && b.start != 0
  {
    hide Palloc, Shadowed;
  }

  lemma InitialRefines()
    ensures Refines(INITIAL, map[])
  {
    hide Total;
    forall b ensures Total(INITIAL.zones, ByBlock(b)) == 0 { InitialTotal(ByBlock(b)); }
    InitialTotal(Wrong(map[], map[]));
  }

  /**
   Looking up a handle that is not the default one returns a held block that carries it, if
   there is one, and 0 otherwise.
   */
  lemma LookUp(s: State, held: Held, handle: nat)
    requires Inv(s) && Refines(s, held) && handle != DEFAULT_HANDLE
    ensures var data := FindHandle(s, handle);
            || (data == 0 && forall b :: b in held ==> held[b] != handle)
            || (exists b :: b in held && held[b] == handle && b.start == data)
  {
    hide Base, Find, Total;
    BaseZones(s.zones, s.added);
    var f := Find(s.zones, HandleTest(s.handles, handle));
    if f.0 == ZONES {
      forall b | b in held ensures held[b] != handle {
        RefinesLive(s, held, b);
        var z, i := LiveNode(s, b);
        RightHandle(s, held, z, i);
        var w, j := DetailNode(s, s.zones[z][i].rec);
        assert !HandleTest(s.handles, handle)(s.zones[w][j]);
      }
    } else {
      var d := s.zones[f.0][f.1];
      var rec := Address(d);
      var p := ByRecord(rec, Data);
      assert Total(s.zones, p) == 1;
      var z, i := TotalIndex(s.zones, p);
      var g := Find(s.zones, p);
      assert g.0 < ZONES;
      RightHandle(s, held, g.0, g.1);
      var x := s.zones[g.0][g.1];
      assert Block(x.start, x.size) in held;
    }
  }

  lemma RightHandle(s: State, held: Held, z: nat, i: nat)
    requires Inv(s) && Refines(s, held) && z < ZONES && i < |s.zones[z]| && s.zones[z][i].role == Data
    ensures s.zones[z][i].rec in s.handles && HandleIs(held, s.zones[z][i], s.handles[s.zones[z][i].rec])
  {
    hide Base, Total;
    BaseZones(s.zones, s.added);
    if Wrong(s.handles, held)(s.zones[z][i]) { TotalAt(s.zones, Wrong(s.handles, held), z, i); }
  }

  /** Setting a handle at a held block's address touches that block alone. */
  lemma OnlyHeldAt(s: State, held: Held, b: Block, handle: nat)
    requires Inv(s) && Refines(s, held) && b in held
    ensures WithHandle(held, b.start, handle) == held[b := handle]
  {
    hide Inv, Refines;
    forall c | c in held && c.start == b.start ensures c == b { HeldStarts(s, held, b, c); }
    assert WithHandle(held, b.start, handle) == held[b := handle];
  }

  /** No block starts at address 0, so a result of 0 always means failure. */
  lemma HeldPositive(s: State, held: Held)
    requires Inv(s) && Refines(s, held)
    ensures forall b :: b in held ==> b.start > 0
  {
    hide Inv, Refines;
    forall b | b in held ensures b.start > 0 {
      RefinesLive(s, held, b);
      var z, i := LiveNode(s, b);
    }
  }
}
