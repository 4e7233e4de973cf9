/**
 What an empty region does to an allocator run. `malloc_preinit` gives the temporary high zone what
 is left of a RAM entry below the permanent high zone, which may be nothing. If there is room for a
 record elsewhere, the marker of that empty region is kept, and the search for a block at the first
 address of the permanent zone stops at it.
 */
module AllocatorHidden {
  import opened Words
  import opened Zones
  import opened Allocator
  import opened AllocatorRuns

  const TOP := 0x10_0000

  /** The first `n` records carved from a temporary low region up to 0x2000. */
  function Carvings(n: nat): seq<Info>
    requires n <= 4
  {
    seq(n, i requires 0 <= i < n => Info(8144 - 48 * i, 8192 - 48 * i, RECORD_SIZE, 8144 - 48 * i, Detail))
  }

  /** The temporary low zone with `n` records in use. */
  function LowList(n: nat, rec: nat): seq<Info>
    requires n <= 4
  {
    Carvings(n) + [Info(4096, 8192 - 48 * n, 0, rec, Data)]
  }

  lemma RecordFit(x: Info)
    requires x.Wf() && x.end % 16 == 0
    ensures Fit(x, RECORD_SIZE, MIN_ALIGN_LOG)
            == if x.end >= 48 && x.end - 48 >= x.start + x.size then x.end - 48 else -1
  {
    hide Fit;
    assert Pow2(MIN_ALIGN_LOG) == 16;
    FitDefinition(x, RECORD_SIZE, MIN_ALIGN_LOG);
  }

  lemma FirstFitAt(l: seq<Info>, size: nat, k: nat, i: nat)
    requires k <= 32 && i <= |l| && (i < |l| ==> Fit(l[i], size, k) >= 0)
    requires forall j :: 0 <= j < i ==> Fit(l[j], size, k) < 0
    ensures FirstFit(l, size, k) == i
  {
    hide Fit;
    var _ := FirstFit(l, size, k);
  }

  lemma LowAlloc(n: nat, rec: nat)
    requires n < 4
    ensures var at := 8144 - 48 * n;
            AllocNew(LowList(n, rec), RECORD_SIZE, MIN_ALIGN_LOG, 0, Detail)
            == (Carvings(n) + [Info(at, at + 48, RECORD_SIZE, 0, Detail), Info(4096, at, 0, rec, Data)], at)
  {
    hide Fit, FirstFit;
    var l := LowList(n, rec);
    forall j | 0 <= j <= n ensures Fit(l[j], RECORD_SIZE, MIN_ALIGN_LOG) >= 0 <==> j == n { RecordFit(l[j]); }
    RecordFit(l[n]);
    FirstFitAt(l, RECORD_SIZE, MIN_ALIGN_LOG, n);
    var at := 8144 - 48 * n;
    assert Fit(l[n], RECORD_SIZE, MIN_ALIGN_LOG) == at;
    assert l[..n] == Carvings(n) && l[n + 1..] == [];
    assert Carvings(n) + Carved(l[n], at, RECORD_SIZE, 0, Detail) + []
           == Carvings(n) + [Info(at, at + 48, RECORD_SIZE, 0, Detail), Info(4096, at, 0, rec, Data)];
  }

  lemma LowMoved(n: nat, rec: nat)
    requires n < 4 && rec == if n == 0 then 0 else 8144
    ensures var at := 8144 - 48 * n;
            Moved(Carvings(n) + [Info(at, at + 48, RECORD_SIZE, 0, Detail), Info(4096, at, 0, rec, Data)], at)
            == LowList(n + 1, 8144)
  {
    var at := 8144 - 48 * n;
    var l := Carvings(n) + [Info(at, at + 48, RECORD_SIZE, 0, Detail), Info(4096, at, 0, rec, Data)];
    forall i | 0 <= i < |l| ensures Moved(l, at)[i] == LowList(n + 1, 8144)[i] { }
  }

  /** The record goes to the low zone when the high one has no room. */
  lemma LowDetail(zones: seq<seq<Info>>, n: nat, rec: nat)
    requires |zones| == ZONES && n < 4 && rec == if n == 0 then 0 else 8144
    requires zones[TMP_LOW] == LowList(n, rec)
    requires zones[TMP_HIGH] == [] || exists r :: zones[TMP_HIGH] == [Info(TOP, TOP, 0, r, Data)]
    ensures NewDetail(zones).1 == 8144 - 48 * n
    ensures var r := NewDetail(zones); |r.0| == ZONES && Moved(r.0[TMP_LOW], r.1) == LowList(n + 1, 8144)
    ensures forall z :: 0 < z < ZONES ==> NewDetail(zones).0[z] == zones[z]
  {
    hide Fit, FirstFit, Moved, LowList, Carvings;
    var l := zones[TMP_HIGH];
    if l != [] { RecordFit(l[0]); }
    FirstFitAt(l, RECORD_SIZE, MIN_ALIGN_LOG, |l|);
    LowAlloc(n, rec);
    LowMoved(n, rec);
  }

  lemma MovedSingle(x: Info, rec: nat)
    ensures Moved([x], rec) == [MovedNode(x, rec)] && Moved([], rec) == []
  {
  }

  const LOW_REGION := Region(4096, 8192)

  lemma FirstAdd() returns (s: State)
    ensures s == AddRegion(INITIAL, TMP_LOW, 4096, 8192)
    ensures s.zones == [LowList(1, 8144), [], [], [], []]
    ensures s.added == [[LOW_REGION], [], [], [], []]
  {
    hide NewDetail, Moved;
    s := AddRegion(INITIAL, TMP_LOW, 4096, 8192);
    var zones := INITIAL.zones[TMP_LOW := InsertMarker([], 4096, 8192, 0)];
    assert zones[TMP_LOW] == LowList(0, 0);
    LowDetail(zones, 0, 0);
    MovedSingle(zones[TMP_LOW][0], 8144);
    assert [] + [LOW_REGION] == [LOW_REGION];
  }

  lemma SecondAdd(s: State) returns (t: State)
    requires s.zones == [LowList(1, 8144), [], [], [], []] && s.added == [[LOW_REGION], [], [], [], []]
    ensures t == AddRegion(s, TMP_HIGH, TOP, TOP)
    ensures t.zones == [LowList(2, 8144), [], [], [Info(TOP, TOP, 0, 8096, Data)], []]
    ensures t.added == [[LOW_REGION], [], [], [Region(TOP, TOP)], []]
  {
    hide NewDetail, Moved, LowList;
    t := AddRegion(s, TMP_HIGH, TOP, TOP);
    var zones := s.zones[TMP_HIGH := InsertMarker([], TOP, TOP, 0)];
    assert zones[TMP_HIGH] == [Info(TOP, TOP, 0, 0, Data)];
    LowDetail(zones, 1, 8144);
    MovedSingle(zones[TMP_HIGH][0], 8096);
    assert [] + [Region(TOP, TOP)] == [Region(TOP, TOP)];
  }

  lemma ThirdAdd(s: State) returns (t: State)
    requires s.zones == [LowList(2, 8144), [], [], [Info(TOP, TOP, 0, 8096, Data)], []]
    requires s.added == [[LOW_REGION], [], [], [Region(TOP, TOP)], []]
    ensures t == AddRegion(s, HIGH, TOP, TOP + 64)
    ensures t.zones == [LowList(3, 8144), [], [], [Info(TOP, TOP, 0, 8096, Data)], [Info(TOP, TOP + 64, 0, 8048, Data)]]
    ensures t.added == [[LOW_REGION], [], [], [Region(TOP, TOP)], [Region(TOP, TOP + 64)]]
  {
    hide NewDetail, Moved, LowList;
    t := AddRegion(s, HIGH, TOP, TOP + 64);
    var zones := s.zones[HIGH := InsertMarker([], TOP, TOP + 64, 0)];
    assert zones[HIGH] == [Info(TOP, TOP + 64, 0, 0, Data)];
    LowDetail(zones, 2, 8144);
    MovedSingle(zones[TMP_HIGH][0], 8048);
    MovedSingle(zones[HIGH][0], 8048);
    assert [] + [Region(TOP, TOP + 64)] == [Region(TOP, TOP + 64)];
  }

  lemma Served(s: State)
    requires s.zones == [LowList(3, 8144), [], [], [Info(TOP, TOP, 0, 8096, Data)], [Info(TOP, TOP + 64, 0, 8048, Data)]]
    requires s.added == [[LOW_REGION], [], [], [Region(TOP, TOP)], [Region(TOP, TOP + 64)]]
    ensures Palloc(s, HIGH, 64, MIN_ALIGN_LOG).1 == TOP
    ensures Palloc(s, HIGH, 64, MIN_ALIGN_LOG).0.added == s.added
  {
    hide NewDetail, MovedAll, LowList, Fit;
    var l := s.zones[HIGH];
    assert Pow2(MIN_ALIGN_LOG) == 16;
    FitDefinition(l[0], 64, MIN_ALIGN_LOG);
    FirstFitAt(l, 64, MIN_ALIGN_LOG, 0);
    var block := AllocNew(l, 64, MIN_ALIGN_LOG, 0, Data);
    var zones := s.zones[HIGH := block.0];
    LowDetail(zones, 3, 8144);
  }

  /**
   A run that adds an empty region ahead of a zone's first address and then allocates the block
   there: the block is held, but can be neither freed nor given a handle.
   */
  lemma HiddenBlock() returns (trace: seq<State>, ops: seq<Op>)
    ensures ops == [Add(TMP_LOW, 4096, 8192), Add(TMP_HIGH, TOP, TOP), Add(HIGH, TOP, TOP + 64),
                    Alloc(HIGH, 64, MIN_ALIGN_LOG)]
    ensures IsRun(trace, ops) && Block(TOP, 64) in HeldAfter(trace, ops, 4) && |trace[4].zones| == ZONES
    ensures Pfree(trace[4], TOP) == (trace[4], false)
    ensures forall handle :: SetHandle(trace[4], TOP, handle) == trace[4]
  {
    hide AddRegion, Palloc, Pfree, SetHandle, Inv, Refines, LowList;
    ops := [Add(TMP_LOW, 4096, 8192), Add(TMP_HIGH, TOP, TOP), Add(HIGH, TOP, TOP + 64),
            Alloc(HIGH, 64, MIN_ALIGN_LOG)];
    assert Pow2(MIN_ALIGN_LOG) == 16;
    var s1 := FirstAdd();
    var s2 := SecondAdd(s1);
    var s3 := ThirdAdd(s2);
    Served(s3);
    var s4 := Palloc(s3, HIGH, 64, MIN_ALIGN_LOG).0;
    trace := [INITIAL, s1, s2, s3, s4];
    assert Legal(INITIAL, ops[0]) && Legal(s1, ops[1]) && Legal(s2, ops[2]) && Legal(s3, ops[3]);
    RunSafe(trace, ops, 4);
    TopShadowed(s4.added);
    HiddenLive(s4, HeldAfter(trace, ops, 4));
  }

  lemma TopShadowed(added: seq<seq<Region>>)
    requires added == [[LOW_REGION], [], [], [Region(TOP, TOP)], [Region(TOP, TOP + 64)]]
    ensures Shadowed(added, TOP)
  {
    assert Region(TOP, TOP) in added[3];
    assert EmptyBefore(added, 4, TOP);
    assert added[4][0].start <= TOP < added[4][0].end;
  }

  lemma HiddenLive(s: State, held: Held)
    requires Inv(s) && Refines(s, held) && Block(TOP, 64) in held && Shadowed(s.added, TOP)
    ensures |s.zones| == ZONES && Pfree(s, TOP) == (s, false) && forall handle :: SetHandle(s, TOP, handle) == s
  {
    hide Pfree, SetHandle, Refines, Shadowed, Records;
    var b := Block(TOP, 64);
    RefinesLive(s, held, b);
    var _ := PfreeBlock(s, b);
    forall handle ensures SetHandle(s, TOP, handle) == s {
      var _ := SetHandleSound(s, b, handle);
    }
  }
}
