/** The Post Memory Manager calls, as clients of the allocator. */
module Pmm {
  import opened Words
  import opened Zones
  import A = Allocator
  import R = AllocatorRuns
  import F = AllocatorRoom
  import opened Malloc
  import opened Wrappers

  lemma {:induction false} CtzDivides(x: nat)
    requires x > 0
    ensures Pow2(Ctz(x)) <= x && x % Pow2(Ctz(x)) == 0
  {
    if x % 2 == 0 {
      CtzDivides(x / 2);
      var p := Pow2(Ctz(x / 2));
      Euclid(x / 2, p);
      assert x == (x / 2 / p) * (2 * p);
      DivModUnique(x, 2 * p, x / 2 / p, 0);
    } else {
      DivModUnique(x, 1, x, 0);
    }
  }

  /** No higher power of two divides it. */
  lemma {:induction false} CtzHighest(x: nat)
    requires x > 0
    ensures x % (2 * Pow2(Ctz(x))) != 0
  {
    if x % 2 == 0 {
      CtzHighest(x / 2);
      var p := 2 * Pow2(Ctz(x / 2));
      if x % (2 * p) == 0 {
        Euclid(x, 2 * p);
        assert x / 2 == x / (2 * p) * p;
        DivModUnique(x / 2, p, x / (2 * p), 0);
      }
    }
  }

  /** The size in bytes of a request for `length` paragraphs, in 32-bit arithmetic. */
  function RequestSize(length: nat): nat {
    U32(length * 16)
  }

  /** The request is taken at its full size exactly below 2^28 paragraphs; above, it wraps. */
  lemma RequestWraps(length: nat)
    ensures RequestSize(length) == length * 16 <==> length < 0x1000_0000
  {
  }

  lemma CtzBound(size: nat)
    requires 0 < size < 0x8000_0000
    ensures Ctz(size) < 31
  {
    CtzDivides(size);
    Pow2Values();
    if Ctz(size) >= 31 { Pow2Mono(31, Ctz(size)); assert false; }
  }

  /** Log of the alignment: the size's own lowest set bit when asked for, at least 16 bytes. */
  function AlignLog(size: nat, natural: bool): (k: nat)
    requires 0 < size < 0x8000_0000
    ensures A.MIN_ALIGN_LOG <= k <= 32
  {
    CtzBound(size);
    if natural && Ctz(size) > A.MIN_ALIGN_LOG then Ctz(size) else A.MIN_ALIGN_LOG
  }

  /** Sixteen bytes or, if natural alignment is asked for, the highest power of two that divides the size. */
  lemma AlignMeans(size: nat, natural: bool)
    requires 0 < size < 0x8000_0000
    ensures !natural ==> Pow2(AlignLog(size, natural)) == 16
    ensures natural && size % 16 == 0 ==>
              var p := Pow2(AlignLog(size, natural)); size % p == 0 && size % (2 * p) != 0
  {
    assert Pow2(A.MIN_ALIGN_LOG) == 16;
    CtzDivides(size);
    CtzHighest(size);
    hide Pow2, Ctz;
    if natural && size % 16 == 0 { LowCtz(size); }
  }

  lemma LowCtz(size: nat)
    requires size > 0 && size % 16 == 0
    ensures Ctz(size) >= 4
  {
    CtzHighest(size);
    assert Pow2(0) == 1 && Pow2(1) == 2 && Pow2(2) == 4 && Pow2(3) == 8;
  }

  /** The request stays within the limit of the allocator's wrap guard. */
  lemma AlignFits(size: nat, natural: bool)
    requires 0 < size < 0x8000_0000
    ensures size + Pow2(AlignLog(size, natural)) <= M
  {
    CtzDivides(size);
    assert Pow2(A.MIN_ALIGN_LOG) == 16;
  }

  /** The largest free space of a zone, less room for a record in the temporary zones. */
  ghost predicate IsSpace(zones: seq<seq<Info>>, z: nat, space: nat)
    requires z < |zones|
  {
    var reserve := if z == A.TMP_HIGH || z == A.TMP_LOW then 48 else 0;
    var l := zones[z];
    && (space > 0 ==> exists i :: 0 <= i < |l| && l[i].end - l[i].start - l[i].size == space + reserve)
    && (forall i :: 0 <= i < |l| ==> l[i].end - l[i].start - l[i].size <= space + reserve)
  }

  ghost predicate IsLarger(zones: seq<seq<Info>>, z: nat, w: nat, space: nat)
    requires z < |zones| && w < |zones|
  {
    exists a: nat, b: nat :: IsSpace(zones, z, a) && IsSpace(zones, w, b) && space == if a > b then a else b
  }

  /** `malloc_getspace`. */
  method GetSpace(heap: Heap, z: nat) returns (space: nat)
    requires heap.Valid() && z < A.ZONES
    ensures z < |heap.zones| && IsSpace(heap.zones, z, space)
  {
    hide A.Base, A.Records, R.Refines;
    A.BaseZones(heap.zones, heap.added);
    var l := heap.zones[z];
    var maxspace := 0;
    for i := 0 to |l|
      invariant maxspace > 0 ==> exists j :: 0 <= j < |l| && l[j].end - l[j].start - l[j].size == maxspace
      invariant forall j :: 0 <= j < i ==> l[j].end - l[j].start - l[j].size <= maxspace
    {
      ChainAt(l, -1, i);
      var s := U32(l[i].end - l[i].start - l[i].size);
      if s > maxspace {
        maxspace := s;
      }
    }
    if z != A.TMP_HIGH && z != A.TMP_LOW {
      return maxspace;
    }
    return if maxspace <= 48 then 0 else maxspace - 48;
  }

  function LowZone(permanent: bool): nat {
    if permanent then A.LOW else A.TMP_LOW
  }

  function HighZone(permanent: bool): nat {
    if permanent then A.HIGH else A.TMP_HIGH
  }

  /** `handle_pmm00` for length zero: the largest free space of the zones in question. */
  method Query(heap: Heap, kind: nat, permanent: bool) returns (space: nat)
    requires heap.Valid() && kind < 4
    ensures |heap.zones| == A.ZONES
    ensures kind == 0 ==> space == 0
    ensures kind == 1 ==> IsSpace(heap.zones, if permanent then A.LOW else A.TMP_LOW, space)
    ensures kind == 2 ==> IsSpace(heap.zones, if permanent then A.HIGH else A.TMP_HIGH, space)
    ensures kind == 3 ==> IsLarger(heap.zones, if permanent then A.LOW else A.TMP_LOW,
                                   if permanent then A.HIGH else A.TMP_HIGH, space)
  {
    A.BaseZones(heap.zones, heap.added);
    hide A.Inv, R.Refines, IsSpace;
    if kind == 0 { return 0; }
    if kind == 1 {
      space := GetSpace(heap, LowZone(permanent));
    } else if kind == 2 {
      space := GetSpace(heap, HighZone(permanent));
    } else {
      var low := GetSpace(heap, LowZone(permanent));
      var high := GetSpace(heap, HighZone(permanent));
      space := if low > high then low else high;
      assert IsLarger(heap.zones, LowZone(permanent), HighZone(permanent), space);
    }
  }

  /** The zones a request is tried in; a permanent high request falls back to temporary memory. */
  function Choices(kind: nat, permanent: bool): seq<nat> {
    if kind == 1 then [LowZone(permanent)]
    else if kind == 2 then [HighZone(permanent)] + if permanent then [A.TMP_HIGH] else []
    else if kind == 3 then [LowZone(permanent), HighZone(permanent)]
    else []
  }

  /** The zones for each value of the flags. */
  lemma ChoiceZones(permanent: bool)
    ensures Choices(0, permanent) == []
    ensures Choices(1, permanent) == [if permanent then A.LOW else A.TMP_LOW]
    ensures Choices(2, permanent) == if permanent then [A.HIGH, A.TMP_HIGH] else [A.TMP_HIGH]
    ensures Choices(3, permanent) == if permanent then [A.LOW, A.HIGH] else [A.TMP_LOW, A.TMP_HIGH]
  {
  }

  /** What the first of these zones with room gives. */
  ghost function Served(s: A.State, choices: seq<nat>, size: nat, k: nat): nat
    requires A.Inv(s) && k <= 32 && size + Pow2(k) <= M && forall i :: 0 <= i < |choices| ==> choices[i] < A.ZONES
  {
    if choices == [] then 0 else
    var data := A.Palloc(s, choices[0], size, k).1;
    if data != 0 then data else Served(s, choices[1..], size, k)
  }

  /** A request is served if and only if a zone can, by the first that can, at the top of its first range with room. */
  lemma {:induction false} ServedExact(s: A.State, choices: seq<nat>, size: nat, k: nat)
    requires A.Inv(s) && k <= 32 && size + Pow2(k) <= M && forall i :: 0 <= i < |choices| ==> choices[i] < A.ZONES
    ensures |s.zones| == A.ZONES
    ensures Served(s, choices, size, k) != 0 <==>
              exists n :: 0 <= n < |choices| && F.Servable(s, choices[n], size, k)
    ensures Served(s, choices, size, k) != 0 ==>
              exists n, i :: && 0 <= n < |choices| && F.Takes(s.zones[choices[n]], size, k, i, Served(s, choices, size, k))
                             && forall m :: 0 <= m < n ==> !F.Servable(s, choices[m], size, k)
  {
    hide A.Base, A.Records, A.Palloc, F.Servable, F.Takes, F.RecordFrom;
    A.BaseZones(s.zones, s.added);
    if choices != [] {
      F.PallocExact(s, choices[0], size, k);
      var rest := choices[1..];
      ServedExact(s, rest, size, k);
      if !F.Servable(s, choices[0], size, k) && Served(s, rest, size, k) != 0 {
        var n, i :| && 0 <= n < |rest| && F.Takes(s.zones[rest[n]], size, k, i, Served(s, rest, size, k))
                    && forall m :: 0 <= m < n ==> !F.Servable(s, rest[m], size, k);
        assert choices[n + 1] == rest[n];
        assert forall m :: 1 <= m < n + 1 ==> choices[m] == rest[m - 1];
      }
    }
  }

  lemma ServedOne(s: A.State, z: nat, size: nat, k: nat)
    requires A.Inv(s) && k <= 32 && size + Pow2(k) <= M && z < A.ZONES
    ensures Served(s, [z], size, k) == A.Palloc(s, z, size, k).1
  {
    hide A.Palloc, A.Inv;
    assert [z][1..] == [];
  }

  lemma NoneServed(s: A.State, size: nat, k: nat)
    requires A.Inv(s) && k <= 32 && size + Pow2(k) <= M
    ensures Served(s, [], size, k) == 0
  {
  }

  lemma ServedTwo(s: A.State, z: nat, w: nat, size: nat, k: nat)
    requires A.Inv(s) && k <= 32 && size + Pow2(k) <= M && z < A.ZONES && w < A.ZONES
    ensures var data := A.Palloc(s, z, size, k).1;
            Served(s, [z, w], size, k) == if data != 0 then data else A.Palloc(s, w, size, k).1
  {
    hide A.Palloc, A.Inv;
    assert [z, w][1..] == [w];
    ServedOne(s, w, size, k);
  }

  /** Try the zones that the flags allow; a block from the wrong kind of memory is reported in `reserve`. */
  method Serve(heap: Heap, size: nat, k: nat, kind: nat, permanent: bool) returns (data: nat, reserve: Option<A.Block>)
    requires heap.Valid() && k <= 32 && size + Pow2(k) <= M && kind < 4
    modifies heap
    ensures heap.Valid()
    ensures data == 0 ==> heap.Value() == old(heap.Value()) && heap.held == old(heap.held)
    ensures data != 0 ==>
              && data % Pow2(k) == 0 && A.Block(data, size) !in old(heap.held) && kind != 0
              && heap.held == old(heap.held)[A.Block(data, size) := A.DEFAULT_HANDLE]
    ensures data == Served(old(heap.Value()), Choices(kind, permanent), size, k)
    ensures reserve.Some? <==> data != 0 && permanent && kind == 2 && A.Palloc(old(heap.Value()), A.HIGH, size, k).1 == 0
    ensures reserve.Some? ==> reserve.value == A.Block(data, size)
  {
    hide A.Inv, R.Refines, A.Palloc, Served;
    reserve := None;
    ghost var s := heap.Value();
    var low, high := LowZone(permanent), HighZone(permanent);
    if kind == 0 {
      NoneServed(s, size, k);
      data := 0;
    } else if kind == 1 {
      ServedOne(s, low, size, k);
      data := heap.Palloc(low, size, k);
    } else if kind == 2 {
      ServedOne(s, high, size, k);
      ServedTwo(s, high, A.TMP_HIGH, size, k);
      assert Choices(kind, permanent) == if permanent then [high, A.TMP_HIGH] else [high];
      data := heap.Palloc(high, size, k);
      if data == 0 && permanent {
        data := heap.Palloc(A.TMP_HIGH, size, k);
        if data != 0 {
          reserve := Some(A.Block(data, size));
        }
      }
    } else {
      ServedTwo(s, low, high, size, k);
      data := heap.Palloc(low, size, k);
      if data == 0 {
        data := heap.Palloc(high, size, k);
      }
    }
  }

  /**
   `handle_pmm00` for a non-zero length. `kind` is `flags & 3`, `natural` is `flags & 4` and
   `permanent` is `flags & 8`; `reserve` is the range passed to `e820_add` when a permanent
   request had to be served from the temporary high zone.
   */
  method Allocate(heap: Heap, length: nat, handle: nat, kind: nat, natural: bool, permanent: bool)
    returns (data: nat, reserve: Option<A.Block>)
    requires heap.Valid() && 0 < length < M && kind < 4
    modifies heap
    ensures heap.Valid()
    ensures data == 0 ==> heap.Value() == old(heap.Value()) && heap.held == old(heap.held)
    ensures data != 0 ==>
              var b := A.Block(data, RequestSize(length));
              && 0 < b.size < 0x8000_0000 && kind != 0
              && data % Pow2(AlignLog(b.size, natural)) == 0
              && b !in old(heap.held)
              && heap.held == old(heap.held)[b := if A.Shadowed(heap.added, data) then A.DEFAULT_HANDLE else handle]
    ensures var size := RequestSize(length);
            0 < size < 0x8000_0000 ==>
              && size + Pow2(AlignLog(size, natural)) <= M
              && data == Served(old(heap.Value()), Choices(kind, permanent), size, AlignLog(size, natural))
    ensures reserve.Some? <==> data != 0 && permanent && kind == 2
                               && A.Palloc(old(heap.Value()), A.HIGH, RequestSize(length),
                                           AlignLog(RequestSize(length), natural)).1 == 0
    ensures reserve.Some? ==> reserve.value == A.Block(data, RequestSize(length))
  {
    hide A.Inv, R.Refines, A.Palloc, A.SetHandle, A.Shadowed, Served, AlignLog, RequestSize;
    reserve := None;
    var size := RequestSize(length);
    if size == 0 || size >= 0x8000_0000 {
      return 0, None;
    }
    var k := AlignLog(size, natural);
    AlignFits(size, natural);
    data, reserve := Serve(heap, size, k, kind, permanent);
    if data != 0 && handle != A.DEFAULT_HANDLE {
      ghost var b := A.Block(data, size);
      R.OnlyHeldAt(heap.Value(), heap.held, b, handle);
      heap.SetHandle(data, handle);
    }
  }

  /** `handle_pmm01`. */
  method FindBuffer(heap: Heap, handle: nat) returns (data: nat)
    requires heap.Valid()
    ensures data != 0 ==> exists b :: b in heap.held && b.start == data && heap.held[b] == handle
    ensures handle == A.DEFAULT_HANDLE ==> data == 0
    ensures data == 0 && handle != A.DEFAULT_HANDLE ==> forall b :: b in heap.held ==> heap.held[b] != handle
  {
    if handle == A.DEFAULT_HANDLE {
      return 0;
    }
    data := heap.FindHandle(handle);
    if data == 0 { R.HeldPositive(heap.Value(), heap.held); }
  }

  /** `handle_pmm02`: 0 for success, 1 for an address that is no held block or that an empty region hides. */
  method Deallocate(heap: Heap, buffer: nat) returns (status: nat)
    requires heap.Valid()
    modifies heap
    ensures heap.Valid() && heap.held == R.Freed(old(heap.held), heap.added, buffer) && heap.added == old(heap.added)
    ensures status == if (exists b :: b in old(heap.held) && b.start == buffer) && !A.Shadowed(heap.added, buffer)
                      then 0 else 1
  {
    var ok := heap.Pfree(buffer);
    status := if ok then 0 else 1;
  }
}
