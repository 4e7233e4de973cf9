/** The e820 table as the C code keeps it: an array of fixed size and a count, changed in place. */
module E820Map {
  import opened Words
  import opened E820
  import opened Wrappers

  class Table {
    const list: array<Entry>
    var count: nat

    ghost predicate Valid()
      reads this
    {
      count <= list.Length
    }

    /** The entries in use. */
    ghost function Contents(): seq<Entry>
      reads this, list
      requires Valid()
    {
      list[..count]
    }

    constructor (capacity: nat)
      ensures Valid() && fresh(list) && list.Length == capacity && Contents() == []
    {
      list := new Entry[capacity](_ => Entry(0, 0, 0));
      count := 0;
    }

    /** `remove_e820`: close the gap at `i`. An index outside the table is refused. */
    method Remove(i: nat)
      requires Valid()
      modifies this`count, list
      ensures Valid()
      ensures i >= old(count) ==> Contents() == old(Contents())
      ensures i < old(count) ==> Contents() == old(Contents())[..i] + old(Contents())[i + 1..]
    {
      if i >= count {
        return;
      }
      ghost var before := Contents();
      count := count - 1;
      for k := i to count
        invariant count == |before| - 1 && count < list.Length
        invariant forall j :: 0 <= j < i ==> list[j] == before[j]
        invariant forall j :: i <= j < k ==> list[j] == before[j + 1]
        invariant forall j :: k <= j < |before| ==> list[j] == before[j]
      {
        list[k] := list[k + 1];
      }
      assert Contents() == before[..i] + before[i + 1..];
    }

    /** `insert_e820`: open a gap at `i`, unless the table is full. */
    method Insert(i: nat, e: Entry)
      requires Valid() && i <= count
      modifies this`count, list
      ensures Valid()
      ensures old(count) == list.Length ==> Contents() == old(Contents())
      ensures old(count) < list.Length ==> Contents() == old(Contents())[..i] + [e] + old(Contents())[i..]
    {
      if count >= list.Length {
        return;
      }
      ghost var before := Contents();
      for k := count downto i
        invariant count == |before| && count < list.Length
        invariant forall j :: 0 <= j < k ==> list[j] == before[j]
        invariant forall j :: k < j <= count ==> list[j] == before[j - 1]
      {
        list[k + 1] := list[k];
      }
      count := count + 1;
      list[i] := e;
      assert Contents() == before[..i] + [e] + before[i..];
    }

    /** The first entry that ends at or after `start`. */
    method Find(start: nat) returns (i: nat)
      requires Valid()
      ensures i == Position(Contents(), start)
    {
      i := 0;
      while i < count
        invariant i <= count
        invariant forall j :: 0 <= j < i ==> list[j].EndWord() < start
      {
        var end := U64(list[i].start + list[i].size);
        if start <= end {
          break;
        }
        i := i + 1;
      }
    }

    /** Split entry `i` around the new range. */
    method Split(i: nat, start: nat, end: nat)
      requires Valid() && i < count && list[i].start < start
      modifies this`count, list
      ensures Valid()
      ensures var l := old(Contents());
              var c := SplitAround(l[..i], l[i], l[i + 1..], |l| >= list.Length, start, end);
              |c.pre| == i + 1 && Contents() == c.pre + c.rest
    {
      ghost var l := Contents();
      var e := list[i];
      var eEnd := U64(e.start + e.size);
      list[i] := Entry(e.start, start - e.start, e.kind);
      ghost var left := l[..i] + [Entry(e.start, start - e.start, e.kind)];
      assert Contents() == left + l[i + 1..];
      if eEnd > end {
        Insert(i + 1, Entry(end, eEnd - end, e.kind));
        assert count > |l| ==> Contents() == left + ([Entry(end, eEnd - end, e.kind)] + l[i + 1..]);
      }
    }

    /** Find the position of the new range and split or merge the entry it starts in. */
    method Cut(start: nat, end: nat, kind: Option<nat>) returns (i: nat, start': nat)
      requires Valid()
      modifies this`count, list
      ensures Valid()
      ensures var c := CutAt(old(Contents()), list.Length, start, end, kind);
              i == |c.pre| && start' == c.start && Contents() == c.pre + c.rest
    {
      hide SplitAround, Position, CutAt;
      ghost var l := Contents();
      i := Find(start);
      start' := start;
      CutAtCases(l, list.Length, start, end, kind, i);
      assert l == l[..i] + l[i..];
      if i < count && start > list[i].start {
        if kind == Some(list[i].kind) {
          start' := list[i].start;
        } else {
          Split(i, start, end);
          i := i + 1;
        }
      }
    }

    /** Remove the entries from `i` on that end by `end`. */
    method DropFrom(i: nat, end: nat, ghost kind: Option<nat>)
      requires Valid() && i <= count
      modifies this`count, list
      ensures Valid() && i <= count && Contents()[..i] == old(Contents())[..i]
      ensures Clip(Contents()[i..], end, kind) == Clip(old(Contents())[i..], end, kind)
      ensures i < count ==> end < list[i].start || end < list[i].EndWord()
    {
      ghost var l := Contents();
      while i < count && end >= list[i].start && end >= U64(list[i].start + list[i].size)
        invariant Valid() && i <= count && Contents()[..i] == l[..i]
        invariant Clip(Contents()[i..], end, kind) == Clip(l[i..], end, kind)
      {
        ghost var rest := Contents()[i..];
        Remove(i);
        assert Contents()[i..] == rest[1..];
      }
    }

    /** Remove or cut the entries from `i` on that the new range overlaps. */
    method ClipFrom(i: nat, end: nat, kind: Option<nat>) returns (extra: nat)
      requires Valid() && i <= count
      modifies this`count, list
      ensures Valid()
      ensures var r := Clip(old(Contents())[i..], end, kind);
              extra == r.1 && Contents() == old(Contents())[..i] + r.0
    {
      DropFrom(i, end, kind);
      ghost var l, rest := Contents(), Contents()[i..];
      assert l == l[..i] + rest;
      extra := 0;
      if i < count && end >= list[i].start {
        var e := list[i];
        assert rest[0] == e;
        var eEnd := U64(e.start + e.size);
        list[i] := Entry(end, eEnd - end, e.kind);
        assert Contents() == l[..i] + ([Entry(end, eEnd - end, e.kind)] + rest[1..]);
        if kind == Some(e.kind) {
          extra := eEnd - end;
          Remove(i);
          assert Contents() == l[..i] + rest[1..];
        }
      }
    }

    /** Cut the list, clip what follows and put the new entry in between. */
    method AddRange(start: nat, size: nat, kind: Option<nat>)
      requires Valid()
      modifies this`count, list
      ensures Valid()
      ensures var c := CutAt(old(Contents()), list.Length, start, U64(start + size), kind);
              Contents() == Assembled(c, list.Length, start, size, kind).0
    {
      hide CutAt, Clip;
      var end := U64(start + size);
      ghost var c := CutAt(Contents(), list.Length, start, end, kind);
      var i, start' := Cut(start, end, kind);
      assert Contents()[..i] == c.pre && Contents()[i..] == c.rest;
      var extra := ClipFrom(i, end, kind);
      ghost var kept := Clip(c.rest, end, kind).0;
      if kind.Some? {
        assert Contents()[..i] == c.pre && Contents()[i..] == kept;
        Insert(i, Entry(start', U64(size + (start - start') + extra), kind.value));
      }
    }

    /** `e820_add`, and `e820_remove` when `kind` is `None`. */
    method Add(start: nat, size: nat, kind: Option<nat>)
      requires Valid() && start < LIMIT && size < LIMIT
      modifies this`count, list
      ensures Valid()
      ensures Contents() == Added(old(Contents()), list.Length, start, size, kind).0
      ensures old(Ordered(Contents())) && start + size < LIMIT ==>
                && Ordered(Contents())
                && (old(Coalesced(Contents())) ==> Coalesced(Contents()))
    {
      hide CutAt, Assembled, Ordered, Coalesced;
      if size == 0 {
        return;
      }
      ghost var l := Contents();
      if Ordered(l) && start + size < LIMIT {
        AddedView(l, list.Length, start, size, kind, 0);
        if Coalesced(l) { AddedCoalesced(l, list.Length, start, size, kind); }
      }
      AddRange(start, size, kind);
    }

    /**
     `e820_is_used`: does any mapped address fall in the range? An empty range counts as used
     when the addresses on both sides of it belong to one entry.
     */
    method IsUsed(start: nat, size: nat) returns (used: bool)
      requires Valid() && Ordered(Contents()) && start + size < LIMIT
      ensures size > 0 ==> (used <==> exists a :: start <= a < start + size && TypeAt(Contents(), a).Some?)
      ensures size == 0 ==> (used <==> exists j :: 0 <= j < count && list[j].start < start < list[j].End())
    {
      ghost var l := Contents();
      NoEndWraps(l);
      for i := 0 to count
        invariant forall j :: 0 <= j < i ==> start + size <= l[j].start || start >= l[j].End()
      {
        OrderedParts(l, i);
        var e := list[i];
        if U64(start + size) > e.start && start < U64(e.start + e.size) {
          var a := if start < e.start then e.start else start;
          TypeAtIndex(l, i, a);
          assert size > 0 ==> start <= a < start + size && TypeAt(Contents(), a).Some?;
          return true;
        }
      }
      forall a | start <= a < start + size ensures TypeAt(l, a) == None {
        TypeAtNone(l, a);
      }
      return false;
    }
  }

  // ----- build_e820_map

  /** A UEFI memory descriptor: type, physical start and number of 4 KiB pages. */
  datatype Descriptor = Descriptor(kind: nat, start: nat, pages: nat) {
    function Size(): nat { pages * 4096 }
    /** The size as the C code computes it, in a 64-bit word. */
    function SizeWord(): nat { U64(pages * 4096) }
  }

  const RAM := 1
  const RESERVED := 2
  const ACPI := 3
  const NVS := 4

  /** UEFI types to e820 types, ACPI 4.0 Errata A, table 14-6. */
  function ConvertMemoryType(kind: nat): (t: nat)
    ensures t in {RAM, RESERVED, ACPI, NVS}
    ensures t == RAM <==> 1 <= kind <= 4 || kind == 7
    ensures t == ACPI <==> kind == 9
    ensures t == NVS <==> kind == 10
  {
    match kind
    case 7 | 1 | 2 | 3 | 4 => RAM
    case 9 => ACPI
    case 10 => NVS
    case _ => RESERVED
  }

  ghost predicate NoWrapDescriptors(ds: seq<Descriptor>) {
    forall i :: 0 <= i < |ds| ==> ds[i].start + ds[i].Size() < LIMIT
  }

  predicate StartsInWord(ds: seq<Descriptor>) {
    forall i :: 0 <= i < |ds| ==> ds[i].start < LIMIT
  }

  /** One request per non-empty descriptor, in order. */
  function DescriptorRequests(ds: seq<Descriptor>): (ops: seq<Request>)
    ensures |ops| <= |ds|
  {
    if ds == [] then [] else
      var d := ds[|ds| - 1];
      DescriptorRequests(ds[..|ds| - 1])
      + (if d.SizeWord() == 0 then [] else [Request(d.start, d.SizeWord(), Some(ConvertMemoryType(d.kind)))])
  }

  /** The fixed layout of the first megabyte. */
  const LOW_REQUESTS := [
    Request(0, 0x100000, None),
    Request(0, 0x80000, Some(RAM)),
    Request(0x80000, 0x20000, Some(RESERVED)),
    Request(0xa0000, 0x100000 - 0xa0000, Some(RESERVED))
  ]

  /** The type of the last descriptor that covers an address. */
  function LastDescriptor(ds: seq<Descriptor>, a: int): Option<nat> {
    if ds == [] then None else
      var d := ds[|ds| - 1];
      if d.start <= a < d.start + d.Size() then Some(ConvertMemoryType(d.kind))
      else LastDescriptor(ds[..|ds| - 1], a)
  }

  /** What the finished map must say. */
  function BootMap(ds: seq<Descriptor>, a: int): Option<nat> {
    if 0 <= a < 0x80000 then Some(RAM)
    else if 0x80000 <= a < 0x100000 then Some(RESERVED)
    else LastDescriptor(ds, a)
  }

  lemma {:induction false} DescriptorIdeal(ds: seq<Descriptor>, a: int)
    requires NoWrapDescriptors(ds)
    ensures NoWrap(DescriptorRequests(ds)) && Ideal(DescriptorRequests(ds), a) == LastDescriptor(ds, a)
  {
    if ds == [] {
    } else {
      var init, d := ds[..|ds| - 1], ds[|ds| - 1];
      DescriptorIdeal(init, a);
      var ops := DescriptorRequests(init);
      if d.SizeWord() == 0 {
        assert ops + [] == ops;
      } else {
        IdealSnoc(ops, Request(d.start, d.SizeWord(), Some(ConvertMemoryType(d.kind))), a);
      }
    }
  }

  lemma IdealSnoc(ops: seq<Request>, op: Request, a: int)
    ensures Ideal(ops + [op], a) == if op.start <= a < op.start + op.size then op.kind else Ideal(ops, a)
  {
    assert (ops + [op])[..|ops|] == ops;
  }

  lemma BootIdeal(ds: seq<Descriptor>, a: int)
    requires NoWrapDescriptors(ds)
    ensures NoWrap(DescriptorRequests(ds) + LOW_REQUESTS)
    ensures Ideal(DescriptorRequests(ds) + LOW_REQUESTS, a) == BootMap(ds, a)
  {
    hide Ideal, DescriptorRequests, LastDescriptor;
    DescriptorIdeal(ds, a);
    var ops := DescriptorRequests(ds);
    var r := LOW_REQUESTS;
    IdealSnoc(ops, r[0], a);
    IdealSnoc(ops + [r[0]], r[1], a);
    IdealSnoc(ops + [r[0]] + [r[1]], r[2], a);
    IdealSnoc(ops + [r[0]] + [r[1]] + [r[2]], r[3], a);
    assert ops + r == ops + [r[0]] + [r[1]] + [r[2]] + [r[3]];
  }

  /**
   The boot map: at every address the finished table reports the boot map's type or, only if the
   table overflowed, nothing; it cannot overflow with two table slots per descriptor and eight more.
   */
  lemma BootTable(ds: seq<Descriptor>, cap: nat, a: int)
    requires NoWrapDescriptors(ds)
    ensures var r := Run(DescriptorRequests(ds) + LOW_REQUESTS, cap);
            && Ordered(r.0) && Coalesced(r.0)
            && Allowed(r.1, TypeAt(r.0, a), BootMap(ds, a))
            && (2 * |ds| + 8 <= cap ==> !r.1)
  {
    hide Run, Ideal, BootMap, Ordered, Coalesced, TypeAt;
    BootIdeal(ds, a);
    RunSound(DescriptorRequests(ds) + LOW_REQUESTS, cap, a);
    if 2 * |ds| + 8 <= cap { RunFits(DescriptorRequests(ds) + LOW_REQUESTS, cap); }
  }

  lemma RunSnoc(ops: seq<Request>, op: Request, cap: nat)
    ensures Run(ops + [op], cap).0 == Added(Run(ops, cap).0, cap, op.start, op.size, op.kind).0
  {
    assert (ops + [op])[..|ops|] == ops;
  }

  /** One `e820_add` after the requests `ops`. */
  method AddNext(table: Table, start: nat, size: nat, kind: Option<nat>, ghost ops: seq<Request>)
    requires table.Valid() && table.Contents() == Run(ops, table.list.Length).0 && start < LIMIT && size < LIMIT
    modifies table`count, table.list
    ensures table.Valid()
    ensures table.Contents() == Run(ops + [Request(start, size, kind)], table.list.Length).0
  {
    hide Added, Run, Ordered;
    RunSnoc(ops, Request(start, size, kind), table.list.Length);
    table.Add(start, size, kind);
  }

  lemma DescriptorStep(ds: seq<Descriptor>, i: nat)
    requires i < |ds|
    ensures DescriptorRequests(ds[..i + 1]) == DescriptorRequests(ds[..i])
      + (if ds[i].SizeWord() == 0 then []
         else [Request(ds[i].start, ds[i].SizeWord(), Some(ConvertMemoryType(ds[i].kind)))])
  {
    assert ds[..i + 1][..i] == ds[..i];
  }

  /** `build_e820_map` on an empty table. */
  method BuildMap(table: Table, ds: seq<Descriptor>)
    requires table.Valid() && table.Contents() == [] && StartsInWord(ds)
    modifies table`count, table.list
    ensures table.Valid()
    ensures table.Contents() == Run(DescriptorRequests(ds) + LOW_REQUESTS, table.list.Length).0
  {
    hide Added, Run, DescriptorRequests;
    AddDescriptors(table, ds);
    AddLow(table, DescriptorRequests(ds));
  }

  /** The fixed requests for the first megabyte. */
  method AddLow(table: Table, ghost ops: seq<Request>)
    requires table.Valid() && table.Contents() == Run(ops, table.list.Length).0
    modifies table`count, table.list
    ensures table.Valid()
    ensures table.Contents() == Run(ops + LOW_REQUESTS, table.list.Length).0
  {
    hide Added, Run;
    ghost var a, b, c, d := LOW_REQUESTS[0], LOW_REQUESTS[1], LOW_REQUESTS[2], LOW_REQUESTS[3];
    assert ops + [a] + [b] + [c] + [d] == ops + LOW_REQUESTS;
    AddNext(table, 0, 0x100000, None, ops);
    AddNext(table, 0, 0x80000, Some(RAM), ops + [a]);
    AddNext(table, 0x80000, 0x20000, Some(RESERVED), ops + [a] + [b]);
    AddNext(table, 0xa0000, 0x100000 - 0xa0000, Some(RESERVED), ops + [a] + [b] + [c]);
  }

  lemma NoRequests(ds: seq<Descriptor>, cap: nat)
    ensures Run(DescriptorRequests(ds[..0]), cap).0 == []
  {
    assert ds[..0] == [];
  }

  lemma Distance(start: nat, size: nat)
    requires start < LIMIT
    ensures U64(U64(start + size) - start) == U64(size)
    ensures U64(start + size) == start <==> U64(size) == 0
  {
  }

  /** The loop over the descriptors. */
  method AddDescriptors(table: Table, ds: seq<Descriptor>)
    requires table.Valid() && table.Contents() == [] && StartsInWord(ds)
    modifies table`count, table.list
    ensures table.Valid()
    ensures table.Contents() == Run(DescriptorRequests(ds), table.list.Length).0
  {
    hide Added, Run, DescriptorRequests;
    ghost var cap := table.list.Length;
    NoRequests(ds, cap);
    for i := 0 to |ds|
      invariant table.Valid()
      invariant table.Contents() == Run(DescriptorRequests(ds[..i]), cap).0
    {
      DescriptorStep(ds, i);
      var start := ds[i].start;
      var end := U64(start + ds[i].pages * 4096);
      var kind := ConvertMemoryType(ds[i].kind);
      Distance(start, ds[i].pages * 4096);
      if start == end || kind == 0 {
        assert DescriptorRequests(ds[..i]) + [] == DescriptorRequests(ds[..i]);
        continue;
      }
      AddNext(table, start, U64(end - start), Some(kind), DescriptorRequests(ds[..i]));
    }
    assert ds[..|ds|] == ds;
  }
}
