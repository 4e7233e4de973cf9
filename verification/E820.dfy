/**
 The e820 memory map: a bounded, sorted array of address ranges that must behave like a total
 map from addresses to memory types in which the last writer wins.

 The list algorithm is given twice: as `Added` on sequences, about which the properties are
 proved, and as `E820Map.Add`, which works in place on the array as the C code does and is
 proved to compute `Added`.
 */
module E820 {
  import opened Words
  import opened Wrappers

  datatype Entry = Entry(start: nat, size: nat, kind: nat) {
    function End(): nat { start + size }
    /** The end as the C code computes it, in a 64-bit word. */
    function EndWord(): nat { U64(start + size) }
    predicate Covers(a: int) { start <= a < End() }
  }

  const LIMIT: nat := 0x1_0000_0000_0000_0000

  /** The type the list reports at an address; `None` where nothing is mapped. */
  function TypeAt(l: seq<Entry>, a: int): Option<nat> {
    if l == [] then None
    else if l[0].Covers(a) then Some(l[0].kind)
    else TypeAt(l[1..], a)
  }

  ghost predicate StartsFrom(l: seq<Entry>, lo: int) {
    forall i :: 0 <= i < |l| ==> lo <= l[i].start
  }

  ghost predicate EndsBy(l: seq<Entry>, hi: int) {
    forall i :: 0 <= i < |l| ==> l[i].End() <= hi
  }

  /** No entry is empty or reaches the end of the address space; ranges ascend and are disjoint. */
  ghost predicate Ordered(l: seq<Entry>) {
    l == [] || (l[0].size > 0 && l[0].End() < LIMIT && StartsFrom(l[1..], l[0].End()) && Ordered(l[1..]))
  }

  ghost predicate Apart(e: Entry, f: Entry) {
    e.End() < f.start || e.kind != f.kind
  }

  /** Neighbours that touch have different types. */
  ghost predicate Coalesced(l: seq<Entry>) {
    |l| < 2 || (Apart(l[0], l[1]) && Coalesced(l[1..]))
  }

  lemma {:induction false} NoEndWraps(l: seq<Entry>)
    requires Ordered(l)
    ensures forall i :: 0 <= i < |l| ==> l[i].EndWord() == l[i].End() < LIMIT
  {
    if l == [] {
    } else {
      NoEndWraps(l[1..]);
      assert forall i :: 1 <= i < |l| ==> l[i] == l[1..][i - 1];
    }
  }

  lemma {:induction false} OrderedPair(l: seq<Entry>, i: nat, j: nat)
    requires Ordered(l) && i < j < |l|
    ensures l[i].size > 0 && l[i].End() <= l[j].start
  {
    if i == 0 {
    } else {
      OrderedPair(l[1..], i - 1, j - 1);
    }
  }

  lemma {:induction false} OrderedTake(l: seq<Entry>, i: nat)
    requires Ordered(l) && i < |l|
    ensures Ordered(l[..i]) && EndsBy(l[..i], l[i].start)
  {
    if i == 0 {
    } else {
      OrderedTake(l[1..], i - 1);
      assert l[..i] == [l[0]] + l[1..][..i - 1];
      assert l[1..][i - 1] == l[i];
    }
  }

  lemma {:induction false} OrderedDrop(l: seq<Entry>, i: nat)
    requires Ordered(l) && i <= |l|
    ensures Ordered(l[i..])
  {
    if i == 0 {
      assert l[i..] == l;
    } else {
      OrderedDrop(l[1..], i - 1);
      assert l[1..][i - 1..] == l[i..];
    }
  }

  lemma OrderedParts(l: seq<Entry>, i: nat)
    requires Ordered(l) && i < |l|
    ensures Ordered(l[..i]) && EndsBy(l[..i], l[i].start)
    ensures Ordered(l[i..]) && StartsFrom(l[i..], l[i].start)
    ensures l[i].size > 0 && l[i].End() < LIMIT
    ensures Ordered(l[i + 1..]) && StartsFrom(l[i + 1..], l[i].End())
  {
    OrderedTake(l, i);
    OrderedDrop(l, i);
    assert l[i..][1..] == l[i + 1..];
  }

  lemma {:induction false} OrderedConcat(x: seq<Entry>, y: seq<Entry>, at: int)
    requires Ordered(x) && Ordered(y) && EndsBy(x, at) && StartsFrom(y, at)
    ensures Ordered(x + y)
  {
    if x == [] {
      assert x + y == y;
    } else {
      OrderedConcat(x[1..], y, at);
      assert (x + y)[1..] == x[1..] + y;
    }
  }

  // ----- the view of a list

  lemma {:induction false} TypeAtConcat(x: seq<Entry>, y: seq<Entry>, a: int)
    ensures TypeAt(x + y, a) == if TypeAt(x, a).Some? then TypeAt(x, a) else TypeAt(y, a)
  {
    if x == [] {
      assert x + y == y;
    } else {
      TypeAtConcat(x[1..], y, a);
      assert (x + y)[1..] == x[1..] + y;
    }
  }

  lemma {:induction false} TypeAtNone(l: seq<Entry>, a: int)
    requires forall i :: 0 <= i < |l| ==> !l[i].Covers(a)
    ensures TypeAt(l, a) == None
  {
    if l == [] {
    } else {
      TypeAtNone(l[1..], a);
    }
  }

  lemma {:induction false} TypeAtIndex(l: seq<Entry>, i: nat, a: int)
    requires Ordered(l) && i < |l| && l[i].Covers(a)
    ensures TypeAt(l, a) == Some(l[i].kind)
  {
    if i == 0 {
    } else {
      OrderedPair(l, 0, i);
      TypeAtIndex(l[1..], i - 1, a);
    }
  }

  lemma {:induction false} TypeAtSome(l: seq<Entry>, a: int) returns (i: nat)
    requires TypeAt(l, a).Some?
    ensures i < |l| && l[i].Covers(a) && TypeAt(l, a) == Some(l[i].kind)
  {
    if l[0].Covers(a) {
      i := 0;
    } else {
      i := TypeAtSome(l[1..], a);
      i := i + 1;
    }
  }

  /** A coalesced list is the only one with its view: the representation is canonical. */
  lemma {:induction false} Canonical(x: seq<Entry>, y: seq<Entry>)
    requires Ordered(x) && Ordered(y) && Coalesced(x) && Coalesced(y)
    requires forall a :: TypeAt(x, a) == TypeAt(y, a)
    ensures x == y
  {
    EmptyView(x, y);
    EmptyView(y, x);
    if x == [] {
    } else {
      HeadNotLonger(x, y);
      HeadNotLonger(y, x);
      TailsAgree(x, y);
      Canonical(x[1..], y[1..]);
      assert x == [x[0]] + x[1..] && y == [y[0]] + y[1..];
    }
  }

  lemma EmptyView(x: seq<Entry>, y: seq<Entry>)
    requires Ordered(y)
    requires forall a :: TypeAt(x, a) == TypeAt(y, a)
    ensures x == [] ==> y == []
  {
    if x == [] && y != [] {
      TypeAtIndex(y, 0, y[0].start);
      assert false;
    }
  }

  lemma TailsAgree(x: seq<Entry>, y: seq<Entry>)
    requires x != [] && y != [] && x[0] == y[0] && Ordered(x) && Ordered(y)
    requires forall a :: TypeAt(x, a) == TypeAt(y, a)
    ensures forall a :: TypeAt(x[1..], a) == TypeAt(y[1..], a)
  {
    OrderedParts(x, 0);
    OrderedParts(y, 0);
    forall a ensures TypeAt(x[1..], a) == TypeAt(y[1..], a) {
      assert TypeAt(x, a) == TypeAt(y, a);
      if x[0].Covers(a) {
        TypeAtNone(x[1..], a);
        TypeAtNone(y[1..], a);
      }
    }
  }

  lemma HeadNotLonger(x: seq<Entry>, y: seq<Entry>)
    requires x != [] && y != []
    requires Ordered(x) && Ordered(y) && Coalesced(y)
    requires forall a :: TypeAt(x, a) == TypeAt(y, a)
    ensures y[0].start <= x[0].start
    ensures y[0].start == x[0].start ==> x[0].End() <= y[0].End() && x[0].kind == y[0].kind
  {
    TypeAtIndex(x, 0, x[0].start);
    assert TypeAt(x, x[0].start) == TypeAt(y, x[0].start);
    var i := TypeAtSome(y, x[0].start);
    OrderedParts(y, 0);
    if y[0].start == x[0].start && x[0].End() > y[0].End() {
      TypeAtIndex(x, 0, y[0].End());
      assert TypeAt(x, y[0].End()) == TypeAt(y, y[0].End());
      var k := TypeAtSome(y, y[0].End());
      assert false;
    }
  }

  // ----- e820_add on sequences

  /** The first entry that ends at or after `start`. */
  function Position(l: seq<Entry>, start: nat): (i: nat)
    ensures i <= |l|
    ensures forall j :: 0 <= j < i ==> l[j].EndWord() < start
    ensures i < |l| ==> start <= l[i].EndWord()
  {
    if l == [] || start <= l[0].EndWord() then 0 else 1 + Position(l[1..], start)
  }

  lemma PositionEnds(l: seq<Entry>, start: nat)
    requires Ordered(l)
    ensures var i := Position(l, start);
            && (forall j :: 0 <= j < i ==> l[j].End() < start) && EndsBy(l[..i], start)
            && (i < |l| ==> start <= l[i].End() < LIMIT)
  {
    hide Position, Ordered;
    NoEndWraps(l);
  }

  /** Entries overlapped from the left up to `end` are removed or cut; one of the added type is absorbed. */
  function Clip(rest: seq<Entry>, end: nat, kind: Option<nat>): (r: (seq<Entry>, nat))
    ensures |r.0| <= |rest|
  {
    if rest == [] || end < rest[0].start then (rest, 0)
    else if end >= rest[0].EndWord() then Clip(rest[1..], end, kind)
    else if kind == Some(rest[0].kind) then (rest[1..], rest[0].EndWord() - end)
    else ([Entry(end, rest[0].EndWord() - end, rest[0].kind)] + rest[1..], 0)
  }

  /** The list cut at the new range: what stays before it, what may overlap it, and its merged start. */
  datatype Cut = Cut(pre: seq<Entry>, rest: seq<Entry>, start: nat, dropped: bool)

  /** Splitting entry `e` around the range: its right part is dropped when the table is full. */
  function SplitAround(pre: seq<Entry>, e: Entry, tail: seq<Entry>, full: bool, start: nat, end: nat): (c: Cut)
    requires e.start <= start
    ensures c.start == start
    ensures |c.pre| + |c.rest| == |pre| + |tail| + (if e.EndWord() > end && !full then 2 else 1)
    ensures c.dropped ==> full
  {
    var left := pre + [Entry(e.start, start - e.start, e.kind)];
    if e.EndWord() <= end then Cut(left, tail, start, false)
    else if full then Cut(left, tail, start, true)
    else Cut(left, [Entry(end, e.EndWord() - end, e.kind)] + tail, start, false)
  }

  function CutAt(l: seq<Entry>, cap: nat, start: nat, end: nat, kind: Option<nat>): (c: Cut)
    ensures c.start <= start
    ensures |c.pre| + |c.rest| <= |l| + 1 && (|l| >= cap ==> |c.pre| + |c.rest| == |l|)
    ensures c.dropped ==> |l| >= cap
  {
    var i := Position(l, start);
    if i == |l| || start <= l[i].start then Cut(l[..i], l[i..], start, false)
    else if kind == Some(l[i].kind) then Cut(l[..i], l[i..], l[i].start, false)
    else SplitAround(l[..i], l[i], l[i + 1..], |l| >= cap, start, end)
  }

  lemma CutAtCases(l: seq<Entry>, cap: nat, start: nat, end: nat, kind: Option<nat>, i: nat)
    requires i == Position(l, start)
    ensures var c := CutAt(l, cap, start, end, kind);
            if i == |l| || start <= l[i].start then c == Cut(l[..i], l[i..], start, false)
            else if kind == Some(l[i].kind) then c == Cut(l[..i], l[i..], l[i].start, false)
            else c == SplitAround(l[..i], l[i], l[i + 1..], |l| >= cap, start, end)
  {
  }

  /** The parts of a cut list put together around the new entry; the flag is set when one is dropped. */
  function Assembled(c: Cut, cap: nat, start: nat, size: nat, kind: Option<nat>): (r: (seq<Entry>, bool))
    requires c.start <= start
  {
    var clipped := Clip(c.rest, U64(start + size), kind);
    if kind.None? then (c.pre + clipped.0, c.dropped)
    else if |c.pre| + |clipped.0| >= cap then (c.pre + clipped.0, true)
    else (c.pre + [Entry(c.start, U64(size + (start - c.start) + clipped.1), kind.value)] + clipped.0, c.dropped)
  }

  /** The result of `e820_add`, in 64-bit words; the flag says whether the full table made it drop an entry. */
  function Added(l: seq<Entry>, cap: nat, start: nat, size: nat, kind: Option<nat>): (r: (seq<Entry>, bool))
  {
    if size == 0 then (l, false)
    else Assembled(CutAt(l, cap, start, U64(start + size), kind), cap, start, size, kind)
  }

  /** What the map should say after the update. */
  function Updated(l: seq<Entry>, start: nat, size: nat, kind: Option<nat>, a: int): Option<nat> {
    if start <= a < start + size then kind else TypeAt(l, a)
  }

  /** Clipping changes nothing from the new end on and leaves nothing before it. */
  lemma {:induction false} ClipView(rest: seq<Entry>, end: nat, kind: Option<nat>, a: int)
    requires Ordered(rest)
    ensures var r := Clip(rest, end, kind);
            && Ordered(r.0) && StartsFrom(r.0, end + r.1) && |r.0| <= |rest|
            && (end + r.1 <= a ==> TypeAt(r.0, a) == TypeAt(rest, a))
            && (end <= a < end + r.1 ==> TypeAt(rest, a) == kind)
            && (r.1 > 0 ==> kind.Some? && end + r.1 < LIMIT)
  {
    if rest != [] && end >= rest[0].start {
      if end >= rest[0].End() {
        ClipView(rest[1..], end, kind, a);
      } else {
        var cut := Entry(end, rest[0].End() - end, rest[0].kind);
        assert ([cut] + rest[1..])[1..] == rest[1..];
      }
    }
  }

  /** What remains is still coalesced and does not touch the new range with the same type. */
  lemma {:induction false} ClipCoalesced(rest: seq<Entry>, end: nat, kind: Option<nat>)
    requires Ordered(rest) && Coalesced(rest)
    ensures var r := Clip(rest, end, kind);
            && Coalesced(r.0)
            && (kind.Some? && r.0 != [] ==> end + r.1 < r.0[0].start || r.0[0].kind != kind.value)
  {
    if rest != [] && end >= rest[0].start {
      if end >= rest[0].End() {
        ClipCoalesced(rest[1..], end, kind);
      }
    }
  }

  /** `got` is what a lossy table may report where `want` is right: the same, or nothing. */
  predicate Allowed(dropped: bool, got: Option<nat>, want: Option<nat>) {
    got == want || (dropped && got == None)
  }

  /** The view of a list with one entry in the middle. */
  lemma TypeAtMiddle(x: seq<Entry>, e: Entry, y: seq<Entry>, a: int)
    requires EndsBy(x, e.start) && StartsFrom(y, e.End())
    ensures TypeAt(x + [e] + y, a) == if a < e.start then TypeAt(x, a)
                                      else if a < e.End() then Some(e.kind) else TypeAt(y, a)
  {
    TypeAtConcat(x + [e], y, a);
    TypeAtConcat(x, [e], a);
    if a < e.start { TypeAtNone(y, a); } else { TypeAtNone(x, a); }
    assert TypeAt([e], a) == if e.Covers(a) then Some(e.kind) else None;
  }

  /** The parts of a cut lie on their sides of the merged start. */
  ghost predicate WellCut(c: Cut, start: nat) {
    && c.start <= start && Ordered(c.pre) && Ordered(c.rest)
    && EndsBy(c.pre, c.start) && StartsFrom(c.rest, c.start)
  }

  /** Cutting keeps the view outside the merged range, which only extends over the added type. */
  ghost predicate KeepsView(c: Cut, l: seq<Entry>, start: nat, end: nat, kind: Option<nat>, a: int) {
    && (c.start <= a < start ==> TypeAt(l, a) == kind)
    && (a < c.start ==> TypeAt(c.pre, a) == TypeAt(l, a))
    && (end <= a ==> Allowed(c.dropped, TypeAt(c.rest, a), TypeAt(l, a)))
  }

  lemma CutShape(l: seq<Entry>, cap: nat, start: nat, end: nat, kind: Option<nat>)
    requires Ordered(l) && start < end
    ensures WellCut(CutAt(l, cap, start, end, kind), start)
  {
    hide WellCut, SplitAround;
    PositionEnds(l, start);
    var i := Position(l, start);
    if i == |l| || start <= l[i].start {
      PlainShape(l, i, start, start);
    } else if kind == Some(l[i].kind) {
      OrderedParts(l, i);
      PlainShape(l, i, l[i].start, start);
    } else {
      OrderedParts(l, i);
      SplitShape(l[..i], l[i], l[i + 1..], |l| >= cap, start, end);
    }
  }

  lemma PlainShape(l: seq<Entry>, i: nat, at: nat, start: nat)
    requires Ordered(l) && i <= |l| && at <= start && EndsBy(l[..i], at) && (i < |l| ==> at <= l[i].start)
    ensures WellCut(Cut(l[..i], l[i..], at, false), start)
  {
    if i < |l| { OrderedParts(l, i); } else { assert l[..i] == l; }
  }

  lemma OrderedSingle(e: Entry)
    requires e.size > 0 && e.End() < LIMIT
    ensures Ordered([e])
  {
  }

  lemma SplitShape(pre: seq<Entry>, e: Entry, tail: seq<Entry>, full: bool, start: nat, end: nat)
    requires Ordered(pre) && EndsBy(pre, e.start) && Ordered(tail) && StartsFrom(tail, e.End())
    requires e.start < start < end && start <= e.End() < LIMIT
    ensures WellCut(SplitAround(pre, e, tail, full, start, end), start)
  {
    hide Ordered, EndsBy, StartsFrom;
    LeftShape(pre, Entry(e.start, start - e.start, e.kind));
    if e.End() > end { RightShape(Entry(end, e.End() - end, e.kind), tail, start); }
    Weaker(tail, e.End(), start);
  }

  lemma LeftShape(pre: seq<Entry>, e: Entry)
    requires Ordered(pre) && EndsBy(pre, e.start) && e.size > 0 && e.End() < LIMIT
    ensures Ordered(pre + [e]) && EndsBy(pre + [e], e.End())
  {
    hide Ordered;
    OrderedSingle(e);
    OrderedConcat(pre, [e], e.start);
  }

  lemma RightShape(e: Entry, tail: seq<Entry>, start: int)
    requires Ordered(tail) && StartsFrom(tail, e.End()) && e.size > 0 && e.End() < LIMIT && start <= e.start
    ensures Ordered([e] + tail) && StartsFrom([e] + tail, start)
  {
    hide Ordered;
    OrderedSingle(e);
    OrderedConcat([e], tail, e.End());
  }

  lemma Weaker(l: seq<Entry>, lo: int, lower: int)
    requires StartsFrom(l, lo) && lower <= lo
    ensures StartsFrom(l, lower)
  {
  }

  /** The view of a list cut in two. */
  lemma TypeAtCut(l: seq<Entry>, i: nat, at: int, a: int)
    requires i <= |l| && EndsBy(l[..i], at) && StartsFrom(l[i..], at)
    ensures TypeAt(l, a) == if a < at then TypeAt(l[..i], a) else TypeAt(l[i..], a)
  {
    assert l == l[..i] + l[i..];
    TypeAtConcat(l[..i], l[i..], a);
    if at <= a { TypeAtNone(l[..i], a); } else { TypeAtNone(l[i..], a); }
  }

  /** Splitting an entry around the new range: its left part, and its right part if it has one. */
  lemma SplitViewAt(pre: seq<Entry>, e: Entry, tail: seq<Entry>, start: nat, end: nat, a: int)
    requires e.start < start < end && start <= e.End()
    requires EndsBy(pre, e.start) && StartsFrom(tail, e.End())
    ensures a < start ==> TypeAt(pre + [Entry(e.start, start - e.start, e.kind)], a) == TypeAt(pre + [e] + tail, a)
    ensures end <= a && e.End() <= end ==> TypeAt(tail, a) == TypeAt(pre + [e] + tail, a)
    ensures end <= a && e.End() > end
            ==> TypeAt([Entry(end, e.End() - end, e.kind)] + tail, a) == TypeAt(pre + [e] + tail, a)
    ensures end <= a ==> TypeAt(tail, a) == TypeAt(pre + [e] + tail, a) || TypeAt(tail, a) == None
  {
    TypeAtMiddle(pre, e, tail, a);
    if a < start {
      var left := Entry(e.start, start - e.start, e.kind);
      TypeAtMiddle(pre, left, [], a);
      assert pre + [left] + [] == pre + [left];
    } else if end <= a {
      if e.End() > end {
        var right := Entry(end, e.End() - end, e.kind);
        TypeAtMiddle([], right, tail, a);
        assert [] + [right] + tail == [right] + tail;
      }
      if a < e.End() { TypeAtNone(tail, a); }
    }
  }

  lemma SplitView(pre: seq<Entry>, e: Entry, tail: seq<Entry>, full: bool,
                  start: nat, end: nat, kind: Option<nat>, a: int)
    requires EndsBy(pre, e.start) && StartsFrom(tail, e.End())
    requires e.start < start < end && start <= e.End() < LIMIT
    ensures KeepsView(SplitAround(pre, e, tail, full, start, end), pre + [e] + tail, start, end, kind, a)
  {
    SplitViewAt(pre, e, tail, start, end, a);
  }

  lemma PlainView(l: seq<Entry>, i: nat, start: nat, end: nat, kind: Option<nat>, a: int)
    requires Ordered(l) && i <= |l| && start < end
    requires EndsBy(l[..i], start) && (i < |l| ==> start <= l[i].start)
    ensures KeepsView(Cut(l[..i], l[i..], start, false), l, start, end, kind, a)
  {
    if i < |l| { OrderedParts(l, i); }
    TypeAtCut(l, i, start, a);
  }

  lemma MergeView(l: seq<Entry>, i: nat, start: nat, end: nat, a: int)
    requires Ordered(l) && i < |l| && l[i].start < start < end && start <= l[i].End()
    ensures KeepsView(Cut(l[..i], l[i..], l[i].start, false), l, start, end, Some(l[i].kind), a)
  {
    OrderedParts(l, i);
    TypeAtCut(l, i, l[i].start, a);
    if l[i].Covers(a) { TypeAtIndex(l, i, a); }
  }

  lemma CutView(l: seq<Entry>, cap: nat, start: nat, end: nat, kind: Option<nat>, a: int)
    requires Ordered(l) && start < end
    ensures KeepsView(CutAt(l, cap, start, end, kind), l, start, end, kind, a)
  {
    hide KeepsView, SplitAround, Position, CutAt, Ordered, TypeAt;
    PositionEnds(l, start);
    var i := Position(l, start);
    CutAtCases(l, cap, start, end, kind, i);
    if i == |l| || start <= l[i].start {
      PlainView(l, i, start, end, kind, a);
    } else if kind == Some(l[i].kind) {
      MergeView(l, i, start, end, a);
    } else {
      OrderedParts(l, i);
      assert l == l[..i] + [l[i]] + l[i + 1..];
      SplitView(l[..i], l[i], l[i + 1..], |l| >= cap, start, end, kind, a);
    }
  }

  /** Putting the parts together without the new entry. */
  lemma GapView(c: Cut, l: seq<Entry>, start: nat, end: nat, kind: Option<nat>, a: int)
    requires WellCut(c, start) && KeepsView(c, l, start, end, kind, a) && start < end
    ensures var r := c.pre + Clip(c.rest, end, kind).0;
            && Ordered(r)
            && (a < c.start ==> TypeAt(r, a) == TypeAt(l, a))
            && (c.start <= a < end + Clip(c.rest, end, kind).1 ==> TypeAt(r, a) == None)
            && (end + Clip(c.rest, end, kind).1 <= a ==> Allowed(c.dropped, TypeAt(r, a), TypeAt(l, a)))
  {
    var clipped := Clip(c.rest, end, kind);
    ClipView(c.rest, end, kind, a);
    OrderedConcat(c.pre, clipped.0, c.start);
    TypeAtConcat(c.pre, clipped.0, a);
    if a >= c.start { TypeAtNone(c.pre, a); }
    if a < end + clipped.1 { TypeAtNone(clipped.0, a); }
  }

  /** Putting the parts together around the new entry. */
  lemma FilledView(c: Cut, l: seq<Entry>, start: nat, end: nat, kind: nat, a: int)
    requires WellCut(c, start) && KeepsView(c, l, start, end, Some(kind), a) && start < end < LIMIT
    ensures var clipped := Clip(c.rest, end, Some(kind));
            var r := c.pre + [Entry(c.start, end - c.start + clipped.1, kind)] + clipped.0;
            && Ordered(r)
            && (a < c.start ==> TypeAt(r, a) == TypeAt(l, a))
            && (c.start <= a < end + clipped.1 ==> TypeAt(r, a) == Some(kind))
            && (end + clipped.1 <= a ==> Allowed(c.dropped, TypeAt(r, a), TypeAt(l, a)))
            && (end <= a < end + clipped.1 ==> Allowed(c.dropped, Some(kind), TypeAt(l, a)))
  {
    hide Clip, TypeAt, Ordered;
    var clipped := Clip(c.rest, end, Some(kind));
    var e := Entry(c.start, end - c.start + clipped.1, kind);
    ClipView(c.rest, end, Some(kind), a);
    OrderedSingle(e);
    OrderedConcat(c.pre, [e], c.start);
    OrderedConcat(c.pre + [e], clipped.0, e.End());
    TypeAtMiddle(c.pre, e, clipped.0, a);
  }

  lemma ClipShape(c: Cut, start: nat, end: nat, kind: Option<nat>, a: int)
    requires WellCut(c, start) && start < end
    ensures var r := Clip(c.rest, end, kind);
            (r.1 > 0 ==> kind.Some? && end + r.1 < LIMIT) && (end <= a < end + r.1 ==> TypeAt(c.rest, a) == kind)
  {
    hide Clip;
    ClipView(c.rest, end, kind, a);
  }

  lemma AssembledView(c: Cut, cap: nat, l: seq<Entry>, start: nat, end: nat, kind: Option<nat>, a: int)
    requires WellCut(c, start) && KeepsView(c, l, start, end, kind, a) && start < end < LIMIT
    ensures var r := Assembled(c, cap, start, end - start, kind);
            && Ordered(r.0)
            && Allowed(r.1, TypeAt(r.0, a), Updated(l, start, end - start, kind, a))
  {
    hide Clip, TypeAt, Ordered;
    ClipShape(c, start, end, kind, a);
    if kind.None? || |c.pre| + |Clip(c.rest, end, kind).0| >= cap {
      GapView(c, l, start, end, kind, a);
    } else {
      FilledView(c, l, start, end, kind.value, a);
    }
  }

  /**
   `e820_add` refines the pointwise update: the result is ordered, and at every address it
   reports the updated type or, if the table was full and an entry was dropped, nothing.
   */
  lemma AddedView(l: seq<Entry>, cap: nat, start: nat, size: nat, kind: Option<nat>, a: int)
    requires Ordered(l) && start + size < LIMIT
    ensures var r := Added(l, cap, start, size, kind);
            Ordered(r.0) && Allowed(r.1, TypeAt(r.0, a), Updated(l, start, size, kind, a))
  {
    hide CutAt, Assembled, WellCut, KeepsView;
    if size > 0 {
      CutShape(l, cap, start, start + size, kind);
      CutView(l, cap, start, start + size, kind, a);
      AssembledView(CutAt(l, cap, start, start + size, kind), cap, l, start, start + size, kind, a);
    }
  }

  // ----- coalescing

  lemma {:induction false} CoalescedConcat(x: seq<Entry>, y: seq<Entry>)
    requires Coalesced(x) && Coalesced(y)
    requires x != [] && y != [] ==> Apart(x[|x| - 1], y[0])
    ensures Coalesced(x + y)
  {
    if x == [] {
      assert x + y == y;
    } else {
      CoalescedConcat(x[1..], y);
      assert (x + y)[1..] == x[1..] + y;
    }
  }

  lemma {:induction false} CoalescedParts(l: seq<Entry>, i: nat)
    requires Coalesced(l) && i <= |l|
    ensures Coalesced(l[..i]) && Coalesced(l[i..])
    ensures 0 < i < |l| ==> Apart(l[i - 1], l[i])
  {
    if 0 < i && l != [] {
      CoalescedParts(l[1..], i - 1);
      assert l[..i] == [l[0]] + l[1..][..i - 1];
      assert l[1..][i - 1..] == l[i..];
      CoalescedConcat([l[0]], l[1..][..i - 1]);
    } else {
      assert l[i..] == l;
    }
  }

  /** The parts of a cut are coalesced, and the part before does not touch the new range with its type. */
  ghost predicate CoalescedCut(c: Cut, kind: Option<nat>) {
    && Coalesced(c.pre) && Coalesced(c.rest)
    && (c.pre != [] ==> c.pre[|c.pre| - 1].End() < c.start || Some(c.pre[|c.pre| - 1].kind) != kind)
  }

  lemma SplitCoalesced(pre: seq<Entry>, e: Entry, tail: seq<Entry>, full: bool,
                       start: nat, end: nat, kind: Option<nat>)
    requires Coalesced(pre) && (pre != [] ==> Apart(pre[|pre| - 1], e))
    requires Coalesced(tail) && (tail != [] ==> Apart(e, tail[0]))
    requires e.start < start && kind != Some(e.kind) && e.End() < LIMIT
    ensures CoalescedCut(SplitAround(pre, e, tail, full, start, end), kind)
  {
    hide Coalesced;
    var left := Entry(e.start, start - e.start, e.kind);
    CoalescedSingle(left);
    CoalescedConcat(pre, [left]);
    if e.End() > end {
      var right := Entry(end, e.End() - end, e.kind);
      CoalescedSingle(right);
      CoalescedConcat([right], tail);
    }
  }

  lemma CoalescedSingle(e: Entry)
    ensures Coalesced([e])
  {
  }

  lemma PlainCoalesced(l: seq<Entry>, i: nat, at: nat, kind: Option<nat>)
    requires Coalesced(l) && i <= |l|
    requires (forall j :: 0 <= j < i ==> l[j].End() < at) || (i < |l| && at == l[i].start && kind == Some(l[i].kind))
    ensures CoalescedCut(Cut(l[..i], l[i..], at, false), kind)
  {
    CoalescedParts(l, i);
  }

  lemma CutCoalesced(l: seq<Entry>, cap: nat, start: nat, end: nat, kind: Option<nat>)
    requires Ordered(l) && Coalesced(l)
    ensures CoalescedCut(CutAt(l, cap, start, end, kind), kind)
  {
    hide CoalescedCut, SplitAround, Position;
    PositionEnds(l, start);
    var i := Position(l, start);
    if i == |l| || start <= l[i].start {
      PlainCoalesced(l, i, start, kind);
    } else if kind == Some(l[i].kind) {
      PlainCoalesced(l, i, l[i].start, kind);
    } else {
      CoalescedParts(l, i);
      CoalescedParts(l, i + 1);
      SplitCoalesced(l[..i], l[i], l[i + 1..], |l| >= cap, start, end, kind);
    }
  }

  lemma AssembledCoalesced(c: Cut, cap: nat, start: nat, end: nat, kind: Option<nat>)
    requires WellCut(c, start) && CoalescedCut(c, kind) && start < end < LIMIT
    ensures Coalesced(Assembled(c, cap, start, end - start, kind).0)
  {
    hide Clip, TypeAt, Ordered, Coalesced;
    var clipped := Clip(c.rest, end, kind);
    ClipView(c.rest, end, kind, 0);
    ClipCoalesced(c.rest, end, kind);
    CoalescedConcat(c.pre, clipped.0);
    if kind.Some? {
      var e := Entry(c.start, end - c.start + clipped.1, kind.value);
      CoalescedSingle(e);
      CoalescedConcat(c.pre, [e]);
      CoalescedConcat(c.pre + [e], clipped.0);
    }
  }

  /** `e820_add` keeps the list fully coalesced, whether or not it drops an entry. */
  lemma AddedCoalesced(l: seq<Entry>, cap: nat, start: nat, size: nat, kind: Option<nat>)
    requires Ordered(l) && Coalesced(l) && start + size < LIMIT
    ensures Coalesced(Added(l, cap, start, size, kind).0)
  {
    hide CutAt, Assembled, WellCut, CoalescedCut;
    if size > 0 {
      CutShape(l, cap, start, start + size, kind);
      CutCoalesced(l, cap, start, start + size, kind);
      AssembledCoalesced(CutAt(l, cap, start, start + size, kind), cap, start, start + size, kind);
    }
  }

  /** At most two entries are gained, so with room for two nothing is dropped. */
  lemma AddedFits(l: seq<Entry>, cap: nat, start: nat, size: nat, kind: Option<nat>)
    requires |l| <= cap
    ensures |Added(l, cap, start, size, kind).0| <= cap
    ensures |Added(l, cap, start, size, kind).0| <= |l| + 2
    ensures |l| + 2 <= cap ==> !Added(l, cap, start, size, kind).1
  {
    hide CutAt, Clip;
  }

  // ----- runs of adds and removes

  /** A request: `kind` is `None` for `e820_remove`. */
  datatype Request = Request(start: nat, size: nat, kind: Option<nat>)

  ghost predicate NoWrap(ops: seq<Request>) {
    forall i :: 0 <= i < |ops| ==> ops[i].start + ops[i].size < LIMIT
  }

  /** The ideal map: the last request that covers an address decides. */
  function Ideal(ops: seq<Request>, a: int): Option<nat> {
    if ops == [] then None else
      var last := ops[|ops| - 1];
      if last.start <= a < last.start + last.size then last.kind else Ideal(ops[..|ops| - 1], a)
  }

  /** The table after a run, and whether any entry was dropped on the way. */
  function Run(ops: seq<Request>, cap: nat): (r: (seq<Entry>, bool)) {
    if ops == [] then ([], false) else
      var before := Run(ops[..|ops| - 1], cap);
      var last := ops[|ops| - 1];
      var after := Added(before.0, cap, last.start, last.size, last.kind);
      (after.0, before.1 || after.1)
  }

  /**
   Every reachable table is ordered, coalesced and within its capacity, and at every address
   reports what the ideal map says or, after a drop, nothing; it never reports a wrong type.
   */
  lemma {:induction false} RunSound(ops: seq<Request>, cap: nat, a: int)
    requires NoWrap(ops)
    ensures var r := Run(ops, cap);
            && Ordered(r.0) && Coalesced(r.0) && |r.0| <= cap
            && Allowed(r.1, TypeAt(r.0, a), Ideal(ops, a))
  {
    hide Added, Ordered, Coalesced, TypeAt;
    if ops == [] {
      EmptyList(a);
    } else {
      var before, last := Run(ops[..|ops| - 1], cap), ops[|ops| - 1];
      RunSound(ops[..|ops| - 1], cap, a);
      AddedView(before.0, cap, last.start, last.size, last.kind, a);
      AddedCoalesced(before.0, cap, last.start, last.size, last.kind);
      AddedFits(before.0, cap, last.start, last.size, last.kind);
    }
  }

  lemma EmptyList(a: int)
    ensures Ordered([]) && Coalesced([]) && TypeAt([], a) == None
  {
  }

  /** A run that drops nothing leaves the one canonical list of its ideal map. */
  lemma RunDetermined(ops: seq<Request>, ops': seq<Request>, cap: nat)
    requires NoWrap(ops) && NoWrap(ops') && !Run(ops, cap).1 && !Run(ops', cap).1
    requires forall a :: Ideal(ops, a) == Ideal(ops', a)
    ensures Run(ops, cap).0 == Run(ops', cap).0
  {
    hide Run, TypeAt, Ideal;
    RunSound(ops, cap, 0);
    RunSound(ops', cap, 0);
    forall a ensures TypeAt(Run(ops, cap).0, a) == TypeAt(Run(ops', cap).0, a) {
      RunSound(ops, cap, a);
      RunSound(ops', cap, a);
      assert Ideal(ops, a) == Ideal(ops', a);
    }
    Canonical(Run(ops, cap).0, Run(ops', cap).0);
  }

  /** With two table slots per request nothing can be dropped. */
  lemma {:induction false} RunFits(ops: seq<Request>, cap: nat)
    requires 2 * |ops| <= cap
    ensures !Run(ops, cap).1 && |Run(ops, cap).0| <= 2 * |ops|
  {
    hide Added;
    if ops == [] {
    } else {
      RunFits(ops[..|ops| - 1], cap);
      var last := ops[|ops| - 1];
      AddedFits(Run(ops[..|ops| - 1], cap).0, cap, last.start, last.size, last.kind);
    }
  }

  // ----- the end of the address space

  /** The table after the run is right at `a`, up to a drop. */
  ghost predicate Faithful(ops: seq<Request>, cap: nat, a: int) {
    var r := Run(ops, cap);
    Ordered(r.0) && Allowed(r.1, TypeAt(r.0, a), Ideal(ops, a))
  }

  lemma RunTwo(r: Request, q: Request, cap: nat)
    requires r.size > 0 && r.kind.Some? && cap > 0 && r.size < LIMIT
    ensures Run([r], cap) == ([Entry(r.start, r.size, r.kind.value)], false)
    ensures Run([r, q], cap) == Added([Entry(r.start, r.size, r.kind.value)], cap, q.start, q.size, q.kind)
  {
    assert [r][..0] == [] && [r, q][..1] == [r];
    var c := CutAt([], cap, r.start, U64(r.start + r.size), r.kind);
    assert c == Cut([], [], r.start, false);
    assert [] + [Entry(r.start, r.size, r.kind.value)] + [] == [Entry(r.start, r.size, r.kind.value)];
  }

  /** Any later start is past an end of 0, so the new range goes after the entry. */
  lemma TopSkipped(e: Entry, cap: nat, start: nat, size: nat, kind: nat)
    requires e.EndWord() == 0 && start > 0 && 0 < size < LIMIT && cap >= 2
    ensures Added([e], cap, start, size, Some(kind)) == ([e, Entry(start, size, kind)], false)
  {
    var end := U64(start + size);
    assert Position([e], start) == 1 by { assert [e][1..] == []; }
    assert CutAt([e], cap, start, end, Some(kind)) == Cut([e], [], start, false) by { assert [e][..1] == [e]; }
    hide Position, CutAt;
    assert Clip([], end, Some(kind)) == ([], 0);
    assert [e] + [Entry(start, size, kind)] + [] == [e, Entry(start, size, kind)];
  }

  /** A range from 0 up to the entry finds it ended before, and removes it. */
  lemma TopRemoved(e: Entry, cap: nat, kind: nat)
    requires e.EndWord() == 0 && e.start == 1 && cap >= 2
    ensures Added([e], cap, 0, 1, Some(kind)) == ([Entry(0, 1, kind)], false)
  {
    assert Position([e], 0) == 0;
    assert CutAt([e], cap, 0, 1, Some(kind)) == Cut([], [e], 0, false) by { assert [e][..0] == [] && [e][0..] == [e]; }
    hide Position, CutAt;
    assert Clip([e], 1, Some(kind)) == ([], 0) by { assert [e][1..] == []; }
    hide Clip;
    assert [] + [Entry(0, 1, kind)] + [] == [Entry(0, 1, kind)];
  }

  /**
   The limit of the 64-bit arithmetic: a range that reaches 2^64 exactly has an end of 0 in the C
   code, and is skipped or removed by the next request just below it.
   */
  lemma TopMisplaced(r: Request, cap: nat)
    requires r.start < LIMIT && 0 < r.size < LIMIT && r.start + r.size == LIMIT && r.kind.Some? && cap >= 2
    ensures NoWrap([Request(r.start - 1, 1, r.kind)])
    ensures !Faithful([r, Request(r.start - 1, 1, r.kind)], cap, r.start)
  {
    hide Added;
    var q := Request(r.start - 1, 1, r.kind);
    var e, f := Entry(r.start, r.size, r.kind.value), Entry(q.start, 1, r.kind.value);
    RunTwo(r, q, cap);
    hide Run;
    assert e.EndWord() == 0;
    if r.start > 1 {
      TopSkipped(e, cap, q.start, 1, r.kind.value);
      NotOrdered(e, f);
    } else {
      TopRemoved(e, cap, r.kind.value);
      assert TypeAt([f], 1) == None by { assert [f][1..] == []; }
      assert Ideal([r, q], 1) == r.kind by { assert [r, q][..1] == [r] && [r][..0] == []; }
    }
  }

  lemma NotOrdered(e: Entry, f: Entry)
    requires f.start < e.start
    ensures !Ordered([e, f])
  {
    if Ordered([e, f]) { OrderedPair([e, f], 0, 1); }
  }

  /** A first range is safe, whatever follows that does not wrap, exactly if it ends below 2^64. */
  lemma TopLimit(r: Request, cap: nat)
    requires r.start < LIMIT && 0 < r.size < LIMIT && r.start + r.size <= LIMIT && r.kind.Some? && cap >= 2
    ensures (forall ops, a :: NoWrap(ops) ==> Faithful([r] + ops, cap, a)) <==> r.start + r.size < LIMIT
  {
    hide Run, Ideal, Ordered, TypeAt;
    if r.start + r.size < LIMIT {
      forall ops, a | NoWrap(ops) ensures Faithful([r] + ops, cap, a) {
        RunSound([r] + ops, cap, a);
      }
    } else {
      TopMisplaced(r, cap);
      var ops := [Request(r.start - 1, 1, r.kind)];
      assert [r] + ops == [r, Request(r.start - 1, 1, r.kind)];
      assert !Faithful([r] + ops, cap, r.start);
    }
  }
}
