/**
 What a full e820 table loses, address by address. `insert_e820` refuses silently when the table
 has no slot left; which entries that hits depends on the slots that the range frees itself.
 */
module E820Loss {
  import opened E820
  import opened Words
  import opened Wrappers

  /** The range lies inside `e`, strictly, and has another type: `e` needs a second slot. */
  predicate Straddled(e: Entry, start: int, end: int, kind: Option<nat>) {
    e.start < start && end < e.End() && kind != Some(e.kind)
  }

  /** The range covers `e` or meets it with the same type: the slot of `e` becomes free. */
  predicate Absorbed(e: Entry, start: int, end: int, kind: Option<nat>) {
    (start <= e.start && e.End() <= end) || (kind == Some(e.kind) && e.start <= end && start <= e.End())
  }

  ghost predicate AnyStraddled(l: seq<Entry>, start: int, end: int, kind: Option<nat>) {
    exists i :: 0 <= i < |l| && Straddled(l[i], start, end, kind)
  }

  ghost predicate AnyAbsorbed(l: seq<Entry>, start: int, end: int, kind: Option<nat>) {
    exists i :: 0 <= i < |l| && Absorbed(l[i], start, end, kind)
  }

  /** Address `a` belongs to the right part of an entry that a full table cannot split. */
  ghost predicate RightLost(l: seq<Entry>, cap: nat, start: int, end: int, kind: Option<nat>, a: int) {
    |l| >= cap && exists i :: 0 <= i < |l| && Straddled(l[i], start, end, kind) && end <= a < l[i].End()
  }

  /** There is no slot for the new range: it frees none, or the right part of a split took the last. */
  ghost predicate NoSlot(l: seq<Entry>, cap: nat, start: int, end: int, kind: Option<nat>) {
    (|l| >= cap && !AnyAbsorbed(l, start, end, kind)) || (|l| + 1 >= cap && AnyStraddled(l, start, end, kind))
  }

  /** Address `a` is not reported after the update although it should be. */
  ghost predicate Lost(l: seq<Entry>, cap: nat, start: int, end: int, kind: Option<nat>, a: int) {
    || RightLost(l, cap, start, end, kind, a)
    || (kind.Some? && start <= a < end && NoSlot(l, cap, start, end, kind))
  }

  // ----- the slots that clipping frees

  /** Clipping frees a slot exactly if it meets an entry that it covers to its end, or of its type. */
  lemma ClipFrees(rest: seq<Entry>, start: int, end: nat, kind: Option<nat>)
    requires Ordered(rest) && StartsFrom(rest, start)
    ensures |Clip(rest, end, kind).0| == |rest| <==> !AnyAbsorbed(rest, start, end, kind)
    ensures |Clip(rest, end, kind).0| == |rest| ==> Clip(rest, end, kind).1 == 0
  {
    NoEndWraps(rest);
    if AnyAbsorbed(rest, start, end, kind) {
      var i :| 0 <= i < |rest| && Absorbed(rest[i], start, end, kind);
      OrderedParts(rest, i);
      OrderedParts(rest, 0);
      if i > 0 { OrderedPair(rest, 0, i); }
      assert end >= rest[0].EndWord() || kind == Some(rest[0].kind);
    } else if rest != [] {
      assert !Absorbed(rest[0], start, end, kind);
    }
  }

  /** The right part of a split is not clipped. */
  lemma ClipNothing(rest: seq<Entry>, end: nat, kind: Option<nat>)
    requires Ordered(rest) && StartsFrom(rest, end)
    requires rest != [] && rest[0].start == end ==> kind != Some(rest[0].kind)
    ensures Clip(rest, end, kind) == (rest, 0)
  {
    NoEndWraps(rest);
    if rest != [] && rest[0].start == end {
      OrderedParts(rest, 0);
      assert rest == [rest[0]] + rest[1..];
    }
  }

  // ----- putting the parts together

  /** With the cut intact, only the new entry can be dropped. */
  lemma AssembledExact(c: Cut, cap: nat, l: seq<Entry>, start: nat, end: nat, kind: Option<nat>, drop: bool, a: int)
    requires WellCut(c, start) && KeepsView(c, l, start, end, kind, a) && start < end < LIMIT && !c.dropped
    requires drop <==> kind.Some? && |c.pre| + |Clip(c.rest, end, kind).0| >= cap
    requires drop ==> c.start == start && Clip(c.rest, end, kind).1 == 0
    ensures var r := Assembled(c, cap, start, end - start, kind);
            && r.1 == drop
            && TypeAt(r.0, a) == if drop && start <= a < end then None else Updated(l, start, end - start, kind, a)
  {
    hide Clip, TypeAt, Ordered;
    ClipShape(c, start, end, kind, a);
    if kind.None? || drop {
      GapView(c, l, start, end, kind, a);
    } else {
      FilledView(c, l, start, end, kind.value, a);
    }
  }

  // ----- an entry that is cut in two

  /** The table is full: the right part and the new range are both dropped. */
  lemma SplitFull(pre: seq<Entry>, e: Entry, tail: seq<Entry>, cap: nat,
                  start: nat, end: nat, kind: Option<nat>, a: int)
    requires Ordered(tail) && EndsBy(pre, e.start) && StartsFrom(tail, e.End())
    requires Straddled(e, start, end, kind) && start < end && e.End() < LIMIT && |pre| + 1 + |tail| >= cap
    ensures var r := Assembled(SplitAround(pre, e, tail, true, start, end), cap, start, end - start, kind);
            && r.1
            && TypeAt(r.0, a) == if start <= a < e.End() then None else TypeAt(pre + [e] + tail, a)
  {
    var left := Entry(e.start, start - e.start, e.kind);
    assert SplitAround(pre, e, tail, true, start, end) == Cut(pre + [left], tail, start, true);
    ClipNothing(tail, end, kind);
    hide SplitAround, Ordered, Clip;
    TypeAtMiddle(pre, e, tail, a);
    TypeAtMiddle(pre, left, tail, a);
    if a < e.End() { TypeAtNone(tail, a); }
  }

  lemma SplitClips(pre: seq<Entry>, e: Entry, tail: seq<Entry>, start: nat, end: nat, kind: Option<nat>)
    requires Ordered(tail) && StartsFrom(tail, e.End())
    requires Straddled(e, start, end, kind) && start < end && e.End() < LIMIT
    ensures var c := SplitAround(pre, e, tail, false, start, end);
            Clip(c.rest, end, kind) == (c.rest, 0) && c.start == start && !c.dropped
            && |c.pre| + |c.rest| == |pre| + |tail| + 2
  {
    var right := Entry(end, e.End() - end, e.kind);
    RightShape(right, tail, end);
    ClipNothing([right] + tail, end, kind);
  }

  lemma StraddledOnly(l: seq<Entry>, i: nat, start: nat, end: nat, kind: Option<nat>)
    requires Ordered(l) && i < |l| && start < end
    requires forall j :: 0 <= j < i ==> l[j].End() < start
    requires start <= l[i].End()
    ensures forall j :: 0 <= j < |l| && j != i ==> !Straddled(l[j], start, end, kind)
    ensures Straddled(l[i], start, end, kind) ==> !AnyAbsorbed(l, start, end, kind)
  {
    forall j | i < j < |l| ensures l[i].End() <= l[j].start { OrderedPair(l, i, j); }
    if Straddled(l[i], start, end, kind) {
      forall j | 0 <= j < |l| ensures !Absorbed(l[j], start, end, kind) {
        OrderedParts(l, j);
      }
    }
  }

  lemma ExactStraddled(l: seq<Entry>, cap: nat, start: nat, end: nat, kind: Option<nat>, i: nat, a: int)
    requires Ordered(l) && start < end < LIMIT
    requires i == Position(l, start) < |l| && Straddled(l[i], start, end, kind)
    ensures var r := Assembled(CutAt(l, cap, start, end, kind), cap, start, end - start, kind);
            && (r.1 <==> |l| >= cap || (kind.Some? && |l| + 1 >= cap))
            && TypeAt(r.0, a) == if (|l| >= cap && start <= a < l[i].End())
                                    || (kind.Some? && |l| + 1 >= cap && start <= a < end) then None
                                 else Updated(l, start, end - start, kind, a)
  {
    hide Clip, TypeAt, Ordered, Position, CutAt, SplitAround, WellCut, KeepsView;
    CutAtCases(l, cap, start, end, kind, i);
    OrderedParts(l, i);
    assert l == l[..i] + [l[i]] + l[i + 1..];
    if |l| >= cap {
      SplitFull(l[..i], l[i], l[i + 1..], cap, start, end, kind, a);
      if start <= a < end && kind.None? { assert Updated(l, start, end - start, kind, a) == None; }
    } else {
      var c := CutAt(l, cap, start, end, kind);
      SplitClips(l[..i], l[i], l[i + 1..], start, end, kind);
      CutShape(l, cap, start, end, kind);
      CutView(l, cap, start, end, kind, a);
      AssembledExact(c, cap, l, start, end, kind, kind.Some? && |l| + 1 >= cap, a);
    }
  }

  // ----- no entry is cut in two

  /** The cut keeps the number of entries, and merges only with an entry whose slot it frees. */
  lemma UncutCount(l: seq<Entry>, cap: nat, start: nat, end: nat, kind: Option<nat>, i: nat)
    requires Ordered(l) && start < end < LIMIT && i == Position(l, start)
    requires i < |l| ==> !Straddled(l[i], start, end, kind)
    ensures var c := CutAt(l, cap, start, end, kind);
            && !c.dropped && |c.pre| + |c.rest| == |l|
            && (AnyAbsorbed(l, start, end, kind) <==> AnyAbsorbed(c.rest, start, end, kind))
            && (!AnyAbsorbed(l, start, end, kind) ==> c.start == start)
            && Ordered(c.rest) && StartsFrom(c.rest, c.start)
  {
    hide Ordered, Position, CutAt, AnyAbsorbed, Absorbed, WellCut, SplitAround, StartsFrom;
    CutAtCases(l, cap, start, end, kind, i);
    PositionEnds(l, start);
    CutShape(l, cap, start, end, kind);
    WellCutRest(CutAt(l, cap, start, end, kind), start);
    EarlierKept(l, i, start, end, kind);
    if i < |l| && l[i].start < start && kind != Some(l[i].kind) {
      SplitLeft(l, i, cap, start, end, kind);
    } else {
      AbsorbedFrom(l, i, start, end, kind);
      if i < |l| && l[i].start < start { MergedAbsorbed(l, i, start, end); }
    }
  }

  lemma EarlierKept(l: seq<Entry>, i: nat, start: nat, end: nat, kind: Option<nat>)
    requires Ordered(l) && i <= |l| && forall j :: 0 <= j < i ==> l[j].End() < start
    ensures forall j :: 0 <= j < i ==> !Absorbed(l[j], start, end, kind)
  {
  }

  /** An entry cut short at its end keeps its slot. */
  lemma SplitLeft(l: seq<Entry>, i: nat, cap: nat, start: nat, end: nat, kind: Option<nat>)
    requires Ordered(l) && i < |l| && l[i].start < start < end && kind != Some(l[i].kind) && l[i].End() < LIMIT
    requires !Straddled(l[i], start, end, kind) && forall j :: 0 <= j < i ==> !Absorbed(l[j], start, end, kind)
    ensures var c := SplitAround(l[..i], l[i], l[i + 1..], |l| >= cap, start, end);
            && !c.dropped && |c.pre| + |c.rest| == |l| && c.start == start
            && (AnyAbsorbed(l, start, end, kind) <==> AnyAbsorbed(c.rest, start, end, kind))
  {
    hide Ordered, AnyAbsorbed;
    AbsorbedFrom(l, i + 1, start, end, kind);
  }

  lemma MergedAbsorbed(l: seq<Entry>, i: nat, start: nat, end: nat)
    requires i < |l| && l[i].start < start < end && start <= l[i].End()
    ensures AnyAbsorbed(l, start, end, Some(l[i].kind))
  {
    assert Absorbed(l[i], start, end, Some(l[i].kind));
  }

  lemma WellCutRest(c: Cut, start: nat)
    requires WellCut(c, start)
    ensures Ordered(c.rest) && StartsFrom(c.rest, c.start)
  {
  }

  lemma AbsorbedFrom(l: seq<Entry>, n: nat, start: nat, end: nat, kind: Option<nat>)
    requires n <= |l| && forall j :: 0 <= j < n ==> !Absorbed(l[j], start, end, kind)
    ensures AnyAbsorbed(l, start, end, kind) <==> AnyAbsorbed(l[n..], start, end, kind)
  {
    if AnyAbsorbed(l[n..], start, end, kind) {
      var j :| 0 <= j < |l[n..]| && Absorbed(l[n..][j], start, end, kind);
      assert Absorbed(l[n + j], start, end, kind);
    }
    if AnyAbsorbed(l, start, end, kind) {
      var j :| 0 <= j < |l| && Absorbed(l[j], start, end, kind);
      assert l[n..][j - n] == l[j];
    }
  }

  lemma ExactUncut(l: seq<Entry>, cap: nat, start: nat, end: nat, kind: Option<nat>, i: nat, a: int)
    requires Ordered(l) && |l| <= cap && start < end < LIMIT && i == Position(l, start)
    requires i < |l| ==> !Straddled(l[i], start, end, kind)
    ensures var r := Assembled(CutAt(l, cap, start, end, kind), cap, start, end - start, kind);
            var drop := kind.Some? && |l| >= cap && !AnyAbsorbed(l, start, end, kind);
            && r.1 == drop
            && TypeAt(r.0, a) == if drop && start <= a < end then None else Updated(l, start, end - start, kind, a)
  {
    hide Clip, TypeAt, Ordered, Position, CutAt, WellCut, KeepsView, AnyAbsorbed, Absorbed;
    var c := CutAt(l, cap, start, end, kind);
    UncutCount(l, cap, start, end, kind, i);
    CutShape(l, cap, start, end, kind);
    CutView(l, cap, start, end, kind, a);
    ClipCount(c, l, start, end, kind);
    AssembledExact(c, cap, l, start, end, kind, kind.Some? && |l| >= cap && !AnyAbsorbed(l, start, end, kind), a);
  }

  lemma ClipCount(c: Cut, l: seq<Entry>, start: nat, end: nat, kind: Option<nat>)
    requires Ordered(c.rest) && StartsFrom(c.rest, c.start) && |c.pre| + |c.rest| == |l|
    requires AnyAbsorbed(l, start, end, kind) <==> AnyAbsorbed(c.rest, start, end, kind)
    requires !AnyAbsorbed(l, start, end, kind) ==> c.start == start
    ensures |c.pre| + |Clip(c.rest, end, kind).0| <= |l|
    ensures |c.pre| + |Clip(c.rest, end, kind).0| == |l| <==> !AnyAbsorbed(l, start, end, kind)
    ensures !AnyAbsorbed(l, start, end, kind) ==> Clip(c.rest, end, kind).1 == 0
  {
    hide Clip, Ordered;
    if c.start == start { ClipFrees(c.rest, start, end, kind); } else { ClipFreesMerged(c.rest, start, end, kind); }
  }

  lemma ClipFreesMerged(rest: seq<Entry>, start: int, end: nat, kind: Option<nat>)
    requires Ordered(rest) && AnyAbsorbed(rest, start, end, kind)
    ensures |Clip(rest, end, kind).0| < |rest|
  {
    NoEndWraps(rest);
    var i :| 0 <= i < |rest| && Absorbed(rest[i], start, end, kind);
    OrderedParts(rest, i);
    OrderedParts(rest, 0);
    if i > 0 { OrderedPair(rest, 0, i); }
    assert end >= rest[0].EndWord() || kind == Some(rest[0].kind);
  }

  // ----- one request

  /**
   After `e820_add` the table reports the pointwise update everywhere except at the lost addresses, where it reports
   nothing; it drops an entry exactly if some address is lost.
   */
  lemma AddedExact(l: seq<Entry>, cap: nat, start: nat, size: nat, kind: Option<nat>, a: int)
    requires Ordered(l) && |l| <= cap && size > 0 && start + size < LIMIT
    ensures var r, end := Added(l, cap, start, size, kind), start + size;
            && TypeAt(r.0, a) == (if Lost(l, cap, start, end, kind, a) then None else Updated(l, start, size, kind, a))
            && (r.1 <==> exists b :: Lost(l, cap, start, end, kind, b))
  {
    hide Clip, TypeAt, Ordered, Position, CutAt, Assembled, AnyAbsorbed, Lost;
    var end, i := start + size, Position(l, start);
    PositionEnds(l, start);
    if i < |l| { StraddledOnly(l, i, start, end, kind); }
    if i < |l| && Straddled(l[i], start, end, kind) {
      ExactStraddled(l, cap, start, end, kind, i, a);
      LostStraddled(l, cap, start, end, kind, i, a);
    } else {
      ExactUncut(l, cap, start, end, kind, i, a);
      LostUncut(l, cap, start, end, kind, a);
    }
  }

  lemma LostStraddled(l: seq<Entry>, cap: nat, start: nat, end: nat, kind: Option<nat>, i: nat, a: int)
    requires start < end && i < |l| && Straddled(l[i], start, end, kind) && !AnyAbsorbed(l, start, end, kind)
    requires forall j :: 0 <= j < |l| && j != i ==> !Straddled(l[j], start, end, kind)
    ensures Lost(l, cap, start, end, kind, a)
            <==> (|l| >= cap && end <= a < l[i].End()) || (kind.Some? && |l| + 1 >= cap && start <= a < end)
    ensures (exists b :: Lost(l, cap, start, end, kind, b)) <==> |l| >= cap || (kind.Some? && |l| + 1 >= cap)
  {
    hide Straddled;
    assert AnyStraddled(l, start, end, kind);
    assert |l| >= cap ==> Straddled(l[i], start, end, kind);
    if |l| >= cap {
      assert end < l[i].End() by { StraddledEnd(l[i], start, end, kind); }
      assert Lost(l, cap, start, end, kind, end);
    }
    if kind.Some? && |l| + 1 >= cap { assert Lost(l, cap, start, end, kind, start); }
  }

  lemma StraddledEnd(e: Entry, start: int, end: int, kind: Option<nat>)
    requires Straddled(e, start, end, kind)
    ensures end < e.End()
  {
  }

  lemma LostUncut(l: seq<Entry>, cap: nat, start: nat, end: nat, kind: Option<nat>, a: int)
    requires start < end && forall j :: 0 <= j < |l| ==> !Straddled(l[j], start, end, kind)
    ensures var drop := kind.Some? && |l| >= cap && !AnyAbsorbed(l, start, end, kind);
            && (Lost(l, cap, start, end, kind, a) <==> drop && start <= a < end)
            && ((exists b :: Lost(l, cap, start, end, kind, b)) <==> drop)
  {
    hide AnyAbsorbed, Straddled;
    if kind.Some? && |l| >= cap && !AnyAbsorbed(l, start, end, kind) {
      assert Lost(l, cap, start, end, kind, start);
    }
  }

  // ----- runs

  /** The last request that covers `a`, or loses it, decides what the table reports there. */
  ghost function Reported(ops: seq<Request>, cap: nat, a: int): Option<nat> {
    if ops == [] then None else
      var before, last := ops[..|ops| - 1], ops[|ops| - 1];
      var end := last.start + last.size;
      if last.size > 0 && Lost(Run(before, cap).0, cap, last.start, end, last.kind, a) then None
      else if last.start <= a < end then last.kind
      else Reported(before, cap, a)
  }

  /** In every run the table reports exactly that, overflowed or not. */
  lemma {:induction false} RunExact(ops: seq<Request>, cap: nat, a: int)
    requires NoWrap(ops)
    ensures TypeAt(Run(ops, cap).0, a) == Reported(ops, cap, a)
  {
    hide Added, Ordered, Coalesced, TypeAt, Lost;
    if ops == [] {
      EmptyList(a);
    } else {
      var before, last := ops[..|ops| - 1], ops[|ops| - 1];
      RunExact(before, cap, a);
      RunSound(before, cap, a);
      if last.size > 0 {
        AddedExact(Run(before, cap).0, cap, last.start, last.size, last.kind, a);
      } else {
        assert Added(Run(before, cap).0, cap, last.start, last.size, last.kind) == (Run(before, cap).0, false) by {
          AddedNothing(Run(before, cap).0, cap, last.start, last.kind);
        }
      }
    }
  }

  lemma AddedNothing(l: seq<Entry>, cap: nat, start: nat, kind: Option<nat>)
    ensures Added(l, cap, start, 0, kind) == (l, false)
  {
  }
}
