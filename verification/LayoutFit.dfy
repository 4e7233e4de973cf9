/** Filling the gaps between the sections with fixed addresses, `fitSections`. */
module LayoutFit {
  import opened Wrappers
  import opened Layout

  const BIOS_ADDR: int := 0xf0000
  const BIOS_SIZE: int := 0x1_0000

  // ----- sorting

  /** A section with the key it is sorted by. */
  datatype Item = Item(key: int, second: nat, third: nat, section: Section)

  predicate Before(a: Item, b: Item) {
    a.key < b.key || (a.key == b.key && (a.second < b.second || (a.second == b.second && a.third <= b.third)))
  }

  function Insert(x: Item, l: seq<Item>): (r: seq<Item>)
    ensures multiset(r) == multiset(l) + multiset{x}
  {
    if l == [] || Before(x, l[0]) then [x] + l
    else
      assert l == [l[0]] + l[1..];
      [l[0]] + Insert(x, l[1..])
  }

  /** A stable sort. */
  function Sort(l: seq<Item>): (r: seq<Item>)
    ensures multiset(r) == multiset(l)
  {
    if l == [] then [] else
      assert l == [l[0]] + l[1..];
      Insert(l[0], Sort(l[1..]))
  }

  predicate Ascending(l: seq<Item>) {
    forall j, k :: 0 <= j < k < |l| ==> l[j].key <= l[k].key
  }

  lemma {:induction false} InsertAscending(x: Item, l: seq<Item>)
    requires Ascending(l)
    ensures Ascending(Insert(x, l))
  {
    if l != [] && !Before(x, l[0]) {
      InsertAscending(x, l[1..]);
      var r := Insert(x, l[1..]);
      forall k | 0 <= k < |r| ensures l[0].key <= r[k].key {
        assert r[k] in multiset(r);
        assert r[k] == x || r[k] in l[1..];
      }
    }
  }

  lemma {:induction false} SortAscending(l: seq<Item>)
    ensures Ascending(Sort(l))
  {
    if l == [] {
    } else {
      SortAscending(l[1..]);
      InsertAscending(l[0], Sort(l[1..]));
    }
  }

  // ----- one gap

  /** A section has a place inside `[lo, hi)` of the segment. */
  predicate Within(s: Section, lo: int, hi: int)
    reads s
  {
    && s.finalsegloc.Some? && s.finalloc == Some(s.finalsegloc.value + BIOS_ADDR)
    && lo <= s.finalsegloc.value && s.finalsegloc.value + s.size <= hi
  }

  /** Two placed sections do not overlap. */
  predicate Apart(s: Section, t: Section)
    reads s, t
  {
    s.finalloc.Some? && t.finalloc.Some? ==>
      s.finalloc.value + s.size <= t.finalloc.value || t.finalloc.value + t.size <= s.finalloc.value
  }

  ghost predicate AllApart(p: set<Section>)
    reads p
  {
    forall s, t :: s in p && t in p && s != t ==> Apart(s, t)
  }

  predicate Aligned(l: seq<Section>) {
    forall k :: 0 <= k < |l| ==> l[k].align > 0
  }

  /** The inner loop: the last section, before the first that is too long, that fits at `addpos`. */
  method FindFit(l: seq<Section>, addpos: int, next: int) returns (k: int, fitnext: int)
    requires Aligned(l)
    ensures -1 <= k < |l|
    ensures k >= 0 ==> fitnext == AlignUp(addpos, l[k].align) + l[k].size <= next
    ensures forall i :: 0 <= i <= k ==> addpos + l[i].size <= next
    ensures forall j :: k < j < |l| ==>
      AlignUp(addpos, l[j].align) + l[j].size > next || exists i :: k < i <= j && addpos + l[i].size > next
  {
    k, fitnext := -1, 0;
    var j := 0;
    while j < |l|
      invariant 0 <= j <= |l| && -1 <= k < j
      invariant k >= 0 ==> fitnext == AlignUp(addpos, l[k].align) + l[k].size <= next
      invariant forall i :: 0 <= i < j ==> addpos + l[i].size <= next
      invariant forall i :: k < i < j ==> AlignUp(addpos, l[i].align) + l[i].size > next
    {
      if addpos + l[j].size > next { break; }
      var n := AlignUp(addpos, l[j].align) + l[j].size;
      if n <= next { k, fitnext := j, n; }
      j := j + 1;
    }
  }

  function Without(l: seq<Section>, k: nat): seq<Section>
    requires k < |l|
  {
    l[..k] + l[k + 1..]
  }

  lemma RemoveOne(l: seq<Section>, k: nat, s: Section)
    requires Distinct(l) && Aligned(l) && k < |l|
    ensures Distinct(Without(l, k)) && Aligned(Without(l, k))
    ensures s in Without(l, k) <==> s in l && s != l[k]
  {
    var r := Without(l, k);
    if s in l && s != l[k] {
      var n :| 0 <= n < |l| && l[n] == s;
      assert r[if n < k then n else n - 1] == s;
    }
  }

  /** The sections of `l` are split into those left and those placed. */
  ghost predicate Split(l: seq<Section>, rest: seq<Section>, placed: set<Section>) {
    && Distinct(rest) && Aligned(rest)
    && (forall s :: s in rest ==> s in l && s !in placed)
    && (forall s :: s in l && s !in placed ==> s in rest)
    && (forall s :: s in placed ==> s in l)
  }

  lemma SplitOne(l: seq<Section>, rest: seq<Section>, placed: set<Section>, k: nat)
    requires Split(l, rest, placed) && k < |rest|
    ensures Split(l, Without(rest, k), placed + {rest[k]}) && rest[k] in l && rest[k] !in placed
  {
    hide Without, Distinct, Aligned;
    assert rest[k] in rest;
    RemoveOne(rest, k, rest[k]);
    forall s | s in Without(rest, k) ensures s in rest && s != rest[k] { RemoveOne(rest, k, s); }
    forall s | s in rest && s != rest[k] ensures s in Without(rest, k) { RemoveOne(rest, k, s); }
  }

  /** Room for the section from `pos` on. */
  predicate FitsAt(s: Section, pos: int, next: int) {
    s.align > 0 && AlignUp(pos, s.align) + s.size <= next
  }

  /** The gap is used up to `end` by this section. */
  predicate EndsAt(s: Section, end: int)
    reads s
  {
    s.align > 0 && s.finalsegloc.Some? && end == AlignUp(s.finalsegloc.value, s.align) + s.size
  }

  ghost predicate UsedTo(placed: set<Section>, lo: int, end: int)
    reads placed
  {
    end == lo || exists s :: s in placed && EndsAt(s, end)
  }

  predicate BySize(l: seq<Section>) {
    forall j, k :: 0 <= j < k < |l| ==> l[j].size <= l[k].size
  }

  /** When the search ends, no section that is left fits. */
  lemma NoneFits(l: seq<Section>, pos: int, next: int)
    requires Aligned(l) && BySize(l)
    requires forall j :: 0 <= j < |l| ==>
      AlignUp(pos, l[j].align) + l[j].size > next || exists i :: 0 <= i <= j && pos + l[i].size > next
    ensures forall s :: s in l ==> !FitsAt(s, pos, next)
  {
    forall s | s in l ensures !FitsAt(s, pos, next) {
      var j :| 0 <= j < |l| && l[j] == s;
    }
  }

  lemma WithoutBySize(l: seq<Section>, k: nat)
    requires k < |l| && BySize(l)
    ensures BySize(Without(l, k))
  {
  }

  /** The outer loop for one gap: it is used up to `end`, where nothing that is left fits any more. */
  method FillGap(l: seq<Section>, lo: int, next: int)
    returns (rest: seq<Section>, ghost placed: set<Section>, ghost end: int)
    requires Distinct(l) && Aligned(l) && BySize(l)
    modifies l
    ensures Split(l, rest, placed) && AllApart(placed) && BySize(rest)
    ensures forall s :: s in placed ==> Within(s, lo, next)
    ensures forall s :: s in l && s !in placed ==> unchanged(s)
    ensures UsedTo(placed, lo, end) && forall s :: s in rest ==> !FitsAt(s, end, next)
  {
    hide Distinct, Aligned, BySize, AllApart, UsedTo, FitsAt;
    rest, placed := l, {};
    var addpos := lo;
    NothingUsed(l, lo);
    while true
      invariant Split(l, rest, placed) && AllApart(placed) && lo <= addpos && BySize(rest) && UsedTo(placed, lo, addpos)
      invariant forall s :: s in placed ==> Within(s, lo, addpos) && Within(s, lo, next)
      invariant forall s :: s in l && s !in placed ==> unchanged(s)
      decreases |rest|
    {
      var k, fitnext := FindFit(rest, addpos, next);
      if k < 0 {
        end := addpos;
        NoneFits(rest, addpos, next);
        break;
      }
      var s := rest[k];
      SplitOne(l, rest, placed, k);
      WithoutBySize(rest, k);
      PositiveAt(rest, k);
      s.finalloc, s.finalsegloc := Some(addpos + BIOS_ADDR), Some(addpos);
      OneMore(placed, s, lo, addpos, fitnext);
      placed := placed + {s};
      rest := Without(rest, k);
      addpos := fitnext;
    }
  }

  lemma NothingUsed(l: seq<Section>, lo: int)
    requires Distinct(l) && Aligned(l)
    ensures Split(l, l, {}) && AllApart({}) && UsedTo({}, lo, lo)
  {
  }

  /** A section placed where the others end. */
  lemma OneMore(placed: set<Section>, s: Section, lo: int, pos: int, end: int)
    requires AllApart(placed) && s !in placed && lo <= pos && s.align > 0 && end == AlignUp(pos, s.align) + s.size
    requires forall t :: t in placed ==> Within(t, lo, pos)
    requires s.finalloc == Some(pos + BIOS_ADDR) && s.finalsegloc == Some(pos)
    ensures AllApart(placed + {s}) && UsedTo(placed + {s}, lo, end)
    ensures forall t :: t in placed + {s} ==> Within(t, lo, end)
  {
    assert EndsAt(s, end);
  }

  lemma PositiveAt(l: seq<Section>, k: nat)
    requires Aligned(l) && k < |l|
    ensures l[k].align > 0
  {
  }

  // ----- all gaps

  function Lo(g: Item): int
    requires g.section.fixedaddr.Some?
  {
    g.section.fixedaddr.value + g.section.size
  }

  function Hi(g: Item): int
    requires g.section.fixedaddr.Some?
  {
    Lo(g) + g.key
  }

  predicate AllFixed(l: seq<Item>) {
    forall k :: 0 <= k < |l| ==> l[k].section.fixedaddr.Some?
  }

  /** No two gaps meet; a gap is a fixed section with the free space after it as key. */
  predicate GapsApart(l: seq<Item>)
    requires AllFixed(l)
  {
    forall j, k :: 0 <= j < k < |l| ==> Hi(l[j]) <= Lo(l[k]) || Hi(l[k]) <= Lo(l[j])
  }

  /** Every placed section lies in the gap that `gap` gives for it. */
  ghost predicate InGaps(l: seq<Item>, placed: set<Section>, gap: map<Section, nat>, n: nat)
    requires n <= |l| && AllFixed(l)
    reads placed
  {
    forall s :: s in placed ==> s in gap && gap[s] < n && Within(s, Lo(l[gap[s]]), Hi(l[gap[s]]))
  }

  lemma JoinGaps(l: seq<Item>, placed: set<Section>, gap: map<Section, nat>, n: nat, p: set<Section>)
    requires n < |l| && AllFixed(l) && GapsApart(l) && InGaps(l, placed, gap, n)
    requires AllApart(placed) && AllApart(p) && placed !! p
    requires forall s :: s in p ==> Within(s, Lo(l[n]), Hi(l[n]))
    ensures AllApart(placed + p)
    ensures InGaps(l, placed + p, gap + (map s | s in p :: n), n + 1)
  {
  }

  /** The fixed sections lie where their names say. */
  ghost predicate FixedPlaced(l: seq<Item>)
    reads set k | 0 <= k < |l| :: l[k].section
  {
    forall k :: 0 <= k < |l| ==> l[k].section.finalsegloc == l[k].section.fixedaddr
  }

  /** Gap `n` is used up to some place, where nothing fits that is left or was placed in a later gap. */
  ghost predicate Full(g: Item, placed: set<Section>, gap: map<Section, nat>, n: nat, rest: seq<Section>)
    requires g.section.fixedaddr.Some?
    reads placed
  {
    exists end :: && UsedTo(InGap(placed, gap, n), Lo(g), end) && NoneLeft(rest, end, Hi(g))
                  && NoneLater(placed, gap, n, end, Hi(g))
  }

  ghost predicate NoneLater(placed: set<Section>, gap: map<Section, nat>, n: nat, end: int, next: int) {
    forall s :: s in placed && s in gap && gap[s] > n ==> !FitsAt(s, end, next)
  }

  /** What was placed in gap `n`. */
  ghost function InGap(placed: set<Section>, gap: map<Section, nat>, n: nat): set<Section> {
    set s | s in placed && s in gap && gap[s] == n
  }

  ghost predicate NoneLeft(rest: seq<Section>, end: int, next: int) {
    forall s :: s in rest ==> !FitsAt(s, end, next)
  }

  ghost predicate AllFull(l: seq<Item>, placed: set<Section>, gap: map<Section, nat>, n: nat, rest: seq<Section>)
    requires n <= |l| && AllFixed(l)
    reads placed
  {
    forall m :: 0 <= m < n ==> Full(l[m], placed, gap, m, rest)
  }

  /** Filling one more gap keeps the earlier ones full. */
  lemma JoinFull(l: seq<Item>, placed: set<Section>, gap: map<Section, nat>, n: nat, p: set<Section>,
                 was: seq<Section>, rest: seq<Section>, end: int)
    requires n < |l| && AllFixed(l) && placed !! p && AllFull(l, placed, gap, n, was) && gap.Keys == placed
    requires (forall s :: s in rest ==> s in was) && UsedTo(p, Lo(l[n]), end) && NoneLeft(rest, end, Hi(l[n]))
    requires forall s :: s in p ==> s in was
    requires forall s :: s in placed ==> gap[s] < n
    ensures AllFull(l, placed + p, gap + (map s | s in p :: n), n + 1, rest)
  {
    hide FitsAt, EndsAt;
    var more, both := gap + (map s | s in p :: n), placed + p;
    forall m | 0 <= m < n + 1 ensures Full(l[m], both, more, m, rest) {
      var at := InGap(both, more, m);
      if m == n {
        assert at == p;
        assert UsedTo(at, Lo(l[m]), end) && NoneLater(both, more, m, end, Hi(l[m]));
      } else {
        assert at == InGap(placed, gap, m);
        assert Full(l[m], placed, gap, m, was);
        var e :| UsedTo(at, Lo(l[m]), e) && NoneLeft(was, e, Hi(l[m])) && NoneLater(placed, gap, m, e, Hi(l[m]));
        assert NoneLeft(rest, e, Hi(l[m])) && NoneLater(both, more, m, e, Hi(l[m]));
      }
    }
  }

  /** One gap after `n` others. */
  method FillNext(l: seq<Item>, was: seq<Section>, ghost placed0: set<Section>, ghost gap0: map<Section, nat>, n: nat)
    returns (rest: seq<Section>, ghost p: set<Section>, ghost gap: map<Section, nat>)
    requires n < |l| && AllFixed(l) && GapsApart(l) && FixedPlaced(l)
    requires forall k :: 0 <= k < |l| ==> l[k].section !in was
    requires Distinct(was) && Aligned(was) && BySize(was) && forall s :: s in was ==> s !in placed0
    requires AllApart(placed0) && InGaps(l, placed0, gap0, n) && AllFull(l, placed0, gap0, n, was)
    requires gap0.Keys == placed0
    modifies was
    ensures Split(was, rest, p) && BySize(rest) && gap.Keys == placed0 + p
    ensures AllApart(placed0 + p) && InGaps(l, placed0 + p, gap, n + 1) && AllFull(l, placed0 + p, gap, n + 1, rest)
    ensures forall s :: s in was && s !in p ==> unchanged(s)
  {
    hide GapsApart, AllApart, Within, Distinct, Aligned, BySize, UsedTo, AllFull, NoneLeft;
    var addpos := l[n].section.finalsegloc.value + l[n].section.size;
    ghost var end;
    rest, p, end := FillGap(was, addpos, addpos + l[n].key);
    JoinGaps(l, placed0, gap0, n, p);
    NoneLeftOf(rest, end, addpos + l[n].key);
    JoinFull(l, placed0, gap0, n, p, was, rest, end);
    gap := gap0 + (map s | s in p :: n);
  }

  lemma SplitMore(l: seq<Section>, was: seq<Section>, placed: set<Section>, rest: seq<Section>, p: set<Section>)
    requires Split(l, was, placed) && Split(was, rest, p)
    ensures Split(l, rest, placed + p)
  {
    hide Distinct, Aligned;
  }

  method FillGaps(l: seq<Item>, fill: seq<Section>)
    returns (rest: seq<Section>, ghost placed: set<Section>, ghost gap: map<Section, nat>)
    requires Distinct(fill) && Aligned(fill) && BySize(fill) && AllFixed(l) && GapsApart(l) && FixedPlaced(l)
    requires forall k :: 0 <= k < |l| ==> l[k].section !in fill
    modifies fill
    ensures Split(fill, rest, placed) && AllApart(placed) && InGaps(l, placed, gap, |l|)
    ensures AllFull(l, placed, gap, |l|, rest)
    ensures forall s :: s in fill && s !in placed ==> unchanged(s)
  {
    hide GapsApart, AllApart, InGaps, Distinct, Aligned, BySize, AllFull;
    placed, gap, rest := {}, map[], fill;
    var n := 0;
    NoneApart();
    NoneIn(l);
    NoneFull(l, rest);
    while n < |l|
      invariant 0 <= n <= |l| && Split(fill, rest, placed) && BySize(rest) && FixedPlaced(l)
      invariant AllApart(placed) && InGaps(l, placed, gap, n) && AllFull(l, placed, gap, n, rest) && gap.Keys == placed
      invariant forall s :: s in fill && s !in placed ==> unchanged(s)
    {
      ghost var p;
      ghost var was := rest;
      assert forall k :: 0 <= k < |rest| ==> rest[k] in rest && rest[k] in fill;
      rest, p, gap := FillNext(l, rest, placed, gap, n);
      SplitMore(fill, was, placed, rest, p);
      placed := placed + p;
      n := n + 1;
    }
  }

  lemma NoneApart()
    ensures AllApart({})
  {
  }

  lemma NoneIn(l: seq<Item>)
    requires AllFixed(l)
    ensures InGaps(l, {}, map[], 0)
  {
  }

  lemma NoneLeftOf(rest: seq<Section>, end: int, next: int)
    requires forall s :: s in rest ==> !FitsAt(s, end, next)
    ensures NoneLeft(rest, end, next)
  {
  }

  lemma NoneFull(l: seq<Item>, rest: seq<Section>)
    requires AllFixed(l)
    ensures AllFull(l, {}, map[], 0, rest)
  {
  }

  // ----- the fixed sections

  /** The fixed sections among the first `n`, with their addresses. */
  function FixedItems(l: seq<Section>, n: nat): seq<Item>
    requires n <= |l|
  {
    if n == 0 then [] else
    FixedItems(l, n - 1) +
      if l[n - 1].fixedaddr.Some? then [Item(l[n - 1].fixedaddr.value, 0, 0, l[n - 1])] else []
  }

  /** Different items are about different sections. */
  predicate DistinctItems(l: seq<Item>) {
    forall j, k :: 0 <= j < k < |l| ==> l[j].section != l[k].section
  }

  /** Every item is a fixed section of `l` at its address. */
  predicate FixedOf(items: seq<Item>, l: seq<Section>) {
    forall x :: x in items ==> x.section in l && x.section.fixedaddr == Some(x.key)
  }

  lemma {:induction false} FixedItemsOf(l: seq<Section>, n: nat)
    requires n <= |l| && Distinct(l)
    ensures DistinctItems(FixedItems(l, n)) && FixedOf(FixedItems(l, n), l[..n])
  {
    if n == 0 {
    } else {
      FixedItemsOf(l, n - 1);
      assert l[..n] == l[..n - 1] + [l[n - 1]];
      var r := FixedItems(l, n - 1);
      forall k | 0 <= k < |r| ensures r[k].section != l[n - 1] {
        assert r[k] in r;
      }
    }
  }

  lemma {:induction false} FixedItemsHas(l: seq<Section>, n: nat, s: Section)
    requires n <= |l| && s in l[..n] && s.fixedaddr.Some?
    ensures Item(s.fixedaddr.value, 0, 0, s) in FixedItems(l, n)
  {
    assert l[..n] == l[..n - 1] + [l[n - 1]];
    if s != l[n - 1] { FixedItemsHas(l, n - 1, s); }
  }

  lemma {:induction false} InsertDistinct(x: Item, l: seq<Item>)
    requires DistinctItems(l) && forall k :: 0 <= k < |l| ==> l[k].section != x.section
    ensures DistinctItems(Insert(x, l))
  {
    if l != [] && !Before(x, l[0]) {
      InsertDistinct(x, l[1..]);
      var r := Insert(x, l[1..]);
      forall k | 0 <= k < |r| ensures l[0].section != r[k].section {
        assert r[k] in multiset(r);
        assert r[k] == x || r[k] in l[1..];
      }
    }
  }

  lemma {:induction false} SortDistinct(l: seq<Item>)
    requires DistinctItems(l)
    ensures DistinctItems(Sort(l))
  {
    if l == [] {
    } else {
      SortDistinct(l[1..]);
      var r := Sort(l[1..]);
      forall k | 0 <= k < |r| ensures r[k].section != l[0].section {
        assert r[k] in multiset(r);
        assert r[k] in l[1..];
      }
      InsertDistinct(l[0], r);
    }
  }

  function NextAddr(f: seq<Item>, i: nat): int
    requires i < |f|
  {
    if i + 1 < |f| then f[i + 1].key else BIOS_SIZE
  }

  /** The free space after fixed section `i`. */
  function Free(f: seq<Item>, i: nat): Item
    requires i < |f|
  {
    Item(NextAddr(f, i) - f[i].key - f[i].section.size, 0, 0, f[i].section)
  }

  function FreeItems(f: seq<Item>, n: nat): (r: seq<Item>)
    requires n <= |f|
    ensures |r| == n && forall i :: 0 <= i < n ==> r[i] == Free(f, i)
  {
    if n == 0 then [] else FreeItems(f, n - 1) + [Free(f, n - 1)]
  }

  predicate AtAddr(f: seq<Item>) {
    forall i :: 0 <= i < |f| ==> f[i].section.fixedaddr == Some(f[i].key)
  }

  lemma FreeOf(f: seq<Item>, g: seq<Item>, k: nat) returns (i: nat)
    requires multiset(g) == multiset(FreeItems(f, |f|)) && k < |g|
    ensures i < |f| && g[k] == Free(f, i)
  {
    assert g[k] in multiset(g);
    var r := FreeItems(f, |f|);
    i :| 0 <= i < |r| && r[i] == g[k];
  }

  lemma FreeApart(f: seq<Item>, g: seq<Item>)
    requires Ascending(f) && AtAddr(f) && multiset(g) == multiset(FreeItems(f, |f|)) && DistinctItems(g)
    ensures AllFixed(g) && GapsApart(g)
  {
    hide FreeItems;
    forall k | 0 <= k < |g| ensures g[k].section.fixedaddr.Some? {
      var i := FreeOf(f, g, k);
    }
    forall j, k | 0 <= j < k < |g| ensures Hi(g[j]) <= Lo(g[k]) || Hi(g[k]) <= Lo(g[j]) {
      var i := FreeOf(f, g, j);
      var n := FreeOf(f, g, k);
    }
  }

  // ----- the fillers in order of size

  function FillItems(l: seq<Section>): (r: seq<Item>)
    ensures |r| == |l| && forall k :: 0 <= k < |l| ==> r[k] == Item(l[k].size, l[k].align, l[k].rank, l[k])
  {
    if l == [] then [] else [Item(l[0].size, l[0].align, l[0].rank, l[0])] + FillItems(l[1..])
  }

  function SectionsOf(l: seq<Item>): (r: seq<Section>)
    ensures |r| == |l| && forall k :: 0 <= k < |l| ==> r[k] == l[k].section
  {
    if l == [] then [] else [l[0].section] + SectionsOf(l[1..])
  }

  /** `canrelocate`. */
  function Candidates(l: seq<Section>): seq<Section> {
    SectionsOf(Sort(FillItems(l)))
  }

  lemma CandidateIn(l: seq<Section>, s: Section)
    ensures s in Candidates(l) <==> s in l
  {
    var items := FillItems(l);
    var r := Sort(items);
    hide Sort, FillItems, SectionsOf;
    if s in Candidates(l) {
      var k :| 0 <= k < |r| && Candidates(l)[k] == s;
      assert r[k] in multiset(r);
      var i :| 0 <= i < |items| && items[i] == r[k];
      assert l[i] == s;
    }
    if s in l {
      var i :| 0 <= i < |l| && l[i] == s;
      assert items[i] in multiset(items);
      var k :| 0 <= k < |r| && r[k] == items[i];
      assert Candidates(l)[k] == s;
    }
  }

  lemma CandidatesBySize(l: seq<Section>)
    ensures BySize(Candidates(l))
  {
    var items := FillItems(l);
    var r := Sort(items);
    SortAscending(items);
    hide Sort, FillItems, SectionsOf;
    forall k | 0 <= k < |r| ensures r[k].key == r[k].section.size {
      assert r[k] in multiset(r);
      var i :| 0 <= i < |items| && items[i] == r[k];
    }
  }

  lemma CandidatesSame(l: seq<Section>)
    requires Distinct(l) && Aligned(l)
    ensures Distinct(Candidates(l)) && Aligned(Candidates(l)) && BySize(Candidates(l))
    ensures forall s :: s in Candidates(l) ==> s in l
    ensures forall s :: s in l ==> s in Candidates(l)
  {
    SortDistinct(FillItems(l));
    CandidatesBySize(l);
    forall s | s in Candidates(l) ensures s in l { CandidateIn(l, s); }
    forall s | s in l ensures s in Candidates(l) { CandidateIn(l, s); }
    hide Sort, FillItems, SectionsOf;
    forall k | 0 <= k < |Candidates(l)| ensures Candidates(l)[k].align > 0 {
      assert Candidates(l)[k] in l;
    }
  }

  // ----- fitSections

  ghost predicate FixedAt(f: seq<Item>)
    reads set k | 0 <= k < |f| :: f[k].section
  {
    forall i :: 0 <= i < |f| ==> AtKey(f[i])
  }

  /** A filler is inside the gap after some fixed section. */
  ghost predicate InSomeGap(f: seq<Item>, s: Section)
    reads s
  {
    exists i :: 0 <= i < |f| && Within(s, f[i].key + f[i].section.size, NextAddr(f, i))
  }

  ghost predicate Fitted(f: seq<Item>, fill: seq<Section>)
    reads set k | 0 <= k < |f| :: f[k].section
    reads fill
  {
    && FixedAt(f) && AllApart(set s | s in fill)
    && forall s :: s in fill && s.finalloc.Some? ==> InSomeGap(f, s)
  }

  /** Every filler with an address lies in the gap that `home` gives for it. */
  ghost predicate AtHome(f: seq<Item>, fill: seq<Section>, home: map<Section, nat>)
    reads fill
  {
    forall s :: s in fill && s.finalloc.Some? ==>
      && s in home && home[s] < |f|
      && Within(s, f[home[s]].key + f[home[s]].section.size, NextAddr(f, home[s]))
  }

  function FreeSize(f: seq<Item>, i: nat): int
    requires i < |f|
  {
    NextAddr(f, i) - f[i].key - f[i].section.size
  }

  /** Without an address, or in a gap larger than gap `i`. */
  predicate Elsewhere(f: seq<Item>, i: nat, s: Section, home: map<Section, nat>)
    requires i < |f|
    reads s
  {
    s.finalloc.None? || (s in home && home[s] < |f| && FreeSize(f, home[s]) > FreeSize(f, i))
  }

  /**
   The gap after fixed section `i` is used up to some place, where nothing fits that has no address or was
   put into a larger gap.
   */
  ghost predicate GapFull(f: seq<Item>, i: nat, fill: seq<Section>, home: map<Section, nat>)
    requires i < |f|
    reads fill
  {
    exists end :: && FilledTo(f, i, fill, end)
                  && forall s :: s in fill && Elsewhere(f, i, s, home) ==> !FitsAt(s, end, NextAddr(f, i))
  }

  ghost predicate FilledTo(f: seq<Item>, i: nat, fill: seq<Section>, end: int)
    requires i < |f|
    reads fill
  {
    var lo := f[i].key + f[i].section.size;
    end == lo || exists s :: s in fill && Within(s, lo, NextAddr(f, i)) && EndsAt(s, end)
  }

  ghost predicate GapsFull(f: seq<Item>, fill: seq<Section>, home: map<Section, nat>)
    reads fill
  {
    AtHome(f, fill, home) && forall i :: 0 <= i < |f| ==> GapFull(f, i, fill, home)
  }

  /** Fixed sections by address. */
  function ByAddress(l: seq<Section>): seq<Item> {
    Sort(FixedItems(l, |l|))
  }

  lemma ByAddressOf(l: seq<Section>)
    requires Distinct(l)
    ensures var f := ByAddress(l); Ascending(f) && AtAddr(f) && DistinctItems(f) && FixedOf(f, l)
    ensures |ByAddress(l)| == |FixedItems(l, |l|)|
  {
    var items, f := FixedItems(l, |l|), ByAddress(l);
    FixedItemsOf(l, |l|);
    assert l[..|l|] == l;
    SortAscending(items);
    SortDistinct(items);
    hide Sort;
    assert |multiset(f)| == |multiset(items)|;
    forall x | x in f ensures x in items { assert x in multiset(f); }
  }

  /** Setting the fixed addresses; a fixed section with an alignment is an error. */
  method PlaceFixed(sections: seq<Section>) returns (ok: bool, items: seq<Item>)
    requires Distinct(sections)
    modifies sections
    ensures ok <==> forall s :: s in sections && s.fixedaddr.Some? ==> s.align == 1
    ensures ok ==> items == FixedItems(sections, |sections|) && FixedAt(items)
    ensures forall s :: s in sections && s.fixedaddr.None? ==> unchanged(s)
  {
    hide FixedItems, FixedAt;
    ok, items := true, [];
    NoItems(sections);
    var n := 0;
    while n < |sections|
      invariant 0 <= n <= |sections| && items == FixedItems(sections, n)
      invariant forall k :: 0 <= k < n && sections[k].fixedaddr.Some? ==> sections[k].align == 1 && AtName(sections[k])
      invariant forall s :: s in sections && s.fixedaddr.None? ==> unchanged(s)
    {
      var s := sections[n];
      NextItem(sections, n);
      if s.fixedaddr.Some? {
        s.finalloc := Some(s.fixedaddr.value + BIOS_ADDR);
        s.finalsegloc := Some(s.fixedaddr.value);
        items := items + [Item(s.fixedaddr.value, 0, 0, s)];
        if s.align != 1 { assert s in sections; return false, items; }
      }
      n := n + 1;
    }
    ItemsAt(sections);
  }

  /** A fixed section has the address in its name. */
  predicate AtName(s: Section)
    requires s.fixedaddr.Some?
    reads s
  {
    s.finalloc == Some(s.fixedaddr.value + BIOS_ADDR) && s.finalsegloc == Some(s.fixedaddr.value)
  }

  lemma NoItems(l: seq<Section>)
    ensures FixedItems(l, 0) == []
  {
  }

  lemma NextItem(l: seq<Section>, n: nat)
    requires n < |l|
    ensures FixedItems(l, n + 1) == FixedItems(l, n) +
              if l[n].fixedaddr.Some? then [Item(l[n].fixedaddr.value, 0, 0, l[n])] else []
  {
  }

  lemma ItemsAt(l: seq<Section>)
    requires Distinct(l) && forall k :: 0 <= k < |l| && l[k].fixedaddr.Some? ==> AtName(l[k])
    ensures FixedAt(FixedItems(l, |l|))
  {
    hide FixedItems, Distinct, DistinctItems;
    var items := FixedItems(l, |l|);
    FixedItemsOf(l, |l|);
    assert l[..|l|] == l;
    forall i | 0 <= i < |items| ensures AtKey(items[i]) { ItemAt(l, items, i); }
  }

  predicate AtKey(x: Item)
    reads x.section
  {
    x.section.finalloc == Some(x.key + BIOS_ADDR) && x.section.finalsegloc == Some(x.key)
  }

  lemma ItemAt(l: seq<Section>, items: seq<Item>, i: nat)
    requires FixedOf(items, l) && i < |items| && forall k :: 0 <= k < |l| && l[k].fixedaddr.Some? ==> AtName(l[k])
    ensures AtKey(items[i])
  {
    assert items[i] in items;
    var k :| 0 <= k < |l| && l[k] == items[i].section;
  }

  /** `fitSections`; no result when a fixed section has an alignment. */
  method FitSections(sections: seq<Section>, fill: seq<Section>)
    returns (ok: bool, first: int, ghost home: map<Section, nat>)
    requires Distinct(sections) && Distinct(fill) && Aligned(fill) && (forall s :: s in sections ==> s !in fill)
    requires forall s :: s in fill ==> s.finalloc.None?
    requires FixedItems(sections, |sections|) != []
    modifies sections, fill
    ensures ok <==> forall s :: s in sections && s.fixedaddr.Some? ==> s.align == 1
    ensures ok ==> ByAddress(sections) != [] && first == ByAddress(sections)[0].key + BIOS_ADDR
    ensures ok ==> Fitted(ByAddress(sections), fill) && GapsFull(ByAddress(sections), fill, home)
    ensures forall s :: s in sections && s.fixedaddr.None? ==> unchanged(s)
  {
    hide FixedItems, FixedAt, AllApart, InGaps, Distinct, DistinctItems, Ascending;
    hide AtAddr, FixedOf, GapsApart, GapsFull;
    var items;
    ok, items := PlaceFixed(sections);
    if !ok { return false, 0, map[]; }
    ByAddressOf(sections);
    var f := Sort(items);
    first := f[0].key + BIOS_ADDR;
    SortedAt(items);
    home := FillFixed(sections, fill, f);
  }

  /** Gaps in order of their size, each filled from the candidates that are left. */
  method FillFixed(ghost sections: seq<Section>, fill: seq<Section>, f: seq<Item>)
    returns (ghost home: map<Section, nat>)
    requires Distinct(fill) && Aligned(fill) && (forall s :: s in sections ==> s !in fill)
    requires forall s :: s in fill ==> s.finalloc.None?
    requires Ascending(f) && AtAddr(f) && DistinctItems(f) && FixedOf(f, sections) && FixedAt(f)
    modifies fill
    ensures Fitted(f, fill) && GapsFull(f, fill, home)
  {
    hide AllApart, InGaps, Distinct, Ascending, DistinctItems, GapsApart, Sort, FreeItems, Candidates, FixedOf;
    hide GapsFull, BySize, AllFull, Fitted;
    var g := Sort(FreeItems(f, |f|));
    GapsOf(sections, fill, f, g);
    var c := Candidates(fill);
    CandidatesSame(fill);
    assert forall k :: 0 <= k < |c| ==> c[k] in c && c[k] in fill;
    FreePlaced(f, g);
    OutsideFill(sections, f, fill);
    ghost var placed, gap;
    var rest;
    rest, placed, gap := FillGaps(g, c);
    FittedGaps(f, g, fill, placed, gap);
    home := Homes(f, g, placed, gap);
    SortAscending(FreeItems(f, |f|));
    FullGaps(f, g, c, fill, rest, placed, gap, home);
  }

  lemma FreeIn(f: seq<Item>, g: seq<Item>, i: nat) returns (k: nat)
    requires multiset(g) == multiset(FreeItems(f, |f|)) && i < |f|
    ensures k < |g| && g[k] == Free(f, i)
  {
    var r := FreeItems(f, |f|);
    assert r[i] in multiset(r);
    k :| 0 <= k < |g| && g[k] == r[i];
  }

  /** The fixed section before each filler. */
  lemma Homes(f: seq<Item>, g: seq<Item>, placed: set<Section>, gap: map<Section, nat>)
    returns (home: map<Section, nat>)
    requires g == Sort(FreeItems(f, |f|)) && AllFixed(g) && InGaps(g, placed, gap, |g|)
    ensures home.Keys == placed
    ensures forall s :: s in placed ==> home[s] < |f| && g[gap[s]] == Free(f, home[s])
  {
    hide Sort, FreeItems;
    forall s | s in placed ensures exists i: nat :: i < |f| && g[gap[s]] == Free(f, i) {
      var i := FreeOf(f, g, gap[s]);
    }
    home := map s | s in placed :: var i: nat :| i < |f| && g[gap[s]] == Free(f, i); i;
  }

  lemma FullGaps(f: seq<Item>, g: seq<Item>, c: seq<Section>, fill: seq<Section>, rest: seq<Section>,
                 placed: set<Section>, gap: map<Section, nat>, home: map<Section, nat>)
    requires AtAddr(f) && g == Sort(FreeItems(f, |f|)) && AllFixed(g) && Split(c, rest, placed) && Ascending(g)
    requires InGaps(g, placed, gap, |g|) && AllFull(g, placed, gap, |g|, rest)
    requires (forall s :: s in c ==> s in fill) && (forall s :: s in fill ==> s in c)
    requires home.Keys == placed && forall s :: s in placed ==> home[s] < |f| && g[gap[s]] == Free(f, home[s])
    requires forall s :: s in fill && s !in placed ==> s.finalloc.None?
    ensures GapsFull(f, fill, home)
  {
    hide Sort, FreeItems, FitsAt, EndsAt, GapFull;
    forall i | 0 <= i < |f| ensures GapFull(f, i, fill, home) {
      OneFull(f, g, c, fill, rest, placed, gap, home, i);
    }
  }

  lemma OneFull(f: seq<Item>, g: seq<Item>, c: seq<Section>, fill: seq<Section>, rest: seq<Section>,
                placed: set<Section>, gap: map<Section, nat>, home: map<Section, nat>, i: nat)
    requires AtAddr(f) && g == Sort(FreeItems(f, |f|)) && AllFixed(g) && Split(c, rest, placed) && Ascending(g)
    requires InGaps(g, placed, gap, |g|) && AllFull(g, placed, gap, |g|, rest) && i < |f|
    requires (forall s :: s in c ==> s in fill) && (forall s :: s in fill ==> s in c)
    requires home.Keys == placed && forall s :: s in placed ==> home[s] < |f| && g[gap[s]] == Free(f, home[s])
    ensures GapFull(f, i, fill, home)
  {
    hide Sort, FreeItems, FitsAt, EndsAt, InGaps, Ascending, UsedTo, Split, Within;
    var k := FreeIn(f, g, i);
    assert Full(g[k], placed, gap, k, rest);
    var end :| && UsedTo(InGap(placed, gap, k), Lo(g[k]), end) && NoneLeft(rest, end, Hi(g[k]))
               && NoneLater(placed, gap, k, end, Hi(g[k]));
    FilledGap(f, g, c, fill, rest, placed, gap, i, k, end);
    forall s | s in fill && Elsewhere(f, i, s, home) ensures !FitsAt(s, end, NextAddr(f, i)) {
      LaterOrLeft(f, g, c, rest, placed, gap, home, i, k, s);
    }
  }

  lemma FilledGap(f: seq<Item>, g: seq<Item>, c: seq<Section>, fill: seq<Section>, rest: seq<Section>,
                  placed: set<Section>, gap: map<Section, nat>, i: nat, k: nat, end: int)
    requires AtAddr(f) && AllFixed(g) && i < |f| && k < |g| && g[k] == Free(f, i) && Split(c, rest, placed)
    requires InGaps(g, placed, gap, |g|) && UsedTo(InGap(placed, gap, k), Lo(g[k]), end)
    requires forall s :: s in c ==> s in fill
    ensures FilledTo(f, i, fill, end)
  {
    hide EndsAt, Within;
  }

  lemma LaterOrLeft(f: seq<Item>, g: seq<Item>, c: seq<Section>, rest: seq<Section>,
                    placed: set<Section>, gap: map<Section, nat>, home: map<Section, nat>, i: nat, k: nat, s: Section)
    requires Split(c, rest, placed) && Ascending(g) && AllFixed(g) && InGaps(g, placed, gap, |g|)
    requires i < |f| && k < |g| && g[k] == Free(f, i) && s in c && Elsewhere(f, i, s, home)
    requires home.Keys == placed && forall s :: s in placed ==> home[s] < |f| && g[gap[s]] == Free(f, home[s])
    ensures s in rest || (s in placed && s in gap && gap[s] > k)
  {
    if s in placed {
      assert Within(s, Lo(g[gap[s]]), Hi(g[gap[s]]));
      assert g[gap[s]].key > g[k].key;
    }
  }

  lemma OutsideFill(sections: seq<Section>, f: seq<Item>, fill: seq<Section>)
    requires FixedOf(f, sections) && forall s :: s in sections ==> s !in fill
    ensures forall k :: 0 <= k < |f| ==> f[k].section !in fill
  {
    forall k | 0 <= k < |f| ensures f[k].section !in fill { assert f[k] in f; }
  }

  lemma FreePlaced(f: seq<Item>, g: seq<Item>)
    requires AtAddr(f) && FixedAt(f) && g == Sort(FreeItems(f, |f|))
    ensures FixedPlaced(g)
  {
    hide Sort, FreeItems;
    forall k | 0 <= k < |g| ensures g[k].section.finalsegloc == g[k].section.fixedaddr {
      var i := FreeOf(f, g, k);
    }
  }

  lemma FittedGaps(f: seq<Item>, g: seq<Item>, fill: seq<Section>, placed: set<Section>, gap: map<Section, nat>)
    requires AtAddr(f) && FixedAt(f) && g == Sort(FreeItems(f, |f|)) && AllFixed(g)
    requires AllApart(placed) && InGaps(g, placed, gap, |g|)
    requires forall s :: s in fill && s !in placed ==> s.finalloc.None?
    ensures Fitted(f, fill)
  {
    hide Sort, FreeItems;
    forall s | s in fill && s.finalloc.Some? ensures InSomeGap(f, s) {
      var i := FreeOf(f, g, gap[s]);
      assert Within(s, f[i].key + f[i].section.size, NextAddr(f, i));
    }
  }

  lemma SortedAt(items: seq<Item>)
    requires FixedAt(items)
    ensures FixedAt(Sort(items))
  {
    var f := Sort(items);
    hide Sort;
    forall i | 0 <= i < |f|
      ensures f[i].section.finalloc == Some(f[i].key + BIOS_ADDR) && f[i].section.finalsegloc == Some(f[i].key)
    {
      assert f[i] in multiset(f);
      assert f[i] in items;
    }
  }

  lemma GapsOf(sections: seq<Section>, fill: seq<Section>, f: seq<Item>, g: seq<Item>)
    requires Ascending(f) && AtAddr(f) && DistinctItems(f) && FixedOf(f, sections) && g == Sort(FreeItems(f, |f|))
    requires forall s :: s in sections ==> s !in fill
    ensures AllFixed(g) && GapsApart(g)
    ensures forall k :: 0 <= k < |g| ==> g[k].section !in fill
  {
    hide Sort, FreeItems, Ascending, GapsApart, AllFixed, FixedOf;
    FreeDistinct(f);
    SortDistinct(FreeItems(f, |f|));
    FreeApart(f, g);
    OutsideFill(sections, f, fill);
    forall k | 0 <= k < |g| ensures g[k].section !in fill {
      var i := FreeOf(f, g, k);
    }
  }

  lemma FreeDistinct(f: seq<Item>)
    requires DistinctItems(f)
    ensures DistinctItems(FreeItems(f, |f|))
  {
    hide FreeItems;
    var _ := FreeItems(f, |f|);
  }
}
