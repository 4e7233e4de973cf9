/**
 The intrusive lists of list.h at pointer level, and the move of a bookkeeping record from the
 stack into its block.

 A `pprev` holds the address of the link that points to its node: the list head's `first` or
 another node's `next`.
 */
module HList {

  class Head {
    var first: Node?
  }

  /** An `allocinfo_s` with its embedded `hlist_node`. */
  class Node {
    var next: Node?
    var pprev: Link
    var rangeStart: nat
    var rangeEnd: nat
    var allocSize: nat
  }

  /** The address of a link. */
  datatype Link = NoLink | ToFirst(head: Head) | ToNext(node: Node)

  /** The link before position `k` of a list. */
  ghost function LinkAt(h: Head, nodes: seq<Node>, k: nat): Link
    requires k <= |nodes|
  {
    if k == 0 then ToFirst(h) else ToNext(nodes[k - 1])
  }

  ghost function NodeAt(nodes: seq<Node>, k: nat): Node? {
    if k < |nodes| then nodes[k] else null
  }

  ghost predicate Distinct(nodes: seq<Node>) {
    forall i, j :: 0 <= i < j < |nodes| ==> nodes[i] != nodes[j]
  }

  /** The list at `h` consists of `nodes`, and every `pprev` is the address of the link to its node. */
  ghost predicate WellFormed(h: Head, nodes: seq<Node>)
    reads h, nodes
  {
    Distinct(nodes) && h.first == NodeAt(nodes, 0) && forall k :: 0 <= k < |nodes| ==> Linked(h, nodes, k)
  }

  ghost predicate Linked(h: Head, nodes: seq<Node>, k: nat)
    requires k < |nodes|
    reads h, nodes
  {
    nodes[k].next == NodeAt(nodes, k + 1) && nodes[k].pprev == LinkAt(h, nodes, k)
  }

  lemma DistinctAt(nodes: seq<Node>, i: nat, j: nat)
    requires Distinct(nodes) && i < |nodes| && j < |nodes| && i != j
    ensures nodes[i] != nodes[j]
  {
  }

  lemma DistinctReplace(nodes: seq<Node>, k: nat, n: Node)
    requires Distinct(nodes) && k < |nodes| && n !in nodes
    ensures Distinct(nodes[k := n])
  {
  }

  /** `hlist_replace`: `n` takes the place of `nodes[k]`, which keeps its own links. */
  method Replace(was: Node, n: Node, ghost h: Head, ghost nodes: seq<Node>, ghost k: nat)
    requires WellFormed(h, nodes) && k < |nodes| && nodes[k] == was && n !in nodes
    modifies h`first, nodes`next, nodes`pprev, n`next, n`pprev
    ensures WellFormed(h, nodes[k := n])
  {
    hide Distinct;
    assert Linked(h, nodes, k);
    ghost var r := nodes[k := n];
    DistinctReplace(nodes, k, n);
    if k + 1 < |nodes| { DistinctAt(nodes, k, k + 1); }
    if 0 < k && k + 1 < |nodes| { DistinctAt(nodes, k - 1, k + 1); }
    n.next := was.next;
    if n.next != null {
      n.next.pprev := ToNext(n);
    }
    n.pprev := was.pprev;
    if n.pprev.ToFirst? {
      n.pprev.head.first := n;
    } else {
      n.pprev.node.next := n;
    }
    forall j | 0 <= j < |r| ensures Linked(h, r, j) {
      if j != k {
        assert old(Linked(h, nodes, j));
        DistinctAt(nodes, j, k);
        if k + 1 < |nodes| && j != k + 1 { DistinctAt(nodes, j, k + 1); }
        if k > 0 && j != k - 1 { DistinctAt(nodes, j, k - 1); }
      }
    }
  }

  /** `hlist_del`. */
  method Del(n: Node, ghost h: Head, ghost nodes: seq<Node>, ghost k: nat)
    requires WellFormed(h, nodes) && k < |nodes| && nodes[k] == n
    modifies h`first, nodes`next, nodes`pprev
    ensures WellFormed(h, nodes[..k] + nodes[k + 1..])
  {
    hide Distinct;
    assert Linked(h, nodes, k);
    ghost var r := nodes[..k] + nodes[k + 1..];
    DistinctRemove(nodes, k);
    if k + 1 < |nodes| { DistinctAt(nodes, k, k + 1); }
    if 0 < k && k + 1 < |nodes| { DistinctAt(nodes, k - 1, k + 1); }
    var next := n.next;
    var pprev := n.pprev;
    if pprev.ToFirst? {
      pprev.head.first := next;
    } else {
      pprev.node.next := next;
    }
    if next != null {
      next.pprev := pprev;
    }
    forall j | 0 <= j < |r| ensures Linked(h, r, j) {
      ghost var i := if j < k then j else j + 1;
      assert r[j] == nodes[i];
      assert old(Linked(h, nodes, i));
      if k + 1 < |nodes| && i != k + 1 { DistinctAt(nodes, i, k + 1); }
      if k > 0 && i != k - 1 { DistinctAt(nodes, i, k - 1); }
    }
  }

  lemma DistinctRemove(nodes: seq<Node>, k: nat)
    requires Distinct(nodes) && k < |nodes|
    ensures Distinct(nodes[..k] + nodes[k + 1..])
  {
  }

  /** `hlist_add`; `hlist_add_before(n, nodes[k])` is `Add(n, nodes[k].pprev)`. */
  method Add(n: Node, pprev: Link, ghost h: Head, ghost nodes: seq<Node>, ghost k: nat)
    requires WellFormed(h, nodes) && k <= |nodes| && n !in nodes && pprev == LinkAt(h, nodes, k)
    modifies h`first, nodes`next, nodes`pprev, n`next, n`pprev
    ensures WellFormed(h, nodes[..k] + [n] + nodes[k..])
  {
    hide Distinct;
    ghost var r := nodes[..k] + [n] + nodes[k..];
    DistinctInsert(nodes, k, n);
    if 0 < k { assert Linked(h, nodes, k - 1); }
    if 0 < k < |nodes| { DistinctAt(nodes, k - 1, k); }
    var next := if pprev.ToFirst? then pprev.head.first else pprev.node.next;
    n.pprev := pprev;
    n.next := next;
    if next != null {
      next.pprev := ToNext(n);
    }
    if pprev.ToFirst? {
      pprev.head.first := n;
    } else {
      pprev.node.next := n;
    }
    forall j | 0 <= j < |r| ensures Linked(h, r, j) {
      if j != k {
        ghost var i := if j < k then j else j - 1;
        assert r[j] == nodes[i];
        assert old(Linked(h, nodes, i));
        if k < |nodes| && i != k { DistinctAt(nodes, i, k); }
        if k > 0 && i != k - 1 { DistinctAt(nodes, i, k - 1); }
      }
    }
  }

  lemma DistinctInsert(nodes: seq<Node>, k: nat, n: Node)
    requires Distinct(nodes) && k <= |nodes| && n !in nodes
    ensures Distinct(nodes[..k] + [n] + nodes[k..])
  {
  }

  // ----- all zone lists together

  ghost function All(lists: seq<seq<Node>>): set<Node> {
    set z, k | 0 <= z < |lists| && 0 <= k < |lists[z]| :: lists[z][k]
  }

  /** Every list is well formed; heads differ and no node is in two lists. */
  ghost predicate AllWellFormed(heads: seq<Head>, lists: seq<seq<Node>>)
    reads heads, All(lists)
  {
    && |heads| == |lists|
    && (forall z :: 0 <= z < |lists| ==> WellFormed(heads[z], lists[z]))
    && Apart(heads, lists)
  }

  ghost predicate Apart(heads: seq<Head>, lists: seq<seq<Node>>) {
    && |heads| == |lists|
    && (forall z, w :: 0 <= z < w < |heads| ==> heads[z] != heads[w])
    && (forall z, w, n :: 0 <= z < w < |lists| && n in lists[z] ==> n !in lists[w])
  }

  ghost predicate Unlisted(lists: seq<seq<Node>>, n: Node) {
    forall z :: 0 <= z < |lists| ==> n !in lists[z]
  }

  /** `hlist_replace` in one of several lists leaves the others alone. */
  method ReplaceIn(was: Node, n: Node, ghost heads: seq<Head>, ghost lists: seq<seq<Node>>, ghost z: nat, ghost k: nat)
    requires AllWellFormed(heads, lists) && z < |lists| && k < |lists[z]| && lists[z][k] == was && Unlisted(lists, n)
    modifies heads`first, All(lists)`next, All(lists)`pprev, n`next, n`pprev
    ensures AllWellFormed(heads, lists[z := lists[z][k := n]])
    ensures forall m :: m in All(lists) && m !in lists[z] ==> m.next == old(m.next) && m.pprev == old(m.pprev)
  {
    Replace(was, n, heads[z], lists[z], k);
    ghost var lists' := lists[z := lists[z][k := n]];
    forall w | 0 <= w < |lists'| ensures WellFormed(heads[w], lists'[w]) {
      if w != z {
        assert heads[w] != heads[z];
        forall i | 0 <= i < |lists[w]| ensures Linked(heads[w], lists[w], i) {
          assert old(Linked(heads[w], lists[w], i));
          assert lists[w][i] in lists[w] && lists[w][i] !in lists[z];
        }
      }
    }
    assert forall w, m :: 0 <= w < |lists| && m in lists'[w] ==> m in lists[w] || (w == z && m == n);
  }

  // ----- moving a bookkeeping record

  /** An `allocdetail_s`: two embedded nodes and a handle. */
  class Record {
    const detailinfo: Node
    const datainfo: Node
    var handle: nat

    constructor (detailinfo: Node, datainfo: Node)
    {
      this.detailinfo, this.datainfo := detailinfo, datainfo;
    }
  }

  datatype Range = Range(start: nat, end: nat, size: nat)

  ghost function RangeOf(n: Node): Range
    reads n
  {
    Range(n.rangeStart, n.rangeEnd, n.allocSize)
  }

  /** The ranges of a list, in order. */
  ghost function Ranges(nodes: seq<Node>): (r: seq<Range>)
    reads nodes
    ensures |r| == |nodes| && forall i :: 0 <= i < |nodes| ==> r[i] == RangeOf(nodes[i])
  {
    seq(|nodes|, i reads nodes requires 0 <= i < |nodes| => RangeOf(nodes[i]))
  }

  /** The lists with the two nodes of `from` replaced by those of `to`. */
  ghost function MovedLists(lists: seq<seq<Node>>, to: Record, z: nat, k: nat, w: nat, j: nat): seq<seq<Node>>
    requires z < |lists| && k < |lists[z]| && w < |lists| && j < |lists[w]|
  {
    var one := lists[z := lists[z][k := to.detailinfo]];
    one[w := one[w][j := to.datainfo]]
  }

  /** `memcpy` of a record: both nodes with their links and ranges, and the handle. */
  method CopyRecord(from: Record, to: Record)
    requires from != to && to.detailinfo != to.datainfo
    requires {from.detailinfo, from.datainfo} !! {to.detailinfo, to.datainfo}
    modifies to, to.detailinfo, to.datainfo
    ensures RangeOf(to.detailinfo) == RangeOf(from.detailinfo) && RangeOf(to.datainfo) == RangeOf(from.datainfo)
    ensures to.detailinfo.next == from.detailinfo.next && to.detailinfo.pprev == from.detailinfo.pprev
    ensures to.datainfo.next == from.datainfo.next && to.datainfo.pprev == from.datainfo.pprev
    ensures to.handle == from.handle
  {
    var a, b := from.detailinfo, to.detailinfo;
    b.next, b.pprev := a.next, a.pprev;
    b.rangeStart, b.rangeEnd, b.allocSize := a.rangeStart, a.rangeEnd, a.allocSize;
    a, b := from.datainfo, to.datainfo;
    b.next, b.pprev := a.next, a.pprev;
    b.rangeStart, b.rangeEnd, b.allocSize := a.rangeStart, a.rangeEnd, a.allocSize;
    to.handle := from.handle;
  }

  lemma SameRanges(lists: seq<seq<Node>>, from: Record, to: Record, z: nat, k: nat, w: nat, j: nat, v: nat)
    requires z < |lists| && k < |lists[z]| && lists[z][k] == from.detailinfo
    requires w < |lists| && j < |lists[w]| && lists[w][j] == from.datainfo
    requires from.detailinfo != from.datainfo && v < |lists|
    requires RangeOf(to.detailinfo) == RangeOf(from.detailinfo) && RangeOf(to.datainfo) == RangeOf(from.datainfo)
    ensures Ranges(MovedLists(lists, to, z, k, w, j)[v]) == Ranges(lists[v])
  {
    var two := MovedLists(lists, to, z, k, w, j);
    assert forall i :: 0 <= i < |lists[v]| ==> RangeOf(two[v][i]) == RangeOf(lists[v][i]);
  }

  /** A list whose nodes keep their ranges keeps its own. */
  twostate lemma RangesKept(nodes: seq<Node>)
    requires forall i :: 0 <= i < |nodes| ==> RangeOf(nodes[i]) == old(RangeOf(nodes[i]))
    ensures Ranges(nodes) == old(Ranges(nodes))
  {
  }

  /** The two `hlist_replace` calls; they change links only. */
  method ReplaceBoth(temp: Record, detail: Record, ghost heads: seq<Head>, ghost lists: seq<seq<Node>>,
                     ghost z: nat, ghost k: nat, ghost w: nat, ghost j: nat)
    requires AllWellFormed(heads, lists)
    requires z < |lists| && k < |lists[z]| && lists[z][k] == temp.detailinfo
    requires w < |lists| && j < |lists[w]| && lists[w][j] == temp.datainfo
    requires temp.detailinfo != temp.datainfo && detail.detailinfo != detail.datainfo
    requires Unlisted(lists, detail.detailinfo) && Unlisted(lists, detail.datainfo)
    modifies heads`first, All(lists)`next, All(lists)`pprev
    modifies {detail.detailinfo, detail.datainfo}`next, {detail.detailinfo, detail.datainfo}`pprev
    ensures AllWellFormed(heads, MovedLists(lists, detail, z, k, w, j))
    ensures forall v :: 0 <= v < |lists| ==>
              var l := MovedLists(lists, detail, z, k, w, j)[v]; Ranges(l) == old(Ranges(l))
  {
    hide WellFormed, Apart, AllWellFormed, Ranges;
    ghost var one := lists[z := lists[z][k := detail.detailinfo]];
    assert All(one) <= All(lists) + {detail.detailinfo};
    ReplaceIn(temp.detailinfo, detail.detailinfo, heads, lists, z, k);
    ReplaceIn(temp.datainfo, detail.datainfo, heads, one, w, j);
    ghost var two := MovedLists(lists, detail, z, k, w, j);
    forall v | 0 <= v < |lists| ensures Ranges(two[v]) == old(Ranges(two[v])) { RangesKept(two[v]); }
  }

  /** The copy: the lists as they will be after the move have the ranges of the lists as they are. */
  method CopyTemp(temp: Record, detail: Record, ghost lists: seq<seq<Node>>,
                  ghost z: nat, ghost k: nat, ghost w: nat, ghost j: nat)
    requires z < |lists| && k < |lists[z]| && lists[z][k] == temp.detailinfo
    requires w < |lists| && j < |lists[w]| && lists[w][j] == temp.datainfo
    requires temp.detailinfo != temp.datainfo && temp != detail
    requires Unlisted(lists, detail.detailinfo) && Unlisted(lists, detail.datainfo)
    requires detail.detailinfo != detail.datainfo
    modifies detail, detail.detailinfo, detail.datainfo
    ensures forall v :: 0 <= v < |lists| ==> Ranges(MovedLists(lists, detail, z, k, w, j)[v]) == old(Ranges(lists[v]))
    ensures detail.handle == old(temp.handle)
  {
    hide Ranges;
    assert temp.detailinfo in lists[z] && temp.datainfo in lists[w];
    CopyRecord(temp, detail);
    forall v | 0 <= v < |lists| ensures Ranges(MovedLists(lists, detail, z, k, w, j)[v]) == old(Ranges(lists[v])) {
      SameRanges(lists, temp, detail, z, k, w, j, v);
      assert forall i :: 0 <= i < |lists[v]| ==> lists[v][i] in lists[v];
      RangesKept(lists[v]);
    }
  }

  /**
   `alloc_new_detail` from the copy on: the record `temp`, whose nodes stand at position `k` of
   list `z` and position `j` of list `w`, moves to `detail`. The lists stay well formed with the
   same ranges, also when both nodes stand next to each other in one list, in either order.
   */
  method MoveRecord(temp: Record, detail: Record, ghost heads: seq<Head>, ghost lists: seq<seq<Node>>,
                    ghost z: nat, ghost k: nat, ghost w: nat, ghost j: nat)
    requires AllWellFormed(heads, lists)
    requires z < |lists| && k < |lists[z]| && lists[z][k] == temp.detailinfo
    requires w < |lists| && j < |lists[w]| && lists[w][j] == temp.datainfo
    requires temp.detailinfo != temp.datainfo && temp != detail
    requires Unlisted(lists, detail.detailinfo) && Unlisted(lists, detail.datainfo)
    requires detail.detailinfo != detail.datainfo
    modifies detail, detail.detailinfo, detail.datainfo, heads`first, All(lists)`next, All(lists)`pprev
    ensures AllWellFormed(heads, MovedLists(lists, detail, z, k, w, j))
    ensures forall v :: 0 <= v < |lists| ==> Ranges(MovedLists(lists, detail, z, k, w, j)[v]) == old(Ranges(lists[v]))
    ensures detail.handle == old(temp.handle)
  {
    hide AllWellFormed, Ranges, MovedLists;
    CopyTemp(temp, detail, lists, z, k, w, j);
    ReplaceBoth(temp, detail, heads, lists, z, k, w, j);
  }
}
