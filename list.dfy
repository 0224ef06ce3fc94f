/**
 * The circular doubly-linked list of src/list.c. Nodes live in an arena
 * `nodes`; `next` and `prev` are arena indices and the head is a `Slot`. The
 * ghost `order` lists the nodes of the list from the head around the cycle.
 * Insertion leaves `numElems` alone, so the count that nListSize and
 * nListEmpty read stays at its initial value.
 */
module NanoList {
  import opened NanoTypes

  datatype ListNode = ListNode(data: seq<bv8>, next: nat, prev: nat)

  /** The position after `i` in the cycle `order`. */
  function After(order: seq<nat>, i: nat): nat
    requires i < |order|
  {
    if i + 1 < |order| then order[i + 1] else order[0]
  }

  /** The position before `i` in the cycle `order`. */
  function Before(order: seq<nat>, i: nat): nat
    requires i < |order|
  {
    if 0 < i then order[i - 1] else order[|order| - 1]
  }

  /** The node at position `i` links forward to the next position and back to the previous one. */
  ghost predicate Linked(nodes: seq<ListNode>, order: seq<nat>, i: nat)
  {
    i < |order| && order[i] < |nodes| &&
    nodes[order[i]].next == After(order, i) && nodes[order[i]].prev == Before(order, i)
  }

  /** `order` lists distinct arena nodes whose `next` and `prev` links go round them as a cycle. */
  ghost predicate Cycle(nodes: seq<ListNode>, order: seq<nat>)
  {
    (forall i :: 0 <= i < |order| ==> order[i] < |nodes|) &&
    (forall i, j :: 0 <= i < j < |order| ==> order[i] != order[j]) &&
    (forall i :: 0 <= i < |order| ==> Linked(nodes, order, i))
  }

  /** The data of the listed nodes, in list order. */
  ghost function DataOf(nodes: seq<ListNode>, order: seq<nat>): (c: seq<seq<bv8>>)
    requires forall i :: 0 <= i < |order| ==> order[i] < |nodes|
    ensures |c| == |order| && forall i :: 0 <= i < |order| ==> c[i] == nodes[order[i]].data
  {
    seq(|order|, i requires 0 <= i < |order| => nodes[order[i]].data)
  }

  /** The four link writes of insertNodeBefore, in the order they happen. */
  function SpliceBefore(nodes: seq<ListNode>, newNode: nat, cur: nat): (r: seq<ListNode>)
    requires newNode < |nodes| && cur < |nodes| && nodes[cur].prev < |nodes|
    ensures |r| == |nodes| && forall k :: 0 <= k < |r| ==> r[k].data == nodes[k].data
  {
    var pv := nodes[cur].prev;
    var n1 := nodes[pv := nodes[pv].(next := newNode)];
    var n2 := n1[newNode := n1[newNode].(prev := n1[cur].prev)];
    var n3 := n2[cur := n2[cur].(prev := newNode)];
    n3[newNode := n3[newNode].(next := cur)]
  }

  /** `x` placed just before position `pos` of the cycle; before the head is after the tail. */
  function InsertedAt(order: seq<nat>, pos: nat, x: nat): (r: seq<nat>)
    requires pos < |order|
    ensures |r| == |order| + 1 && multiset(r) == multiset(order) + multiset{x}
  {
    if pos == 0 then order + [x]
    else
      assert order == order[..pos] + order[pos..];
      order[..pos] + [x] + order[pos..]
  }

  /** Inserting a node not yet listed keeps the listed nodes distinct. */
  lemma {:induction false} InsertedAtDistinct(order: seq<nat>, pos: nat, x: nat)
    requires pos < |order| && x !in order
    requires forall i, j :: 0 <= i < j < |order| ==> order[i] != order[j]
    ensures var o := InsertedAt(order, pos, x); forall i, j :: 0 <= i < j < |o| ==> o[i] != o[j]
  {
    var n := |order|;
    var o := InsertedAt(order, pos, x);
    var p := if pos == 0 then n else pos;  // where `x` sits in `o`
    assert o[p] == x;
    assert forall j :: 0 <= j < p ==> o[j] == order[j];
    assert forall j :: p < j <= n ==> o[j] == order[j - 1];
    forall i, j | 0 <= i < j < |o|
      ensures o[i] != o[j]
    {
      if i < p && j < p {
        assert o[i] == order[i] && o[j] == order[j];
      } else if i < p && p < j {
        assert o[i] == order[i] && o[j] == order[j - 1];
      } else if p < i {
        assert o[i] == order[i - 1] && o[j] == order[j - 1];
      } else if i == p {
        assert o[j] == order[j - 1];
      } else {
        assert o[i] == order[i];
      }
    }
  }

  /** `r` is `nodes` with `newNode` spliced in before `cur`: the three nodes involved relinked, the rest alone. */
  ghost predicate SplicedFrom(nodes: seq<ListNode>, r: seq<ListNode>, newNode: nat, cur: nat)
  {
    newNode < |nodes| && cur < |nodes| && nodes[cur].prev < |nodes| && |r| == |nodes| &&
    var pv := nodes[cur].prev;
    r[newNode].next == cur && r[newNode].prev == pv &&
    r[pv].next == newNode && r[cur].prev == newNode &&
    (pv != cur ==> r[cur].next == nodes[cur].next && r[pv].prev == nodes[pv].prev) &&
    forall k :: 0 <= k < |nodes| && k != newNode && k != cur && k != pv ==> r[k] == nodes[k]
  }

  /** The four writes of insertNodeBefore splice the node in. Used by SpliceBeforeCycle. */
  lemma SpliceBeforeEffects(nodes: seq<ListNode>, newNode: nat, cur: nat)
    requires newNode < |nodes| && cur < |nodes| && nodes[cur].prev < |nodes|
    requires newNode != cur && newNode != nodes[cur].prev
    ensures SplicedFrom(nodes, SpliceBefore(nodes, newNode, cur), newNode, cur)
  {
  }

  /** Where the inserted node sits in `InsertedAt(order, pos, x)`. */
  function InsertedPos(order: seq<nat>, pos: nat): nat
  {
    if pos == 0 then |order| else pos
  }

  /**
   * The nodes of `InsertedAt`: the old ones before and after the new node,
   * shifted by one after it. Used by SplicedNewLinked, InsertedNeighbours and
   * SpliceBeforeCycle.
   */
  lemma InsertedAtIndex(order: seq<nat>, pos: nat, x: nat, j: nat)
    requires pos < |order| && j <= |order|
    ensures var o := InsertedAt(order, pos, x); var p := InsertedPos(order, pos);
      o[j] == if j < p then order[j] else if j == p then x else order[j - 1]
  {
  }

  /** The spliced node links forward to `cur` and back to `cur`'s old predecessor. */
  lemma SplicedNewLinked(nodes: seq<ListNode>, r: seq<ListNode>, order: seq<nat>, newNode: nat, pos: nat)
    requires Cycle(nodes, order) && newNode !in order && pos < |order|
    requires SplicedFrom(nodes, r, newNode, order[pos])
    ensures Linked(r, InsertedAt(order, pos, newNode), InsertedPos(order, pos))
  {
    assert Linked(nodes, order, pos);
    var o := InsertedAt(order, pos, newNode);
    var p := InsertedPos(order, pos);
    var a := if p + 1 < |o| then p + 1 else 0;
    var b := if 0 < p then p - 1 else |o| - 1;
    InsertedAtIndex(order, pos, newNode, p);
    InsertedAtIndex(order, pos, newNode, a);
    InsertedAtIndex(order, pos, newNode, b);
  }

  /** The neighbours of an old node after the insertion: the new node on the side where it went, the old neighbour on the other. */
  lemma InsertedNeighbours(order: seq<nat>, pos: nat, x: nat, j: nat)
    requires pos < |order| && j <= |order| && j != InsertedPos(order, pos) && x !in order
    requires forall i, j :: 0 <= i < j < |order| ==> order[i] != order[j]
    ensures var o := InsertedAt(order, pos, x); var i := if j < InsertedPos(order, pos) then j else j - 1;
      o[j] == order[i] &&
      After(o, j) == (if order[i] == Before(order, pos) then x else After(order, i)) &&
      Before(o, j) == (if order[i] == order[pos] then x else Before(order, i))
  {
    var o := InsertedAt(order, pos, x);
    var p := InsertedPos(order, pos);
    var a := if j + 1 < |o| then j + 1 else 0;
    var b := if 0 < j then j - 1 else |o| - 1;
    InsertedAtIndex(order, pos, x, j);
    InsertedAtIndex(order, pos, x, a);
    InsertedAtIndex(order, pos, x, b);
  }

  /** A node already in the cycle keeps its links, except that `cur` and its old predecessor now link to the spliced node. */
  lemma SplicedOldLinked(nodes: seq<ListNode>, r: seq<ListNode>, order: seq<nat>, newNode: nat, pos: nat, j: nat)
    requires Cycle(nodes, order) && newNode !in order && pos < |order| && j <= |order|
    requires SplicedFrom(nodes, r, newNode, order[pos])
    requires j != InsertedPos(order, pos)
    ensures Linked(r, InsertedAt(order, pos, newNode), j)
  {
    assert Linked(nodes, order, pos);
    InsertedNeighbours(order, pos, newNode, j);
    var i := if j < InsertedPos(order, pos) then j else j - 1;
    assert Linked(nodes, order, i);
  }

  /** Splicing a node that is not in the cycle before position `pos` yields the cycle with it inserted there. */
  lemma {:induction false} SpliceBeforeCycle(nodes: seq<ListNode>, order: seq<nat>, newNode: nat, pos: nat)
    requires Cycle(nodes, order) && newNode < |nodes| && newNode !in order && pos < |order|
    ensures order[pos] < |nodes| && nodes[order[pos]].prev < |nodes|
    ensures Cycle(SpliceBefore(nodes, newNode, order[pos]), InsertedAt(order, pos, newNode))
  {
    assert Linked(nodes, order, pos);
    var r := SpliceBefore(nodes, newNode, order[pos]);
    SpliceBeforeEffects(nodes, newNode, order[pos]);
    var o := InsertedAt(order, pos, newNode);
    InsertedAtDistinct(order, pos, newNode);
    forall j | 0 <= j < |o|
      ensures o[j] < |r| && Linked(r, o, j)
    {
      InsertedAtIndex(order, pos, newNode, j);
      if j == InsertedPos(order, pos) {
        SplicedNewLinked(nodes, r, order, newNode, pos);
      } else {
        SplicedOldLinked(nodes, r, order, newNode, pos, j);
      }
    }
  }

  /** Moving the tail of a cycle to the front keeps it a cycle. */
  lemma {:induction false} RotateCycle(nodes: seq<ListNode>, order: seq<nat>)
    requires Cycle(nodes, order) && order != []
    ensures Cycle(nodes, [order[|order| - 1]] + order[..|order| - 1])
  {
    var n := |order|;
    var o := [order[n - 1]] + order[..n - 1];
    assert forall j :: 0 < j < n ==> o[j] == order[j - 1];
    forall i, j | 0 <= i < j < n
      ensures o[i] != o[j]
    {
      if i == 0 {
        assert o[j] == order[j - 1];
      } else {
        assert o[i] == order[i - 1] && o[j] == order[j - 1];
      }
    }
    forall j | 0 <= j < n
      ensures Linked(nodes, o, j)
    {
      var i := if j == 0 then n - 1 else j - 1;
      assert o[j] == order[i];
      assert Linked(nodes, order, i);
      assert After(o, j) == After(order, i);
      assert Before(o, j) == Before(order, i);
    }
  }

  /** Appending a node whose data is unchanged appends its data. Used by InsertBeforeHead. */
  lemma AppendData(nodes: seq<ListNode>, r: seq<ListNode>, order: seq<nat>, x: nat)
    requires forall i :: 0 <= i < |order| ==> order[i] < |nodes|
    requires x < |nodes| && |r| == |nodes| && forall k :: 0 <= k < |r| ==> r[k].data == nodes[k].data
    ensures DataOf(r, order + [x]) == DataOf(nodes, order) + [nodes[x].data]
  {
  }

  /** Moving the tail node to the front moves its data to the front. Used by TailToHead. */
  lemma RotateData(nodes: seq<ListNode>, order: seq<nat>)
    requires order != [] && forall i :: 0 <= i < |order| ==> order[i] < |nodes|
    ensures var n := |order|; var c := DataOf(nodes, order);
      DataOf(nodes, [order[n - 1]] + order[..n - 1]) == [c[n - 1]] + c[..n - 1]
  {
  }

  class NList {
    var head: Slot
    var numElems: nat
    var elemSize: nat
    var nodes: seq<ListNode>
    ghost var order: seq<nat>

    ghost predicate Valid()
      reads this
    {
      Cycle(nodes, order) &&
      (head.Null? <==> order == []) &&
      (head.Link? ==> head.index == order[0])
    }

    /** The element data from the head to the tail. */
    ghost function Contents(): (c: seq<seq<bv8>>)
      requires Valid()
      reads this
      ensures |c| == |order|
    {
      DataOf(nodes, order)
    }

    /** Every node of the list is the `prev` of its `next` and the `next` of its `prev`. */
    lemma LinksAgree()
      requires Valid()
      ensures forall k :: k in order ==> nodes[k].next in order && nodes[k].prev in order
      ensures forall k :: k in order ==> nodes[nodes[k].next].prev == k && nodes[nodes[k].prev].next == k
    {
      forall k | k in order
        ensures nodes[k].next in order && nodes[k].prev in order
        ensures nodes[nodes[k].next].prev == k && nodes[nodes[k].prev].next == k
      {
        var i :| 0 <= i < |order| && order[i] == k;
        var a := if i + 1 < |order| then i + 1 else 0;
        var b := if 0 < i then i - 1 else |order| - 1;
        assert Linked(nodes, order, i) && Linked(nodes, order, a) && Linked(nodes, order, b);
      }
    }

    /** nListInit: an empty list of elements of `elemSize` bytes. */
    constructor (elemSize: nat)
      ensures Valid() && head == Null && numElems == 0 && this.elemSize == elemSize
      ensures Contents() == [] && IsEmpty()
    {
      head := Null;
      numElems := 0;
      this.elemSize := elemSize;
      nodes := [];
      order := [];
    }

    /** nListEmpty: empty exactly when the count is zero. */
    predicate IsEmpty()
      reads this
      ensures IsEmpty() <==> Size() == 0
    {
      Size() == 0
    }

    /** nListSize: the stored count. */
    function Size(): (n: nat)
      reads this
      ensures n == numElems
    {
      numElems
    }

    /**
     * allocNode: a fresh node holding a copy of `dataIn`, or Null when
     * `allocFails` (either malloc returning NULL). The new node's links are
     * not yet set; here they point at the node itself.
     */
    method AllocNode(dataIn: seq<bv8>, allocFails: bool) returns (newNode: Slot)
      requires Valid() && |dataIn| == elemSize
      modifies this
      ensures Valid() && order == old(order) && head == old(head) && Contents() == old(Contents())
      ensures numElems == old(numElems) && elemSize == old(elemSize)
      ensures allocFails ==> newNode == Null && nodes == old(nodes)
      ensures !allocFails ==> newNode == Link(|old(nodes)|) &&
                              nodes == old(nodes) + [ListNode(dataIn, |old(nodes)|, |old(nodes)|)]
    {
      if allocFails {
        return Null;
      }
      newNode := Link(|nodes|);
      nodes := nodes + [ListNode(dataIn, |nodes|, |nodes|)];
      forall i | 0 <= i < |order|
        ensures Linked(nodes, order, i)
      {
        assert Linked(old(nodes), order, i);
      }
    }

    /** insertFirstItem: the new node becomes a one-element cycle and the head. */
    method InsertFirstItem(newNode: nat)
      requires Valid() && order == [] && newNode < |nodes|
      modifies this
      ensures Valid() && head == Link(newNode) && order == [newNode]
      ensures nodes == old(nodes)[newNode := old(nodes)[newNode].(next := newNode, prev := newNode)]
      ensures numElems == old(numElems) && elemSize == old(elemSize)
    {
      nodes := nodes[newNode := nodes[newNode].(next := newNode)];
      nodes := nodes[newNode := nodes[newNode].(prev := newNode)];
      head := Link(newNode);
      order := [newNode];
    }

    /**
     * insertNodeBefore: the new node is spliced between `cur`'s predecessor
     * and `cur`, the node at position `pos` of the list.
     */
    method InsertNodeBefore(newNode: nat, cur: nat, ghost pos: nat)
      requires Valid() && newNode < |nodes| && newNode !in order
      requires pos < |order| && order[pos] == cur
      modifies this
      ensures Valid() && head == old(head) && numElems == old(numElems) && elemSize == old(elemSize)
      ensures order == InsertedAt(old(order), pos, newNode)
      ensures old(nodes)[cur].prev in old(order) && nodes == SpliceBefore(old(nodes), newNode, cur)
    {
      SpliceBeforeCycle(nodes, order, newNode, pos);
      assert Linked(nodes, order, pos);
      ghost var o := InsertedAt(order, pos, newNode);
      nodes := nodes[nodes[cur].prev := nodes[nodes[cur].prev].(next := newNode)];
      nodes := nodes[newNode := nodes[newNode].(prev := nodes[cur].prev)];
      nodes := nodes[cur := nodes[cur].(prev := newNode)];
      nodes := nodes[newNode := nodes[newNode].(next := cur)];
      order := o;
    }

    /** nListInsert on a non-empty list: the new node goes before the head, and becomes the head when `atHead`. */
    method InsertBeforeHead(atHead: bool, newNode: nat)
      requires Valid() && head.Link? && newNode < |nodes| && newNode !in order
      modifies this
      ensures Valid() && numElems == old(numElems) && elemSize == old(elemSize) && |nodes| == |old(nodes)|
      ensures nodes[newNode].data == old(nodes)[newNode].data
      ensures Contents() == if atHead then [nodes[newNode].data] + old(Contents()) else old(Contents()) + [nodes[newNode].data]
      ensures head == if atHead then Link(newNode) else old(head)
    {
      ghost var before := Contents();
      InsertNodeBefore(newNode, head.index, 0);
      AppendData(old(nodes), nodes, old(order), newNode);
      if atHead {
        ghost var appended := Contents();
        assert appended[..|before|] == before;
        TailToHead(newNode);
      }
    }

    /** The tail becomes the head; the cycle is the same, read from one node earlier. */
    method TailToHead(tail: nat)
      requires Valid() && head.Link? && tail == order[|order| - 1]
      modifies this
      ensures Valid() && nodes == old(nodes) && numElems == old(numElems) && elemSize == old(elemSize)
      ensures head == Link(old(order)[|old(order)| - 1])
      ensures Contents() == [old(Contents())[|old(order)| - 1]] + old(Contents())[..|old(order)| - 1]
    {
      RotateCycle(nodes, order);
      RotateData(nodes, order);
      head := Link(tail);
      order := [order[|order| - 1]] + order[..|order| - 1];
    }

    /**
     * nListInsert: NoSpace and no change when allocation fails; otherwise the
     * element is added at the head (`atHead`) or at the tail, and Success.
     */
    method Insert(atHead: bool, dataIn: seq<bv8>, allocFails: bool) returns (code: Status)
      requires Valid() && |dataIn| == elemSize
      modifies this
      ensures Valid() && numElems == old(numElems) && elemSize == old(elemSize)
      ensures Size() == old(Size()) && IsEmpty() == old(IsEmpty())
      ensures allocFails ==> code == NoSpace && nodes == old(nodes) && head == old(head) && order == old(order)
      ensures !allocFails ==> code == Success && |nodes| == |old(nodes)| + 1
      ensures !allocFails ==> Contents() == if atHead then [dataIn] + old(Contents()) else old(Contents()) + [dataIn]
      ensures !allocFails ==> if atHead || old(head).Null? then head == Link(|old(nodes)|) else head == old(head)
    {
      ghost var before := Contents();
      var newNode := AllocNode(dataIn, allocFails);
      if newNode.Null? {
        return NoSpace;
      }
      if head.Link? {
        InsertBeforeHead(atHead, newNode.index);
      } else {
        InsertFirstItem(newNode.index);
      }
      code := Success;
    }

    /** nListInsertHead: the element becomes the head. */
    method InsertHead(dataIn: seq<bv8>, allocFails: bool) returns (code: Status)
      requires Valid() && |dataIn| == elemSize
      modifies this
      ensures Valid() && numElems == old(numElems) && elemSize == old(elemSize)
      ensures Size() == old(Size()) && IsEmpty() == old(IsEmpty())
      ensures allocFails ==> code == NoSpace && Contents() == old(Contents())
      ensures !allocFails ==> code == Success && Contents() == [dataIn] + old(Contents())
    {
      code := Insert(true, dataIn, allocFails);
    }

    /** nListInsertTail: the element becomes the tail; a non-empty list keeps its head. */
    method InsertTail(dataIn: seq<bv8>, allocFails: bool) returns (code: Status)
      requires Valid() && |dataIn| == elemSize
      modifies this
      ensures Valid() && numElems == old(numElems) && elemSize == old(elemSize) && (old(head).Link? ==> head == old(head))
      ensures Size() == old(Size()) && IsEmpty() == old(IsEmpty())
      ensures allocFails ==> code == NoSpace && Contents() == old(Contents())
      ensures !allocFails ==> code == Success && Contents() == old(Contents()) + [dataIn]
    {
      code := Insert(false, dataIn, allocFails);
    }
  }
  /** The items whose allocation succeeds, in insertion order. */
  function Kept(items: seq<seq<bv8>>, fails: seq<bool>): (k: seq<seq<bv8>>)
    requires |items| == |fails|
    ensures |k| <= |items|
    ensures forall d :: d in k ==> d in items
    ensures (forall i :: 0 <= i < |fails| ==> !fails[i]) ==> k == items
  {
    if items == [] then []
    else Kept(items[..|items| - 1], fails[..|fails| - 1]) +
         (if fails[|fails| - 1] then [] else [items[|items| - 1]])
  }

  /**
   * Kept unfolded by one item at the end: one more insertion keeps its item
   * unless that allocation fails. Used by InsertTailsAsWritten.
   */
  lemma KeptStep(items: seq<seq<bv8>>, fails: seq<bool>, i: nat)
    requires |items| == |fails| && i < |items|
    ensures Kept(items[..i + 1], fails[..i + 1]) ==
            Kept(items[..i], fails[..i]) + (if fails[i] then [] else [items[i]])
  {
    assert items[..i + 1][..i] == items[..i] && fails[..i + 1][..i] == fails[..i];
  }

  /**
   * nListInit followed by nListInsertTail of each item, the i-th allocation
   * failing when `fails[i]`: the list holds the items that went in, in
   * order, while nListSize still reads 0 and nListEmpty still holds.
   */
  method InsertTailsAsWritten(elemSize: nat, items: seq<seq<bv8>>, fails: seq<bool>) returns (l: NList)
    requires |items| == |fails| && forall i :: 0 <= i < |items| ==> |items[i]| == elemSize
    ensures l.Valid() && l.Contents() == Kept(items, fails)
    ensures l.Size() == 0 && l.IsEmpty()
  {
    l := new NList(elemSize);
    var i := 0;
    while i < |items|
      invariant 0 <= i <= |items|
      invariant l.Valid() && l.elemSize == elemSize && l.Size() == 0 && l.IsEmpty()
      invariant l.Contents() == Kept(items[..i], fails[..i])
    {
      var code := l.InsertTail(items[i], fails[i]);
      KeptStep(items, fails, i);
      i := i + 1;
    }
    assert items[..i] == items && fails[..i] == fails;
  }
}
