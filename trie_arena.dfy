/**
 * The node graph of a crit-bit (Patricia) trie, stored in an arena.
 *
 * Every version of the trie in the repository (the C table and the two Python
 * prototypes) keeps its nodes as heap objects that point at each other. Here a
 * node is a record in a sequence and a pointer is an index into it: a child slot
 * is `Null` (no node) or `Link(i)`. A link whose target has a bit number not
 * greater than the source's is an "up" link (a self-link is one case of it); the
 * lookup stops when it arrives over one. The classification is never stored: it
 * is recomputed from the `bit` fields, exactly as the code does.
 *
 * The three versions differ in how they read a bit of a key, so every operation
 * takes the key's bit function `bitOf(key, offset)` (true means 1, go right) and
 * the largest bit number a node may carry, `maxBit`.
 */
module TrieArena {
  import opened NanoTypes

  datatype Option<T> = None | Some(value: T)

  /** One trie node: a stored key and item, its decision bit and its two children. */
  datatype Node<K, V> = Node(key: K, item: V, bit: int, l: Slot, r: Slot)

  /** The child on side `right` (true: the `r` child, false: the `l` child). */
  function Child<K, V>(n: Node<K, V>, right: bool): Slot
  {
    if right then n.r else n.l
  }

  predicate SlotIn<K, V>(t: seq<Node<K, V>>, s: Slot)
  {
    s.Link? ==> s.index < |t|
  }

  /** Every link stays inside the arena and every bit number lies in 0..maxBit. */
  predicate WellFormed<K, V>(t: seq<Node<K, V>>, maxBit: nat)
  {
    forall i :: 0 <= i < |t| ==> 0 <= t[i].bit <= maxBit && SlotIn(t, t[i].l) && SlotIn(t, t[i].r)
  }

  /** Every key reads 1 at the sentinel offset maxBit (the Python prototype's convention). */
  ghost predicate SentinelIsSet<K(!new)>(bitOf: (K, int) -> bool, maxBit: nat)
  {
    forall k: K :: bitOf(k, maxBit)
  }

  /** The bit of the node a lookup came from, or -1 at the root. */
  function PrevBit<K, V>(t: seq<Node<K, V>>, parent: Slot): int
    requires SlotIn(t, parent)
  {
    if parent.Null? then -1 else t[parent.index].bit
  }

  /** The stopping rule of the lookup: the node was reached over an up link, or its chosen child is absent. */
  predicate Stops<K, V>(t: seq<Node<K, V>>, bitOf: (K, int) -> bool, node: nat, x: K, parent: Slot)
    requires node < |t| && SlotIn(t, parent)
  {
    t[node].bit <= PrevBit(t, parent) || Child(t[node], bitOf(x, t[node].bit)).Null?
  }

  /** `node` is the child that `parent` chooses for key `x`. */
  predicate Chooses<K, V>(t: seq<Node<K, V>>, bitOf: (K, int) -> bool, parent: nat, x: K, node: nat)
    requires parent < |t|
  {
    Child(t[parent], bitOf(x, t[parent].bit)) == Link(node)
  }

  /**
   * The structural descent of every version: from `node`, reached from `parent`,
   * follow the child chosen by the key's bit while the node's bit exceeds the
   * previous one and that child exists. Returns the stopping node and the node it
   * was reached from.
   */
  function LookupStep<K, V>(t: seq<Node<K, V>>, maxBit: nat, bitOf: (K, int) -> bool,
                            node: nat, x: K, parent: Slot): (r: (nat, Slot))
    requires WellFormed(t, maxBit) && node < |t| && SlotIn(t, parent)
    ensures r.0 < |t| && SlotIn(t, r.1)
    ensures Stops(t, bitOf, r.0, x, r.1)
    ensures r == (node, parent) || (r.1.Link? && Chooses(t, bitOf, r.1.index, x, r.0))
    ensures r.1.Null? ==> r == (node, parent)
    decreases maxBit - PrevBit(t, parent)
  {
    var n := t[node];
    if n.bit > PrevBit(t, parent) then
      var c := Child(n, bitOf(x, n.bit));
      if c.Link? then LookupStep(t, maxBit, bitOf, c.index, x, Link(node)) else (node, parent)
    else
      (node, parent)
  }

  /** The least offset from `from` on where `k` has a 1 bit, or maxBit if there is none. */
  function FirstSet<K>(bitOf: (K, int) -> bool, maxBit: nat, k: K, from: nat): (e: nat)
    requires from <= maxBit
    ensures from <= e <= maxBit
    ensures forall i :: from <= i < e ==> !bitOf(k, i)
    ensures e < maxBit ==> bitOf(k, e)
    decreases maxBit - from
  {
    if from == maxBit then maxBit
    else if bitOf(k, from) then from
    else FirstSet(bitOf, maxBit, k, from + 1)
  }

  /** The least offset from `from` on where keys `a` and `b` read differently, or maxBit if there is none. */
  function FirstDiff<K>(bitOf: (K, int) -> bool, maxBit: nat, a: K, b: K, from: nat): (d: nat)
    requires from <= maxBit
    ensures from <= d <= maxBit
    ensures forall i :: from <= i < d ==> bitOf(a, i) == bitOf(b, i)
    ensures d < maxBit ==> bitOf(a, d) != bitOf(b, d)
    decreases maxBit - from
  {
    if from == maxBit then maxBit
    else if bitOf(a, from) != bitOf(b, from) then from
    else FirstDiff(bitOf, maxBit, a, b, from + 1)
  }

  /**
   * The characterisation of FirstSet determines it. Used by DiffAt and
   * FindBitDiff in the Python modules, and FindBitDiffFacts in the table.
   */
  lemma FirstSetUnique<K>(bitOf: (K, int) -> bool, maxBit: nat, k: K, e: nat)
    requires e <= maxBit
    requires forall i :: 0 <= i < e ==> !bitOf(k, i)
    requires e < maxBit ==> bitOf(k, e)
    ensures e == FirstSet(bitOf, maxBit, k, 0)
  {
  }

  /**
   * The characterisation of FirstDiff determines it. Used by DiffAt and
   * FindBitDiff in the Python modules, and FindBitDiffFacts in the table.
   */
  lemma FirstDiffUnique<K>(bitOf: (K, int) -> bool, maxBit: nat, a: K, b: K, d: nat)
    requires d <= maxBit
    requires forall i :: 0 <= i < d ==> bitOf(a, i) == bitOf(b, i)
    requires d < maxBit ==> bitOf(a, d) != bitOf(b, d)
    ensures d == FirstDiff(bitOf, maxBit, a, b, 0)
  {
  }

  /** No node has an absent right child (the C table never produces one). */
  predicate NoNullRight<K, V>(t: seq<Node<K, V>>)
  {
    forall i :: 0 <= i < |t| ==> t[i].r.Link?
  }

  /** The arena after an insertion step and the node the caller stores in the slot it descended through. */
  datatype Spliced<K, V> = Spliced(t: seq<Node<K, V>>, link: nat)

  /** Only child slots of existing nodes changed; keys, items and bits are untouched and one node was appended. */
  predicate Extends<K(==), V(==)>(t: seq<Node<K, V>>, t': seq<Node<K, V>>)
  {
    |t'| == |t| + 1 &&
    forall i :: 0 <= i < |t| ==> t'[i].key == t[i].key && t'[i].item == t[i].item && t'[i].bit == t[i].bit
  }

  /** The caller's half of a recursive insertion step: `node` stores the returned link in its child slot on side `right`. */
  function Relink<K(==), V(==)>(t: seq<Node<K, V>>, maxBit: nat, s: Spliced<K, V>, node: nat, right: bool): (r: Spliced<K, V>)
    requires node < |t| && Extends(t, s.t) && WellFormed(s.t, maxBit) && s.link < |s.t|
    ensures Extends(t, r.t) && WellFormed(r.t, maxBit) && r.link == node && r.t[|t|] == s.t[|t|]
    ensures NoNullRight(s.t) ==> NoNullRight(r.t)
  {
    if right then Spliced(s.t[node := s.t[node].(r := Link(s.link))], node)
    else Spliced(s.t[node := s.t[node].(l := Link(s.link))], node)
  }

  /**
   * The fallback of insert_step for an absent left child: a new node at the new
   * key's first 1 bit, with no left child and a right link to itself, becomes
   * `node`'s left child.
   */
  function Fill<K(==), V(==)>(t: seq<Node<K, V>>, maxBit: nat, bitOf: (K, int) -> bool, node: nat, k: K, v: V): (r: Spliced<K, V>)
    requires WellFormed(t, maxBit) && node < |t|
    ensures Extends(t, r.t) && WellFormed(r.t, maxBit) && r.link == node
    ensures r.t[|t|].key == k && r.t[|t|].item == v && r.t[node].l == Link(|t|)
    ensures NoNullRight(t) ==> NoNullRight(r.t)
  {
    var added := |t|;
    var t1 := t + [Node(k, v, FirstSet(bitOf, maxBit, k, 0), Null, Link(added))];
    Spliced(t1[node := t[node].(l := Link(added))], node)
  }

  /**
   * The recursive splice of insert_step, common to the C table and the later
   * Python prototype. Walking from `node` (whose parent's bit is `parentBit`):
   * when the node's bit passes `diffBit` or the node was reached over an up link,
   * a new node with bit `diffBit` is returned that links to itself on the new
   * key's side and to `node` on the other; otherwise the walk follows the new
   * key's bit. With `fill` (the C table and pattrie.py) an absent left child is
   * filled with a new node at the new key's first 1 bit; without it (pattree.py)
   * the walk fails there as it does on an absent right child. `None` means the
   * walk had to follow an absent child.
   */
  function InsertStepSpec<K(==), V(==)>(t: seq<Node<K, V>>, maxBit: nat, bitOf: (K, int) -> bool, fill: bool,
                                node: nat, diffBit: int, k: K, v: V, parentBit: int): (r: Option<Spliced<K, V>>)
    requires WellFormed(t, maxBit) && node < |t|
    requires 0 <= diffBit <= maxBit && -1 <= parentBit <= maxBit
    ensures r.Some? ==> Extends(t, r.value.t) && WellFormed(r.value.t, maxBit) && r.value.link < |r.value.t|
    ensures r.Some? ==> r.value.t[|t|].key == k && r.value.t[|t|].item == v
    ensures fill && NoNullRight(t) ==> r.Some? && NoNullRight(r.value.t)
    decreases maxBit - parentBit
  {
    var n := t[node];
    var added := |t|;
    if n.bit > diffBit || n.bit <= parentBit then
      var nn := if bitOf(k, diffBit) then Node(k, v, diffBit, Link(node), Link(added))
                else Node(k, v, diffBit, Link(added), Link(node));
      Some(Spliced(t + [nn], added))
    else if bitOf(k, n.bit) then
      if n.r.Null? then None
      else
        match InsertStepSpec(t, maxBit, bitOf, fill, n.r.index, diffBit, k, v, n.bit)
        case None => None
        case Some(s) => Some(Relink(t, maxBit, s, node, true))
    else if n.l.Link? then
      match InsertStepSpec(t, maxBit, bitOf, fill, n.l.index, diffBit, k, v, n.bit)
      case None => None
      case Some(s) => Some(Relink(t, maxBit, s, node, false))
    else if fill then
      Some(Fill(t, maxBit, bitOf, node, k, v))
    else
      None
  }

  /**
   * The descent reads nothing but bit numbers and the child slots of nodes whose
   * bit exceeds the previous bit it starts from: two arenas that agree on those
   * give the same result.
   */
  lemma {:induction false} LookupFrame<K, V>(t1: seq<Node<K, V>>, t2: seq<Node<K, V>>, maxBit: nat,
                                             bitOf: (K, int) -> bool, node: nat, x: K, parent: Slot, floor: int)
    requires WellFormed(t1, maxBit) && WellFormed(t2, maxBit) && |t1| == |t2|
    requires node < |t1| && SlotIn(t1, parent) && PrevBit(t1, parent) >= floor
    requires forall i :: 0 <= i < |t1| ==> t1[i].bit == t2[i].bit
    requires forall i :: 0 <= i < |t1| && t1[i].bit > floor ==> t1[i].l == t2[i].l && t1[i].r == t2[i].r
    ensures LookupStep(t1, maxBit, bitOf, node, x, parent) == LookupStep(t2, maxBit, bitOf, node, x, parent)
    decreases maxBit - PrevBit(t1, parent)
  {
    var n := t1[node];
    if n.bit > PrevBit(t1, parent) {
      var c := Child(n, bitOf(x, n.bit));
      if c.Link? {
        LookupFrame(t1, t2, maxBit, bitOf, c.index, x, Link(node), floor);
      }
    }
  }

  /** A node entered over an up link, or whose chosen child is absent or itself, is where the descent stops. */
  lemma SelfChoiceStops<K, V>(t: seq<Node<K, V>>, maxBit: nat, bitOf: (K, int) -> bool, m: nat, x: K, parent: Slot)
    requires WellFormed(t, maxBit) && m < |t| && SlotIn(t, parent)
    requires t[m].bit <= PrevBit(t, parent) || Child(t[m], bitOf(x, t[m].bit)) in {Null, Link(m)}
    ensures LookupStep(t, maxBit, bitOf, m, x, parent).0 == m
  {
    if t[m].bit > PrevBit(t, parent) && Child(t[m], bitOf(x, t[m].bit)) == Link(m) {
      assert LookupStep(t, maxBit, bitOf, m, x, parent) == LookupStep(t, maxBit, bitOf, m, x, Link(m));
    }
  }

  /** A descent that enters `node` and follows its re-linked child continues as it did from that child. */
  lemma RelinkedChildFinds<K, V>(t: seq<Node<K, V>>, t': seq<Node<K, V>>, maxBit: nat, bitOf: (K, int) -> bool,
                                 node: nat, link: nat, x: K, parent: Slot, target: nat)
    requires WellFormed(t, maxBit) && WellFormed(t', maxBit) && node < |t| == |t'| && link < |t|
    requires SlotIn(t', parent) && t'[node].bit > PrevBit(t', parent)
    requires t' == t[node := t[node].(r := Link(link))] || t' == t[node := t[node].(l := Link(link))]
    requires Child(t'[node], bitOf(x, t'[node].bit)) == Link(link)
    requires LookupStep(t, maxBit, bitOf, link, x, Link(node)).0 == target
    ensures LookupStep(t', maxBit, bitOf, node, x, parent).0 == target
  {
    forall i | 0 <= i < |t|
      ensures t[i].bit == t'[i].bit && (t[i].bit > t[node].bit ==> t[i].l == t'[i].l && t[i].r == t'[i].r)
    {
      if i != node {
        assert t'[i] == t[i];
      }
    }
    LookupFrame(t, t', maxBit, bitOf, link, x, Link(node), t[node].bit);
  }

  /**
   * Round trip of one insertion step: descending for the new key from the node the
   * step returns, entered with the same previous bit, stops at the node the step
   * added (the fallback node relies on the sentinel convention).
   */
  lemma {:induction false} InsertStepFinds<K(!new), V>(t: seq<Node<K, V>>, maxBit: nat, bitOf: (K, int) -> bool, fill: bool,
                                                       node: nat, diffBit: int, k: K, v: V, parentBit: int, parent: Slot)
    requires WellFormed(t, maxBit) && node < |t| && 0 <= diffBit <= maxBit && -1 <= parentBit <= maxBit
    requires fill ==> SentinelIsSet(bitOf, maxBit)
    requires InsertStepSpec(t, maxBit, bitOf, fill, node, diffBit, k, v, parentBit).Some?
    requires SlotIn(InsertStepSpec(t, maxBit, bitOf, fill, node, diffBit, k, v, parentBit).value.t, parent)
    requires PrevBit(InsertStepSpec(t, maxBit, bitOf, fill, node, diffBit, k, v, parentBit).value.t, parent) == parentBit
    ensures var s := InsertStepSpec(t, maxBit, bitOf, fill, node, diffBit, k, v, parentBit).value;
            LookupStep(s.t, maxBit, bitOf, s.link, k, parent).0 == |t|
    decreases maxBit - parentBit
  {
    var s := InsertStepSpec(t, maxBit, bitOf, fill, node, diffBit, k, v, parentBit).value;
    var n := t[node];
    var added := |t|;
    if n.bit > diffBit || n.bit <= parentBit {
      assert s.link == added && s.t[added].bit == diffBit && Child(s.t[added], bitOf(k, diffBit)) == Link(added);
      SelfChoiceStops(s.t, maxBit, bitOf, added, k, parent);
    } else if bitOf(k, n.bit) {
      var si := InsertStepSpec(t, maxBit, bitOf, fill, n.r.index, diffBit, k, v, n.bit).value;
      assert s == Spliced(si.t[node := si.t[node].(r := Link(si.link))], node);
      InsertStepFinds(t, maxBit, bitOf, fill, n.r.index, diffBit, k, v, n.bit, Link(node));
      RelinkedChildFinds(si.t, s.t, maxBit, bitOf, node, si.link, k, parent, added);
    } else if n.l.Link? {
      var si := InsertStepSpec(t, maxBit, bitOf, fill, n.l.index, diffBit, k, v, n.bit).value;
      assert s == Spliced(si.t[node := si.t[node].(l := Link(si.link))], node);
      InsertStepFinds(t, maxBit, bitOf, fill, n.l.index, diffBit, k, v, n.bit, Link(node));
      RelinkedChildFinds(si.t, s.t, maxBit, bitOf, node, si.link, k, parent, added);
    } else {
      FillFinds(t, maxBit, bitOf, node, k, v, parent);
    }
  }

  /** Round trip of the fallback: descending for the new key from `node` reaches the node the fallback added. */
  lemma FillFinds<K(!new), V>(t: seq<Node<K, V>>, maxBit: nat, bitOf: (K, int) -> bool, node: nat, k: K, v: V, parent: Slot)
    requires WellFormed(t, maxBit) && node < |t| && SentinelIsSet(bitOf, maxBit)
    requires !bitOf(k, t[node].bit) && t[node].l.Null?
    requires SlotIn(Fill(t, maxBit, bitOf, node, k, v).t, parent)
    requires PrevBit(Fill(t, maxBit, bitOf, node, k, v).t, parent) < t[node].bit
    ensures LookupStep(Fill(t, maxBit, bitOf, node, k, v).t, maxBit, bitOf, node, k, parent).0 == |t|
  {
    var added := |t|;
    var e := FirstSet(bitOf, maxBit, k, 0);
    var t1 := t + [Node(k, v, e, Null, Link(added))];
    assert Fill(t, maxBit, bitOf, node, k, v).t == t1[node := t[node].(l := Link(added))];
    assert e > t[node].bit ==> bitOf(k, e);
    SelfChoiceStops(t1, maxBit, bitOf, added, k, Link(node));
    RelinkedChildFinds(t1, Fill(t, maxBit, bitOf, node, k, v).t, maxBit, bitOf, node, added, k, parent, added);
  }

  /** Two keys read alike at every offset below `b`. */
  ghost predicate SamePrefix<K>(bitOf: (K, int) -> bool, a: K, c: K, b: int)
  {
    forall x :: 0 <= x < b ==> bitOf(a, x) == bitOf(c, x)
  }

  /** The nodes of `q` whose keys read `right` at offset `b`. */
  ghost function Side<K, V>(t: seq<Node<K, V>>, bitOf: (K, int) -> bool, q: set<nat>, b: int, right: bool): (s: set<nat>)
    ensures s <= q
  {
    set j | j in q && j < |t| && bitOf(t[j].key, b) == right
  }

  /** The indices below `n`: every node of an arena of `n` nodes. */
  ghost function Indices(n: nat): (s: set<nat>)
    ensures forall i :: i in s <==> 0 <= i < n
  {
    if n == 0 then {} else Indices(n - 1) + {n - 1}
  }

  /**
   * The search invariant of the sub-trie entered at node `n` from a node whose
   * bit is `pb`: `q` is the set of stored nodes whose keys the descent brings
   * here. Entered over an up link, the node is the one key that ends here.
   * Otherwise the node itself is in `q`, every key of `q` agrees with the node's
   * key below its bit, and each child slot takes exactly the keys of `q` that
   * read its side at that bit (an absent child takes none).
   */
  ghost predicate Owns<K, V>(t: seq<Node<K, V>>, maxBit: nat, bitOf: (K, int) -> bool, n: nat, pb: int, q: set<nat>)
    requires WellFormed(t, maxBit) && n < |t| && pb <= maxBit
    decreases maxBit - pb
  {
    if t[n].bit <= pb then q == {n}
    else
      var b := t[n].bit;
      n in q &&
      (forall j :: j in q ==> j < |t| && SamePrefix(bitOf, t[j].key, t[n].key, b)) &&
      (if t[n].r.Null? then Side(t, bitOf, q, b, true) == {}
       else Owns(t, maxBit, bitOf, t[n].r.index, b, Side(t, bitOf, q, b, true))) &&
      (if t[n].l.Null? then Side(t, bitOf, q, b, false) == {}
       else Owns(t, maxBit, bitOf, t[n].l.index, b, Side(t, bitOf, q, b, false)))
  }

  /** A trie whose head owns the nodes of `live`: the search invariant of the whole trie. */
  ghost predicate Searchable<K, V>(t: seq<Node<K, V>>, maxBit: nat, bitOf: (K, int) -> bool, head: Slot, live: set<nat>)
  {
    WellFormed(t, maxBit) && SlotIn(t, head) &&
    (head.Null? ==> live == {}) &&
    (head.Link? ==> Owns(t, maxBit, bitOf, head.index, -1, live))
  }

  /** Every node a sub-trie owns is where the descent of its own key ends. */
  lemma {:induction false} OwnsFinds<K, V>(t: seq<Node<K, V>>, maxBit: nat, bitOf: (K, int) -> bool,
                                           n: nat, q: set<nat>, parent: Slot, j: nat)
    requires WellFormed(t, maxBit) && n < |t| && SlotIn(t, parent)
    requires Owns(t, maxBit, bitOf, n, PrevBit(t, parent), q) && j in q
    ensures j < |t| && LookupStep(t, maxBit, bitOf, n, t[j].key, parent).0 == j
    decreases maxBit - PrevBit(t, parent)
  {
    var pb := PrevBit(t, parent);
    if t[n].bit > pb {
      var b := t[n].bit;
      var side := bitOf(t[j].key, b);
      assert j in Side(t, bitOf, q, b, side);
      var c := Child(t[n], side);
      OwnsFinds(t, maxBit, bitOf, c.index, Side(t, bitOf, q, b, side), Link(n), j);
    }
  }

  /** Every descent through a sub-trie ends at a node it owns. */
  lemma {:induction false} OwnsEnds<K, V>(t: seq<Node<K, V>>, maxBit: nat, bitOf: (K, int) -> bool,
                                          n: nat, q: set<nat>, parent: Slot, x: K)
    requires WellFormed(t, maxBit) && n < |t| && SlotIn(t, parent)
    requires Owns(t, maxBit, bitOf, n, PrevBit(t, parent), q)
    ensures LookupStep(t, maxBit, bitOf, n, x, parent).0 in q
    decreases maxBit - PrevBit(t, parent)
  {
    var pb := PrevBit(t, parent);
    if t[n].bit > pb {
      var b := t[n].bit;
      var c := Child(t[n], bitOf(x, b));
      if c.Link? {
        OwnsEnds(t, maxBit, bitOf, c.index, Side(t, bitOf, q, b, bitOf(x, b)), Link(n), x);
      }
    }
  }

  /** The node a descent through a sub-trie last came from is the one it started from, or a node the sub-trie owns. */
  lemma {:induction false} OwnsParent<K, V>(t: seq<Node<K, V>>, maxBit: nat, bitOf: (K, int) -> bool,
                                            n: nat, q: set<nat>, parent: Slot, x: K)
    requires WellFormed(t, maxBit) && n < |t| && SlotIn(t, parent)
    requires Owns(t, maxBit, bitOf, n, PrevBit(t, parent), q)
    ensures var p := LookupStep(t, maxBit, bitOf, n, x, parent).1;
            p == parent || (p.Link? && p.index in q)
    decreases maxBit - PrevBit(t, parent)
  {
    var pb := PrevBit(t, parent);
    if t[n].bit > pb {
      var b := t[n].bit;
      var c := Child(t[n], bitOf(x, b));
      if c.Link? {
        OwnsParent(t, maxBit, bitOf, c.index, Side(t, bitOf, q, b, bitOf(x, b)), Link(n), x);
      }
    }
  }

  /**
   * The descent of a stored key from the head of a searchable trie takes at
   * least one step: the head's child on the key's side holds the key, so it is
   * present, and the descent ends with a parent.
   */
  lemma StoredHasParent<K, V>(t: seq<Node<K, V>>, maxBit: nat, bitOf: (K, int) -> bool, head: Slot, live: set<nat>, j: nat)
    requires Searchable(t, maxBit, bitOf, head, live) && j in live
    ensures head.Link? && j < |t| && LookupStep(t, maxBit, bitOf, head.index, t[j].key, Null).1.Link?
  {
    var h := head.index;
    var b := t[h].bit;
    var side := bitOf(t[j].key, b);
    assert j in Side(t, bitOf, live, b, side);
    assert Child(t[h], side).Link?;
  }

  /**
   * The invariant reads the keys and bits of the arena, and the links of the
   * owned nodes entered from below: an arena that agrees on those (and may have
   * more nodes) keeps it.
   */
  lemma {:induction false} OwnsFrame<K, V>(t1: seq<Node<K, V>>, t2: seq<Node<K, V>>, maxBit: nat, bitOf: (K, int) -> bool,
                                           n: nat, pb: int, q: set<nat>)
    requires WellFormed(t1, maxBit) && WellFormed(t2, maxBit) && n < |t1| <= |t2| && pb <= maxBit
    requires Owns(t1, maxBit, bitOf, n, pb, q)
    requires forall i :: 0 <= i < |t1| ==> t2[i].bit == t1[i].bit && t2[i].key == t1[i].key
    requires forall i :: i in q && i < |t1| && t1[i].bit > pb ==> t2[i].l == t1[i].l && t2[i].r == t1[i].r
    ensures Owns(t2, maxBit, bitOf, n, pb, q)
    decreases maxBit - pb
  {
    if t1[n].bit > pb {
      var b := t1[n].bit;
      assert Side(t2, bitOf, q, b, true) == Side(t1, bitOf, q, b, true);
      assert Side(t2, bitOf, q, b, false) == Side(t1, bitOf, q, b, false);
      if t1[n].r.Link? {
        OwnsFrame(t1, t2, maxBit, bitOf, t1[n].r.index, b, Side(t1, bitOf, q, b, true));
      }
      if t1[n].l.Link? {
        OwnsFrame(t1, t2, maxBit, bitOf, t1[n].l.index, b, Side(t1, bitOf, q, b, false));
      }
    }
  }

  /**
   * The invariant of a sub-trie depends on the bit it is entered from only
   * through whether that is an up link. Used by SpliceBuild.
   */
  lemma OwnsEntered<K, V>(t: seq<Node<K, V>>, maxBit: nat, bitOf: (K, int) -> bool, n: nat, pb: int, pb2: int, q: set<nat>)
    requires WellFormed(t, maxBit) && n < |t| && pb <= maxBit && pb2 <= maxBit
    requires Owns(t, maxBit, bitOf, n, pb, q)
    requires t[n].bit <= pb <==> t[n].bit <= pb2
    ensures Owns(t, maxBit, bitOf, n, pb2, q)
  {
  }

  /**
   * Insertion keeps the search invariant: when the new key reads like the key its
   * descent ends at below `diffBit` and unlike it at `diffBit`, the sub-trie the
   * step returns owns the old keys and the new node; nodes outside the sub-trie
   * are untouched.
   */
  lemma {:induction false} InsertStepOwns<K(!new), V>(t: seq<Node<K, V>>, maxBit: nat, bitOf: (K, int) -> bool, fill: bool,
                                                      node: nat, diffBit: int, k: K, v: V, parent: Slot, q: set<nat>)
    requires WellFormed(t, maxBit) && node < |t| && SlotIn(t, parent) && PrevBit(t, parent) < diffBit <= maxBit
    requires fill ==> SentinelIsSet(bitOf, maxBit)
    requires Owns(t, maxBit, bitOf, node, PrevBit(t, parent), q)
    requires SamePrefix(bitOf, k, t[LookupStep(t, maxBit, bitOf, node, k, parent).0].key, diffBit)
    requires bitOf(k, diffBit) != bitOf(t[LookupStep(t, maxBit, bitOf, node, k, parent).0].key, diffBit)
    requires InsertStepSpec(t, maxBit, bitOf, fill, node, diffBit, k, v, PrevBit(t, parent)).Some?
    ensures var s := InsertStepSpec(t, maxBit, bitOf, fill, node, diffBit, k, v, PrevBit(t, parent)).value;
            Owns(s.t, maxBit, bitOf, s.link, PrevBit(t, parent), q + {|t|}) &&
            forall i :: 0 <= i < |t| && (i !in q || t[i].bit <= PrevBit(t, parent)) ==> s.t[i] == t[i]
    decreases maxBit - PrevBit(t, parent)
  {
    var pb := PrevBit(t, parent);
    var n := t[node];
    if n.bit > diffBit || n.bit <= pb {
      SpliceOwns(t, maxBit, bitOf, node, diffBit, k, v, parent, q);
    } else if Child(n, bitOf(k, n.bit)).Link? {
      var child := Child(n, bitOf(k, n.bit));
      StepDown(t, maxBit, bitOf, node, diffBit, k, parent, q);
      InsertStepOwns(t, maxBit, bitOf, fill, child.index, diffBit, k, v, Link(node), Side(t, bitOf, q, n.bit, bitOf(k, n.bit)));
      StepUp(t, maxBit, bitOf, fill, node, diffBit, k, v, parent, q);
    } else {
      FillStep(t, maxBit, bitOf, fill, node, diffBit, k, v, parent, q);
    }
  }

  /** Entering the child the new key chooses: the facts the recursive step needs. */
  lemma StepDown<K, V>(t: seq<Node<K, V>>, maxBit: nat, bitOf: (K, int) -> bool,
                       node: nat, diffBit: int, k: K, parent: Slot, q: set<nat>)
    requires WellFormed(t, maxBit) && node < |t| && SlotIn(t, parent) && PrevBit(t, parent) < t[node].bit <= diffBit <= maxBit
    requires Owns(t, maxBit, bitOf, node, PrevBit(t, parent), q)
    requires SamePrefix(bitOf, k, t[LookupStep(t, maxBit, bitOf, node, k, parent).0].key, diffBit)
    requires bitOf(k, diffBit) != bitOf(t[LookupStep(t, maxBit, bitOf, node, k, parent).0].key, diffBit)
    requires Child(t[node], bitOf(k, t[node].bit)).Link?
    ensures var child := Child(t[node], bitOf(k, t[node].bit)).index;
            var b := t[node].bit;
            child < |t| && b < diffBit && SamePrefix(bitOf, k, t[node].key, b) &&
            Owns(t, maxBit, bitOf, child, b, Side(t, bitOf, q, b, bitOf(k, b))) &&
            LookupStep(t, maxBit, bitOf, child, k, Link(node)).0 == LookupStep(t, maxBit, bitOf, node, k, parent).0
  {
    var n := t[node];
    var child := Child(n, bitOf(k, n.bit)).index;
    var qs := Side(t, bitOf, q, n.bit, bitOf(k, n.bit));
    var c := LookupStep(t, maxBit, bitOf, node, k, parent).0;
    OwnsPrefix(t, maxBit, bitOf, node, PrevBit(t, parent), q);
    assert c == LookupStep(t, maxBit, bitOf, child, k, Link(node)).0;
    OwnsEnds(t, maxBit, bitOf, child, qs, Link(node), k);
    assert SamePrefix(bitOf, t[c].key, n.key, n.bit);
  }

  /** Back from the recursive step: relinking the returned sub-trie keeps the invariant at `node`. */
  lemma StepUp<K(!new), V>(t: seq<Node<K, V>>, maxBit: nat, bitOf: (K, int) -> bool, fill: bool,
                           node: nat, diffBit: int, k: K, v: V, parent: Slot, q: set<nat>)
    requires WellFormed(t, maxBit) && node < |t| && SlotIn(t, parent) && PrevBit(t, parent) < t[node].bit < diffBit <= maxBit
    requires Owns(t, maxBit, bitOf, node, PrevBit(t, parent), q)
    requires Child(t[node], bitOf(k, t[node].bit)).Link? && SamePrefix(bitOf, k, t[node].key, t[node].bit)
    requires InsertStepSpec(t, maxBit, bitOf, fill, node, diffBit, k, v, PrevBit(t, parent)).Some?
    requires var b := t[node].bit;
             var qs := Side(t, bitOf, q, b, bitOf(k, b));
             var si := InsertStepSpec(t, maxBit, bitOf, fill, Child(t[node], bitOf(k, b)).index, diffBit, k, v, b);
             si.Some? &&
             Owns(si.value.t, maxBit, bitOf, si.value.link, b, qs + {|t|}) &&
             forall i :: 0 <= i < |t| && (i !in qs || t[i].bit <= b) ==> si.value.t[i] == t[i]
    ensures var s := InsertStepSpec(t, maxBit, bitOf, fill, node, diffBit, k, v, PrevBit(t, parent)).value;
            Owns(s.t, maxBit, bitOf, s.link, PrevBit(t, parent), q + {|t|}) &&
            forall i :: 0 <= i < |t| && (i !in q || t[i].bit <= PrevBit(t, parent)) ==> s.t[i] == t[i]
  {
    var pb := PrevBit(t, parent);
    var n := t[node];
    var right := bitOf(k, n.bit);
    var si := InsertStepSpec(t, maxBit, bitOf, fill, Child(n, right).index, diffBit, k, v, n.bit).value;
    var s := InsertStepSpec(t, maxBit, bitOf, fill, node, diffBit, k, v, pb).value;
    assert s == Relink(t, maxBit, si, node, right);
    assert RelinkCase(t, si.t, s.t, maxBit, bitOf, node, pb, q, k, right, si.link);
    RelinkOwns(t, si.t, s.t, maxBit, bitOf, node, pb, q, k, right, si.link);
  }

  /** The fallback branch: the descent ended at `node`, whose bit is the one where the new key differs. */
  lemma FillStep<K(!new), V>(t: seq<Node<K, V>>, maxBit: nat, bitOf: (K, int) -> bool, fill: bool,
                             node: nat, diffBit: int, k: K, v: V, parent: Slot, q: set<nat>)
    requires WellFormed(t, maxBit) && node < |t| && SlotIn(t, parent) && PrevBit(t, parent) < t[node].bit <= diffBit <= maxBit
    requires fill ==> SentinelIsSet(bitOf, maxBit)
    requires Owns(t, maxBit, bitOf, node, PrevBit(t, parent), q)
    requires SamePrefix(bitOf, k, t[LookupStep(t, maxBit, bitOf, node, k, parent).0].key, diffBit)
    requires bitOf(k, diffBit) != bitOf(t[LookupStep(t, maxBit, bitOf, node, k, parent).0].key, diffBit)
    requires Child(t[node], bitOf(k, t[node].bit)).Null?
    requires InsertStepSpec(t, maxBit, bitOf, fill, node, diffBit, k, v, PrevBit(t, parent)).Some?
    ensures var s := InsertStepSpec(t, maxBit, bitOf, fill, node, diffBit, k, v, PrevBit(t, parent)).value;
            Owns(s.t, maxBit, bitOf, s.link, PrevBit(t, parent), q + {|t|}) &&
            forall i :: 0 <= i < |t| && (i !in q || t[i].bit <= PrevBit(t, parent)) ==> s.t[i] == t[i]
  {
    var pb := PrevBit(t, parent);
    var n := t[node];
    assert LookupStep(t, maxBit, bitOf, node, k, parent).0 == node;
    OwnsPrefix(t, maxBit, bitOf, node, pb, q);
    assert !bitOf(k, n.bit) && n.l.Null? by {
      assert node in Side(t, bitOf, q, n.bit, bitOf(n.key, n.bit));
    }
    assert bitOf(n.key, n.bit) by {
      assert node !in Side(t, bitOf, q, n.bit, false);
    }
    assert diffBit == n.bit;
    assert fill;
    FillOwns(t, maxBit, bitOf, node, pb, q, k, v);
  }

  /**
   * The splice branch of insert_step keeps the invariant: the new node at
   * `diffBit` owns the new key on its own side and, on the other, every key the
   * sub-trie owned, since they all read like the closest key up to `diffBit`.
   */
  lemma SpliceOwns<K, V>(t: seq<Node<K, V>>, maxBit: nat, bitOf: (K, int) -> bool,
                         n: nat, diffBit: int, k: K, v: V, parent: Slot, q: set<nat>)
    requires WellFormed(t, maxBit) && n < |t| && SlotIn(t, parent) && PrevBit(t, parent) < diffBit <= maxBit
    requires Owns(t, maxBit, bitOf, n, PrevBit(t, parent), q)
    requires t[n].bit > diffBit || t[n].bit <= PrevBit(t, parent)
    requires SamePrefix(bitOf, k, t[LookupStep(t, maxBit, bitOf, n, k, parent).0].key, diffBit)
    requires bitOf(k, diffBit) != bitOf(t[LookupStep(t, maxBit, bitOf, n, k, parent).0].key, diffBit)
    ensures var a := |t|;
            var nn := if bitOf(k, diffBit) then Node(k, v, diffBit, Link(n), Link(a)) else Node(k, v, diffBit, Link(a), Link(n));
            WellFormed(t + [nn], maxBit) && Owns(t + [nn], maxBit, bitOf, a, PrevBit(t, parent), q + {a})
  {
    var c := LookupStep(t, maxBit, bitOf, n, k, parent).0;
    OwnsEnds(t, maxBit, bitOf, n, q, parent, k);
    ReadLikeClosest(t, maxBit, bitOf, n, PrevBit(t, parent), q, c, diffBit);
    forall j | j in q ensures SamePrefix(bitOf, t[j].key, k, diffBit) && bitOf(t[j].key, diffBit) != bitOf(k, diffBit) {
      assert SamePrefix(bitOf, t[j].key, t[c].key, diffBit + 1);
    }
    SpliceBuild(t, maxBit, bitOf, n, diffBit, k, v, PrevBit(t, parent), q);
  }

  /**
   * The splice itself: above a sub-trie whose keys all read like one another up
   * to `diffBit` and unlike the new key there, a node at `diffBit` owns them on
   * one side and the new key on the other.
   */
  lemma SpliceBuild<K, V>(t: seq<Node<K, V>>, maxBit: nat, bitOf: (K, int) -> bool,
                          n: nat, diffBit: int, k: K, v: V, pb: int, q: set<nat>)
    requires WellFormed(t, maxBit) && n < |t| && pb < diffBit <= maxBit && 0 <= diffBit
    requires Owns(t, maxBit, bitOf, n, pb, q)
    requires t[n].bit > diffBit || t[n].bit <= pb
    requires forall j :: j in q ==> j < |t| && SamePrefix(bitOf, t[j].key, k, diffBit) && bitOf(t[j].key, diffBit) != bitOf(k, diffBit)
    ensures var a := |t|;
            var nn := if bitOf(k, diffBit) then Node(k, v, diffBit, Link(n), Link(a)) else Node(k, v, diffBit, Link(a), Link(n));
            WellFormed(t + [nn], maxBit) && Owns(t + [nn], maxBit, bitOf, a, pb, q + {a})
  {
    var a := |t|;
    var side := bitOf(k, diffBit);
    var nn := if side then Node(k, v, diffBit, Link(n), Link(a)) else Node(k, v, diffBit, Link(a), Link(n));
    var t' := t + [nn];
    Append(t, maxBit, nn);
    SideGrow(t, t', bitOf, q, diffBit, side);
    SideGrow(t, t', bitOf, q, diffBit, !side);
    assert Side(t', bitOf, q + {a}, diffBit, side) == {a};
    assert Side(t', bitOf, q + {a}, diffBit, !side) == q;
    OwnsFrame(t, t', maxBit, bitOf, n, pb, q);
    OwnsEntered(t', maxBit, bitOf, n, pb, diffBit, q);
    assert Owns(t', maxBit, bitOf, a, diffBit, {a});
    if side {
      assert t'[a].r == Link(a) && t'[a].l == Link(n);
      OwnsDown(t', maxBit, bitOf, a, pb, q + {a});
    } else {
      assert t'[a].l == Link(a) && t'[a].r == Link(n);
      OwnsDown(t', maxBit, bitOf, a, pb, q + {a});
    }
  }

  /**
   * The keys a sub-trie owns read like the key its descent for `x` ends at up to
   * `d` included, when `d` is below the bit of the sub-trie's node.
   */
  lemma ReadLikeClosest<K, V>(t: seq<Node<K, V>>, maxBit: nat, bitOf: (K, int) -> bool,
                              n: nat, pb: int, q: set<nat>, c: nat, d: int)
    requires WellFormed(t, maxBit) && n < |t| && pb <= maxBit
    requires Owns(t, maxBit, bitOf, n, pb, q) && c in q
    requires t[n].bit > d || t[n].bit <= pb
    ensures forall j :: j in q ==> j < |t| && SamePrefix(bitOf, t[j].key, t[c].key, d + 1)
  {
    forall j | j in q ensures j < |t| && SamePrefix(bitOf, t[j].key, t[c].key, d + 1) {
      if t[n].bit > pb {
        assert SamePrefix(bitOf, t[j].key, t[n].key, t[n].bit) && SamePrefix(bitOf, t[c].key, t[n].key, t[n].bit);
      }
    }
  }

  /**
   * Appending a node whose bit is in range and whose links stay in the longer
   * arena keeps it well formed. Used by SpliceBuild.
   */
  lemma Append<K, V>(t: seq<Node<K, V>>, maxBit: nat, nn: Node<K, V>)
    requires WellFormed(t, maxBit) && 0 <= nn.bit <= maxBit && SlotIn(t + [nn], nn.l) && SlotIn(t + [nn], nn.r)
    ensures WellFormed(t + [nn], maxBit) && (t + [nn])[|t|] == nn
    ensures forall i :: 0 <= i < |t| ==> (t + [nn])[i] == t[i]
  {
  }

  /** Splitting an owned set grown by the appended node `|t|`, in an arena that keeps the old keys. */
  lemma SideGrow<K, V>(t: seq<Node<K, V>>, s: seq<Node<K, V>>, bitOf: (K, int) -> bool, q: set<nat>, b: int, side: bool)
    requires |t| < |s| && forall i :: 0 <= i < |t| ==> s[i].key == t[i].key
    requires forall j :: j in q ==> j < |t|
    ensures Side(s, bitOf, q + {|t|}, b, side) == Side(t, bitOf, q, b, side) + (if bitOf(s[|t|].key, b) == side then {|t|} else {})
  {
  }

  /**
   * The relinking branch of insert_step keeps the invariant: `n` stores in its
   * child slot on side `right` the sub-trie the recursive step returned, which
   * owns that side's keys and the new one; the other side is untouched.
   */
  lemma RelinkOwns<K, V>(t: seq<Node<K, V>>, si: seq<Node<K, V>>, s: seq<Node<K, V>>, maxBit: nat, bitOf: (K, int) -> bool,
                         n: nat, pb: int, q: set<nat>, k: K, right: bool, link: nat)
    requires RelinkCase(t, si, s, maxBit, bitOf, n, pb, q, k, right, link)
    ensures WellFormed(s, maxBit) && n < |s| && pb <= maxBit
    ensures Owns(s, maxBit, bitOf, n, pb, q + {|t|})
    ensures forall i :: 0 <= i < |t| && (i !in q || t[i].bit <= pb) ==> s[i] == t[i]
  {
    var Q := q + {|t|};
    var b := t[n].bit;
    RelinkLinkSide(t, si, s, maxBit, bitOf, n, pb, q, k, right, link);
    RelinkOtherSide(t, si, s, maxBit, bitOf, n, pb, q, k, right, link);
    RelinkPrefix(t, si, s, maxBit, bitOf, n, pb, q, k, right, link);
    OwnsDownSides(s, maxBit, bitOf, n, pb, Q, right, Side(s, bitOf, Q, b, right), Side(s, bitOf, Q, b, !right));
    RelinkKeeps(t, si, s, maxBit, bitOf, n, pb, q, k, right, link);
  }

  /** The facts the relinking branch starts from: `si` is the arena the recursive step returned, `s` the relinked one. */
  ghost predicate RelinkCase<K, V>(t: seq<Node<K, V>>, si: seq<Node<K, V>>, s: seq<Node<K, V>>, maxBit: nat, bitOf: (K, int) -> bool,
                                   n: nat, pb: int, q: set<nat>, k: K, right: bool, link: nat)
  {
    WellFormed(t, maxBit) && WellFormed(si, maxBit) && WellFormed(s, maxBit) && n < |t| && -1 <= pb < t[n].bit &&
    Owns(t, maxBit, bitOf, n, pb, q) &&
    Extends(t, si) && si[|t|].key == k && link < |si| &&
    |s| == |si| && s == si[n := s[n]] && s[n].key == si[n].key && s[n].item == si[n].item && s[n].bit == si[n].bit &&
    Child(s[n], right) == Link(link) && Child(s[n], !right) == Child(si[n], !right) &&
    bitOf(k, t[n].bit) == right && Child(t[n], right).Link? &&
    SamePrefix(bitOf, k, t[n].key, t[n].bit) &&
    Owns(si, maxBit, bitOf, link, t[n].bit, Side(t, bitOf, q, t[n].bit, right) + {|t|}) &&
    forall i :: 0 <= i < |t| && (i !in Side(t, bitOf, q, t[n].bit, right) || t[i].bit <= t[n].bit) ==> si[i] == t[i]
  }

  /** The relinked side owns its old keys and the new one. */
  lemma RelinkLinkSide<K, V>(t: seq<Node<K, V>>, si: seq<Node<K, V>>, s: seq<Node<K, V>>, maxBit: nat, bitOf: (K, int) -> bool,
                             n: nat, pb: int, q: set<nat>, k: K, right: bool, link: nat)
    requires RelinkCase(t, si, s, maxBit, bitOf, n, pb, q, k, right, link)
    ensures Child(s[n], right).Link? && Child(s[n], right).index < |s| && s[n].bit <= maxBit
    ensures Owns(s, maxBit, bitOf, Child(s[n], right).index, s[n].bit, Side(s, bitOf, q + {|t|}, s[n].bit, right))
  {
    var a := |t|;
    var b := t[n].bit;
    var q1 := Side(t, bitOf, q, b, right);
    assert si[n] == t[n];
    assert s[a] == si[a];
    OwnsFrame(si, s, maxBit, bitOf, link, b, q1 + {a});
    SideGrow(t, s, bitOf, q, b, right);
  }

  /** The side the step did not enter keeps its sub-trie and its keys. */
  lemma RelinkOtherSide<K, V>(t: seq<Node<K, V>>, si: seq<Node<K, V>>, s: seq<Node<K, V>>, maxBit: nat, bitOf: (K, int) -> bool,
                              n: nat, pb: int, q: set<nat>, k: K, right: bool, link: nat)
    requires RelinkCase(t, si, s, maxBit, bitOf, n, pb, q, k, right, link)
    ensures s[n].bit <= maxBit
    ensures Child(s[n], !right).Null? ==> Side(s, bitOf, q + {|t|}, s[n].bit, !right) == {}
    ensures Child(s[n], !right).Link? ==>
              (Child(s[n], !right).index < |s| &&
               Owns(s, maxBit, bitOf, Child(s[n], !right).index, s[n].bit, Side(s, bitOf, q + {|t|}, s[n].bit, !right)))
  {
    var a := |t|;
    var b := t[n].bit;
    assert si[n] == t[n];
    assert s[a] == si[a];
    RelinkOther(t, si, s, maxBit, bitOf, n, pb, q, right);
    SideGrow(t, s, bitOf, q, b, !right);
    assert bitOf(s[a].key, b) != !right;
    assert Side(s, bitOf, q + {a}, b, !right) == Side(t, bitOf, q, b, !right);
  }

  /** The relinked node still heads its keys, the new one included. */
  lemma RelinkPrefix<K, V>(t: seq<Node<K, V>>, si: seq<Node<K, V>>, s: seq<Node<K, V>>, maxBit: nat, bitOf: (K, int) -> bool,
                           n: nat, pb: int, q: set<nat>, k: K, right: bool, link: nat)
    requires RelinkCase(t, si, s, maxBit, bitOf, n, pb, q, k, right, link)
    ensures n < |s| && n in q + {|t|}
    ensures forall j :: j in q + {|t|} ==> j < |s| && SamePrefix(bitOf, s[j].key, s[n].key, s[n].bit)
  {
    var a := |t|;
    assert si[n] == t[n];
    assert s[a] == si[a];
    OwnsPrefix(t, maxBit, bitOf, n, pb, q);
    PrefixGrow(t, s, bitOf, q, n, t[n].bit);
  }

  /** Relinking changes nothing outside the keys of `n`'s sub-trie. */
  lemma RelinkKeeps<K, V>(t: seq<Node<K, V>>, si: seq<Node<K, V>>, s: seq<Node<K, V>>, maxBit: nat, bitOf: (K, int) -> bool,
                          n: nat, pb: int, q: set<nat>, k: K, right: bool, link: nat)
    requires RelinkCase(t, si, s, maxBit, bitOf, n, pb, q, k, right, link)
    ensures forall i :: 0 <= i < |t| && (i !in q || t[i].bit <= pb) ==> s[i] == t[i]
  {
    OwnsPrefix(t, maxBit, bitOf, n, pb, q);
    forall i | 0 <= i < |t| && (i !in q || t[i].bit <= pb)
      ensures s[i] == t[i]
    {
      assert i != n;
      assert i !in Side(t, bitOf, q, t[n].bit, right) || t[i].bit <= t[n].bit;
    }
  }

  /**
   * The fallback branch of insert_step keeps the invariant: below a node whose
   * left side owns nothing, the new node takes the left slot and owns the new
   * key alone; the right side keeps every key the node owned.
   */
  lemma FillOwns<K(!new), V>(t: seq<Node<K, V>>, maxBit: nat, bitOf: (K, int) -> bool,
                             n: nat, pb: int, q: set<nat>, k: K, v: V)
    requires WellFormed(t, maxBit) && n < |t| && -1 <= pb < t[n].bit && SentinelIsSet(bitOf, maxBit)
    requires Owns(t, maxBit, bitOf, n, pb, q)
    requires !bitOf(k, t[n].bit) && t[n].l.Null?
    requires SamePrefix(bitOf, k, t[n].key, t[n].bit)
    ensures WellFormed(Fill(t, maxBit, bitOf, n, k, v).t, maxBit)
    ensures Owns(Fill(t, maxBit, bitOf, n, k, v).t, maxBit, bitOf, n, pb, q + {|t|})
    ensures forall i :: 0 <= i < |t| && (i !in q || t[i].bit <= pb) ==> Fill(t, maxBit, bitOf, n, k, v).t[i] == t[i]
  {
    var a := |t|;
    var b := t[n].bit;
    var t1 := t + [Node(k, v, FirstSet(bitOf, maxBit, k, 0), Null, Link(a))];
    var s := Fill(t, maxBit, bitOf, n, k, v).t;
    assert s == t1[n := t[n].(l := Link(a))];
    assert s[a] == t1[a];
    OwnsPrefix(t, maxBit, bitOf, n, pb, q);
    assert Side(t, bitOf, q, b, true) == q by {
      forall j | j in q ensures j in Side(t, bitOf, q, b, true) {
        assert j !in Side(t, bitOf, q, b, false);
      }
    }
    assert n in Side(t, bitOf, q, b, true);
    SideGrow(t, s, bitOf, q, b, true);
    SideGrow(t, s, bitOf, q, b, false);
    OwnsFrame(t, s, maxBit, bitOf, t[n].r.index, b, q);
    PrefixGrow(t, s, bitOf, q, n, b);
    FillLeaf(s, maxBit, bitOf, a, b);
    OwnsDownSides(s, maxBit, bitOf, n, pb, q + {a}, true, q, {a});
  }

  /** The node the fallback adds owns its own key, whichever bit it is entered from. */
  lemma FillLeaf<K(!new), V>(s: seq<Node<K, V>>, maxBit: nat, bitOf: (K, int) -> bool, a: nat, pb: int)
    requires WellFormed(s, maxBit) && a < |s| && pb <= maxBit && SentinelIsSet(bitOf, maxBit)
    requires s[a].l.Null? && s[a].r == Link(a) && s[a].bit == FirstSet(bitOf, maxBit, s[a].key, 0)
    ensures Owns(s, maxBit, bitOf, a, pb, {a})
  {
    assert bitOf(s[a].key, s[a].bit);
    SelfOwns(s, maxBit, bitOf, a, pb);
  }

  /** A node with no left child and a right link to itself, whose key reads 1 at its bit, owns its own key. */
  lemma SelfOwns<K, V>(s: seq<Node<K, V>>, maxBit: nat, bitOf: (K, int) -> bool, a: nat, pb: int)
    requires WellFormed(s, maxBit) && a < |s| && pb <= maxBit
    requires s[a].l.Null? && s[a].r == Link(a) && bitOf(s[a].key, s[a].bit)
    ensures Owns(s, maxBit, bitOf, a, pb, {a})
  {
    var e := s[a].bit;
    if e > pb {
      assert Side(s, bitOf, {a}, e, true) == {a};
      assert Side(s, bitOf, {a}, e, false) == {};
      OwnsDownSides(s, maxBit, bitOf, a, pb, {a}, true, {a}, {});
    }
  }

  /** The clauses of the invariant at a node entered from below. */
  lemma OwnsPrefix<K, V>(t: seq<Node<K, V>>, maxBit: nat, bitOf: (K, int) -> bool, n: nat, pb: int, q: set<nat>)
    requires WellFormed(t, maxBit) && n < |t| && pb < t[n].bit
    requires Owns(t, maxBit, bitOf, n, pb, q)
    ensures n in q && forall j :: j in q ==> j < |t| && SamePrefix(bitOf, t[j].key, t[n].key, t[n].bit)
    ensures Child(t[n], true).Null? ==> Side(t, bitOf, q, t[n].bit, true) == {}
    ensures Child(t[n], false).Null? ==> Side(t, bitOf, q, t[n].bit, false) == {}
    ensures Child(t[n], true).Link? ==> Owns(t, maxBit, bitOf, Child(t[n], true).index, t[n].bit, Side(t, bitOf, q, t[n].bit, true))
    ensures Child(t[n], false).Link? ==> Owns(t, maxBit, bitOf, Child(t[n], false).index, t[n].bit, Side(t, bitOf, q, t[n].bit, false))
  {
  }

  /** An owned set grown by the appended node `|t|` whose key agrees with `n`'s below `b` still agrees with it. */
  lemma PrefixGrow<K, V>(t: seq<Node<K, V>>, s: seq<Node<K, V>>, bitOf: (K, int) -> bool, q: set<nat>, n: nat, b: int)
    requires n < |t| < |s| && forall i :: 0 <= i < |t| ==> s[i].key == t[i].key
    requires forall j :: j in q ==> j < |t| && SamePrefix(bitOf, t[j].key, t[n].key, b)
    requires SamePrefix(bitOf, s[|t|].key, t[n].key, b)
    ensures forall j :: j in q + {|t|} ==> j < |s| && SamePrefix(bitOf, s[j].key, s[n].key, b)
  {
  }

  /** Introduction of the invariant at a node entered from below, with the two sides named. */
  lemma OwnsDownSides<K, V>(t: seq<Node<K, V>>, maxBit: nat, bitOf: (K, int) -> bool, n: nat, pb: int, q: set<nat>,
                            right: bool, qs: set<nat>, qo: set<nat>)
    requires WellFormed(t, maxBit) && n < |t| && pb < t[n].bit
    requires n in q && forall j :: j in q ==> j < |t| && SamePrefix(bitOf, t[j].key, t[n].key, t[n].bit)
    requires Side(t, bitOf, q, t[n].bit, right) == qs && Side(t, bitOf, q, t[n].bit, !right) == qo
    requires Child(t[n], right).Null? ==> qs == {}
    requires Child(t[n], right).Link? ==> Owns(t, maxBit, bitOf, Child(t[n], right).index, t[n].bit, qs)
    requires Child(t[n], !right).Null? ==> qo == {}
    requires Child(t[n], !right).Link? ==> Owns(t, maxBit, bitOf, Child(t[n], !right).index, t[n].bit, qo)
    ensures Owns(t, maxBit, bitOf, n, pb, q)
  {
    if right {
      OwnsDown(t, maxBit, bitOf, n, pb, q);
    } else {
      OwnsDown(t, maxBit, bitOf, n, pb, q);
    }
  }

  /** The side of `n` that the recursive insertion step did not enter keeps its invariant after the relink. */
  lemma RelinkOther<K, V>(t: seq<Node<K, V>>, si: seq<Node<K, V>>, s: seq<Node<K, V>>, maxBit: nat, bitOf: (K, int) -> bool,
                          n: nat, pb: int, q: set<nat>, right: bool)
    requires WellFormed(t, maxBit) && WellFormed(s, maxBit) && n < |t| < |si| == |s| && pb < t[n].bit
    requires Owns(t, maxBit, bitOf, n, pb, q)
    requires Extends(t, si) && s == si[n := s[n]] && s[n].bit == t[n].bit && s[n].key == t[n].key
    requires Child(s[n], !right) == Child(t[n], !right)
    requires forall i :: 0 <= i < |t| && (i !in Side(t, bitOf, q, t[n].bit, right) || t[i].bit <= t[n].bit) ==> si[i] == t[i]
    ensures Child(t[n], !right).Null? ==> Side(t, bitOf, q, t[n].bit, !right) == {}
    ensures Child(t[n], !right).Link? ==> Owns(s, maxBit, bitOf, Child(t[n], !right).index, t[n].bit, Side(t, bitOf, q, t[n].bit, !right))
  {
    var b := t[n].bit;
    var other := Child(t[n], !right);
    var q0 := Side(t, bitOf, q, b, !right);
    if other.Link? {
      assert Owns(t, maxBit, bitOf, other.index, b, q0);
      forall i | i in q0 && i < |t| && t[i].bit > b
        ensures s[i].l == t[i].l && s[i].r == t[i].r
      {
        assert i !in Side(t, bitOf, q, b, right);
      }
      OwnsFrame(t, s, maxBit, bitOf, other.index, b, q0);
    }
  }

  /** Introduction of the invariant at a node entered from below, one clause at a time. */
  lemma OwnsDown<K, V>(t: seq<Node<K, V>>, maxBit: nat, bitOf: (K, int) -> bool, n: nat, pb: int, q: set<nat>)
    requires WellFormed(t, maxBit) && n < |t| && pb < t[n].bit
    requires n in q && forall j :: j in q ==> j < |t| && SamePrefix(bitOf, t[j].key, t[n].key, t[n].bit)
    requires t[n].r.Null? ==> Side(t, bitOf, q, t[n].bit, true) == {}
    requires t[n].r.Link? ==> Owns(t, maxBit, bitOf, t[n].r.index, t[n].bit, Side(t, bitOf, q, t[n].bit, true))
    requires t[n].l.Null? ==> Side(t, bitOf, q, t[n].bit, false) == {}
    requires t[n].l.Link? ==> Owns(t, maxBit, bitOf, t[n].l.index, t[n].bit, Side(t, bitOf, q, t[n].bit, false))
    ensures Owns(t, maxBit, bitOf, n, pb, q)
  {
  }
}
