/**
 * What the two Python prototypes of the trie (util/pattrie.py and its earlier
 * draft util/pattree.py) have in common: integer keys of five bits, string
 * items, the exceptions a call can end in, and the removal code (`link_swap`,
 * `reduce_link`, `remove_key`), which is the same text in both drafts.
 *
 * Python objects become nodes of the arena of module TrieArena; `is` on two
 * links is equality of their indices, and `None` is `Null`. A node that removal
 * unlinks stays in the arena, unreachable, as an object no one refers to.
 */
module PyTrie {
  import opened NanoTypes
  import opened TrieArena

  /** The keys the prototypes use: `ord(letter) & 0x1F`. */
  type Key = k: int | 0 <= k < 32

  type PyNode = Node<Key, string>

  /** The number of key bits the prototypes inspect: offsets 0..4. */
  const KeyBits := 5

  /** The payload link_swap leaves in the node it unlinks, for debugging. */
  const DebugKey: Key := 9
  const DebugItem: string := "X"

  /** The exceptions the modelled code can raise. */
  datatype PyError =
    | AttributeError   // a method or field read on None
    | AssertionError   // the assert of remove_key
    | RecursionError   // reduce_link descending forever

  /** The result of a call: a value, or the exception it ended in. */
  datatype Result<T> = Ok(value: T) | Raised(error: PyError)

  /** The trie object: all nodes created so far and the head link. */
  datatype Trie = Trie(t: seq<PyNode>, head: Slot)

  /** A trie after a call, and the exception the call raised, if any (the trie is then as the call left it). */
  datatype Outcome = Outcome(trie: Trie, raised: Option<PyError>)

  predicate TrieOk(tr: Trie, maxBit: nat)
  {
    WellFormed(tr.t, maxBit) && SlotIn(tr.t, tr.head)
  }

  function Pow2(n: nat): (p: nat)
    ensures p >= 1
  {
    if n == 0 then 1 else 2 * Pow2(n - 1)
  }

  /** Python's `(key >> n) & 1` on a non-negative key. */
  function ShiftBit(key: Key, n: nat): (b: int)
    ensures b == 0 || b == 1
  {
    (key / Pow2(n)) % 2
  }

  /** The key 0 has no bit set. Used by ZeroReadsClear in PatTrie and PatTree. */
  lemma ShiftBitOfZero(n: nat)
    ensures ShiftBit(0, n) == 0
  {
  }

  /** A five-bit key is the sum of its bits: offset `i` carries weight `2^(4 - i)`. */
  lemma KeyFromShiftBits(k: Key)
    ensures k == 16 * ShiftBit(k, 4) + 8 * ShiftBit(k, 3) + 4 * ShiftBit(k, 2) + 2 * ShiftBit(k, 1) + ShiftBit(k, 0)
  {
    assert Pow2(0) == 1 && Pow2(1) == 2 && Pow2(2) == 4 && Pow2(3) == 8 && Pow2(4) == 16;
    assert k == 2 * (k / 2) + k % 2;
    assert k / 2 == 2 * (k / 4) + (k / 2) % 2;
    assert k / 4 == 2 * (k / 8) + (k / 4) % 2;
    assert k / 8 == 2 * (k / 16) + (k / 8) % 2;
    assert k / 16 == (k / 16) % 2;
  }

  /** Keys that agree on the five shifted bits are equal. */
  lemma KeysFromShiftBits(a: Key, b: Key)
    requires forall n :: 0 <= n < KeyBits ==> ShiftBit(a, n) == ShiftBit(b, n)
    ensures a == b
  {
    KeyFromShiftBits(a);
    KeyFromShiftBits(b);
    assert ShiftBit(a, 0) == ShiftBit(b, 0) && ShiftBit(a, 1) == ShiftBit(b, 1);
    assert ShiftBit(a, 2) == ShiftBit(b, 2) && ShiftBit(a, 3) == ShiftBit(b, 3) && ShiftBit(a, 4) == ShiftBit(b, 4);
  }

  /** Node `i` with its key and item replaced. */
  function SetPayload(t: seq<PyNode>, maxBit: nat, i: nat, key: Key, item: string): (r: seq<PyNode>)
    requires WellFormed(t, maxBit) && i < |t|
    ensures |r| == |t| && WellFormed(r, maxBit) && r == t[i := r[i]]
    ensures r[i] == t[i].(key := key, item := item)
    ensures forall j :: 0 <= j < |t| ==> r[j].bit == t[j].bit && (j != i ==> r[j] == t[j])
  {
    t[i := t[i].(key := key, item := item)]
  }

  /** Node `i` with its right (`right`) or left link replaced by `s`. */
  function SetLink(t: seq<PyNode>, maxBit: nat, i: nat, right: bool, s: Slot): (r: seq<PyNode>)
    requires WellFormed(t, maxBit) && i < |t| && SlotIn(t, s)
    ensures |r| == |t| && WellFormed(r, maxBit) && r == t[i := r[i]]
    ensures r[i] == if right then t[i].(r := s) else t[i].(l := s)
    ensures forall j :: 0 <= j < |t| ==> r[j].bit == t[j].bit && r[j].key == t[j].key && r[j].item == t[j].item && (j != i ==> r[j] == t[j])
  {
    t[i := if right then t[i].(r := s) else t[i].(l := s)]
  }

  /**
   * link_swap(grandchild, child, parent): the grandchild takes over the child's
   * key and item, the child gets the debug payload, the parent's link to the
   * child (its left one if that is it, otherwise its right one) is pointed at
   * the grandchild, and the child's link to the grandchild (its right one if
   * that is it, otherwise its left one) is cleared. The writes happen in this
   * order on possibly aliased nodes; a `None` parent raises AttributeError after
   * the payload writes.
   */
  function LinkSwapSpec(t: seq<PyNode>, maxBit: nat, grandchild: nat, child: nat, parent: Slot): (r: (seq<PyNode>, Option<PyError>))
    requires WellFormed(t, maxBit) && grandchild < |t| && child < |t| && SlotIn(t, parent)
    ensures |r.0| == |t| && WellFormed(r.0, maxBit)
    ensures forall i :: 0 <= i < |t| ==> r.0[i].bit == t[i].bit
    ensures forall i :: 0 <= i < |t| && i != grandchild && i != child && parent != Link(i) ==> r.0[i] == t[i]
    ensures grandchild != child ==> r.0[grandchild].key == t[child].key && r.0[grandchild].item == t[child].item
    ensures r.0[child].key == DebugKey && r.0[child].item == DebugItem
    ensures r.1.Some? <==> parent.Null?
    ensures r.1.Some? ==> r.1.value == AttributeError
  {
    var t1 := SetPayload(t, maxBit, grandchild, t[child].key, t[child].item);
    var t2 := SetPayload(t1, maxBit, child, DebugKey, DebugItem);
    if parent.Null? then (t2, Some(AttributeError))
    else
      var p := parent.index;
      var t3 := SetLink(t2, maxBit, p, t2[p].l != Link(child), Link(grandchild));
      var t4 := SetLink(t3, maxBit, child, t3[child].r == Link(grandchild), Null);
      (t4, None)
  }

  /**
   * link_swap on three distinct nodes: the grandchild holds the child's key and
   * item, the parent's link that pointed to the child (the left one if both did)
   * now points to the grandchild, and the child's link to the grandchild is
   * cleared (its left link if neither did).
   */
  lemma LinkSwapRelinks(t: seq<PyNode>, maxBit: nat, grandchild: nat, child: nat, p: nat)
    requires WellFormed(t, maxBit) && grandchild < |t| && child < |t| && p < |t|
    requires grandchild != child && p != child && p != grandchild
    requires t[p].l == Link(child) || t[p].r == Link(child)
    ensures var r := LinkSwapSpec(t, maxBit, grandchild, child, Link(p));
            r.1.None? &&
            r.0[grandchild] == t[grandchild].(key := t[child].key, item := t[child].item) &&
            (t[p].l == Link(child) ==> r.0[p] == t[p].(l := Link(grandchild))) &&
            (t[p].l != Link(child) ==> r.0[p] == t[p].(r := Link(grandchild))) &&
            (t[child].r == Link(grandchild) ==> r.0[child].r.Null? && r.0[child].l == t[child].l) &&
            (t[child].r != Link(grandchild) ==> r.0[child].l.Null? && r.0[child].r == t[child].r)
  {
  }

  /** The child reduce_link puts in place of the victim: its left child if it has one, otherwise its right one. */
  function Replacement(t: seq<PyNode>, victim: nat): (s: Slot)
    requires victim < |t|
    ensures s == t[victim].l || s == t[victim].r
    ensures t[victim].l.Link? ==> s == t[victim].l
    ensures s.Null? <==> t[victim].l.Null? && t[victim].r.Null?
  {
    if t[victim].l.Link? then t[victim].l else t[victim].r
  }

  /**
   * reduce_link from `node`: if the node links to the victim (left link checked
   * first), that link is replaced by the victim's replacement; otherwise the
   * walk follows the target key's bit. Following `None` raises AttributeError.
   * The walk reads a fixed graph, so it either finds the victim within `fuel`
   * steps when `fuel` is the number of nodes, or revisits a node and recurses
   * forever, which Python ends with RecursionError.
   */
  function ReduceLinkSpec(t: seq<PyNode>, maxBit: nat, bitOf: (Key, int) -> bool,
                          node: nat, victim: nat, target: Key, fuel: nat): (r: (seq<PyNode>, Option<PyError>))
    requires WellFormed(t, maxBit) && node < |t| && victim < |t|
    ensures |r.0| == |t| && WellFormed(r.0, maxBit)
    ensures r.1.Some? ==> r.0 == t
    decreases fuel
  {
    var n := t[node];
    if n.l == Link(victim) then (t[node := n.(l := Replacement(t, victim))], None)
    else if n.r == Link(victim) then (t[node := n.(r := Replacement(t, victim))], None)
    else if fuel == 0 then (t, Some(RecursionError))
    else
      var c := Child(n, bitOf(target, n.bit));
      if c.Null? then (t, Some(AttributeError))
      else ReduceLinkSpec(t, maxBit, bitOf, c.index, victim, target, fuel - 1)
  }

  /**
   * A reduce_link that returns normally changes exactly one link: a link of some
   * node that pointed to the victim now holds the victim's replacement; every
   * other node is as it was.
   */
  lemma {:induction false} ReduceLinkRedirects(t: seq<PyNode>, maxBit: nat, bitOf: (Key, int) -> bool,
                                               node: nat, victim: nat, target: Key, fuel: nat)
    requires WellFormed(t, maxBit) && node < |t| && victim < |t|
    requires ReduceLinkSpec(t, maxBit, bitOf, node, victim, target, fuel).1.None?
    ensures exists i :: 0 <= i < |t| &&
              var r := ReduceLinkSpec(t, maxBit, bitOf, node, victim, target, fuel).0;
              r == t[i := r[i]] &&
              ((t[i].l == Link(victim) && r[i] == t[i].(l := Replacement(t, victim))) ||
               (t[i].r == Link(victim) && r[i] == t[i].(r := Replacement(t, victim))))
    decreases fuel
  {
    var r := ReduceLinkSpec(t, maxBit, bitOf, node, victim, target, fuel).0;
    var n := t[node];
    if n.l == Link(victim) || n.r == Link(victim) {
      assert r == t[node := r[node]];
    } else {
      var c := Child(n, bitOf(target, n.bit));
      ReduceLinkRedirects(t, maxBit, bitOf, c.index, victim, target, fuel - 1);
    }
  }

  /** A node that is its own parent loses its link to itself: the left one if that is it, otherwise the right one. */
  function DropSelfLink(t: seq<PyNode>, maxBit: nat, n: nat): (r: seq<PyNode>)
    requires WellFormed(t, maxBit) && n < |t|
    ensures |r| == |t| && WellFormed(r, maxBit) && r == t[n := r[n]]
    ensures t[n].l == Link(n) ==> r[n] == t[n].(l := Null)
    ensures t[n].l != Link(n) ==> r[n] == t[n].(r := Null)
  {
    if t[n].l == Link(n) then t[n := t[n].(l := Null)] else t[n := t[n].(r := Null)]
  }

  /**
   * The unlinking part of remove_key, once the closest node holds the key and
   * the second lookup has found the same parent: a node that is its own parent
   * drops its self-link and is then either replaced as the head by its remaining
   * child or bypassed by reduce_link; otherwise link_swap moves the parent's
   * payload into the closest node and reduce_link bypasses the parent.
   */
  function Unlink(tr: Trie, maxBit: nat, bitOf: (Key, int) -> bool, victimKey: Key,
                  closest: nat, parent: nat, grandparent: Slot): (r: Outcome)
    requires TrieOk(tr, maxBit) && tr.head.Link? && closest < |tr.t| && parent < |tr.t| && SlotIn(tr.t, grandparent)
    ensures TrieOk(r.trie, maxBit) && |r.trie.t| == |tr.t|
  {
    var t := tr.t;
    if closest == parent then
      var t1 := DropSelfLink(t, maxBit, closest);
      if tr.head == Link(closest) then
        Outcome(Trie(t1, Replacement(t1, closest)), None)
      else
        var red := ReduceLinkSpec(t1, maxBit, bitOf, tr.head.index, closest, victimKey, |t1|);
        Outcome(Trie(red.0, tr.head), red.1)
    else
      var swapped := LinkSwapSpec(t, maxBit, closest, parent, grandparent);
      if swapped.1.Some? then Outcome(Trie(swapped.0, tr.head), swapped.1)
      else
        var red := ReduceLinkSpec(swapped.0, maxBit, bitOf, tr.head.index, parent, victimKey, |swapped.0|);
        Outcome(Trie(red.0, tr.head), red.1)
  }

  /**
   * remove_key: find the closest node and its parent; an absent key changes
   * nothing. The parent's key is looked up again and must lead to the same
   * parent (the assert) before the node is unlinked. An empty trie, or a key
   * whose lookup stops at the head without a parent, raises AttributeError.
   */
  function RemoveKeySpec(tr: Trie, maxBit: nat, bitOf: (Key, int) -> bool, victimKey: Key): (r: Outcome)
    requires TrieOk(tr, maxBit)
    ensures TrieOk(r.trie, maxBit) && |r.trie.t| == |tr.t|
    ensures tr.head.Null? ==> r == Outcome(tr, Some(AttributeError))
    ensures tr.head.Link? && tr.t[LookupStep(tr.t, maxBit, bitOf, tr.head.index, victimKey, Null).0].key != victimKey
            ==> r == Outcome(tr, None)
  {
    var t := tr.t;
    if tr.head.Null? then Outcome(tr, Some(AttributeError))
    else
      var (closest, parent) := LookupStep(t, maxBit, bitOf, tr.head.index, victimKey, Null);
      if t[closest].key != victimKey then Outcome(tr, None)
      else if parent.Null? then Outcome(tr, Some(AttributeError))
      else
        var (parent2, grandparent) := LookupStep(t, maxBit, bitOf, tr.head.index, t[parent.index].key, Null);
        if parent2 != parent.index then Outcome(tr, Some(AssertionError))
        else Unlink(tr, maxBit, bitOf, victimKey, closest, parent.index, grandparent)
  }

  /**
   * On a searchable trie, removing a stored key always reaches the unlinking
   * step: the closest node is the one holding the key, it has a parent, the
   * second lookup (of the parent's key) comes back to that parent, so the
   * assert of remove_key holds, and it finds a grandparent there too.
   */
  lemma RemoveReachesUnlink(tr: Trie, maxBit: nat, bitOf: (Key, int) -> bool, live: set<nat>, j: nat)
    requires Searchable(tr.t, maxBit, bitOf, tr.head, live) && j in live
    ensures tr.head.Link? && j < |tr.t|
    ensures var (c, p) := LookupStep(tr.t, maxBit, bitOf, tr.head.index, tr.t[j].key, Null);
            c == j && p.Link? &&
            var (p2, g) := LookupStep(tr.t, maxBit, bitOf, tr.head.index, tr.t[p.index].key, Null);
            p2 == p.index && g.Link? &&
            RemoveKeySpec(tr, maxBit, bitOf, tr.t[j].key) == Unlink(tr, maxBit, bitOf, tr.t[j].key, j, p.index, g)
  {
    var h := tr.head.index;
    StoredHasParent(tr.t, maxBit, bitOf, tr.head, live, j);
    OwnsFinds(tr.t, maxBit, bitOf, h, live, Null, j);
    var p := LookupStep(tr.t, maxBit, bitOf, h, tr.t[j].key, Null).1;
    OwnsParent(tr.t, maxBit, bitOf, h, live, Null, tr.t[j].key);
    OwnsFinds(tr.t, maxBit, bitOf, h, live, Null, p.index);
    StoredHasParent(tr.t, maxBit, bitOf, tr.head, live, p.index);
  }

  /**
   * The trie of one node, as insert_key builds it in an empty trie: bit `e`,
   * a right link to itself and no left link.
   */
  function Single(k: Key, v: string, e: int): Trie
  {
    Trie([Node(k, v, e, Null, Link(0))], Link(0))
  }

  /**
   * Removing the only key of a one-node trie empties it: the node is its own
   * parent, loses its link to itself, and the head becomes its remaining
   * (absent) child. Needs the key to read 1 at the node's bit, which holds
   * when the bit is the key's first 1 bit (or the sentinel).
   */
  lemma RemoveOnlyKey(maxBit: nat, bitOf: (Key, int) -> bool, k: Key, v: string, e: int)
    requires 0 <= e <= maxBit && bitOf(k, e)
    ensures RemoveKeySpec(Single(k, v, e), maxBit, bitOf, k) == Outcome(Trie([Node(k, v, e, Null, Null)], Null), None)
  {
    var t := Single(k, v, e).t;
    assert LookupStep(t, maxBit, bitOf, 0, k, Link(0)) == (0, Link(0));
    assert LookupStep(t, maxBit, bitOf, 0, k, Null) == (0, Link(0));
  }
  /**
   * An insertion that keeps the old keys and items and appends a node for `k`
   * leaves the live holders of any other key, and their items, as they were.
   */
  lemma KeepsHolders(t: seq<PyNode>, s: seq<PyNode>, live: set<nat>, k: Key, other: Key)
    requires other != k && Extends(t, s) && s[|t|].key == k
    ensures (exists i :: i in live + {|t|} && i < |s| && s[i].key == other) <==>
            (exists i :: i in live && i < |t| && t[i].key == other)
    ensures forall i :: i in live && i < |t| && t[i].key == other ==> s[i].key == other && s[i].item == t[i].item
  {
    if exists i :: i in live + {|t|} && i < |s| && s[i].key == other {
      var i :| i in live + {|t|} && i < |s| && s[i].key == other;
      assert i in live && i < |t| && t[i].key == other;
    }
  }
}
