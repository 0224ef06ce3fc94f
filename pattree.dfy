/**
 * The earlier draft of the Python prototype, util/pattree.py. It differs from
 * util/pattrie.py in four places: bit_set has no sentinel, so a node carries
 * bits 0..4 only; `_find_bit_diff` returns None for equal keys; insert_step has
 * no fallback for an absent left link, which it follows like any other link;
 * lookup_key does not check for an empty trie.
 */
module PatTree {
  import opened NanoTypes
  import opened TrieArena
  import opened PyTrie

  /** The largest bit a node carries. */
  const MaxBit := 4

  /** Link.bit_set: offset `off` is bit `4 - off` of the key. */
  function BitSet(bitOff: int, key: Key): (b: bool)
    requires 0 <= bitOff <= MaxBit
    ensures bitOff == 0 ==> (b <==> key >= 16)
    ensures bitOff == MaxBit ==> (b <==> key % 2 == 1)
  {
    assert Pow2(0) == 1 && Pow2(4) == 16;
    ShiftBit(key, 4 - bitOff) == 1
  }

  /** BitSet as the arena's bit function (offsets outside 0..4 are never read). */
  function Bits(): (f: (Key, int) -> bool)
    ensures forall k: Key, i :: 0 <= i <= MaxBit ==> f(k, i) == BitSet(i, k)
  {
    (k: Key, i: int) => if 0 <= i <= MaxBit then BitSet(i, k) else false
  }

  /** Two keys that read alike at offsets 0..4 are the same key. */
  lemma BitSetReadsKey(a: Key, b: Key)
    requires forall off :: 0 <= off < KeyBits ==> BitSet(off, a) == BitSet(off, b)
    ensures a == b
  {
    forall n | 0 <= n < KeyBits ensures ShiftBit(a, n) == ShiftBit(b, n) {
      assert BitSet(4 - n, a) == BitSet(4 - n, b);
    }
    KeysFromShiftBits(a, b);
  }

  /** The key 0 reads 0 at every offset. Used by DiffAt and NonZeroHasSetBit. */
  lemma ZeroReadsClear(n: nat)
    requires n <= KeyBits
    ensures forall j :: 0 <= j < n ==> !Bits()(0, j)
  {
    forall j | 0 <= j < n ensures !Bits()(0, j) {
      ShiftBitOfZero(4 - j);
    }
  }

  /** An offset below which the loop of `_find_bit_diff` saw no difference, and at which it sees one, is the first difference. */
  lemma DiffAt(key1: Key, key2: Key, b: nat)
    requires b < KeyBits
    requires forall j :: 0 <= j < b ==> BitSet(j, key1) == BitSet(j, key2)
    requires BitSet(b, key1) != BitSet(b, key2)
    ensures b == FirstDiff(Bits(), KeyBits, key1, key2, 0)
    ensures key2 == 0 ==> b == FirstSet(Bits(), KeyBits, key1, 0)
  {
    FirstDiffUnique(Bits(), KeyBits, key1, key2, b);
    if key2 == 0 {
      ZeroReadsClear(b);
      FirstSetUnique(Bits(), KeyBits, key1, b);
    }
  }

  /**
   * PatriciaTrie._find_bit_diff: the first offset in 0..4 where the keys read
   * differently; for equal keys the loop ends without a return and the result
   * is None.
   */
  method FindBitDiff(key1: Key, key2: Key) returns (bit: Option<nat>)
    ensures bit.None? <==> key1 == key2
    ensures bit.Some? ==> bit.value == FirstDiff(Bits(), KeyBits, key1, key2, 0) && bit.value <= MaxBit
    ensures bit.Some? && key2 == 0 ==> bit.value == FirstSet(Bits(), KeyBits, key1, 0)
  {
    for b := 0 to KeyBits
      invariant forall j :: 0 <= j < b ==> BitSet(j, key1) == BitSet(j, key2)
    {
      if BitSet(b, key1) != BitSet(b, key2) {
        DiffAt(key1, key2, b);
        return Some(b);
      }
    }
    BitSetReadsKey(key1, key2);
    return None;
  }

  /** A key other than 0 has a 1 bit at some offset 0..4, and FirstSet finds it. */
  lemma NonZeroHasSetBit(k: Key)
    requires k != 0
    ensures FirstSet(Bits(), KeyBits, k, 0) <= MaxBit
  {
    var e := FirstSet(Bits(), KeyBits, k, 0);
    if e == KeyBits {
      ZeroReadsClear(KeyBits);
      BitSetReadsKey(k, 0);
    }
  }

  /** Distinct keys differ at some offset 0..4. */
  lemma DistinctKeysDiffer(a: Key, b: Key)
    requires a != b
    ensures FirstDiff(Bits(), KeyBits, a, b, 0) <= MaxBit
  {
    if FirstDiff(Bits(), KeyBits, a, b, 0) == KeyBits {
      BitSetReadsKey(a, b);
    }
  }

  /**
   * PatriciaTrie.lookup_key: on an empty trie the call on the head raises
   * AttributeError; otherwise the item of the node the descent stops at, if
   * that node holds the key, else None.
   */
  function LookupKey(tr: Trie, key: Key): (r: Result<Option<string>>)
    requires TrieOk(tr, MaxBit)
    ensures r.Raised? <==> tr.head.Null?
    ensures r.Raised? ==> r.error == AttributeError
    ensures r.Ok? && r.value.Some? ==> exists i :: 0 <= i < |tr.t| && tr.t[i].key == key && tr.t[i].item == r.value.value
  {
    if tr.head.Null? then Raised(AttributeError)
    else
      var c := LookupStep(tr.t, MaxBit, Bits(), tr.head.index, key, Null).0;
      if tr.t[c].key == key then Ok(Some(tr.t[c].item)) else Ok(None)
  }

  /** lookup_key returns an item for `k`. */
  predicate Found(tr: Trie, k: Key)
    requires TrieOk(tr, MaxBit)
  {
    LookupKey(tr, k).Ok? && LookupKey(tr, k).value.Some?
  }

  /**
   * PatriciaTrie.insert_key: an empty trie gets a single node at the key's first
   * 1 bit with a right link to itself; a key the lookup finds leaves the trie as
   * it is; otherwise insert_step splices a node at the first offset where the
   * key differs from the closest stored key, and raises AttributeError if its
   * walk has to follow an absent link.
   */
  function InsertKeySpec(tr: Trie, k: Key, v: string): (r: Outcome)
    requires TrieOk(tr, MaxBit) && (tr.head.Null? ==> k != 0)
    ensures TrieOk(r.trie, MaxBit)
    ensures r.raised.Some? ==> r.trie == tr && r.raised.value == AttributeError
    ensures tr.head.Null? ==> r.raised.None?
    ensures Found(tr, k) ==> r == Outcome(tr, None)
    ensures r.raised.None? && !Found(tr, k) ==> Extends(tr.t, r.trie.t) && r.trie.t[|tr.t|].key == k && r.trie.t[|tr.t|].item == v
  {
    var t := tr.t;
    if tr.head.Null? then
      var e := FirstSet(Bits(), KeyBits, k, 0);
      NonZeroHasSetBit(k);
      Outcome(Trie(t + [Node(k, v, e, Null, Link(|t|))], Link(|t|)), None)
    else
      var c := LookupStep(t, MaxBit, Bits(), tr.head.index, k, Null).0;
      if t[c].key == k then Outcome(tr, None)
      else
        var d := FirstDiff(Bits(), KeyBits, k, t[c].key, 0);
        DistinctKeysDiffer(k, t[c].key);
        match InsertStepSpec(t, MaxBit, Bits(), false, tr.head.index, d, k, v, -1)
        case None => Outcome(tr, Some(AttributeError))
        case Some(s) => Outcome(Trie(s.t, Link(s.link)), None)
  }

  /**
   * Round trip of insert_key and lookup_key: after an insertion that returns
   * normally, the key is found, with its new item if it was absent and with
   * the item it had otherwise.
   */
  lemma InsertThenLookup(tr: Trie, k: Key, v: string)
    requires TrieOk(tr, MaxBit) && (tr.head.Null? ==> k != 0)
    ensures var r := InsertKeySpec(tr, k, v);
            r.raised.None? ==>
              LookupKey(r.trie, k) == if Found(tr, k) then LookupKey(tr, k) else Ok(Some(v))
  {
    var r := InsertKeySpec(tr, k, v);
    if tr.head.Link? && LookupKey(tr, k) == Ok(None) && r.raised.None? {
      var c := LookupStep(tr.t, MaxBit, Bits(), tr.head.index, k, Null).0;
      var d := FirstDiff(Bits(), KeyBits, k, tr.t[c].key, 0);
      DistinctKeysDiffer(k, tr.t[c].key);
      InsertStepFinds(tr.t, MaxBit, Bits(), false, tr.head.index, d, k, v, -1, Null);
    } else if tr.head.Null? {
      var e := FirstSet(Bits(), KeyBits, k, 0);
      NonZeroHasSetBit(k);
      assert Bits()(k, e);
      SelfChoiceStops(r.trie.t, MaxBit, Bits(), |tr.t|, k, Null);
    }
  }

  /** Inserting a key other than 0 into an empty trie and removing it again leaves an empty trie, without an exception. */
  lemma InsertThenRemove(k: Key, v: string)
    requires k != 0
    ensures var r := InsertKeySpec(Trie([], Null), k, v);
            RemoveKeySpec(r.trie, MaxBit, Bits(), k) == Outcome(Trie([r.trie.t[0].(r := Null)], Null), None)
  {
    var e := FirstSet(Bits(), KeyBits, k, 0);
    NonZeroHasSetBit(k);
    assert Bits()(k, e);
    RemoveOnlyKey(MaxBit, Bits(), k, v, e);
  }

  /** The trie object of util/pattree.py. */
  class PatriciaTrie {
    var head: Slot
    var nodes: seq<PyNode>

    ghost predicate Valid()
      reads this
    {
      TrieOk(Trie(nodes, head), MaxBit)
    }

    /** PatriciaTrie.__init__: no head. */
    constructor ()
      ensures Valid() && head == Null && nodes == []
    {
      head := Null;
      nodes := [];
    }

    /** Link(key, item, bit): a new node with both links None. */
    method NewLink(key: Key, item: string, bit: int) returns (n: nat)
      modifies this
      ensures nodes == old(nodes) + [Node(key, item, bit, Null, Null)] && n == |old(nodes)|
      ensures head == old(head)
    {
      n := |nodes|;
      nodes := nodes + [Node(key, item, bit, Null, Null)];
    }

    /** The first branch of insert_step: a new node at `diffBit` between the walk and `node`. */
    method SpliceAbove(node: nat, diffBit: int, newKey: Key, newItem: string, ghost parentBit: int) returns (newLink: nat)
      requires Valid() && node < |nodes| && 0 <= diffBit <= MaxBit && -1 <= parentBit <= MaxBit
      requires nodes[node].bit > diffBit || nodes[node].bit <= parentBit
      modifies this
      ensures head == old(head)
      ensures InsertStepSpec(old(nodes), MaxBit, Bits(), false, node, diffBit, newKey, newItem, parentBit)
              == Some(Spliced(nodes, newLink))
    {
      ghost var t := nodes;
      newLink := NewLink(newKey, newItem, diffBit);
      if BitSet(diffBit, newKey) {
        nodes := nodes[newLink := nodes[newLink].(r := Link(newLink))];
        nodes := nodes[newLink := nodes[newLink].(l := Link(node))];
        assert nodes == t + [Node(newKey, newItem, diffBit, Link(node), Link(newLink))];
      } else {
        nodes := nodes[newLink := nodes[newLink].(r := Link(node))];
        nodes := nodes[newLink := nodes[newLink].(l := Link(newLink))];
        assert nodes == t + [Node(newKey, newItem, diffBit, Link(newLink), Link(node))];
      }
    }

    /**
     * Link.insert_step on node `node`: returns the node to store in the link the
     * walk came through, or the AttributeError of following a `None` link
     * (nothing is changed before it). `diffKey` is passed along and not read.
     */
    method InsertStep(node: nat, diffBit: int, diffKey: Key, newKey: Key, newItem: string, parentBit: int)
      returns (link: Result<nat>)
      requires Valid() && node < |nodes| && 0 <= diffBit <= MaxBit && -1 <= parentBit <= MaxBit
      modifies this
      ensures head == old(head)
      ensures link.Raised? ==> link.error == AttributeError && nodes == old(nodes)
      ensures InsertStepSpec(old(nodes), MaxBit, Bits(), false, node, diffBit, newKey, newItem, parentBit)
              == if link.Ok? then Some(Spliced(nodes, link.value)) else None
      decreases MaxBit - parentBit
    {
      var n := nodes[node];
      if n.bit > diffBit || n.bit <= parentBit {
        var newLink := SpliceAbove(node, diffBit, newKey, newItem, parentBit);
        return Ok(newLink);
      }
      if BitSet(n.bit, newKey) {
        if n.r.Null? {
          return Raised(AttributeError);
        }
        var sub := InsertStep(n.r.index, diffBit, diffKey, newKey, newItem, n.bit);
        if sub.Raised? {
          return sub;
        }
        nodes := nodes[node := nodes[node].(r := Link(sub.value))];
      } else {
        if n.l.Null? {
          return Raised(AttributeError);
        }
        var sub := InsertStep(n.l.index, diffBit, diffKey, newKey, newItem, n.bit);
        if sub.Raised? {
          return sub;
        }
        nodes := nodes[node := nodes[node].(l := Link(sub.value))];
      }
      return Ok(node);
    }

    /** Link.link_swap, writing the fields in the order the code does. */
    method LinkSwap(grandchild: nat, child: nat, parent: Slot) returns (raised: Option<PyError>)
      requires Valid() && grandchild < |nodes| && child < |nodes| && SlotIn(nodes, parent)
      modifies this
      ensures head == old(head)
      ensures (nodes, raised) == LinkSwapSpec(old(nodes), MaxBit, grandchild, child, parent)
    {
      nodes := nodes[grandchild := nodes[grandchild].(key := nodes[child].key, item := nodes[child].item)];
      nodes := nodes[child := nodes[child].(key := DebugKey, item := DebugItem)];
      if parent.Null? {
        return Some(AttributeError);
      }
      if nodes[parent.index].l == Link(child) {
        nodes := nodes[parent.index := nodes[parent.index].(l := Link(grandchild))];
      } else {
        nodes := nodes[parent.index := nodes[parent.index].(r := Link(grandchild))];
      }
      if nodes[child].r == Link(grandchild) {
        nodes := nodes[child := nodes[child].(r := Null)];
      } else {
        nodes := nodes[child := nodes[child].(l := Null)];
      }
      return None;
    }

    /**
     * Link.reduce_link from `node`; `depth` is the number of further recursive
     * calls the walk may make before it is known to recurse forever.
     */
    method ReduceLink(node: nat, victim: nat, targetKey: Key, depth: nat) returns (raised: Option<PyError>)
      requires Valid() && node < |nodes| && victim < |nodes|
      modifies this
      ensures head == old(head)
      ensures (nodes, raised) == ReduceLinkSpec(old(nodes), MaxBit, Bits(), node, victim, targetKey, depth)
      decreases depth
    {
      var newChild := if nodes[victim].l.Link? then nodes[victim].l else nodes[victim].r;
      if nodes[node].l == Link(victim) {
        nodes := nodes[node := nodes[node].(l := newChild)];
        return None;
      } else if nodes[node].r == Link(victim) {
        nodes := nodes[node := nodes[node].(r := newChild)];
        return None;
      }
      if depth == 0 {
        return Some(RecursionError);
      }
      var next := if BitSet(nodes[node].bit, targetKey) then nodes[node].r else nodes[node].l;
      if next.Null? {
        return Some(AttributeError);
      }
      raised := ReduceLink(next.index, victim, targetKey, depth - 1);
    }

    /** PatriciaTrie.insert_key. */
    method InsertKey(newKey: Key, newItem: string) returns (raised: Option<PyError>)
      requires Valid() && (head.Null? ==> newKey != 0)
      modifies this
      ensures Outcome(Trie(nodes, head), raised) == InsertKeySpec(Trie(old(nodes), old(head)), newKey, newItem)
      ensures Valid()
    {
      if head.Null? {
        var found := FindBitDiff(newKey, 0);
        var bitDiff := found.value;
        var startLink := NewLink(newKey, newItem, bitDiff);
        nodes := nodes[startLink := nodes[startLink].(r := Link(startLink))];
        head := Link(startLink);
        assert nodes == old(nodes) + [Node(newKey, newItem, bitDiff, Null, Link(startLink))];
        return None;
      }
      var (closestLink, parentLink) := LookupStep(nodes, MaxBit, Bits(), head.index, newKey, Null);
      if nodes[closestLink].key == newKey {
        return None;
      }
      var found := FindBitDiff(newKey, nodes[closestLink].key);
      var tgtBit := found.value;
      var link := InsertStep(head.index, tgtBit, nodes[closestLink].key, newKey, newItem, -1);
      if link.Raised? {
        return Some(link.error);
      }
      head := Link(link.value);
      return None;
    }

    /** PatriciaTrie.remove_key. */
    method RemoveKey(victimKey: Key) returns (raised: Option<PyError>)
      requires Valid()
      modifies this
      ensures Outcome(Trie(nodes, head), raised) == RemoveKeySpec(Trie(old(nodes), old(head)), MaxBit, Bits(), victimKey)
      ensures Valid()
    {
      if head.Null? {
        return Some(AttributeError);
      }
      var (closestLink, parentLink) := LookupStep(nodes, MaxBit, Bits(), head.index, victimKey, Null);
      if nodes[closestLink].key != victimKey {
        return None;
      }
      if parentLink.Null? {
        return Some(AttributeError);
      }
      var (parentLink2, grandparentLink) := LookupStep(nodes, MaxBit, Bits(), head.index, nodes[parentLink.index].key, Null);
      if parentLink2 != parentLink.index {
        return Some(AssertionError);
      }
      if closestLink == parentLink.index {
        if nodes[closestLink].l == Link(closestLink) {
          nodes := nodes[closestLink := nodes[closestLink].(l := Null)];
        } else {
          nodes := nodes[closestLink := nodes[closestLink].(r := Null)];
        }
        if head == Link(closestLink) {
          head := if nodes[closestLink].l.Link? then nodes[closestLink].l else nodes[closestLink].r;
          return None;
        }
        raised := ReduceLink(head.index, closestLink, victimKey, |nodes|);
      } else {
        raised := LinkSwap(closestLink, parentLink.index, grandparentLink);
        if raised.None? {
          raised := ReduceLink(head.index, parentLink.index, victimKey, |nodes|);
        }
      }
    }
  }
  /**
   * Under the search invariant with live nodes `live`, lookup_key on a
   * non-empty trie finds a key exactly when a live node holds it, and then
   * returns that node's item.
   */
  lemma LookupFindsStored(tr: Trie, live: set<nat>, key: Key)
    requires Searchable(tr.t, MaxBit, Bits(), tr.head, live)
    ensures Found(tr, key) <==> exists i :: i in live && i < |tr.t| && tr.t[i].key == key
    ensures forall i :: i in live && i < |tr.t| && tr.t[i].key == key ==> LookupKey(tr, key) == Ok(Some(tr.t[i].item))
  {
    if tr.head.Link? {
      OwnsEnds(tr.t, MaxBit, Bits(), tr.head.index, live, Null, key);
      forall i | i in live && i < |tr.t| && tr.t[i].key == key
        ensures LookupKey(tr, key) == Ok(Some(tr.t[i].item))
      {
        OwnsFinds(tr.t, MaxBit, Bits(), tr.head.index, live, Null, i);
      }
    }
  }

  /**
   * insert_key keeps the search invariant: when it returns normally, the live
   * nodes are the old ones, plus the new node if the key was absent.
   */
  lemma InsertKeepsSearch(tr: Trie, live: set<nat>, k: Key, v: string)
    requires Searchable(tr.t, MaxBit, Bits(), tr.head, live) && (tr.head.Null? ==> k != 0)
    ensures var r := InsertKeySpec(tr, k, v);
            r.raised.None? ==>
              Searchable(r.trie.t, MaxBit, Bits(), r.trie.head, if Found(tr, k) then live else live + {|tr.t|})
  {
    var r := InsertKeySpec(tr, k, v);
    if tr.head.Null? {
      var e := FirstSet(Bits(), KeyBits, k, 0);
      NonZeroHasSetBit(k);
      assert Bits()(k, e);
      SelfOwns(r.trie.t, MaxBit, Bits(), |tr.t|, -1);
    } else if !Found(tr, k) && r.raised.None? {
      var c := LookupStep(tr.t, MaxBit, Bits(), tr.head.index, k, Null).0;
      var d := FirstDiff(Bits(), KeyBits, k, tr.t[c].key, 0);
      DistinctKeysDiffer(k, tr.t[c].key);
      InsertStepOwns(tr.t, MaxBit, Bits(), false, tr.head.index, d, k, v, Null, live);
    }
  }

  /** insert_key of one key leaves lookup_key of every other key as it was, on a trie that was not empty. */
  lemma InsertKeepsOthers(tr: Trie, live: set<nat>, k: Key, v: string, other: Key)
    requires Searchable(tr.t, MaxBit, Bits(), tr.head, live) && tr.head.Link? && other != k
    ensures var r := InsertKeySpec(tr, k, v);
            r.raised.None? ==> LookupKey(r.trie, other) == LookupKey(tr, other)
  {
    var r := InsertKeySpec(tr, k, v);
    if r.raised.None? && !Found(tr, k) {
      InsertKeepsSearch(tr, live, k, v);
      SameLookup(tr, r.trie, live, k, other);
    }
  }

  /** Two searchable tries, the second extending the first by a live node for `k`, look up every other key alike. */
  lemma SameLookup(tr: Trie, tr': Trie, live: set<nat>, k: Key, other: Key)
    requires Searchable(tr.t, MaxBit, Bits(), tr.head, live) && Searchable(tr'.t, MaxBit, Bits(), tr'.head, live + {|tr.t|})
    requires tr.head.Link? && other != k && Extends(tr.t, tr'.t) && tr'.t[|tr.t|].key == k
    ensures LookupKey(tr', other) == LookupKey(tr, other)
  {
    LookupFindsStored(tr, live, other);
    LookupFindsStored(tr', live + {|tr.t|}, other);
    KeepsHolders(tr.t, tr'.t, live, k, other);
  }
}
