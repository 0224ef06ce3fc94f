/**
 * The Python prototype util/pattrie.py: a crit-bit trie over five-bit integer
 * keys, with insertion, lookup and removal. Offset 5 is a sentinel that reads
 * as set for every key; `_find_bit_diff` returns it for equal keys, so a node
 * may carry bits 0..5.
 */
module PatTrie {
  import opened NanoTypes
  import opened TrieArena
  import opened PyTrie

  /** The largest bit a node carries: the sentinel offset. */
  const MaxBit := 5

  /** Link.bit_set: the sentinel offset 5 reads as set; offset `off` below it is bit `4 - off` of the key. */
  function BitSet(bitOff: int, key: Key): (b: bool)
    requires 0 <= bitOff <= MaxBit
    ensures bitOff == MaxBit ==> b
    ensures bitOff == 0 ==> (b <==> key >= 16)
    ensures bitOff == 4 ==> (b <==> key % 2 == 1)
  {
    assert Pow2(0) == 1 && Pow2(4) == 16;
    if bitOff == 5 then true else ShiftBit(key, 4 - bitOff) == 1
  }

  /** BitSet as the arena's bit function (offsets outside 0..5 are never read). */
  function Bits(): (f: (Key, int) -> bool)
    ensures forall k: Key, i :: 0 <= i <= MaxBit ==> f(k, i) == BitSet(i, k)
  {
    (k: Key, i: int) => if 0 <= i <= MaxBit then BitSet(i, k) else false
  }

  /** Every key reads 1 at the sentinel, and two keys that read alike at offsets 0..4 are the same key. */
  lemma BitSetReadsKey(a: Key, b: Key)
    ensures SentinelIsSet(Bits(), MaxBit)
    ensures (forall off :: 0 <= off < KeyBits ==> BitSet(off, a) == BitSet(off, b)) ==> a == b
  {
    if forall off :: 0 <= off < KeyBits ==> BitSet(off, a) == BitSet(off, b) {
      forall n | 0 <= n < KeyBits ensures ShiftBit(a, n) == ShiftBit(b, n) {
        assert BitSet(4 - n, a) == BitSet(4 - n, b);
      }
      KeysFromShiftBits(a, b);
    }
  }

  /** An offset below which the loop of `_find_bit_diff` saw no difference, and at which it sees one, is the first difference. */
  lemma DiffAt(key1: Key, key2: Key, b: nat)
    requires b < KeyBits
    requires forall j :: 0 <= j < b ==> BitSet(j, key1) == BitSet(j, key2)
    requires BitSet(b, key1) != BitSet(b, key2)
    ensures b == FirstDiff(Bits(), KeyBits, key1, key2, 0)
    ensures key2 == 0 ==> b == FirstSet(Bits(), KeyBits, key1, 0)
  {
    FirstDiffUnique(Bits(), KeyBits, key1, key2, b);
    if key2 == 0 {
      ZeroReadsClear(b);
      FirstSetUnique(Bits(), KeyBits, key1, b);
    }
  }

  /**
   * Link._find_bit_diff: the first offset in 0..4 where the keys read
   * differently, or 5 when they do not differ.
   */
  method FindBitDiff(key1: Key, key2: Key) returns (bit: nat)
    ensures bit == FirstDiff(Bits(), KeyBits, key1, key2, 0)
    ensures bit == KeyBits <==> key1 == key2
    ensures key2 == 0 ==> bit == FirstSet(Bits(), KeyBits, key1, 0)
  {
    for b := 0 to KeyBits
      invariant forall j :: 0 <= j < b ==> BitSet(j, key1) == BitSet(j, key2)
    {
      if BitSet(b, key1) != BitSet(b, key2) {
        DiffAt(key1, key2, b);
        return b;
      }
    }
    BitSetReadsKey(key1, key2);
    FirstDiffUnique(Bits(), KeyBits, key1, key2, KeyBits);
    if key2 == 0 {
      ZeroReadsClear(KeyBits);
      FirstSetUnique(Bits(), KeyBits, key1, KeyBits);
    }
    return KeyBits;
  }

  /** The key 0 reads 0 at every offset below the sentinel. Used by DiffAt and FindBitDiff. */
  lemma ZeroReadsClear(n: nat)
    requires n <= KeyBits
    ensures forall j :: 0 <= j < n ==> !Bits()(0, j)
  {
    forall j | 0 <= j < n ensures !Bits()(0, j) {
      ShiftBitOfZero(4 - j);
    }
  }

  /**
   * PatriciaTrie.lookup_key: None on an empty trie; otherwise the item of the
   * node the descent stops at, if that node holds the key.
   */
  function LookupKey(tr: Trie, key: Key): (r: Option<string>)
    requires TrieOk(tr, MaxBit)
    ensures tr.head.Null? ==> r.None?
    ensures r.Some? ==> exists i :: 0 <= i < |tr.t| && tr.t[i].key == key && tr.t[i].item == r.value
  {
    if tr.head.Null? then None
    else
      var c := LookupStep(tr.t, MaxBit, Bits(), tr.head.index, key, Null).0;
      if tr.t[c].key == key then Some(tr.t[c].item) else None
  }

  /**
   * PatriciaTrie.insert_key: an empty trie gets a single node at the key's first
   * 1 bit (the sentinel for key 0) with a right link to itself; a key the
   * lookup finds leaves the trie as it is; otherwise insert_step splices a node
   * at the first offset where the key differs from the closest stored key.
   */
  function InsertKeySpec(tr: Trie, k: Key, v: string): (r: Outcome)
    requires TrieOk(tr, MaxBit)
    ensures TrieOk(r.trie, MaxBit)
    ensures r.raised.Some? ==> r.trie == tr && r.raised.value == AttributeError
    ensures NoNullRight(tr.t) ==> r.raised.None?
    ensures LookupKey(tr, k).Some? ==> r == Outcome(tr, None)
    ensures r.raised.None? && LookupKey(tr, k).None? ==> Extends(tr.t, r.trie.t) && r.trie.t[|tr.t|].key == k && r.trie.t[|tr.t|].item == v
  {
    var t := tr.t;
    if tr.head.Null? then
      var e := FirstSet(Bits(), KeyBits, k, 0);
      Outcome(Trie(t + [Node(k, v, e, Null, Link(|t|))], Link(|t|)), None)
    else
      var c := LookupStep(t, MaxBit, Bits(), tr.head.index, k, Null).0;
      if t[c].key == k then Outcome(tr, None)
      else
        var d := FirstDiff(Bits(), KeyBits, k, t[c].key, 0);
        match InsertStepSpec(t, MaxBit, Bits(), true, tr.head.index, d, k, v, -1)
        case None => Outcome(tr, Some(AttributeError))
        case Some(s) => Outcome(Trie(s.t, Link(s.link)), None)
  }

  /**
   * Round trip of insert_key and lookup_key: after an insertion that returns
   * normally, the key is found, with its new item if it was absent and with
   * the item it had otherwise.
   */
  lemma InsertThenLookup(tr: Trie, k: Key, v: string)
    requires TrieOk(tr, MaxBit)
    ensures var r := InsertKeySpec(tr, k, v);
            r.raised.None? ==> LookupKey(r.trie, k) == if LookupKey(tr, k).Some? then LookupKey(tr, k) else Some(v)
  {
    var r := InsertKeySpec(tr, k, v);
    BitSetReadsKey(k, k);
    if tr.head.Link? && LookupKey(tr, k).None? && r.raised.None? {
      var c := LookupStep(tr.t, MaxBit, Bits(), tr.head.index, k, Null).0;
      var d := FirstDiff(Bits(), KeyBits, k, tr.t[c].key, 0);
      InsertStepFinds(tr.t, MaxBit, Bits(), true, tr.head.index, d, k, v, -1, Null);
    } else if tr.head.Null? {
      var e := FirstSet(Bits(), KeyBits, k, 0);
      assert Bits()(k, e);
      SelfChoiceStops(r.trie.t, MaxBit, Bits(), |tr.t|, k, Null);
    }
  }

  /** Inserting a key into an empty trie and removing it again leaves an empty trie, without an exception. */
  lemma InsertThenRemove(k: Key, v: string)
    ensures var r := InsertKeySpec(Trie([], Null), k, v);
            RemoveKeySpec(r.trie, MaxBit, Bits(), k) == Outcome(Trie([r.trie.t[0].(r := Null)], Null), None)
  {
    var e := FirstSet(Bits(), KeyBits, k, 0);
    BitSetReadsKey(k, k);
    assert Bits()(k, e);
    RemoveOnlyKey(MaxBit, Bits(), k, v, e);
  }

  /** Offsets 0..4 of the keys 1 and 2 as bit_set reads them. */
  lemma OneTwoBits()
    ensures !Bits()(1, 0) && !Bits()(1, 1) && !Bits()(1, 2) && !Bits()(1, 3) && Bits()(1, 4)
    ensures !Bits()(2, 0) && !Bits()(2, 1) && !Bits()(2, 2) && Bits()(2, 3) && !Bits()(2, 4)
  {
    assert Pow2(0) == 1 && Pow2(1) == 2 && Pow2(2) == 4 && Pow2(3) == 8 && Pow2(4) == 16;
  }

  /** The arenas of the example below: after inserting 1, after inserting 2, after removing 1. */
  function OneArena(): seq<PyNode> { [Node(1, "a", 4, Null, Link(0))] }
  function OneTwoArena(): seq<PyNode> { OneArena() + [Node(2, "b", 3, Link(0), Link(1))] }
  function TwoLeftArena(): seq<PyNode> { [Node(1, "a", 4, Null, Null), Node(2, "b", 3, Null, Link(1))] }

  /** Key 1 goes into the empty trie at offset 4, its first 1 bit, with a right link to itself. */
  lemma InsertOne()
    ensures InsertKeySpec(Trie([], Null), 1, "a") == Outcome(Trie(OneArena(), Link(0)), None)
  {
    OneTwoBits();
    assert FirstSet(Bits(), KeyBits, 1, 0) == 4;
  }

  /**
   * Key 2 first differs from 1 at offset 3, so a node for 2 at offset 3 is
   * spliced above 1 and becomes the head, with 1 on its left.
   */
  lemma InsertTwo()
    ensures InsertKeySpec(Trie(OneArena(), Link(0)), 2, "b") == Outcome(Trie(OneTwoArena(), Link(1)), None)
  {
    OneTwoBits();
    assert LookupStep(OneArena(), MaxBit, Bits(), 0, 2, Null) == (0, Null);
    assert FirstDiff(Bits(), KeyBits, 2, 1, 0) == 3;
    assert InsertStepSpec(OneArena(), MaxBit, Bits(), true, 0, 3, 2, "b", -1) == Some(Spliced(OneTwoArena(), 1));
  }

  /** The descent of 1 goes left from the head and comes back to 1 over its self-link: 1 is its own parent. */
  lemma OneIsOwnParent()
    ensures LookupStep(OneTwoArena(), MaxBit, Bits(), 1, 1, Null) == (0, Link(0))
  {
    OneTwoBits();
    assert LookupStep(OneTwoArena(), MaxBit, Bits(), 0, 1, Link(0)) == (0, Link(0));
    assert LookupStep(OneTwoArena(), MaxBit, Bits(), 0, 1, Link(1)) == (0, Link(0));
  }

  /** Removing 1: it drops its self-link, and reduce_link from the head clears the head's left link. */
  lemma RemoveOne()
    ensures RemoveKeySpec(Trie(OneTwoArena(), Link(1)), MaxBit, Bits(), 1) == Outcome(Trie(TwoLeftArena(), Link(1)), None)
  {
    OneIsOwnParent();
    var t := OneTwoArena();
    var t1 := t[0 := t[0].(r := Null)];
    assert t1[1].l == Link(0) && Replacement(t1, 0) == Null;
    assert t1[1 := t1[1].(l := Null)] == TwoLeftArena();
  }

  /** After the removal, the descent of 2 goes right from the head and comes back to it over its self-link. */
  lemma TwoStaysFound()
    ensures LookupKey(Trie(TwoLeftArena(), Link(1)), 2) == Some("b")
  {
    OneTwoBits();
    var t := TwoLeftArena();
    assert LookupStep(t, MaxBit, Bits(), 1, 2, Link(1)) == (1, Link(1));
    assert LookupStep(t, MaxBit, Bits(), 1, 2, Null) == (1, Link(1));
  }

  /** After the removal, the descent of 1 stops at the head, whose left link is gone. */
  lemma OneIsGone()
    ensures LookupKey(Trie(TwoLeftArena(), Link(1)), 1) == None
  {
    OneTwoBits();
    assert LookupStep(TwoLeftArena(), MaxBit, Bits(), 1, 1, Null) == (1, Null);
  }

  /**
   * Insert 1 and then 2 into an empty trie and remove 1: nothing raises, 2 is
   * still found with its item and 1 is no longer found.
   */
  lemma RemoveOneOfTwo()
    ensures var r1 := InsertKeySpec(Trie([], Null), 1, "a");
            var r2 := InsertKeySpec(r1.trie, 2, "b");
            var r3 := RemoveKeySpec(r2.trie, MaxBit, Bits(), 1);
            r1.raised.None? && r2.raised.None? && r3.raised.None? &&
            LookupKey(r3.trie, 2) == Some("b") && LookupKey(r3.trie, 1) == None
  {
    InsertOne();
    InsertTwo();
    RemoveOne();
    TwoStaysFound();
    OneIsGone();
  }

  /** Distinct keys differ below the sentinel. */
  lemma DistinctKeysDiffer(a: Key, b: Key)
    requires a != b
    ensures FirstDiff(Bits(), KeyBits, a, b, 0) < KeyBits
  {
    if FirstDiff(Bits(), KeyBits, a, b, 0) == KeyBits {
      BitSetReadsKey(a, b);
    }
  }

  /**
   * Under the search invariant with live nodes `live`, lookup_key finds a key
   * exactly when a live node holds it, and then returns that node's item.
   */
  lemma LookupFindsStored(tr: Trie, live: set<nat>, key: Key)
    requires Searchable(tr.t, MaxBit, Bits(), tr.head, live)
    ensures LookupKey(tr, key).Some? <==> exists i :: i in live && i < |tr.t| && tr.t[i].key == key
    ensures forall i :: i in live && i < |tr.t| && tr.t[i].key == key ==> LookupKey(tr, key) == Some(tr.t[i].item)
  {
    if tr.head.Link? {
      OwnsEnds(tr.t, MaxBit, Bits(), tr.head.index, live, Null, key);
      forall i | i in live && i < |tr.t| && tr.t[i].key == key
        ensures LookupKey(tr, key) == Some(tr.t[i].item)
      {
        OwnsFinds(tr.t, MaxBit, Bits(), tr.head.index, live, Null, i);
      }
    }
  }

  /**
   * insert_key keeps the search invariant: when it returns normally, the live
   * nodes are the old ones, plus the new node if the key was absent.
   */
  lemma InsertKeepsSearch(tr: Trie, live: set<nat>, k: Key, v: string)
    requires Searchable(tr.t, MaxBit, Bits(), tr.head, live)
    ensures var r := InsertKeySpec(tr, k, v);
            r.raised.None? ==>
              Searchable(r.trie.t, MaxBit, Bits(), r.trie.head, if LookupKey(tr, k).Some? then live else live + {|tr.t|})
  {
    var r := InsertKeySpec(tr, k, v);
    if tr.head.Null? {
      var e := FirstSet(Bits(), KeyBits, k, 0);
      BitSetReadsKey(k, k);
      assert Bits()(k, e);
      SelfOwns(r.trie.t, MaxBit, Bits(), |tr.t|, -1);
    } else if LookupKey(tr, k).None? && r.raised.None? {
      var c := LookupStep(tr.t, MaxBit, Bits(), tr.head.index, k, Null).0;
      var d := FirstDiff(Bits(), KeyBits, k, tr.t[c].key, 0);
      BitSetReadsKey(k, k);
      DistinctKeysDiffer(k, tr.t[c].key);
      InsertStepOwns(tr.t, MaxBit, Bits(), true, tr.head.index, d, k, v, Null, live);
    }
  }

  /** insert_key of one key leaves lookup_key of every other key as it was. */
  lemma InsertKeepsOthers(tr: Trie, live: set<nat>, k: Key, v: string, other: Key)
    requires Searchable(tr.t, MaxBit, Bits(), tr.head, live) && other != k
    ensures var r := InsertKeySpec(tr, k, v);
            r.raised.None? ==> LookupKey(r.trie, other) == LookupKey(tr, other)
  {
    var r := InsertKeySpec(tr, k, v);
    if r.raised.None? && LookupKey(tr, k).None? {
      InsertKeepsSearch(tr, live, k, v);
      LookupFindsStored(tr, live, other);
      LookupFindsStored(r.trie, live + {|tr.t|}, other);
      KeepsHolders(tr.t, r.trie.t, live, k, other);
    }
  }

  /** The trie object of util/pattrie.py. */
  class PatriciaTrie {
    var head: Slot
    var nodes: seq<PyNode>

    ghost predicate Valid()
      reads this
    {
      TrieOk(Trie(nodes, head), MaxBit)
    }

    /** PatriciaTrie.__init__: no head. */
    constructor ()
      ensures Valid() && head == Null && nodes == []
    {
      head := Null;
      nodes := [];
    }

    /** Link(key, item, bit): a new node with both links None. */
    method NewLink(key: Key, item: string, bit: int) returns (n: nat)
      modifies this
      ensures nodes == old(nodes) + [Node(key, item, bit, Null, Null)] && n == |old(nodes)|
      ensures head == old(head)
    {
      n := |nodes|;
      nodes := nodes + [Node(key, item, bit, Null, Null)];
    }

    /** The first branch of insert_step: a new node at `diffBit` between the walk and `node`. */
    method SpliceAbove(node: nat, diffBit: int, newKey: Key, newItem: string, ghost parentBit: int) returns (newLink: nat)
      requires Valid() && node < |nodes| && 0 <= diffBit <= MaxBit && -1 <= parentBit <= MaxBit
      requires nodes[node].bit > diffBit || nodes[node].bit <= parentBit
      modifies this
      ensures head == old(head)
      ensures InsertStepSpec(old(nodes), MaxBit, Bits(), true, node, diffBit, newKey, newItem, parentBit)
              == Some(Spliced(nodes, newLink))
    {
      ghost var t := nodes;
      newLink := NewLink(newKey, newItem, diffBit);
      if BitSet(diffBit, newKey) {
        nodes := nodes[newLink := nodes[newLink].(r := Link(newLink))];
        nodes := nodes[newLink := nodes[newLink].(l := Link(node))];
        assert nodes == t + [Node(newKey, newItem, diffBit, Link(node), Link(newLink))];
      } else {
        nodes := nodes[newLink := nodes[newLink].(r := Link(node))];
        nodes := nodes[newLink := nodes[newLink].(l := Link(newLink))];
        assert nodes == t + [Node(newKey, newItem, diffBit, Link(newLink), Link(node))];
      }
    }

    /** The fallback of insert_step: an absent left link gets a new node at the new key's first 1 bit. */
    method FillLeft(node: nat, diffBit: int, newKey: Key, newItem: string, ghost parentBit: int)
      requires Valid() && node < |nodes| && 0 <= diffBit <= MaxBit && -1 <= parentBit <= MaxBit
      requires parentBit < nodes[node].bit <= diffBit
      requires !BitSet(nodes[node].bit, newKey) && nodes[node].l.Null?
      modifies this
      ensures head == old(head)
      ensures InsertStepSpec(old(nodes), MaxBit, Bits(), true, node, diffBit, newKey, newItem, parentBit)
              == Some(Spliced(nodes, node))
    {
      ghost var t := nodes;
      ghost var n := nodes[node];
      var newBitDiff := FindBitDiff(newKey, 0);
      var newLink := NewLink(newKey, newItem, newBitDiff);
      nodes := nodes[newLink := nodes[newLink].(r := Link(newLink))];
      nodes := nodes[newLink := nodes[newLink].(l := Null)];
      nodes := nodes[node := nodes[node].(l := Link(newLink))];
      assert nodes == (t + [Node(newKey, newItem, newBitDiff, Null, Link(newLink))])[node := n.(l := Link(newLink))];
    }

    /**
     * Link.insert_step on node `node`: returns the node to store in the link the
     * walk came through, or the AttributeError of following a `None` right link
     * (nothing is changed before it). `diffKey` is passed along and not read.
     */
    method InsertStep(node: nat, diffBit: int, diffKey: Key, newKey: Key, newItem: string, parentBit: int)
      returns (link: Result<nat>)
      requires Valid() && node < |nodes| && 0 <= diffBit <= MaxBit && -1 <= parentBit <= MaxBit
      modifies this
      ensures head == old(head)
      ensures link.Raised? ==> link.error == AttributeError && nodes == old(nodes)
      ensures InsertStepSpec(old(nodes), MaxBit, Bits(), true, node, diffBit, newKey, newItem, parentBit)
              == if link.Ok? then Some(Spliced(nodes, link.value)) else None
      decreases MaxBit - parentBit
    {
      var n := nodes[node];
      if n.bit > diffBit || n.bit <= parentBit {
        var newLink := SpliceAbove(node, diffBit, newKey, newItem, parentBit);
        return Ok(newLink);
      }
      if BitSet(n.bit, newKey) {
        if n.r.Null? {
          return Raised(AttributeError);
        }
        var sub := InsertStep(n.r.index, diffBit, diffKey, newKey, newItem, n.bit);
        if sub.Raised? {
          return sub;
        }
        nodes := nodes[node := nodes[node].(r := Link(sub.value))];
      } else if n.l.Link? {
        var sub := InsertStep(n.l.index, diffBit, diffKey, newKey, newItem, n.bit);
        if sub.Raised? {
          return sub;
        }
        nodes := nodes[node := nodes[node].(l := Link(sub.value))];
      } else {
        FillLeft(node, diffBit, newKey, newItem, parentBit);
      }
      return Ok(node);
    }

    /** Link.link_swap, writing the fields in the order the code does. */
    method LinkSwap(grandchild: nat, child: nat, parent: Slot) returns (raised: Option<PyError>)
      requires Valid() && grandchild < |nodes| && child < |nodes| && SlotIn(nodes, parent)
      modifies this
      ensures head == old(head)
      ensures (nodes, raised) == LinkSwapSpec(old(nodes), MaxBit, grandchild, child, parent)
    {
      nodes := nodes[grandchild := nodes[grandchild].(key := nodes[child].key, item := nodes[child].item)];
      nodes := nodes[child := nodes[child].(key := DebugKey, item := DebugItem)];
      if parent.Null? {
        return Some(AttributeError);
      }
      if nodes[parent.index].l == Link(child) {
        nodes := nodes[parent.index := nodes[parent.index].(l := Link(grandchild))];
      } else {
        nodes := nodes[parent.index := nodes[parent.index].(r := Link(grandchild))];
      }
      if nodes[child].r == Link(grandchild) {
        nodes := nodes[child := nodes[child].(r := Null)];
      } else {
        nodes := nodes[child := nodes[child].(l := Null)];
      }
      return None;
    }

    /**
     * Link.reduce_link from `node`; `depth` is the number of further recursive
     * calls the walk may make before it is known to recurse forever.
     */
    method ReduceLink(node: nat, victim: nat, targetKey: Key, depth: nat) returns (raised: Option<PyError>)
      requires Valid() && node < |nodes| && victim < |nodes|
      modifies this
      ensures head == old(head)
      ensures (nodes, raised) == ReduceLinkSpec(old(nodes), MaxBit, Bits(), node, victim, targetKey, depth)
      decreases depth
    {
      var newChild := if nodes[victim].l.Link? then nodes[victim].l else nodes[victim].r;
      if nodes[node].l == Link(victim) {
        nodes := nodes[node := nodes[node].(l := newChild)];
        return None;
      } else if nodes[node].r == Link(victim) {
        nodes := nodes[node := nodes[node].(r := newChild)];
        return None;
      }
      if depth == 0 {
        return Some(RecursionError);
      }
      var next := if BitSet(nodes[node].bit, targetKey) then nodes[node].r else nodes[node].l;
      if next.Null? {
        return Some(AttributeError);
      }
      raised := ReduceLink(next.index, victim, targetKey, depth - 1);
    }

    /** PatriciaTrie.insert_key. */
    method InsertKey(newKey: Key, newItem: string) returns (raised: Option<PyError>)
      requires Valid()
      modifies this
      ensures Outcome(Trie(nodes, head), raised) == InsertKeySpec(Trie(old(nodes), old(head)), newKey, newItem)
      ensures Valid()
    {
      if head.Null? {
        var bitDiff := FindBitDiff(newKey, 0);
        var startLink := NewLink(newKey, newItem, bitDiff);
        nodes := nodes[startLink := nodes[startLink].(r := Link(startLink))];
        head := Link(startLink);
        assert nodes == old(nodes) + [Node(newKey, newItem, bitDiff, Null, Link(startLink))];
        return None;
      }
      var (closestLink, parentLink) := LookupStep(nodes, MaxBit, Bits(), head.index, newKey, Null);
      if nodes[closestLink].key == newKey {
        return None;
      }
      var tgtBit := FindBitDiff(newKey, nodes[closestLink].key);
      var link := InsertStep(head.index, tgtBit, nodes[closestLink].key, newKey, newItem, -1);
      if link.Raised? {
        return Some(link.error);
      }
      head := Link(link.value);
      return None;
    }

    /** PatriciaTrie.remove_key. */
    method RemoveKey(victimKey: Key) returns (raised: Option<PyError>)
      requires Valid()
      modifies this
      ensures Outcome(Trie(nodes, head), raised) == RemoveKeySpec(Trie(old(nodes), old(head)), MaxBit, Bits(), victimKey)
      ensures Valid()
    {
      if head.Null? {
        return Some(AttributeError);
      }
      var (closestLink, parentLink) := LookupStep(nodes, MaxBit, Bits(), head.index, victimKey, Null);
      if nodes[closestLink].key != victimKey {
        return None;
      }
      if parentLink.Null? {
        return Some(AttributeError);
      }
      var (parentLink2, grandparentLink) := LookupStep(nodes, MaxBit, Bits(), head.index, nodes[parentLink.index].key, Null);
      if parentLink2 != parentLink.index {
        return Some(AssertionError);
      }
      if closestLink == parentLink.index {
        if nodes[closestLink].l == Link(closestLink) {
          nodes := nodes[closestLink := nodes[closestLink].(l := Null)];
        } else {
          nodes := nodes[closestLink := nodes[closestLink].(r := Null)];
        }
        if head == Link(closestLink) {
          head := if nodes[closestLink].l.Link? then nodes[closestLink].l else nodes[closestLink].r;
          return None;
        }
        raised := ReduceLink(head.index, closestLink, victimKey, |nodes|);
      } else {
        raised := LinkSwap(closestLink, parentLink.index, grandparentLink);
        if raised.None? {
          raised := ReduceLink(head.index, parentLink.index, victimKey, |nodes|);
        }
      }
    }
  }
}
