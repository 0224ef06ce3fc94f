/**
 * The C table of src/table.c: a crit-bit trie over keys of `keySize` bytes and
 * values of `valueSize` bytes. Nodes live in the arena of module TrieArena;
 * `allocNode` appends to it and always succeeds.
 *
 * Bits are numbered from the most significant bit of byte 0. The C `bitSet`
 * reads only inside the key; the table model reads bit `keySize * 8` (the
 * "no difference" value of `findBitDiff`) as 1, the convention of the Python
 * prototype. `KeyBit` is that corrected reading.
 */
module NanoTable {
  import opened TrieArena
  import opened NanoTypes

  type TableNode = Node<seq<bv8>, seq<bv8>>

  /** The mask of findBitDiff for bit `m` of a byte (0 is the top bit): `0x80 >> m`. */
  function Mask(m: nat): (b: bv8)
    requires m < 8
  {
    if m == 0 then 0x80 else if m == 1 then 0x40 else if m == 2 then 0x20 else if m == 3 then 0x10
    else if m == 4 then 0x08 else if m == 5 then 0x04 else if m == 6 then 0x02 else 0x01
  }

  /** Bit `m` of a byte, counted from the top, as findBitDiff's mask selects it. */
  predicate MaskBit(x: bv8, m: nat)
    requires m < 8
  {
    x & Mask(m) != 0
  }

  /**
   * Shifting the mask of bit `m` right by one gives the mask of bit `m + 1`.
   * Used by ScanByte's loop.
   */
  lemma MaskShift(m: nat)
    requires m < 7
    ensures Mask(m) >> 1 == Mask(m + 1)
  {
  }

  /** Shifting bit `7 - m` down and masking with 1 reads the bit that Mask(m) selects. */
  lemma ShiftReadsMaskBit(x: bv8, m: nat)
    requires m < 8
    ensures ((x >> (7 - m)) & 1 == 1) == MaskBit(x, m)
  {
    if m == 0 { assert x >> 7 == x >> 7 as bv8; }
  }

  /**
   * Comparing two bytes under a one-bit mask compares their mask bits. Used by
   * KeysFromBits, PrefixAgrees and FoundDiff.
   */
  lemma MaskedBytesDiffer(x: bv8, y: bv8, m: nat)
    requires m < 8
    ensures (x & Mask(m) != y & Mask(m)) == (MaskBit(x, m) != MaskBit(y, m))
  {
  }

  /** Bit `m` of byte `b` of a key is bit `8 * b + m` of the key. */
  lemma BitOfByte(key: seq<bv8>, b: nat, m: nat)
    requires b < |key| && m < 8
    ensures BitSet(8 * b + m, key) == MaskBit(key[b], m)
  {
    var i := 8 * b + m;
    assert i / 8 == b && i % 8 == m;
    ShiftReadsMaskBit(key[b], m);
  }

  /** bitSet: bit `7 - bitOff % 8` of byte `bitOff / 8`, i.e. the same bit that findBitDiff's mask `0x80 >> bitOff % 8` selects. */
  function BitSet(bitOff: nat, key: seq<bv8>): (b: bool)
    requires bitOff < 8 * |key|
    ensures b == MaskBit(key[bitOff / 8], bitOff % 8)
  {
    ShiftReadsMaskBit(key[bitOff / 8], bitOff % 8);
    (key[bitOff / 8] >> (7 - bitOff % 8)) & 1 == 1
  }

  /**
   * The bit reading of the table model: bitSet inside the key, 1 from offset
   * `keySize * 8` on, where the C bitSet would read past the key.
   */
  function KeyBit(keySize: nat, key: seq<bv8>, i: int): (b: bool)
    ensures 8 * keySize <= i ==> b
    ensures 0 <= i < 8 * keySize && |key| == keySize ==> b == MaskBit(key[i / 8], i % 8)
  {
    if 0 <= i < 8 * keySize && i < 8 * |key| then BitSet(i, key) else true
  }

  function Bits(keySize: nat): (f: (seq<bv8>, int) -> bool)
    ensures forall key, i :: f(key, i) == KeyBit(keySize, key, i)
  {
    (key, i) => KeyBit(keySize, key, i)
  }

  function Zeros(n: nat): (z: seq<bv8>)
    ensures |z| == n && forall j :: 0 <= j < n ==> z[j] == 0
  {
    seq(n, _ => 0)
  }

  /** The second key of findBitDiff: a NULL pointer reads as all-zero bytes. */
  function OrZeros(keySize: nat, key2: Option<seq<bv8>>): seq<bv8>
  {
    if key2.Some? then key2.value else Zeros(keySize)
  }

  /**
   * Every key reads 1 at offset `keySize * 8`, the offset findBitDiff returns
   * for equal keys. Used by InsertThenPeek, InsertEmptyInv and SpliceInv.
   */
  lemma SentinelReadsOne(keySize: nat)
    ensures SentinelIsSet(Bits(keySize), 8 * keySize)
  {
    forall k: seq<bv8> ensures Bits(keySize)(k, 8 * keySize) {
    }
  }

  /** A byte is determined by its eight mask bits. */
  lemma ByteFromBits(x: bv8, y: bv8)
    requires forall m :: 0 <= m < 8 ==> x & Mask(m) == y & Mask(m)
    ensures x == y
  {
    assert x & Mask(0) == y & Mask(0) && x & Mask(1) == y & Mask(1);
    assert x & Mask(2) == y & Mask(2) && x & Mask(3) == y & Mask(3);
    assert x & Mask(4) == y & Mask(4) && x & Mask(5) == y & Mask(5);
    assert x & Mask(6) == y & Mask(6) && x & Mask(7) == y & Mask(7);
  }

  /** Two keys of one length that agree on every bit are equal. */
  lemma {:induction false} KeysFromBits(a: seq<bv8>, b: seq<bv8>)
    requires |a| == |b|
    requires forall i :: 0 <= i < 8 * |a| ==> BitSet(i, a) == BitSet(i, b)
    ensures a == b
  {
    forall j | 0 <= j < |a| ensures a[j] == b[j] {
      forall m | 0 <= m < 8 ensures a[j] & Mask(m) == b[j] & Mask(m) {
        BitOfByte(a, j, m);
        BitOfByte(b, j, m);
        assert BitSet(8 * j + m, a) == BitSet(8 * j + m, b);
        MaskedBytesDiffer(a[j], b[j], m);
      }
      ByteFromBits(a[j], b[j]);
    }
  }

  /** The two keys agree on every bit below `n`. */
  predicate AgreeBelow(key1: seq<bv8>, key2: seq<bv8>, n: nat)
    requires n <= 8 * |key1| && n <= 8 * |key2|
  {
    forall i :: 0 <= i < n ==> BitSet(i, key1) == BitSet(i, key2)
  }

  /** Keys with the same first `b` bytes, whose byte `b` agrees on its top `m` bits, agree on their first `8 * b + m` bits. */
  lemma {:induction false} PrefixAgrees(key1: seq<bv8>, key2: seq<bv8>, b: nat, m: nat)
    requires b < |key1| == |key2| && m <= 8
    requires key1[..b] == key2[..b]
    requires forall j :: 0 <= j < m ==> key1[b] & Mask(j) == key2[b] & Mask(j)
    ensures AgreeBelow(key1, key2, 8 * b + m)
  {
    forall i | 0 <= i < 8 * b + m ensures BitSet(i, key1) == BitSet(i, key2) {
      var j, q := i / 8, i % 8;
      assert i == 8 * j + q;
      BitOfByte(key1, j, q);
      BitOfByte(key2, j, q);
      MaskedBytesDiffer(key1[j], key2[j], q);
      if j < b {
        assert key1[j] == key1[..b][j];
      }
    }
  }

  /**
   * What findBitDiff's scan has established when it stops at bit `m` of byte `b`:
   * the first difference of the two keys is bit `8 * b + m`.
   */
  lemma FoundDiff(keySize: nat, key1: seq<bv8>, key2: Option<seq<bv8>>, b: nat, m: nat, x: bv8, y: bv8, d: nat)
    requires |key1| == keySize && (key2.Some? ==> |key2.value| == keySize)
    requires b < keySize && m < 8 && d == 8 * b + m
    requires key1[..b] == OrZeros(keySize, key2)[..b] && x == key1[b] && y == OrZeros(keySize, key2)[b]
    requires forall j :: 0 <= j < m ==> x & Mask(j) == y & Mask(j)
    requires x & Mask(m) != y & Mask(m)
    ensures d == FirstDiff(Bits(keySize), 8 * keySize, key1, OrZeros(keySize, key2), 0)
    ensures d != 8 * keySize && key1 != OrZeros(keySize, key2)
    ensures key2.None? ==> d == FirstSet(Bits(keySize), 8 * keySize, key1, 0)
  {
    var other := OrZeros(keySize, key2);
    MaskedBytesDiffer(x, y, m);
    PrefixAgrees(key1, other, b, m);
    BitOfByte(key1, b, m);
    BitOfByte(other, b, m);
    FindBitDiffFacts(keySize, key1, key2, d);
  }

  /** What the characterisation of findBitDiff's result implies: equality exactly at keySize*8, and the generic first difference. */
  lemma FindBitDiffFacts(keySize: nat, key1: seq<bv8>, key2: Option<seq<bv8>>, d: nat)
    requires |key1| == keySize && (key2.Some? ==> |key2.value| == keySize)
    requires d <= 8 * keySize
    requires AgreeBelow(key1, OrZeros(keySize, key2), d)
    requires d < 8 * keySize ==> BitSet(d, key1) != BitSet(d, OrZeros(keySize, key2))
    ensures d == 8 * keySize <==> key1 == OrZeros(keySize, key2)
    ensures d == FirstDiff(Bits(keySize), 8 * keySize, key1, OrZeros(keySize, key2), 0)
    ensures key2.None? ==> d == FirstSet(Bits(keySize), 8 * keySize, key1, 0)
  {
    var other := OrZeros(keySize, key2);
    if d == 8 * keySize {
      KeysFromBits(key1, other);
    }
    FirstDiffUnique(Bits(keySize), 8 * keySize, key1, other, d);
    if key2.None? {
      forall i | 0 <= i < d ensures !Bits(keySize)(key1, i) {
        assert !BitSet(i, other);
      }
      if d < 8 * keySize {
        assert !BitSet(d, other);
      }
      FirstSetUnique(Bits(keySize), 8 * keySize, key1, d);
    }
  }

  /**
   * Equal keys: findBitDiff's "no difference" value is the first difference.
   * Used by FindBitDiff and ZeroKeyHeadOutsideKey.
   */
  lemma NoDiff(keySize: nat, key1: seq<bv8>, key2: Option<seq<bv8>>)
    requires |key1| == keySize && key1 == OrZeros(keySize, key2)
    ensures 8 * keySize == FirstDiff(Bits(keySize), 8 * keySize, key1, OrZeros(keySize, key2), 0)
    ensures key2.None? ==> 8 * keySize == FirstSet(Bits(keySize), 8 * keySize, key1, 0)
  {
    FindBitDiffFacts(keySize, key1, key2, 8 * keySize);
  }

  /**
   * The inner loop of findBitDiff over one byte of each key: the mask starts at
   * the top bit and shifts right; the scan stops at the first bit where the
   * masked bytes differ, or after all eight.
   */
  method ScanByte(curByte1: bv8, curByte2: bv8) returns (innerBitOffset: nat)
    ensures innerBitOffset <= 8
    ensures forall j :: 0 <= j < innerBitOffset ==> curByte1 & Mask(j) == curByte2 & Mask(j)
    ensures innerBitOffset < 8 ==> curByte1 & Mask(innerBitOffset) != curByte2 & Mask(innerBitOffset)
  {
    var curByteMask: bv8 := 0x80;
    innerBitOffset := 0;
    while innerBitOffset < 8
      invariant innerBitOffset <= 8
      invariant innerBitOffset < 8 ==> curByteMask == Mask(innerBitOffset)
      invariant forall j :: 0 <= j < innerBitOffset ==> curByte1 & Mask(j) == curByte2 & Mask(j)
    {
      if curByte1 & curByteMask != curByte2 & curByteMask {
        return;
      }
      if innerBitOffset < 7 {
        MaskShift(innerBitOffset);
      }
      curByteMask := curByteMask >> 1;
      innerBitOffset := innerBitOffset + 1;
    }
  }

  /** Keys that agree on their first `b` bytes, and whose bytes `b` agree under all eight masks, agree on `b + 1` bytes. */
  lemma NextByteAgrees(key1: seq<bv8>, key2: seq<bv8>, b: nat, x: bv8, y: bv8)
    requires b < |key1| && b < |key2| && key1[..b] == key2[..b] && x == key1[b] && y == key2[b]
    requires forall m :: 0 <= m < 8 ==> x & Mask(m) == y & Mask(m)
    ensures key1[..b + 1] == key2[..b + 1]
  {
    ByteFromBits(x, y);
    assert key1[..b + 1] == key1[..b] + [x];
    assert key2[..b + 1] == key2[..b] + [y];
  }

  /**
   * findBitDiff: scans the bytes in order and each byte from its top bit, and
   * returns the first bit number where the keys differ, or `keySize * 8` when
   * they do not; a missing second key reads as zero bytes.
   */
  method FindBitDiff(keySize: nat, key1: seq<bv8>, key2: Option<seq<bv8>>) returns (d: nat)
    requires |key1| == keySize && (key2.Some? ==> |key2.value| == keySize)
    ensures d == FirstDiff(Bits(keySize), 8 * keySize, key1, OrZeros(keySize, key2), 0)
    ensures d == 8 * keySize <==> key1 == OrZeros(keySize, key2)
    ensures key2.None? ==> d == FirstSet(Bits(keySize), 8 * keySize, key1, 0)
  {
    ghost var other := OrZeros(keySize, key2);
    var byteOffset := 0;
    while byteOffset < keySize
      invariant byteOffset <= keySize
      invariant key1[..byteOffset] == other[..byteOffset]
    {
      var curByte1 := key1[byteOffset];
      var curByte2: bv8 := if key2.Some? then key2.value[byteOffset] else 0;
      assert curByte2 == other[byteOffset];
      var innerBitOffset := ScanByte(curByte1, curByte2);
      if innerBitOffset < 8 {
        d := byteOffset * 8 + innerBitOffset;
        FoundDiff(keySize, key1, key2, byteOffset, innerBitOffset, curByte1, curByte2, d);
        return;
      }
      NextByteAgrees(key1, other, byteOffset, curByte1, curByte2);
      byteOffset := byteOffset + 1;
    }
    assert key1 == key1[..keySize] && other == other[..keySize];
    d := keySize * 8;
    NoDiff(keySize, key1, key2);
  }

  /** The shape of the table: a well-formed arena of keySize-byte keys and valueSize-byte values, no absent right child. */
  predicate TableShape(keySize: nat, valueSize: nat, t: seq<TableNode>, head: Slot)
  {
    WellFormed(t, 8 * keySize) && NoNullRight(t) && SlotIn(t, head) && (head.Null? ==> t == []) &&
    forall i :: 0 <= i < |t| ==> |t[i].key| == keySize && |t[i].item| == valueSize
  }

  /** The node the lookup of `key` stops at, from the head. */
  function Closest(keySize: nat, t: seq<TableNode>, head: Slot, key: seq<bv8>): (c: nat)
    requires WellFormed(t, 8 * keySize) && head.Link? && head.index < |t|
    ensures c < |t|
  {
    LookupStep(t, 8 * keySize, Bits(keySize), head.index, key, Null).0
  }

  /**
   * nTablePeek: NotFound on an empty table or when the closest node's key is not
   * the search key, in which case `dataOut` is left as it was; otherwise the
   * stored value.
   */
  function PeekSpec(keySize: nat, t: seq<TableNode>, head: Slot, key: seq<bv8>, dataOut: seq<bv8>): (r: (Status, seq<bv8>))
    requires WellFormed(t, 8 * keySize) && SlotIn(t, head)
    ensures r.0 == Success || r.0 == NotFound
    ensures r.0 == NotFound ==> r.1 == dataOut
    ensures head.Null? ==> r.0 == NotFound
    ensures r.0 == Success ==> exists i :: 0 <= i < |t| && t[i].key == key && t[i].item == r.1
  {
    if head.Null? then (NotFound, dataOut)
    else
      var c := Closest(keySize, t, head, key);
      if t[c].key != key then (NotFound, dataOut) else (Success, t[c].item)
  }

  /** An insertion step that added a node with a key and value of the table's sizes keeps the shape of the table. */
  lemma StepKeepsShape(keySize: nat, valueSize: nat, t: seq<TableNode>, head: Slot, s: Spliced<seq<bv8>, seq<bv8>>,
                       key: seq<bv8>, value: seq<bv8>)
    requires TableShape(keySize, valueSize, t, head) && |key| == keySize && |value| == valueSize
    requires Extends(t, s.t) && WellFormed(s.t, 8 * keySize) && NoNullRight(s.t) && s.link < |s.t|
    requires s.t[|t|].key == key && s.t[|t|].item == value
    ensures TableShape(keySize, valueSize, s.t, Link(s.link))
    ensures |s.t| == |t| + 1 && forall i :: 0 <= i < |t| ==> s.t[i].key == t[i].key && s.t[i].item == t[i].item
  {
  }

  /**
   * nTableInsert: on an empty table a single head at the key's first 1 bit,
   * linking right to itself; on a key the lookup finds, the value is overwritten
   * in place; otherwise insert_step splices a node at the first bit where the key
   * differs from the closest stored key.
   */
  function InsertSpec(keySize: nat, valueSize: nat, t: seq<TableNode>, head: Slot, key: seq<bv8>, value: seq<bv8>)
    : (r: (seq<TableNode>, Slot))
    requires TableShape(keySize, valueSize, t, head) && |key| == keySize && |value| == valueSize
    ensures TableShape(keySize, valueSize, r.0, r.1) && r.1.Link?
    ensures |r.0| == |t| || (|r.0| == |t| + 1 && r.0[|t|].key == key && r.0[|t|].item == value)
    ensures forall i :: 0 <= i < |t| ==> r.0[i].key == t[i].key && (r.0[i].item == t[i].item || t[i].key == key)
  {
    if head.Link? then
      var c := Closest(keySize, t, head, key);
      if t[c].key == key then (t[c := t[c].(item := value)], head)
      else
        var d := FirstDiff(Bits(keySize), 8 * keySize, key, t[c].key, 0);
        var s := InsertStepSpec(t, 8 * keySize, Bits(keySize), true, head.index, d, key, value, -1).value;
        StepKeepsShape(keySize, valueSize, t, head, s, key, value);
        (s.t, Link(s.link))
    else
      var e := FirstSet(Bits(keySize), 8 * keySize, key, 0);
      (t + [Node(key, value, e, Null, Link(|t|))], Link(|t|))
  }

  /** Round trip: after inserting `key` with `value`, peek of `key` succeeds with `value`. */
  lemma InsertThenPeek(keySize: nat, valueSize: nat, t: seq<TableNode>, head: Slot, key: seq<bv8>, value: seq<bv8>, dataOut: seq<bv8>)
    requires TableShape(keySize, valueSize, t, head) && |key| == keySize && |value| == valueSize
    ensures var r := InsertSpec(keySize, valueSize, t, head, key, value);
            PeekSpec(keySize, r.0, r.1, key, dataOut) == (Success, value)
  {
    var r := InsertSpec(keySize, valueSize, t, head, key, value);
    var maxBit := 8 * keySize;
    SentinelReadsOne(keySize);
    if head.Link? {
      var c := Closest(keySize, t, head, key);
      if t[c].key == key {
        LookupFrame(t, r.0, maxBit, Bits(keySize), head.index, key, Null, -1);
      } else {
        var d := FirstDiff(Bits(keySize), maxBit, key, t[c].key, 0);
        InsertStepFinds(t, maxBit, Bits(keySize), true, head.index, d, key, value, -1, Null);
      }
    } else {
      var e := FirstSet(Bits(keySize), maxBit, key, 0);
      assert e < maxBit ==> Bits(keySize)(key, e);
      SelfChoiceStops(r.0, maxBit, Bits(keySize), |t|, key, Null);
    }
  }

  /** Inserting a key the lookup finds overwrites the value of the node the lookup stops at and changes nothing else. */
  lemma InsertPresentOverwrites(keySize: nat, valueSize: nat, t: seq<TableNode>, head: Slot, key: seq<bv8>, value: seq<bv8>, dataOut: seq<bv8>)
    requires TableShape(keySize, valueSize, t, head) && |key| == keySize && |value| == valueSize
    requires PeekSpec(keySize, t, head, key, dataOut).0 == Success
    ensures head.Link? && t[Closest(keySize, t, head, key)].key == key
    ensures var c := Closest(keySize, t, head, key);
            InsertSpec(keySize, valueSize, t, head, key, value) == (t[c := t[c].(item := value)], head)
  {
  }

  /**
   * The search invariant of the table: every node allocated so far is where the
   * lookup of its own key from the head stops (see TrieArena.Owns).
   */
  ghost predicate TableInv(keySize: nat, valueSize: nat, t: seq<TableNode>, head: Slot)
  {
    TableShape(keySize, valueSize, t, head) && Searchable(t, 8 * keySize, Bits(keySize), head, Indices(|t|))
  }

  /** Two different keys of keySize bytes differ at some bit below keySize * 8. */
  lemma DistinctKeysDiffer(keySize: nat, a: seq<bv8>, b: seq<bv8>)
    requires |a| == keySize && |b| == keySize && a != b
    ensures FirstDiff(Bits(keySize), 8 * keySize, a, b, 0) < 8 * keySize
  {
    var d := FirstDiff(Bits(keySize), 8 * keySize, a, b, 0);
    if d == 8 * keySize {
      forall i | 0 <= i < 8 * |a| ensures BitSet(i, a) == BitSet(i, b) {
        assert Bits(keySize)(a, i) == Bits(keySize)(b, i);
      }
      KeysFromBits(a, b);
    }
  }

  /** nTableInsert keeps the search invariant. */
  lemma InsertKeepsInv(keySize: nat, valueSize: nat, t: seq<TableNode>, head: Slot, key: seq<bv8>, value: seq<bv8>)
    requires TableInv(keySize, valueSize, t, head) && |key| == keySize && |value| == valueSize
    ensures var r := InsertSpec(keySize, valueSize, t, head, key, value);
            TableInv(keySize, valueSize, r.0, r.1)
  {
    if head.Null? {
      InsertEmptyInv(keySize, valueSize, t, key, value);
    } else if t[Closest(keySize, t, head, key)].key == key {
      OverwriteInv(keySize, valueSize, t, head, key, value);
    } else {
      SpliceInv(keySize, valueSize, t, head, key, value);
    }
  }

  /** The first insertion: a single head that owns itself. */
  lemma InsertEmptyInv(keySize: nat, valueSize: nat, t: seq<TableNode>, key: seq<bv8>, value: seq<bv8>)
    requires TableInv(keySize, valueSize, t, Null) && |key| == keySize && |value| == valueSize
    ensures var r := InsertSpec(keySize, valueSize, t, Null, key, value);
            TableInv(keySize, valueSize, r.0, r.1)
  {
    var r := InsertSpec(keySize, valueSize, t, Null, key, value);
    SentinelReadsOne(keySize);
    assert t == [] && r.1 == Link(0);
    assert Indices(1) == {0};
    FillLeaf(r.0, 8 * keySize, Bits(keySize), 0, -1);
  }

  /** Overwriting a value changes no key, bit or link. */
  lemma OverwriteInv(keySize: nat, valueSize: nat, t: seq<TableNode>, head: Slot, key: seq<bv8>, value: seq<bv8>)
    requires TableInv(keySize, valueSize, t, head) && |key| == keySize && |value| == valueSize
    requires head.Link? && t[Closest(keySize, t, head, key)].key == key
    ensures var r := InsertSpec(keySize, valueSize, t, head, key, value);
            TableInv(keySize, valueSize, r.0, r.1)
  {
    var r := InsertSpec(keySize, valueSize, t, head, key, value);
    OwnsFrame(t, r.0, 8 * keySize, Bits(keySize), head.index, -1, Indices(|t|));
  }

  /** A new key: the splice of insert_step keeps the invariant, at the first bit where the key differs from the closest one. */
  lemma SpliceInv(keySize: nat, valueSize: nat, t: seq<TableNode>, head: Slot, key: seq<bv8>, value: seq<bv8>)
    requires TableInv(keySize, valueSize, t, head) && |key| == keySize && |value| == valueSize
    requires head.Link? && t[Closest(keySize, t, head, key)].key != key
    ensures var r := InsertSpec(keySize, valueSize, t, head, key, value);
            TableInv(keySize, valueSize, r.0, r.1)
  {
    var maxBit := 8 * keySize;
    var c := Closest(keySize, t, head, key);
    var d := FirstDiff(Bits(keySize), maxBit, key, t[c].key, 0);
    SentinelReadsOne(keySize);
    assert Indices(|t| + 1) == Indices(|t|) + {|t|};
    DistinctKeysDiffer(keySize, key, t[c].key);
    InsertStepOwns(t, maxBit, Bits(keySize), true, head.index, d, key, value, Null, Indices(|t|));
  }

  /** Under the search invariant, peek of a key succeeds exactly when a node holds it, and then with that node's value. */
  lemma PeekFindsStored(keySize: nat, valueSize: nat, t: seq<TableNode>, head: Slot, key: seq<bv8>, dataOut: seq<bv8>)
    requires TableInv(keySize, valueSize, t, head)
    ensures PeekSpec(keySize, t, head, key, dataOut).0 == Success <==> exists i :: 0 <= i < |t| && t[i].key == key
    ensures forall i :: 0 <= i < |t| && t[i].key == key ==> PeekSpec(keySize, t, head, key, dataOut) == (Success, t[i].item)
  {
    forall i | 0 <= i < |t| && t[i].key == key
      ensures PeekSpec(keySize, t, head, key, dataOut) == (Success, t[i].item)
    {
      OwnsFinds(t, 8 * keySize, Bits(keySize), head.index, Indices(|t|), Null, i);
    }
  }

  /** No two nodes of the table hold the same key. */
  lemma StoredKeysDistinct(keySize: nat, valueSize: nat, t: seq<TableNode>, head: Slot, i: nat, j: nat)
    requires TableInv(keySize, valueSize, t, head) && i < |t| && j < |t| && t[i].key == t[j].key
    ensures i == j
  {
    OwnsFinds(t, 8 * keySize, Bits(keySize), head.index, Indices(|t|), Null, i);
    OwnsFinds(t, 8 * keySize, Bits(keySize), head.index, Indices(|t|), Null, j);
  }

  /** Inserting one key leaves the peek of every other key as it was. */
  lemma InsertKeepsOthers(keySize: nat, valueSize: nat, t: seq<TableNode>, head: Slot, key: seq<bv8>, value: seq<bv8>,
                          other: seq<bv8>, dataOut: seq<bv8>)
    requires TableInv(keySize, valueSize, t, head) && |key| == keySize && |value| == valueSize && other != key
    ensures var r := InsertSpec(keySize, valueSize, t, head, key, value);
            PeekSpec(keySize, r.0, r.1, other, dataOut) == PeekSpec(keySize, t, head, other, dataOut)
  {
    var r := InsertSpec(keySize, valueSize, t, head, key, value);
    InsertKeepsInv(keySize, valueSize, t, head, key, value);
    PeekFindsStored(keySize, valueSize, t, head, other, dataOut);
    PeekFindsStored(keySize, valueSize, r.0, r.1, other, dataOut);
    SameHolders(t, r.0, key, value, other);
  }

  /** An arena that keeps the old keys, changes values only under `key` and may add a node for `key` holds `other` where it did, with the same value. */
  lemma SameHolders(t: seq<TableNode>, s: seq<TableNode>, key: seq<bv8>, value: seq<bv8>, other: seq<bv8>)
    requires other != key
    requires |s| == |t| || (|s| == |t| + 1 && s[|t|].key == key)
    requires forall i :: 0 <= i < |t| ==> s[i].key == t[i].key && (s[i].item == t[i].item || t[i].key == key)
    ensures (exists i :: 0 <= i < |s| && s[i].key == other) <==> (exists i :: 0 <= i < |t| && t[i].key == other)
    ensures forall i :: 0 <= i < |t| && t[i].key == other ==> s[i].key == other && s[i].item == t[i].item
  {
    if exists i :: 0 <= i < |s| && s[i].key == other {
      var i :| 0 <= i < |s| && s[i].key == other;
      assert i < |t| && t[i].key == other;
    }
    if exists i :: 0 <= i < |t| && t[i].key == other {
      var i :| 0 <= i < |t| && t[i].key == other;
      assert s[i].key == other;
    }
  }

  /**
   * Inserting the all-zero key into an empty table gives a head at bit
   * `keySize * 8`. The first step of every later lookup is at the head, whose
   * bit is above -1, so the C code calls bitSet there: an offset outside the
   * key, which `BitSet` (the C reading) does not accept.
   */
  lemma ZeroKeyHeadOutsideKey(keySize: nat, valueSize: nat, value: seq<bv8>, key: seq<bv8>)
    requires |value| == valueSize && |key| == keySize
    ensures var r := InsertSpec(keySize, valueSize, [], Null, Zeros(keySize), value);
            r.1 == Link(0) && |r.0| == 1 && r.0[0].bit == 8 * keySize && !(r.0[0].bit < 8 * |key|)
  {
    NoDiff(keySize, Zeros(keySize), None);
  }

  /**
   * The table object of src/table.c. `nodes` is every node allocated so far;
   * `numElems` is kept because the C structure has it, and nothing updates it.
   */
  class Table {
    var head: Slot
    var numElems: nat
    var keySize: nat
    var valueSize: nat
    var nodes: seq<TableNode>

    ghost predicate Valid()
      reads this
    {
      TableInv(keySize, valueSize, nodes, head)
    }

    /** nTableInit */
    constructor (keySize: nat, valueSize: nat)
      ensures Valid() && head == Null && nodes == [] && numElems == 0
      ensures this.keySize == keySize && this.valueSize == valueSize
    {
      head := Null;
      numElems := 0;
      this.keySize := keySize;
      this.valueSize := valueSize;
      nodes := [];
    }

    /** allocNode: a new node holding copies of the key and value at the given bit; the caller sets both links. */
    method AllocNode(keyIn: seq<bv8>, valueIn: seq<bv8>, bit: int) returns (n: nat)
      modifies this
      ensures nodes == old(nodes) + [Node(keyIn, valueIn, bit, Null, Null)] && n == |old(nodes)|
      ensures head == old(head) && numElems == old(numElems)
      ensures keySize == old(keySize) && valueSize == old(valueSize)
    {
      n := |nodes|;
      nodes := nodes + [Node(keyIn, valueIn, bit, Null, Null)];
    }

    /** The first branch of insert_step: a new node at `diffBit` between the walk and `node`. */
    method SpliceAbove(node: nat, diffBit: int, newKey: seq<bv8>, newItem: seq<bv8>, ghost parentBit: int) returns (newLink: nat)
      requires TableShape(keySize, valueSize, nodes, head) && node < |nodes| && 0 <= diffBit <= 8 * keySize && -1 <= parentBit <= 8 * keySize
      requires nodes[node].bit > diffBit || nodes[node].bit <= parentBit
      modifies this
      ensures keySize == old(keySize) && valueSize == old(valueSize)
      ensures head == old(head) && numElems == old(numElems)
      ensures InsertStepSpec(old(nodes), 8 * keySize, Bits(keySize), true, node, diffBit, newKey, newItem, parentBit)
              == Some(Spliced(nodes, newLink))
    {
      ghost var t := nodes;
      newLink := AllocNode(newKey, newItem, diffBit);
      if KeyBit(keySize, newKey, diffBit) {
        nodes := nodes[newLink := nodes[newLink].(r := Link(newLink))];
        nodes := nodes[newLink := nodes[newLink].(l := Link(node))];
        assert nodes == t + [Node(newKey, newItem, diffBit, Link(node), Link(newLink))];
      } else {
        nodes := nodes[newLink := nodes[newLink].(r := Link(node))];
        nodes := nodes[newLink := nodes[newLink].(l := Link(newLink))];
        assert nodes == t + [Node(newKey, newItem, diffBit, Link(newLink), Link(node))];
      }
    }

    /** The fallback of insert_step: an absent left link gets a new node at the new key's first 1 bit. */
    method FillLeft(node: nat, diffBit: int, newKey: seq<bv8>, newItem: seq<bv8>, ghost parentBit: int)
      requires TableShape(keySize, valueSize, nodes, head) && node < |nodes| && 0 <= diffBit <= 8 * keySize && -1 <= parentBit <= 8 * keySize
      requires |newKey| == keySize
      requires parentBit < nodes[node].bit <= diffBit
      requires !KeyBit(keySize, newKey, nodes[node].bit) && nodes[node].l.Null?
      modifies this
      ensures keySize == old(keySize) && valueSize == old(valueSize)
      ensures head == old(head) && numElems == old(numElems)
      ensures InsertStepSpec(old(nodes), 8 * keySize, Bits(keySize), true, node, diffBit, newKey, newItem, parentBit)
              == Some(Spliced(nodes, node))
    {
      ghost var t := nodes;
      ghost var n := nodes[node];
      var newBitDiff := FindBitDiff(keySize, newKey, None);
      var newLink := AllocNode(newKey, newItem, newBitDiff);
      nodes := nodes[newLink := nodes[newLink].(r := Link(newLink))];
      nodes := nodes[newLink := nodes[newLink].(l := Null)];
      nodes := nodes[node := nodes[node].(l := Link(newLink))];
      assert nodes == (t + [Node(newKey, newItem, newBitDiff, Null, Link(newLink))])[node := n.(l := Link(newLink))];
    }

    /**
     * insert_step: returns the node to store in the slot the walk came through;
     * `diffKey`, the closest stored key, is passed along and not read.
     */
    method InsertStep(node: nat, diffBit: int, diffKey: seq<bv8>, newKey: seq<bv8>, newItem: seq<bv8>, parentBit: int)
      returns (link: nat)
      requires TableShape(keySize, valueSize, nodes, head) && node < |nodes| && 0 <= diffBit <= 8 * keySize && -1 <= parentBit <= 8 * keySize
      requires |newKey| == keySize && |newItem| == valueSize
      modifies this
      ensures keySize == old(keySize) && valueSize == old(valueSize)
      ensures head == old(head) && numElems == old(numElems)
      ensures InsertStepSpec(old(nodes), 8 * keySize, Bits(keySize), true, node, diffBit, newKey, newItem, parentBit)
              == Some(Spliced(nodes, link))
      decreases 8 * keySize - parentBit
    {
      var n := nodes[node];
      if n.bit > diffBit || n.bit <= parentBit {
        link := SpliceAbove(node, diffBit, newKey, newItem, parentBit);
      } else if KeyBit(keySize, newKey, n.bit) {
        var sub := InsertStep(n.r.index, diffBit, diffKey, newKey, newItem, n.bit);
        nodes := nodes[node := nodes[node].(r := Link(sub))];
        link := node;
      } else if n.l.Link? {
        var sub := InsertStep(n.l.index, diffBit, diffKey, newKey, newItem, n.bit);
        nodes := nodes[node := nodes[node].(l := Link(sub))];
        link := node;
      } else {
        FillLeft(node, diffBit, newKey, newItem, parentBit);
        link := node;
      }
    }

    /** nTableInsert: always Success; the element count is left as it was. */
    method Insert(key: seq<bv8>, dataIn: seq<bv8>) returns (code: Status)
      requires Valid() && |key| == keySize && |dataIn| == valueSize
      modifies this
      ensures keySize == old(keySize) && valueSize == old(valueSize) && numElems == old(numElems)
      ensures (nodes, head) == InsertSpec(keySize, valueSize, old(nodes), old(head), key, dataIn)
      ensures Valid() && code == Success
    {
      if head.Link? {
        var (closestOut, parentOut) := LookupStep(nodes, 8 * keySize, Bits(keySize), head.index, key, Null);
        if nodes[closestOut].key == key {
          nodes := nodes[closestOut := nodes[closestOut].(item := dataIn)];
          InsertKeepsInv(keySize, valueSize, old(nodes), old(head), key, dataIn);
          return Success;
        }
        var tgtBit := FindBitDiff(keySize, key, Some(nodes[closestOut].key));
        var newHead := InsertStep(head.index, tgtBit, nodes[closestOut].key, key, dataIn, -1);
        head := Link(newHead);
      } else {
        var tgtBit := FindBitDiff(keySize, key, None);
        var newNode := AllocNode(key, dataIn, tgtBit);
        nodes := nodes[newNode := nodes[newNode].(r := Link(newNode))];
        nodes := nodes[newNode := nodes[newNode].(l := Null)];
        assert nodes == old(nodes) + [Node(key, dataIn, tgtBit, Null, Link(newNode))];
        head := Link(newNode);
      }
      InsertKeepsInv(keySize, valueSize, old(nodes), old(head), key, dataIn);
      return Success;
    }

    /** nTablePeek */
    method Peek(key: seq<bv8>, dataOut: seq<bv8>) returns (code: Status, out: seq<bv8>)
      requires Valid() && |key| == keySize
      ensures (code, out) == PeekSpec(keySize, nodes, head, key, dataOut)
    {
      if head.Null? {
        return NotFound, dataOut;
      }
      var (closestOut, parentOut) := LookupStep(nodes, 8 * keySize, Bits(keySize), head.index, key, Null);
      if nodes[closestOut].key != key {
        return NotFound, dataOut;
      }
      return Success, nodes[closestOut].item;
    }
  }
}
