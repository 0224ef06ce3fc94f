# nanodtypes in Dafny

This project models the core of nanodtypes, a small C library of containers, in
Dafny, and proves properties of the model. The core has three parts.

- **The table** (src/table.c) is a crit-bit (Patricia) trie over fixed-size byte
  keys. It is modelled together with its two Python prototypes,
  util/pattrie.py and the earlier draft util/pattree.py. The prototypes add
  removal, which the C file does not have.
- **The bounded stack** (src/stack.c) holds `maxElem` elements of `elemSize`
  bytes in one buffer.
- **The circular doubly-linked list** (src/list.c) supports insertion at the
  head and at the tail.

The three versions of the trie share one arena model (`trie_arena.dfy`). Nodes
are records in a sequence, and a pointer is `Null` or `Link(index)`. Each
version supplies its own reading of a key bit:

- the C byte and mask reading, with the "no difference" offset `8 * keySize`
  reading as 1;
- pattrie.py's five-bit integers, with the sentinel offset 5 reading as set;
- pattree.py's readings, without the sentinel.

On top of this model:

- the lookup descent is proved to stop at the right node;
- the recursive insertion step is proved to splice in exactly one node, which
  a later lookup of the key reaches;
- a search invariant is stated for all three: every stored node is where the
  descent of its own key stops, and each child slot takes exactly the stored
  keys that read its side at the node's bit. Insertion is proved to keep it,
  so lookup finds a key exactly when a node holds it, and an insertion leaves
  the lookup of every other key as it was;
- for the table, insertion followed by a peek of the same key is proved to
  return the inserted value.

The Python code's exceptions are modelled as outcomes: `AttributeError` for a
read through `None`, `AssertionError` for the assert in `remove_key`, and
`RecursionError` for a `reduce_link` walk that never finds its victim.

The stack and the list are imperative classes, proved against ghost contents.

- **Stack:** push, pop and peek are last-in first-out over the element
  sequence, and every byte copy stays inside the buffer.
- **List:** the nodes form one cycle, in which every node is the `prev` of its
  `next` and the `next` of its `prev`. Insertion at the head or the tail adds
  the element at that end of the contents.

Allocation failure (malloc or calloc returning NULL) is a boolean parameter of
the operations that allocate.

Files:

| file | module | models |
|---|---|---|
| nanotypes.dfy | NanoTypes | the result codes of the library, and the node pointer (NULL or a node's arena index) that the trie and the list share |
| trie_arena.dfy | TrieArena | nodes, links, the lookup descent and the insertion step shared by all three tries |
| table.dfy | NanoTable | src/table.c |
| pytrie.dfy | PyTrie | what the two Python prototypes share: keys, exceptions, removal |
| pattrie.dfy | PatTrie | util/pattrie.py |
| pattree.dfy | PatTree | util/pattree.py |
| stack.dfy | NanoStack | src/stack.c |
| list.dfy | NanoList | src/list.c |

## Model

| member | source | states |
|---|---|---|
| TrieArena.LookupStep | src/table.c:75-103 | The descent ends at a node of the arena. It ends where the C code stops: the node was reached over an up link, or the child it would follow is absent. The returned parent is the node whose bit chose it, or the starting pair when the first node already stops. |
| TrieArena.FirstSet | src/table.c:47-73 | The first offset at which a key reads 1 when compared with the all-zero key: every earlier bit reads 0, and the offset is `maxBit` when none before it does. |
| TrieArena.FirstDiff | util/pattrie.py:24-30 | The first offset at which two keys differ: they agree on every earlier bit, differ at it, and it is `maxBit` when they agree throughout. |
| TrieArena.InsertStepSpec | src/table.c:105-138 | The recursive insertion step appends exactly one node, holding the new key and item. It leaves every key, item and bit alone and keeps the arena well formed. With the left-link fallback and no absent right link, it always succeeds and keeps right links present. |
| TrieArena.Relink | src/table.c:123-127 | Storing the link a recursive step returned in the child slot it descended through changes no key, item or bit. It keeps the arena well formed and keeps every right link present. |
| TrieArena.Fill | src/table.c:128-134 | The fallback appends a node holding the new key and item and makes it `node`'s left child. It changes no other key, item or bit, keeps the arena well formed and keeps every right link present. |
| TrieArena.LookupFrame | src/table.c:75-103 | The descent reads only bit numbers and the child links of nodes above its starting bit: two arenas that agree on those give the same result. |
| TrieArena.SelfChoiceStops | src/table.c:87-101 | A node reached over an up link, or whose chosen child is absent or itself, is where the lookup stops. |
| TrieArena.RelinkedChildFinds | src/table.c:123-136 | After a node's child slot is set to the link the recursive step returned, a lookup through that node reaches the same target. |
| TrieArena.InsertStepFinds | src/table.c:105-138 | After the insertion step, a lookup of the new key from the returned link stops at the new node. |
| TrieArena.FillFinds | src/table.c:126-134 | After the fallback, a lookup of the new key that enters `node` stops at the added node. This holds when every key reads 1 at `maxBit`. |
| TrieArena.OwnsFinds | src/table.c:75-103 | Under the search invariant, the descent of a stored node's key stops at that node. |
| TrieArena.OwnsEnds | src/table.c:75-103 | Under the search invariant, the descent of any key stops at a stored node of the sub-trie it enters. |
| TrieArena.OwnsParent | util/pattrie.py:34-56 | Under the search invariant, the parent lookup_step returns is the one it started from or a stored node of the sub-trie. |
| TrieArena.StoredHasParent | util/pattrie.py:246-257 | In a searchable trie, the descent of a stored key from the head takes at least one step, so it returns a parent. |
| TrieArena.OwnsFrame | src/table.c:157-163 | An arena that keeps the keys and bits, and the links of the stored nodes, keeps the search invariant. Overwriting a value is such a change. |
| TrieArena.OwnsEntered | src/table.c:87-88 | The search invariant of a sub-trie depends on the bit it is entered from only through whether that bit makes its link an up link. |
| TrieArena.InsertStepOwns | src/table.c:105-138 | The insertion step keeps the search invariant when the new key is spliced at its first difference from the key its descent reaches. The returned sub-trie owns the old keys plus the new node, and nodes outside the sub-trie are untouched. |
| TrieArena.SpliceOwns | src/table.c:112-121 | The splice branch: the new node at `diffBit` owns the sub-trie's keys on one side and itself on the other. |
| TrieArena.FillOwns | src/table.c:126-134 | The fallback: the node whose left slot gets the new node still owns its keys plus the new one. |
| TrieArena.FillLeaf | src/table.c:126-134 | The node the fallback adds, at the key's first 1 bit with a right link to itself, owns its own key. |
| TrieArena.SelfOwns | src/table.c:167-172 | A node with no left child and a right link to itself, whose key reads 1 at its bit, owns its own key. This is the first node of a trie. |
| NanoTable.MaskShift | src/table.c:63-68 | Shifting findBitDiff's mask right by one selects the next lower bit of the byte. |
| NanoTable.ShiftReadsMaskBit | src/table.c:36-45 | bitSet's shift-and-mask reading of a byte and findBitDiff's mask reading select the same bit. |
| NanoTable.MaskedBytesDiffer | src/table.c:65-67 | Two bytes differ under findBitDiff's mask exactly when they differ in that bit. |
| NanoTable.BitSet | src/table.c:36-45 | bitSet reads bit `7 - bitOff % 8` of byte `bitOff / 8`, the same bit that findBitDiff's mask `0x80 >> bitOff % 8` selects in that byte. |
| NanoTable.KeyBit | src/table.c:36-45 | Offsets inside the key read as bitSet, through the same mask bit. From offset `8 * keySize` on it reads 1 for every key; this departs from src/table.c:36-45, whose bitSet reads past the key there (see the src/table.c:36-45 row under "## Findings"). |
| NanoTable.BitOfByte | src/table.c:36-45 | Bit offset `8*b + m` of a key is bit `m` (from the top) of byte `b`. |
| NanoTable.SentinelReadsOne | src/table.c:72 | In the table model's reading, the "no difference" offset `8 * keySize` reads 1 for every key. |
| NanoTable.ByteFromBits | src/table.c:63-69 | Two bytes that agree under all eight masks are equal. |
| NanoTable.KeysFromBits | src/table.c:36-45 | Two keys of the same length that agree on every bit are equal. |
| NanoTable.PrefixAgrees | src/table.c:56-70 | Equal leading bytes, plus a current byte that agrees under the first `m` masks, mean the keys agree on all bits below `8*b + m`. |
| NanoTable.NextByteAgrees | src/table.c:56-69 | Keys that agree on their first `b` bytes, and whose bytes `b` agree under all eight masks, agree on their first `b + 1` bytes. This is the outer loop's invariant step. |
| NanoTable.FoundDiff | src/table.c:65-67 | The offset where the scan first finds differing masked bytes is the first differing bit of the two keys. That bit is a real difference, and with a NULL second key it is the key's first 1 bit. |
| NanoTable.FindBitDiffFacts | src/table.c:47-73 | An offset below which the keys agree, and at which they differ or that equals `8 * keySize`, is the first difference. It equals `8 * keySize` exactly when the keys are equal. |
| NanoTable.NoDiff | src/table.c:72 | For equal keys, including a key of zeros against NULL, findBitDiff's answer `keySize * 8` is their first difference. |
| NanoTable.ScanByte | src/table.c:63-69 | The inner loop returns the first bit of the byte where the two bytes differ: all bits before it agree, or it returns 8 when none differ. |
| NanoTable.FindBitDiff | src/table.c:47-73 | findBitDiff returns the first differing bit of the two keys. A NULL second key counts as all zeros. The result is `keySize * 8` exactly when the keys are equal. |
| NanoTable.PeekSpec | src/table.c:178-193 | nTablePeek returns NotFound, leaving the output untouched, on an empty table or a missing key. Otherwise it returns Success with the item of a stored node whose key is the search key. |
| NanoTable.InsertSpec | src/table.c:151-176 | nTableInsert keeps the shape of the table: a well-formed arena, keys and values of the declared sizes, no absent right link. The table is non-empty afterwards. Every old node keeps its key, and its value unless it holds the inserted key. At most one node is added, and it holds the key and the value. |
| NanoTable.StepKeepsShape | src/table.c:164-165 | An insertion step that appends a node with a key and value of the table's sizes, and keeps right links present, keeps the shape of the table and every old key and value. |
| NanoTable.InsertThenPeek | src/table.c:151-193 | After inserting a key with a value, peeking that key returns Success and that value, whatever the table held before. |
| NanoTable.InsertPresentOverwrites | src/table.c:157-163 | Inserting a key that peek finds replaces the value of the closest node, which holds the key, and changes nothing else: same arena otherwise, same head. |
| NanoTable.DistinctKeysDiffer | src/table.c:164 | Two different keys of `keySize` bytes first differ below `8 * keySize`, so findBitDiff gives insert_step a bit inside the key. |
| NanoTable.InsertKeepsInv | src/table.c:151-176 | nTableInsert keeps the search invariant: every node of the arena is stored and owned by the head. |
| NanoTable.InsertEmptyInv | src/table.c:167-172 | The first insertion makes a head that owns itself. |
| NanoTable.OverwriteInv | src/table.c:157-163 | Overwriting the value of a present key keeps the search invariant. |
| NanoTable.SpliceInv | src/table.c:164-165 | Splicing a new key in at its first difference from the closest key keeps the search invariant, with the new node added to the stored ones. |
| NanoTable.PeekFindsStored | src/table.c:178-193 | Under the search invariant, nTablePeek succeeds exactly when some node holds the key, and then returns that node's value. |
| NanoTable.StoredKeysDistinct | src/table.c:157-165 | Under the search invariant no two nodes hold the same key. |
| NanoTable.InsertKeepsOthers | test/table_test.c:67-73 | Inserting one key leaves nTablePeek of every other key as it was. So the values of earlier keys can still be peeked after later inserts. |
| NanoTable.SameHolders | src/table.c:157-176 | An insertion that keeps the old keys, changes values only under the inserted key and adds at most a node for it leaves the holders of any other key, and their values, as they were. |
| NanoTable.ZeroKeyHeadOutsideKey | src/table.c:36-45 | Inserting the all-zero key into an empty table makes a head at bit `8 * keySize`. That offset is outside the key, where the C bitSet reads past the key's bytes. |
| NanoTable.Table.constructor | src/table.c:142-149 | nTableInit: an empty table with the given key and value sizes. |
| NanoTable.Table.AllocNode | src/table.c:11-34 | allocNode appends one node with copies of the key and value and the given bit, and no children. |
| NanoTable.Table.SpliceAbove | src/table.c:112-121 | The splice branch of insert_step, with the arena left as the insertion step prescribes. |
| NanoTable.Table.FillLeft | src/table.c:126-134 | The absent-left-link fallback of insert_step, with the arena left as the insertion step prescribes. |
| NanoTable.Table.InsertStep | src/table.c:105-138 | insert_step leaves the arena and returns the link exactly as the insertion step prescribes. |
| NanoTable.Table.Insert | src/table.c:151-176 | nTableInsert leaves the table as the insertion specification prescribes, keeps the search invariant, returns Success, and leaves `numElems` unchanged. |
| NanoTable.Table.Peek | src/table.c:178-193 | nTablePeek returns what the peek specification prescribes. |
| PyTrie.ShiftBit | util/pattrie.py:22 | Python's `(key >> n) & 1` on a five-bit key is 0 or 1, the two values bit_set compares. |
| PyTrie.KeyFromShiftBits | util/pattrie.py:17-22 | A five-bit key is the sum of its five shifted bits, bit `n` weighted `2^n`; offset `off` of bit_set reads bit `4 - off`. |
| PyTrie.KeysFromShiftBits | util/pattrie.py:24-30 | Keys that agree at all five offsets are equal, so `_find_bit_diff` finds no difference only for equal keys. |
| PyTrie.LinkSwapSpec | util/pattrie.py:93-117 | A distinct grandchild receives the child's key and item. The child gets the debug key 9 and item "X". Only the grandchild, the child and the parent change, no bit changes, and the arena stays well formed. AttributeError is raised exactly when the parent is None. |
| PyTrie.LinkSwapRelinks | util/pattrie.py:93-117 | For three distinct nodes, the parent's link to the child now points to the grandchild. The child's link to the grandchild is cleared, or else its left link is. |
| PyTrie.ReduceLinkSpec | util/pattrie.py:119-136 | reduce_link keeps the arena well formed and of the same size. When it raises (a read through None, or a walk that never meets the victim), nothing has changed. |
| PyTrie.Replacement | util/pattrie.py:124 | The child reduce_link puts in the victim's place is one of the victim's two links: the left one when it is set, else the right one; it is None only when both links are None. util/pattree.py:103 is the same line. |
| PyTrie.ReduceLinkRedirects | util/pattrie.py:119-136 | When reduce_link returns normally, exactly one node's link to the victim now points to the victim's left child if present, else its right child. |
| PyTrie.DropSelfLink | util/pattrie.py:259-263 | The node's self link is cleared: the left one if it is the self link, otherwise the right one. Nothing else changes. |
| PyTrie.Unlink | util/pattrie.py:259-271 | Both unlinking branches of remove_key leave a well-formed trie with the same arena size. |
| PyTrie.RemoveKeySpec | util/pattrie.py:246-271 | remove_key raises AttributeError on an empty trie. It leaves the trie unchanged when the key is absent. It always leaves a well-formed trie. |
| PyTrie.RemoveOnlyKey | util/pattrie.py:246-268 | Removing the only key of a one-node trie empties the trie without raising. |
| PyTrie.RemoveReachesUnlink | util/pattrie.py:246-271 | On a searchable trie, removing a stored key reaches the unlinking step. The closest node holds the key and has a parent. The second lookup comes back to that parent, so the assert holds, and it finds a grandparent. |
| PyTrie.KeepsHolders | util/pattrie.py:229-244 | An insertion that keeps the old keys and items and appends a node for the new key leaves the stored holders of any other key, and their items, as they were. |
| PatTrie.BitSet | util/pattrie.py:18-22 | bit_set reads the sentinel offset 5 as set; offset 0 is the key's top bit (set exactly when the key is at least 16) and offset 4 its lowest bit (set exactly for odd keys). |
| PatTrie.BitSetReadsKey | util/pattrie.py:17-22 | The sentinel offset 5 reads as set for every key, and keys that agree at offsets 0..4 are equal. |
| PatTrie.FindBitDiff | util/pattrie.py:24-30 | `_find_bit_diff` returns the first differing offset. It returns 5 exactly when the keys are equal. Against 0 it returns the key's first 1 bit. |
| PatTrie.DiffAt | util/pattrie.py:27-29 | An offset where the loop first sees the keys differ is their first difference, and against 0 the key's first 1 bit. |
| PatTrie.LookupKey | util/pattrie.py:217-227 | lookup_key returns None on an empty trie. Any item it returns is stored under the searched key. |
| PatTrie.InsertKeySpec | util/pattrie.py:229-244 | insert_key keeps the trie well formed. A present key leaves the trie unchanged. Otherwise exactly one node with the key is appended. When it raises AttributeError (a read through an absent right link), the trie is unchanged, and it cannot raise when no right link is absent. |
| PatTrie.InsertThenLookup | util/pattrie.py:217-244 | After insert_key returns normally, lookup_key of the key returns the new item, or the old one if the key was present. |
| PatTrie.InsertThenRemove | util/pattrie.py:229-271 | Inserting a key into an empty trie and removing it leaves an empty trie without raising. |
| PatTrie.DistinctKeysDiffer | util/pattrie.py:24-30 | Distinct keys first differ below the sentinel. |
| PatTrie.LookupFindsStored | util/pattrie.py:295-301 | Under the search invariant, lookup_key finds a key exactly when a stored node holds it, and then returns that node's item. |
| PatTrie.InsertKeepsSearch | util/pattrie.py:229-244 | When insert_key returns normally it keeps the search invariant. The stored nodes are the old ones, plus the new node if the key was absent. |
| PatTrie.InsertKeepsOthers | util/pattrie.py:303-311 | insert_key of one key leaves lookup_key of every other key as it was. |
| PatTrie.OneTwoBits | util/pattrie.py:17-22 | bit_set reads key 1 as 1 only at offset 4, and key 2 as 1 only at offset 3. |
| PatTrie.InsertOne | util/pattrie.py:234-238 | Key 1 goes into an empty trie at offset 4 with a right link to itself. |
| PatTrie.InsertTwo | util/pattrie.py:239-244 | Key 2 is then spliced above 1 at offset 3 and becomes the head, with 1 on its left. |
| PatTrie.OneIsOwnParent | util/pattrie.py:34-56 | In that trie, the descent of 1 returns 1 as its own parent. |
| PatTrie.RemoveOne | util/pattrie.py:246-268 | Removing 1 from it drops 1's self-link and clears the head's left link, without raising. |
| PatTrie.TwoStaysFound | util/pattrie.py:217-227 | After that removal 2 is found with its item. |
| PatTrie.OneIsGone | util/pattrie.py:217-227 | After that removal 1 is no longer found. |
| PatTrie.RemoveOneOfTwo | util/pattrie.py:313-319 | Insert 1, insert 2, remove 1: nothing raises, 2 is still found with its item, and 1 is not found. |
| PatTrie.PatriciaTrie.constructor | util/pattrie.py:201-202 | A trie with no head. |
| PatTrie.PatriciaTrie.NewLink | util/pattrie.py:11-15 | `Link(...)` appends one node with the given key, item and bit and no children. |
| PatTrie.PatriciaTrie.SpliceAbove | util/pattrie.py:69-78 | The splice branch of insert_step, as the insertion step prescribes. |
| PatTrie.PatriciaTrie.FillLeft | util/pattrie.py:85-90 | The absent-left-link fallback of insert_step, as the insertion step prescribes. |
| PatTrie.PatriciaTrie.InsertStep | util/pattrie.py:58-91 | insert_step as the insertion step prescribes. It raises AttributeError, leaving the arena unchanged, where it would follow an absent right link. |
| PatTrie.PatriciaTrie.LinkSwap | util/pattrie.py:93-117 | link_swap leaves the arena and exception as the link-swap specification prescribes. |
| PatTrie.PatriciaTrie.ReduceLink | util/pattrie.py:119-136 | reduce_link leaves the arena and exception as the reduce-link specification prescribes. |
| PatTrie.PatriciaTrie.InsertKey | util/pattrie.py:229-244 | insert_key leaves the trie and exception as the insertion specification prescribes. |
| PatTrie.PatriciaTrie.RemoveKey | util/pattrie.py:246-271 | remove_key leaves the trie and exception as the removal specification prescribes. |
| PatTree.BitSet | util/pattree.py:14-16 | bit_set, with no sentinel: offset 0 is the key's top bit (set exactly when the key is at least 16) and offset 4 its lowest bit (set exactly for odd keys). |
| PatTree.BitSetReadsKey | util/pattree.py:13-15 | Keys that agree at offsets 0..4 are equal. |
| PatTree.FindBitDiff | util/pattree.py:185-190 | `_find_bit_diff` returns None exactly for equal keys. Otherwise it returns the first differing offset, at most 4, and against 0 the key's first 1 bit. |
| PatTree.DiffAt | util/pattree.py:188-190 | An offset where the loop first sees the keys differ is their first difference, and against 0 the key's first 1 bit. |
| PatTree.NonZeroHasSetBit | util/pattree.py:192-197 | A non-zero key has a 1 bit at offsets 0..4, so the empty-trie branch of insert_key gets a real bit. |
| PatTree.DistinctKeysDiffer | util/pattree.py:199-207 | Distinct keys differ at one of the offsets 0..4, so insert_key gets a real bit. |
| PatTree.LookupKey | util/pattree.py:176-183 | lookup_key raises AttributeError exactly on an empty trie. Any item it returns is stored under the searched key. |
| PatTree.InsertKeySpec | util/pattree.py:192-207 | insert_key keeps the trie well formed, and it cannot raise on an empty trie. A found key leaves the trie unchanged; otherwise exactly one node with the key is appended. When it raises AttributeError, the trie is unchanged. |
| PatTree.InsertThenLookup | util/pattree.py:176-207 | After insert_key returns normally, lookup_key of the key returns the new item, or the old one if the key was found. |
| PatTree.InsertThenRemove | util/pattree.py:210-231 | Inserting a non-zero key into an empty trie and removing it leaves an empty trie without raising. |
| PatTree.LookupFindsStored | util/pattree.py:176-183 | Under the search invariant, lookup_key on a non-empty trie finds a key exactly when a stored node holds it, and then returns that node's item. |
| PatTree.InsertKeepsSearch | util/pattree.py:192-207 | When insert_key returns normally it keeps the search invariant. The stored nodes are the old ones, plus the new node if the key was absent. |
| PatTree.InsertKeepsOthers | util/pattree.py:176-207 | On a non-empty trie, insert_key of one key leaves lookup_key of every other key as it was. |
| PatTree.SameLookup | util/pattree.py:176-183 | Two searchable tries, the second extending the first by a stored node for one key, look up every other key alike. |
| PatTree.PatriciaTrie.constructor | util/pattree.py:161-162 | A trie with no head. |
| PatTree.PatriciaTrie.NewLink | util/pattree.py:7-11 | `Link(...)` appends one node with the given key, item and bit and no children. |
| PatTree.PatriciaTrie.SpliceAbove | util/pattree.py:55-64 | The splice branch of insert_step, as the insertion step without the fallback prescribes. |
| PatTree.PatriciaTrie.InsertStep | util/pattree.py:44-70 | insert_step as the insertion step without the fallback prescribes. It raises AttributeError, leaving the arena unchanged, where it would follow any absent link. |
| PatTree.PatriciaTrie.LinkSwap | util/pattree.py:72-96 | link_swap leaves the arena and exception as the link-swap specification prescribes. |
| PatTree.PatriciaTrie.ReduceLink | util/pattree.py:98-115 | reduce_link leaves the arena and exception as the reduce-link specification prescribes. |
| PatTree.PatriciaTrie.InsertKey | util/pattree.py:192-207 | insert_key leaves the trie and exception as the insertion specification prescribes. |
| PatTree.PatriciaTrie.RemoveKey | util/pattree.py:210-231 | remove_key leaves the trie and exception as the removal specification prescribes. |
| NanoStack.FlattenLength | src/stack.c:52-54 | `n` elements of `elemSize` bytes take `n * elemSize` bytes, which is how far push has advanced `stackData`. |
| NanoStack.FlattenPush | src/stack.c:52-54 | Pushing an element appends exactly its bytes to the bytes below `stackData`. |
| NanoStack.NStack.constructor | include/nanodtypes.h:22-28 | A zeroed stack structure: no buffer and all counts zero. |
| NanoStack.NStack.Init | src/stack.c:23-32 | nStackInit: an empty, unmanaged stack over the caller's buffer with the given sizes; Success. |
| NanoStack.NStack.InitM | src/stack.c:7-21 | nStackInitM: when calloc fails, NoSpace, with a NULL buffer; every other field (counts, sizes, `managed`, the offset and the contents) is unchanged. Otherwise an empty, managed stack over a fresh buffer; Success. |
| NanoStack.NStack.Destroy | src/stack.c:34-44 | nStackDestroy with the free corrected: a managed buffer is released at the start of its allocation. Afterwards the stack has no buffer and zero counts, reads both empty and full, and stays valid, so a second destroy is harmless. |
| NanoStack.NStack.DestroyAsWritten | src/stack.c:34-44 | nStackDestroy as written: a managed buffer is released through `stackData`, `numElems * elemSize` bytes into its allocation. |
| NanoStack.PushThenDestroyAsWritten | src/stack.c:37-54 | On a managed one-byte stack after one push, the pointer nStackDestroy hands to free is one byte past the start of the allocation. |
| NanoStack.NStack.IsEmpty | src/stack.c:80-84 | nStackEmpty holds exactly when the stack holds no element. |
| NanoStack.NStack.IsFull | src/stack.c:86-90 | nStackFull holds exactly when the stack holds `maxElem` elements. |
| NanoStack.NStack.Size | src/stack.c:92-96 | nStackSize is the number of elements on the stack, at most `maxElem`. |
| NanoStack.NStack.Push | src/stack.c:46-56 | On a full stack: Full, and nothing changes. Otherwise: Success, the element is on top, and the count grows by one. Buffer bytes outside the new slot are untouched. |
| NanoStack.NStack.CopyIn | src/stack.c:52 | Push's memcpy: the element's bytes land at the given offset of the buffer, and no other byte changes. |
| NanoStack.NStack.Pop | src/stack.c:58-68 | On an empty stack: Empty, with `dataOut` untouched. Otherwise: Success, the top element is copied to the first `elemSize` bytes of `dataOut` and removed. The rest of `dataOut` is untouched. |
| NanoStack.NStack.CopyOut | src/stack.c:64-65 | The memcpy of pop and peek: `elemSize` bytes from the given offset of the buffer go to the front of `dataOut`, and the rest of `dataOut` is untouched. |
| NanoStack.NStack.Peek | src/stack.c:70-78 | Empty, with `dataOut` untouched, on an empty stack. Otherwise Success, with the top element copied out and the stack unchanged. |
| NanoList.SpliceBefore | src/list.c:19-26 | The four link writes of insertNodeBefore change no node's data and no arena size. |
| NanoList.SpliceBeforeEffects | src/list.c:19-26 | After the writes: the new node links forward to `cur` and back to `cur`'s old predecessor, that predecessor links forward to it, and `cur` links back to it. Every other node is unchanged. |
| NanoList.SpliceBeforeCycle | src/list.c:19-26 | Splicing a node that is not in the list into a cycle before position `pos` gives the cycle with that node inserted there. Before the head means after the tail. |
| NanoList.RotateCycle | src/list.c:54-57 | Making the node before the head the new head keeps the cycle. |
| NanoList.NList.LinksAgree | src/list.c:19-26 | In a valid list, every node is the `prev` of its `next` and the `next` of its `prev`, and both neighbours are in the list. |
| NanoList.NList.constructor | src/list.c:67-73 | nListInit: an empty list with no head, count 0 and the given element size; it reads empty. |
| NanoList.NList.IsEmpty | src/list.c:87-93 | nListEmpty holds exactly when nListSize reads 0. Every insertion member keeps its answer, so a list built by insertions reads empty. |
| NanoList.NList.Size | src/list.c:95-99 | nListSize reads the stored count `numElems`, not the number of listed nodes. Every insertion member keeps its answer. |
| NanoList.Kept | src/list.c:46-63 | The items whose insertion succeeds, in order: no more items than were inserted, only items that were inserted, and all of them when no allocation fails. |
| NanoList.InsertTailsAsWritten | src/list.c:46-99 | nListInit followed by nListInsertTail of each item: the list holds the items that went in, in order, while nListSize still reads 0 and nListEmpty still holds. |
| NanoList.NList.AllocNode | src/list.c:28-44 | allocNode returns NULL, with nothing changed, when allocation fails. Otherwise it adds a node holding a copy of the data, leaving the list itself alone. |
| NanoList.NList.InsertFirstItem | src/list.c:10-17 | insertFirstItem: the node links to itself both ways and becomes the head of a one-element list. |
| NanoList.NList.InsertNodeBefore | src/list.c:19-26 | insertNodeBefore keeps the cycle, with the new node placed just before `cur`. |
| NanoList.NList.InsertBeforeHead | src/list.c:54-57 | On a non-empty list the new element becomes the first element, with the head moved to it, when `atHead`. Otherwise it becomes the last element and the head is kept. |
| NanoList.NList.TailToHead | src/list.c:56-57 | Moving the head to the tail node rotates the contents by one, last element first. |
| NanoList.NList.Insert | src/list.c:46-63 | nListInsert: NoSpace, with nothing changed, when allocation fails. Otherwise Success, with the element added first (`atHead`) or last, and the head set as the C code sets it. The count, and so what nListSize and nListEmpty report, is unchanged. |
| NanoList.NList.InsertHead | src/list.c:75-79 | nListInsertHead adds the element at the front of the contents, or reports NoSpace with the contents unchanged. |
| NanoList.NList.InsertTail | src/list.c:81-85 | nListInsertTail adds the element at the end of the contents and keeps the head of a non-empty list, or reports NoSpace with the contents unchanged. |

## Left out

- Memory management: malloc, calloc and free become a boolean parameter or are
  left out. src/table.c never checks allocNode's NULL result, so the table's
  allocation always succeeds here, and the table never produces NoSpace.
- Integer widths: the `short` bit numbers and the `unsigned` counts of the C
  structures are unbounded integers here. A key of more than 4095 bytes
  (overflowing `short`) is not modelled.
- Host byte order and the layout of the test keys: keys are abstract byte
  sequences.
- Element counts: neither nTableInsert nor nListInsert updates `numElems`. The
  model keeps both counts unchanged, as the code does, and does not add
  counting. NanoList.InsertTailsAsWritten shows the consequence: after
  insertions nListSize still reads 0 and nListEmpty still holds.
- Table removal, size and teardown: src/table.c has none of them, and
  include/table.h is not part of this model. Removal is modelled from the
  Python prototypes.
- nListDestroy, nListRemoveHead, nListRemoveTail and nListForEach are declared
  in include/nanodtypes.h, but their code is not part of this model; nor is
  include/list.h.
- nStackInit's caller-supplied buffer is an array the stack refers to. No
  aliasing between that buffer and the caller's other data is modelled, and
  Pop and Peek require their output array to be a different array from the
  stack's buffer.
- List nodes: allocNode leaves `next` and `prev` uninitialised; here they point
  at the node itself until insertion sets them.
- Printing, graph output, random sequences, the script code of the Python
  files and the C test harness.
- PyTrie.RemoveKeySpec, PatTrie.PatriciaTrie.RemoveKey, PatTree.PatriciaTrie.RemoveKey:
  it is not proved that after remove_key the key is gone, that every other key
  keeps its item, or that the search invariant is kept. link_swap moves the
  parent's key into the removed node, and reduce_link bypasses the parent
  wherever it sits on the path. A proof needs facts about the path from the
  head to both nodes that this model does not state. What is proved:
  PyTrie.RemoveReachesUnlink (on a searchable trie the assert holds and the
  unlinking step is reached), PyTrie.RemoveOnlyKey, and the worked example
  PatTrie.RemoveOneOfTwo. So the integrity check of the prototypes' tests is
  proved across insertions only.
- PatTrie.PatriciaTrie.Valid, PatTree.PatriciaTrie.Valid: the class invariant
  is well-formedness only. The search invariant is stated on trie values
  (InsertKeepsSearch), because remove_key is not proved to keep it.
- PatTree.InsertKeepsOthers: starts from a non-empty trie. On an empty trie
  lookup_key raises AttributeError before the insertion and returns None after
  it.
- PyTrie.LinkSwapRelinks: the case where the parent and the child are the same
  node, which the code allows, is not stated, only modelled by LinkSwapSpec.
- PyTrie.ReduceLinkSpec: Python's recursion limit is not modelled. A walk that
  does not meet the victim within as many steps as there are nodes never will,
  because the walk is deterministic on a finite graph, and it is reported as
  RecursionError.
- PatTree.InsertKeySpec, PatTree.PatriciaTrie.InsertKey: inserting key 0 into
  an empty trie is excluded. There `_find_bit_diff` returns None, and the node
  would carry no bit.
- Python type errors, such as comparing None with an int, are not modelled:
  every key is a five-bit integer.
- NanoTable.ScanByte: findBitDiff's inner loop over the bits of one byte is its
  own method. The outer loop calls it.
- The result code NotFound comes from include/table.h, which is not part of
  this model.

## Findings

| source | as written | input that shows it | evidently intended | confidence | as-written member | corrected member |
|---|---|---|---|---|---|---|
| src/table.c:36-45 | bitSet reads byte `bitOff / 8` with no bound. findBitDiff returns `keySize * 8` for equal keys, including the all-zero key against NULL, so a node can carry that bit, and every lookup then calls bitSet there, one byte past the key. | Insert the all-zero key into an empty table, then peek any key. | Bit `keySize * 8` reads as 1 for every key, as in the Python prototype's sentinel, so equal keys never diverge there. | high, not executed | NanoTable.ZeroKeyHeadOutsideKey | NanoTable.InsertThenPeek |
| src/stack.c:34-44 | nStackDestroy frees `stackData`, which push has advanced by `elemSize` per element. On a managed stack holding elements, free gets a pointer into the middle of the block calloc returned. | nStackInitM with one element of one byte, one push, then nStackDestroy. | The block calloc returned is released, that is `stackData - numElems * elemSize`. | high, not executed | NanoStack.PushThenDestroyAsWritten | NanoStack.NStack.Destroy |
