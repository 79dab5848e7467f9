# Kotlin collections and decimal big integers, modelled in Dafny

This project models four hand-written Kotlin components and proves what they promise:

- **AVL tree map** (`AvlTreeMap`, `AvlTreeNode`) is a mutable map kept in a
  self-balancing binary search tree, ordered by a comparator.
  - Module `AvlTree` is the pure model. It has a `Tree` datatype that keeps the cached
    node height, and functions for `rotateLeft`, `rotateRight`, `balance`, `insert`,
    `delete`, `minValueNode` and lookup. They follow the Kotlin recursion branch for
    branch. Its lemmas prove that every update keeps the search-tree order, the AVL
    balance, correct cached heights, the key set, the map contents and the node count.
    They also prove the map-level results.
  - Module `AvlMap` is the heap version. Classes `AvlTreeNode`, `AvlTreeMap` and
    `TreeEntry` (the write-through entry that `entries` hands out) update nodes in
    place. Each method is proved to leave the tree that the pure function of the old
    tree computes.
  - The comparator is a parameter `cmp: (K, K) -> int`; see "Left out" for what the
    model requires of it.
- **Doubly linked list** (`LinkedList`, `LinkedListNode`) is a `MutableList` built from
  nodes linked by `next` and `prev`.
  - Module `LinkedLists` has the list as a class over real nodes. The ghost sequence
    `nodes` gives the chain order, and `Model()` is the sequence of elements.
  - Every operation is proved against that sequence: index bounds, contents, the first
    or last occurrence, and removal of the first occurrence or of all members of a
    collection.
- **Hash map** (`HashMap`) uses separate chaining, a load factor and rehashing by
  doubling.
  - Module `HashMaps` has the buckets as an array of entry sequences. A ghost `contents`
    map is what they represent.
  - Each method states its new `contents`, the entry counter and the bucket count.
  - Keys' `hashCode` is a function parameter `hash: K -> int`.
- **BigInt** stores a decimal string of digits and a sign in {-1, 0, 1}.
  - Module `BigInts` models the string kernels (`addStrings`, `subtractStrings`,
    `multiplyStrings`, `divideStrings`, `compareStrings`) as methods with their loops,
    and proves them against `Val`, the number a digit string denotes.
  - The operators are proved against `Value`, the signed number a `BigInt` stands for.
    `plus`, `minus`, `times`, `div`, `rem` and `pow` compute the integer sum,
    difference, product, truncating quotient, truncating remainder and power of their
    operands.
  - The constructor is `Parse`, which yields `None` exactly on the inputs the Kotlin
    `require` rejects.

Modules `Options` (the `Option` type and map lookup) and `Arithmetic` (two facts about
multiplication and remainders) are shared by the others.

## Model

| member | source | states |
|---|---|---|
| AvlTree.RotateLeft | src/main/kotlin/avltree/AvlTreeMap.kt:130-137 | the rotated tree has the same in-order entries, key set, map contents and node count |
| AvlTree.RotateRight | src/main/kotlin/avltree/AvlTreeMap.kt:139-146 | the rotated tree has the same in-order entries, key set, map contents and node count |
| AvlTree.Balance | src/main/kotlin/avltree/AvlTreeMap.kt:147-165 | rebalancing never loses or reorders an entry and always yields a node |
| AvlTree.RotateLeftAvl | src/main/kotlin/avltree/AvlTreeMap.kt:130-137 | a left rotation of a node two levels right-heavy whose right child does not lean left gives an AVL tree of the right child's height or one more |
| AvlTree.RotateRightAvl | src/main/kotlin/avltree/AvlTreeMap.kt:139-146 | the mirror image: a right rotation of a node two levels left-heavy whose left child does not lean right |
| AvlTree.RotateLeftRightAvl | src/main/kotlin/avltree/AvlTreeMap.kt:151-154 | the double rotation of a left-heavy node whose left child leans right gives an AVL tree of the left child's height |
| AvlTree.RotateRightLeftAvl | src/main/kotlin/avltree/AvlTreeMap.kt:156-159 | the mirror image for a right-heavy node |
| AvlTree.BalanceAvl | src/main/kotlin/avltree/AvlTreeMap.kt:147-165 | for AVL children whose heights differ by at most two, balance yields an AVL tree whose height is at least the taller child's height and at most one more; a node that is already balanced only has its height recomputed |
| AvlTree.BalanceOfAvl | src/main/kotlin/avltree/AvlTreeMap.kt:147-165 | balance leaves an AVL node with a correct cached height unchanged |
| AvlTree.RotateLeftBst | src/main/kotlin/avltree/AvlTreeMap.kt:130-137 | a rotation keeps the binary-search-tree order |
| AvlTree.RotateRightBst | src/main/kotlin/avltree/AvlTreeMap.kt:139-146 | a rotation keeps the binary-search-tree order |
| AvlTree.BalanceBst | src/main/kotlin/avltree/AvlTreeMap.kt:147-165 | balancing keeps the binary-search-tree order |
| AvlTree.CachedHeightIsHeight | src/main/kotlin/avltree/AvlTreeMap.kt:125 | when every node caches one more than its taller child, `height(node)` is the true height |
| AvlTree.BstCount | src/main/kotlin/avltree/AvlTreeMap.kt:54-55 | in a search tree the number of nodes equals the number of distinct keys |
| AvlTree.Insert | src/main/kotlin/avltree/AvlTreeMap.kt:166-188 | insertion always returns a node with positive cached heights |
| AvlTree.InsertKeys | src/main/kotlin/avltree/AvlTreeMap.kt:166-188 | after insertion the key set is the old one plus the new key |
| AvlTree.InsertBst | src/main/kotlin/avltree/AvlTreeMap.kt:166-188 | insertion keeps the search-tree order |
| AvlTree.InsertElements | src/main/kotlin/avltree/AvlTreeMap.kt:166-188 | the new map is the old one updated at the key, and the returned previous value is the old lookup |
| AvlTree.InsertCount | src/main/kotlin/avltree/AvlTreeMap.kt:172-175 | the node count grows by one exactly when the key was absent |
| AvlTree.InsertAvl | src/main/kotlin/avltree/AvlTreeMap.kt:166-188 | insertion into an AVL tree gives an AVL tree whose height grew by at most one |
| AvlTree.InsertPresentShape | src/main/kotlin/avltree/AvlTreeMap.kt:180-184 | replacing the value of a present key leaves the tree's shape and heights unchanged |
| AvlTree.Min | src/main/kotlin/avltree/AvlTreeMap.kt:215-219 | the leftmost node has no left child |
| AvlTree.MinIsLeast | src/main/kotlin/avltree/AvlTreeMap.kt:215-219 | the leftmost node holds a stored entry whose key is smaller than every other key |
| AvlTree.Delete | src/main/kotlin/avltree/AvlTreeMap.kt:190-213 | deletion keeps every cached height positive |
| AvlTree.DeleteKeys | src/main/kotlin/avltree/AvlTreeMap.kt:190-213 | after deletion the key set is the old one without the key, also when the in-order successor replaces a node with two children |
| AvlTree.DeleteBst | src/main/kotlin/avltree/AvlTreeMap.kt:190-213 | deletion keeps the search-tree order |
| AvlTree.DeleteElements | src/main/kotlin/avltree/AvlTreeMap.kt:190-213 | the new map is the old one without the key, and the returned value is the old lookup |
| AvlTree.DeleteCount | src/main/kotlin/avltree/AvlTreeMap.kt:190-213 | the node count drops by one exactly when a value was removed |
| AvlTree.DeleteAvl | src/main/kotlin/avltree/AvlTreeMap.kt:190-213 | deletion from an AVL tree gives an AVL tree whose height dropped by at most one |
| AvlTree.DeleteAbsent | src/main/kotlin/avltree/AvlTreeMap.kt:190-195 | deleting an absent key returns the very same tree and no value |
| AvlTree.PutCorrect | src/main/kotlin/avltree/AvlTreeMap.kt:99-103 | `put` keeps the map invariant (search order, AVL balance, exact heights, size counter) and updates the map at the key |
| AvlTree.RemoveCorrect | src/main/kotlin/avltree/AvlTreeMap.kt:107-112 | `remove` keeps the map invariant and removes the key, and the counter drops only when something was removed |
| AvlTree.SizeCorrect | src/main/kotlin/avltree/AvlTreeMap.kt:54-55 | under the invariant the size counter is the number of keys |
| AvlTree.FindCorrect | src/main/kotlin/avltree/AvlTreeMap.kt:81-92 | the comparator-guided descent of `get` finds exactly the value stored under the key |
| AvlTree.EntriesSorted | src/main/kotlin/avltree/AvlTreeMap.kt:31-50 | the in-order traversal lists entries in strictly increasing key order |
| AvlTree.EntriesContents | src/main/kotlin/avltree/AvlTreeMap.kt:31-50 | a pair is in the traversal exactly when it is a key and its stored value |
| AvlTree.KeysInOrder | src/main/kotlin/avltree/AvlTreeMap.kt:52-53 | the key list holds exactly the map's keys, strictly increasing |
| AvlTree.ValuesInOrder | src/main/kotlin/avltree/AvlTreeMap.kt:56-57 | the value list has one value per key and holds exactly the map's values |
| AvlTree.SortedUnique | src/main/kotlin/avltree/AvlTreeMap.kt:31-50 | two strictly sorted entry lists with the same members are equal; the traversal depends only on the map |
| AvlTree.FromPairs | src/main/kotlin/avltree/AvlTreeMap.kt:60-74 | building from pairs gives positive cached heights |
| AvlTree.FromPairsCorrect | src/main/kotlin/avltree/AvlTreeMap.kt:60-74 | `from` builds an AVL search tree holding the pairs, the later of two pairs with the same key winning |
| AvlTree.ReversedTotalOrder | src/main/kotlin/avltree/AvlTreeMap.kt:14-16 | the reversed comparator is again a total order |
| AvlTree.FromPairsReversed | src/main/kotlin/avltree/AvlTreeMap.kt:60-74 | under the reversed comparator the same pairs are traversed in exactly the reverse order |
| AvlTree.ReversedEntries | src/main/kotlin/avltree/AvlTreeMap.kt:31-50 | two trees with the same contents, ordered by a comparator and by its reverse, traverse in mutually reversed order |
| AvlMap.AvlTreeNode.constructor | src/main/kotlin/avltree/AvlTreeNode.kt:3-9 | a fresh leaf with the given key and value and height 1 |
| AvlMap.AvlTreeNode.SetValue | src/main/kotlin/avltree/AvlTreeMap.kt:182 | only the node's value changes |
| AvlMap.AvlTreeNode.SetEntry | src/main/kotlin/avltree/AvlTreeMap.kt:206-207 | only the node's key and value change; children and height stay |
| AvlMap.TreeEntry.SetValue | src/main/kotlin/avltree/AvlTreeMap.kt:40-45 | returns the entry's old value and writes the new one into the entry and into its node |
| AvlMap.AvlTreeMap.SetEntryValue | src/main/kotlin/avltree/AvlTreeMap.kt:40-45 | `setValue` through an entry leaves a valid map that maps the node's key to the new value and is otherwise unchanged; a node no longer in the tree leaves the map as it was |
| AvlTree.SetValueAtCorrect | src/main/kotlin/avltree/AvlTreeMap.kt:40-45 | writing a value into the node of a present key keeps the search order, the balance and the size, and maps that key to the new value |
| AvlTree.SetValueAtBst | src/main/kotlin/avltree/AvlTreeMap.kt:40-45 | writing a value into a node keeps the search-tree order |
| AvlTree.SetValueAtElements | src/main/kotlin/avltree/AvlTreeMap.kt:40-45 | writing a value into the node of a present key changes the contents at that key only |
| AvlMap.AvlTreeMap.constructor | src/main/kotlin/avltree/AvlTreeMap.kt:12-16 | an empty map with the given comparator |
| AvlMap.AvlTreeMap.RotateLeft | src/main/kotlin/avltree/AvlTreeMap.kt:130-137 | relinks the same nodes into the pure left rotation of the old subtree |
| AvlMap.AvlTreeMap.RotateRight | src/main/kotlin/avltree/AvlTreeMap.kt:139-146 | relinks the same nodes into the pure right rotation of the old subtree |
| AvlMap.AvlTreeMap.RotateLeftRight | src/main/kotlin/avltree/AvlTreeMap.kt:151-154 | relinks the same nodes into the left-right double rotation |
| AvlMap.AvlTreeMap.RotateRightLeft | src/main/kotlin/avltree/AvlTreeMap.kt:156-159 | relinks the same nodes into the right-left double rotation |
| AvlMap.AvlTreeMap.Balance | src/main/kotlin/avltree/AvlTreeMap.kt:147-165 | the subtree after the call is the pure balance of the old one, over the same nodes |
| AvlMap.AvlTreeMap.BalanceLeftHeavy | src/main/kotlin/avltree/AvlTreeMap.kt:150-154 | the left-heavy case of balance over the same nodes |
| AvlMap.AvlTreeMap.BalanceRightHeavy | src/main/kotlin/avltree/AvlTreeMap.kt:155-159 | the right-heavy case of balance over the same nodes |
| AvlMap.AvlTreeMap.Insert | src/main/kotlin/avltree/AvlTreeMap.kt:166-188 | the new subtree and previous value are those of the pure insertion, and the size counter grows exactly when the key was new |
| AvlMap.AvlTreeMap.InsertLeft | src/main/kotlin/avltree/AvlTreeMap.kt:178 | insertion into the left subtree followed by balance, as the pure insertion does it |
| AvlMap.AvlTreeMap.InsertRight | src/main/kotlin/avltree/AvlTreeMap.kt:179 | insertion into the right subtree followed by balance |
| AvlMap.AvlTreeMap.Delete | src/main/kotlin/avltree/AvlTreeMap.kt:190-213 | the new subtree and removed value are those of the pure deletion, using only existing nodes |
| AvlMap.AvlTreeMap.DeleteLeft | src/main/kotlin/avltree/AvlTreeMap.kt:199 | deletion in the left subtree followed by balance |
| AvlMap.AvlTreeMap.DeleteRight | src/main/kotlin/avltree/AvlTreeMap.kt:200 | deletion in the right subtree followed by balance |
| AvlMap.AvlTreeMap.DeleteEntry | src/main/kotlin/avltree/AvlTreeMap.kt:201-209 | removing the node itself: a missing child promotes the other; otherwise the in-order successor's entry is copied in and the successor is deleted from the right |
| AvlMap.AvlTreeMap.MinValueNode | src/main/kotlin/avltree/AvlTreeMap.kt:215-219 | returns the node the pure leftmost-node function names |
| AvlMap.AvlTreeMap.Size | src/main/kotlin/avltree/AvlTreeMap.kt:54-55 | the number of keys in the map |
| AvlMap.AvlTreeMap.IsEmpty | src/main/kotlin/avltree/AvlTreeMap.kt:77-79 | true exactly when the map has no keys |
| AvlMap.AvlTreeMap.Get | src/main/kotlin/avltree/AvlTreeMap.kt:81-92 | the value stored under the key, or none |
| AvlMap.AvlTreeMap.ContainsKey | src/main/kotlin/avltree/AvlTreeMap.kt:122-124 | true exactly when the key is in the map |
| AvlMap.AvlTreeMap.Put | src/main/kotlin/avltree/AvlTreeMap.kt:99-103 | the map is updated at the key, the previous value is returned, and the invariant holds again |
| AvlMap.AvlTreeMap.Remove | src/main/kotlin/avltree/AvlTreeMap.kt:107-112 | the key is removed, its previous value is returned, and the invariant holds again |
| AvlMap.AvlTreeMap.Clear | src/main/kotlin/avltree/AvlTreeMap.kt:114-116 | the map becomes empty |
| AvlMap.AvlTreeMap.Traverse | src/main/kotlin/avltree/AvlTreeMap.kt:33-48 | the entries produced are the in-order traversal of the subtree |
| AvlMap.AvlTreeMap.Entries | src/main/kotlin/avltree/AvlTreeMap.kt:31-50 | the entries are the in-order traversal of the whole tree, each tied to a node of the tree |
| AvlMap.AvlTreeMap.Keys | src/main/kotlin/avltree/AvlTreeMap.kt:52-53 | exactly the map's keys, in strictly increasing comparator order |
| AvlMap.AvlTreeMap.Values | src/main/kotlin/avltree/AvlTreeMap.kt:56-57 | one value per key, holding exactly the map's values |
| AvlMap.AvlTreeMap.ContainsValue | src/main/kotlin/avltree/AvlTreeMap.kt:118-120 | true exactly when some key maps to the value |
| AvlMap.AvlTreeMap.AnyValue | src/main/kotlin/avltree/AvlTreeMap.kt:118-120 | true exactly when some entry of the list carries the value |
| AvlMap.AvlTreeMap.From | src/main/kotlin/avltree/AvlTreeMap.kt:60-74 | a valid map holding the pairs, later pairs overriding earlier ones |
| AvlMap.AvlTreeMap.PutAll | src/main/kotlin/avltree/AvlTreeMap.kt:93-97 | the old map overridden by the given pairs |
| LinkedLists.FirstIndex | src/main/kotlin/list/LinkedList.kt:228-237 | -1 exactly when the element is absent; otherwise an index holding it with no earlier occurrence |
| LinkedLists.LastIndex | src/main/kotlin/list/LinkedList.kt:216-226 | -1 exactly when the element is absent; otherwise an index holding it with no later occurrence |
| LinkedLists.RemoveFirst | src/main/kotlin/list/LinkedList.kt:170-186 | removing one occurrence takes exactly one copy out of the multiset, and does nothing when the element is absent |
| LinkedLists.RemoveFirstIndex | src/main/kotlin/list/LinkedList.kt:170-186 | what is removed is the element at its first index |
| LinkedLists.Without | src/main/kotlin/list/LinkedList.kt:188-206 | filtering never lengthens the list |
| LinkedLists.WithoutCount | src/main/kotlin/list/LinkedList.kt:188-206 | every removed element loses all its copies and every other element keeps all of them |
| LinkedLists.WithoutMembers | src/main/kotlin/list/LinkedList.kt:188-206 | an element remains exactly when it was present and not in the collection |
| LinkedLists.WithoutShorter | src/main/kotlin/list/LinkedList.kt:188-206 | the list gets shorter exactly when some element belongs to the collection |
| LinkedLists.WithoutUnchanged | src/main/kotlin/list/LinkedList.kt:188-206 | the list is unchanged exactly when no element belongs to the collection |
| LinkedLists.WithoutConcat | src/main/kotlin/list/LinkedList.kt:196-204 | filtering works piecewise, so the node-by-node loop computes it |
| LinkedLists.LinkedListNode.constructor | src/main/kotlin/list/LinkedListNode.kt:3-7 | a node with the given data and links, which default to none |
| LinkedLists.LinkedList.Distinct | src/main/kotlin/list/LinkedList.kt:8-12 | a well-linked chain never visits a node twice |
| LinkedLists.LinkedList.constructor | src/main/kotlin/list/LinkedList.kt:8-12 | an empty list |
| LinkedLists.LinkedList.Size | src/main/kotlin/list/LinkedList.kt:18-19 | the number of elements |
| LinkedLists.LinkedList.IsEmpty | src/main/kotlin/list/LinkedList.kt:50 | true exactly when there are no elements |
| LinkedLists.LinkedList.Get | src/main/kotlin/list/LinkedList.kt:30-37 | the element at the index, or none exactly when the index is out of bounds |
| LinkedLists.LinkedList.Set | src/main/kotlin/list/LinkedList.kt:39-48 | replaces the element at a valid index and returns the old one; with an invalid index nothing changes |
| LinkedLists.LinkedList.Add | src/main/kotlin/list/LinkedList.kt:122-135 | appends the element and returns true |
| LinkedLists.LinkedList.LinkLast | src/main/kotlin/list/LinkedList.kt:124-132 | a fresh node becomes the tail |
| LinkedLists.LinkedList.LinkBefore | src/main/kotlin/list/LinkedList.kt:114-117 | a fresh node is linked in front of the given one |
| LinkedLists.LinkedList.LinkFirst | src/main/kotlin/list/LinkedList.kt:114-117 | a fresh node becomes the head in front of the old head |
| LinkedLists.LinkedList.LinkInner | src/main/kotlin/list/LinkedList.kt:114-116 | a fresh node is linked between two neighbours |
| LinkedLists.LinkedList.AddAt | src/main/kotlin/list/LinkedList.kt:104-120 | inserts the element at a valid index (the end included); an invalid index changes nothing and fails |
| LinkedLists.LinkedList.AddAll | src/main/kotlin/list/LinkedList.kt:52-60 | appends the elements in order, returning true exactly when there were any |
| LinkedLists.LinkedList.AddAllAt | src/main/kotlin/list/LinkedList.kt:62-102 | splices the elements in at a valid index and returns true; an invalid index changes nothing and fails |
| LinkedLists.LinkedList.Seek | src/main/kotlin/list/LinkedList.kt:65-71 | walking `index` links from the head reaches the node at that index, or none past the end |
| LinkedLists.LinkedList.InsertAll | src/main/kotlin/list/LinkedList.kt:73-98 | the elements end up in order in front of the sought node, or at the end |
| LinkedLists.LinkedList.InsertElement | src/main/kotlin/list/LinkedList.kt:75-97 | one element goes in front of the current node, which stays the next insertion point |
| LinkedLists.LinkedList.RemoveNode | src/main/kotlin/list/LinkedList.kt:139-156 | unlinks the given node and leaves the order of the rest intact; a missing node changes nothing |
| LinkedLists.LinkedList.UnlinkOnly | src/main/kotlin/list/LinkedList.kt:143-145 | removing the only node empties the chain |
| LinkedLists.LinkedList.UnlinkHead | src/main/kotlin/list/LinkedList.kt:146-148 | removing the head makes its successor the head |
| LinkedLists.LinkedList.UnlinkTail | src/main/kotlin/list/LinkedList.kt:149-151 | removing the tail makes its predecessor the tail |
| LinkedLists.LinkedList.UnlinkInner | src/main/kotlin/list/LinkedList.kt:152-155 | removing an inner node joins its neighbours |
| LinkedLists.LinkedList.RemoveAt | src/main/kotlin/list/LinkedList.kt:157-169 | removes and returns the element at a valid index; an invalid index changes nothing and gives none |
| LinkedLists.LinkedList.Remove | src/main/kotlin/list/LinkedList.kt:170-186 | removes the first occurrence, returning true exactly when the element was present |
| LinkedLists.LinkedList.RemoveAll | src/main/kotlin/list/LinkedList.kt:188-206 | removes every element that belongs to the collection, returning true exactly when one was present |
| LinkedLists.LinkedList.RemoveIn | src/main/kotlin/list/LinkedList.kt:193-205 | the scan removes the members of the set and reports whether the list got shorter |
| LinkedLists.LinkedList.RemoveCounted | src/main/kotlin/list/LinkedList.kt:198-201 | unlinks one node and decrements the length together |
| LinkedLists.LinkedList.Clear | src/main/kotlin/list/LinkedList.kt:208-212 | the list becomes empty |
| LinkedLists.LinkedList.LastIndexOf | src/main/kotlin/list/LinkedList.kt:216-226 | the index of the last occurrence, or -1 when there is none |
| LinkedLists.LinkedList.IndexOf | src/main/kotlin/list/LinkedList.kt:228-237 | the index of the first occurrence, or -1 when there is none |
| LinkedLists.LinkedList.ContainsAll | src/main/kotlin/list/LinkedList.kt:239-244 | true exactly when every given element is in the list |
| LinkedLists.LinkedList.Contains | src/main/kotlin/list/LinkedList.kt:246-253 | true exactly when the element is in the list |
| LinkedLists.LinkedList.From | src/main/kotlin/list/LinkedList.kt:23-27 | a valid new list holding the elements in order |
| LinkedLists.LinkedList.Iterator | src/main/kotlin/list/LinkedList.kt:263-265 | a new iterator over this list at position 0 |
| LinkedLists.IteratorImpl.constructor | src/main/kotlin/list/LinkedList.kt:279 | an iterator over the given list at position 0 |
| LinkedLists.IteratorImpl.HasNext | src/main/kotlin/list/LinkedList.kt:284-286 | true exactly when the position is below the list's current size |
| LinkedLists.IteratorImpl.Next | src/main/kotlin/list/LinkedList.kt:292-294 | the element at the position, or the out-of-bounds failure past the end; the position advances by one either way |
| HashMaps.BucketIndex | src/main/kotlin/hashmap/HashMap.kt:50 | `hashCode().mod(n)` lies in `[0, n)` and is congruent to the hash code modulo `n` |
| HashMaps.PutIndexAsWritten | src/main/kotlin/hashmap/HashMap.kt:64 | the index `put` computes lies in `[0, n)` |
| HashMaps.RemoveIndexAsWritten | src/main/kotlin/hashmap/HashMap.kt:83 | the index `remove` computes lies in `[0, n)` |
| HashMaps.IndexFormulasAgree | src/main/kotlin/hashmap/HashMap.kt:49-96 | with a power-of-two bucket count the `put` and `remove` index formulas both equal the `get` formula |
| HashMaps.IndexFormulasDisagree | src/main/kotlin/hashmap/HashMap.kt:63-83 | with ten buckets they differ: hash 9 is put in bucket 1 but looked for in bucket 9 by `remove` and `get`; hash -1 is put in and removed from bucket 7 but looked up in bucket 9 |
| HashMaps.LookupAppended | src/main/kotlin/hashmap/HashMap.kt:72 | appending an entry with an absent key adds exactly that key to the bucket's lookup |
| HashMaps.RepresentsReplace | src/main/kotlin/hashmap/HashMap.kt:65-70 | overwriting the value of a key's entry in its bucket (through the entry's `setValue`) updates the represented map at that key |
| HashMaps.RepresentsAppend | src/main/kotlin/hashmap/HashMap.kt:72-73 | appending a new entry represents the map extended by that key and adds one entry |
| HashMaps.RepresentsDelete | src/main/kotlin/hashmap/HashMap.kt:86-93 | deleting a key's entry from its bucket represents the map without that key |
| HashMaps.RepresentsEntries | src/main/kotlin/hashmap/HashMap.kt:27-28 | an entry is stored exactly when it is a key with its value in the map |
| HashMaps.RepresentsUnique | src/main/kotlin/hashmap/HashMap.kt:27-32 | the stored entries carry distinct keys, so their number is the number of keys |
| HashMaps.EntriesProject | src/main/kotlin/hashmap/HashMap.kt:29-34 | projecting the stored entries gives exactly the map's keys and values |
| HashMaps.ProcessedAll | src/main/kotlin/hashmap/HashMap.kt:119-123 | re-putting every old entry, bucket by bucket, rebuilds exactly the old map |
| HashMaps.HashMap.constructor | src/main/kotlin/hashmap/HashMap.kt:7-23 | an empty map with `initialCapacity` buckets and the given load factor |
| HashMaps.HashMap.Size | src/main/kotlin/hashmap/HashMap.kt:31-32 | the counter is the number of keys and the number of stored entries |
| HashMaps.HashMap.IsEmpty | src/main/kotlin/hashmap/HashMap.kt:45-47 | true exactly when the map has no keys |
| HashMaps.HashMap.Get | src/main/kotlin/hashmap/HashMap.kt:49-55 | the value stored under the key, or none |
| HashMaps.HashMap.ContainsKey | src/main/kotlin/hashmap/HashMap.kt:108-110 | true exactly when the key is in the map |
| HashMaps.HashMap.PutEntry | src/main/kotlin/hashmap/HashMap.kt:63-73 | the map is updated at the key and the old value returned; the counter grows exactly for a new key |
| HashMaps.HashMap.Put | src/main/kotlin/hashmap/HashMap.kt:63-78 | as PutEntry, and the bucket count doubles exactly when a new key pushes the counter past the load bound |
| HashMaps.HashMap.Rehash | src/main/kotlin/hashmap/HashMap.kt:114-124 | twice the buckets, the same map and the same counter, within the load bound again |
| HashMaps.HashMap.PutBucket | src/main/kotlin/hashmap/HashMap.kt:119-123 | re-putting one old bucket's entries moves exactly those keys into the new buckets |
| HashMaps.HashMap.Remove | src/main/kotlin/hashmap/HashMap.kt:82-96 | the key is removed and its old value returned; the counter drops exactly when it was there |
| HashMaps.HashMap.Clear | src/main/kotlin/hashmap/HashMap.kt:98-102 | fresh empty buckets, as many as the current capacity |
| HashMaps.HashMap.Entries | src/main/kotlin/hashmap/HashMap.kt:27-28 | exactly the pairs of a key and its value |
| HashMaps.HashMap.Keys | src/main/kotlin/hashmap/HashMap.kt:29-30 | exactly the map's keys |
| HashMaps.HashMap.Values | src/main/kotlin/hashmap/HashMap.kt:33-34 | exactly the map's values, as a set |
| HashMaps.HashMap.ContainsValue | src/main/kotlin/hashmap/HashMap.kt:104-106 | true exactly when some key maps to the value |
| HashMaps.HashMap.PutAll | src/main/kotlin/hashmap/HashMap.kt:57-61 | the old map overridden by the given pairs |
| HashMaps.HashMap.From | src/main/kotlin/hashmap/HashMap.kt:38-42 | a valid new map holding the pairs, later pairs overriding earlier ones |
| BigInts.AddDigits | app/src/main/kotlin/org/example/BigInt.kt:62-72 | the column loop produces reversed digits and a final carry of 0 or 1 that together are the sum |
| BigInts.AddStrings | app/src/main/kotlin/org/example/BigInt.kt:58-77 | the digit string of the sum, at most one digit longer than the longer operand, and canonical for canonical operands |
| BigInts.SubtractDigits | app/src/main/kotlin/org/example/BigInt.kt:82-100 | the borrow loop produces reversed digits and a final borrow that account for the difference |
| BigInts.SubtractStrings | app/src/main/kotlin/org/example/BigInt.kt:78-109 | a canonical string for the difference when the first operand is not smaller; otherwise its ten's complement at the operands' width |
| BigInts.CompareStringsValue | app/src/main/kotlin/org/example/BigInt.kt:408-421 | on canonical strings the comparison is 0 exactly on equal strings and its sign is the sign of the numeric difference |
| BigInts.LexCompareDigits | app/src/main/kotlin/org/example/BigInt.kt:418 | for digit strings of equal length the lexicographic comparison agrees with numeric order |
| BigInts.MultiplyRow | app/src/main/kotlin/org/example/BigInt.kt:120-131 | the inner loop adds one digit of `a` times `b`, placed at its column, to the value of the cells, keeping every cell a digit |
| BigInts.MultiplyStep | app/src/main/kotlin/org/example/BigInt.kt:123-130 | one column step adds a product of two digits at its place and keeps the carry in the next cell |
| BigInts.MultiplyColumns | app/src/main/kotlin/org/example/BigInt.kt:114-132 | the cells, read as a number, are the product |
| BigInts.MultiplyStrings | app/src/main/kotlin/org/example/BigInt.kt:112-137 | the canonical digit string of the product, "0" when a factor is zero |
| BigInts.RepeatedMul | app/src/main/kotlin/org/example/BigInt.kt:387-398 | subtracting `b` `count` times takes `count * b` |
| BigInts.SubtractWhileFits | app/src/main/kotlin/org/example/BigInt.kt:387-398 | repeated subtraction stops with a remainder below `b`, having taken `b` exactly `count` times |
| BigInts.DivideDigit | app/src/main/kotlin/org/example/BigInt.kt:378-399 | bringing down one digit yields a quotient digit below 10 and a remainder below `b` |
| BigInts.LongDivision | app/src/main/kotlin/org/example/BigInt.kt:377-401 | the quotient digits and the remainder satisfy `a = q * b + r` with `0 <= r < b` |
| BigInts.DivideStrings | app/src/main/kotlin/org/example/BigInt.kt:369-405 | fails exactly on divisor "0"; otherwise canonical quotient and remainder with `a = q * b + r` and `r < b` |
| BigInts.Parse | app/src/main/kotlin/org/example/BigInt.kt:8-28 | defined exactly on strings matching `-?[0-9]+`, and then a valid number whose value is the one written |
| BigInts.MagnitudeValue | app/src/main/kotlin/org/example/BigInt.kt:24 | stripping the minus sign and leading zeros gives a canonical digit string of the same magnitude |
| BigInts.FromDigits | app/src/main/kotlin/org/example/BigInt.kt:14-24 | building from a sign prefix and canonical digits keeps the digits, gives sign -1 exactly for the prefix, otherwise 0 for a zero magnitude and 1 for a nonzero one, and denotes the signed number |
| BigInts.FromDigitsParse | app/src/main/kotlin/org/example/BigInt.kt:8-28 | parsing an optional "-" followed by canonical digits gives exactly that number |
| BigInts.Negate | app/src/main/kotlin/org/example/BigInt.kt:33-34 | the same digits and the opposite value; digits "0" give back the number itself, sign included ("-0" stays "-0"), and nonzero digits get the opposite sign |
| BigInts.NegateInvolution | app/src/main/kotlin/org/example/BigInt.kt:33-34 | negating twice gives back the same number |
| BigInts.Abs | app/src/main/kotlin/org/example/BigInt.kt:30 | the same digits, the magnitude as value, and sign 1 unless the digits are "0"; a number that is not negative, or whose digits are "0", is returned as it is ("-0" stays "-0", "00" keeps sign 1) |
| BigInts.CompareToValue | app/src/main/kotlin/org/example/BigInt.kt:313-324 | on numbers with a canonical zero the comparison is 0 exactly on equal numbers and has the sign of the difference of the values |
| BigInts.AbsCompare | app/src/main/kotlin/org/example/BigInt.kt:47 | comparing absolute values orders the magnitudes |
| BigInts.ParseToString | app/src/main/kotlin/org/example/BigInt.kt:311 | printing a number and parsing the text gives back the same number |
| BigInts.ToStringParse | app/src/main/kotlin/org/example/BigInt.kt:311 | parsing a text with no redundant leading zeros and printing the result gives back the text |
| BigInts.EqualsValue | app/src/main/kotlin/org/example/BigInt.kt:360 | on numbers with a canonical zero, equality holds exactly for equal values |
| BigInts.NegativeZero | app/src/main/kotlin/org/example/BigInt.kt:14-24 | "-0" and "0" both stand for zero, yet they are not equal and "-0" compares below "0" |
| BigInts.Plus | app/src/main/kotlin/org/example/BigInt.kt:40-56 | the sum of the values; a zero sum has sign -1 exactly when `x.sign < 0` and (`y.sign < 0` or `x.digits != "0"`), and sign 0 otherwise: -5 + 5 and "-0" + "-0" give sign -1, while 5 + -5 and "-0" + "0" give sign 0 |
| BigInts.AbsEqualCompare | app/src/main/kotlin/org/example/BigInt.kt:47 | on equal magnitudes `abs() >= other.abs()` holds unless both are zero and the left sign is the smaller one |
| BigInts.Minus | app/src/main/kotlin/org/example/BigInt.kt:153-155 | the difference of the values; a zero difference has sign -1 exactly when `x.sign < 0` and (`x.digits != "0"` or `y.sign < 0`), and sign 0 otherwise: `a - a` has sign 0 for a positive `a` and sign -1 for a negative one, "-0" - "-0" has sign -1 and "-0" - "0" has sign 0 |
| BigInts.Times | app/src/main/kotlin/org/example/BigInt.kt:169-171 | the product of the values, with sign -1 exactly when the operand signs multiply to a negative number, otherwise 0 for a zero product (`a * zero` is "0") and 1 for a nonzero one |
| BigInts.TruncDivision | app/src/main/kotlin/org/example/BigInt.kt:191-240 | truncating division: `a = q * b + r`, the remainder smaller than `b` in magnitude and of the sign of `a` |
| BigInts.Div | app/src/main/kotlin/org/example/BigInt.kt:191-200 | fails exactly on a zero divisor; otherwise the quotient of the values truncated toward zero, with sign -1 exactly when the operand signs multiply to a negative number, otherwise 0 for a zero quotient and 1 for a nonzero one |
| BigInts.Rem | app/src/main/kotlin/org/example/BigInt.kt:226-240 | fails exactly on a zero divisor; otherwise the remainder of truncating division, with sign 0 when it is zero and the dividend's sign otherwise |
| BigInts.RoundsValue | app/src/main/kotlin/org/example/BigInt.kt:273-280 | for a non-negative exponent the number of loop rounds is its value |
| BigInts.Pow | app/src/main/kotlin/org/example/BigInt.kt:262-283 | fails exactly on a negative exponent; otherwise the base to the power of the number of rounds the loop runs; a zero result has sign -1 exactly when the base is negative and the loop runs once (`"-0".pow(1)` is "-0"), and sign 0 otherwise (`"0".pow(1)` and `"-0".pow(2)` are "0" with sign 0) |

## Left out

- The `Int`, `Short` and `Byte` overloads of the BigInt constructor and of `plus`, `minus`, `times`, `div`, `rem`, `compareTo` and `pow` are not modelled. They pass `other.toString()` to the string kernels, so a negative argument hands them a leading "-". `rem(Int)` drops the dividend's sign. `compareTo(Short)` and `compareTo(Byte)` compare the texts lexicographically. The model keeps the `BigInt` operand versions only.
- BigInt `hashCode` and the `sign()` getter are not modelled. The first is integer hashing of a string; the second only reads a field.
- BigInt values keep the source's non-canonical zeros. "-0", "00" and a sum such as -5 + 5 give the digits "0" with sign -1 or 1; the operators' contracts say which sign each zero result gets. Equality and comparison of those differ from numeric ones, as `BigInts.NegativeZero` shows. The value-level lemmas (`CompareToValue`, `EqualsValue`) assume a canonical zero for that reason.
- BigInts.Pow: the result is stated in terms of `Rounds(exp)`, the number of times the source's loop runs. That equals the exponent's value except for a non-canonical zero exponent such as "00", with which the loop runs once.
- HashMaps.HashMap.constructor: requires an initial capacity of at least 1. In the source `HashMap(0)` builds a map with no buckets on which `size`, `isEmpty`, `entries` and `clear` work, while `put`, `get`, `remove` and `containsKey` throw `ArithmeticException` from `% 0` (HashMap.kt:64, :83) or `mod(0)` (:50). `HashMap(-1)` throws `NegativeArraySizeException` when the bucket array is made (:21). The model does not have the zero-bucket map.
- Kotlin exceptions (`require` failures, `IndexOutOfBoundsException`, `ArithmeticException`) are modelled as a `None` result that leaves the state unchanged, except `IteratorImpl.Next`, whose position moves on, as `index++` does in the source before `get` throws.
- The BigInt operators are methods, because the kernels they call are loops.
- AVL map comparator: the model requires `cmp` to be a total order that returns 0 exactly on equal keys (`Consistent`, `Antisymmetric`, `Transitive`). Kotlin accepts any `Comparator`, including one that is inconsistent with equality. With such a comparator `put` treats two different keys that compare as 0 as the same key, overwrites the value and keeps the first key object (AvlTreeMap.kt:180-184). The model does not capture keys merged that way.
- AVL map: the run-time check that keys are `Comparable` when no comparator is given (`compare`, lines 18-27) is not modelled. The comparator is always a parameter.
- Null values and `V?` results are not modelled. Values are non-null, and an absent value is `None`.
- `entries` of both maps is modelled without Kotlin's set semantics on entry objects. The AVL map gives the traversal sequence; the hash map gives the set of key and value pairs.
- `putAll(from: Map)` and `from(vararg pairs)` take the pairs as a sequence, which fixes the map's iteration order. When a key appears twice, the later pair wins, as `toMap` does.
- HashMap load factor: a whole number of at least 1 instead of a `Double`. Floating point is out of scope.
- HashMap `hashCode` is the parameter `hash`, and the null key's hash 0 in `put` is not modelled. The model uses `hashCode().mod(n)` (the `get` formula) for every operation; see Findings.
- The list operations the source leaves unimplemented are not modelled: `subList`, `listIterator()`, `listIterator(index)`, `retainAll`, and the `IteratorImpl` members `add`, `hasPrevious`, `nextIndex`, `previous`, `previousIndex`, `remove` and `set`. Each only calls `error("Not yet implemented")`, under the source's comment that they need no implementation. `iterator()`, `hasNext` and `next` are modelled.
- LinkedLists.LinkedList.AddAll, LinkedLists.LinkedList.AddAllAt: the argument collection is a sequence value, so passing the list itself is not captured. In the source `l.addAll(l)` does not terminate, because the iterator compares its index against the growing size. `l.addAll(0, l)` on [1, 2] gives [1, 1, 1, 2] in the source and [1, 2, 1, 2] in the model.
- Integer width: list indices, sizes and the hash-map counters are unbounded integers, so `Int` overflow is not modelled.

## Findings

| source | as written | input that shows it | evidently intended | confidence | as-written member | corrected member |
|---|---|---|---|---|---|---|
| src/main/kotlin/hashmap/HashMap.kt:64 | `put` computes the bucket as `hashCode() and 0x7fffffff % buckets.size`, which Kotlin groups as `hashCode() and (0x7fffffff % size)` | a map made with `HashMap(10)` and a key with hash code 9: `put` stores it in bucket 1, `get` looks in bucket 9 and finds nothing | the same bucket as `get`, `hashCode().mod(buckets.size)` | not executed | HashMaps.IndexFormulasDisagree | HashMaps.BucketIndex |
| src/main/kotlin/hashmap/HashMap.kt:83 | `remove` computes the bucket as `(hashCode() and 0x7fffffff) % buckets.size`, which differs from `mod` for negative hash codes when the size is not a power of two | a map made with `HashMap(10)` and a key with hash code 9: `put` stores it in bucket 1, `remove` looks in bucket 9 and leaves it in the map. With hash code -1 the formula gives bucket 7 where `hashCode().mod(10)` gives 9, so it stays wrong once `put` uses the `get` bucket | the same bucket as `get`, `hashCode().mod(buckets.size)` | not executed | HashMaps.IndexFormulasDisagree | HashMaps.BucketIndex |

The corrected index is the one that `HashMaps.HashMap.Get`, `Put`, `Remove` and
`Rehash` use, and their contracts (get after put, remove after put) are proved with it.
`HashMaps.IndexFormulasAgree` shows that the three formulas coincide for the default
capacity of 32 and for every capacity that doubling produces from it.
