/**
 * The AVL tree behind AvlTreeMap, as a value.
 *
 * Every function here follows one private function of AvlTreeMap.kt step
 * for step (rotateLeft, rotateRight, balance, insert, delete, minValueNode
 * and the loop of get).  The heap-based classes in module AvlMap are proved
 * to compute exactly these functions, so everything proved here about
 * ordering, balance, cached heights, size and map contents carries over to
 * them.
 */
module AvlTree {
  import opened Options

  // ---------------------------------------------------------------------
  // Ordering
  // ---------------------------------------------------------------------

  /**
   * What a Kotlin Comparator is required to be: a total order.  Ties
   * (`compare == 0`) are the same key, so the comparator is taken to be
   * consistent with equality.
   */
  ghost predicate TotalOrder<K(!new)>(cmp: (K, K) -> int) {
    Consistent(cmp) && Antisymmetric(cmp) && Transitive(cmp)
  }

  ghost predicate Consistent<K(!new)>(cmp: (K, K) -> int) {
    forall a, b :: cmp(a, b) == 0 <==> a == b
  }

  ghost predicate Antisymmetric<K(!new)>(cmp: (K, K) -> int) {
    forall a, b :: cmp(a, b) < 0 <==> cmp(b, a) > 0
  }

  ghost predicate Transitive<K(!new)>(cmp: (K, K) -> int) {
    forall a, b, c :: cmp(a, b) < 0 && cmp(b, c) < 0 ==> cmp(a, c) < 0
  }

  /** The comparator `{ o1, o2 -> cmp(o2, o1) }` used by the tests. */
  function Reversed<K>(cmp: (K, K) -> int): (K, K) -> int {
    (a: K, b: K) => cmp(b, a)
  }

  lemma ReversedTotalOrder<K(!new)>(cmp: (K, K) -> int)
    requires TotalOrder(cmp)
    ensures TotalOrder(Reversed(cmp))
  {
    var rc := Reversed(cmp);
    forall a, b, c | rc(a, b) < 0 && rc(b, c) < 0 ensures rc(a, c) < 0 {
      assert cmp(c, b) < 0 && cmp(b, a) < 0;
    }
  }

  // ---------------------------------------------------------------------
  // Trees
  // ---------------------------------------------------------------------

  /** AvlTreeNode as a value: key, value, the two children and the cached height. */
  datatype Tree<K, V> = Nil | Node(key: K, value: V, left: Tree<K, V>, right: Tree<K, V>, height: int)

  function Max(a: int, b: int): int {
    if a >= b then a else b
  }

  /** `height(node)`: the cached height of a node, 0 for an absent child. */
  function H<K, V>(t: Tree<K, V>): int {
    if t.Nil? then 0 else t.height
  }

  /** `balanceFactor(node)`. */
  function BalanceFactor<K, V>(t: Tree<K, V>): int
    requires t.Node?
  {
    H(t.left) - H(t.right)
  }

  /** Every cached height is at least 1 (so `H(t) > 0` exactly when a node is present). */
  predicate Positive<K, V>(t: Tree<K, V>) {
    t.Nil? || (t.height >= 1 && Positive(t.left) && Positive(t.right))
  }

  lemma PositiveH<K, V>(t: Tree<K, V>)
    requires Positive(t)
    ensures H(t) >= 0 && (H(t) > 0 <==> t.Node?)
    ensures t.Node? ==> H(t.left) >= 0 && H(t.right) >= 0
    ensures t.Node? && t.left.Node? ==> H(t.left.left) >= 0 && H(t.left.right) >= 0
    ensures t.Node? && t.right.Node? ==> H(t.right.left) >= 0 && H(t.right.right) >= 0
  {
  }

  // ---------------------------------------------------------------------
  // What a tree means
  // ---------------------------------------------------------------------

  /** The in-order traversal used by `entries`. */
  ghost function Entries<K, V>(t: Tree<K, V>): seq<(K, V)> {
    if t.Nil? then [] else Entries(t.left) + [(t.key, t.value)] + Entries(t.right)
  }

  ghost function Keys<K, V>(t: Tree<K, V>): set<K> {
    if t.Nil? then {} else Keys(t.left) + {t.key} + Keys(t.right)
  }

  /** The key-value contents, collected in order (later entries win). */
  ghost function Elements<K, V>(t: Tree<K, V>): map<K, V> {
    if t.Nil? then map[] else Elements(t.left) + map[t.key := t.value] + Elements(t.right)
  }

  /** The number of nodes. */
  ghost function Count<K, V>(t: Tree<K, V>): nat {
    if t.Nil? then 0 else Count(t.left) + 1 + Count(t.right)
  }

  /** The real height, computed from the structure. */
  ghost function Height<K, V>(t: Tree<K, V>): nat {
    if t.Nil? then 0 else 1 + Max(Height(t.left), Height(t.right))
  }

  /** Binary-search-tree ordering under `cmp`. */
  ghost predicate Bst<K, V>(t: Tree<K, V>, cmp: (K, K) -> int) {
    t.Nil? ||
    (&& Bst(t.left, cmp) && Bst(t.right, cmp)
     && (forall k :: k in Keys(t.left) ==> cmp(k, t.key) < 0)
     && (forall k :: k in Keys(t.right) ==> cmp(k, t.key) > 0))
  }

  /** Cached heights are correct: `height == 1 + max(height(left), height(right))` everywhere. */
  ghost predicate HeightsOk<K, V>(t: Tree<K, V>) {
    t.Nil? || (HeightsOk(t.left) && HeightsOk(t.right) && t.height == 1 + Max(H(t.left), H(t.right)))
  }

  /** AVL balance: the children of every node differ in height by at most one. */
  ghost predicate Balanced<K, V>(t: Tree<K, V>) {
    t.Nil? || (Balanced(t.left) && Balanced(t.right) && -1 <= H(t.left) - H(t.right) <= 1)
  }

  /** The AVL invariant: correct cached heights and balance (positive heights follow from the first). */
  ghost predicate Avl<K, V>(t: Tree<K, V>) {
    Positive(t) && HeightsOk(t) && Balanced(t)
  }

  /** A tree with its values dropped: keys, links and cached heights only. */
  datatype Shape<K> = Leaf | Fork(key: K, left: Shape<K>, right: Shape<K>, height: int)

  ghost function ShapeOf<K, V>(t: Tree<K, V>): Shape<K> {
    if t.Nil? then Leaf else Fork(t.key, ShapeOf(t.left), ShapeOf(t.right), t.height)
  }

  // ---------------------------------------------------------------------
  // The operations of AvlTreeMap
  // ---------------------------------------------------------------------

  /**
   * `rotateLeft(x)`: the right child y becomes the root, x takes over y's
   * left subtree; x's height is recomputed before y's.
   */
  function RotateLeft<K, V>(x: Tree<K, V>): (r: Tree<K, V>)
    requires x.Node? && x.right.Node?
    ensures r.Node? && r.left.Node?
    ensures Entries(r) == Entries(x) && Keys(r) == Keys(x) && Elements(r) == Elements(x)
    ensures Count(r) == Count(x)
  {
    var y := x.right;
    var x' := Node(x.key, x.value, x.left, y.left, 1 + Max(H(x.left), H(y.left)));
    UnionRegroup(Elements(x.left), map[x.key := x.value], Elements(y.left), map[y.key := y.value], Elements(y.right));
    Node(y.key, y.value, x', y.right, 1 + Max(H(x'), H(y.right)))
  }

  /** Map union regrouped around the middle part, as a rotation regroups a subtree. */
  lemma UnionRegroup<K, V>(a: map<K, V>, b: map<K, V>, c: map<K, V>, d: map<K, V>, e: map<K, V>)
    ensures (a + b + c) + d + e == a + b + (c + d + e)
  {
  }

  /** `rotateRight(y)`: the mirror image of RotateLeft. */
  function RotateRight<K, V>(y: Tree<K, V>): (r: Tree<K, V>)
    requires y.Node? && y.left.Node?
    ensures r.Node? && r.right.Node?
    ensures Entries(r) == Entries(y) && Keys(r) == Keys(y) && Elements(r) == Elements(y)
    ensures Count(r) == Count(y)
  {
    var x := y.left;
    var y' := Node(y.key, y.value, x.right, y.right, 1 + Max(H(x.right), H(y.right)));
    UnionRegroup(Elements(x.left), map[x.key := x.value], Elements(x.right), map[y.key := y.value], Elements(y.right));
    Node(x.key, x.value, x.left, y', 1 + Max(H(x.left), H(y')))
  }

  /**
   * `balance(node)`: one single or double rotation when the children's
   * cached heights differ by more than one, otherwise a fresh cached height.
   * The `!!` of the source are safe because cached heights are positive.
   */
  function Balance<K, V>(n: Tree<K, V>): (r: Tree<K, V>)
    requires n.Node? && Positive(n.left) && Positive(n.right)
    ensures r.Node?
    ensures Entries(r) == Entries(n) && Keys(r) == Keys(n) && Elements(r) == Elements(n)
    ensures Count(r) == Count(n)
  {
    PositiveH(n.left);
    PositiveH(n.right);
    var bf := BalanceFactor(n);
    if bf > 1 && BalanceFactor(n.left) >= 0 then
      RotateRight(n)
    else if bf > 1 then
      RotateRight(n.(left := RotateLeft(n.left)))
    else if bf < -1 && BalanceFactor(n.right) <= 0 then
      RotateLeft(n)
    else if bf < -1 then
      RotateLeft(n.(right := RotateRight(n.right)))
    else
      n.(height := 1 + Max(H(n.left), H(n.right)))
  }

  lemma RotateLeftPositive<K, V>(x: Tree<K, V>)
    requires x.Node? && x.right.Node? && Positive(x.left) && Positive(x.right)
    ensures Positive(RotateLeft(x))
  {
    PositiveH(x.left);
    PositiveH(x.right);
  }

  lemma RotateRightPositive<K, V>(y: Tree<K, V>)
    requires y.Node? && y.left.Node? && Positive(y.left) && Positive(y.right)
    ensures Positive(RotateRight(y))
  {
    PositiveH(y.left);
    PositiveH(y.right);
  }

  lemma BalancePositive<K, V>(n: Tree<K, V>)
    requires n.Node? && Positive(n.left) && Positive(n.right)
    ensures Positive(Balance(n))
  {
    PositiveH(n.left);
    PositiveH(n.right);
    var bf := BalanceFactor(n);
    if bf > 1 && BalanceFactor(n.left) >= 0 {
      RotateRightPositive(n);
    } else if bf > 1 {
      RotateLeftPositive(n.left);
      RotateRightPositive(n.(left := RotateLeft(n.left)));
    } else if bf < -1 && BalanceFactor(n.right) <= 0 {
      RotateLeftPositive(n);
    } else if bf < -1 {
      RotateRightPositive(n.right);
      RotateLeftPositive(n.(right := RotateRight(n.right)));
    }
  }

  /**
   * `insert(node, key, value, oldValue)`: the new subtree root and the
   * value the callback receives (None when a new node is allocated).
   */
  function Insert<K, V>(t: Tree<K, V>, key: K, value: V, cmp: (K, K) -> int): (r: (Tree<K, V>, Option<V>))
    requires Positive(t)
    ensures Positive(r.0) && r.0.Node?
    decreases t
  {
    if t.Nil? then
      (Node(key, value, Nil, Nil, 1), None)
    else
      var c := cmp(key, t.key);
      if c < 0 then
        var p := Insert(t.left, key, value, cmp);
        BalancePositive(t.(left := p.0));
        (Balance(t.(left := p.0)), p.1)
      else if c > 0 then
        var p := Insert(t.right, key, value, cmp);
        BalancePositive(t.(right := p.0));
        (Balance(t.(right := p.0)), p.1)
      else
        (t.(value := value), Some(t.value))
  }

  /** `minValueNode(node)`: the leftmost node. */
  function Min<K, V>(t: Tree<K, V>): (m: Tree<K, V>)
    requires t.Node?
    ensures m.Node? && m.left.Nil?
    decreases t
  {
    if t.left.Nil? then t else Min(t.left)
  }

  /**
   * `delete(node, key, oldValue)`: the new subtree root and the value the
   * callback receives.  A node with two children takes over the key and
   * value of its in-order successor, which is then deleted from the right
   * subtree (with a callback that ignores its value).
   */
  function Delete<K, V>(t: Tree<K, V>, key: K, cmp: (K, K) -> int): (r: (Tree<K, V>, Option<V>))
    requires Positive(t)
    ensures Positive(r.0)
    decreases t
  {
    if t.Nil? then
      (Nil, None)
    else
      var c := cmp(key, t.key);
      if c < 0 then
        var p := Delete(t.left, key, cmp);
        BalancePositive(t.(left := p.0));
        (Balance(t.(left := p.0)), p.1)
      else if c > 0 then
        var p := Delete(t.right, key, cmp);
        BalancePositive(t.(right := p.0));
        (Balance(t.(right := p.0)), p.1)
      else if t.left.Nil? then
        (t.right, Some(t.value))
      else if t.right.Nil? then
        (t.left, Some(t.value))
      else
        var m := Min(t.right);
        var p := Delete(t.right, m.key, cmp);
        var n := Node(m.key, m.value, t.left, p.0, t.height);
        BalancePositive(n);
        (Balance(n), Some(t.value))
  }

  /** The descent of `get`: follow the comparator until the key or an absent child. */
  function Find<K, V>(t: Tree<K, V>, key: K, cmp: (K, K) -> int): Option<V> {
    if t.Nil? then None
    else
      var c := cmp(key, t.key);
      if c < 0 then Find(t.left, key, cmp)
      else if c > 0 then Find(t.right, key, cmp)
      else Some(t.value)
  }

  /** `from(pairs)`: repeated `put`, starting from the empty tree. */
  function FromPairs<K, V>(pairs: seq<(K, V)>, cmp: (K, K) -> int): (t: Tree<K, V>)
    ensures Positive(t)
    decreases |pairs|
  {
    if pairs == [] then Nil
    else
      var t0 := FromPairs(pairs[..|pairs| - 1], cmp);
      Insert(t0, pairs[|pairs| - 1].0, pairs[|pairs| - 1].1, cmp).0
  }

  // ---------------------------------------------------------------------
  // Heights and balance
  // ---------------------------------------------------------------------

  lemma {:induction false} HeightsOkPositive<K, V>(t: Tree<K, V>)
    requires HeightsOk(t)
    ensures Positive(t)
  {
    if t.Node? {
      HeightsOkPositive(t.left);
      HeightsOkPositive(t.right);
      PositiveH(t.left);
      PositiveH(t.right);
    }
  }

  /** With correct cached heights, `height(node)` is the real height. */
  lemma {:induction false} CachedHeightIsHeight<K, V>(t: Tree<K, V>)
    requires HeightsOk(t)
    ensures H(t) == Height(t)
  {
    if t.Node? {
      CachedHeightIsHeight(t.left);
      CachedHeightIsHeight(t.right);
    }
  }

  /** Left-left case: one right rotation. */
  lemma RotateRightAvl<K, V>(n: Tree<K, V>)
    requires n.Node? && n.left.Node? && Avl(n.left) && Avl(n.right)
    requires H(n.left) == H(n.right) + 2 && BalanceFactor(n.left) >= 0
    ensures Avl(RotateRight(n))
    ensures H(n.left) <= H(RotateRight(n)) <= H(n.left) + 1
  {
    var l := n.left;
    PositiveH(l.left);
    PositiveH(l.right);
  }

  /** Right-right case: one left rotation. */
  lemma RotateLeftAvl<K, V>(n: Tree<K, V>)
    requires n.Node? && n.right.Node? && Avl(n.left) && Avl(n.right)
    requires H(n.right) == H(n.left) + 2 && BalanceFactor(n.right) <= 0
    ensures Avl(RotateLeft(n))
    ensures H(n.right) <= H(RotateLeft(n)) <= H(n.right) + 1
  {
    var r := n.right;
    PositiveH(r.left);
    PositiveH(r.right);
  }

  /** Left-right case: rotate the left child left, then the node right. */
  lemma RotateLeftRightAvl<K, V>(n: Tree<K, V>)
    requires n.Node? && n.left.Node? && n.left.right.Node? && Avl(n.left) && Avl(n.right)
    requires H(n.left) == H(n.right) + 2 && BalanceFactor(n.left) < 0
    ensures Avl(RotateRight(n.(left := RotateLeft(n.left))))
    ensures H(RotateRight(n.(left := RotateLeft(n.left)))) == H(n.left)
  {
    var l := n.left;
    var lr := l.right;
    PositiveH(l.left);
    assert HeightsOk(lr) && Balanced(lr) && Positive(lr);
    PositiveH(lr.left);
    PositiveH(lr.right);
    var x := Node(l.key, l.value, l.left, lr.left, 1 + Max(H(l.left), H(lr.left)));
    var z := Node(n.key, n.value, lr.right, n.right, 1 + Max(H(lr.right), H(n.right)));
    assert RotateLeft(l) == Node(lr.key, lr.value, x, lr.right, 1 + Max(H(x), H(lr.right)));
    assert RotateRight(n.(left := RotateLeft(l))) == Node(lr.key, lr.value, x, z, 1 + Max(H(x), H(z)));
    assert Avl(x) && Avl(z);
  }

  /** Right-left case: rotate the right child right, then the node left. */
  lemma RotateRightLeftAvl<K, V>(n: Tree<K, V>)
    requires n.Node? && n.right.Node? && n.right.left.Node? && Avl(n.left) && Avl(n.right)
    requires H(n.right) == H(n.left) + 2 && BalanceFactor(n.right) > 0
    ensures Avl(RotateLeft(n.(right := RotateRight(n.right))))
    ensures H(RotateLeft(n.(right := RotateRight(n.right)))) == H(n.right)
  {
    var r := n.right;
    var rl := r.left;
    PositiveH(r.right);
    assert HeightsOk(rl) && Balanced(rl) && Positive(rl);
    PositiveH(rl.left);
    PositiveH(rl.right);
    var x := Node(n.key, n.value, n.left, rl.left, 1 + Max(H(n.left), H(rl.left)));
    var z := Node(r.key, r.value, rl.right, r.right, 1 + Max(H(rl.right), H(r.right)));
    assert RotateRight(r) == Node(rl.key, rl.value, rl.left, z, 1 + Max(H(rl.left), H(z)));
    assert RotateLeft(n.(right := RotateRight(r))) == Node(rl.key, rl.value, x, z, 1 + Max(H(x), H(z)));
    assert Avl(x) && Avl(z);
  }

  /**
   * The rebalancing step.  Given AVL children whose heights differ by at
   * most two, `balance` yields an AVL tree whose height is the larger
   * child height or one more; when the children already differ by at most
   * one it only refreshes the cached height.
   */
  lemma BalanceAvl<K, V>(n: Tree<K, V>)
    requires n.Node? && Avl(n.left) && Avl(n.right)
    requires -2 <= H(n.left) - H(n.right) <= 2
    ensures Avl(Balance(n))
    ensures Max(H(n.left), H(n.right)) <= H(Balance(n)) <= 1 + Max(H(n.left), H(n.right))
    ensures -1 <= H(n.left) - H(n.right) <= 1 ==>
              Balance(n) == n.(height := 1 + Max(H(n.left), H(n.right)))
  {
    var l, r := n.left, n.right;
    PositiveH(l);
    PositiveH(r);
    var bf := H(l) - H(r);
    if bf > 1 {
      PositiveH(l.left);
      PositiveH(l.right);
      if BalanceFactor(l) >= 0 {
        RotateRightAvl(n);
      } else {
        RotateLeftRightAvl(n);
      }
    } else if bf < -1 {
      PositiveH(r.left);
      PositiveH(r.right);
      if BalanceFactor(r) <= 0 {
        RotateLeftAvl(n);
      } else {
        RotateRightLeftAvl(n);
      }
    }
  }

  /** On a node that is already AVL, `balance` changes nothing. */
  lemma BalanceOfAvl<K, V>(n: Tree<K, V>)
    requires n.Node? && Avl(n)
    ensures Balance(n) == n
  {
    BalanceAvl(n);
  }

  /** Shapes determine cached heights, and so the AVL invariant. */
  lemma {:induction false} ShapeAvl<K, V>(a: Tree<K, V>, b: Tree<K, V>)
    requires ShapeOf(a) == ShapeOf(b)
    ensures H(a) == H(b) && Keys(a) == Keys(b) && Count(a) == Count(b)
    ensures Avl(a) <==> Avl(b)
  {
    if a.Node? {
      ShapeAvl(a.left, b.left);
      ShapeAvl(a.right, b.right);
    }
  }

  // ---------------------------------------------------------------------
  // Search-tree order
  // ---------------------------------------------------------------------

  lemma RotateLeftBst<K(!new), V>(x: Tree<K, V>, cmp: (K, K) -> int)
    requires TotalOrder(cmp) && x.Node? && x.right.Node? && Bst(x, cmp)
    ensures Bst(RotateLeft(x), cmp)
  {
    var y := x.right;
    var x' := Node(x.key, x.value, x.left, y.left, 1 + Max(H(x.left), H(y.left)));
    assert Keys(x') == Keys(x.left) + {x.key} + Keys(y.left);
    assert cmp(x.key, y.key) < 0 by {
      assert y.key in Keys(x.right);
    }
    forall k | k in Keys(x') ensures cmp(k, y.key) < 0 {
      if k in Keys(x.left) {
        assert cmp(k, x.key) < 0;
      }
    }
  }

  lemma RotateRightBst<K(!new), V>(y: Tree<K, V>, cmp: (K, K) -> int)
    requires TotalOrder(cmp) && y.Node? && y.left.Node? && Bst(y, cmp)
    ensures Bst(RotateRight(y), cmp)
  {
    var x := y.left;
    var y' := Node(y.key, y.value, x.right, y.right, 1 + Max(H(x.right), H(y.right)));
    assert Keys(y') == Keys(x.right) + {y.key} + Keys(y.right);
    assert cmp(x.key, y.key) < 0 by {
      assert x.key in Keys(y.left);
    }
    forall k | k in Keys(y') ensures cmp(k, x.key) > 0 {
      if k in Keys(y.right) {
        assert cmp(k, y.key) > 0;
      }
    }
  }

  lemma BalanceBst<K(!new), V>(n: Tree<K, V>, cmp: (K, K) -> int)
    requires TotalOrder(cmp) && n.Node? && Positive(n.left) && Positive(n.right) && Bst(n, cmp)
    ensures Bst(Balance(n), cmp)
  {
    PositiveH(n.left);
    PositiveH(n.right);
    var bf := BalanceFactor(n);
    if bf > 1 && BalanceFactor(n.left) >= 0 {
      RotateRightBst(n, cmp);
    } else if bf > 1 {
      RotateLeftRightBst(n, cmp);
    } else if bf < -1 && BalanceFactor(n.right) <= 0 {
      RotateLeftBst(n, cmp);
    } else if bf < -1 {
      RotateRightLeftBst(n, cmp);
    }
  }

  lemma RotateLeftRightBst<K(!new), V>(n: Tree<K, V>, cmp: (K, K) -> int)
    requires TotalOrder(cmp) && n.Node? && n.left.Node? && n.left.right.Node? && Bst(n, cmp)
    ensures Bst(RotateRight(n.(left := RotateLeft(n.left))), cmp)
  {
    RotateLeftBst(n.left, cmp);
    ReplaceLeftBst(n, RotateLeft(n.left), cmp);
    RotateRightBst(n.(left := RotateLeft(n.left)), cmp);
  }

  lemma RotateRightLeftBst<K(!new), V>(n: Tree<K, V>, cmp: (K, K) -> int)
    requires TotalOrder(cmp) && n.Node? && n.right.Node? && n.right.left.Node? && Bst(n, cmp)
    ensures Bst(RotateLeft(n.(right := RotateRight(n.right))), cmp)
  {
    RotateRightBst(n.right, cmp);
    ReplaceRightBst(n, RotateRight(n.right), cmp);
    RotateLeftBst(n.(right := RotateRight(n.right)), cmp);
  }

  /** A search-tree child may be swapped for another search tree over the same keys. */
  lemma ReplaceLeftBst<K, V>(n: Tree<K, V>, l: Tree<K, V>, cmp: (K, K) -> int)
    requires n.Node? && Bst(n, cmp) && Bst(l, cmp) && Keys(l) == Keys(n.left)
    ensures Bst(n.(left := l), cmp)
  {
  }

  lemma ReplaceRightBst<K, V>(n: Tree<K, V>, r: Tree<K, V>, cmp: (K, K) -> int)
    requires n.Node? && Bst(n, cmp) && Bst(r, cmp) && Keys(r) == Keys(n.right)
    ensures Bst(n.(right := r), cmp)
  {
  }

  /** The keys of the contents are the keys of the nodes. */
  lemma {:induction false} ElementsKeys<K, V>(t: Tree<K, V>)
    ensures Elements(t).Keys == Keys(t)
  {
    if t.Node? {
      ElementsKeys(t.left);
      ElementsKeys(t.right);
    }
  }

  /** In a search tree no key occurs twice, so the size is the number of distinct keys. */
  lemma {:induction false} BstCount<K(!new), V>(t: Tree<K, V>, cmp: (K, K) -> int)
    requires TotalOrder(cmp) && Bst(t, cmp)
    ensures |Keys(t)| == Count(t) && |Elements(t)| == Count(t)
  {
    ElementsKeys(t);
    if t.Node? {
      BstCount(t.left, cmp);
      BstCount(t.right, cmp);
      var l, r := Keys(t.left), Keys(t.right);
      forall k | k in l ensures k !in r && k != t.key {
        assert cmp(k, t.key) < 0;
      }
      assert t.key !in r by {
        assert cmp(t.key, t.key) == 0;
      }
      assert |l + {t.key}| == |l| + 1;
      assert |Elements(t).Keys| == |Elements(t)|;
    }
  }

  // ---------------------------------------------------------------------
  // Map algebra
  // ---------------------------------------------------------------------

  lemma UpdateInLeft<K, V>(l: map<K, V>, m: map<K, V>, r: map<K, V>, k: K, v: V)
    requires k !in m && k !in r
    ensures l[k := v] + m + r == (l + m + r)[k := v]
    ensures Lookup(l + m + r, k) == Lookup(l, k)
  {
  }

  lemma UpdateInRight<K, V>(l: map<K, V>, m: map<K, V>, r: map<K, V>, k: K, v: V)
    ensures l + m + r[k := v] == (l + m + r)[k := v]
    ensures k !in m ==> Lookup(l + m + r, k) == Lookup(l + r, k)
  {
  }

  lemma UpdateInMiddle<K, V>(l: map<K, V>, w: V, r: map<K, V>, k: K, v: V)
    requires k !in r
    ensures l + map[k := v] + r == (l + map[k := w] + r)[k := v]
    ensures Lookup(l + map[k := w] + r, k) == Some(w)
  {
  }

  // ---------------------------------------------------------------------
  // insert (put)
  // ---------------------------------------------------------------------

  /** Keys after `insert`: the old ones plus the new key. */
  lemma {:induction false} InsertKeys<K(!new), V>(t: Tree<K, V>, key: K, value: V, cmp: (K, K) -> int)
    requires TotalOrder(cmp) && Positive(t)
    ensures Keys(Insert(t, key, value, cmp).0) == Keys(t) + {key}
  {
    if t.Node? {
      var c := cmp(key, t.key);
      if c < 0 {
        InsertKeys(t.left, key, value, cmp);
      } else if c > 0 {
        InsertKeys(t.right, key, value, cmp);
      }
    }
  }

  /** `insert` keeps the search-tree order. */
  lemma {:induction false} InsertBst<K(!new), V>(t: Tree<K, V>, key: K, value: V, cmp: (K, K) -> int)
    requires TotalOrder(cmp) && Positive(t) && Bst(t, cmp)
    ensures Bst(Insert(t, key, value, cmp).0, cmp)
  {
    if t.Node? {
      var c := cmp(key, t.key);
      if c < 0 {
        var p := Insert(t.left, key, value, cmp);
        InsertBst(t.left, key, value, cmp);
        InsertKeys(t.left, key, value, cmp);
        BalanceBst(t.(left := p.0), cmp);
      } else if c > 0 {
        var p := Insert(t.right, key, value, cmp);
        InsertBst(t.right, key, value, cmp);
        InsertKeys(t.right, key, value, cmp);
        assert cmp(key, t.key) > 0;
        BalanceBst(t.(right := p.0), cmp);
      }
    }
  }

  /**
   * `insert` maps `key` to `value` and leaves every other key alone; the
   * value handed to the callback is the one `key` had before, if any.
   */
  lemma {:induction false} InsertElements<K(!new), V>(t: Tree<K, V>, key: K, value: V, cmp: (K, K) -> int)
    requires TotalOrder(cmp) && Positive(t) && Bst(t, cmp)
    ensures Elements(Insert(t, key, value, cmp).0) == Elements(t)[key := value]
    ensures Insert(t, key, value, cmp).1 == Lookup(Elements(t), key)
  {
    if t.Node? {
      ElementsKeys(t.left);
      ElementsKeys(t.right);
      var l, r := Elements(t.left), Elements(t.right);
      var m := map[t.key := t.value];
      assert Elements(t) == l + m + r;
      var c := cmp(key, t.key);
      if c < 0 {
        var p := Insert(t.left, key, value, cmp);
        InsertElements(t.left, key, value, cmp);
        assert key != t.key;
        assert key !in r;
        UpdateInLeft(l, m, r, key, value);
        assert Insert(t, key, value, cmp) == (Balance(t.(left := p.0)), p.1);
      } else if c > 0 {
        var p := Insert(t.right, key, value, cmp);
        InsertElements(t.right, key, value, cmp);
        assert key != t.key;
        assert key !in l;
        UpdateInRight(l, m, r, key, value);
        assert Insert(t, key, value, cmp) == (Balance(t.(right := p.0)), p.1);
      } else {
        assert key == t.key;
        assert key !in r;
        UpdateInMiddle(l, t.value, r, key, value);
      }
    }
  }

  /** `_size++` happens exactly when no old value is reported. */
  lemma {:induction false} InsertCount<K, V>(t: Tree<K, V>, key: K, value: V, cmp: (K, K) -> int)
    requires Positive(t)
    ensures Count(Insert(t, key, value, cmp).0) == Count(t) + (if Insert(t, key, value, cmp).1.None? then 1 else 0)
  {
    if t.Node? {
      var c := cmp(key, t.key);
      if c < 0 {
        InsertCount(t.left, key, value, cmp);
      } else if c > 0 {
        InsertCount(t.right, key, value, cmp);
      }
    }
  }

  /** `insert` keeps the AVL invariant and grows the height by at most one. */
  lemma {:induction false} InsertAvl<K, V>(t: Tree<K, V>, key: K, value: V, cmp: (K, K) -> int)
    requires Avl(t)
    ensures Avl(Insert(t, key, value, cmp).0)
    ensures H(t) <= H(Insert(t, key, value, cmp).0) <= H(t) + 1
  {
    if t.Node? {
      PositiveH(t);
      var c := cmp(key, t.key);
      if c < 0 {
        InsertAvl(t.left, key, value, cmp);
        BalanceAvl(t.(left := Insert(t.left, key, value, cmp).0));
      } else if c > 0 {
        InsertAvl(t.right, key, value, cmp);
        BalanceAvl(t.(right := Insert(t.right, key, value, cmp).0));
      }
    }
  }

  /** Rebalancing a node whose children have the shapes of an AVL node's children restores that shape. */
  lemma SameShapeBalance<K, V>(t: Tree<K, V>, n: Tree<K, V>)
    requires Avl(t) && t.Node? && n.Node? && n.key == t.key && n.height == t.height
    requires ShapeOf(n.left) == ShapeOf(t.left) && ShapeOf(n.right) == ShapeOf(t.right)
    ensures Positive(n.left) && Positive(n.right)
    ensures ShapeOf(Balance(n)) == ShapeOf(t)
  {
    ShapeAvl(n.left, t.left);
    ShapeAvl(n.right, t.right);
    BalanceAvl(n);
  }

  /**
   * Overwriting a present key touches no link and no height: the tree has
   * the same shape afterwards, only the value at `key` differs.
   */
  lemma {:induction false} InsertPresentShape<K(!new), V>(t: Tree<K, V>, key: K, value: V, cmp: (K, K) -> int)
    requires TotalOrder(cmp) && Avl(t) && Bst(t, cmp) && key in Keys(t)
    ensures ShapeOf(Insert(t, key, value, cmp).0) == ShapeOf(t)
  {
    var c := cmp(key, t.key);
    PositiveH(t);
    if c < 0 {
      assert key in Keys(t.left) by {
        assert key != t.key;
        assert key !in Keys(t.right) by {
          assert cmp(key, t.key) < 0;
        }
      }
      var p := Insert(t.left, key, value, cmp);
      InsertPresentShape(t.left, key, value, cmp);
      InsertAvl(t.left, key, value, cmp);
      ShapeAvl(p.0, t.left);
      SameShapeBalance(t, t.(left := p.0));
    } else if c > 0 {
      assert key in Keys(t.right) by {
        assert key != t.key;
        assert key !in Keys(t.left) by {
          assert cmp(key, t.key) > 0;
        }
      }
      var p := Insert(t.right, key, value, cmp);
      InsertPresentShape(t.right, key, value, cmp);
      InsertAvl(t.right, key, value, cmp);
      ShapeAvl(p.0, t.right);
      SameShapeBalance(t, t.(right := p.0));
    }
  }

  // ---------------------------------------------------------------------
  // minValueNode and delete (remove)
  // ---------------------------------------------------------------------

  /** The leftmost node holds the least key of a search tree, with its value. */
  lemma {:induction false} MinIsLeast<K(!new), V>(t: Tree<K, V>, cmp: (K, K) -> int)
    requires TotalOrder(cmp) && t.Node? && Bst(t, cmp)
    ensures Min(t).key in Keys(t)
    ensures Lookup(Elements(t), Min(t).key) == Some(Min(t).value)
    ensures forall k :: k in Keys(t) && k != Min(t).key ==> cmp(Min(t).key, k) < 0
  {
    ElementsKeys(t.left);
    ElementsKeys(t.right);
    var m := Min(t);
    if t.left.Nil? {
      assert m == t;
      assert t.key !in Keys(t.right) by {
        assert cmp(t.key, t.key) == 0;
      }
    } else {
      MinIsLeast(t.left, cmp);
      assert cmp(m.key, t.key) < 0;
      assert m.key !in Keys(t.right);
      UpdateInLeft(Elements(t.left), map[t.key := t.value], Elements(t.right), m.key, m.value);
      forall k | k in Keys(t) && k != m.key ensures cmp(m.key, k) < 0 {
        if k == t.key {
        } else if k in Keys(t.right) {
          assert cmp(t.key, k) < 0;
        }
      }
    }
  }

  /** Keys after `delete`: the old ones without `key`. */
  lemma {:induction false} DeleteKeys<K(!new), V>(t: Tree<K, V>, key: K, cmp: (K, K) -> int)
    requires TotalOrder(cmp) && Positive(t) && Bst(t, cmp)
    ensures Keys(Delete(t, key, cmp).0) == Keys(t) - {key}
  {
    if t.Node? {
      var c := cmp(key, t.key);
      if c < 0 {
        var p := Delete(t.left, key, cmp);
        DeleteKeys(t.left, key, cmp);
        assert Delete(t, key, cmp).0 == Balance(t.(left := p.0));
        assert key !in Keys(t.right);
      } else if c > 0 {
        var p := Delete(t.right, key, cmp);
        DeleteKeys(t.right, key, cmp);
        assert Delete(t, key, cmp).0 == Balance(t.(right := p.0));
        assert key !in Keys(t.left);
      } else {
        assert key == t.key;
        assert key !in Keys(t.left) && key !in Keys(t.right) by {
          assert cmp(key, key) == 0;
        }
        if t.left.Node? && t.right.Node? {
          DeleteKeysSuccessor(t, cmp);
        }
      }
    }
  }

  lemma DeleteKeysSuccessor<K(!new), V>(t: Tree<K, V>, cmp: (K, K) -> int)
    requires TotalOrder(cmp) && Positive(t) && Bst(t, cmp) && t.Node? && t.left.Node? && t.right.Node?
    requires t.key !in Keys(t.left) && t.key !in Keys(t.right)
    ensures Keys(Delete(t, t.key, cmp).0) == Keys(t) - {t.key}
    decreases t, 0
  {
    var m := Min(t.right);
    var p := Delete(t.right, m.key, cmp);
    assert cmp(t.key, t.key) == 0;
    assert Delete(t, t.key, cmp).0 == Balance(Node(m.key, m.value, t.left, p.0, t.height));
    MinIsLeast(t.right, cmp);
    DeleteKeys(t.right, m.key, cmp);
    SuccessorKeys(Keys(t.left), t.key, Keys(t.right), m.key);
  }

  lemma SuccessorKeys<K>(l: set<K>, k: K, r: set<K>, s: K)
    requires k !in l && k !in r && s in r
    ensures l + {s} + (r - {s}) == (l + {k} + r) - {k}
  {
  }

  /** `delete` keeps the search-tree order. */
  lemma {:induction false} DeleteBst<K(!new), V>(t: Tree<K, V>, key: K, cmp: (K, K) -> int)
    requires TotalOrder(cmp) && Positive(t) && Bst(t, cmp)
    ensures Bst(Delete(t, key, cmp).0, cmp)
  {
    if t.Node? {
      var c := cmp(key, t.key);
      if c < 0 {
        var p := Delete(t.left, key, cmp);
        DeleteBst(t.left, key, cmp);
        DeleteKeys(t.left, key, cmp);
        BalanceBst(t.(left := p.0), cmp);
      } else if c > 0 {
        var p := Delete(t.right, key, cmp);
        DeleteBst(t.right, key, cmp);
        DeleteKeys(t.right, key, cmp);
        BalanceBst(t.(right := p.0), cmp);
      } else if t.left.Node? && t.right.Node? {
        var m := Min(t.right);
        var p := Delete(t.right, m.key, cmp);
        MinIsLeast(t.right, cmp);
        DeleteBst(t.right, m.key, cmp);
        DeleteKeys(t.right, m.key, cmp);
        var n := Node(m.key, m.value, t.left, p.0, t.height);
        assert cmp(t.key, m.key) < 0;
        forall k | k in Keys(t.left) ensures cmp(k, m.key) < 0 {
          assert cmp(k, t.key) < 0;
        }
        forall k | k in Keys(p.0) ensures cmp(k, m.key) > 0 {
          assert cmp(m.key, k) < 0;
        }
        assert Bst(n, cmp);
        BalanceBst(n, cmp);
      }
    }
  }

  /**
   * `delete` drops `key` and leaves every other key alone; the value
   * handed to the callback is the one `key` had, if it was present.
   */
  lemma {:induction false} DeleteElements<K(!new), V>(t: Tree<K, V>, key: K, cmp: (K, K) -> int)
    requires TotalOrder(cmp) && Positive(t) && Bst(t, cmp)
    ensures Elements(Delete(t, key, cmp).0) == Elements(t) - {key}
    ensures Delete(t, key, cmp).1 == Lookup(Elements(t), key)
  {
    if t.Node? {
      ElementsKeys(t.left);
      ElementsKeys(t.right);
      var l, r := Elements(t.left), Elements(t.right);
      var mid := map[t.key := t.value];
      assert Elements(t) == l + mid + r;
      var c := cmp(key, t.key);
      if c < 0 {
        var p := Delete(t.left, key, cmp);
        DeleteElements(t.left, key, cmp);
        assert key != t.key && key !in r;
        RemoveInLeft(l, mid, r, key);
        assert Delete(t, key, cmp) == (Balance(t.(left := p.0)), p.1);
      } else if c > 0 {
        var p := Delete(t.right, key, cmp);
        DeleteElements(t.right, key, cmp);
        assert key != t.key && key !in l;
        RemoveInRight(l, mid, r, key);
        assert Delete(t, key, cmp) == (Balance(t.(right := p.0)), p.1);
      } else {
        assert key == t.key;
        assert key !in l && key !in r by {
          assert cmp(key, key) == 0;
        }
        UpdateInMiddle(l, t.value, r, key, t.value);
        if t.left.Nil? {
          RemoveMiddle(l, t.value, r, key);
        } else if t.right.Nil? {
          RemoveMiddle(l, t.value, r, key);
        } else {
          var m := Min(t.right);
          var p := Delete(t.right, m.key, cmp);
          MinIsLeast(t.right, cmp);
          DeleteElements(t.right, m.key, cmp);
          assert cmp(key, m.key) < 0;
          ReplaceBySuccessor(l, key, t.value, r, m.key, m.value);
        }
      }
    }
  }

  lemma RemoveInLeft<K, V>(l: map<K, V>, m: map<K, V>, r: map<K, V>, k: K)
    requires k !in m && k !in r
    ensures (l - {k}) + m + r == (l + m + r) - {k}
  {
  }

  lemma RemoveInRight<K, V>(l: map<K, V>, m: map<K, V>, r: map<K, V>, k: K)
    requires k !in m && k !in l
    ensures l + m + (r - {k}) == (l + m + r) - {k}
  {
  }

  lemma RemoveMiddle<K, V>(l: map<K, V>, w: V, r: map<K, V>, k: K)
    requires k !in l && k !in r
    ensures l + r == (l + map[k := w] + r) - {k}
    ensures l == map[] ==> r == (l + map[k := w] + r) - {k}
    ensures r == map[] ==> l == (l + map[k := w] + r) - {k}
  {
  }

  /** The two-children case: the successor's entry moves up into the deleted node. */
  lemma ReplaceBySuccessor<K, V>(l: map<K, V>, k: K, w: V, r: map<K, V>, s: K, sv: V)
    requires k !in l && k !in r && k != s
    requires s in r && r[s] == sv
    ensures l + map[s := sv] + (r - {s}) == (l + map[k := w] + r) - {k}
  {
  }

  /** `remove` decrements the size exactly when an old value is reported. */
  lemma {:induction false} DeleteCount<K(!new), V>(t: Tree<K, V>, key: K, cmp: (K, K) -> int)
    requires TotalOrder(cmp) && Positive(t) && Bst(t, cmp)
    ensures Count(Delete(t, key, cmp).0) == Count(t) - (if Delete(t, key, cmp).1.Some? then 1 else 0)
  {
    if t.Node? {
      var c := cmp(key, t.key);
      if c < 0 {
        DeleteCount(t.left, key, cmp);
      } else if c > 0 {
        DeleteCount(t.right, key, cmp);
      } else if t.left.Node? && t.right.Node? {
        var m := Min(t.right);
        MinIsLeast(t.right, cmp);
        DeleteCount(t.right, m.key, cmp);
        DeleteElements(t.right, m.key, cmp);
      }
    }
  }

  /** `delete` keeps the AVL invariant and lowers the height by at most one. */
  lemma {:induction false} DeleteAvl<K, V>(t: Tree<K, V>, key: K, cmp: (K, K) -> int)
    requires Avl(t)
    ensures Avl(Delete(t, key, cmp).0)
    ensures H(t) - 1 <= H(Delete(t, key, cmp).0) <= H(t)
  {
    if t.Node? {
      PositiveH(t);
      var c := cmp(key, t.key);
      if c < 0 {
        DeleteAvl(t.left, key, cmp);
        BalanceAvl(t.(left := Delete(t.left, key, cmp).0));
      } else if c > 0 {
        DeleteAvl(t.right, key, cmp);
        BalanceAvl(t.(right := Delete(t.right, key, cmp).0));
      } else if t.left.Node? && t.right.Node? {
        var m := Min(t.right);
        var p := Delete(t.right, m.key, cmp);
        DeleteAvl(t.right, m.key, cmp);
        BalanceAvl(Node(m.key, m.value, t.left, p.0, t.height));
      }
    }
  }

  /** Removing an absent key rebuilds nothing: the tree comes back unchanged. */
  lemma {:induction false} DeleteAbsent<K(!new), V>(t: Tree<K, V>, key: K, cmp: (K, K) -> int)
    requires TotalOrder(cmp) && Avl(t) && key !in Keys(t)
    ensures Delete(t, key, cmp) == (t, None)
  {
    if t.Node? {
      assert key != t.key;
      var c := cmp(key, t.key);
      if c < 0 {
        DeleteAbsent(t.left, key, cmp);
        BalanceOfAvl(t);
      } else {
        DeleteAbsent(t.right, key, cmp);
        BalanceOfAvl(t);
      }
    }
  }

  // ---------------------------------------------------------------------
  // The map invariant, and what put and remove do to it
  // ---------------------------------------------------------------------

  /**
   * What an AvlTreeMap keeps true of its tree and its `_size` counter: a
   * search tree under a total order, with the AVL balance and correct
   * cached heights, and as many nodes as `_size` says.
   */
  ghost predicate MapInvariant<K(!new), V>(t: Tree<K, V>, size: int, cmp: (K, K) -> int) {
    TotalOrder(cmp) && Bst(t, cmp) && Avl(t) && size == Count(t)
  }

  /** `put` keeps the invariant (counting a new key), maps `key` to `value` and reports the old value. */
  lemma PutCorrect<K(!new), V>(t: Tree<K, V>, size: int, key: K, value: V, cmp: (K, K) -> int)
    requires MapInvariant(t, size, cmp)
    ensures var (r, prev) := Insert(t, key, value, cmp);
      && MapInvariant(r, if prev.None? then size + 1 else size, cmp)
      && Elements(r) == Elements(t)[key := value]
      && prev == Lookup(Elements(t), key)
  {
    InsertBst(t, key, value, cmp);
    InsertAvl(t, key, value, cmp);
    InsertElements(t, key, value, cmp);
    InsertCount(t, key, value, cmp);
  }

  /** `remove` keeps the invariant (uncounting a removed key), drops `key` and reports its value. */
  lemma RemoveCorrect<K(!new), V>(t: Tree<K, V>, size: int, key: K, cmp: (K, K) -> int)
    requires MapInvariant(t, size, cmp)
    ensures var (r, prev) := Delete(t, key, cmp);
      && MapInvariant(r, if prev.Some? then size - 1 else size, cmp)
      && Elements(r) == Elements(t) - {key}
      && prev == Lookup(Elements(t), key)
  {
    DeleteBst(t, key, cmp);
    DeleteAvl(t, key, cmp);
    DeleteElements(t, key, cmp);
    DeleteCount(t, key, cmp);
  }

  /** `size` is the number of keys the map holds. */
  lemma SizeCorrect<K(!new), V>(t: Tree<K, V>, size: int, cmp: (K, K) -> int)
    requires MapInvariant(t, size, cmp)
    ensures size == |Elements(t)|
  {
    BstCount(t, cmp);
  }

  // ---------------------------------------------------------------------
  // setValue of an entry
  // ---------------------------------------------------------------------

  /**
   * The tree after an entry's `setValue(v)` has written into the node holding
   * `key`: the node is the one the search for `key` reaches, and only its
   * value changes.
   */
  ghost function SetValueAt<K, V>(t: Tree<K, V>, key: K, v: V, cmp: (K, K) -> int): (r: Tree<K, V>)
    ensures ShapeOf(r) == ShapeOf(t)
  {
    if t.Nil? then Nil
    else if cmp(key, t.key) < 0 then Node(t.key, t.value, SetValueAt(t.left, key, v, cmp), t.right, t.height)
    else if cmp(key, t.key) > 0 then Node(t.key, t.value, t.left, SetValueAt(t.right, key, v, cmp), t.height)
    else Node(t.key, v, t.left, t.right, t.height)
  }

  /** Writing a value into a node keeps the search-tree order, which only looks at keys. */
  lemma {:induction false} SetValueAtBst<K, V>(t: Tree<K, V>, key: K, v: V, cmp: (K, K) -> int)
    requires Bst(t, cmp)
    ensures Bst(SetValueAt(t, key, v, cmp), cmp)
  {
    if t.Node? {
      SetValueAtBst(t.left, key, v, cmp);
      SetValueAtBst(t.right, key, v, cmp);
      ShapeAvl(t.left, SetValueAt(t.left, key, v, cmp));
      ShapeAvl(t.right, SetValueAt(t.right, key, v, cmp));
    }
  }

  /** Writing a value into the node of a present key maps that key to the value and changes nothing else. */
  lemma {:induction false} SetValueAtElements<K(!new), V>(t: Tree<K, V>, key: K, v: V, cmp: (K, K) -> int)
    requires TotalOrder(cmp) && Bst(t, cmp) && key in Keys(t)
    ensures Elements(SetValueAt(t, key, v, cmp)) == Elements(t)[key := v]
  {
    ElementsKeys(t.left);
    ElementsKeys(t.right);
    var l, r := Elements(t.left), Elements(t.right);
    var c := cmp(key, t.key);
    if c < 0 {
      assert key != t.key && key !in r;
      SetValueAtElements(t.left, key, v, cmp);
      UpdateInLeft(l, map[t.key := t.value], r, key, v);
    } else if c > 0 {
      assert key != t.key && key !in l;
      SetValueAtElements(t.right, key, v, cmp);
      UpdateInRight(l, map[t.key := t.value], r, key, v);
    } else {
      assert key == t.key && key !in r;
      UpdateInMiddle(l, t.value, r, key, v);
    }
  }

  /**
   * An entry's `setValue(v)` on the node of a present key leaves a valid map
   * of the same size, in which that key now maps to `v`.
   */
  lemma SetValueAtCorrect<K(!new), V>(t: Tree<K, V>, size: int, key: K, v: V, cmp: (K, K) -> int)
    requires MapInvariant(t, size, cmp) && key in Keys(t)
    ensures MapInvariant(SetValueAt(t, key, v, cmp), size, cmp)
    ensures Elements(SetValueAt(t, key, v, cmp)) == Elements(t)[key := v]
  {
    SetValueAtBst(t, key, v, cmp);
    ShapeAvl(t, SetValueAt(t, key, v, cmp));
    SetValueAtElements(t, key, v, cmp);
  }

  // ---------------------------------------------------------------------
  // get, entries and from
  // ---------------------------------------------------------------------

  /** The descent of `get` finds exactly what the tree maps `key` to. */
  lemma {:induction false} FindCorrect<K(!new), V>(t: Tree<K, V>, key: K, cmp: (K, K) -> int)
    requires TotalOrder(cmp) && Bst(t, cmp)
    ensures Find(t, key, cmp) == Lookup(Elements(t), key)
  {
    if t.Node? {
      ElementsKeys(t.left);
      ElementsKeys(t.right);
      var l, r := Elements(t.left), Elements(t.right);
      var mid := map[t.key := t.value];
      var c := cmp(key, t.key);
      if c < 0 {
        FindCorrect(t.left, key, cmp);
        assert key != t.key && key !in r;
        UpdateInLeft(l, mid, r, key, t.value);
      } else if c > 0 {
        FindCorrect(t.right, key, cmp);
        assert key != t.key && key !in l;
        UpdateInRight(l, mid, r, key, t.value);
      } else {
        assert key == t.key && key !in r;
        UpdateInMiddle(l, t.value, r, key, t.value);
      }
    }
  }

  /** Strictly ascending keys under `cmp`. */
  ghost predicate SortedBy<K, V>(s: seq<(K, V)>, cmp: (K, K) -> int) {
    forall i, j :: 0 <= i < j < |s| ==> cmp(s[i].0, s[j].0) < 0
  }

  lemma {:induction false} EntryKeys<K, V>(t: Tree<K, V>)
    ensures |Entries(t)| == Count(t)
    ensures forall i :: 0 <= i < |Entries(t)| ==> Entries(t)[i].0 in Keys(t)
  {
    if t.Node? {
      EntryKeys(t.left);
      EntryKeys(t.right);
      var el, er := Entries(t.left), Entries(t.right);
      forall i | 0 <= i < |Entries(t)| ensures Entries(t)[i].0 in Keys(t) {
        if i < |el| {
          assert Entries(t)[i] == el[i];
        } else if i > |el| {
          assert Entries(t)[i] == er[i - |el| - 1];
        }
      }
    }
  }

  /** A sorted left part, a middle pair and a sorted right part on either side of it form a sorted sequence. */
  lemma SortedConcat<K(!new), V>(l: seq<(K, V)>, x: (K, V), r: seq<(K, V)>, cmp: (K, K) -> int)
    requires Transitive(cmp) && SortedBy(l, cmp) && SortedBy(r, cmp)
    requires forall i :: 0 <= i < |l| ==> cmp(l[i].0, x.0) < 0
    requires forall j :: 0 <= j < |r| ==> cmp(x.0, r[j].0) < 0
    ensures SortedBy(l + [x] + r, cmp)
  {
    var e := l + [x] + r;
    forall i, j | 0 <= i < j < |e| ensures cmp(e[i].0, e[j].0) < 0 {
      if j < |l| {
        assert e[i] == l[i] && e[j] == l[j];
      } else if i > |l| {
        assert e[i] == r[i - |l| - 1] && e[j] == r[j - |l| - 1];
      } else if i == |l| {
        assert e[j] == r[j - |l| - 1];
      } else if j == |l| {
        assert e[i] == l[i];
      } else {
        assert e[i] == l[i] && e[j] == r[j - |l| - 1];
        assert cmp(e[i].0, x.0) < 0 && cmp(x.0, e[j].0) < 0;
      }
    }
  }

  /** `entries` lists the keys in ascending comparator order. */
  lemma {:induction false} EntriesSorted<K(!new), V>(t: Tree<K, V>, cmp: (K, K) -> int)
    requires TotalOrder(cmp) && Bst(t, cmp)
    ensures SortedBy(Entries(t), cmp)
  {
    if t.Node? {
      EntriesSorted(t.left, cmp);
      EntriesSorted(t.right, cmp);
      EntryKeys(t.left);
      EntryKeys(t.right);
      var el, er := Entries(t.left), Entries(t.right);
      forall j | 0 <= j < |er| ensures cmp(t.key, er[j].0) < 0 {
        assert cmp(er[j].0, t.key) > 0;
      }
      SortedConcat(el, (t.key, t.value), er, cmp);
    }
  }

  /** `entries` holds exactly the pairs of the tree's contents. */
  lemma {:induction false} EntriesContents<K(!new), V>(t: Tree<K, V>, cmp: (K, K) -> int)
    requires TotalOrder(cmp) && Bst(t, cmp)
    ensures forall p :: p in Entries(t) <==> p.0 in Elements(t) && Elements(t)[p.0] == p.1
  {
    if t.Node? {
      EntriesContents(t.left, cmp);
      EntriesContents(t.right, cmp);
      ElementsKeys(t.left);
      ElementsKeys(t.right);
      var l, r := Elements(t.left), Elements(t.right);
      var mid := map[t.key := t.value];
      forall p ensures p in Entries(t) <==> p.0 in Elements(t) && Elements(t)[p.0] == p.1 {
        if p.0 in r {
          assert cmp(p.0, t.key) > 0;
          assert p.0 != t.key && p.0 !in l;
          UpdateInRight(l, mid, r, p.0, p.1);
        } else if p.0 == t.key {
          assert p.0 !in l by {
            assert cmp(t.key, t.key) == 0;
          }
          UpdateInMiddle(l, t.value, r, p.0, p.1);
        } else {
          UpdateInLeft(l, mid, r, p.0, p.1);
        }
      }
    }
  }

  /** The keys of a pair sequence, in order (`entries.map { it.key }`). */
  function KeysOf<K, V>(s: seq<(K, V)>): (r: seq<K>)
    ensures |r| == |s| && forall i :: 0 <= i < |s| ==> r[i] == s[i].0
  {
    seq(|s|, i requires 0 <= i < |s| => s[i].0)
  }

  /** The values of a pair sequence, in order (`entries.map { it.value }`). */
  function ValuesOf<K, V>(s: seq<(K, V)>): (r: seq<V>)
    ensures |r| == |s| && forall i :: 0 <= i < |s| ==> r[i] == s[i].1
  {
    seq(|s|, i requires 0 <= i < |s| => s[i].1)
  }

  lemma PairsKeys<K, V>(e: seq<(K, V)>, m: map<K, V>)
    requires forall p :: p in e <==> p.0 in m && m[p.0] == p.1
    ensures forall k :: k in KeysOf(e) <==> k in m
  {
    var ks := KeysOf(e);
    forall k ensures k in ks <==> k in m {
      if k in ks {
        var i :| 0 <= i < |ks| && ks[i] == k;
        assert e[i] in e;
      }
      if k in m {
        var p := (k, m[k]);
        assert p in e;
        var i :| 0 <= i < |e| && e[i] == p;
        assert ks[i] == k;
      }
    }
  }

  lemma PairsValues<K, V>(e: seq<(K, V)>, m: map<K, V>)
    requires forall p :: p in e <==> p.0 in m && m[p.0] == p.1
    ensures forall v :: v in ValuesOf(e) <==> v in m.Values
  {
    var vs := ValuesOf(e);
    forall v ensures v in vs <==> v in m.Values {
      if v in vs {
        var i :| 0 <= i < |vs| && vs[i] == v;
        assert e[i] in e;
      }
      if v in m.Values {
        var k :| k in m && m[k] == v;
        var p := (k, v);
        assert p in e;
        var i :| 0 <= i < |e| && e[i] == p;
        assert vs[i] == v;
      }
    }
  }

  /** `keys` holds each key of the map exactly once, in ascending comparator order. */
  lemma KeysInOrder<K(!new), V>(t: Tree<K, V>, cmp: (K, K) -> int)
    requires TotalOrder(cmp) && Bst(t, cmp)
    ensures var ks := KeysOf(Entries(t));
      && (forall k :: k in ks <==> k in Elements(t))
      && (forall i, j :: 0 <= i < j < |ks| ==> cmp(ks[i], ks[j]) < 0)
  {
    EntriesContents(t, cmp);
    EntriesSorted(t, cmp);
    PairsKeys(Entries(t), Elements(t));
  }

  /** `values` has one value per key, and holds exactly the values the map maps some key to. */
  lemma ValuesInOrder<K(!new), V>(t: Tree<K, V>, cmp: (K, K) -> int)
    requires TotalOrder(cmp) && Bst(t, cmp)
    ensures var vs := ValuesOf(Entries(t));
      && |vs| == |Elements(t)|
      && (forall v :: v in vs <==> v in Elements(t).Values)
  {
    EntriesContents(t, cmp);
    EntryKeys(t);
    BstCount(t, cmp);
    PairsValues(Entries(t), Elements(t));
  }

  lemma SortedTail<K, V>(a: seq<(K, V)>, cmp: (K, K) -> int)
    requires SortedBy(a, cmp) && |a| > 0
    ensures SortedBy(a[1..], cmp)
  {
    var t := a[1..];
    forall i, j | 0 <= i < j < |t| ensures cmp(t[i].0, t[j].0) < 0 {
      assert t[i] == a[i + 1] && t[j] == a[j + 1];
    }
  }

  /** Behind an equal first pair, each sorted sequence's remaining pairs occur in the other's remainder. */
  lemma TailMembers<K(!new), V>(a: seq<(K, V)>, b: seq<(K, V)>, cmp: (K, K) -> int)
    requires Consistent(cmp) && SortedBy(a, cmp)
    requires |a| > 0 && |b| > 0 && a[0] == b[0]
    requires forall p :: p in a ==> p in b
    ensures forall p :: p in a[1..] ==> p in b[1..]
  {
    var a', b' := a[1..], b[1..];
    forall p | p in a' ensures p in b' {
      var k :| 0 <= k < |a'| && a'[k] == p;
      assert a[k + 1] == p && cmp(a[0].0, p.0) < 0;
      assert p in a;
      var m :| 0 <= m < |b| && b[m] == p;
      assert m != 0;
      assert b'[m - 1] == p;
    }
  }

  /** Two strictly sorted sequences holding the same pairs are the same sequence. */
  lemma {:induction false} SortedUnique<K(!new), V>(a: seq<(K, V)>, b: seq<(K, V)>, cmp: (K, K) -> int)
    requires Consistent(cmp) && Antisymmetric(cmp) && SortedBy(a, cmp) && SortedBy(b, cmp)
    requires forall p :: p in a <==> p in b
    ensures a == b
    decreases |a|
  {
    assert |a| == 0 || a[0] in b;
    assert |b| == 0 || b[0] in a;
    if |a| > 0 && |b| > 0 {
      var a0, b0 := a[0], b[0];
      var i :| 0 <= i < |a| && a[i] == b0;
      var j :| 0 <= j < |b| && b[j] == a0;
      assert i == 0 || cmp(a0.0, b0.0) < 0;
      assert j == 0 || cmp(b0.0, a0.0) < 0;
      assert a0 == b0;
      var a', b' := a[1..], b[1..];
      TailMembers(a, b, cmp);
      TailMembers(b, a, cmp);
      SortedTail(a, cmp);
      SortedTail(b, cmp);
      SortedUnique(a', b', cmp);
      assert a == [a[0]] + a' && b == [b[0]] + b';
    }
  }

  ghost function Rev<T>(s: seq<T>): (r: seq<T>)
    ensures |r| == |s|
    ensures forall i :: 0 <= i < |s| ==> r[i] == s[|s| - 1 - i]
  {
    if s == [] then [] else Rev(s[1..]) + [s[0]]
  }

  lemma RevSorted<K, V>(s: seq<(K, V)>, cmp: (K, K) -> int)
    requires SortedBy(s, Reversed(cmp))
    ensures SortedBy(Rev(s), cmp)
  {
    var r := Rev(s);
    forall i, j | 0 <= i < j < |r| ensures cmp(r[i].0, r[j].0) < 0 {
      assert Reversed(cmp)(s[|s| - 1 - j].0, s[|s| - 1 - i].0) < 0;
    }
  }

  lemma RevMembers<T>(s: seq<T>)
    ensures forall x :: x in Rev(s) <==> x in s
  {
    var r := Rev(s);
    forall x ensures x in r <==> x in s {
      if x in r {
        var i :| 0 <= i < |r| && r[i] == x;
        assert s[|s| - 1 - i] == x;
      }
      if x in s {
        var i :| 0 <= i < |s| && s[i] == x;
        assert r[|s| - 1 - i] == x;
      }
    }
  }

  /** `from(pairs)` builds a search tree with the AVL invariant holding the pairs, later pairs winning. */
  lemma {:induction false} FromPairsCorrect<K(!new), V>(pairs: seq<(K, V)>, cmp: (K, K) -> int)
    requires TotalOrder(cmp)
    ensures Bst(FromPairs(pairs, cmp), cmp) && Avl(FromPairs(pairs, cmp))
    ensures Elements(FromPairs(pairs, cmp)) == PairsToMap(pairs)
    decreases |pairs|
  {
    if pairs != [] {
      var init := pairs[..|pairs| - 1];
      var (k, v) := pairs[|pairs| - 1];
      FromPairsCorrect(init, cmp);
      var t0 := FromPairs(init, cmp);
      InsertBst(t0, k, v, cmp);
      InsertAvl(t0, k, v, cmp);
      InsertElements(t0, k, v, cmp);
    }
  }

  /**
   * The same pairs under the reversed comparator come out of `entries` in
   * exactly the opposite order.
   */
  lemma FromPairsReversed<K(!new), V>(pairs: seq<(K, V)>, cmp: (K, K) -> int)
    requires TotalOrder(cmp)
    ensures Entries(FromPairs(pairs, Reversed(cmp))) == Rev(Entries(FromPairs(pairs, cmp)))
  {
    ReversedTotalOrder(cmp);
    FromPairsCorrect(pairs, cmp);
    FromPairsCorrect(pairs, Reversed(cmp));
    ReversedEntries(FromPairs(pairs, cmp), FromPairs(pairs, Reversed(cmp)), cmp);
  }

  /** Two search trees with the same contents, one under `cmp` and one under its reverse, list them in opposite orders. */
  lemma ReversedEntries<K(!new), V>(t1: Tree<K, V>, t2: Tree<K, V>, cmp: (K, K) -> int)
    requires TotalOrder(cmp) && TotalOrder(Reversed(cmp))
    requires Bst(t1, cmp) && Bst(t2, Reversed(cmp)) && Elements(t1) == Elements(t2)
    ensures Entries(t2) == Rev(Entries(t1))
  {
    var e1, e2 := Entries(t1), Entries(t2);
    EntriesSorted(t1, cmp);
    EntriesSorted(t2, Reversed(cmp));
    EntriesContents(t1, cmp);
    EntriesContents(t2, Reversed(cmp));
    RevSorted(e2, cmp);
    SameMembersRev(e1, e2, Elements(t1));
    SortedUnique(Rev(e2), e1, cmp);
    RevRev(e2);
  }

  lemma SameMembersRev<K, V>(e1: seq<(K, V)>, e2: seq<(K, V)>, m: map<K, V>)
    requires forall p :: p in e1 <==> p.0 in m && m[p.0] == p.1
    requires forall p :: p in e2 <==> p.0 in m && m[p.0] == p.1
    ensures forall p :: p in Rev(e2) <==> p in e1
  {
    RevMembers(e2);
  }

  lemma RevRev<T>(s: seq<T>)
    ensures Rev(Rev(s)) == s
  {
    assert forall i :: 0 <= i < |s| ==> Rev(Rev(s))[i] == s[i];
  }
}
