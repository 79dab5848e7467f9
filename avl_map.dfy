/**
 * AvlTreeMap and AvlTreeNode as heap objects.
 *
 * Nodes are linked through nullable `left`/`right` references and every
 * operation rewires them in place, as the Kotlin code does.  Each node
 * carries a ghost footprint `Repr`; `Tree()` reads the heap and returns the
 * subtree as an AvlTree.Tree value, and every method is proved to leave
 * behind exactly the tree the corresponding function of module AvlTree
 * computes.  The ordering, balance and map facts are then proved once, on
 * those functions.
 */
module AvlMap {
  import opened Options
  import AvlTree

  /** AvlTreeNode: key, value, the two children and the cached height (1 for a new node). */
  class AvlTreeNode<K, V> {
    var key: K
    var value: V
    var left: AvlTreeNode?<K, V>
    var right: AvlTreeNode?<K, V>
    var height: int
    /** The nodes of the subtree rooted here. */
    ghost var Repr: set<AvlTreeNode<K, V>>
    /** The subtree rooted here, as a value. */
    ghost var Subtree: AvlTree.Tree<K, V>

    /** The nodes are linked as a tree whose value is `Subtree`. */
    ghost predicate Valid()
      reads this, Repr
      ensures Valid() ==> this in Repr && Subtree.Node? && Subtree.height == height
      decreases Repr
    {
      && this in Repr
      && (left != null ==> left in Repr)
      && (right != null ==> right in Repr)
      && Repr == {this} + Reprs(left) + Reprs(right)
      && (left != null ==> this !in left.Repr && left.Valid())
      && (right != null ==> this !in right.Repr && right.Valid())
      && (left != null && right != null ==> left.Repr !! right.Repr)
      && Subtree == AvlTree.Node(key, value, TreeOf(left), TreeOf(right), height)
    }

    /**
     * Valid, except that the value recorded in `target`'s Subtree may lag
     * behind its `value` field: the state right after a write into `target`.
     */
    ghost predicate ValidBut(target: AvlTreeNode<K, V>)
      reads this, Repr
      ensures ValidBut(target) ==> this in Repr && Subtree.Node? && Subtree.key == key
      decreases Repr
    {
      && this in Repr
      && (left != null ==> left in Repr)
      && (right != null ==> right in Repr)
      && Repr == {this} + Reprs(left) + Reprs(right)
      && (left != null ==> this !in left.Repr && left.ValidBut(target))
      && (right != null ==> this !in right.Repr && right.ValidBut(target))
      && (left != null && right != null ==> left.Repr !! right.Repr)
      && Subtree.Node?
      && Subtree == AvlTree.Node(key, if this == target then Subtree.value else value, TreeOf(left), TreeOf(right), height)
    }

    /** Records the subtree anew once the children are valid again. */
    ghost method Recompute()
      requires left == null || (left.Valid() && this !in left.Repr)
      requires right == null || (right.Valid() && this !in right.Repr)
      requires left == null || right == null || left.Repr !! right.Repr
      requires Repr == {this} + Reprs(left) + Reprs(right)
      modifies this`Subtree
      ensures Valid() && Subtree == AvlTree.Node(key, value, TreeOf(left), TreeOf(right), height)
    {
      label Before:
      Subtree := AvlTree.Node(key, value, TreeOf(left), TreeOf(right), height);
      if left != null {
        ValidFrame@Before(left);
      }
      if right != null {
        ValidFrame@Before(right);
      }
    }

    /** Writing into the `value` of one node `t` leaves this subtree valid but for `t`'s recorded value. */
    twostate lemma ValueWritten(t: AvlTreeNode<K, V>)
      requires old(Valid())
      requires unchanged(old(Repr) - {t})
      requires t.key == old(t.key) && t.left == old(t.left) && t.right == old(t.right)
      requires t.height == old(t.height) && t.Repr == old(t.Repr) && t.Subtree == old(t.Subtree)
      ensures ValidBut(t) && Repr == old(Repr) && Subtree == old(Subtree)
      decreases old(Repr)
    {
      if left != null {
        left.ValueWritten(t);
      }
      if right != null {
        right.ValueWritten(t);
      }
    }

    /** `AvlTreeNode(key, value)`: no children, height 1. */
    constructor (key: K, value: V)
      ensures Valid() && fresh(Repr) && Repr == {this}
      ensures this.key == key && this.value == value
      ensures left == null && right == null && height == 1
      ensures Subtree == AvlTree.Node(key, value, AvlTree.Nil, AvlTree.Nil, 1)
    {
      this.key := key;
      this.value := value;
      left := null;
      right := null;
      height := 1;
      Repr := {this};
      Subtree := AvlTree.Node(key, value, AvlTree.Nil, AvlTree.Nil, 1);
    }

    /** `node.left = l; node.right = r; node.height = h`. */
    method Relink(l: AvlTreeNode?<K, V>, r: AvlTreeNode?<K, V>, h: int)
      requires l == null || (l.Valid() && this !in l.Repr)
      requires r == null || (r.Valid() && this !in r.Repr)
      requires l == null || r == null || l.Repr !! r.Repr
      modifies this
      ensures Valid() && left == l && right == r && height == h
      ensures key == old(key) && value == old(value)
      ensures Repr == {this} + old(Reprs(l)) + old(Reprs(r))
      ensures Subtree == AvlTree.Node(key, value, old(TreeOf(l)), old(TreeOf(r)), h)
    {
      left, right, height := l, r, h;
      Repr := {this} + Reprs(left) + Reprs(right);
      Subtree := AvlTree.Node(key, value, TreeOf(left), TreeOf(right), height);
      if l != null { ValidFrame(l); }
      if r != null { ValidFrame(r); }
    }

    /** `node.value = v`. */
    method SetValue(v: V)
      requires Valid()
      modifies this
      ensures Valid() && value == v
      ensures key == old(key) && left == old(left) && right == old(right) && height == old(height)
      ensures Repr == old(Repr) && Subtree == old(Subtree).(value := v)
    {
      value := v;
      Subtree := AvlTree.Node(key, value, TreeOf(left), TreeOf(right), height);
    }

    /** `node.key = k; node.value = v`: the entry stored here is replaced. */
    method SetEntry(k: K, v: V)
      requires Valid()
      modifies this
      ensures Valid() && key == k && value == v
      ensures left == old(left) && right == old(right) && height == old(height) && Repr == old(Repr)
      ensures Subtree == old(Subtree).(key := k, value := v)
    {
      key := k;
      value := v;
      Subtree := AvlTree.Node(key, value, TreeOf(left), TreeOf(right), height);
    }
  }

  /** A subtree none of whose nodes changed is still valid, with the same footprint and value. */
  twostate lemma ValidFrame<K, V>(n: AvlTreeNode<K, V>)
    requires old(n.Valid()) && unchanged(old(n.Repr))
    ensures n.Valid() && n.Repr == old(n.Repr) && n.Subtree == old(n.Subtree)
  {
  }

  /** A subtree that does not hold `t` is valid outright. */
  lemma ValidButAbsent<K, V>(n: AvlTreeNode<K, V>, t: AvlTreeNode<K, V>)
    requires n.ValidBut(t) && t !in n.Repr
    ensures n.Valid()
    decreases n.Repr
  {
    if n.left != null {
      ValidButAbsent(n.left, t);
    }
    if n.right != null {
      ValidButAbsent(n.right, t);
    }
  }

  /** The key of a node of a subtree is a key of that subtree's value. */
  lemma KeyInTree<K, V>(n: AvlTreeNode<K, V>, t: AvlTreeNode<K, V>)
    requires n.ValidBut(t) && t in n.Repr
    ensures t.key in AvlTree.Keys(n.Subtree)
    decreases n.Repr
  {
    if t != n {
      if n.left != null && t in n.left.Repr {
        KeyInTree(n.left, t);
      } else {
        KeyInTree(n.right, t);
      }
    }
  }

  /** `t` lies at `n` or under the child on the search path to `t.key`. */
  lemma PathDirection<K(!new), V>(n: AvlTreeNode<K, V>, t: AvlTreeNode<K, V>, cmp: (K, K) -> int)
    requires n.ValidBut(t) && t in n.Repr
    requires AvlTree.TotalOrder(cmp) && AvlTree.Bst(n.Subtree, cmp)
    ensures n == t ==> cmp(t.key, n.key) == 0
    ensures n.left != null && t in n.left.Repr ==> cmp(t.key, n.key) < 0
    ensures n.right != null && t in n.right.Repr ==> cmp(t.key, n.key) > 0
  {
    if n.left != null && t in n.left.Repr {
      KeyInTree(n.left, t);
    }
    if n.right != null && t in n.right.Repr {
      KeyInTree(n.right, t);
    }
  }

  /**
   * Brings the recorded subtrees on the path from `n` down to `t` up to date
   * after a write into `t`: `n`'s subtree becomes the one with `t`'s new
   * value written at `t`'s key.
   */
  ghost method RefreshPath<K(!new), V>(n: AvlTreeNode<K, V>, t: AvlTreeNode<K, V>, cmp: (K, K) -> int)
    requires n.ValidBut(t) && t in n.Repr
    requires AvlTree.TotalOrder(cmp) && AvlTree.Bst(n.Subtree, cmp)
    modifies n.Repr`Subtree
    ensures n.Valid() && n.Repr == old(n.Repr)
    ensures n.Subtree == AvlTree.SetValueAt(old(n.Subtree), t.key, t.value, cmp)
    decreases n.Repr, 1
  {
    PathDirection(n, t, cmp);
    if n == t {
      if n.left != null {
        ValidButAbsent(n.left, t);
      }
      if n.right != null {
        ValidButAbsent(n.right, t);
      }
      n.Recompute();
    } else if n.left != null && t in n.left.Repr {
      RefreshLeft(n, t, cmp);
    } else {
      RefreshRight(n, t, cmp);
    }
  }

  /** RefreshPath where `t` lies in the left subtree of `n`. */
  ghost method RefreshLeft<K(!new), V>(n: AvlTreeNode<K, V>, t: AvlTreeNode<K, V>, cmp: (K, K) -> int)
    requires n.ValidBut(t) && n.left != null && t in n.left.Repr && cmp(t.key, n.key) < 0
    requires AvlTree.TotalOrder(cmp) && AvlTree.Bst(n.Subtree, cmp)
    modifies n.Repr`Subtree
    ensures n.Valid() && n.Repr == old(n.Repr)
    ensures n.Subtree == AvlTree.SetValueAt(old(n.Subtree), t.key, t.value, cmp)
    decreases n.Repr, 0
  {
    var l, r := n.left, n.right;
    if r != null {
      ValidButAbsent(r, t);
    }
    label Before:
    RefreshPath(l, t, cmp);
    if r != null {
      ValidFrame@Before(r);
    }
    n.Recompute();
  }

  /** RefreshPath where `t` lies in the right subtree of `n`. */
  ghost method RefreshRight<K(!new), V>(n: AvlTreeNode<K, V>, t: AvlTreeNode<K, V>, cmp: (K, K) -> int)
    requires n.ValidBut(t) && n.right != null && t in n.right.Repr && cmp(t.key, n.key) > 0
    requires AvlTree.TotalOrder(cmp) && AvlTree.Bst(n.Subtree, cmp)
    modifies n.Repr`Subtree
    ensures n.Valid() && n.Repr == old(n.Repr)
    ensures n.Subtree == AvlTree.SetValueAt(old(n.Subtree), t.key, t.value, cmp)
    decreases n.Repr, 0
  {
    var l, r := n.left, n.right;
    if l != null {
      ValidButAbsent(l, t);
    }
    label Before:
    RefreshPath(r, t, cmp);
    if l != null {
      ValidFrame@Before(l);
    }
    n.Recompute();
  }

  /** The footprint of a rotated pair of nodes is the footprint before the rotation. */
  lemma RotatedRepr<T>(x: T, y: T, a: set<T>, b: set<T>, c: set<T>)
    ensures {y} + ({x} + a + b) + c == {x} + a + ({y} + b + c)
  {
  }

  ghost function Reprs<K, V>(n: AvlTreeNode?<K, V>): set<AvlTreeNode<K, V>>
    reads n
  {
    if n == null then {} else n.Repr
  }

  /** The subtree at a nullable reference (Nil for `null`). */
  ghost function TreeOf<K, V>(n: AvlTreeNode?<K, V>): AvlTree.Tree<K, V>
    reads n
  {
    if n == null then AvlTree.Nil else n.Subtree
  }

  /** `height(node)`: the cached height, 0 for an absent node. */
  function Height<K, V>(n: AvlTreeNode?<K, V>): int
    reads n
  {
    if n == null then 0 else n.height
  }

  /** `balanceFactor(node)`. */
  function BalanceFactor<K, V>(n: AvlTreeNode<K, V>): int
    reads n, n.left, n.right
  {
    Height(n.left) - Height(n.right)
  }

  /**
   * The MutableEntry objects `entries` hands out: the key, a cached copy of
   * the value, and the node that `setValue` writes through to.
   */
  class TreeEntry<K, V> {
    const key: K
    var value: V
    const node: AvlTreeNode<K, V>

    constructor (node: AvlTreeNode<K, V>)
      ensures key == node.key && value == node.value && this.node == node
    {
      key, value, this.node := node.key, node.value, node;
    }

    /** `setValue(newValue)`: stores into the node and the cache, and returns the old cached value. */
    method SetValue(newValue: V) returns (prior: V)
      modifies this`value, node`value
      ensures prior == old(value) && value == newValue && node.value == newValue
    {
      prior := value;
      node.value := newValue;
      value := newValue;
    }
  }

  /** The (key, cached value) pairs of a sequence of entries. */
  ghost function Pairs<K, V>(es: seq<TreeEntry<K, V>>): (r: seq<(K, V)>)
    reads es
    ensures |r| == |es| && forall i :: 0 <= i < |es| ==> r[i] == (es[i].key, es[i].value)
  {
    seq(|es|, i reads es requires 0 <= i < |es| => (es[i].key, es[i].value))
  }

  lemma PairsConcat<K, V>(l: seq<TreeEntry<K, V>>, e: TreeEntry<K, V>, r: seq<TreeEntry<K, V>>)
    ensures Pairs(l + [e] + r) == Pairs(l) + [(e.key, e.value)] + Pairs(r)
  {
    var es := l + [e] + r;
    assert forall i :: 0 <= i < |l| ==> es[i] == l[i];
    assert forall i :: 0 <= i < |r| ==> es[|l| + 1 + i] == r[i];
  }

  /**
   * AvlTreeMap: the root reference, the `_size` counter and the comparator
   * every comparison goes through.
   */
  class AvlTreeMap<K(==, !new), V(==)> {
    var root: AvlTreeNode?<K, V>
    var size: int
    const cmp: (K, K) -> int
    ghost var Repr: set<object>

    /** The nodes form a tree hanging off `root`. */
    ghost predicate Linked()
      reads this, root, Repr
    {
      && Repr == {this} + Reprs(root)
      && (root != null ==> root.Valid())
    }

    /**
     * The class invariant: a search tree under `cmp` with the AVL balance
     * and correct cached heights, and `_size` is the number of nodes.
     */
    ghost predicate Valid()
      reads this, root, Repr
    {
      && Linked()
      && AvlTree.MapInvariant(Tree(), size, cmp)
    }

    ghost function Tree(): AvlTree.Tree<K, V>
      reads this, root
    {
      TreeOf(root)
    }

    /** What the map holds. */
    ghost function Model(): map<K, V>
      reads this, root
    {
      AvlTree.Elements(Tree())
    }

    /** `AvlTreeMap(comparator)`: the empty map. */
    constructor (cmp: (K, K) -> int)
      requires AvlTree.TotalOrder(cmp)
      ensures Valid() && fresh(Repr)
      ensures this.cmp == cmp && root == null && size == 0
      ensures Model() == map[]
    {
      this.cmp := cmp;
      root := null;
      size := 0;
      Repr := {this};
    }

    /** `rotateLeft(x)`: returns the new subtree root, holding the same nodes. */
    static method RotateLeft(x: AvlTreeNode<K, V>) returns (r: AvlTreeNode<K, V>)
      requires x.Valid() && x.right != null
      modifies x, x.right
      ensures r.Valid() && r.Repr == old(x.Repr)
      ensures r.Subtree == AvlTree.RotateLeft(old(x.Subtree))
    {
      var y := x.right;
      assert y.Valid();
      ghost var a, b, c := Reprs(x.left), Reprs(y.left), Reprs(y.right);
      x.Relink(x.left, y.left, 1 + AvlTree.Max(Height(x.left), Height(y.left)));
      if y.right != null { ValidFrame(y.right); }
      y.Relink(x, y.right, 1 + AvlTree.Max(Height(x), Height(y.right)));
      RotatedRepr(x, y, a, b, c);
      r := y;
    }

    /** `rotateRight(y)`: the mirror image of RotateLeft. */
    static method RotateRight(y: AvlTreeNode<K, V>) returns (r: AvlTreeNode<K, V>)
      requires y.Valid() && y.left != null
      modifies y, y.left
      ensures r.Valid() && r.Repr == old(y.Repr)
      ensures r.Subtree == AvlTree.RotateRight(old(y.Subtree))
    {
      var x := y.left;
      assert x.Valid();
      ghost var a, b, c := Reprs(x.left), Reprs(x.right), Reprs(y.right);
      y.Relink(x.right, y.right, 1 + AvlTree.Max(Height(x.right), Height(y.right)));
      if x.left != null { ValidFrame(x.left); }
      x.Relink(x.left, y, 1 + AvlTree.Max(Height(x.left), Height(y)));
      RotatedRepr(x, y, a, b, c);
      r := x;
    }

    /** `node.left = rotateLeft(node.left!!)` followed by `rotateRight(node)`. */
    static method RotateLeftRight(node: AvlTreeNode<K, V>) returns (r: AvlTreeNode<K, V>)
      requires node.Valid() && node.Subtree.left.Node? && node.Subtree.left.right.Node?
      modifies node.Repr
      ensures r.Valid() && r.Repr == old(node.Repr)
      ensures r.Subtree == AvlTree.RotateRight(old(node.Subtree).(left := AvlTree.RotateLeft(old(node.Subtree).left)))
    {
      ghost var t := node.Subtree;
      var l := RotateLeft(node.left);
      node.Relink(l, node.right, node.height);
      assert node.Subtree == t.(left := AvlTree.RotateLeft(t.left));
      r := RotateRight(node);
    }

    /** `node.right = rotateRight(node.right!!)` followed by `rotateLeft(node)`. */
    static method RotateRightLeft(node: AvlTreeNode<K, V>) returns (r: AvlTreeNode<K, V>)
      requires node.Valid() && node.Subtree.right.Node? && node.Subtree.right.left.Node?
      modifies node.Repr
      ensures r.Valid() && r.Repr == old(node.Repr)
      ensures r.Subtree == AvlTree.RotateLeft(old(node.Subtree).(right := AvlTree.RotateRight(old(node.Subtree).right)))
    {
      ghost var t := node.Subtree;
      var rr := RotateRight(node.right);
      node.Relink(node.left, rr, node.height);
      assert node.Subtree == t.(right := AvlTree.RotateRight(t.right));
      r := RotateLeft(node);
    }

    /**
     * `balance(node)`: the new subtree root, holding the same nodes; the
     * `!!` of the source never fail because cached heights are positive.
     */
    static method Balance(node: AvlTreeNode<K, V>) returns (r: AvlTreeNode<K, V>)
      requires node.Valid()
      requires AvlTree.Positive(node.Subtree.left) && AvlTree.Positive(node.Subtree.right)
      modifies node.Repr
      ensures r.Valid() && r.Repr == old(node.Repr)
      ensures r.Subtree == AvlTree.Balance(old(node.Subtree))
    {
      ghost var t := node.Subtree;
      AvlTree.PositiveH(t.left);
      AvlTree.PositiveH(t.right);
      var balance := BalanceFactor(node);
      assert balance == AvlTree.BalanceFactor(t);
      if balance > 1 {
        r := BalanceLeftHeavy(node);
      } else if balance < -1 {
        r := BalanceRightHeavy(node);
      } else {
        node.Relink(node.left, node.right, 1 + AvlTree.Max(Height(node.left), Height(node.right)));
        r := node;
      }
    }

    /** The `balance > 1` branches of `balance`: a right rotation, after a left one when the left child leans right. */
    static method BalanceLeftHeavy(node: AvlTreeNode<K, V>) returns (r: AvlTreeNode<K, V>)
      requires node.Valid()
      requires AvlTree.Positive(node.Subtree.left) && AvlTree.Positive(node.Subtree.right)
      requires AvlTree.BalanceFactor(node.Subtree) > 1
      modifies node.Repr
      ensures r.Valid() && r.Repr == old(node.Repr)
      ensures r.Subtree == AvlTree.Balance(old(node.Subtree))
    {
      ghost var t := node.Subtree;
      AvlTree.PositiveH(t.left);
      AvlTree.PositiveH(t.right);
      if BalanceFactor(node.left) >= 0 {
        assert AvlTree.Balance(t) == AvlTree.RotateRight(t);
        r := RotateRight(node);
      } else {
        assert AvlTree.Balance(t) == AvlTree.RotateRight(t.(left := AvlTree.RotateLeft(t.left)));
        r := RotateLeftRight(node);
      }
    }

    /** The `balance < -1` branches of `balance`, mirroring BalanceLeftHeavy. */
    static method BalanceRightHeavy(node: AvlTreeNode<K, V>) returns (r: AvlTreeNode<K, V>)
      requires node.Valid()
      requires AvlTree.Positive(node.Subtree.left) && AvlTree.Positive(node.Subtree.right)
      requires AvlTree.BalanceFactor(node.Subtree) < -1
      modifies node.Repr
      ensures r.Valid() && r.Repr == old(node.Repr)
      ensures r.Subtree == AvlTree.Balance(old(node.Subtree))
    {
      ghost var t := node.Subtree;
      AvlTree.PositiveH(t.left);
      AvlTree.PositiveH(t.right);
      if BalanceFactor(node.right) <= 0 {
        assert AvlTree.Balance(t) == AvlTree.RotateLeft(t);
        r := RotateLeft(node);
      } else {
        assert AvlTree.Balance(t) == AvlTree.RotateLeft(t.(right := AvlTree.RotateRight(t.right)));
        r := RotateRightLeft(node);
      }
    }

    /**
     * `insert(node, key, value, oldValue)`: the new subtree root and the
     * value handed to `oldValue` (None when the callback is not called);
     * `_size` grows by one exactly when a node is allocated.
     */
    method Insert(node: AvlTreeNode?<K, V>, key: K, value: V) returns (r: AvlTreeNode<K, V>, prev: Option<V>)
      requires node == null || node.Valid()
      requires AvlTree.Positive(TreeOf(node))
      modifies this`size, Reprs(node)
      ensures r.Valid() && old(Reprs(node)) <= r.Repr && fresh(r.Repr - old(Reprs(node)))
      ensures (r.Subtree, prev) == AvlTree.Insert(old(TreeOf(node)), key, value, cmp)
      ensures size == old(size) + (if prev.None? then 1 else 0)
      decreases Reprs(node), 1
    {
      if node == null {
        size := size + 1;
        r := new AvlTreeNode(key, value);
        prev := None;
        return;
      }
      var c := cmp(key, node.key);
      if c < 0 {
        r, prev := InsertLeft(node, key, value);
      } else if c > 0 {
        r, prev := InsertRight(node, key, value);
      } else {
        prev := Some(node.value);
        node.SetValue(value);
        r := node;
      }
    }

    /** The `cmp < 0` branch of `insert`: `node.left = insert(node.left, ...)`, then `balance(node)`. */
    method InsertLeft(node: AvlTreeNode<K, V>, key: K, value: V) returns (r: AvlTreeNode<K, V>, prev: Option<V>)
      requires node.Valid() && AvlTree.Positive(node.Subtree)
      modifies this`size, node.Repr
      ensures r.Valid() && old(node.Repr) <= r.Repr && fresh(r.Repr - old(node.Repr))
      ensures var p := AvlTree.Insert(old(node.Subtree.left), key, value, cmp);
        (r.Subtree, prev) == (AvlTree.Balance(old(node.Subtree).(left := p.0)), p.1)
      ensures size == old(size) + (if prev.None? then 1 else 0)
      decreases node.Repr, 0
    {
      ghost var t := node.Subtree;
      var l, p := Insert(node.left, key, value);
      node.Relink(l, node.right, node.height);
      assert node.Subtree == t.(left := AvlTree.Insert(t.left, key, value, cmp).0);
      r := Balance(node);
      prev := p;
    }

    /** The `cmp > 0` branch of `insert`, mirroring InsertLeft. */
    method InsertRight(node: AvlTreeNode<K, V>, key: K, value: V) returns (r: AvlTreeNode<K, V>, prev: Option<V>)
      requires node.Valid() && AvlTree.Positive(node.Subtree)
      modifies this`size, node.Repr
      ensures r.Valid() && old(node.Repr) <= r.Repr && fresh(r.Repr - old(node.Repr))
      ensures var p := AvlTree.Insert(old(node.Subtree.right), key, value, cmp);
        (r.Subtree, prev) == (AvlTree.Balance(old(node.Subtree).(right := p.0)), p.1)
      ensures size == old(size) + (if prev.None? then 1 else 0)
      decreases node.Repr, 0
    {
      ghost var t := node.Subtree;
      var rr, p := Insert(node.right, key, value);
      node.Relink(node.left, rr, node.height);
      assert node.Subtree == t.(right := AvlTree.Insert(t.right, key, value, cmp).0);
      r := Balance(node);
      prev := p;
    }

    /**
     * `delete(node, key, oldValue)`: the new subtree root (null when the
     * subtree becomes empty) and the value handed to `oldValue`.  No node is
     * allocated; the nodes left over are among the old ones.
     */
    method Delete(node: AvlTreeNode?<K, V>, key: K) returns (r: AvlTreeNode?<K, V>, prev: Option<V>)
      requires node == null || node.Valid()
      requires AvlTree.Positive(TreeOf(node))
      modifies Reprs(node)
      ensures r == null || r.Valid()
      ensures Reprs(r) <= old(Reprs(node))
      ensures (TreeOf(r), prev) == AvlTree.Delete(old(TreeOf(node)), key, cmp)
      decreases Reprs(node), 2
    {
      if node == null {
        return null, None;
      }
      var c := cmp(key, node.key);
      if c < 0 {
        r, prev := DeleteLeft(node, key);
      } else if c > 0 {
        r, prev := DeleteRight(node, key);
      } else {
        prev := Some(node.value);
        if node.left == null {
          return node.right, prev;
        }
        if node.right == null {
          return node.left, prev;
        }
        r := DeleteEntry(node);
      }
    }

    /** The `cmp < 0` branch of `delete`: `node.left = delete(node.left, ...)`, then `balance(node)`. */
    method DeleteLeft(node: AvlTreeNode<K, V>, key: K) returns (r: AvlTreeNode<K, V>, prev: Option<V>)
      requires node.Valid() && AvlTree.Positive(node.Subtree)
      modifies node.Repr
      ensures r.Valid() && r.Repr <= old(node.Repr)
      ensures var p := AvlTree.Delete(old(node.Subtree.left), key, cmp);
        (r.Subtree, prev) == (AvlTree.Balance(old(node.Subtree).(left := p.0)), p.1)
      decreases node.Repr, 0
    {
      ghost var t := node.Subtree;
      var l, p := Delete(node.left, key);
      node.Relink(l, node.right, node.height);
      assert node.Subtree == t.(left := AvlTree.Delete(t.left, key, cmp).0);
      r := Balance(node);
      prev := p;
    }

    /** The `cmp > 0` branch of `delete`, mirroring DeleteLeft. */
    method DeleteRight(node: AvlTreeNode<K, V>, key: K) returns (r: AvlTreeNode<K, V>, prev: Option<V>)
      requires node.Valid() && AvlTree.Positive(node.Subtree)
      modifies node.Repr
      ensures r.Valid() && r.Repr <= old(node.Repr)
      ensures var p := AvlTree.Delete(old(node.Subtree.right), key, cmp);
        (r.Subtree, prev) == (AvlTree.Balance(old(node.Subtree).(right := p.0)), p.1)
      decreases node.Repr, 0
    {
      ghost var t := node.Subtree;
      var rr, p := Delete(node.right, key);
      node.Relink(node.left, rr, node.height);
      assert node.Subtree == t.(right := AvlTree.Delete(t.right, key, cmp).0);
      r := Balance(node);
      prev := p;
    }

    /**
     * The two-children case of `delete`: the node takes over the key and
     * value of `minValueNode(node.right)`, that key is deleted from the
     * right subtree (its value is ignored), and the node is rebalanced.
     */
    method DeleteEntry(node: AvlTreeNode<K, V>) returns (r: AvlTreeNode<K, V>)
      requires node.Valid() && AvlTree.Positive(node.Subtree)
      requires node.left != null && node.right != null
      modifies node.Repr
      ensures r.Valid() && r.Repr <= old(node.Repr)
      ensures var t := old(node.Subtree);
        var m := AvlTree.Min(t.right);
        r.Subtree == AvlTree.Balance(AvlTree.Node(m.key, m.value, t.left, AvlTree.Delete(t.right, m.key, cmp).0, t.height))
      decreases node.Repr, 1
    {
      var min := MinValueNode(node.right);
      node.SetEntry(min.key, min.value);
      var ignored;
      r, ignored := DeleteRight(node, min.key);
    }

    /** `minValueNode(node)`: follows `left` references down to the leftmost node. */
    static method MinValueNode(node: AvlTreeNode<K, V>) returns (m: AvlTreeNode<K, V>)
      requires node.Valid()
      ensures m.Valid() && m.Subtree == AvlTree.Min(node.Subtree)
    {
      m := node;
      while m.left != null
        invariant m.Valid() && AvlTree.Min(m.Subtree) == AvlTree.Min(node.Subtree)
        decreases m.Repr
      {
        m := m.left;
      }
    }

    // -------------------------------------------------------------------
    // The MutableMap operations
    // -------------------------------------------------------------------

    /** `size`: the `_size` counter, which is the number of keys. */
    method Size() returns (n: int)
      requires Valid()
      ensures n == |Model()|
    {
      AvlTree.SizeCorrect(Tree(), size, cmp);
      n := size;
    }

    /** `isEmpty()`: `size == 0`. */
    method IsEmpty() returns (b: bool)
      requires Valid()
      ensures b <==> Model() == map[]
    {
      AvlTree.SizeCorrect(Tree(), size, cmp);
      b := size == 0;
      if !b {
        assert |Model()| != 0;
      }
    }

    /** `get(key)`: the loop descending from `root`; `None` for `null`. */
    method Get(key: K) returns (r: Option<V>)
      requires Valid()
      ensures r == Lookup(Model(), key)
    {
      AvlTree.FindCorrect(Tree(), key, cmp);
      var current := root;
      while current != null
        invariant current == null || current.Valid()
        invariant AvlTree.Find(TreeOf(current), key, cmp) == AvlTree.Find(Tree(), key, cmp)
        decreases Reprs(current)
      {
        var c := cmp(key, current.key);
        if c < 0 {
          current := current.left;
        } else if c > 0 {
          current := current.right;
        } else {
          return Some(current.value);
        }
      }
      return None;
    }

    /** `containsKey(key)`: `get(key) != null`. */
    method ContainsKey(key: K) returns (b: bool)
      requires Valid()
      ensures b <==> key in Model()
    {
      var v := Get(key);
      b := v.Some?;
    }

    /** `root = subtree`: hangs a valid subtree off the map, leaving `_size` alone. */
    method Attach(subtree: AvlTreeNode?<K, V>)
      requires subtree == null || subtree.Valid()
      modifies this`root, this`Repr
      ensures Linked() && root == subtree && Repr == {this} + old(Reprs(subtree))
      ensures Tree() == old(TreeOf(subtree))
    {
      label Built:
      root, Repr := subtree, {this} + Reprs(subtree);
      if subtree != null {
        ValidFrame@Built(subtree);
      }
    }

    /** `put(key, value)`: `root = insert(root, ...)`; the previous value, if any. */
    method Put(key: K, value: V) returns (prev: Option<V>)
      requires Valid()
      modifies Repr
      ensures Valid() && fresh(Repr - old(Repr))
      ensures Tree() == AvlTree.Insert(old(Tree()), key, value, cmp).0
      ensures Model() == old(Model())[key := value]
      ensures prev == Lookup(old(Model()), key)
    {
      AvlTree.PutCorrect(Tree(), size, key, value, cmp);
      var r, p := Insert(root, key, value);
      Attach(r);
      prev := p;
    }

    /** `remove(key)`: `root = delete(root, ...)`, and `_size` drops when a value was removed. */
    method Remove(key: K) returns (prev: Option<V>)
      requires Valid()
      modifies Repr
      ensures Valid() && Repr <= old(Repr)
      ensures Tree() == AvlTree.Delete(old(Tree()), key, cmp).0
      ensures Model() == old(Model()) - {key}
      ensures prev == Lookup(old(Model()), key)
    {
      AvlTree.RemoveCorrect(Tree(), size, key, cmp);
      var r, p := Delete(root, key);
      size := if p.Some? then size - 1 else size;
      Attach(r);
      prev := p;
    }

    /** `clear()`: drops the whole tree. */
    method Clear()
      requires Valid()
      modifies this
      ensures Valid() && Repr == {this}
      ensures Model() == map[]
    {
      root := null;
      size := 0;
      Repr := {this};
    }

    /**
     * The local `traverse` of `entries`: left subtree, then one fresh entry
     * for the node, then right subtree.
     */
    static method Traverse(node: AvlTreeNode?<K, V>) returns (es: seq<TreeEntry<K, V>>)
      requires node == null || node.Valid()
      ensures Pairs(es) == AvlTree.Entries(TreeOf(node))
      ensures forall i :: 0 <= i < |es| ==> es[i].node in Reprs(node)
      decreases Reprs(node)
    {
      if node == null {
        return [];
      }
      var l := Traverse(node.left);
      var e := new TreeEntry(node);
      var r := Traverse(node.right);
      es := l + [e] + r;
      PairsConcat(l, e, r);
    }

    /** `entries`: one entry per key, in ascending key order. */
    method Entries() returns (es: seq<TreeEntry<K, V>>)
      requires Valid()
      ensures Pairs(es) == AvlTree.Entries(Tree())
      ensures forall i :: 0 <= i < |es| ==> es[i].node in Repr
    {
      es := Traverse(root);
    }

    /**
     * `setValue(newValue)` of an entry: the write into the entry's node keeps
     * the map valid and maps the node's key to `newValue`; the node of an
     * entry whose key has since been removed is no longer in the tree, and the
     * map stays as it was.
     */
    method SetEntryValue(e: TreeEntry<K, V>, newValue: V) returns (prior: V)
      requires Valid()
      modifies e`value, e.node`value, Reprs(root)`Subtree
      ensures Valid() && Repr == old(Repr) && root == old(root) && size == old(size)
      ensures prior == old(e.value) && e.value == newValue && e.node.value == newValue
      ensures Model() == if e.node in Repr then old(Model())[e.node.key := newValue] else old(Model())
    {
      label Before:
      prior := e.SetValue(newValue);
      if root != null {
        root.ValueWritten@Before(e.node);
        if e.node in root.Repr {
          KeyInTree(root, e.node);
          RefreshPath(root, e.node, cmp);
          AvlTree.SetValueAtCorrect(old(Tree()), size, e.node.key, newValue, cmp);
        } else {
          ValidButAbsent(root, e.node);
        }
      }
    }

    /** `keys`: the key of every entry; each key of the map once, in ascending order. */
    method Keys() returns (ks: seq<K>)
      requires Valid()
      ensures ks == AvlTree.KeysOf(AvlTree.Entries(Tree()))
      ensures forall k :: k in ks <==> k in Model()
      ensures forall i, j :: 0 <= i < j < |ks| ==> cmp(ks[i], ks[j]) < 0
    {
      var es := Entries();
      ks := [];
      for i := 0 to |es|
        invariant ks == AvlTree.KeysOf(AvlTree.Entries(Tree())[..i])
      {
        ks := ks + [es[i].key];
      }
      assert AvlTree.Entries(Tree())[..|es|] == AvlTree.Entries(Tree());
      AvlTree.KeysInOrder(Tree(), cmp);
    }

    /** `values`: the value of every entry, in ascending key order. */
    method Values() returns (vs: seq<V>)
      requires Valid()
      ensures vs == AvlTree.ValuesOf(AvlTree.Entries(Tree()))
      ensures |vs| == |Model()|
      ensures forall v :: v in vs <==> v in Model().Values
    {
      var es := Entries();
      vs := [];
      for i := 0 to |es|
        invariant vs == AvlTree.ValuesOf(AvlTree.Entries(Tree())[..i])
      {
        vs := vs + [es[i].value];
      }
      assert AvlTree.Entries(Tree())[..|es|] == AvlTree.Entries(Tree());
      AvlTree.ValuesInOrder(Tree(), cmp);
    }

    /** `containsValue(value)`: whether some entry holds `value`. */
    method ContainsValue(value: V) returns (b: bool)
      requires Valid()
      ensures b <==> value in Model().Values
    {
      var es := Entries();
      b := AnyValue(es, value);
      AvlTree.ValuesInOrder(Tree(), cmp);
    }

    /** `entries.any { it.value == value }`. */
    static method AnyValue(es: seq<TreeEntry<K, V>>, value: V) returns (b: bool)
      ensures b <==> value in AvlTree.ValuesOf(Pairs(es))
    {
      ghost var vs := AvlTree.ValuesOf(Pairs(es));
      var i := 0;
      while i < |es|
        invariant 0 <= i <= |es|
        invariant value !in vs[..i]
      {
        assert vs[i] == es[i].value;
        if es[i].value == value {
          return true;
        }
        assert vs[..i + 1] == vs[..i] + [vs[i]];
        i := i + 1;
      }
      assert vs[..i] == vs;
      return false;
    }

    /**
     * `from(pairs, comparator)`, and `from(pairs)` with the keys' natural
     * order passed as `cmp`: a new map with `put` applied to each pair in
     * turn, which is what `putAll` does.
     */
    static method From(pairs: seq<(K, V)>, cmp: (K, K) -> int) returns (m: AvlTreeMap<K, V>)
      requires AvlTree.TotalOrder(cmp)
      ensures m.Valid() && fresh(m.Repr) && m.cmp == cmp
      ensures m.Model() == PairsToMap(pairs)
    {
      m := new AvlTreeMap(cmp);
      m.PutAll(pairs);
      assert map[] + PairsToMap(pairs) == PairsToMap(pairs);
    }

    /** `putAll(from)`: `put` for every entry of `from`, in whatever order `from` yields them. */
    method PutAll(from: seq<(K, V)>)
      requires Valid()
      modifies Repr
      ensures Valid() && fresh(Repr - old(Repr))
      ensures Model() == old(Model()) + PairsToMap(from)
    {
      for i := 0 to |from|
        invariant Valid() && fresh(Repr - old(Repr))
        invariant Model() == old(Model()) + PairsToMap(from[..i])
      {
        var ignored := Put(from[i].0, from[i].1);
        MergeStep(old(Model()), from, i);
      }
      assert from[..|from|] == from;
    }
  }
}
