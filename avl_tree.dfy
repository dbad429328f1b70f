/**
 * The AVL binary search tree of Module_3/AVL_BST/main.cpp: the `Node<T>`
 * records and the `AVLBinaryTree<T>` class that owns them. Keys are `int`
 * (the program instantiates the template with `std::string`; only the total
 * order on keys, `<`, `==` and `>`, is used).
 *
 * Every routine of the source that restructures a subtree returns the new root
 * of the subtree it was given and lets its caller store it back into the child slot; here each of
 * them is a function from the old subtree to the new one.
 */
module AvlTree {

  /** A `Node<T>`: its key, its stored `level` (the height of the subtree it
      roots, 1 for a node without children) and its two owned children.
      `Leaf` is the null pointer. */
  datatype Tree = Leaf | Node(key: int, level: nat, left: Tree, right: Tree)

  /** The line the program prints for a command: OK or FAIL. */
  datatype Signal = Ok | Fail

  /** What a recursive update hands back: the subtree root that the caller stores
      into its child slot, and the signal printed on the way down. */
  datatype Update = Update(root: Tree, signal: Signal)

  function Max(a: int, b: int): int { if a < b then b else a }

  // ---------------------------------------------------------------------------
  // Abstraction functions and the tree invariants

  /** The set of keys stored in a subtree. */
  function Keys(t: Tree): set<int> {
    match t
    case Leaf => {}
    case Node(k, _, l, r) => Keys(l) + {k} + Keys(r)
  }

  /** The keys in in-order (left subtree, node, right subtree). */
  function InOrder(t: Tree): seq<int> {
    match t
    case Leaf => []
    case Node(k, _, l, r) => InOrder(l) + [k] + InOrder(r)
  }

  /** The actual height of a subtree, recomputed from its shape. */
  function Height(t: Tree): nat {
    match t
    case Leaf => 0
    case Node(_, _, l, r) => 1 + Max(Height(l), Height(r))
  }

  /** The number of nodes of a subtree. */
  function Size(t: Tree): nat {
    match t
    case Leaf => 0
    case Node(_, _, l, r) => Size(l) + 1 + Size(r)
  }

  ghost predicate AllBelow(s: set<int>, k: int) { forall y :: y in s ==> y < k }

  ghost predicate AllAbove(s: set<int>, k: int) { forall y :: y in s ==> k < y }

  /** Binary-search-tree order: every key of a left subtree is smaller and every
      key of a right subtree larger than the key of their node. */
  ghost predicate Ordered(t: Tree) {
    match t
    case Leaf => true
    case Node(k, _, l, r) =>
      Ordered(l) && Ordered(r) && AllBelow(Keys(l), k) && AllAbove(Keys(r), k)
  }

  /** Height consistency: every stored level is the height of its subtree, that
      is, one more than the larger of its children's levels. */
  ghost predicate Exact(t: Tree) {
    match t
    case Leaf => true
    case Node(_, h, l, r) => Exact(l) && Exact(r) && h == Height(t)
  }

  /** AVL balance: at every node the children's heights differ by at most one. */
  ghost predicate Balanced(t: Tree) {
    match t
    case Leaf => true
    case Node(_, _, l, r) => Balanced(l) && Balanced(r) && -1 <= Height(r) - Height(l) <= 1
  }

  /** The invariant the tree keeps after every public operation. */
  ghost predicate IsAvl(t: Tree) {
    Ordered(t) && Exact(t) && Balanced(t)
  }

  // ---------------------------------------------------------------------------
  // Height and balance primitives

  /** node_level: 0 for an absent node, otherwise the stored level, which is the
      subtree's height whenever the levels are kept exact. */
  function Level(t: Tree): (h: nat)
    ensures t.Leaf? ==> h == 0
    ensures Exact(t) ==> h == Height(t)
  {
    if t.Leaf? then 0 else t.level
  }

  /** bfactor: right level minus left level of a present node. */
  function BFactor(t: Tree): (b: int)
    requires t.Node?
    ensures Exact(t) ==> b == Height(t.right) - Height(t.left)
  {
    Level(t.right) - Level(t.left)
  }

  /** fix_height: recompute the node's level from its children's levels; key and
      children are left as they are. */
  function FixHeight(t: Tree): (r: Tree)
    requires t.Node?
    ensures r.Node? && r.key == t.key && r.left == t.left && r.right == t.right
    ensures Exact(t.left) && Exact(t.right) ==> Exact(r)
  {
    Node(t.key, 1 + Max(Level(t.left), Level(t.right)), t.left, t.right)
  }

  // ---------------------------------------------------------------------------
  // Rotations and rebalancing

  /** rotate_right: the former left child becomes the subtree root and the old
      root its right child; the lower node's level is fixed before the new root's. */
  function RotateRight(t: Tree): (r: Tree)
    requires t.Node? && t.left.Node?
    ensures r.Node? && r.key == t.left.key && r.right.Node? && r.right.key == t.key
    ensures InOrder(r) == InOrder(t) && Keys(r) == Keys(t)
    ensures Exact(t.left.left) && Exact(t.left.right) && Exact(t.right) ==> Exact(r)
  {
    var pivot := t.left;
    var lowered := FixHeight(Node(t.key, t.level, pivot.right, t.right));
    FixHeight(Node(pivot.key, pivot.level, pivot.left, lowered))
  }

  /** rotate_left: the mirror image of rotate_right. */
  function RotateLeft(t: Tree): (r: Tree)
    requires t.Node? && t.right.Node?
    ensures r.Node? && r.key == t.right.key && r.left.Node? && r.left.key == t.key
    ensures InOrder(r) == InOrder(t) && Keys(r) == Keys(t)
    ensures Exact(t.left) && Exact(t.right.left) && Exact(t.right.right) ==> Exact(r)
  {
    var pivot := t.right;
    var lowered := FixHeight(Node(t.key, t.level, t.left, pivot.left));
    FixHeight(Node(pivot.key, pivot.level, lowered, pivot.right))
  }

  /** balance: fix the node's level, then rotate once or twice when one side is
      two levels higher. A double rotation is used when the heavy child leans
      the other way. The keys and their in-order sequence never change. */
  function Balance(t: Tree): (r: Tree)
    requires t.Node?
    ensures r.Node?
    ensures InOrder(r) == InOrder(t) && Keys(r) == Keys(t)
  {
    var n := FixHeight(t);
    if BFactor(n) == 2 then
      var pivot := if BFactor(n.right) < 0 then Node(n.key, n.level, n.left, RotateRight(n.right)) else n;
      RotateLeft(pivot)
    else if BFactor(n) == -2 then
      var pivot := if BFactor(n.left) > 0 then Node(n.key, n.level, RotateLeft(n.left), n.right) else n;
      RotateRight(pivot)
    else
      n
  }

  lemma RotateLeftOrdered(t: Tree)
    requires t.Node? && t.right.Node? && Ordered(t)
    ensures Ordered(RotateLeft(t))
  {
    var r := t.right;
    assert AllAbove(Keys(r.left), t.key);
    assert t.key < r.key;
  }

  lemma RotateRightOrdered(t: Tree)
    requires t.Node? && t.left.Node? && Ordered(t)
    ensures Ordered(RotateRight(t))
  {
    var l := t.left;
    assert AllBelow(Keys(l.right), t.key);
    assert l.key < t.key;
  }

  /** A single left rotation yields an AVL subtree when its three hanging
      subtrees are AVL trees of fitting heights. */
  lemma RotateLeftAvl(t: Tree)
    requires t.Node? && t.right.Node? && Ordered(t)
    requires IsAvl(t.left) && IsAvl(t.right.left) && IsAvl(t.right.right)
    requires -1 <= Height(t.right.left) - Height(t.left) <= 1
    requires -1 <= Height(t.right.right) - (1 + Max(Height(t.left), Height(t.right.left))) <= 1
    ensures IsAvl(RotateLeft(t))
    ensures Height(RotateLeft(t)) == 1 + Max(1 + Max(Height(t.left), Height(t.right.left)), Height(t.right.right))
  {
    RotateLeftOrdered(t);
  }

  /** The mirror image of RotateLeftAvl. */
  lemma RotateRightAvl(t: Tree)
    requires t.Node? && t.left.Node? && Ordered(t)
    requires IsAvl(t.right) && IsAvl(t.left.left) && IsAvl(t.left.right)
    requires -1 <= Height(t.left.right) - Height(t.right) <= 1
    requires -1 <= Height(t.left.left) - (1 + Max(Height(t.left.right), Height(t.right))) <= 1
    ensures IsAvl(RotateRight(t))
    ensures Height(RotateRight(t)) == 1 + Max(Height(t.left.left), 1 + Max(Height(t.left.right), Height(t.right)))
  {
    RotateRightOrdered(t);
  }

  /** The right-heavy case of balance: a node whose right subtree is two levels
      higher than its left one. */
  lemma BalanceRightHeavy(t: Tree)
    requires t.Node? && IsAvl(t.left) && IsAvl(t.right)
    requires AllBelow(Keys(t.left), t.key) && AllAbove(Keys(t.right), t.key)
    requires Height(t.right) - Height(t.left) == 2
    ensures IsAvl(Balance(t))
    ensures Height(t.right) <= Height(Balance(t)) <= 1 + Height(t.right)
  {
    var n := FixHeight(t);
    assert BFactor(n) == 2;
    if BFactor(n.right) < 0 {
      RightLeftAvl(n);
      assert Balance(t) == RotateLeft(Node(n.key, n.level, n.left, RotateRight(n.right)));
    } else {
      RotateLeftAvl(n);
    }
  }

  /** The double rotation of the right-heavy case: the right child leans left,
      so it is first rotated right and then the node is rotated left. */
  lemma RightLeftAvl(n: Tree)
    requires n.Node? && IsAvl(n.left) && IsAvl(n.right)
    requires AllBelow(Keys(n.left), n.key) && AllAbove(Keys(n.right), n.key)
    requires Height(n.right) - Height(n.left) == 2 && BFactor(n.right) < 0
    ensures IsAvl(RotateLeft(Node(n.key, n.level, n.left, RotateRight(n.right))))
    ensures Height(n.right) <= Height(RotateLeft(Node(n.key, n.level, n.left, RotateRight(n.right)))) <= 1 + Height(n.right)
  {
    var l, r := n.left, n.right;
    var rl := r.left;
    assert Height(rl) == Height(l) + 1 && Height(r.right) == Height(l);
    var rotated := RotateRight(r);
    RotateRightOrdered(r);
    assert rotated.left == rl.left;
    var lower := rotated.right;
    assert lower == FixHeight(Node(r.key, r.level, rl.right, r.right));
    assert Ordered(rl) && Exact(rl) && Balanced(rl);
    assert Height(rl) == 1 + Max(Height(rl.left), Height(rl.right));
    assert Height(rl.right) >= Height(l) - 1;
    assert Ordered(lower);
    assert Exact(lower);
    assert Balanced(lower);
    assert Height(lower) == Height(l) + 1;
    RotateLeftAvl(Node(n.key, n.level, l, rotated));
  }

  /** The left-heavy case of balance, the mirror image of BalanceRightHeavy. */
  lemma BalanceLeftHeavy(t: Tree)
    requires t.Node? && IsAvl(t.left) && IsAvl(t.right)
    requires AllBelow(Keys(t.left), t.key) && AllAbove(Keys(t.right), t.key)
    requires Height(t.left) - Height(t.right) == 2
    ensures IsAvl(Balance(t))
    ensures Height(t.left) <= Height(Balance(t)) <= 1 + Height(t.left)
  {
    var n := FixHeight(t);
    assert BFactor(n) == -2;
    if BFactor(n.left) > 0 {
      LeftRightAvl(n);
      assert Balance(t) == RotateRight(Node(n.key, n.level, RotateLeft(n.left), n.right));
    } else {
      RotateRightAvl(n);
    }
  }

  /** The mirror image of RightLeftAvl. */
  lemma LeftRightAvl(n: Tree)
    requires n.Node? && IsAvl(n.left) && IsAvl(n.right)
    requires AllBelow(Keys(n.left), n.key) && AllAbove(Keys(n.right), n.key)
    requires Height(n.left) - Height(n.right) == 2 && BFactor(n.left) > 0
    ensures IsAvl(RotateRight(Node(n.key, n.level, RotateLeft(n.left), n.right)))
    ensures Height(n.left) <= Height(RotateRight(Node(n.key, n.level, RotateLeft(n.left), n.right))) <= 1 + Height(n.left)
  {
    var l, r := n.left, n.right;
    var lr := l.right;
    assert Height(lr) == Height(r) + 1 && Height(l.left) == Height(r);
    var rotated := RotateLeft(l);
    RotateLeftOrdered(l);
    assert rotated.right == lr.right;
    var lower := rotated.left;
    assert lower == FixHeight(Node(l.key, l.level, l.left, lr.left));
    assert Ordered(lr) && Exact(lr) && Balanced(lr);
    assert Height(lr) == 1 + Max(Height(lr.left), Height(lr.right));
    assert Height(lr.left) >= Height(r) - 1;
    assert Ordered(lower);
    assert Exact(lower);
    assert Balanced(lower);
    assert Height(lower) == Height(r) + 1;
    RotateRightAvl(Node(n.key, n.level, rotated, r));
  }

  /** balance, applied to a node whose children are AVL trees with exact levels
      whose heights differ by at most two, returns an AVL subtree; its height is
      between the taller child's and one more than that, and is exactly one more
      when the children were already within one level of each other. */
  lemma BalanceAvl(t: Tree)
    requires t.Node? && IsAvl(t.left) && IsAvl(t.right)
    requires AllBelow(Keys(t.left), t.key) && AllAbove(Keys(t.right), t.key)
    requires -2 <= Height(t.right) - Height(t.left) <= 2
    ensures IsAvl(Balance(t))
    ensures Max(Height(t.left), Height(t.right)) <= Height(Balance(t)) <= 1 + Max(Height(t.left), Height(t.right))
    ensures -1 <= Height(t.right) - Height(t.left) <= 1 ==>
              Height(Balance(t)) == 1 + Max(Height(t.left), Height(t.right))
  {
    var d := Height(t.right) - Height(t.left);
    if d == 2 {
      BalanceRightHeavy(t);
    } else if d == -2 {
      BalanceLeftHeavy(t);
    } else {
      assert BFactor(FixHeight(t)) == d;
    }
  }

  /** What the invariant says about the two children of an AVL node. */
  lemma AvlNodeParts(t: Tree)
    requires t.Node? && IsAvl(t)
    ensures IsAvl(t.left) && IsAvl(t.right)
    ensures AllBelow(Keys(t.left), t.key) && AllAbove(Keys(t.right), t.key)
    ensures -1 <= Height(t.right) - Height(t.left) <= 1
    ensures Height(t) == 1 + Max(Height(t.left), Height(t.right))
  {
  }

  /** The height arithmetic behind the Grow and Shrink lemmas: the children
      of a balanced node had heights `l0` and `r0`, one of them changed by at
      most one level to give `l1` and `r1`, and `got` is the height of the
      rebalanced subtree as BalanceAvl bounds it. */
  lemma RebalancedHeight(l0: int, r0: int, l1: int, r1: int, got: int)
    requires -1 <= r0 - l0 <= 1
    requires Max(l1, r1) <= got <= 1 + Max(l1, r1)
    requires -1 <= r1 - l1 <= 1 ==> got == 1 + Max(l1, r1)
    ensures (l0 <= l1 <= l0 + 1 && r1 == r0) || (r0 <= r1 <= r0 + 1 && l1 == l0) ==>
              1 + Max(l0, r0) <= got <= 2 + Max(l0, r0)
    ensures (l0 - 1 <= l1 <= l0 && r1 == r0) || (r0 - 1 <= r1 <= r0 && l1 == l0) ==>
              Max(l0, r0) <= got <= 1 + Max(l0, r0)
  {
  }

  /** Rebalancing after one child of an AVL node grew by at most one level
      gives an AVL subtree at most one level higher. */
  lemma GrowLeft(t: Tree, l: Tree)
    requires t.Node? && IsAvl(t) && IsAvl(l) && AllBelow(Keys(l), t.key)
    requires Height(t.left) <= Height(l) <= Height(t.left) + 1
    ensures IsAvl(Balance(Node(t.key, t.level, l, t.right)))
    ensures Height(t) <= Height(Balance(Node(t.key, t.level, l, t.right))) <= Height(t) + 1
  {
    var n := Node(t.key, t.level, l, t.right);
    AvlNodeParts(t);
    BalanceAvl(n);
    RebalancedHeight(Height(t.left), Height(t.right), Height(l), Height(t.right), Height(Balance(n)));
  }

  lemma GrowRight(t: Tree, r: Tree)
    requires t.Node? && IsAvl(t) && IsAvl(r) && AllAbove(Keys(r), t.key)
    requires Height(t.right) <= Height(r) <= Height(t.right) + 1
    ensures IsAvl(Balance(Node(t.key, t.level, t.left, r)))
    ensures Height(t) <= Height(Balance(Node(t.key, t.level, t.left, r))) <= Height(t) + 1
  {
    var n := Node(t.key, t.level, t.left, r);
    AvlNodeParts(t);
    BalanceAvl(n);
    RebalancedHeight(Height(t.left), Height(t.right), Height(t.left), Height(r), Height(Balance(n)));
  }

  /** Rebalancing after one child of an AVL node shrank by at most one level
      gives an AVL subtree at most one level lower. */
  lemma ShrinkLeft(t: Tree, l: Tree)
    requires t.Node? && IsAvl(t) && IsAvl(l) && AllBelow(Keys(l), t.key)
    requires Height(t.left) - 1 <= Height(l) <= Height(t.left)
    ensures IsAvl(Balance(Node(t.key, t.level, l, t.right)))
    ensures Height(t) - 1 <= Height(Balance(Node(t.key, t.level, l, t.right))) <= Height(t)
  {
    var n := Node(t.key, t.level, l, t.right);
    AvlNodeParts(t);
    BalanceAvl(n);
    RebalancedHeight(Height(t.left), Height(t.right), Height(l), Height(t.right), Height(Balance(n)));
  }

  lemma ShrinkRight(t: Tree, r: Tree)
    requires t.Node? && IsAvl(t) && IsAvl(r) && AllAbove(Keys(r), t.key)
    requires Height(t.right) - 1 <= Height(r) <= Height(t.right)
    ensures IsAvl(Balance(Node(t.key, t.level, t.left, r)))
    ensures Height(t) - 1 <= Height(Balance(Node(t.key, t.level, t.left, r))) <= Height(t)
  {
    var n := Node(t.key, t.level, t.left, r);
    AvlNodeParts(t);
    BalanceAvl(n);
    RebalancedHeight(Height(t.left), Height(t.right), Height(t.left), Height(r), Height(Balance(n)));
  }

  /** On a node that already satisfies the invariant, balance only recomputes the
      same level: the subtree comes back identical. */
  lemma BalanceIdentity(t: Tree)
    requires t.Node? && IsAvl(t)
    ensures Balance(t) == t
  {
    assert FixHeight(t) == t;
  }

  // ---------------------------------------------------------------------------
  // Insertion

  /** insert(root, value): descend by comparison; an absent slot receives a new
      node with level 1 and signals OK, an equal key signals FAIL; every visited
      node passes through balance on the way back. Whatever the tree, the result
      holds the old keys plus the new one, and OK is signalled for any key that
      was absent. */
  function InsertNode(t: Tree, x: int): (u: Update)
    ensures Keys(u.root) == Keys(t) + {x}
    ensures x !in Keys(t) ==> u.signal == Ok
    ensures u.root.Node?
  {
    match t
    case Leaf => Update(Node(x, 1, Leaf, Leaf), Ok)
    case Node(k, h, l, r) =>
      if x == k then
        Update(Balance(t), Fail)
      else if x < k then
        var below := InsertNode(l, x);
        Update(Balance(Node(k, h, below.root, r)), below.signal)
      else
        var below := InsertNode(r, x);
        Update(Balance(Node(k, h, l, below.root)), below.signal)
  }

  /** Insertion keeps the AVL invariant, signals OK exactly when the key was
      absent, and grows the height by at most one. */
  lemma {:induction false} InsertAvl(t: Tree, x: int)
    requires IsAvl(t)
    ensures IsAvl(InsertNode(t, x).root)
    ensures InsertNode(t, x).signal == Ok <==> x !in Keys(t)
    ensures Height(t) <= Height(InsertNode(t, x).root) <= Height(t) + 1
  {
    match t
    case Leaf =>
    case Node(k, h, l, r) =>
      if x == k {
        BalanceIdentity(t);
      } else if x < k {
        InsertAvl(l, x);
        InsertBelow(t, x);
        assert x !in Keys(r);
      } else {
        InsertAvl(r, x);
        InsertAbove(t, x);
        assert x !in Keys(l);
      }
  }

  /** The balance half of one step of InsertAvl: the key lies left of the
      node, and insertion into the left subtree kept the invariant and grew
      the height by at most one. */
  lemma InsertBelow(t: Tree, x: int)
    requires t.Node? && IsAvl(t) && x < t.key
    requires IsAvl(InsertNode(t.left, x).root)
    requires Height(t.left) <= Height(InsertNode(t.left, x).root) <= Height(t.left) + 1
    ensures IsAvl(InsertNode(t, x).root)
    ensures Height(t) <= Height(InsertNode(t, x).root) <= Height(t) + 1
  {
    GrowLeft(t, InsertNode(t.left, x).root);
  }

  /** The mirror image of InsertBelow. */
  lemma InsertAbove(t: Tree, x: int)
    requires t.Node? && IsAvl(t) && x > t.key
    requires IsAvl(InsertNode(t.right, x).root)
    requires Height(t.right) <= Height(InsertNode(t.right, x).root) <= Height(t.right) + 1
    ensures IsAvl(InsertNode(t, x).root)
    ensures Height(t) <= Height(InsertNode(t, x).root) <= Height(t) + 1
  {
    GrowRight(t, InsertNode(t.right, x).root);
  }

  /** Inserting a key that is already present signals FAIL and returns the tree
      unchanged, shape and levels included. */
  lemma {:induction false} InsertPresent(t: Tree, x: int)
    requires IsAvl(t) && x in Keys(t)
    ensures InsertNode(t, x) == Update(t, Fail)
  {
    match t
    case Node(k, h, l, r) =>
      BalanceIdentity(t);
      if x < k {
        InsertPresent(l, x);
      } else if x > k {
        InsertPresent(r, x);
      }
  }

  // ---------------------------------------------------------------------------
  // Deletion

  /** find_min: the leftmost node of a non-empty subtree. */
  function FindMin(t: Tree): (m: Tree)
    requires t.Node?
    ensures m.Node? && m.left.Leaf? && m.key in Keys(t)
  {
    if t.left.Node? then FindMin(t.left) else t
  }

  /** In an ordered subtree, find_min's key is the least key. */
  lemma {:induction false} FindMinIsLeast(t: Tree)
    requires t.Node? && Ordered(t)
    ensures forall y :: y in Keys(t) ==> FindMin(t).key <= y
  {
    if t.left.Node? {
      FindMinIsLeast(t.left);
    }
  }

  /** remove_min: detach the leftmost node, returning its right child in its
      place and rebalancing every node on the way back. Whatever the tree,
      exactly the key find_min reports is gone. */
  function RemoveMin(t: Tree): (r: Tree)
    requires t.Node?
    ensures Keys(r) + {FindMin(t).key} == Keys(t)
  {
    if t.left.Leaf? then t.right
    else Balance(Node(t.key, t.level, RemoveMin(t.left), t.right))
  }

  /** remove_min keeps the AVL invariant, removes exactly the least key, and
      lowers the height by at most one. */
  lemma {:induction false} RemoveMinAvl(t: Tree)
    requires t.Node? && IsAvl(t)
    ensures IsAvl(RemoveMin(t))
    ensures Keys(RemoveMin(t)) == Keys(t) - {FindMin(t).key}
    ensures Height(t) - 1 <= Height(RemoveMin(t)) <= Height(t)
  {
    if t.left.Node? {
      RemoveMinAvl(t.left);
      ShrinkLeft(t, RemoveMin(t.left));
    }
  }

  /** remove(root, value): descend by comparison; an absent slot signals FAIL.
      The node holding the key is dropped: without a right child its left child
      takes its place, otherwise the in-order successor (find_min of the right
      subtree) is detached with remove_min and takes over both subtrees. Every
      node on the way back passes through balance. Whatever the tree, no key
      other than the removed one is lost, and OK is only signalled for a key
      that was present. */
  function RemoveNode(t: Tree, x: int): (u: Update)
    ensures Keys(t) - {x} <= Keys(u.root) <= Keys(t)
    ensures u.signal == Ok ==> x in Keys(t)
  {
    match t
    case Leaf => Update(Leaf, Fail)
    case Node(k, h, l, r) =>
      if x < k then
        var below := RemoveNode(l, x);
        Update(Balance(Node(k, h, below.root, r)), below.signal)
      else if x > k then
        var below := RemoveNode(r, x);
        Update(Balance(Node(k, h, l, below.root)), below.signal)
      else if r.Leaf? then
        Update(l, Ok)
      else
        var successor := FindMin(r);
        Update(Balance(Node(successor.key, successor.level, l, RemoveMin(r))), Ok)
  }

  /** Removal keeps the AVL invariant, deletes exactly the given key, signals OK
      exactly when the key was present, and lowers the height by at most one. */
  lemma {:induction false} RemoveAvl(t: Tree, x: int)
    requires IsAvl(t)
    ensures IsAvl(RemoveNode(t, x).root)
    ensures Keys(RemoveNode(t, x).root) == Keys(t) - {x}
    ensures RemoveNode(t, x).signal == Ok <==> x in Keys(t)
    ensures Height(t) - 1 <= Height(RemoveNode(t, x).root) <= Height(t)
  {
    match t
    case Leaf =>
    case Node(k, h, l, r) =>
      if x < k {
        RemoveAvl(l, x);
        RemoveBelow(t, x);
        assert x !in Keys(r);
      } else if x > k {
        RemoveAvl(r, x);
        RemoveAbove(t, x);
        assert x !in Keys(l);
      } else if r.Node? {
        SpliceSuccessorAvl(t);
      } else {
        assert Keys(l) == Keys(t) - {x};
      }
  }

  /** The balance half of one step of RemoveAvl: the key lies left of the
      node, and removal from the left subtree kept the invariant, dropped no
      foreign key and lowered the height by at most one. */
  lemma RemoveBelow(t: Tree, x: int)
    requires t.Node? && IsAvl(t) && x < t.key
    requires IsAvl(RemoveNode(t.left, x).root)
    requires Keys(RemoveNode(t.left, x).root) <= Keys(t.left)
    requires Height(t.left) - 1 <= Height(RemoveNode(t.left, x).root) <= Height(t.left)
    ensures IsAvl(RemoveNode(t, x).root)
    ensures Height(t) - 1 <= Height(RemoveNode(t, x).root) <= Height(t)
  {
    var below := RemoveNode(t.left, x);
    ShrinkLeft(t, below.root);
  }

  /** The mirror image of RemoveBelow. */
  lemma RemoveAbove(t: Tree, x: int)
    requires t.Node? && IsAvl(t) && x > t.key
    requires IsAvl(RemoveNode(t.right, x).root)
    requires Keys(RemoveNode(t.right, x).root) <= Keys(t.right)
    requires Height(t.right) - 1 <= Height(RemoveNode(t.right, x).root) <= Height(t.right)
    ensures IsAvl(RemoveNode(t, x).root)
    ensures Height(t) - 1 <= Height(RemoveNode(t, x).root) <= Height(t)
  {
    var below := RemoveNode(t.right, x);
    ShrinkRight(t, below.root);
  }

  /** The splice step of remove: a node with a right child is replaced by its
      in-order successor, which takes over the left subtree and the right
      subtree without the successor. */
  lemma SpliceSuccessorAvl(t: Tree)
    requires t.Node? && t.right.Node? && IsAvl(t)
    ensures var m := FindMin(t.right);
            var u := Balance(Node(m.key, m.level, t.left, RemoveMin(t.right)));
            IsAvl(u) && Keys(u) == Keys(t) - {t.key} && Height(t) - 1 <= Height(u) <= Height(t)
  {
    var m := FindMin(t.right);
    var rest := RemoveMin(t.right);
    SplicePieces(t);
    BalanceAvl(Node(m.key, m.level, t.left, rest));
  }

  /** What the splice step needs about its three pieces: the left subtree, the
      successor and the right subtree without it. */
  lemma SplicePieces(t: Tree)
    requires t.Node? && t.right.Node? && IsAvl(t)
    ensures IsAvl(t.left) && IsAvl(RemoveMin(t.right))
    ensures AllBelow(Keys(t.left), FindMin(t.right).key)
    ensures AllAbove(Keys(RemoveMin(t.right)), FindMin(t.right).key)
    ensures Keys(t.left) + {FindMin(t.right).key} + Keys(RemoveMin(t.right)) == Keys(t) - {t.key}
    ensures Height(t.right) - 1 <= Height(RemoveMin(t.right)) <= Height(t.right)
    ensures -1 <= Height(t.right) - Height(t.left) <= 1
    ensures Height(t) == 1 + Max(Height(t.left), Height(t.right))
  {
    var k, l, r := t.key, t.left, t.right;
    assert IsAvl(l) && IsAvl(r) && AllBelow(Keys(l), k) && AllAbove(Keys(r), k);
    SuccessorFits(t);
    RemoveMinAvl(r);
    assert k !in Keys(l) && k !in Keys(r);
  }

  /** The in-order successor lies above the left subtree and below what
      remove_min leaves of the right subtree. */
  lemma SuccessorFits(t: Tree)
    requires t.Node? && t.right.Node? && IsAvl(t)
    ensures AllBelow(Keys(t.left), FindMin(t.right).key)
    ensures AllAbove(Keys(RemoveMin(t.right)), FindMin(t.right).key)
  {
    var m := FindMin(t.right).key;
    FindMinIsLeast(t.right);
    assert t.key < m;
    RemoveMinAvl(t.right);
    forall y | y in Keys(RemoveMin(t.right)) ensures m < y {
      assert y in Keys(t.right) && y != m;
    }
  }

  /** Removing an absent key signals FAIL and returns the tree unchanged. */
  lemma {:induction false} RemoveAbsent(t: Tree, x: int)
    requires IsAvl(t) && x !in Keys(t)
    ensures RemoveNode(t, x) == Update(t, Fail)
  {
    match t
    case Leaf =>
    case Node(k, h, l, r) =>
      BalanceIdentity(t);
      if x < k {
        RemoveAbsent(l, x);
      } else {
        RemoveAbsent(r, x);
      }
  }

  // ---------------------------------------------------------------------------
  // Search

  /** The descent search(root, value) performs: move right past smaller keys,
      left past larger ones, and stop at the matching node or at an absent one.
      In an ordered tree it finds a node exactly when the key is stored. */
  function Lookup(t: Tree, x: int): (r: Tree)
    ensures r.Node? ==> r.key == x && x in Keys(t)
    ensures Ordered(t) && x in Keys(t) ==> r.Node?
  {
    match t
    case Leaf => Leaf
    case Node(k, _, l, r) =>
      if k == x then t
      else if k < x then Lookup(r, x)
      else Lookup(l, x)
  }

  /** search(root, value): the read-only cursor loop; it returns the matching
      node, or Leaf for the null pointer. */
  method SearchNode(t: Tree, x: int) returns (found: Tree)
    ensures found == Lookup(t, x)
  {
    var cursor := t;
    while cursor.Node?
      invariant Lookup(cursor, x) == Lookup(t, x)
      decreases cursor
    {
      if cursor.key == x {
        return cursor;
      } else if cursor.key < x {
        cursor := cursor.right;
      } else {
        cursor := cursor.left;
      }
    }
    found := cursor;
  }

  // ---------------------------------------------------------------------------
  // Shape facts: key uniqueness and logarithmic height

  /** Key uniqueness: an ordered tree has as many distinct keys as nodes, so no
      key is stored twice. */
  lemma {:induction false} KeysAreUnique(t: Tree)
    requires Ordered(t)
    ensures |Keys(t)| == Size(t)
  {
    match t
    case Leaf =>
    case Node(k, _, l, r) =>
      KeysAreUnique(l);
      KeysAreUnique(r);
      assert k !in Keys(l) && k !in Keys(r);
      assert Keys(l) * Keys(r) == {} by {
        forall y | y in Keys(l) ensures y !in Keys(r) {
          assert y < k;
        }
      }
      assert |Keys(l) + {k}| == |Keys(l)| + 1;
      assert |Keys(l) + {k} + Keys(r)| == |Keys(l) + {k}| + |Keys(r)|;
  }

  function Pow2(n: nat): nat {
    if n == 0 then 1 else 2 * Pow2(n - 1)
  }

  lemma {:induction false} Pow2Monotone(i: nat, j: nat)
    requires i <= j
    ensures Pow2(i) <= Pow2(j)
  {
    if i < j {
      Pow2Monotone(i, j - 1);
    }
  }

  /** A balanced tree of height h has at least 2^(h/2) - 1 nodes. */
  lemma {:induction false} BalancedSizeBound(t: Tree)
    requires Balanced(t)
    ensures Pow2(Height(t) / 2) <= Size(t) + 1
  {
    match t
    case Leaf =>
    case Node(_, _, l, r) =>
      BalancedSizeBound(l);
      BalancedSizeBound(r);
      var h := Height(t);
      if h >= 2 {
        var lower := if Height(l) < Height(r) then Height(l) else Height(r);
        var upper := if Height(l) < Height(r) then Height(r) else Height(l);
        assert upper == h - 1 && lower >= h - 2;
        Pow2Monotone((h - 2) / 2, lower / 2);
        Pow2Monotone((h - 1) / 2, upper / 2);
        if h % 2 == 0 {
          assert (h - 1) / 2 == (h - 2) / 2 == h / 2 - 1;
        } else {
          assert (h - 1) / 2 == h / 2;
        }
      }
  }

  /** The Fibonacci numbers: Fib(0) = 0, Fib(1) = 1. */
  function Fib(n: nat): nat {
    if n < 2 then n else Fib(n - 1) + Fib(n - 2)
  }

  lemma {:induction false} FibMonotone(i: nat, j: nat)
    requires i <= j
    ensures Fib(i) <= Fib(j)
  {
    if i < j {
      FibMonotone(i, j - 1);
    }
  }

  /** One Fibonacci step across a node whose children's heights differ by at
      most one. */
  lemma FibStep(tall: nat, short: nat)
    requires short <= tall <= short + 1
    ensures Fib(tall + 3) <= Fib(tall + 2) + Fib(short + 2)
  {
    FibMonotone(tall + 1, short + 2);
  }

  /** The Fibonacci bound carries over from two children whose heights differ
      by at most one to their parent. */
  lemma FibNode(hl: nat, hr: nat, sl: nat, sr: nat)
    requires -1 <= hr - hl <= 1
    requires Fib(hl + 2) <= sl + 1 && Fib(hr + 2) <= sr + 1
    ensures Fib(1 + Max(hl, hr) + 2) <= sl + 1 + sr + 1
  {
    if hl < hr {
      FibStep(hr, hl);
    } else {
      FibStep(hl, hr);
    }
  }

  /** The sparsest balanced tree of height h is a Fibonacci tree: a balanced
      tree of height h has at least Fib(h + 2) - 1 nodes. */
  lemma {:induction false} BalancedFibBound(t: Tree)
    requires Balanced(t)
    ensures Fib(Height(t) + 2) <= Size(t) + 1
  {
    match t
    case Leaf =>
      assert Fib(2) == 1;
    case Node(_, _, l, r) =>
      BalancedFibBound(l);
      BalancedFibBound(r);
      FibNode(Height(l), Height(r), Size(l), Size(r));
  }

  /** Logarithmic depth: an AVL tree holding n keys has height h with
      Fib(h + 2) <= n + 1, which is the classical bound of about
      1.44 log2(n + 2); the cruder power-of-two form reads h <= 2 log2(n + 1) + 1. */
  lemma AvlHeightBound(t: Tree)
    requires IsAvl(t)
    ensures Fib(Height(t) + 2) <= |Keys(t)| + 1
    ensures Pow2(Height(t) / 2) <= |Keys(t)| + 1
  {
    BalancedFibBound(t);
    BalancedSizeBound(t);
    KeysAreUnique(t);
  }

  // ---------------------------------------------------------------------------
  // The AVLBinaryTree class

  /** AVLBinaryTree<T>: owns the root; the public operations store the new root
      that the recursive routines return. */
  class AvlBinaryTree {
    var root: Tree

    ghost predicate Valid()
      reads this
    {
      IsAvl(root)
    }

    constructor ()
      ensures Valid() && Keys(root) == {}
    {
      root := Leaf;
    }

    /** insert(value): add the key if absent (OK), keep the tree as it is if
        present (FAIL). */
    method Insert(x: int) returns (s: Signal)
      requires Valid()
      modifies this
      ensures Valid()
      ensures root == InsertNode(old(root), x).root
      ensures Keys(root) == old(Keys(root)) + {x}
      ensures s == Ok <==> x !in old(Keys(root))
      ensures s == Fail ==> root == old(root)
    {
      var u := InsertNode(root, x);
      InsertAvl(root, x);
      if x in Keys(root) {
        InsertPresent(root, x);
      }
      root, s := u.root, u.signal;
    }

    /** remove(value): delete the key if present (OK), keep the tree as it is if
        absent (FAIL). */
    method Remove(x: int) returns (s: Signal)
      requires Valid()
      modifies this
      ensures Valid()
      ensures root == RemoveNode(old(root), x).root
      ensures Keys(root) == old(Keys(root)) - {x}
      ensures s == Ok <==> x in old(Keys(root))
      ensures s == Fail ==> root == old(root)
    {
      var u := RemoveNode(root, x);
      RemoveAvl(root, x);
      if x !in Keys(root) {
        RemoveAbsent(root, x);
      }
      root, s := u.root, u.signal;
    }

    /** search(value): the matching node, or Leaf when the key is absent. */
    method Search(x: int) returns (found: Tree)
      requires Valid()
      ensures found.Node? <==> x in Keys(root)
      ensures found.Node? ==> found.key == x
    {
      found := SearchNode(root, x);
    }
  }

  // ---------------------------------------------------------------------------
  // The command dispatch of the program's main loop

  /** One parsed input line: `+ key`, `- key` or `? key`. */
  datatype Command = Add(key: int) | Erase(key: int) | Query(key: int)

  /** Dispatch one command to the tree; the signal is the line printed. */
  function Execute(t: Tree, c: Command): (u: Update)
    ensures c.Add? ==> Keys(u.root) == Keys(t) + {c.key}
    ensures c.Erase? ==> Keys(t) - {c.key} <= Keys(u.root) <= Keys(t)
    ensures c.Query? ==> u.root == t && (u.signal == Ok ==> c.key in Keys(t))
  {
    match c
    case Add(x) => InsertNode(t, x)
    case Erase(x) => RemoveNode(t, x)
    case Query(x) => Update(t, if Lookup(t, x).Node? then Ok else Fail)
  }

  /** The printed lines for a sequence of commands run from a given tree. */
  function Run(t: Tree, cs: seq<Command>): (out: seq<Signal>)
    ensures |out| == |cs|
    decreases |cs|
  {
    if cs == [] then [] else
      var u := Execute(t, cs[0]);
      [u.signal] + Run(u.root, cs[1..])
  }

  /** The same session run against a plain set of keys: the reference
      semantics of the three commands. */
  function SetRun(s: set<int>, cs: seq<Command>): (out: seq<Signal>)
    ensures |out| == |cs|
    decreases |cs|
  {
    if cs == [] then [] else
      match cs[0]
      case Add(x) => [if x in s then Fail else Ok] + SetRun(s + {x}, cs[1..])
      case Erase(x) => [if x in s then Ok else Fail] + SetRun(s - {x}, cs[1..])
      case Query(x) => [if x in s then Ok else Fail] + SetRun(s, cs[1..])
  }

  /** Any session run from an AVL tree prints what the same session prints
      against the set of its keys: a search succeeds exactly when the key was
      inserted and not removed since. */
  lemma {:induction false} RunMatchesSet(t: Tree, cs: seq<Command>)
    requires IsAvl(t)
    ensures Run(t, cs) == SetRun(Keys(t), cs)
    decreases |cs|
  {
    if cs != [] {
      var u := Execute(t, cs[0]);
      match cs[0]
      case Add(x) =>
        InsertAvl(t, x);
        RunMatchesSet(u.root, cs[1..]);
      case Erase(x) =>
        RemoveAvl(t, x);
        RunMatchesSet(u.root, cs[1..]);
      case Query(x) =>
        RunMatchesSet(u.root, cs[1..]);
    }
  }

  /** The session `+ a, + b, + a, ? a, - a, ? a, - a` against the empty set,
      for any two distinct keys a and b. */
  lemma SetSession(a: int, b: int)
    requires a != b
    ensures SetRun({}, [Add(a), Add(b), Add(a), Query(a), Erase(a), Query(a), Erase(a)])
         == [Ok, Ok, Fail, Ok, Ok, Fail, Fail]
  {
    var cs := [Add(a), Add(b), Add(a), Query(a), Erase(a), Query(a), Erase(a)];
    var both := {a} + {b};
    assert {} + {a} == {a} && both + {a} == both && {a} + {b} == both;
    assert SetRun(both - {a}, cs[6..]) == [Fail];
    assert SetRun(both - {a}, cs[5..]) == [Fail, Fail];
    assert SetRun(both, cs[4..]) == [Ok, Fail, Fail];
    assert SetRun(both, cs[3..]) == [Ok, Ok, Fail, Fail];
    assert SetRun(both, cs[2..]) == [Fail, Ok, Ok, Fail, Fail];
    assert SetRun({a}, cs[1..]) == [Ok, Fail, Ok, Ok, Fail, Fail];
  }

  /** The same session run on an empty AVL tree prints OK, OK, FAIL, OK, OK,
      FAIL, FAIL. */
  lemma SampleSession(a: int, b: int)
    requires a != b
    ensures Run(Leaf, [Add(a), Add(b), Add(a), Query(a), Erase(a), Query(a), Erase(a)])
         == [Ok, Ok, Fail, Ok, Ok, Fail, Fail]
  {
    RunMatchesSet(Leaf, [Add(a), Add(b), Add(a), Query(a), Erase(a), Query(a), Erase(a)]);
    SetSession(a, b);
  }
}
