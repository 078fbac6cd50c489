/** The balanced tree with nodes that are relinked in place. */
module AvlMap {
  import opened Wire
  import A = AvlTree

  class Node<K(!new), V> {
    var key: K
    var value: V
    var left: Node?<K, V>
    var right: Node?<K, V>
    var height: int
    ghost var Repr: set<object>
    ghost var tree: A.Tree<K, V>
    ghost var nodes: A.Tree<Node<K, V>, ()>

    /** The nodes below are apart from each other; `tree` is the value they make up, `nodes` says which they are. */
    ghost predicate Valid()
      reads this, Repr
      ensures Valid() ==> this in Repr
    {
      && this in Repr
      && tree.Node? && tree.key == key && tree.value == value && tree.height == height
      && nodes.Node? && nodes.key == this && nodes.value == () && nodes.height == height
      && (left != null ==>
            left in Repr && left.Repr <= Repr && this !in left.Repr && left.Valid() && tree.left == left.tree
            && nodes.left == left.nodes)
      && (right != null ==>
            right in Repr && right.Repr <= Repr && this !in right.Repr && right.Valid() && tree.right == right.tree
            && nodes.right == right.nodes)
      && (left == null ==> tree.left.Leaf? && nodes.left.Leaf?)
      && (right == null ==> tree.right.Leaf? && nodes.right.Leaf?)
      && (left != null && right != null ==> left.Repr !! right.Repr)
    }

    constructor (key: K, value: V)
      ensures Valid() && fresh(Repr) && tree == A.Node(A.Leaf, key, value, A.Leaf, 0)
      ensures nodes == A.Node(A.Leaf, this, (), A.Leaf, 0)
    {
      this.key, this.value := key, value;
      left, right, height := null, null, 0;
      Repr := {this};
      tree := A.Node(A.Leaf, key, value, A.Leaf, 0);
      nodes := A.Node(A.Leaf, this, (), A.Leaf, 0);
    }

    /** Hangs two trees under this node, leaving its height alone. */
    method Attach(l: Node?<K, V>, r: Node?<K, V>)
      requires l != null ==> l.Valid() && this !in l.Repr
      requires r != null ==> r.Valid() && this !in r.Repr
      requires l != null && r != null ==> l.Repr !! r.Repr
      modifies `left, `right, `Repr, `tree, `nodes
      ensures Valid() && left == l && right == r
      ensures Repr == {this} + Reach(l) + Reach(r)
      ensures tree == A.Node(Shape(l), key, value, Shape(r), height)
      ensures nodes == A.Node(Ids(l), this, (), Ids(r), height)
    {
      hide Valid;
      left := l;
      right := r;
      Repr := {this} + Reach(l) + Reach(r);
      tree := A.Node(Shape(l), key, value, Shape(r), height);
      nodes := A.Node(Ids(l), this, (), Ids(r), height);
      Linked();
    }

    lemma Linked()
      requires left != null ==> left.Valid() && this !in left.Repr
      requires right != null ==> right.Valid() && this !in right.Repr
      requires left != null && right != null ==> left.Repr !! right.Repr
      requires Repr == {this} + Reach(left) + Reach(right)
      requires tree == A.Node(Shape(left), key, value, Shape(right), height)
      requires nodes == A.Node(Ids(left), this, (), Ids(right), height)
      ensures Valid()
    {
    }

    method UpdateHeight()
      requires Valid()
      modifies `height, `tree, `nodes
      ensures Valid() && tree == A.Refreshed(old(tree)) && nodes == A.Refreshed(old(nodes))
    {
      var l := if left == null then -1 else left.height;
      var r := if right == null then -1 else right.height;
      height := if l > r then l + 1 else r + 1;
      tree := A.Refreshed(tree);
      nodes := A.Refreshed(nodes);
    }

    method Hang(l: Node?<K, V>, r: Node?<K, V>)
      requires l != null ==> l.Valid() && this !in l.Repr
      requires r != null ==> r.Valid() && this !in r.Repr
      requires l != null && r != null ==> l.Repr !! r.Repr
      modifies `left, `right, `height, `Repr, `tree, `nodes
      ensures Valid() && left == l && right == r
      ensures Repr == {this} + Reach(l) + Reach(r)
      ensures tree == A.Fork(Shape(l), key, value, Shape(r)) && nodes == A.Fork(Ids(l), this, (), Ids(r))
    {
      Attach(l, r);
      UpdateHeight();
    }

    /** The left child takes the place of this node. */
    method RotateRight() returns (y: Node<K, V>)
      requires Valid()
      modifies this, left
      ensures y.Valid() && y.Repr <= old(Repr) && y.tree == A.RotateRight(old(tree)) && key == old(key)
      ensures y.nodes == A.RotateRight(old(nodes))
    {
      if left == null {
        return this;
      }
      y := left;
      Hang(y.right, right);
      y.Hang(y.left, this);
    }

    method RotateLeft() returns (y: Node<K, V>)
      requires Valid()
      modifies this, right
      ensures y.Valid() && y.Repr <= old(Repr) && y.tree == A.RotateLeft(old(tree)) && key == old(key)
      ensures y.nodes == A.RotateLeft(old(nodes))
    {
      if right == null {
        return this;
      }
      y := right;
      Hang(left, y.left);
      y.Hang(this, y.right);
    }

    function Factor(): (f: int)
      requires Valid()
      reads this, Repr
      ensures f == A.Factor(tree) == A.Factor(nodes)
    {
      assert (left != null ==> left.Valid()) && (right != null ==> right.Valid());
      (if left == null then -1 else left.height) - (if right == null then -1 else right.height)
    }

    method FixLeft() returns (y: Node<K, V>)
      requires Valid() && left != null && tree.left.Node? && nodes.left.Node?
      modifies Repr
      ensures y.Valid() && y.Repr <= old(Repr) && key == old(key)
      ensures y.tree == LeftFixed(old(tree)) && y.nodes == LeftFixed(old(nodes))
    {
      hide A.RotateLeft, A.RotateRight;
      if left.Factor() < 0 {
        var l := left.RotateLeft();
        Attach(l, right);
      }
      y := RotateRight();
    }

    method FixRight() returns (y: Node<K, V>)
      requires Valid() && right != null && tree.right.Node? && nodes.right.Node?
      modifies Repr
      ensures y.Valid() && y.Repr <= old(Repr) && key == old(key)
      ensures y.tree == RightFixed(old(tree)) && y.nodes == RightFixed(old(nodes))
    {
      hide A.RotateLeft, A.RotateRight;
      if right.Factor() > 0 {
        var r := right.RotateRight();
        Attach(left, r);
      }
      y := RotateLeft();
    }

    /** Rebalances this node over its two trees. */
    method Balance() returns (y: Node<K, V>)
      requires Valid()
      modifies Repr
      ensures y.Valid() && y.Repr <= old(Repr) && y.tree == A.Balance(old(tree)) && key == old(key)
      ensures y.nodes == A.Balance(old(nodes))
    {
      hide A.RotateLeft, A.RotateRight;
      UpdateHeight();
      var bf := Factor();
      assert (left != null ==> left.Valid()) && (right != null ==> right.Valid());
      if bf > 1 && left != null {
        y := FixLeft();
      } else if bf < -1 && right != null {
        y := FixRight();
      } else {
        y := this;
      }
    }

    /** The end of a recursive step: new trees below, rebalanced if their height may have changed. */
    method Rebuild(l: Node?<K, V>, r: Node?<K, V>, changed: bool) returns (y: Node<K, V>)
      requires l != null ==> l.Valid() && this !in l.Repr
      requires r != null ==> r.Valid() && this !in r.Repr
      requires l != null && r != null ==> l.Repr !! r.Repr
      modifies this, Reach(l), Reach(r)
      ensures y.Valid() && y.Repr <= {this} + old(Reach(l)) + old(Reach(r)) && key == old(key)
      ensures y.tree == var n := A.Node(old(Shape(l)), old(key), old(value), old(Shape(r)), old(height));
                        if changed then A.Balance(n) else n
      ensures y.nodes == var n := A.Node(old(Ids(l)), this, (), old(Ids(r)), old(height));
                         if changed then A.Balance(n) else n
    {
      hide A.Balance;
      Attach(l, r);
      if changed {
        y := Balance();
      } else {
        y := this;
      }
    }
  }

  ghost function LeftFixed<K, V>(t: A.Tree<K, V>): A.Tree<K, V>
    requires t.Node? && t.left.Node?
  {
    A.RotateRight(if A.Factor(t.left) < 0 then t.(left := A.RotateLeft(t.left)) else t)
  }

  ghost function RightFixed<K, V>(t: A.Tree<K, V>): A.Tree<K, V>
    requires t.Node? && t.right.Node?
  {
    A.RotateLeft(if A.Factor(t.right) > 0 then t.(right := A.RotateRight(t.right)) else t)
  }

  method InsertRecursive<K(!new), V>(n: Node?<K, V>, cmp: A.Comparison<K>, key: K, value: V)
    returns (r: Node<K, V>, inserted: Node?<K, V>)
    requires n != null ==> n.Valid()
    modifies Reach(n)
    ensures r.Valid() && fresh(r.Repr - old(Reach(n)))
    ensures A.Changed(r.tree, inserted != null) == A.Insert(old(Shape(n)), cmp, key, value)
    ensures inserted != null ==> fresh(inserted)
    decreases Shape(n)
  {
    hide A.Balance;
    if n == null {
      r := new Node(key, value);
      return r, r;
    }
    if cmp(key, n.key) < 0 {
      var l;
      l, inserted := InsertRecursive(n.left, cmp, key, value);
      r := n.Rebuild(l, n.right, inserted != null);
    } else if cmp(key, n.key) > 0 {
      var t;
      t, inserted := InsertRecursive(n.right, cmp, key, value);
      r := n.Rebuild(n.left, t, inserted != null);
    } else {
      n.value := value;
      n.tree := n.tree.(value := value);
      return n, null;
    }
  }

  method FindMin<K(!new), V>(n: Node<K, V>) returns (m: Node<K, V>)
    requires n.Valid()
    ensures m.Valid() && m in n.Repr && m.Repr <= n.Repr && m.tree == A.MinOf(n.tree)
  {
    m := n;
    while m.left != null
      invariant m.Valid() && m in n.Repr && m.Repr <= n.Repr && A.MinOf(m.tree) == A.MinOf(n.tree)
      decreases m.tree
    {
      m := m.left;
    }
  }

  // ---------------------------------------------------------------- the nodes of a tree

  ghost function Members<T, V>(t: A.Tree<T, V>): set<T> {
    if t.Leaf? then {} else Members(t.left) + {t.key} + Members(t.right)
  }

  lemma {:induction false} RotationsKeepMembers<T, V>(t: A.Tree<T, V>)
    requires t.Node?
    ensures Members(A.RotateRight(t)) == Members(t) == Members(A.RotateLeft(t))
  {
  }

  lemma {:induction false} BalanceKeepsMembers<T, V>(t: A.Tree<T, V>)
    requires t.Node?
    ensures Members(A.Balance(t)) == Members(t)
  {
    var n := A.Refreshed(t);
    hide A.RotateLeft, A.RotateRight;
    if A.Factor(n) > 1 && n.left.Node? {
      RotationsKeepMembers(n.left);
      RotationsKeepMembers(if A.Factor(n.left) < 0 then n.(left := A.RotateLeft(n.left)) else n);
    } else if A.Factor(n) < -1 && n.right.Node? {
      RotationsKeepMembers(n.right);
      RotationsKeepMembers(if A.Factor(n.right) > 0 then n.(right := A.RotateRight(n.right)) else n);
    }
  }

  lemma MembersOfRebuilt<T, V>(l: A.Tree<T, V>, k: T, v: V, r: A.Tree<T, V>, h: int, x: T)
    ensures var n := A.Node(l, k, v, r, h);
            && (x in Members(A.Balance(n)) <==> x in Members(l) || x == k || x in Members(r))
            && (x in Members(n) <==> x in Members(l) || x == k || x in Members(r))
  {
    BalanceKeepsMembers(A.Node(l, k, v, r, h));
    hide A.Balance;
  }

  lemma {:induction false} MembersAreBelow<K(!new), V>(n: Node<K, V>)
    requires n.Valid()
    ensures forall m :: m in Members(n.nodes) ==> m in n.Repr
    decreases n.tree
  {
    if n.left != null {
      MembersAreBelow(n.left);
    }
    if n.right != null {
      MembersAreBelow(n.right);
    }
  }

  /** A node with two children is not taken out: it takes over the entry of its successor. */
  ghost predicate Full<K(!new), V>(n: Node<K, V>)
    reads n
  {
    n.left != null && n.right != null
  }

  /** The node handed back is the one with the key; it is still in the tree exactly if it had two children. */
  method DeleteRecursive<K(!new), V>(n: Node?<K, V>, cmp: A.Comparison<K>, key: K)
    returns (r: Node?<K, V>, removed: Node?<K, V>)
    requires n != null ==> n.Valid()
    modifies Reach(n)
    ensures (r != null ==> r.Valid()) && Reach(r) <= old(Reach(n))
    ensures A.Changed(Shape(r), removed != null) == A.Delete(old(Shape(n)), cmp, key)
    ensures removed != null ==>
            removed in old(Reach(n)) && removed in old(Members(Ids(n))) && cmp(key, old(removed.key)) == 0
    ensures removed != null ==> (removed in Members(Ids(r)) <==> old(Full(removed)))
    decreases Shape(n), 2
  {
    assert n == null ==> A.Delete(Shape(n), cmp, key) == A.Changed(A.Leaf, false);
    hide A.Balance, A.Delete, A.MinOf;
    if n == null {
      return null, null;
    }
    if cmp(key, n.key) < 0 {
      r, removed := DeleteInLeft(n, cmp, key);
    } else if cmp(key, n.key) > 0 {
      r, removed := DeleteInRight(n, cmp, key);
    } else {
      removed := n;
      r := DeleteHere(n, cmp, key);
    }
  }

  method DeleteInLeft<K(!new), V>(n: Node<K, V>, cmp: A.Comparison<K>, key: K)
    returns (r: Node<K, V>, removed: Node?<K, V>)
    requires n.Valid() && cmp(key, n.key) < 0
    modifies n.Repr
    ensures r.Valid() && r.Repr <= old(n.Repr)
    ensures A.Changed(r.tree, removed != null) == A.Delete(old(n.tree), cmp, key)
    ensures removed != null ==>
            removed in old(n.Repr) && removed in old(Members(n.nodes)) && cmp(key, old(removed.key)) == 0
    ensures removed != null ==> (removed in Members(r.nodes) <==> old(Full(removed)))
    decreases n.tree, 1
  {
    hide A.Balance;
    if n.left != null {
      MembersAreBelow(n.left);
    }
    if n.right != null {
      MembersAreBelow(n.right);
    }
    var l;
    l, removed := DeleteRecursive(n.left, cmp, key);
    if removed != null {
      MembersOfRebuilt(Ids(l), n, (), Ids(n.right), n.height, removed);
    }
    r := n.Rebuild(l, n.right, removed != null);
  }

  method DeleteInRight<K(!new), V>(n: Node<K, V>, cmp: A.Comparison<K>, key: K)
    returns (r: Node<K, V>, removed: Node?<K, V>)
    requires n.Valid() && cmp(key, n.key) > 0
    modifies n.Repr
    ensures r.Valid() && r.Repr <= old(n.Repr)
    ensures A.Changed(r.tree, removed != null) == A.Delete(old(n.tree), cmp, key)
    ensures removed != null ==>
            removed in old(n.Repr) && removed in old(Members(n.nodes)) && cmp(key, old(removed.key)) == 0
    ensures removed != null ==> (removed in Members(r.nodes) <==> old(Full(removed)))
    decreases n.tree, 1
  {
    hide A.Balance;
    if n.left != null {
      MembersAreBelow(n.left);
    }
    if n.right != null {
      MembersAreBelow(n.right);
    }
    var t;
    t, removed := DeleteRecursive(n.right, cmp, key);
    if removed != null {
      MembersOfRebuilt(Ids(n.left), n, (), Ids(t), n.height, removed);
    }
    r := n.Rebuild(n.left, t, removed != null);
  }

  method DeleteHere<K(!new), V>(n: Node<K, V>, cmp: A.Comparison<K>, key: K) returns (r: Node?<K, V>)
    requires n.Valid() && cmp(key, n.key) == 0
    modifies n.Repr
    ensures (r != null ==> r.Valid()) && Reach(r) <= old(n.Repr)
    ensures A.Changed(Shape(r), true) == A.Delete(old(n.tree), cmp, key)
    ensures n in Members(Ids(r)) <==> old(Full(n))
    ensures old(n.tree).Node? && (old(Full(n)) ==> old(n.tree).right.Node?)
    ensures n.key == if old(Full(n)) then A.MinOf(old(n.tree).right).key else old(n.key)
    decreases n.tree, 1
  {
    hide A.Balance, A.MinOf;
    if n.left != null {
      MembersAreBelow(n.left);
    }
    if n.right != null {
      MembersAreBelow(n.right);
    }
    if n.left == null {
      return n.right;
    }
    if n.right == null {
      return n.left;
    }
    r := TakeSuccessor(n, cmp, key);
  }

  lemma SuccessorReplaces<K, V>(t: A.Tree<K, V>, cmp: A.Comparison<K>, key: K)
    requires t.Node? && cmp(key, t.key) == 0 && t.left.Node? && t.right.Node?
    ensures var m := A.MinOf(t.right);
            m.Node? && A.Delete(t, cmp, key) ==
            A.Changed(A.Balance(A.Node(t.left, m.key, m.value, A.Delete(t.right, cmp, m.key).tree, t.height)), true)
  {
  }

  /** Puts the entry of the successor in the place of the deleted one, and takes the successor out below. */
  method TakeSuccessor<K(!new), V>(n: Node<K, V>, cmp: A.Comparison<K>, key: K) returns (r: Node<K, V>)
    requires n.Valid() && cmp(key, n.key) == 0 && n.left != null && n.right != null
    modifies n.Repr
    ensures r.Valid() && r.Repr <= old(n.Repr) && n in Members(r.nodes)
    ensures old(n.tree).Node? && old(n.tree).right.Node? && n.key == A.MinOf(old(n.tree).right).key
    ensures A.Changed(r.tree, true) == A.Delete(old(n.tree), cmp, key)
    decreases n.tree, 0
  {
    SuccessorReplaces(n.tree, cmp, key);
    hide A.Balance, A.Delete, A.MinOf;
    var successor := FindMin(n.right);
    n.key := successor.key;
    n.value := successor.value;
    r := DeleteRight(n, cmp, successor.key);
  }

  method DeleteRight<K(!new), V>(n: Node<K, V>, cmp: A.Comparison<K>, key: K) returns (r: Node<K, V>)
    requires n.left != null && n.right != null && n.left.Valid() && n.right.Valid()
    requires n !in n.left.Repr && n !in n.right.Repr && n.left.Repr !! n.right.Repr
    modifies n, n.left.Repr, n.right.Repr
    ensures r.Valid() && r.Repr <= {n} + old(n.left.Repr) + old(n.right.Repr) && n in Members(r.nodes)
    ensures n.key == old(n.key)
    ensures r.tree == A.Balance(A.Node(old(n.left.tree), old(n.key), old(n.value),
                                       A.Delete(old(n.right.tree), cmp, key).tree, old(n.height)))
    decreases n.right.tree, 3
  {
    hide A.Balance, A.Delete;
    var rest, gone := DeleteRecursive(n.right, cmp, key);
    BalanceKeepsMembers(A.Node(n.left.nodes, n, (), Ids(rest), n.height));
    r := n.Rebuild(n.left, rest, true);
  }

  ghost function Reach<K(!new), V>(n: Node?<K, V>): set<object>
    reads n
  {
    if n == null then {} else n.Repr
  }

  ghost function Shape<K(!new), V>(n: Node?<K, V>): A.Tree<K, V>
    reads n
  {
    if n == null then A.Leaf else n.tree
  }

  ghost function Ids<K(!new), V>(n: Node?<K, V>): A.Tree<Node<K, V>, ()>
    reads n
  {
    if n == null then A.Leaf else n.nodes
  }

  method FindRecursive<K(!new), V>(n: Node?<K, V>, cmp: A.Comparison<K>, key: K) returns (found: Node?<K, V>)
    requires n != null ==> n.Valid()
    ensures A.Find(Shape(n), cmp, key) == if found == null then None else Some(found.value)
    decreases Shape(n)
  {
    if n == null {
      return null;
    }
    if cmp(key, n.key) < 0 {
      found := FindRecursive(n.left, cmp, key);
    } else if cmp(key, n.key) > 0 {
      found := FindRecursive(n.right, cmp, key);
    } else {
      found := n;
    }
  }

  lemma {:induction false} CardinalityAfterPut<K(!new), V>(m: map<K, V>, key: K, value: V)
    ensures |m[key := value]| == |m| + (if key in m then 0 else 1)
  {
    assert m[key := value].Keys == m.Keys + {key};
    assert |m[key := value]| == |m[key := value].Keys| && |m| == |m.Keys|;
  }

  lemma {:induction false} CardinalityAfterRemove<K(!new), V>(m: map<K, V>, key: K)
    ensures |m - {key}| == |m| - (if key in m then 1 else 0)
  {
    assert (m - {key}).Keys == m.Keys - {key};
    assert |m - {key}| == |(m - {key}).Keys| && |m| == |m.Keys|;
  }

  class Map<K(!new), V> {
    var root: Node?<K, V>
    var count: nat
    const compare: A.Comparison<K>

    ghost predicate Valid()
      reads this, root, Reach(root)
    {
      && A.TotalOrder(compare)
      && (root != null ==> root.Valid() && this !in root.Repr)
      && A.Valid(Shape(root), compare)
      && count == |Contents()|
    }

    /** The finite map this tree stands for. */
    ghost function Contents(): map<K, V>
      reads this, root
    {
      A.Contents(Shape(root))
    }

    /** The nodes that are linked into the tree. */
    ghost function Nodes(): set<Node<K, V>>
      reads this, root
    {
      Members(Ids(root))
    }

    constructor (compare: A.Comparison<K>)
      requires A.TotalOrder(compare)
      ensures Valid() && root == null && Contents() == map[] && this.compare == compare
    {
      this.compare := compare;
      root, count := null, 0;
    }

    /** Hands back a new node, and nothing if the key is known; that key gets the new value. */
    method Insert(key: K, value: V) returns (inserted: Node?<K, V>)
      requires Valid()
      modifies this, Reach(root)
      ensures Valid() && Contents() == old(Contents())[key := value]
      ensures inserted == null <==> key in old(Contents())
      ensures inserted != null ==> fresh(inserted)
      ensures Shape(root) == A.Insert(old(Shape(root)), compare, key, value).tree
      ensures fresh(Reach(root) - old(Reach(root)))
    {
      hide A.TotalOrder, A.Valid, A.Contents, A.Insert, Node.Valid;
      ghost var t := Shape(root);
      A.InsertIsUpdate(t, compare, key, value);
      CardinalityAfterPut(Contents(), key, value);
      root, inserted := InsertRecursive(root, compare, key, value);
      if inserted != null {
        count := count + 1;
      }
    }

    method Delete(key: K) returns (removed: Node?<K, V>)
      requires Valid()
      modifies this, Reach(root)
      ensures Valid() && Contents() == old(Contents()) - {key}
      ensures removed != null <==> key in old(Contents())
      ensures removed != null ==>
              removed in old(Reach(root)) && removed in old(Nodes()) && compare(key, old(removed.key)) == 0
      ensures removed != null ==> (removed in Nodes() <==> old(Full(removed)))
    {
      hide A.TotalOrder, A.Valid, A.Contents, A.Delete, Node.Valid, Full, Members;
      ghost var t := Shape(root);
      A.DeleteIsRemoval(t, compare, key);
      CardinalityAfterRemove(Contents(), key);
      root, removed := DeleteRecursive(root, compare, key);
      assert Shape(root) == A.Delete(t, compare, key).tree;
      if removed != null {
        count := count - 1;
      }
      assert count == |A.Contents(t) - {key}|;
    }

    method Get(key: K) returns (value: Option<V>)
      requires Valid()
      ensures value == if key in Contents() then Some(Contents()[key]) else None
    {
      A.FindIsLookup(Shape(root), compare, key);
      var found := FindRecursive(root, compare, key);
      value := if found == null then None else Some(found.value);
    }
  }

  function Difference(a: int, b: int): int { a - b }

  lemma InsertedFirst(key: int)
    ensures A.Insert(A.Leaf, Difference, key, 0).tree == A.Node(A.Leaf, key, 0, A.Leaf, 0)
  {
  }

  lemma InsertedBelow(t: A.Tree<int, int>, key: int)
    requires t.Node?
    requires if key < t.key then t.left.Leaf? && A.Height(t.right) <= 1
             else key > t.key && t.right.Leaf? && A.Height(t.left) <= 1
    requires A.Height(t.left) >= -1 && A.Height(t.right) >= -1
    ensures var one := A.Node(A.Leaf, key, 0, A.Leaf, 0);
            A.Insert(t, Difference, key, 0).tree
              == A.Refreshed(if key < t.key then t.(left := one) else t.(right := one))
  {
    var one := A.Node(A.Leaf, key, 0, A.Leaf, 0);
    assert A.Insert(A.Leaf, Difference, key, 0) == A.Changed(one, true);
  }

  lemma OneNode(n: Node<int, int>)
    requires n.Valid() && n.tree.left.Leaf? && n.tree.right.Leaf?
    ensures n.key == n.tree.key && Members(n.nodes) == {n}
  {
  }

  lemma ThreeNodes(n: Node<int, int>)
    requires n.Valid() && n.tree == A.Node(A.Node(A.Leaf, 1, 0, A.Leaf, 0), 2, 0, A.Node(A.Leaf, 3, 0, A.Leaf, 0), 1)
    ensures Full(n) && n.left.key == 1 && n.key == 2 && n.right.key == 3 && Members(n.nodes) == {n.left, n, n.right}
  {
    OneNode(n.left);
    OneNode(n.right);
  }

  lemma TwoOfThree()
    ensures map[2 := 0, 1 := 0, 3 := 0] - {2} == map[1 := 0, 3 := 0]
  {
  }

  /** A key is deleted, and the node handed back is one of the two that are left in the tree. */
  method DeletedNodeStays() returns (m: Map<int, int>, removed: Node<int, int>)
    ensures m.Valid() && m.Contents() == map[1 := 0, 3 := 0] && removed in m.Nodes()
  {
    m := new Map(Difference);
    hide A.Valid, A.Contents, A.TotalOrder;
    Build(m);
    ThreeNodes(m.root);
    TwoOfThree();
    hide Members, Node.Valid, Full;
    removed := TakeTwo(m);
  }

  method Build(m: Map<int, int>)
    requires m.Valid() && m.compare == Difference && m.root == null && m.Contents() == map[]
    modifies m
    ensures m.Valid() && m.Contents() == map[2 := 0, 1 := 0, 3 := 0] && fresh(Reach(m.root))
    ensures Shape(m.root) == A.Node(A.Node(A.Leaf, 1, 0, A.Leaf, 0), 2, 0, A.Node(A.Leaf, 3, 0, A.Leaf, 0), 1)
  {
    hide A.Insert, A.Valid, A.Contents, A.TotalOrder;
    InsertedFirst(2);
    var inserted := m.Insert(2, 0);
    InsertedBelow(Shape(m.root), 1);
    inserted := m.Insert(1, 0);
    InsertedBelow(Shape(m.root), 3);
    inserted := m.Insert(3, 0);
  }

  method TakeTwo(m: Map<int, int>) returns (removed: Node<int, int>)
    requires m.Valid() && m.compare == Difference && m.root != null && Full(m.root) && 2 in m.Contents()
    requires m.root.left.key == 1 && m.root.key == 2 && m.root.right.key == 3
    requires m.Nodes() == {m.root.left, m.root, m.root.right}
    modifies m, Reach(m.root)
    ensures m.Valid() && m.Contents() == old(m.Contents()) - {2} && removed in m.Nodes()
  {
    hide A.Valid, A.Contents, A.TotalOrder, Members, Node.Valid;
    removed := m.Delete(2);
  }
}
