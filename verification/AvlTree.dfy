/** The balanced search tree as a value: rotations, insertion and deletion for any total order. */
module AvlTree {
  import opened Arith
  import opened Wire

  datatype Tree<K, V> = Leaf | Node(left: Tree<K, V>, key: K, value: V, right: Tree<K, V>, height: int)

  type Comparison<!K> = (K, K) -> int

  ghost predicate TotalOrder<K(!new)>(cmp: Comparison<K>) {
    && (forall a: K, b: K :: cmp(a, b) == 0 <==> a == b)
    && (forall a: K, b: K :: cmp(a, b) < 0 <==> cmp(b, a) > 0)
    && (forall a: K, b: K, c: K :: cmp(a, b) < 0 && cmp(b, c) < 0 ==> cmp(a, c) < 0)
  }

  // ---------------------------------------------------------------- operations

  function Height<K, V>(t: Tree<K, V>): int { if t.Leaf? then -1 else t.height }

  function Fork<K, V>(left: Tree<K, V>, key: K, value: V, right: Tree<K, V>): Tree<K, V> {
    Node(left, key, value, right, Max(Height(left), Height(right)) + 1)
  }

  function Refreshed<K, V>(t: Tree<K, V>): Tree<K, V>
    requires t.Node?
  {
    Fork(t.left, t.key, t.value, t.right)
  }

  function Factor<K, V>(t: Tree<K, V>): int
    requires t.Node?
  {
    Height(t.left) - Height(t.right)
  }

  function RotateRight<K, V>(x: Tree<K, V>): Tree<K, V>
    requires x.Node?
  {
    if x.left.Leaf? then x
    else
      var y := x.left;
      Fork(y.left, y.key, y.value, Fork(y.right, x.key, x.value, x.right))
  }

  function RotateLeft<K, V>(x: Tree<K, V>): Tree<K, V>
    requires x.Node?
  {
    if x.right.Leaf? then x
    else
      var y := x.right;
      Fork(Fork(x.left, x.key, x.value, y.left), y.key, y.value, y.right)
  }

  function Balance<K, V>(t: Tree<K, V>): Tree<K, V>
    requires t.Node?
  {
    var n := Refreshed(t);
    if Factor(n) > 1 && n.left.Node? then
      RotateRight(if Factor(n.left) < 0 then n.(left := RotateLeft(n.left)) else n)
    else if Factor(n) < -1 && n.right.Node? then
      RotateLeft(if Factor(n.right) > 0 then n.(right := RotateRight(n.right)) else n)
    else n
  }

  datatype Changed<K, V> = Changed(tree: Tree<K, V>, done: bool)

  function Insert<K, V>(t: Tree<K, V>, cmp: Comparison<K>, key: K, value: V): Changed<K, V> {
    if t.Leaf? then Changed(Node(Leaf, key, value, Leaf, 0), true)
    else if cmp(key, t.key) < 0 then
      var r := Insert(t.left, cmp, key, value);
      Changed(if r.done then Balance(t.(left := r.tree)) else t.(left := r.tree), r.done)
    else if cmp(key, t.key) > 0 then
      var r := Insert(t.right, cmp, key, value);
      Changed(if r.done then Balance(t.(right := r.tree)) else t.(right := r.tree), r.done)
    else Changed(t.(value := value), false)
  }

  function Find<K, V>(t: Tree<K, V>, cmp: Comparison<K>, key: K): Option<V> {
    if t.Leaf? then None
    else if cmp(key, t.key) < 0 then Find(t.left, cmp, key)
    else if cmp(key, t.key) > 0 then Find(t.right, cmp, key)
    else Some(t.value)
  }

  function MinOf<K, V>(t: Tree<K, V>): (m: Tree<K, V>)
    requires t.Node?
    ensures m.Node?
  {
    if t.left.Leaf? then t else MinOf(t.left)
  }

  function Delete<K, V>(t: Tree<K, V>, cmp: Comparison<K>, key: K): Changed<K, V>
    decreases t, 1
  {
    if t.Leaf? then Changed(t, false)
    else if cmp(key, t.key) < 0 then
      var r := Delete(t.left, cmp, key);
      Changed(if r.done then Balance(t.(left := r.tree)) else t.(left := r.tree), r.done)
    else if cmp(key, t.key) > 0 then
      var r := Delete(t.right, cmp, key);
      Changed(if r.done then Balance(t.(right := r.tree)) else t.(right := r.tree), r.done)
    else if t.left.Leaf? then Changed(t.right, true)
    else if t.right.Leaf? then Changed(t.left, true)
    else
      var successor := MinOf(t.right);
      var rest := Delete(t.right, cmp, successor.key).tree;
      Changed(Balance(t.(key := successor.key, value := successor.value, right := rest)), true)
  }

  // ---------------------------------------------------------------- meaning

  /** The finite map the tree holds, merged in order. */
  function Contents<K, V>(t: Tree<K, V>): map<K, V> {
    if t.Leaf? then map[] else Contents(t.left) + map[t.key := t.value] + Contents(t.right)
  }

  ghost predicate Below<K, V>(m: map<K, V>, cmp: Comparison<K>, bound: K) { forall k :: k in m ==> cmp(k, bound) < 0 }

  ghost predicate Above<K, V>(m: map<K, V>, cmp: Comparison<K>, bound: K) { forall k :: k in m ==> cmp(k, bound) > 0 }

  ghost predicate Ordered<K, V>(t: Tree<K, V>, cmp: Comparison<K>) {
    t.Node? ==>
      && Ordered(t.left, cmp) && Ordered(t.right, cmp)
      && Below(Contents(t.left), cmp, t.key)
      && Above(Contents(t.right), cmp, t.key)
  }

  /** Stored heights are exact and siblings differ by at most one. */
  predicate Balanced<K, V>(t: Tree<K, V>) {
    t.Node? ==>
      && Balanced(t.left) && Balanced(t.right)
      && t.height == Max(Height(t.left), Height(t.right)) + 1
      && -1 <= Factor(t) <= 1
  }

  ghost predicate Valid<K, V>(t: Tree<K, V>, cmp: Comparison<K>) { Ordered(t, cmp) && Balanced(t) }

  // ---------------------------------------------------------------- rotations

  lemma {:induction false} HeightBound<K, V>(t: Tree<K, V>)
    requires Balanced(t)
    ensures Height(t) >= -1 && (Height(t) == -1 <==> t.Leaf?)
  {
    if t.Node? {
      HeightBound(t.left);
      HeightBound(t.right);
    }
  }

  lemma {:induction false} MergeAssociates<K, V>(a: map<K, V>, b: map<K, V>, c: map<K, V>)
    ensures (a + b) + c == a + (b + c)
  {
  }

  /** Both shapes of three subtrees and two keys hold the same. */
  lemma {:induction false} SameContents<K, V>(a: Tree<K, V>, y: K, v: V, b: Tree<K, V>, x: K, w: V, c: Tree<K, V>)
    ensures Contents(Fork(Fork(a, y, v, b), x, w, c)) == Contents(Fork(a, y, v, Fork(b, x, w, c)))
  {
    var p, q := Contents(a) + map[y := v], Contents(b) + map[x := w];
    MergeAssociates(p, Contents(b), map[x := w]);
    MergeAssociates(p, q, Contents(c));
  }

  lemma {:induction false} Bounds<K(!new), V>(a: Tree<K, V>, k: K, v: V, b: Tree<K, V>, cmp: Comparison<K>, bound: K)
    ensures Below(Contents(Fork(a, k, v, b)), cmp, bound) <==>
            Below(Contents(a), cmp, bound) && cmp(k, bound) < 0 && Below(Contents(b), cmp, bound)
    ensures Above(Contents(Fork(a, k, v, b)), cmp, bound) <==>
            Above(Contents(a), cmp, bound) && cmp(k, bound) > 0 && Above(Contents(b), cmp, bound)
  {
    var m := Contents(Fork(a, k, v, b));
    assert forall j :: j in m <==> j in Contents(a) || j == k || j in Contents(b);
    assert k in m;
  }

  lemma {:induction false} BoundsShift<K(!new), V>(m: map<K, V>, cmp: Comparison<K>, x: K, y: K)
    requires TotalOrder(cmp) && cmp(x, y) < 0
    ensures Below(m, cmp, x) ==> Below(m, cmp, y)
    ensures Above(m, cmp, y) ==> Above(m, cmp, x)
  {
  }

  lemma {:induction false} SameOrder<K(!new), V>(a: Tree<K, V>, y: K, v: V, b: Tree<K, V>, x: K, w: V, c: Tree<K, V>,
                                                cmp: Comparison<K>)
    requires TotalOrder(cmp)
    ensures Ordered(Fork(Fork(a, y, v, b), x, w, c), cmp) <==> Ordered(Fork(a, y, v, Fork(b, x, w, c)), cmp)
  {
    hide Below, Above, Contents;
    assert cmp(x, y) > 0 <==> cmp(y, x) < 0;
    Bounds(a, y, v, b, cmp, x);
    Bounds(b, x, w, c, cmp, y);
    if cmp(y, x) < 0 {
      BoundsShift(Contents(a), cmp, y, x);
      BoundsShift(Contents(c), cmp, y, x);
    }
    hide TotalOrder;
    assert Ordered(Fork(a, y, v, b), cmp) <==>
           Ordered(a, cmp) && Ordered(b, cmp) && Below(Contents(a), cmp, y) && Above(Contents(b), cmp, y);
    assert Ordered(Fork(b, x, w, c), cmp) <==>
           Ordered(b, cmp) && Ordered(c, cmp) && Below(Contents(b), cmp, x) && Above(Contents(c), cmp, x);
  }

  lemma {:induction false} RotateRightKeeps<K(!new), V>(x: Tree<K, V>, cmp: Comparison<K>)
    requires x.Node? && Ordered(x, cmp) && TotalOrder(cmp)
    ensures Ordered(RotateRight(x), cmp) && Contents(RotateRight(x)) == Contents(x)
  {
    if x.left.Node? {
      var y := x.left;
      SameContents(y.left, y.key, y.value, y.right, x.key, x.value, x.right);
      SameOrder(y.left, y.key, y.value, y.right, x.key, x.value, x.right, cmp);
      HeightsDoNotMatter(x, cmp);
      hide Below, Above, TotalOrder;
    }
  }

  lemma {:induction false} RotateLeftKeeps<K(!new), V>(x: Tree<K, V>, cmp: Comparison<K>)
    requires x.Node? && Ordered(x, cmp) && TotalOrder(cmp)
    ensures Ordered(RotateLeft(x), cmp) && Contents(RotateLeft(x)) == Contents(x)
  {
    if x.right.Node? {
      var y := x.right;
      SameContents(x.left, x.key, x.value, y.left, y.key, y.value, y.right);
      SameOrder(x.left, x.key, x.value, y.left, y.key, y.value, y.right, cmp);
      HeightsDoNotMatter(x, cmp);
      hide Below, Above, TotalOrder;
    }
  }

  lemma {:induction false} HeightsDoNotMatter<K, V>(x: Tree<K, V>, cmp: Comparison<K>)
    requires x.Node?
    ensures Contents(Refreshed(x)) == Contents(x) && (Ordered(Refreshed(x), cmp) <==> Ordered(x, cmp))
    ensures x.left.Node? ==>
              var y := Fork(Refreshed(x.left), x.key, x.value, x.right);
              Contents(y) == Contents(x) && (Ordered(y, cmp) <==> Ordered(x, cmp))
    ensures x.right.Node? ==>
              var y := Fork(x.left, x.key, x.value, Refreshed(x.right));
              Contents(y) == Contents(x) && (Ordered(y, cmp) <==> Ordered(x, cmp))
  {
    hide Below, Above;
    if x.left.Node? {
      assert Contents(Refreshed(x.left)) == Contents(x.left);
      assert Ordered(Refreshed(x.left), cmp) <==> Ordered(x.left, cmp);
    }
    if x.right.Node? {
      assert Contents(Refreshed(x.right)) == Contents(x.right);
      assert Ordered(Refreshed(x.right), cmp) <==> Ordered(x.right, cmp);
    }
  }

  /** Rebalancing changes neither the order nor the contents. */
  lemma {:induction false} BalanceKeeps<K(!new), V>(t: Tree<K, V>, cmp: Comparison<K>)
    requires t.Node? && Ordered(t, cmp) && TotalOrder(cmp)
    ensures Ordered(Balance(t), cmp) && Contents(Balance(t)) == Contents(t)
  {
    var n := Refreshed(t);
    if Factor(n) > 1 && n.left.Node? {
      RotateLeftKeeps(n.left, cmp);
      var m := if Factor(n.left) < 0 then n.(left := RotateLeft(n.left)) else n;
      assert Contents(m) == Contents(n);
      RotateRightKeeps(m, cmp);
    } else if Factor(n) < -1 && n.right.Node? {
      RotateRightKeeps(n.right, cmp);
      var m := if Factor(n.right) > 0 then n.(right := RotateRight(n.right)) else n;
      assert Contents(m) == Contents(n);
      RotateLeftKeeps(m, cmp);
    }
  }

  lemma {:induction false} LeftHeavy<K, V>(t: Tree<K, V>)
    requires t.Node? && Balanced(t.left) && Balanced(t.right) && Factor(t) == 2
    ensures Balanced(Balance(t)) && Height(t.left) <= Height(Balance(t)) <= Height(t.left) + 1
  {
    HeightBound(t.left);
    HeightBound(t.right);
    var y := t.left;
    HeightBound(y.left);
    HeightBound(y.right);
    if Factor(y) < 0 {
      HeightBound(y.right.left);
      HeightBound(y.right.right);
    }
  }

  lemma {:induction false} RightHeavy<K, V>(t: Tree<K, V>)
    requires t.Node? && Balanced(t.left) && Balanced(t.right) && Factor(t) == -2
    ensures Balanced(Balance(t)) && Height(t.right) <= Height(Balance(t)) <= Height(t.right) + 1
  {
    HeightBound(t.left);
    HeightBound(t.right);
    var y := t.right;
    HeightBound(y.left);
    HeightBound(y.right);
    if Factor(y) > 0 {
      HeightBound(y.left.left);
      HeightBound(y.left.right);
    }
  }

  /** From subtrees at most two apart, rebalancing restores the shape, losing at most one level. */
  lemma {:induction false} BalanceRestores<K, V>(t: Tree<K, V>)
    requires t.Node? && Balanced(t.left) && Balanced(t.right) && -2 <= Factor(t) <= 2
    ensures var tall := Max(Height(t.left), Height(t.right)) + 1;
            && Balanced(Balance(t)) && tall - 1 <= Height(Balance(t)) <= tall
            && (-1 <= Factor(t) <= 1 ==> Height(Balance(t)) == tall)
  {
    if Factor(t) == 2 {
      LeftHeavy(t);
    } else if Factor(t) == -2 {
      RightHeavy(t);
    }
    hide RotateLeft, RotateRight;
  }

  lemma {:induction false} Parts<K, V>(t: Tree<K, V>, cmp: Comparison<K>)
    requires t.Node? && Valid(t, cmp)
    ensures Valid(t.left, cmp) && Valid(t.right, cmp)
    ensures Below(Contents(t.left), cmp, t.key) && Above(Contents(t.right), cmp, t.key)
    ensures Contents(t) == Contents(t.left) + map[t.key := t.value] + Contents(t.right)
    ensures t.height == Max(Height(t.left), Height(t.right)) + 1 && -1 <= Factor(t) <= 1
    ensures Height(t.left) >= -1 && Height(t.right) >= -1
    ensures (Height(t.left) == -1 <==> t.left.Leaf?) && (Height(t.right) == -1 <==> t.right.Leaf?)
  {
    HeightBound(t.left);
    HeightBound(t.right);
  }

  /** Rebalancing a node whose valid sides are at most two apart. */
  lemma {:induction false} Rebalanced<K(!new), V>(n: Tree<K, V>, cmp: Comparison<K>)
    requires n.Node? && Valid(n.left, cmp) && Valid(n.right, cmp) && TotalOrder(cmp)
    requires Below(Contents(n.left), cmp, n.key) && Above(Contents(n.right), cmp, n.key) && -2 <= Factor(n) <= 2
    ensures var tall := Max(Height(n.left), Height(n.right)) + 1;
            && Valid(Balance(n), cmp)
            && Contents(Balance(n)) == Contents(n.left) + map[n.key := n.value] + Contents(n.right)
            && tall - 1 <= Height(Balance(n)) <= tall
            && (-1 <= Factor(n) <= 1 ==> Height(Balance(n)) == tall)
  {
    BalanceKeeps(n, cmp);
    BalanceRestores(n);
    hide Balance, TotalOrder, Below, Above;
  }

  /** A valid node with other parts of nearly the same heights, rebalanced if something changed. */
  lemma {:induction false} Rebuild<K(!new), V>(t: Tree<K, V>, n: Tree<K, V>, changed: bool, cmp: Comparison<K>)
    requires t.Node? && n.Node? && Valid(t, cmp) && Valid(n.left, cmp) && Valid(n.right, cmp) && TotalOrder(cmp)
    requires Below(Contents(n.left), cmp, n.key) && Above(Contents(n.right), cmp, n.key) && n.height == t.height
    requires n.left == t.left || n.right == t.right
    requires -1 <= Height(n.left) - Height(t.left) <= 1 && -1 <= Height(n.right) - Height(t.right) <= 1
    requires !changed ==> Height(n.left) == Height(t.left) && Height(n.right) == Height(t.right)
    ensures var b := if changed then Balance(n) else n;
            && Valid(b, cmp) && Contents(b) == Contents(n.left) + map[n.key := n.value] + Contents(n.right)
            && (!changed ==> Height(b) == Height(t))
            && (Height(n.left) >= Height(t.left) && Height(n.right) >= Height(t.right) ==>
                  Height(t) <= Height(b) <= Height(t) + 1)
            && (Height(n.left) <= Height(t.left) && Height(n.right) <= Height(t.right) ==>
                  Height(t) - 1 <= Height(b) <= Height(t))
  {
    Parts(t, cmp);
    if changed {
      Rebalanced(n, cmp);
    }
    hide TotalOrder, Below, Above, Balance;
  }

  // ---------------------------------------------------------------- lookup

  lemma {:induction false} SidesApart<K(!new), V>(t: Tree<K, V>, cmp: Comparison<K>, key: K)
    requires t.Node? && Ordered(t, cmp) && TotalOrder(cmp)
    ensures cmp(key, t.key) < 0 ==> key !in Contents(t.right) && key != t.key
    ensures cmp(key, t.key) > 0 ==> key !in Contents(t.left) && key != t.key
    ensures cmp(key, t.key) == 0 ==> key !in Contents(t.left) && key !in Contents(t.right) && key == t.key
  {
  }

  /** Searching sees exactly the map. */
  lemma {:induction false} FindIsLookup<K(!new), V>(t: Tree<K, V>, cmp: Comparison<K>, key: K)
    requires Ordered(t, cmp) && TotalOrder(cmp)
    ensures Find(t, cmp, key) == if key in Contents(t) then Some(Contents(t)[key]) else None
  {
    if t.Node? {
      SidesApart(t, cmp, key);
      hide TotalOrder, Below, Above;
      FindIsLookup(t.left, cmp, key);
      FindIsLookup(t.right, cmp, key);
    }
  }

  // ---------------------------------------------------------------- insertion

  lemma {:induction false} PutLeft<K, V>(l: map<K, V>, k: K, v: V, r: map<K, V>, key: K, value: V)
    requires key != k && key !in r
    ensures l[key := value] + map[k := v] + r == (l + map[k := v] + r)[key := value]
  {
  }

  lemma {:induction false} PutRight<K, V>(l: map<K, V>, k: K, v: V, r: map<K, V>, key: K, value: V)
    ensures l + map[k := v] + r[key := value] == (l + map[k := v] + r)[key := value]
  {
  }

  lemma {:induction false} PutHere<K, V>(l: map<K, V>, k: K, v: V, r: map<K, V>, value: V)
    requires k !in r
    ensures l + map[k := value] + r == (l + map[k := v] + r)[k := value]
  {
  }

  lemma {:induction false} PutBounds<K(!new), V>(m: map<K, V>, cmp: Comparison<K>, bound: K, key: K, value: V)
    ensures Below(m, cmp, bound) && cmp(key, bound) < 0 ==> Below(m[key := value], cmp, bound)
    ensures Above(m, cmp, bound) && cmp(key, bound) > 0 ==> Above(m[key := value], cmp, bound)
  {
  }

  /** Insertion keeps the tree valid, grows it by at most a level, and is the update of the map. */
  lemma {:induction false} InsertIsUpdate<K(!new), V>(t: Tree<K, V>, cmp: Comparison<K>, key: K, value: V)
    requires Valid(t, cmp) && TotalOrder(cmp)
    ensures var r := Insert(t, cmp, key, value);
            && Valid(r.tree, cmp) && Contents(r.tree) == Contents(t)[key := value]
            && (r.done <==> key !in Contents(t))
            && Height(t) <= Height(r.tree) <= Height(t) + (if r.done then 1 else 0)
  {
    HeightBound(t);
    if t.Leaf? {
      assert Contents(Insert(t, cmp, key, value).tree) == map[key := value];
    } else {
      Parts(t, cmp);
      SidesApart(t, cmp, key);
      hide TotalOrder, Below, Above, Valid, Contents, Balance;
      var l, r := Contents(t.left), Contents(t.right);
      if cmp(key, t.key) < 0 {
        InsertIsUpdate(t.left, cmp, key, value);
        PutLeft(l, t.key, t.value, r, key, value);
        PutBounds(l, cmp, t.key, key, value);
        Rebuild(t, t.(left := Insert(t.left, cmp, key, value).tree), Insert(t.left, cmp, key, value).done, cmp);
      } else if cmp(key, t.key) > 0 {
        InsertIsUpdate(t.right, cmp, key, value);
        PutRight(l, t.key, t.value, r, key, value);
        PutBounds(r, cmp, t.key, key, value);
        Rebuild(t, t.(right := Insert(t.right, cmp, key, value).tree), Insert(t.right, cmp, key, value).done, cmp);
      } else {
        PutHere(l, t.key, t.value, r, value);
        Rebuild(t, t.(value := value), false, cmp);
      }
    }
  }

  // ---------------------------------------------------------------- deletion

  lemma {:induction false} MinIsLeast<K(!new), V>(t: Tree<K, V>, cmp: Comparison<K>)
    requires t.Node? && Ordered(t, cmp) && TotalOrder(cmp)
    ensures MinOf(t).key in Contents(t) && Contents(t)[MinOf(t).key] == MinOf(t).value
    ensures Above(Contents(t) - {MinOf(t).key}, cmp, MinOf(t).key)
  {
    SidesApart(t, cmp, MinOf(t).key);
    if t.left.Node? {
      MinIsLeast(t.left, cmp);
      var m := MinOf(t).key;
      assert cmp(m, t.key) < 0;
      BoundsShift(Contents(t.right), cmp, m, t.key);
      assert cmp(t.key, m) > 0;
    }
  }

  lemma {:induction false} RemoveLeft<K, V>(l: map<K, V>, k: K, v: V, r: map<K, V>, key: K)
    requires key != k && key !in r
    ensures (l - {key}) + map[k := v] + r == (l + map[k := v] + r) - {key}
  {
  }

  lemma {:induction false} RemoveRight<K, V>(l: map<K, V>, k: K, v: V, r: map<K, V>, key: K)
    requires key != k && key !in l
    ensures l + map[k := v] + (r - {key}) == (l + map[k := v] + r) - {key}
  {
  }

  lemma {:induction false} RemoveHere<K, V>(l: map<K, V>, k: K, v: V, r: map<K, V>, s: K)
    requires k !in l && k !in r && s in r && s !in l
    ensures l + map[s := r[s]] + (r - {s}) == (l + map[k := v] + r) - {k}
  {
  }

  lemma {:induction false} RemoveBounds<K(!new), V>(m: map<K, V>, cmp: Comparison<K>, bound: K, key: K)
    ensures Below(m, cmp, bound) ==> Below(m - {key}, cmp, bound)
    ensures Above(m, cmp, bound) ==> Above(m - {key}, cmp, bound)
  {
  }

  /** The successor of the root is above the left side. */
  lemma {:induction false} SuccessorFits<K(!new), V>(t: Tree<K, V>, cmp: Comparison<K>)
    requires t.Node? && t.right.Node? && Ordered(t, cmp) && TotalOrder(cmp)
    ensures var s := MinOf(t.right);
            && s.key in Contents(t.right) && Contents(t.right)[s.key] == s.value
            && s.key !in Contents(t.left) && Below(Contents(t.left), cmp, s.key)
            && Above(Contents(t.right) - {s.key}, cmp, s.key)
  {
    MinIsLeast(t.right, cmp);
    var s := MinOf(t.right);
    SidesApart(t, cmp, s.key);
    assert cmp(t.key, s.key) < 0;
    BoundsShift(Contents(t.left), cmp, t.key, s.key);
  }

  ghost predicate IsRemoval<K, V>(t: Tree<K, V>, cmp: Comparison<K>, key: K, r: Changed<K, V>) {
    && Valid(r.tree, cmp) && Contents(r.tree) == Contents(t) - {key}
    && (r.done <==> key in Contents(t))
    && Height(t) - (if r.done then 1 else 0) <= Height(r.tree) <= Height(t)
  }

  lemma {:induction false} RemoveAlone<K, V>(k: K, v: V, l: map<K, V>, r: map<K, V>)
    requires k !in l && k !in r
    ensures l == map[] ==> (l + map[k := v] + r) - {k} == r
    ensures r == map[] ==> (l + map[k := v] + r) - {k} == l
    ensures k in l + map[k := v] + r
  {
  }

  lemma {:induction false} OnlyOneSide<K(!new), V>(t: Tree<K, V>, cmp: Comparison<K>)
    requires t.Node? && Valid(t, cmp) && TotalOrder(cmp) && (t.left.Leaf? || t.right.Leaf?)
    ensures IsRemoval(t, cmp, t.key, Changed(if t.left.Leaf? then t.right else t.left, true))
  {
    Parts(t, cmp);
    assert cmp(t.key, t.key) == 0;
    SidesApart(t, cmp, t.key);
    assert t.left.Leaf? ==> Contents(t.left) == map[];
    assert t.right.Leaf? ==> Contents(t.right) == map[];
    hide TotalOrder, Below, Above, Valid, Contents;
    RemoveAlone(t.key, t.value, Contents(t.left), Contents(t.right));
  }

  lemma {:induction false} BothSides<K(!new), V>(t: Tree<K, V>, cmp: Comparison<K>, rest: Tree<K, V>)
    requires t.Node? && Valid(t, cmp) && TotalOrder(cmp) && t.left.Node? && t.right.Node?
    requires IsRemoval(t.right, cmp, MinOf(t.right).key, Changed(rest, true))
    ensures var s := MinOf(t.right);
            IsRemoval(t, cmp, t.key, Changed(Balance(t.(key := s.key, value := s.value, right := rest)), true))
  {
    var s, l, r := MinOf(t.right), Contents(t.left), Contents(t.right);
    Parts(t, cmp);
    assert cmp(t.key, t.key) == 0;
    SidesApart(t, cmp, t.key);
    SuccessorFits(t, cmp);
    hide TotalOrder, Below, Above, Valid, Contents, Balance, MinOf;
    RemoveHere(l, t.key, t.value, r, s.key);
    Rebuild(t, t.(key := s.key, value := s.value, right := rest), true, cmp);
  }

  /** Deletion keeps the tree valid, loses at most a level, and removes the key from the map. */
  lemma {:induction false} DeleteIsRemoval<K(!new), V>(t: Tree<K, V>, cmp: Comparison<K>, key: K)
    requires Valid(t, cmp) && TotalOrder(cmp)
    ensures IsRemoval(t, cmp, key, Delete(t, cmp, key))
    decreases t
  {
    if t.Leaf? {
      assert Contents(t) - {key} == map[];
    } else {
      Parts(t, cmp);
      SidesApart(t, cmp, key);
      var l, r := Contents(t.left), Contents(t.right);
      if cmp(key, t.key) < 0 {
        hide TotalOrder, Below, Above, Valid, Contents, Balance, MinOf;
        DeleteIsRemoval(t.left, cmp, key);
        RemoveLeft(l, t.key, t.value, r, key);
        RemoveBounds(l, cmp, t.key, key);
        Rebuild(t, t.(left := Delete(t.left, cmp, key).tree), Delete(t.left, cmp, key).done, cmp);
      } else if cmp(key, t.key) > 0 {
        hide TotalOrder, Below, Above, Valid, Contents, Balance, MinOf;
        DeleteIsRemoval(t.right, cmp, key);
        RemoveRight(l, t.key, t.value, r, key);
        RemoveBounds(r, cmp, t.key, key);
        Rebuild(t, t.(right := Delete(t.right, cmp, key).tree), Delete(t.right, cmp, key).done, cmp);
      } else {
        if t.left.Leaf? || t.right.Leaf? {
          OnlyOneSide(t, cmp);
        } else {
          SuccessorFits(t, cmp);
          DeleteIsRemoval(t.right, cmp, MinOf(t.right).key);
          DoneIff(t.right, cmp, MinOf(t.right).key);
          BothSides(t, cmp, Delete(t.right, cmp, MinOf(t.right).key).tree);
        }
        hide TotalOrder, Below, Above, Valid, Contents, Balance, MinOf, IsRemoval;
      }
    }
  }

  lemma {:induction false} DoneIff<K, V>(t: Tree<K, V>, cmp: Comparison<K>, key: K)
    requires key in Contents(t) && IsRemoval(t, cmp, key, Delete(t, cmp, key))
    ensures Delete(t, cmp, key) == Changed(Delete(t, cmp, key).tree, true)
  {
    hide Delete, Contents;
  }

  // ---------------------------------------------------------------- size and height

  function Size<K, V>(t: Tree<K, V>): nat { if t.Leaf? then 0 else Size(t.left) + 1 + Size(t.right) }

  function Fib(n: nat): nat { if n < 2 then n else Fib(n - 1) + Fib(n - 2) }

  lemma {:induction false} SizeOfThree<K>(a: set<K>, k: K, b: set<K>)
    requires k !in a && k !in b && a !! b
    ensures |a + {k} + b| == |a| + 1 + |b|
  {
    assert a !! {k} && (a + {k}) !! b;
  }

  lemma {:induction false} KeysOfThree<K, V>(l: map<K, V>, k: K, v: V, r: map<K, V>)
    ensures (l + map[k := v] + r).Keys == l.Keys + {k} + r.Keys
  {
  }

  lemma {:induction false} MergedSize<K(!new), V>(l: map<K, V>, k: K, v: V, r: map<K, V>)
    requires k !in l && k !in r && forall j :: j in l ==> j !in r
    ensures |l + map[k := v] + r| == |l| + 1 + |r|
  {
    KeysOfThree(l, k, v, r);
    SizeOfThree(l.Keys, k, r.Keys);
    var m := l + map[k := v] + r;
    assert |m| == |m.Keys|;
  }

  lemma {:induction false} ContentsSize<K(!new), V>(t: Tree<K, V>, cmp: Comparison<K>)
    requires t.Node? && Ordered(t, cmp) && TotalOrder(cmp)
    ensures |Contents(t)| == |Contents(t.left)| + 1 + |Contents(t.right)|
  {
    var l, r := Contents(t.left), Contents(t.right);
    assert t.key !in l && t.key !in r by {
      assert cmp(t.key, t.key) == 0;
    }
    forall k | k in l ensures k !in r {
      SidesApart(t, cmp, k);
    }
    hide Ordered, TotalOrder, Below, Above;
    MergedSize(l, t.key, t.value, r);
  }

  /** The number of nodes is the number of keys. */
  lemma {:induction false} SizeIsCardinality<K(!new), V>(t: Tree<K, V>, cmp: Comparison<K>)
    requires Ordered(t, cmp) && TotalOrder(cmp)
    ensures Size(t) == |Contents(t)|
  {
    if t.Node? {
      ContentsSize(t, cmp);
      hide Contents, TotalOrder, Below, Above;
      SizeIsCardinality(t.left, cmp);
      SizeIsCardinality(t.right, cmp);
    }
  }

  lemma {:induction false} FibGrows(m: nat, n: nat)
    requires m <= n
    ensures Fib(m) <= Fib(n)
    decreases n
  {
    if m < n {
      FibGrows(m, n - 1);
    }
  }

  lemma {:induction false} FibStep(n: nat)
    ensures Fib(n + 2) == Fib(n + 1) + Fib(n)
  {
  }

  lemma {:induction false} FibOfSides(h: int, l: int, r: int)
    requires l >= -1 && r >= -1 && h == Max(l, r) + 1 && -1 <= l - r <= 1
    ensures Fib(h + 3) <= Fib(l + 3) + Fib(r + 3)
  {
    FibStep(h + 1);
    hide Fib;
    FibGrows(h + 1, l + 3);
    FibGrows(h + 1, r + 3);
    FibGrows(h + 2, Max(l, r) + 3);
  }

  /** A tree of height h has at least as many nodes as the Fibonacci numbers say. */
  lemma {:induction false} SizeIsFibonacci<K, V>(t: Tree<K, V>)
    requires Balanced(t)
    ensures Height(t) >= -1 && Size(t) + 1 >= Fib(Height(t) + 3)
  {
    HeightBound(t);
    assert Fib(2) == 1;
    hide Fib;
    if t.Node? {
      SizeIsFibonacci(t.left);
      SizeIsFibonacci(t.right);
      FibOfSides(Height(t), Height(t.left), Height(t.right));
    }
  }

  lemma {:induction false} FibDoubles(k: nat)
    ensures Fib(2 * k + 1) >= Pow2(k) && Fib(2 * k + 2) >= Pow2(k)
  {
    if k > 0 {
      FibDoubles(k - 1);
      assert Fib(2 * k + 1) == Fib(2 * k) + Fib(2 * k - 1);
      assert Fib(2 * k + 2) == Fib(2 * k + 1) + Fib(2 * k);
    }
  }

  /** With fewer than 2^62 nodes, heights stay within eight signed bits. */
  lemma {:induction false} HeightFitsInt8<K, V>(t: Tree<K, V>)
    requires Balanced(t) && Size(t) + 1 < Pow2(62)
    ensures Height(t) < 127
  {
    hide Fib, Pow2;
    SizeIsFibonacci(t);
    if Height(t) >= 127 {
      FibDoubles(62);
      FibGrows(2 * 62 + 1, Height(t) + 3);
    }
  }
}
