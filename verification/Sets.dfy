/** Facts about finite sets. */
module Sets {
  lemma {:induction false} SubsetSize<T>(a: set<T>, b: set<T>)
    requires a <= b
    ensures |a| <= |b|
  {
    if a != {} {
      var x :| x in a;
      SubsetSize(a - {x}, b - {x});
    }
  }

  lemma MemberOf<T>(s: set<T>) returns (x: T)
    requires s != {}
    ensures x in s
  {
    x :| x in s;
  }

  /** A finite set has a first element in any total order on it. */
  lemma {:induction false} FirstBy<T(!new)>(s: set<T>, before: (T, T) -> bool) returns (x: T)
    requires s != {}
    requires forall a, b :: a in s && b in s ==> before(a, b) || before(b, a)
    requires forall a, b, c :: a in s && b in s && c in s && before(a, b) && before(b, c) ==> before(a, c)
    ensures x in s && forall y :: y in s ==> before(x, y)
  {
    x := MemberOf(s);
    if s != {x} {
      var rest := s - {x};
      var y := FirstBy(rest, before);
      x := if before(x, y) then x else y;
      assert forall z :: z in s ==> z in rest || before(x, z);
    }
  }

  lemma LeastOf(s: set<int>) returns (k: int)
    requires s != {}
    ensures k in s && forall j :: j in s ==> k <= j
  {
    var before: (int, int) -> bool := (a, b) => a <= b;
    k := FirstBy(s, before);
    assert forall j :: j in s ==> before(k, j);
  }
}
