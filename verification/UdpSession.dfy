/** The session of one UDP sender, its fragment map and the in-place sort of the offsets. */
module UdpSession {
  import opened UdpFrame
  import opened UdpReassembly
  import opened Wire

  ghost predicate Sorted(s: seq<nat>) { forall i, j :: 0 <= i < j < |s| ==> s[i] <= s[j] }

  /** The first n elements are sorted. */
  ghost predicate SortedTo(a: array<nat>, n: nat)
    requires n <= a.Length
    reads a
  {
    forall p, q :: 0 <= p < q < n ==> a[p] <= a[q]
  }

  /** Moves element i down to its place among the sorted ones before it. */
  method Sink(a: array<nat>, i: nat)
    requires 0 < i < a.Length && SortedTo(a, i)
    modifies a
    ensures SortedTo(a, i + 1) && multiset(a[..]) == multiset(old(a[..]))
  {
    var j := i;
    while j > 0 && a[j - 1] > a[j]
      invariant 0 <= j <= i
      invariant forall p, q :: 0 <= p < q <= i && q != j ==> a[p] <= a[q]
      invariant multiset(a[..]) == multiset(old(a[..]))
    {
      a[j - 1], a[j] := a[j], a[j - 1];
      j := j - 1;
    }
  }

  method InsertionSort(a: array<nat>)
    modifies a
    ensures Sorted(a[..]) && multiset(a[..]) == multiset(old(a[..]))
  {
    var i := 1;
    while i < a.Length
      invariant i >= 1 && SortedTo(a, if i < a.Length then i else a.Length)
      invariant multiset(a[..]) == multiset(old(a[..]))
    {
      Sink(a, i);
      i := i + 1;
    }
  }

  /** The fragments at the given offsets, one after another. */
  ghost function InTurn(frags: map<nat, seq<Byte>>, offsets: seq<nat>): seq<Byte>
    requires forall o :: o in offsets ==> o in frags
  {
    if offsets == [] then []
    else InTurn(frags, offsets[..|offsets| - 1]) + frags[offsets[|offsets| - 1]]
  }

  lemma {:induction false} InTurnFront(frags: map<nat, seq<Byte>>, offsets: seq<nat>)
    requires offsets != [] && forall o :: o in offsets ==> o in frags
    ensures InTurn(frags, offsets) == frags[offsets[0]] + InTurn(frags, offsets[1..])
  {
    if |offsets| == 1 {
      assert offsets[1..] == [] && offsets[..0] == [];
    } else {
      var init := offsets[..|offsets| - 1];
      var tail := offsets[1..];
      InTurnFront(frags, init);
      assert init[1..] == tail[..|tail| - 1] && init[0] == offsets[0] && tail[|tail| - 1] == offsets[|offsets| - 1];
      var a, b, c := frags[init[0]], InTurn(frags, init[1..]), frags[offsets[|offsets| - 1]];
      assert (a + b) + c == a + (b + c);
    }
  }

  lemma {:induction false} InTurnOf(a: map<nat, seq<Byte>>, b: map<nat, seq<Byte>>, offsets: seq<nat>)
    requires forall o :: o in offsets ==> o in a && o in b && a[o] == b[o]
    ensures InTurn(a, offsets) == InTurn(b, offsets)
  {
    if offsets != [] {
      InTurnOf(a, b, offsets[..|offsets| - 1]);
    }
  }

  lemma {:induction false} MembersOf(s: seq<nat>, keys: set<nat>)
    requires multiset(s) == multiset(keys)
    ensures forall o: nat :: o in s <==> o in keys
  {
    forall o: nat ensures o in s <==> o in keys {
      assert o in s <==> o in multiset(s);
      assert o in keys <==> o in multiset(keys);
    }
  }

  lemma {:induction false} WithoutFirst(s: seq<nat>, keys: set<nat>)
    requires s != [] && multiset(s) == multiset(keys)
    ensures s[0] in keys && multiset(s[1..]) == multiset(keys - {s[0]})
  {
    MembersOf(s, keys);
    assert s == [s[0]] + s[1..];
    assert multiset(keys - {s[0]}) == multiset(keys) - multiset{s[0]};
  }

  lemma {:induction false} FirstIsLeast(s: seq<nat>, keys: set<nat>)
    requires s != [] && Sorted(s) && multiset(s) == multiset(keys)
    ensures keys != {} && s[0] == Least(keys)
  {
    MembersOf(s, keys);
    assert s[0] in keys;
    var k := Least(keys);
    assert IsLeast(keys, k);
    var i :| 0 <= i < |s| && s[i] == k;
  }

  /** Visiting the offsets in ascending order is what joining means. */
  lemma {:induction false} SortedIsJoined(frags: map<nat, seq<Byte>>, offsets: seq<nat>)
    requires Sorted(offsets) && multiset(offsets) == multiset(frags.Keys)
    ensures forall o :: o in offsets ==> o in frags
    ensures InTurn(frags, offsets) == Joined(frags)
    decreases |offsets|
  {
    MembersOf(offsets, frags.Keys);
    if offsets == [] {
      assert frags.Keys == {};
    } else {
      var first, rest := offsets[0], offsets[1..];
      FirstIsLeast(offsets, frags.Keys);
      WithoutFirst(offsets, frags.Keys);
      var less := frags - {first};
      assert less.Keys == frags.Keys - {first};
      hide Least, InTurn;
      SortedIsJoined(less, rest);
      InTurnFront(frags, offsets);
      InTurnOf(frags, less, rest);
    }
  }

  method Reassemble(frags: map<nat, seq<Byte>>) returns (out: seq<Byte>)
    ensures out == Joined(frags)
  {
    var keys := frags.Keys;
    var found: seq<nat> := [];
    while keys != {}
      invariant keys <= frags.Keys
      invariant multiset(found) + multiset(keys) == multiset(frags.Keys)
      decreases |keys|
    {
      var off :| off in keys;
      found := found + [off];
      keys := keys - {off};
    }
    var offsets := new nat[|found|](i requires 0 <= i < |found| => found[i]);
    assert offsets[..] == found;
    InsertionSort(offsets);
    SortedIsJoined(frags, offsets[..]);
    out := [];
    var i := 0;
    while i < offsets.Length
      invariant 0 <= i <= offsets.Length
      invariant forall o :: o in offsets[..i] ==> o in frags
      invariant out == InTurn(frags, offsets[..i])
    {
      assert offsets[..i + 1][..i] == offsets[..i];
      out := out + frags[offsets[i]];
      i := i + 1;
    }
    assert offsets[..i] == offsets[..];
  }

  class RxSlot {
    const tid: nat
    const total: nat
    var received: nat
    var frags: map<nat, seq<Byte>>

    constructor (tid: nat, total: nat)
      ensures Value() == Slot(tid, total, 0, map[])
    {
      this.tid, this.total := tid, total;
      received, frags := 0, map[];
    }

    ghost function Value(): Slot
      reads this
    {
      Slot(tid, total, received, frags)
    }

    method Add(f: Frame)
      modifies this
      ensures Value() == Store(old(Value()), f)
    {
      if f.header.offset !in frags {
        frags := frags[f.header.offset := f.payload];
        received := received + |f.payload|;
      }
    }
  }

  class RxSession {
    var inited: bool
    var lastTID: nat
    var slot: RxSlot?

    constructor ()
      ensures Value() == Session(false, 0, None)
    {
      inited, lastTID, slot := false, 0, null;
    }

    ghost function Value(): Session
      reads this, slot
    {
      Session(inited, lastTID, if slot == null then None else Some(slot.Value()))
    }

    method AcceptStateful(f: Frame) returns (delivered: seq<Delivery>)
      modifies this, slot
      ensures Accepted(Value(), delivered) == Accept(old(Value()), f)
    {
      hide Joined, TidGreater;
      var tid := f.header.transferID;
      if !inited {
        inited := true;
        lastTID := Before(tid);
      }
      if slot == null || slot.tid != tid {
        if !TidGreater(tid, lastTID) {
          return [];
        }
        slot := new RxSlot(tid, f.header.transferSize);
      }
      slot.Add(f);
      if slot.received >= slot.total {
        var out := Reassemble(slot.frags);
        lastTID := tid;
        slot := null;
        return [Delivery(tid, out)];
      }
      return [];
    }
  }
}
