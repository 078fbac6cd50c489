/** The response record as the requester keeps it: shared marks updated in place, one map of responders. */
module ResponseRecord {
  import opened Bitmaps
  import opened Wire
  import opened Wrapping
  import R = ResponseAck

  lemma {:induction false} ShiftedMarks(a: seq<Word>, b: seq<Word>, jump: nat)
    requires |a| == 3 && IsShift(a, b, 192, jump)
    requires 0 < jump <= INT64_MAX
    ensures Marks(b, R.HISTORY) == R.Moved(Marks(a, R.HISTORY), jump)
  {
    forall k | 0 <= k < 192 ensures Marks(b, R.HISTORY)[k] == R.Moved(Marks(a, R.HISTORY), jump)[k] {
      assert Bit(b, k) <==> ShiftedBit(a, 192, jump, k);
    }
  }

  class RemoteMarks {
    var seqnoTop: U64
    const seqnoAcked: array<Word>

    ghost predicate Valid() { seqnoAcked.Length == 3 }

    ghost function Value(): (r: R.Remote)
      requires Valid()
      reads this, seqnoAcked
      ensures R.Proper(r)
    {
      R.Remote(seqnoTop, Marks(seqnoAcked[..], R.HISTORY))
    }

    constructor ()
      ensures Valid() && fresh(seqnoAcked) && Value() == R.Blank()
    {
      seqnoTop := 0;
      seqnoAcked := new Word[3](i => Zero());
      new;
      assert Marks(seqnoAcked[..], R.HISTORY) == R.NoMarks();
    }

    method Set(bit: nat)
      requires Valid() && bit < 192
      modifies seqnoAcked
      ensures Value() == old(Value()).(acked := old(Value()).acked[bit := true])
    {
      ghost var was := seqnoAcked[..];
      seqnoAcked[bit / 64] := seqnoAcked[bit / 64][bit % 64 := true];
      MarkedMarks(was, seqnoAcked[..], bit, R.HISTORY);
    }

    method Admit(seqno: U64) returns (verdict: R.Verdict, isNew: bool)
      requires Valid()
      modifies this, seqnoAcked
      ensures Valid()
      ensures R.Admitted(Value(), verdict, isNew) == R.AdmitRemote(old(Value()), seqno)
    {
      if seqno > seqnoTop {
        ghost var was := seqnoAcked[..];
        var jump := seqno - seqnoTop;
        BitmapShiftLeft(seqnoAcked, if jump > INT64_MAX then jump - MOD else jump);
        if jump <= INT64_MAX {
          ShiftedMarks(was, seqnoAcked[..], jump);
        }
        Set(0);
        seqnoTop := seqno;
      } else {
        var dist := seqnoTop - seqno;
        if dist >= R.HISTORY {
          return R.Nack, false;
        }
        if seqnoAcked[dist / 64][dist % 64] {
          return R.Ack, false;
        }
        Set(dist);
      }
      return R.Ack, true;
    }

    method Test(seqno: U64) returns (known: R.TestResult)
      requires Valid()
      ensures known == R.TestRemote(Value(), seqno)
    {
      if seqno > seqnoTop {
        return R.Unknown;
      }
      var bit := if seqnoTop - seqno > INT64_MAX then seqnoTop - seqno - MOD else seqnoTop - seqno;
      if bit >= R.HISTORY {
        return R.Unknown;
      }
      if bit <= -64 {
        return R.Faulted;
      }
      // Above -64 the word index truncates to 0 and the mask shifts out: no mark is seen.
      return if bit >= 0 && seqnoAcked[bit / 64][bit % 64] then R.Known else R.Unknown;
    }
  }

  class RequestAck {
    var solo: bool
    var soloRemoteID: R.RemoteId
    var tree: map<R.RemoteId, RemoteMarks>
    ghost var remotes: map<R.RemoteId, R.Remote>
    ghost var owner: map<object, R.RemoteId>

    /** The record and the words of a responder belong to it alone, and `remotes` says what they hold. */
    ghost predicate At(a: R.RemoteId)
      requires a in tree
      reads this, owner.Keys
    {
      var r := tree[a];
      && r in owner && owner[r] == a && r.seqnoAcked as object in owner && owner[r.seqnoAcked] == a
      && r.Valid() && a in remotes && remotes[a] == r.Value()
    }

    ghost predicate Valid()
      reads this, owner.Keys
    {
      && this !in owner
      && remotes.Keys == tree.Keys
      && (forall a :: a in tree ==> At(a))
      && (solo ==> remotes == map[])
    }

    ghost function Value(): (rec: R.Record)
      reads this
    {
      R.Record(if solo then Some(soloRemoteID) else None, remotes)
    }

    lemma {:induction false} ValueIsProper()
      requires Valid()
      ensures R.ProperRecord(Value())
    {
      forall a | a in remotes ensures R.Proper(remotes[a]) {
        assert At(a);
      }
    }

    constructor ()
      ensures Valid() && owner == map[] && Value() == R.Record(None, map[])
    {
      solo, soloRemoteID, tree := false, 0, map[];
      remotes, owner := map[], map[];
    }

    /** The record of a responder, created on first use. */
    method Obtain(remoteID: R.RemoteId) returns (remote: RemoteMarks)
      requires Valid() && !solo
      modifies this
      ensures Valid() && !solo && remoteID in tree && tree[remoteID] == remote && fresh(owner.Keys - old(owner.Keys))
      ensures remotes == if remoteID in old(remotes) then old(remotes) else old(remotes)[remoteID := R.Blank()]
    {
      hide Marks, At;
      if remoteID !in tree {
        remote := new RemoteMarks();
        Enter(remoteID, remote);
      } else {
        remote := tree[remoteID];
      }
    }

    /** Adds a responder whose marks nothing else refers to. */
    method Enter(remoteID: R.RemoteId, remote: RemoteMarks)
      requires Valid() && !solo && remoteID !in tree && remote.Valid()
      requires remote !in owner && remote.seqnoAcked as object !in owner
      modifies this
      ensures Valid() && !solo && tree == old(tree)[remoteID := remote]
      ensures remotes == old(remotes)[remoteID := remote.Value()]
      ensures owner.Keys == old(owner.Keys) + {remote, remote.seqnoAcked}
    {
      hide Marks;
      tree := tree[remoteID := remote];
      remotes := remotes[remoteID := remote.Value()];
      owner := owner[remote := remoteID];
      owner := owner[remote.seqnoAcked := remoteID];
      forall a | a in tree ensures At(a) {
        assert a != remoteID ==> old(a in tree && At(a));
      }
      hide At;
    }

    method AdmitKnown(remoteID: R.RemoteId, seqno: U64) returns (verdict: R.Verdict, isNew: bool)
      requires Valid() && !solo && remoteID in tree
      modifies owner.Keys, `remotes
      ensures Valid() && R.Proper(old(remotes[remoteID])) && remoteID in remotes
      ensures remotes == old(remotes)[remoteID := remotes[remoteID]]
      ensures R.Admitted(remotes[remoteID], verdict, isNew) == R.AdmitRemote(old(remotes[remoteID]), seqno)
    {
      hide Marks, R.AdmitRemote;
      assert At(remoteID);
      var remote := tree[remoteID];
      verdict, isNew := remote.Admit(seqno);
      remotes := remotes[remoteID := remote.Value()];
    }

    method AdmitInTree(remoteID: R.RemoteId, seqno: U64) returns (verdict: R.Verdict, isNew: bool)
      requires Valid() && !solo
      modifies this, owner.Keys
      ensures Valid() && !solo && fresh(owner.Keys - old(owner.Keys))
      ensures forall i :: i in old(remotes) ==> R.Proper(old(remotes)[i])
      ensures R.Admitted(Value(), verdict, isNew) == R.AdmitInTree(old(remotes), remoteID, seqno)
    {
      hide Marks, R.AdmitRemote, R.Blank, At;
      ValueIsProper();
      var remote := Obtain(remoteID);
      verdict, isNew := AdmitKnown(remoteID, seqno);
      assert remotes == old(remotes)[remoteID := remotes[remoteID]];
    }

    /** The inlined acknowledgement becomes a record of its own. */
    method Promote()
      requires Valid() && solo
      modifies this
      ensures Valid() && !solo && fresh(owner.Keys - old(owner.Keys))
      ensures remotes == map[old(soloRemoteID) := R.Inlined()]
    {
      hide Marks, At;
      assert remotes == map[] && tree.Keys == {};
      var node := new RemoteMarks();
      node.Set(0);
      solo := false;
      assert node.Value() == R.Inlined();
      Enter(soloRemoteID, node);
    }

    method Admit(remoteID: R.RemoteId, seqno: U64) returns (verdict: R.Verdict, isNew: bool)
      requires Valid()
      modifies this, owner.Keys
      ensures Valid() && fresh(owner.Keys - old(owner.Keys))
      ensures R.ProperRecord(old(Value()))
      ensures R.Admitted(Value(), verdict, isNew) == R.Admit(old(Value()), remoteID, seqno)
    {
      hide Marks, R.AdmitInTree;
      ValueIsProper();
      assert tree == map[] <==> tree.Keys == {};
      assert remotes == map[] <==> remotes.Keys == {};
      if solo {
        if soloRemoteID == remoteID && seqno == 0 {
          return R.Ack, false;
        }
        Promote();
      } else if tree == map[] && seqno == 0 {
        solo := true;
        soloRemoteID := remoteID;
        return R.Ack, true;
      }
      verdict, isNew := AdmitInTree(remoteID, seqno);
    }

    /** Answers a retransmission without the application; the word index is computed with a sign. */
    method Test(remoteID: R.RemoteId, seqno: U64) returns (known: R.TestResult)
      requires Valid()
      ensures R.ProperRecord(Value()) && known == R.Test(Value(), remoteID, seqno)
    {
      hide Marks;
      ValueIsProper();
      if solo {
        return if soloRemoteID == remoteID && seqno == 0 then R.Known else R.Unknown;
      }
      if remoteID !in tree {
        return R.Unknown;
      }
      assert At(remoteID);
      known := tree[remoteID].Test(seqno);
    }
  }
}
