/** The requester's record of reliable responses: which ones were handed over, and what to answer. */
module ResponseAck {
  import opened Wire
  import opened Wrapping

  const HISTORY: nat := 192

  /** Remotes are only told apart. */
  type RemoteId = int

  datatype Verdict = Ack | Nack

  /** The newest sequence number of one responder, and marks for it and the ones behind it. */
  datatype Remote = Remote(top: U64, acked: seq<bool>)

  /** A single responder whose number 0 was acknowledged is kept inline. */
  datatype Record = Record(solo: Option<RemoteId>, tree: map<RemoteId, Remote>)

  datatype Admitted<T> = Admitted(state: T, verdict: Verdict, isNew: bool)

  datatype Answer = Answer(remote: RemoteId, seqno: U64)

  /** What a header carries: a number of six bytes. */
  const SEQNO_MOD: nat := 0x1_0000_0000_0000

  type Response = a: Answer | a.seqno < SEQNO_MOD witness Answer(0, 0)

  function NoMarks(): seq<bool> { seq(HISTORY, k => false) }

  function Blank(): Remote { Remote(0, NoMarks()) }

  function Inlined(): Remote { Remote(0, NoMarks()[0 := true]) }

  predicate Proper(r: Remote) { |r.acked| == HISTORY }

  predicate ProperRecord(rec: Record) {
    (rec.solo.Some? ==> rec.tree == map[]) && forall id :: id in rec.tree ==> Proper(rec.tree[id])
  }

  /**
   * The marks after the conversion of the distance to a signed number: a negative distance would move nothing. No
   * header carries a number that makes one.
   */
  function Moved(acked: seq<bool>, jump: nat): (r: seq<bool>)
    requires |acked| == HISTORY
    ensures |r| == HISTORY
  {
    if jump > INT64_MAX then acked
    else seq(HISTORY, k requires 0 <= k < HISTORY => k >= jump && acked[k - jump])
  }

  function AdmitRemote(r: Remote, seqno: U64): (a: Admitted<Remote>)
    requires Proper(r)
    ensures Proper(a.state) && (a.isNew ==> a.verdict.Ack?)
  {
    if seqno > r.top then
      Admitted(Remote(seqno, Moved(r.acked, seqno - r.top)[0 := true]), Ack, true)
    else if r.top - seqno >= HISTORY then Admitted(r, Nack, false)
    else if r.acked[r.top - seqno] then Admitted(r, Ack, false)
    else Admitted(r.(acked := r.acked[r.top - seqno := true]), Ack, true)
  }

  function AdmitInTree(tree: map<RemoteId, Remote>, id: RemoteId, seqno: U64): (a: Admitted<Record>)
    requires forall i :: i in tree ==> Proper(tree[i])
    ensures ProperRecord(a.state)
  {
    var a := AdmitRemote(if id in tree then tree[id] else Blank(), seqno);
    Admitted(Record(None, tree[id := a.state]), a.verdict, a.isNew)
  }

  function Admit(rec: Record, id: RemoteId, seqno: U64): (a: Admitted<Record>)
    requires ProperRecord(rec)
    ensures ProperRecord(a.state)
  {
    if rec.solo.Some? then
      if rec.solo.value == id && seqno == 0 then Admitted(rec, Ack, false)
      else AdmitInTree(map[rec.solo.value := Inlined()], id, seqno)
    else if rec.tree == map[] && seqno == 0 then Admitted(Record(Some(id), map[]), Ack, true)
    else AdmitInTree(rec.tree, id, seqno)
  }

  datatype TestResult = Known | Unknown | Faulted

  /** The test of one responder's marks; a signed distance could index before the array. */
  function TestRemote(r: Remote, seqno: U64): TestResult
    requires Proper(r)
  {
    if seqno > r.top then Unknown
    else if r.top - seqno > INT64_MAX then
      if r.top - seqno <= MOD - 64 then Faulted else Unknown
    else if r.top - seqno < HISTORY && r.acked[r.top - seqno] then Known
    else Unknown
  }

  function Test(rec: Record, id: RemoteId, seqno: U64): TestResult
    requires ProperRecord(rec)
  {
    if rec.solo.Some? then if rec.solo.value == id && seqno == 0 then Known else Unknown
    else if id !in rec.tree then Unknown
    else TestRemote(rec.tree[id], seqno)
  }

  // ---------------------------------------------------------------- the inline form is invisible

  function RemoteOf(rec: Record, id: RemoteId): (r: Remote)
    requires ProperRecord(rec)
    ensures Proper(r)
  {
    if rec.solo == Some(id) then Inlined()
    else if id in rec.tree then rec.tree[id]
    else Blank()
  }

  lemma {:induction false} PromotionIsInvisible(rec: Record, id: RemoteId, seqno: U64)
    requires ProperRecord(rec)
    ensures var a, b := Admit(rec, id, seqno), AdmitRemote(RemoteOf(rec, id), seqno);
            && a.verdict == b.verdict && a.isNew == b.isNew
            && RemoteOf(a.state, id) == b.state
            && forall other :: other != id ==> RemoteOf(a.state, other) == RemoteOf(rec, other)
  {
  }

  lemma {:induction false} TestSeesRemote(rec: Record, id: RemoteId, seqno: U64)
    requires ProperRecord(rec)
    ensures Test(rec, id, seqno) == TestRemote(RemoteOf(rec, id), seqno)
            || (Test(rec, id, seqno) == Unknown && TestRemote(RemoteOf(rec, id), seqno) == Unknown)
  {
  }

  // ---------------------------------------------------------------- what the marks mean

  /** Nothing handed over lies ahead of the frontier, and what lies in the window is marked. */
  ghost predicate Covers(r: Remote, id: RemoteId, given: set<Answer>)
    requires Proper(r)
  {
    forall s: U64 :: Answer(id, s) in given ==> s <= r.top && (r.top - s < HISTORY ==> r.acked[r.top - s])
  }

  /** Every mark stands for a response that was handed over. */
  ghost predicate Truthful(r: Remote, id: RemoteId, given: set<Answer>)
    requires Proper(r)
  {
    forall k :: 0 <= k < HISTORY && r.acked[k] ==> k <= r.top && Answer(id, r.top - k) in given
  }

  /** The frontier moves by a distance that survives the signed conversion, or nothing but it is marked. */
  predicate Tame(r: Remote, seqno: U64)
    requires Proper(r)
  {
    seqno - r.top <= INT64_MAX || forall k :: 1 <= k < HISTORY ==> !r.acked[k]
  }

  function Handed(given: set<Answer>, id: RemoteId, seqno: U64, isNew: bool): set<Answer> {
    if isNew then given + {Answer(id, seqno)} else given
  }

  lemma {:induction false} CoversStep(r: Remote, id: RemoteId, seqno: U64, given: set<Answer>)
    requires Proper(r) && Covers(r, id, given)
    ensures Covers(AdmitRemote(r, seqno).state, id, Handed(given, id, seqno, AdmitRemote(r, seqno).isNew))
    ensures AdmitRemote(r, seqno).isNew ==> Answer(id, seqno) !in given
  {
  }

  /** A jump that survives the conversion moves the marks with the frontier. */
  lemma {:induction false} NearJumpIsTruthful(r: Remote, id: RemoteId, seqno: U64, given: set<Answer>)
    requires Proper(r) && Truthful(r, id, given) && 0 < seqno - r.top <= INT64_MAX
    ensures Truthful(AdmitRemote(r, seqno).state, id, given + {Answer(id, seqno)})
  {
    var a, jump := AdmitRemote(r, seqno).state, seqno - r.top;
    forall k | 0 <= k < HISTORY && a.acked[k]
      ensures k <= seqno && Answer(id, seqno - k) in given + {Answer(id, seqno)}
    {
      if k > 0 {
        assert r.acked[k - jump];
      }
    }
  }

  /** A longer jump leaves the marks behind, so that they are true of nothing. */
  lemma {:induction false} FarJumpIsTruthfulIffBlank(r: Remote, id: RemoteId, seqno: U64, given: set<Answer>)
    requires Proper(r) && Covers(r, id, given) && seqno - r.top > INT64_MAX
    ensures Truthful(AdmitRemote(r, seqno).state, id, given + {Answer(id, seqno)})
            <==> forall k :: 1 <= k < HISTORY ==> !r.acked[k]
  {
    var a := AdmitRemote(r, seqno).state;
    assert a.acked == r.acked[0 := true];
    forall s: U64 | r.top < s < seqno ensures Answer(id, s) !in given + {Answer(id, seqno)} {
    }
    forall k | 1 <= k < HISTORY && r.acked[k] ensures !Truthful(a, id, given + {Answer(id, seqno)}) {
      assert a.acked[k] && Answer(id, seqno - k) !in given + {Answer(id, seqno)};
    }
  }

  lemma {:induction false} BackwardIsTruthful(r: Remote, id: RemoteId, seqno: U64, given: set<Answer>)
    requires Proper(r) && Truthful(r, id, given) && seqno <= r.top
    ensures Truthful(AdmitRemote(r, seqno).state, id, Handed(given, id, seqno, AdmitRemote(r, seqno).isNew))
  {
  }

  /** The marks stay truthful exactly when the step is tame. With the numbers of headers every step is. */
  lemma {:induction false} TruthfulIffTame(r: Remote, id: RemoteId, seqno: U64, given: set<Answer>)
    requires Proper(r) && Covers(r, id, given) && Truthful(r, id, given)
    ensures Truthful(AdmitRemote(r, seqno).state, id, Handed(given, id, seqno, AdmitRemote(r, seqno).isNew))
            <==> Tame(r, seqno)
  {
    assert seqno > r.top ==> AdmitRemote(r, seqno).isNew;
    hide AdmitRemote, Truthful, Covers, Proper;
    if seqno <= r.top {
      BackwardIsTruthful(r, id, seqno, given);
    } else if seqno - r.top <= INT64_MAX {
      NearJumpIsTruthful(r, id, seqno, given);
    } else {
      FarJumpIsTruthfulIffBlank(r, id, seqno, given);
    }
  }

  // ---------------------------------------------------------------- runs

  function After(run: seq<Response>): (rec: Record)
    ensures ProperRecord(rec)
  {
    if run == [] then Record(None, map[])
    else
      var last := run[|run| - 1];
      Admit(After(run[..|run| - 1]), last.remote, last.seqno).state
  }

  /** The outcome of step i. */
  function At(run: seq<Response>, i: nat): Admitted<Record>
    requires i < |run|
  {
    Admit(After(run[..i]), run[i].remote, run[i].seqno)
  }

  /** The responses the application has been handed. */
  function Given(run: seq<Response>): set<Answer> {
    if run == [] then {}
    else
      var last := run[|run| - 1];
      Handed(Given(run[..|run| - 1]), last.remote, last.seqno, At(run, |run| - 1).isNew)
  }

  lemma {:induction false} AlwaysCovered(run: seq<Response>, id: RemoteId)
    ensures Covers(RemoteOf(After(run), id), id, Given(run))
  {
    if run != [] {
      var was, last := run[..|run| - 1], run[|run| - 1];
      AlwaysCovered(was, id);
      PromotionIsInvisible(After(was), last.remote, last.seqno);
      hide Admit, AdmitRemote, RemoteOf;
      if id == last.remote {
        CoversStep(RemoteOf(After(was), id), id, last.seqno, Given(was));
      }
    }
  }

  lemma WireIsTame(r: Remote, seqno: U64)
    requires Proper(r) && seqno < SEQNO_MOD
    ensures Tame(r, seqno)
  {
  }

  /** Six bytes never make a jump of 2^63, so that the marks are always truthful. */
  lemma {:induction false} AlwaysTruthful(run: seq<Response>, id: RemoteId)
    ensures Truthful(RemoteOf(After(run), id), id, Given(run))
  {
    hide Admit, AdmitRemote, RemoteOf, Tame, Covers;
    if run != [] {
      var was, last := run[..|run| - 1], run[|run| - 1];
      AlwaysTruthful(was, id);
      AlwaysCovered(was, last.remote);
      PromotionIsInvisible(After(was), last.remote, last.seqno);
      if id == last.remote {
        WireIsTame(RemoteOf(After(was), id), last.seqno);
        TruthfulIffTame(RemoteOf(After(was), id), id, last.seqno, Given(was));
        hide Truthful;
      }
    } else {
      BlankIsTruthful(id);
    }
  }

  lemma BlankIsTruthful(id: RemoteId)
    ensures RemoteOf(Record(None, map[]), id) == Blank() && Truthful(Blank(), id, {})
  {
  }

  lemma {:induction false} GivenGrows(run: seq<Response>, i: nat)
    requires i <= |run|
    ensures Given(run[..i]) <= Given(run)
    decreases |run| - i
  {
    if i < |run| {
      GivenGrows(run, i + 1);
      assert run[..i + 1][..i] == run[..i];
    } else {
      assert run[..i] == run;
    }
  }

  lemma {:induction false} GivenAt(run: seq<Response>, i: nat)
    requires i < |run|
    ensures Given(run[..i + 1]) == Handed(Given(run[..i]), run[i].remote, run[i].seqno, At(run, i).isNew)
  {
    assert run[..i + 1][..i] == run[..i];
  }

  /** No response is handed to the application twice, in any run at all. */
  lemma {:induction false} NeverTwice(run: seq<Response>, i: nat, j: nat)
    requires i < j < |run| && run[i] == run[j] && At(run, i).isNew
    ensures !At(run, j).isNew
  {
    var id := run[j].remote;
    GivenAt(run, i);
    GivenGrows(run[..j], i + 1);
    assert run[..j][..i + 1] == run[..i + 1];
    AlwaysCovered(run[..j], id);
    PromotionIsInvisible(After(run[..j]), id, run[j].seqno);
    CoversStep(RemoteOf(After(run[..j]), id), id, run[j].seqno, Given(run[..j]));
    hide Admit, AdmitRemote, RemoteOf, Covers, Given, After;
  }

  /** A responder whose marks are exact gives exact answers. */
  lemma {:induction false} ExactAnswers(r: Remote, id: RemoteId, seqno: U64, given: set<Answer>)
    requires Proper(r) && Covers(r, id, given) && Truthful(r, id, given)
    ensures var known, recent := Answer(id, seqno) in given, r.top - seqno < HISTORY;
            && (AdmitRemote(r, seqno).isNew <==> !known && recent)
            && (AdmitRemote(r, seqno).verdict.Ack? <==> recent)
            && (TestRemote(r, seqno) == Known <==> known && recent)
  {
  }

  // ---------------------------------------------------------------- what a requester answers, by the responses alone

  /** The largest number a responder has used, or 0. */
  function Greatest(run: seq<Response>, id: RemoteId): (g: U64)
    ensures g < SEQNO_MOD
  {
    if run == [] then 0
    else
      var last, before := run[|run| - 1], Greatest(run[..|run| - 1], id);
      if last.remote == id && last.seqno > before then last.seqno else before
  }

  /** The number is within the history of the largest one. */
  predicate Recent(run: seq<Response>, id: RemoteId, seqno: U64) { Greatest(run, id) - seqno < HISTORY }

  lemma {:induction false} TopIsGreatest(run: seq<Response>, id: RemoteId)
    ensures RemoteOf(After(run), id).top == Greatest(run, id)
  {
    if run != [] {
      var was, last := run[..|run| - 1], run[|run| - 1];
      TopIsGreatest(was, id);
      PromotionIsInvisible(After(was), last.remote, last.seqno);
      hide Admit, RemoteOf;
    }
  }

  lemma {:induction false} StepIsExact(run: seq<Response>, i: nat)
    requires i < |run|
    ensures var known, recent := run[i] in Given(run[..i]), Recent(run[..i], run[i].remote, run[i].seqno);
            (At(run, i).isNew <==> !known && recent) && (At(run, i).verdict.Ack? <==> recent)
  {
    hide Admit, RemoteOf, Given, After, Greatest, Covers, Truthful, AdmitRemote;
    var was, id := run[..i], run[i].remote;
    AlwaysCovered(was, id);
    AlwaysTruthful(was, id);
    TopIsGreatest(was, id);
    PromotionIsInvisible(After(was), id, run[i].seqno);
    ExactAnswers(RemoteOf(After(was), id), id, run[i].seqno, Given(was));
  }

  /** Of what is within the history, the application has been handed exactly what arrived. */
  lemma {:induction false} RecentIsHanded(run: seq<Response>, x: Answer)
    ensures x in Given(run) ==> x in run
    ensures x in run && Recent(run, x.remote, x.seqno) ==> x in Given(run)
  {
    if run != [] {
      var i, was := |run| - 1, run[..|run| - 1];
      RecentIsHanded(was, x);
      StepIsExact(run, i);
      assert Greatest(was, x.remote) <= Greatest(run, x.remote);
      assert x in run <==> x in was || x == run[i];
      hide At, After, Greatest;
    }
  }

  /** A response is handed over exactly when it arrives for the first time and is not beyond the history. */
  lemma {:induction false} UnseenIsAccepted(run: seq<Response>, i: nat)
    requires i < |run|
    ensures At(run, i).isNew <==> run[i] !in run[..i] && Recent(run[..i], run[i].remote, run[i].seqno)
  {
    StepIsExact(run, i);
    RecentIsHanded(run[..i], run[i]);
    hide At, Recent, Given;
  }

  /**
   * A response is acknowledged exactly when it is within the history, and then the application has it, or gets it
   * now.
   */
  lemma {:induction false} AckMeansHanded(run: seq<Response>, i: nat)
    requires i < |run|
    ensures At(run, i).verdict.Ack? <==> Recent(run[..i], run[i].remote, run[i].seqno)
    ensures At(run, i).verdict.Ack? <==>
            || At(run, i).isNew
            || (run[i] in Given(run[..i]) && Recent(run[..i], run[i].remote, run[i].seqno))
  {
    StepIsExact(run, i);
    hide At, Recent, Given;
  }

  /** After hand-off, too: the record vouches for exactly the recent responses that came, and has them handed over. */
  lemma {:induction false} TestMeansHanded(run: seq<Response>, id: RemoteId, seqno: U64)
    ensures Test(After(run), id, seqno) == Known <==> Answer(id, seqno) in run && Recent(run, id, seqno)
    ensures Test(After(run), id, seqno) == Known ==> Answer(id, seqno) in Given(run)
  {
    hide Test, RemoteOf, Given, After, Greatest, Covers, Truthful;
    AlwaysCovered(run, id);
    AlwaysTruthful(run, id);
    TopIsGreatest(run, id);
    TestSeesRemote(After(run), id, seqno);
    ExactAnswers(RemoteOf(After(run), id), id, seqno, Given(run));
    RecentIsHanded(run, Answer(id, seqno));
  }

  /** No test indexes outside the marks, whatever it is asked for. */
  lemma {:induction false} NeverFaults(run: seq<Response>, id: RemoteId, seqno: U64)
    ensures Test(After(run), id, seqno) != Faulted
  {
    TopIsGreatest(run, id);
    TestSeesRemote(After(run), id, seqno);
    hide Test, RemoteOf, After;
  }
}
