/** What the trust service is for, stated over an ordered list of manifests and nothing else:
    the abstract machine both backends refine, and its properties over whole runs. */
module TrustMachine {
  import opened CText
  import opened Manifests

  type Store = seq<Manifest>

  predicate Distinct(ms: Store) {
    forall i, j | 0 <= i < j < |ms| :: ms[i].artifactId != ms[j].artifactId
  }

  function Find(ms: Store, id: string): (r: Option<Manifest>)
    ensures r.Some? ==> r.value in ms && r.value.artifactId == id
    ensures r.None? ==> forall m | m in ms :: m.artifactId != id
  {
    if ms == [] then None
    else if ms[0].artifactId == id then Some(ms[0])
    else Find(ms[1..], id)
  }

  lemma {:induction false} FindAt(ms: Store, k: nat)
    requires Distinct(ms) && k < |ms|
    ensures Find(ms, ms[k].artifactId) == Some(ms[k])
  {
    if k > 0 {
      var rest := ms[1..];
      assert forall j | 0 <= j < |rest| :: rest[j] == ms[j + 1];
      FindAt(rest, k - 1);
    }
  }

  /** Replace the entry of the same artifact where it stands, or append. */
  function Put(ms: Store, m: Manifest): (r: Store)
    ensures |r| == |ms| + (if Find(ms, m.artifactId).Some? then 0 else 1)
  {
    if ms == [] then [m]
    else if ms[0].artifactId == m.artifactId then [m] + ms[1..]
    else [ms[0]] + Put(ms[1..], m)
  }

  /** A request as it reaches the store. `room` says whether the backend can hold the result;
      `Other` stands for every request that is refused before the store is consulted
      or that only reads. */
  datatype Op =
    | Enroll(m: Manifest, room: bool)
    | Update(m: Manifest, room: bool)
    | Verify(m: Manifest)
    | Other

  datatype Reply = Accepted | Missing | Rejected | NoRoom | Refused

  function Write(ms: Store, m: Manifest, room: bool): (Store, Reply) {
    if room then (Put(ms, m), Accepted) else (ms, NoRoom)
  }

  function Step(ms: Store, op: Op): (Store, Reply) {
    match op
    case Enroll(m, room) => Write(ms, m, room)
    case Update(m, room) => (
      match Find(ms, m.artifactId)
      case None => (ms, Missing)
      case Some(t) => if UpdateAllowed(t, m) then Write(ms, m, room) else (ms, Rejected))
    case Verify(m) => (
      match Find(ms, m.artifactId)
      case None => (ms, Missing)
      case Some(t) => (ms, if m == t then Accepted else Rejected))
    case Other => (ms, Refused)
  }

  function Run(ms: Store, ops: seq<Op>): Store
    decreases |ops|
  {
    if ops == [] then ms else Step(Run(ms, ops[..|ops| - 1]), ops[|ops| - 1]).0
  }

  /** The reply to the k-th request of a run. */
  function ReplyAt(ms: Store, ops: seq<Op>, k: nat): Reply
    requires k < |ops|
  {
    Step(Run(ms, ops[..k]), ops[k]).1
  }

  // ------------------------------------------------------- one step on the map

  lemma {:induction false} FindPut(ms: Store, m: Manifest, id: string)
    ensures Find(Put(ms, m), id) == if id == m.artifactId then Some(m) else Find(ms, id)
  {
    if ms != [] && ms[0].artifactId != m.artifactId {
      FindPut(ms[1..], m, id);
    }
  }

  lemma {:induction false} PutMembers(ms: Store, m: Manifest)
    ensures forall e | e in Put(ms, m) :: e == m || e in ms
  {
    if ms != [] && ms[0].artifactId != m.artifactId {
      PutMembers(ms[1..], m);
    }
  }

  function Ids(ms: Store): (ids: seq<string>)
    ensures |ids| == |ms| && forall k | 0 <= k < |ms| :: ids[k] == ms[k].artifactId
  {
    if ms == [] then [] else [ms[0].artifactId] + Ids(ms[1..])
  }

  /** A write never moves an entry: a known artifact keeps its slot, a new one goes last. */
  lemma {:induction false} IdsPut(ms: Store, m: Manifest)
    ensures Ids(Put(ms, m)) == if m.artifactId in Ids(ms) then Ids(ms) else Ids(ms) + [m.artifactId]
  {
    if ms == [] {
      assert Ids([m]) == [m.artifactId];
    } else if ms[0].artifactId == m.artifactId {
      assert ([m] + ms[1..])[1..] == ms[1..];
      assert Ids(ms)[0] == m.artifactId;
    } else {
      IdsPut(ms[1..], m);
      assert Put(ms, m)[1..] == Put(ms[1..], m);
      assert m.artifactId in Ids(ms) <==> m.artifactId in Ids(ms[1..]);
    }
  }

  lemma DistinctPut(ms: Store, m: Manifest)
    requires Distinct(ms)
    ensures Distinct(Put(ms, m))
  {
    IdsPut(ms, m);
    var r := Put(ms, m);
    forall i, j | 0 <= i < j < |r| ensures r[i].artifactId != r[j].artifactId {
      assert Ids(r)[i] == r[i].artifactId && Ids(r)[j] == r[j].artifactId;
      if j < |ms| {
        assert Ids(r)[i] == Ids(ms)[i] == ms[i].artifactId && Ids(r)[j] == Ids(ms)[j] == ms[j].artifactId;
      } else {
        assert Ids(r)[i] == Ids(ms)[i];
      }
    }
  }

  // ------------------------------------------------------------- whole runs

  /** Running on is running the whole. */
  lemma {:induction false} RunConcat(ms: Store, a: seq<Op>, b: seq<Op>)
    ensures Run(Run(ms, a), b) == Run(ms, a + b)
    decreases |b|
  {
    hide Step;
    if b == [] {
      assert a + b == a;
    } else {
      var n := |b| - 1;
      assert (a + b)[..|a| + n] == a + b[..n];
      RunConcat(ms, a, b[..n]);
    }
  }

  lemma {:induction false} RunKeepsDistinct(ms: Store, ops: seq<Op>)
    requires Distinct(ms)
    ensures Distinct(Run(ms, ops))
    decreases |ops|
  {
    if ops != [] {
      var before := Run(ms, ops[..|ops| - 1]);
      RunKeepsDistinct(ms, ops[..|ops| - 1]);
      var op := ops[|ops| - 1];
      if op.Enroll? || op.Update? {
        DistinctPut(before, op.m);
      }
    }
  }

  /** What the log of requests and replies says about an artifact: the manifest of the
      latest ENROLL or UPDATE for it that was answered with success. */
  function LastAccepted(ops: seq<Op>, replies: seq<Reply>, id: string): Option<Manifest>
    requires |ops| == |replies|
  {
    if ops == [] then None
    else
      var op := ops[|ops| - 1];
      if (op.Enroll? || op.Update?) && op.m.artifactId == id && replies[|ops| - 1] == Accepted
      then Some(op.m)
      else LastAccepted(ops[..|ops| - 1], replies[..|ops| - 1], id)
  }

  function Replies(ms: Store, ops: seq<Op>): (rs: seq<Reply>)
    ensures |rs| == |ops|
    decreases |ops|
  {
    if ops == [] then []
    else Replies(ms, ops[..|ops| - 1]) + [ReplyAt(ms, ops, |ops| - 1)]
  }

  /** What is expected of an artifact: what the log says, and otherwise what was there at the start. */
  function Expected(ms: Store, ops: seq<Op>, id: string): Option<Manifest> {
    var last := LastAccepted(ops, Replies(ms, ops), id);
    if last.Some? then last else Find(ms, id)
  }

  /** The store is exactly what the log says it should be, artifact by artifact, from any start. */
  lemma {:induction false} StoreIsHistory(ms: Store, ops: seq<Op>, id: string)
    ensures Find(Run(ms, ops), id) == Expected(ms, ops, id)
    decreases |ops|
  {
    if ops != [] {
      var init, op := ops[..|ops| - 1], ops[|ops| - 1];
      StoreIsHistory(ms, init, id);
      assert Replies(ms, ops)[..|ops| - 1] == Replies(ms, init);
      if op.Enroll? || op.Update? {
        FindPut(Run(ms, init), op.m, id);
      }
    }
  }

  /** VERIFY agrees with history: after any run it succeeds exactly for the manifest of the latest
      accepted ENROLL or UPDATE of the artifact, or else for the one there was at the start. */
  lemma VerifyAgreesWithHistory(ms: Store, ops: seq<Op>, m: Manifest)
    ensures Step(Run(ms, ops), Verify(m)).1 == Accepted <==> Expected(ms, ops, m.artifactId) == Some(m)
  {
    StoreIsHistory(ms, ops, m.artifactId);
  }

  /** No ENROLL of the artifact is accepted during the run. */
  predicate WithinEpoch(ms: Store, ops: seq<Op>, id: string) {
    forall k | 0 <= k < |ops| :: ops[k].Enroll? && ops[k].m.artifactId == id ==> ReplyAt(ms, ops, k) != Accepted
  }

  /** How many UPDATEs of the artifact are accepted during the run. */
  function AcceptedUpdates(ms: Store, ops: seq<Op>, id: string): nat
    decreases |ops|
  {
    if ops == [] then 0
    else
      var op := ops[|ops| - 1];
      AcceptedUpdates(ms, ops[..|ops| - 1], id) +
      if op.Update? && op.m.artifactId == id && ReplyAt(ms, ops, |ops| - 1) == Accepted then 1 else 0
  }

  lemma NoRollbackStep(ms: Store, op: Op, id: string)
    requires Find(ms, id).Some?
    requires op.Enroll? && op.m.artifactId == id ==> Step(ms, op).1 != Accepted
    ensures var t, r := Find(ms, id).value, Find(Step(ms, op).0, id);
      && r.Some? && r.value.backend == t.backend
      && r.value.version
         >= t.version + (if op.Update? && op.m.artifactId == id && Step(ms, op).1 == Accepted then 1 else 0)
  {
    hide Find, Put;
    if op.Enroll? || op.Update? {
      FindPut(ms, op.m, id);
    }
  }

  lemma EpochPrefix(ms: Store, ops: seq<Op>, id: string, n: nat)
    requires WithinEpoch(ms, ops, id) && n <= |ops|
    ensures WithinEpoch(ms, ops[..n], id)
  {
    hide Step, Run;
    forall k | 0 <= k < n && ops[..n][k].Enroll? && ops[..n][k].m.artifactId == id
      ensures ReplyAt(ms, ops[..n], k) != Accepted
    {
      assert ops[..n][..k] == ops[..k];
    }
  }

  /** Rollback safety over a whole epoch: the artifact stays enrolled, keeps its backend, and
      its version grows by at least one for every accepted UPDATE. */
  lemma {:induction false} NoRollback(ms: Store, ops: seq<Op>, id: string)
    requires Find(ms, id).Some?
    requires WithinEpoch(ms, ops, id)
    ensures Find(Run(ms, ops), id).Some?
    ensures Find(Run(ms, ops), id).value.backend == Find(ms, id).value.backend
    ensures Find(Run(ms, ops), id).value.version >= Find(ms, id).value.version + AcceptedUpdates(ms, ops, id)
    decreases |ops|
  {
    hide Find, Step;
    if ops != [] {
      var n := |ops| - 1;
      EpochPrefix(ms, ops, id, n);
      NoRollback(ms, ops[..n], id);
      assert ops[n].Enroll? && ops[n].m.artifactId == id ==> ReplyAt(ms, ops, n) != Accepted;
      NoRollbackStep(Run(ms, ops[..n]), ops[n], id);
    }
  }

  /** An UPDATE whose version is not above one the artifact already had in the epoch is
      rejected, however the run went on in between. */
  lemma StaleUpdateIsRejected(ms: Store, ops: seq<Op>, m: Manifest, room: bool)
    requires Find(ms, m.artifactId).Some?
    requires WithinEpoch(ms, ops, m.artifactId)
    requires m.version <= Find(ms, m.artifactId).value.version
    ensures Step(Run(ms, ops), Update(m, room)) == (Run(ms, ops), Rejected)
  {
    NoRollback(ms, ops, m.artifactId);
  }

  /** The artifacts known at the start, and then those of a log in the order of their first accepted
      ENROLL. */
  function Newcomers(known: seq<string>, ops: seq<Op>, replies: seq<Reply>): (ids: seq<string>)
    requires |ops| == |replies|
  {
    if ops == [] then known
    else
      var op, ids := ops[|ops| - 1], Newcomers(known, ops[..|ops| - 1], replies[..|ops| - 1]);
      if op.Enroll? && replies[|ops| - 1] == Accepted && op.m.artifactId !in ids
      then ids + [op.m.artifactId]
      else ids
  }

  lemma FoundIsListed(ms: Store, id: string)
    ensures Find(ms, id).Some? ==> id in Ids(ms)
  {
    if Find(ms, id).Some? {
      var i :| 0 <= i < |ms| && ms[i] == Find(ms, id).value;
      assert Ids(ms)[i] == id;
    }
  }

  /** Slot order is first-enrolment order, along every run. */
  lemma {:induction false} SlotsAreNewcomers(ms: Store, ops: seq<Op>)
    ensures Ids(Run(ms, ops)) == Newcomers(Ids(ms), ops, Replies(ms, ops))
    decreases |ops|
  {
    if ops != [] {
      var init, op := ops[..|ops| - 1], ops[|ops| - 1];
      SlotsAreNewcomers(ms, init);
      assert Replies(ms, ops)[..|ops| - 1] == Replies(ms, init);
      var before := Run(ms, init);
      if op.Enroll? || op.Update? {
        IdsPut(before, op.m);
        FoundIsListed(before, op.m.artifactId);
      }
    }
  }
}
