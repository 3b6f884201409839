/** The file backend over whole runs, on any duplicate-free file: what it guarantees when file operations
    work, and what is left of that when they fail. */
module FileRuns {
  import opened CText
  import opened Manifests
  import opened Protocol
  import opened Streams
  import opened StateFile
  import opened TrustedState
  import opened Trustd
  import TM = TrustMachine

  // --------------------------------------------- the file backend on any file

  /** The file backend refines the abstract machine from every duplicate-free file on, however
      the file is formatted: its entries step like the machine's store, and its return value
      is the one the machine's reply calls for. */
  lemma FileRefines(content: Option<string>, cmd: Command, m: Manifest)
    requires TM.Distinct(EntriesOf(content)) && FileSafe(m)
    ensures var op := OpFor(cmd, m, true);
      var (ret, after) := FileDo(content, cmd, m);
      var (ms, reply) := TM.Step(EntriesOf(content), op);
      && EntriesOf(after) == ms && TM.Distinct(ms)
      && (ret == 0 <==> reply == TM.Accepted)
      && (cmd == Update ==> (ret == -2 <==> reply == TM.Rejected))
  {
    hide EntriesOf, FileSafe, TM.Find, TM.Put, Merged, FileText, TM.Distinct, UpdateAllowed;
    StoreReadsBack(content, m);
    MergedIsPut(EntriesOf(content), m);
    TM.DistinctPut(EntriesOf(content), m);
  }

  /** The requests of a run as the abstract machine sees them: a file never runs out of room. */
  function FileOps(qs: seq<Request>): (ops: seq<TM.Op>)
    ensures |ops| == |qs|
    decreases |qs|
  {
    if qs == [] then []
    else
      var q := qs[|qs| - 1];
      FileOps(qs[..|qs| - 1]) + [OpFor(q.cmd, q.m, true)]
  }

  /** The file backend refines the abstract machine over every run, without any bound on its size: so
      what the machine guarantees about rollback, history and slot order holds for it. */
  lemma {:induction false} FileRunRefines(content: Option<string>, qs: seq<Request>)
    requires TM.Distinct(EntriesOf(content)) && AllFileSafeRequests(qs)
    ensures EntriesOf(FileRun(content, qs)) == TM.Run(EntriesOf(content), FileOps(qs))
    ensures TM.Distinct(EntriesOf(FileRun(content, qs)))
    decreases |qs|
  {
    hide FileSafe, FileDo, TM.Step, TM.Distinct, EntriesOf;
    TM.RunKeepsDistinct(EntriesOf(content), FileOps(qs));
    NoFileOps();
    if qs != [] {
      var n := |qs| - 1;
      assert forall k | 0 <= k < n :: qs[..n][k] == qs[k];
      FileRunRefines(content, qs[..n]);
      assert FileOps(qs)[..n] == FileOps(qs[..n]);
      FileRefines(FileRun(content, qs[..n]), qs[n].cmd, qs[n].m);
    }
  }

  predicate AllFileSafeRequests(qs: seq<Request>) { forall k | 0 <= k < |qs| :: FileSafe(qs[k].m) }

  lemma {:induction false} FileOpsAt(qs: seq<Request>, k: nat)
    requires k <= |qs|
    ensures FileOps(qs)[..k] == FileOps(qs[..k])
    ensures k < |qs| ==> FileOps(qs)[k] == OpFor(qs[k].cmd, qs[k].m, true)
    decreases |qs|
  {
    hide OpFor;
    if k < |qs| {
      assert qs[..|qs| - 1][..k] == qs[..k];
      FileOpsAt(qs[..|qs| - 1], k);
    } else {
      assert qs[..k] == qs;
    }
  }

  /** Every return value along a run of the file backend is the one of the abstract machine's reply. */
  lemma {:induction false} FileOutcomesRefine(content: Option<string>, qs: seq<Request>, k: nat)
    requires TM.Distinct(EntriesOf(content)) && AllFileSafeRequests(qs) && k < |qs|
    ensures FileOutcome(content, qs, k)
         == match TM.ReplyAt(EntriesOf(content), FileOps(qs), k)
            case Accepted => Done
            case Rejected => if qs[k].cmd == Update then RolledBack else Failed
            case _ => Failed
  {
    hide FileSafe, FileDo, TM.Step, FileRun, FileOps, TM.Distinct, EntriesOf;
    assert forall j | 0 <= j < k :: qs[..k][j] == qs[j];
    FileRunRefines(content, qs[..k]);
    FileOpsAt(qs, k);
    FileRefines(FileRun(content, qs[..k]), qs[k].cmd, qs[k].m);
  }

  /** The manifest of the latest ENROLL or UPDATE of an artifact that returned success. */
  function LastDone(content: Option<string>, qs: seq<Request>, id: string): Option<Manifest>
    decreases |qs|
  {
    if qs == [] then None
    else
      var n := |qs| - 1;
      if qs[n].cmd != Verify && qs[n].m.artifactId == id && FileOutcome(content, qs, n) == Done then Some(qs[n].m)
      else LastDone(content, qs[..n], id)
  }

  lemma {:induction false} FileLogsAgree(content: Option<string>, qs: seq<Request>, id: string)
    requires TM.Distinct(EntriesOf(content)) && AllFileSafeRequests(qs)
    ensures LastDone(content, qs, id) == TM.LastAccepted(FileOps(qs), TM.Replies(EntriesOf(content), FileOps(qs)), id)
    decreases |qs|
  {
    hide FileSafe, FileOutcome, TM.ReplyAt, FileOps, EntriesOf, TM.Distinct;
    NoFileOps();
    if qs != [] {
      var n := |qs| - 1;
      var ops := FileOps(qs);
      assert forall j | 0 <= j < n :: qs[..n][j] == qs[j];
      FileLogsAgree(content, qs[..n], id);
      FileOutcomesRefine(content, qs, n);
      FileOpsAt(qs, n);
      assert TM.Replies(EntriesOf(content), ops)[..n] == TM.Replies(EntriesOf(content), ops[..n]);
    }
  }

  lemma NoFileOps()
    ensures FileOps([]) == []
  {
  }

  /** What is expected of an artifact: the manifest of its latest ENROLL or UPDATE that returned success,
      and otherwise what the file held at the start. */
  function ExpectedOf(content: Option<string>, qs: seq<Request>, id: string): Option<Manifest> {
    var last := LastDone(content, qs, id);
    if last.Some? then last else TM.Find(EntriesOf(content), id)
  }

  lemma FileIsHistory(content: Option<string>, qs: seq<Request>, id: string)
    requires TM.Distinct(EntriesOf(content)) && AllFileSafeRequests(qs)
    ensures TM.Find(EntriesOf(FileRun(content, qs)), id) == ExpectedOf(content, qs, id)
  {
    hide FileSafe, FileRun, FileOps, EntriesOf, TM.Find, TM.Run, LastDone, TM.Distinct, TM.LastAccepted, TM.Replies;
    FileRunRefines(content, qs);
    FileLogsAgree(content, qs, id);
    TM.StoreIsHistory(EntriesOf(content), FileOps(qs), id);
  }

  /** VERIFY agrees with history on the file backend: after any run from any duplicate-free file it returns
      0 exactly for the expected manifest. */
  lemma FileVerifyAgreesWithHistory(content: Option<string>, qs: seq<Request>, m: Manifest)
    requires TM.Distinct(EntriesOf(content)) && AllFileSafeRequests(qs)
    ensures FileDo(FileRun(content, qs), Verify, m).0 == 0 <==> ExpectedOf(content, qs, m.artifactId) == Some(m)
  {
    hide FileSafe, FileRun, EntriesOf, TM.Find, ExpectedOf, TM.Distinct;
    FileIsHistory(content, qs, m.artifactId);
    FoundIsTheArtifact(EntriesOf(FileRun(content, qs)), m);
  }

  lemma FoundIsTheArtifact(ms: TM.Store, m: Manifest)
    ensures var t := TM.Find(ms, m.artifactId); t.Some? ==> (m == t.value <==> t == Some(m))
  {
  }

  /** Rollback safety of the file backend: from any moment of a run until its next ENROLL an artifact
      stays, keeps its backend and never goes back in version; an UPDATE not above a version it had
      then returns -2 and leaves the file as it is. */
  lemma FileNeverRollsBack(content: Option<string>, qs: seq<Request>, from: nat, id: string)
    requires TM.Distinct(EntriesOf(content)) && AllFileSafeRequests(qs) && from <= |qs|
    requires TM.Find(EntriesOf(FileRun(content, qs[..from])), id).Some?
    requires forall k | from <= k < |qs| :: !(qs[k].cmd == Enroll && qs[k].m.artifactId == id)
    ensures var before := TM.Find(EntriesOf(FileRun(content, qs[..from])), id);
      var after := TM.Find(EntriesOf(FileRun(content, qs)), id);
      && after.Some? && after.value.backend == before.value.backend
      && after.value.version >= before.value.version
      && forall m: Manifest | m.artifactId == id && m.version <= before.value.version ::
           FileDo(FileRun(content, qs), Update, m) == (-2, FileRun(content, qs))
  {
    hide FileSafe, FileRun, FileOps, EntriesOf, TM.Find, TM.Run, TM.Step, OpFor, TM.WithinEpoch, TM.Distinct;
    var ms := EntriesOf(content);
    assert forall j | 0 <= j < from :: qs[..from][j] == qs[j];
    FileRunRefines(content, qs[..from]);
    FileRunRefines(content, qs);
    FileOpsAt(qs, from);
    var ops := FileOps(qs);
    assert ops == ops[..from] + ops[from..];
    TM.RunConcat(ms, ops[..from], ops[from..]);
    assert TM.WithinEpoch(TM.Run(ms, ops[..from]), ops[from..], id) by { NoEnrollFrom(ms, qs, from, id); }
    TM.NoRollback(TM.Run(ms, ops[..from]), ops[from..], id);
  }

  lemma NoEnrollFrom(ms: TM.Store, qs: seq<Request>, from: nat, id: string)
    requires from <= |qs| && forall k | from <= k < |qs| :: !(qs[k].cmd == Enroll && qs[k].m.artifactId == id)
    ensures TM.WithinEpoch(TM.Run(ms, FileOps(qs)[..from]), FileOps(qs)[from..], id)
  {
    hide FileOps, TM.Run, TM.ReplyAt;
    var ops := FileOps(qs);
    forall k | 0 <= k < |ops[from..]| ensures !(ops[from..][k].Enroll? && ops[from..][k].m.artifactId == id) {
      FileOpsAt(qs, from + k);
      assert ops[from..][k] == ops[from + k];
    }
  }

  /** The artifact that was there first: the first one at the start, or else the first one enrolled. */
  function Earliest(ms: TM.Store, qs: seq<Request>): Option<string>
    decreases |qs|
  {
    if ms != [] then Some(ms[0].artifactId)
    else if qs == [] then None
    else if Earliest(ms, qs[..|qs| - 1]).Some? then Earliest(ms, qs[..|qs| - 1])
    else if qs[|qs| - 1].cmd == Enroll then Some(qs[|qs| - 1].m.artifactId)
    else None
  }

  lemma {:induction false} FirstSlot(ms: TM.Store, qs: seq<Request>)
    ensures var after := TM.Run(ms, FileOps(qs));
      match Earliest(ms, qs) case None => after == [] case Some(id) => after != [] && after[0].artifactId == id
    decreases |qs|
  {
    hide FileOps, TM.Find;
    NoFileOps();
    if qs != [] {
      var n := |qs| - 1;
      FirstSlot(ms, qs[..n]);
      FileOpsAt(qs, n);
      NothingIsFound(qs[n].m.artifactId);
    }
  }

  lemma NothingIsFound(id: string)
    ensures TM.Find([], id) == None
  {
  }

  /** REPORT of the file backend, after any run: the expected manifest of the artifact that was there
      before all others. */
  lemma FileReportsEarliest(content: Option<string>, qs: seq<Request>, size: nat)
    requires TM.Distinct(EntriesOf(content)) && AllFileSafeRequests(qs)
    ensures match Earliest(EntriesOf(content), qs)
            case None => FileReport(FileRun(content, qs), size) == None
            case Some(id) =>
              ExpectedOf(content, qs, id).Some? &&
              var text := RecordText(ExpectedOf(content, qs, id).value);
              FileReport(FileRun(content, qs), size) == if |text| < size then Some(text) else None
  {
    hide FileSafe, FileRun, FileOps, EntriesOf, TM.Run, LastDone, Earliest, RecordText, TM.Distinct;
    FileRunRefines(content, qs);
    FirstSlot(EntriesOf(content), qs);
    if Earliest(EntriesOf(content), qs).Some? {
      FileIsHistory(content, qs, Earliest(EntriesOf(content), qs).value);
    }
  }

  // ------------------------------------------------- runs on a failing file system

  /** A run during which `io(k)` is what the file system does while the k-th request is served. */
  function FaultyRun(content: Option<string>, qs: seq<Request>, io: nat -> Io): Option<string>
    decreases |qs|
  {
    if qs == [] then content
    else
      var n := |qs| - 1;
      FileDoUnder(FaultyRun(content, qs[..n], io), qs[n].cmd, qs[n].m, io(n)).1
  }

  /** The return value of the k-th request. */
  function FaultyReturn(content: Option<string>, qs: seq<Request>, io: nat -> Io, k: nat): int
    requires k < |qs|
  {
    FileDoUnder(FaultyRun(content, qs[..k], io), qs[k].cmd, qs[k].m, io(k)).0
  }

  /** The file knows the artifact only with the backend and at least the version of `t`. */
  predicate NotBehind(content: Option<string>, t: Manifest) {
    var found := TM.Find(EntriesOf(content), t.artifactId);
    found.Some? ==> found.value.version >= t.version && found.value.backend == t.backend
  }

  /** What a store can leave of an artifact: what it wrote for it, or nothing. */
  lemma StoreLeaves(content: Option<string>, m: Manifest, io: Faults, id: string)
    requires FileSafe(m)
    ensures var left := TM.Find(EntriesOf(Some(Installed(content, m, io))), id);
      left.Some? ==>
        if id == m.artifactId then Shortened(left.value, m)
        else TM.Find(EntriesOf(content), id).Some? && Shortened(left.value, TM.Find(EntriesOf(content), id).value)
  {
    hide FileSafe, Entries, Merged, Installed, CutEntries, TM.Find, FileText;
    var es, before := NewEntries(content, m, io), Opened(content, io.opens);
    LossIsReadIff(content, m, io);
    FindCut(es, |Fitting(io.device, FileText(es))|, id);
    FindMerged(EntriesOf(before), m, id);
    NothingIsFound(id);
    NoEntries();
  }

  lemma StepIsNotBehind(content: Option<string>, cmd: Command, m: Manifest, io: Io, t: Manifest)
    requires FileSafe(m) && NotBehind(content, t)
    requires cmd == Enroll && m.artifactId == t.artifactId ==> FileDoUnder(content, cmd, m, io).0 != 0
    ensures NotBehind(FileDoUnder(content, cmd, m, io).1, t)
  {
    hide FileSafe, Entries, StoreSucceeds, Installed, TM.Find;
    StoreLeaves(content, m, io.store, t.artifactId);
    NothingIsFound(m.artifactId);
    FoundHasId(EntriesOf(content), m.artifactId);
    NoEntries();
  }

  lemma FoundHasId(ms: TM.Store, id: string)
    ensures TM.Find(ms, id).Some? ==> TM.Find(ms, id).value.artifactId == id
  {
  }

  lemma {:induction false} NotBehindOn(content: Option<string>, qs: seq<Request>, io: nat -> Io, from: nat, t: Manifest)
    requires AllFileSafeRequests(qs) && from <= |qs|
    requires NotBehind(FaultyRun(content, qs[..from], io), t)
    requires forall k | from <= k < |qs| ::
      qs[k].cmd == Enroll && qs[k].m.artifactId == t.artifactId ==> FaultyReturn(content, qs, io, k) != 0
    ensures NotBehind(FaultyRun(content, qs, io), t)
    decreases |qs|
  {
    hide FileSafe, FileDoUnder, NotBehind;
    if from == |qs| {
      assert qs[..from] == qs;
    } else {
      var n := |qs| - 1;
      assert forall j | 0 <= j < n :: qs[..n][j] == qs[j] && qs[..n][..j] == qs[..j];
      assert qs[..n][..from] == qs[..from];
      forall k | from <= k < n && qs[..n][k].cmd == Enroll && qs[..n][k].m.artifactId == t.artifactId
        ensures FaultyReturn(content, qs[..n], io, k) != 0
      {
        assert FaultyReturn(content, qs, io, k) != 0;
      }
      NotBehindOn(content, qs[..n], io, from, t);
      assert qs[n].cmd == Enroll && qs[n].m.artifactId == t.artifactId ==> FaultyReturn(content, qs, io, n) != 0;
      StepIsNotBehind(FaultyRun(content, qs[..n], io), qs[n].cmd, qs[n].m, io(n), t);
    }
  }

  /** Rollback safety on whatever the file system does: if an artifact is in the file at two moments of a
      run and no ENROLL of it succeeded in between, its version did not fall and its backend is the
      same -- although stores may have lost entries, shortened a hash, or taken the file for empty. */
  lemma FaultyNeverRollsBack(content: Option<string>, qs: seq<Request>, io: nat -> Io, from: nat, id: string)
    requires AllFileSafeRequests(qs) && from <= |qs|
    requires TM.Find(EntriesOf(FaultyRun(content, qs[..from], io)), id).Some?
    requires TM.Find(EntriesOf(FaultyRun(content, qs, io)), id).Some?
    requires forall k | from <= k < |qs| ::
      qs[k].cmd == Enroll && qs[k].m.artifactId == id ==> FaultyReturn(content, qs, io, k) != 0
    ensures var before := TM.Find(EntriesOf(FaultyRun(content, qs[..from], io)), id).value;
      var after := TM.Find(EntriesOf(FaultyRun(content, qs, io)), id).value;
      after.version >= before.version && after.backend == before.backend
  {
    hide FileSafe, EntriesOf, FaultyRun, FaultyReturn, TM.Find;
    var before := TM.Find(EntriesOf(FaultyRun(content, qs[..from], io)), id).value;
    FoundHasId(EntriesOf(FaultyRun(content, qs[..from], io)), id);
    NotBehindOn(content, qs, io, from, before);
  }

  /** VERIFY after a store that reported success: it still answers for every manifest as it would had
      nothing been lost, if and only if nothing but the last line feed was. */
  lemma VerifyAfterLossIff(content: Option<string>, m: Manifest, io: Faults)
    requires FileSafe(m) && TM.Distinct(EntriesOf(content))
    ensures var es := NewEntries(content, m, io);
      (forall x: Manifest ::
         FileDo(Some(Installed(content, m, io)), Verify, x).0 == FileDo(Some(FileText(es)), Verify, x).0)
      <==> Takes(io.device, BareLength(es))
  {
    hide FileSafe, EntriesOf, Merged, Installed, CutEntries, TM.Find, FileText, TM.Distinct;
    var es, read := NewEntries(content, m, io), EntriesOf(Some(Installed(content, m, io)));
    LossIsReadIff(content, m, io);
    StoreReadsBack(Opened(content, io.opens), m);
    if read != es {
      NoEntries();
      NothingIsDistinct();
      MergedIsPut(EntriesOf(Opened(content, io.opens)), m);
      TM.DistinctPut(EntriesOf(Opened(content, io.opens)), m);
      var e := LostEntry(es, |Fitting(io.device, FileText(es))|);
      assert FileDo(Some(FileText(es)), Verify, e).0 == 0;
      assert FileDo(Some(Installed(content, m, io)), Verify, e).0 != 0;
    }
  }

  /** When a cut file is not read as the whole one there is an entry that is no longer found. */
  lemma LostEntry(es: TM.Store, n: nat) returns (e: Manifest)
    requires TM.Distinct(es) && CutEntries(es, n) != es
    ensures TM.Find(es, e.artifactId) == Some(e) && TM.Find(CutEntries(es, n), e.artifactId) != Some(e)
  {
    hide CutEntries;
    var cut := CutEntries(es, n);
    CutEntriesAt(es, n);
    var k: nat := if |cut| == |es| then |es| - 1 else |cut|;
    e := es[k];
    TM.FindAt(es, k);
    assert forall i | 0 <= i < |cut| && i != k :: cut[i].artifactId == es[i].artifactId != e.artifactId;
    assert |cut| == |es| && cut[k] == e ==> cut == es;
  }

  lemma NothingIsDistinct()
    ensures TM.Distinct([])
  {
  }
}
