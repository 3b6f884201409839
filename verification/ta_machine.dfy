/** The commands of the Trusted Application over whole runs. */
module TaMachine {
  import opened CText
  import opened Manifests
  import opened TaRecords
  import opened TaTokens
  import opened TaStore
  import TM = TrustMachine

  datatype Request = Request(cmd: nat, param: Param)

  /** The manifest an input parameter denotes, if the commands accept it. */
  function InputManifest(param: Param): Option<Manifest> {
    if InputText(param).None? then None else ParseState(InputText(param).value)
  }

  function InputRecord(param: Param): (x: string)
    requires InputManifest(param).Some?
    ensures Writable(x) && StateOf(x) == InputManifest(param).value
  {
    hide ParseState;
    InputText(param).value
  }

  predicate Writes(q: Request) { q.cmd == CMD_ENROLL || q.cmd == CMD_UPDATE }

  /** The inputs trustd can produce: a text to be written is free of line breaks. */
  predicate Safe(q: Request) {
    Writes(q) && InputManifest(q.param).Some? ==> LineFree(InputRecord(q.param))
  }

  predicate AllSafe(qs: seq<Request>) { forall k | 0 <= k < |qs| :: Safe(qs[k]) }

  predicate Fits(rs: seq<string>, x: string)
    requires Records(rs) && Writable(x)
  {
    |Serialise(PutRecord(rs, x))| < DB_MAX
  }

  /** The request as the abstract machine sees it. */
  function OpOf(rs: seq<string>, q: Request): TM.Op
    requires Records(rs)
  {
    if InputManifest(q.param).None? then TM.Other
    else
      var m := InputManifest(q.param).value;
      if q.cmd == CMD_ENROLL then TM.Enroll(m, Fits(rs, InputRecord(q.param)))
      else if q.cmd == CMD_UPDATE then TM.Update(m, Fits(rs, InputRecord(q.param)))
      else if q.cmd == CMD_VERIFY then TM.Verify(m)
      else TM.Other
  }

  /** The result code that reports an abstract reply. */
  function ResultOf(reply: TM.Reply): TeeResult {
    match reply
    case Refused => BadFormat
    case Accepted => Success
    case Missing => ItemNotFound
    case Rejected => Security
    case NoRoom => ShortBuffer
  }

  /** The records after a request. */
  function After(rs: seq<string>, q: Request): (r: seq<string>)
    requires Records(rs)
    ensures Records(r)
  {
    var op := OpOf(rs, q);
    if (op.Enroll? || op.Update?) && TM.Step(Parsed(rs), op).1 == TM.Accepted
    then PutRecord(rs, InputRecord(q.param))
    else rs
  }

  lemma EnrollSimulates(rs: seq<string>, param: Param)
    requires GoodStore(rs) && InputManifest(param).Some?
    ensures var x := InputRecord(param);
      EnrollCommand(Object(rs), param)
      == if Fits(rs, x) then (Success, Object(PutRecord(rs, x))) else (ShortBuffer, Object(rs))
  {
    hide ParseState, Frames, Rewrite, LineFree, Serialise, Upsert;
    UpsertWrites(rs, InputRecord(param));
  }

  lemma VerifySimulates(rs: seq<string>, param: Param)
    requires GoodStore(rs) && InputManifest(param).Some?
    ensures VerifyCommand(Object(rs), param)
         == match TM.Find(Parsed(rs), InputManifest(param).value.artifactId)
            case None => ItemNotFound
            case Some(t) => if InputManifest(param).value == t then Success else Security
  {
    hide ParseState, Records, GoodStore, FindRecord, FindState, TM.Find, Parsed, Object, InputText;
    GoodIsRecords(rs);
    var m := InputManifest(param).value;
    FindStateFinds(rs, m.artifactId);
    FindRecordFinds(rs, m.artifactId);
  }

  lemma UpdateSimulates(rs: seq<string>, param: Param)
    requires GoodStore(rs) && InputManifest(param).Some?
    ensures UpdateCommand(Object(rs), param)
         == match TM.Find(Parsed(rs), InputManifest(param).value.artifactId)
            case None => (ItemNotFound, Object(rs))
            case Some(t) =>
              if UpdateAllowed(t, InputManifest(param).value)
              then EnrollCommand(Object(rs), param)
              else (Security, Object(rs))
  {
    hide ParseState, Records, GoodStore, FindRecord, FindState, TM.Find, Parsed, Object, InputText, Upsert, UpdateAllowed;
    GoodIsRecords(rs);
    var m := InputManifest(param).value;
    FindStateFinds(rs, m.artifactId);
    FindRecordFinds(rs, m.artifactId);
  }

  /** An input that is not copied: none, an empty one, or one of 256 bytes and more. */
  predicate Unusable(param: Param) {
    !param.Input? || |param.bytes| == 0 || |param.bytes| >= 256
  }

  /** The code for an input that denotes no manifest: an unusable one, or for ENROLL an empty text, is a bad
      parameter, and any other a bad format. */
  function RefusalOf(cmd: nat, param: Param): TeeResult {
    if Unusable(param) || (cmd == CMD_ENROLL && param.bytes[0] == NUL) then BadParameters else BadFormat
  }

  /** Refused inputs never get past the checks in front of the store. */
  lemma MalformedIsRefused(obj: Option<string>, param: Param)
    requires InputManifest(param).None?
    ensures EnrollCommand(obj, param) == (RefusalOf(CMD_ENROLL, param), obj)
    ensures UpdateCommand(obj, param) == (RefusalOf(CMD_UPDATE, param), obj)
    ensures VerifyCommand(obj, param) == RefusalOf(CMD_VERIFY, param)
  {
    hide ParseState, FindState, Rewrite, Frames;
  }

  /** An object that cannot be read -- an empty one, or one of 2048 bytes and more -- makes every command that
      consults it ask for a larger buffer, and stays as it is. */
  lemma UnreadableIsRefused(obj: string, decision: Option<string>, param: Param)
    requires InputManifest(param).Some? && (obj == "" || |obj| >= 2048)
    ensures var st := Storage(Some(obj), decision);
      && Invoke(st, CMD_ENROLL, param) == (ShortBuffer, param, st)
      && Invoke(st, CMD_UPDATE, param) == (ShortBuffer, param, st)
      && Invoke(st, CMD_VERIFY, param) == (ShortBuffer, param, st)
      && forall size :: Invoke(st, CMD_REPORT, Output(size, "")) == (ShortBuffer, Output(size, ""), st)
  {
    hide ParseState, Frames, Rewrite, FindIn, LatestIn;
    RecordsHaveSevenCharacters(InputRecord(param));
  }

  /** One command on a well-formed store, on any command number and any parameter: it does
      what the abstract machine does, it says so in its result code, and the stored bytes
      are again the serialisation of a well-formed store. */
  lemma InvokeSimulates(rs: seq<string>, decision: Option<string>, q: Request)
    requires GoodStore(rs) && Safe(q)
    ensures var (res, _, st) := Invoke(Storage(Object(rs), decision), q.cmd, q.param);
      var (ms, reply) := TM.Step(Parsed(rs), OpOf(rs, q));
      && GoodStore(After(rs, q)) && st.state == Object(After(rs, q)) && Parsed(After(rs, q)) == ms
      && (OpOf(rs, q) != TM.Other ==> res == ResultOf(reply))
      && (OpOf(rs, q) == TM.Other && (Writes(q) || q.cmd == CMD_VERIFY) ==> res == RefusalOf(q.cmd, q.param))
      && (q.cmd == CMD_PING ==> res == Success) && (q.cmd > CMD_REPORT_DECISION ==> res == NotSupported)
      && (q.cmd != CMD_RECORD_DECISION ==> st.decision == decision)
  {
    hide ParseState, LineFree, Serialise, EnrollCommand, VerifyCommand, UpdateCommand, Parsed, TM.Put, TM.Find,
      LatestState, InputText, GoodStore;
    if InputManifest(q.param).None? {
      MalformedIsRefused(Object(rs), q.param);
    } else {
      EnrollSimulates(rs, q.param);
      VerifySimulates(rs, q.param);
      UpdateSimulates(rs, q.param);
      assert Records(rs) by { GoodIsRecords(rs); }
      var x := InputRecord(q.param);
      PutRecordPuts(rs, x);
      if Writes(q) && Fits(rs, x) {
        PutKeepsGood(rs, x);
      }
    }
  }

  lemma GoodIsRecords(rs: seq<string>)
    requires GoodStore(rs)
    ensures Records(rs)
  {
  }

  // -------------------------------------------------------------------- runs

  function InvokeAll(st: Storage, qs: seq<Request>): Storage
    decreases |qs|
  {
    if qs == [] then st
    else
      var q := qs[|qs| - 1];
      Invoke(InvokeAll(st, qs[..|qs| - 1]), q.cmd, q.param).2
  }

  /** The result code of the k-th request of a run. */
  function ResultAt(st: Storage, qs: seq<Request>, k: nat): TeeResult
    requires k < |qs|
  {
    Invoke(InvokeAll(st, qs[..k]), qs[k].cmd, qs[k].param).0
  }

  function RecordsAfter(rs: seq<string>, qs: seq<Request>): (r: seq<string>)
    requires Records(rs)
    ensures Records(r)
    decreases |qs|
  {
    if qs == [] then rs else After(RecordsAfter(rs, qs[..|qs| - 1]), qs[|qs| - 1])
  }

  function Ops(rs: seq<string>, qs: seq<Request>): (ops: seq<TM.Op>)
    requires Records(rs)
    ensures |ops| == |qs|
    decreases |qs|
  {
    if qs == [] then []
    else Ops(rs, qs[..|qs| - 1]) + [OpOf(RecordsAfter(rs, qs[..|qs| - 1]), qs[|qs| - 1])]
  }

  lemma {:induction false} OpsPrefix(rs: seq<string>, qs: seq<Request>, k: nat)
    requires Records(rs) && k <= |qs|
    ensures Ops(rs, qs)[..k] == Ops(rs, qs[..k])
    ensures k < |qs| ==> Ops(rs, qs)[k] == OpOf(RecordsAfter(rs, qs[..k]), qs[k])
    decreases |qs|
  {
    hide OpOf, After, Records;
    if k < |qs| {
      assert qs[..|qs| - 1][..k] == qs[..k];
      OpsPrefix(rs, qs[..|qs| - 1], k);
    } else {
      assert qs[..k] == qs;
    }
  }

  /** Refinement over whole runs: after every sequence of safe requests the stored bytes
      serialise a duplicate-free list of parseable records, and that list is the state the
      abstract machine reaches. */
  lemma {:induction false} RunRefines(rs: seq<string>, decision: Option<string>, qs: seq<Request>)
    requires GoodStore(rs) && AllSafe(qs)
    ensures GoodStore(RecordsAfter(rs, qs))
    ensures InvokeAll(Storage(Object(rs), decision), qs).state == Object(RecordsAfter(rs, qs))
    ensures Parsed(RecordsAfter(rs, qs)) == TM.Run(Parsed(rs), Ops(rs, qs))
    decreases |qs|
  {
    hide Object, GoodStore, Safe, OpOf, After, Invoke, Parsed, TM.Step;
    GoodIsRecords(rs);
    if qs != [] {
      var init, q := qs[..|qs| - 1], qs[|qs| - 1];
      RunRefines(rs, decision, init);
      OpsPrefix(rs, qs, |init|);
      InvokeSimulates(RecordsAfter(rs, init), InvokeAll(Storage(Object(rs), decision), init).decision, q);
    }
  }

  /** ... and every result code along the run is the one the abstract machine's reply calls for. */
  lemma ResultsRefine(rs: seq<string>, decision: Option<string>, qs: seq<Request>, k: nat)
    requires GoodStore(rs) && AllSafe(qs) && k < |qs|
    ensures var op, res := Ops(rs, qs)[k], ResultAt(Storage(Object(rs), decision), qs, k);
      && (op != TM.Other ==> res == ResultOf(TM.ReplyAt(Parsed(rs), Ops(rs, qs), k)))
      && (op == TM.Other && (Writes(qs[k]) || qs[k].cmd == CMD_VERIFY) ==> res == RefusalOf(qs[k].cmd, qs[k].param))
  {
    hide Object, GoodStore, Safe, OpOf, After, Invoke, Parsed, TM.Step;
    GoodIsRecords(rs);
    RunRefines(rs, decision, qs[..k]);
    OpsPrefix(rs, qs, k);
    InvokeSimulates(RecordsAfter(rs, qs[..k]), InvokeAll(Storage(Object(rs), decision), qs[..k]).decision, qs[k]);
  }

  // ------------------------------------------------------- what the runs guarantee

  /** What the log of requests and result codes says about an artifact: the manifest of the
      latest ENROLL or UPDATE for it that returned success. */
  function LastSuccess(qs: seq<Request>, results: seq<TeeResult>, id: string): Option<Manifest>
    requires |qs| == |results|
  {
    hide InputManifest;
    if qs == [] then None
    else if WroteFor(qs[|qs| - 1], results[|qs| - 1], id) then InputManifest(qs[|qs| - 1].param)
    else LastSuccess(qs[..|qs| - 1], results[..|qs| - 1], id)
  }

  predicate WroteFor(q: Request, res: TeeResult, id: string) {
    Writes(q) && res == Success && InputManifest(q.param).Some? && InputManifest(q.param).value.artifactId == id
  }

  function Results(st: Storage, qs: seq<Request>): (rs: seq<TeeResult>)
    ensures |rs| == |qs|
    decreases |qs|
  {
    if qs == [] then [] else Results(st, qs[..|qs| - 1]) + [ResultAt(st, qs, |qs| - 1)]
  }

  lemma EmptyStoreIsGood()
    ensures GoodStore([]) && Parsed([]) == [] && Object([]) == None
  {
  }

  lemma OpKind(rs: seq<string>, q: Request)
    requires Records(rs)
    ensures var op, m := OpOf(rs, q), InputManifest(q.param);
      && (op.Enroll? <==> q.cmd == CMD_ENROLL && m.Some?)
      && (op.Update? <==> q.cmd == CMD_UPDATE && m.Some?)
      && (op.Enroll? || op.Update? ==> Some(op.m) == m)
  {
    hide InputManifest, Fits, InputRecord;
  }

  lemma LogStep(rs: seq<string>, decision: Option<string>, qs: seq<Request>, k: nat, id: string)
    requires GoodStore(rs) && AllSafe(qs) && k < |qs|
    ensures var op, res := Ops(rs, qs)[k], ResultAt(Storage(Object(rs), decision), qs, k);
      && (WroteFor(qs[k], res, id)
          <==> (op.Enroll? || op.Update?) && op.m.artifactId == id &&
               TM.ReplyAt(Parsed(rs), Ops(rs, qs), k) == TM.Accepted)
      && (WroteFor(qs[k], res, id) ==> InputManifest(qs[k].param) == Some(op.m))
  {
    hide InputManifest, GoodStore, Safe, Object, Parsed, Records, Ops, RecordsAfter, ResultAt, TM.ReplyAt, OpOf, AllSafe;
    GoodIsRecords(rs);
    OpKind(RecordsAfter(rs, qs[..k]), qs[k]);
    ResultsRefine(rs, decision, qs, k);
    OpsPrefix(rs, qs, k);
  }

  lemma {:induction false} LogsAgree(rs: seq<string>, decision: Option<string>, qs: seq<Request>, id: string)
    requires GoodStore(rs) && AllSafe(qs)
    ensures LastSuccess(qs, Results(Storage(Object(rs), decision), qs), id)
         == TM.LastAccepted(Ops(rs, qs), TM.Replies(Parsed(rs), Ops(rs, qs)), id)
    decreases |qs|
  {
    hide ResultAt, TM.ReplyAt, Safe, InputManifest, WroteFor, OpOf, RecordsAfter, GoodStore, Parsed, Object, Records;
    GoodIsRecords(rs);
    if qs != [] {
      var n := |qs| - 1;
      var ops, st := Ops(rs, qs), Storage(Object(rs), decision);
      LogsAgree(rs, decision, qs[..n], id);
      LogStep(rs, decision, qs, n, id);
      OpsPrefix(rs, qs, n);
      assert Results(st, qs)[..n] == Results(st, qs[..n]);
      assert TM.Replies(Parsed(rs), ops)[..n] == TM.Replies(Parsed(rs), ops[..n]);
    }
  }

  /** VERIFY agrees with history: after any run of safe requests from any well-formed store, VERIFY
      returns success exactly when the latest successful ENROLL or UPDATE of the artifact -- or, if
      there was none, the store at the start -- held the same version, backend and hash, whatever the
      spacing of either text and whatever was done to other artifacts. */
  lemma VerifyAgreesWithHistory(rs: seq<string>, decision: Option<string>, qs: seq<Request>, param: Param)
    requires GoodStore(rs) && AllSafe(qs) && InputManifest(param).Some?
    ensures var m, st := InputManifest(param).value, Storage(Object(rs), decision);
      var last := LastSuccess(qs, Results(st, qs), m.artifactId);
      Invoke(InvokeAll(st, qs), CMD_VERIFY, param).0 == Success
      <==> (if last.Some? then last else Trusted(rs, m.artifactId)) == Some(m)
  {
    hide InputManifest, GoodStore, Safe, Object, VerifyCommand, LastSuccess, Parsed, Records, RecordsAfter, Ops, Results,
      TM.LastAccepted, TM.Replies, InvokeAll;
    GoodIsRecords(rs);
    var m := InputManifest(param).value;
    RunRefines(rs, decision, qs);
    VerifySimulates(RecordsAfter(rs, qs), param);
    LogsAgree(rs, decision, qs, m.artifactId);
    TM.StoreIsHistory(Parsed(rs), Ops(rs, qs), m.artifactId);
  }

  /** No ENROLL of the artifact succeeds during the run. */
  predicate WithinEpoch(st: Storage, qs: seq<Request>, id: string) {
    forall k | 0 <= k < |qs| ::
      qs[k].cmd == CMD_ENROLL && ResultAt(st, qs, k) == Success && InputManifest(qs[k].param).Some?
      ==> InputManifest(qs[k].param).value.artifactId != id
  }

  lemma EpochsAgree(rs: seq<string>, decision: Option<string>, qs: seq<Request>, id: string)
    requires GoodStore(rs) && AllSafe(qs)
    requires WithinEpoch(Storage(Object(rs), decision), qs, id)
    ensures TM.WithinEpoch(Parsed(rs), Ops(rs, qs), id)
  {
    hide Invoke, Parsed, GoodStore, Safe, Object, TM.Step, InputManifest;
    GoodIsRecords(rs);
    var ops := Ops(rs, qs);
    forall k | 0 <= k < |ops| && ops[k].Enroll? && ops[k].m.artifactId == id
      ensures TM.ReplyAt(Parsed(rs), ops, k) != TM.Accepted
    {
      OpsPrefix(rs, qs, k);
      ResultsRefine(rs, decision, qs, k);
    }
  }

  /** The manifest the store trusts for an artifact. */
  function Trusted(rs: seq<string>, id: string): Option<Manifest>
    requires Records(rs)
  {
    TM.Find(Parsed(rs), id)
  }

  /** How many UPDATEs of the artifact return success during the run. */
  function SuccessfulUpdates(st: Storage, qs: seq<Request>, id: string): nat
    decreases |qs|
  {
    if qs == [] then 0
    else
      var k := |qs| - 1;
      SuccessfulUpdates(st, qs[..k], id) + if UpdatedFor(qs[k], ResultAt(st, qs, k), id) then 1 else 0
  }

  predicate UpdatedFor(q: Request, res: TeeResult, id: string) {
    hide ParseState;
    q.cmd == CMD_UPDATE && res == Success && InputManifest(q.param).Some? && InputManifest(q.param).value.artifactId == id
  }

  lemma {:induction false} UpdatesAgree(rs: seq<string>, decision: Option<string>, qs: seq<Request>, id: string)
    requires GoodStore(rs) && AllSafe(qs)
    ensures SuccessfulUpdates(Storage(Object(rs), decision), qs, id) == TM.AcceptedUpdates(Parsed(rs), Ops(rs, qs), id)
    decreases |qs|
  {
    hide Safe, GoodStore, Parsed, Object, Records, UpdatedFor, ResultAt, TM.ReplyAt, OpOf, RecordsAfter;
    GoodIsRecords(rs);
    if qs != [] {
      var k := |qs| - 1;
      UpdatesAgree(rs, decision, qs[..k], id);
      OpsPrefix(rs, qs, k);
      UpdateAgrees(rs, decision, qs, k, id);
    }
  }

  lemma UpdateAgrees(rs: seq<string>, decision: Option<string>, qs: seq<Request>, k: nat, id: string)
    requires GoodStore(rs) && AllSafe(qs) && k < |qs|
    ensures var op := Ops(rs, qs)[k];
      UpdatedFor(qs[k], ResultAt(Storage(Object(rs), decision), qs, k), id)
      <==> op.Update? && op.m.artifactId == id && TM.ReplyAt(Parsed(rs), Ops(rs, qs), k) == TM.Accepted
  {
    hide InputManifest, Safe, GoodStore, Parsed, Object, Records, Ops, RecordsAfter, ResultAt, TM.ReplyAt, OpOf, AllSafe;
    GoodIsRecords(rs);
    OpKind(RecordsAfter(rs, qs[..k]), qs[k]);
    ResultsRefine(rs, decision, qs, k);
    OpsPrefix(rs, qs, k);
  }

  /** Rollback safety over the bytes: until an ENROLL of the artifact succeeds again, it stays
      enrolled, keeps its backend, and gains at least one version per successful UPDATE. */
  lemma NoRollback(rs: seq<string>, decision: Option<string>, qs: seq<Request>, id: string)
    requires GoodStore(rs) && AllSafe(qs) && Trusted(rs, id).Some?
    requires WithinEpoch(Storage(Object(rs), decision), qs, id)
    ensures GoodStore(RecordsAfter(rs, qs))
    ensures InvokeAll(Storage(Object(rs), decision), qs).state == Object(RecordsAfter(rs, qs))
    ensures Trusted(RecordsAfter(rs, qs), id).Some?
    ensures var before, after := Trusted(rs, id).value, Trusted(RecordsAfter(rs, qs), id).value;
      && after.backend == before.backend
      && after.version >= before.version + SuccessfulUpdates(Storage(Object(rs), decision), qs, id)
  {
    hide SuccessfulUpdates, GoodStore, Safe, Object, Parsed, TM.Find, Records, Ops, RecordsAfter, InvokeAll,
      TM.AcceptedUpdates, TM.Run, WithinEpoch, TM.WithinEpoch;
    GoodIsRecords(rs);
    EpochsAgree(rs, decision, qs, id);
    UpdatesAgree(rs, decision, qs, id);
    RunRefines(rs, decision, qs);
    TM.NoRollback(Parsed(rs), Ops(rs, qs), id);
  }

  /** ... and every UPDATE whose version is not above one the artifact already had in the
      epoch is answered with the security result and changes nothing. */
  lemma StaleUpdateIsRejected(rs: seq<string>, decision: Option<string>, qs: seq<Request>, param: Param)
    requires GoodStore(rs) && AllSafe(qs) && InputManifest(param).Some?
    requires var m := InputManifest(param).value;
      && Trusted(rs, m.artifactId).Some? && m.version <= Trusted(rs, m.artifactId).value.version
      && WithinEpoch(Storage(Object(rs), decision), qs, m.artifactId)
    ensures var st := InvokeAll(Storage(Object(rs), decision), qs);
      Invoke(st, CMD_UPDATE, param) == (Security, param, st)
  {
    hide InputManifest, GoodStore, Safe, Object, Parsed, TM.Find, Records, Ops, RecordsAfter, InvokeAll,
      SuccessfulUpdates, WithinEpoch, UpdateCommand, EnrollCommand;
    GoodIsRecords(rs);
    NoRollback(rs, decision, qs, InputManifest(param).value.artifactId);
    UpdateSimulates(RecordsAfter(rs, qs), param);
  }

  lemma {:induction false} LatestIsLast(rs: seq<string>, latest: string)
    requires Records(rs)
    ensures LatestIn(rs, latest)
         == if rs != [] then (Success, rs[|rs| - 1])
            else (if latest == "" then ItemNotFound else Success, latest)
  {
    hide ParseState, CStr;
    if rs != [] {
      assert Writable(rs[0]) && Writable(rs[|rs| - 1]);
      RecordsHaveSevenCharacters(rs[0]);
      WritableIsItsText(rs[0]);
      LatestIsLast(rs[1..], rs[0]);
    }
  }

  /** REPORT hands out the record in the last slot; along every run that is the current record
      of the artifact that was enrolled for the first time most recently. */
  lemma ReportIsLatestNewcomer(before: seq<string>, decision: Option<string>, qs: seq<Request>, size: nat)
    requires GoodStore(before) && AllSafe(qs)
    ensures var rs, ms, ops := RecordsAfter(before, qs), Parsed(before), Ops(before, qs);
      var newcomers := TM.Newcomers(TM.Ids(ms), ops, TM.Replies(ms, ops));
      var st := InvokeAll(Storage(Object(before), decision), qs);
      if rs == [] then newcomers == [] && Invoke(st, CMD_REPORT, Output(size, "")).0 == ItemNotFound
      else
        var last := rs[|rs| - 1];
        && newcomers != [] && StateOf(last).artifactId == newcomers[|newcomers| - 1]
        && Invoke(st, CMD_REPORT, Output(size, ""))
           == if size > |last| then (Success, Output(|last| + 1, last), st)
              else (ShortBuffer, Output(|last| + 1, ""), st)
  {
    hide InputManifest, Safe, TM.Step, OpOf, After, ParseState, Frames, LatestIn, Ops, RecordsAfter, Serialise, TM.Run,
      InvokeAll, TM.Newcomers, TM.Replies, LineFree;
    GoodIsRecords(before);
    RunRefines(before, decision, qs);
    var rs := RecordsAfter(before, qs);
    StoredObjectReads(rs);
    LatestIsLast(rs, "");
    TM.SlotsAreNewcomers(Parsed(before), Ops(before, qs));
    assert rs != [] ==> Writable(rs[|rs| - 1]);
  }

  // --------------------------------------------------- exactly which texts are safe

  lemma CutIsLine(f: string)
    requires LineFree(f)
    ensures LineFree(CStr(f))
  {
    var r := CStr(f);
    forall k | 0 <= k < |r| ensures IsLineChar(r[k]) { assert IsLineChar(f[k]); }
  }

  lemma {:induction false} FoundIsLine(frames: seq<string>, id: string, size: nat)
    requires forall f | f in frames :: LineFree(f)
    requires FindIn(frames, id, size).0 == Success
    ensures LineFree(FindIn(frames, id, size).1) && NUL !in FindIn(frames, id, size).1
    decreases |frames|
  {
    hide ParseState, LineFree, CStr;
    assert frames[0] in frames && forall f | f in frames[1..] :: f in frames;
    CutIsLine(frames[0]);
    NoTerminatorIn(frames[0]);
    if FindIn(frames, id, size) == FindIn(frames[1..], id, size) && FindIn(frames[1..], id, size).0 == Success {
      FoundIsLine(frames[1..], id, size);
    }
  }

  lemma NoTerminatorIn(f: string)
    ensures NUL !in CStr(f)
  {
  }

  lemma FindStateIsLine(obj: Option<string>, id: string)
    requires FindState(obj, id, RECORD_MAX).0 == Success
    ensures LineFree(FindState(obj, id, RECORD_MAX).1) && NUL !in FindState(obj, id, RECORD_MAX).1
  {
    hide FindIn, LineFree, Frames;
    var db := ReadObject(obj, DB_MAX).1;
    FramesAreLines(db);
    FoundIsLine(Frames(db), id, RECORD_MAX);
  }

  /** Whatever bytes are stored, VERIFY succeeds for no text that holds a line break. */
  lemma VerifiedTextsAreLineFree(obj: Option<string>, param: Param)
    requires VerifyCommand(obj, param) == Success
    ensures InputManifest(param).Some? && LineFree(InputRecord(param))
  {
    hide FindState, LineFree, ParseState, CStr;
    var x := InputText(param).value;
    var id := ParseState(x).value.artifactId;
    FindStateIsLine(obj, id);
    NoTerminatorIn(param.bytes);
    BreaksEndUpInFields(x);
    BreaksEndUpInFields(FindState(obj, id, RECORD_MAX).1);
  }

  /** Exactly when an accepted ENROLL is trusted afterwards: the text must hold no line break. */
  lemma EnrolledTextVerifiesIff(rs: seq<string>, param: Param)
    requires GoodStore(rs) && InputManifest(param).Some?
    requires EnrollCommand(Object(rs), param).0 == Success
    ensures VerifyCommand(EnrollCommand(Object(rs), param).1, param) == Success <==> LineFree(InputRecord(param))
  {
    hide InputManifest, LineFree, EnrollCommand, VerifyCommand, Parsed, Object, Serialise, GoodStore, TM.Find, TM.Put,
      ParseState, InputText;
    GoodIsRecords(rs);
    var x := InputRecord(param);
    EnrollSimulates(rs, param);
    if LineFree(x) {
      PutKeepsGood(rs, x);
      VerifySimulates(PutRecord(rs, x), param);
      PutRecordPuts(rs, x);
      TM.FindPut(Parsed(rs), StateOf(x), StateOf(x).artifactId);
    }
    if VerifyCommand(EnrollCommand(Object(rs), param).1, param) == Success {
      VerifiedTextsAreLineFree(EnrollCommand(Object(rs), param).1, param);
    }
  }

  /** A text that ENROLL accepts and VERIFY then rejects: its hash ends in a line break. */
  lemma LineBreakWitness()
    ensures var p := Input("a 1 b h\n");
      EnrollCommand(None, p).0 == Success && VerifyCommand(EnrollCommand(None, p).1, p) != Success
  {
    hide ParseState, EnrollCommand, VerifyCommand, Serialise, CStr;
    var x := "a 1 b h\n";
    ParsedWitness();
    WritableIsItsText(x);
    EmptyStoreIsGood();
    EnrollSimulates([], Input(x));
    SerialisedWitness(x);
    EnrolledTextVerifiesIff([], Input(x));
    assert !IsLineChar(x[7]);
  }

  lemma SerialisedWitness(x: string)
    requires Writable(x)
    ensures Serialise(PutRecord([], x)) == x + ("\n" + "")
  {
    hide ParseState;
    assert PutRecord([], x) == [x];
    assert Serialise([x]) == x + ("\n" + Serialise([x][1..]));
  }

  lemma ParsedWitness()
    ensures ParseState("a 1 b h\n").Some?
  {
    hide Token, ParseRest;
    var s3 := " h\n";
    var s2 := " b h\n";
    var s1 := " 1 b h\n";
    assert s3 == " " + ("h\n" + "") && s2 == " " + ("b" + s3) && s1 == " " + ("1" + s2);
    assert "a 1 b h\n" == "" + ("a" + s1);
    TokenOf("", "a", s1, 64);
    LastTokens("a", "1", "b", "h\n", s1, s2, s3);
  }
}
