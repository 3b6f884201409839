/** What trustd answers over whole runs of messages, read off the messages and the replies alone. */
module DaemonRuns {
  import opened CText
  import opened Manifests
  import opened Protocol
  import opened Streams
  import opened StateFile
  import opened TrustedState
  import opened Trustd
  import opened TrustdDaemon
  import D = Decisions
  import opened TaRecords
  import TM = TrustMachine

  // ------------------------------------------------------------- single turns

  /** A message that is no request about a manifest, no decision and no report -- an unknown command, or
      one whose words do not parse -- is answered ERR and changes nothing, whatever the file system does. */
  lemma GarbageIsRefused(b: Backend, s: Service, message: string, io: Io)
    requires s.up && message != ""
    requires RequestIn(Received(message)).None? && D.ParseDecisionMessage(Received(message)).None?
    requires !("REPORT" <= Received(message))
    ensures Turn(b, s, message, io) == (Err, s)
  {
    hide Serve, ParseManifestMessage, D.ParseDecisionMessage, DecisionReport, StateReport, BackendDo;
    var buf := Received(message);
    if CommandOf(buf).Some? {
      ManifestServed(b, s.disk, buf, io);
    } else {
      OtherServed(b, s.disk, buf, io);
      NoDecisionReport(buf);
    }
  }

  lemma NoDecisionReport(buf: string)
    requires !("REPORT" <= buf)
    ensures !("REPORT_DECISION" <= buf)
  {
  }

  lemma ReportServed(b: Backend, s: Service, io: Io)
    requires s.up
    ensures Turn(b, s, "REPORT\n", io) == (StateReport(b, s.disk, io), s)
  {
    hide HandleManifest, HandleDecision, DecisionReport, StateReport, Serve;
    var buf := "REPORT\n";
    assert Received(buf) == buf && buf[..6] == "REPORT" && |buf| < |"REPORT_DECISION"|;
    assert buf[0] == 'R' && CommandOf(buf).None?;
    OtherServed(b, s.disk, buf, io);
  }

  /** A decision on whatever the file system does. The file backend refuses it when its log does not open,
      and otherwise keeps what was there and adds as much of the line as fits -- all of it, with OK, when the
      device has room; the other one overwrites its text exactly when that has at most 511 characters. */
  lemma DecisionUnderFaults(b: Backend, s: Service, message: string, d: D.Decision, io: Io)
    requires s.up && D.ParseDecisionMessage(Received(message)) == Some(d)
    ensures var (reply, after) := Turn(b, s, message, io);
      var line, text := D.DecisionText(d) + "\n", D.DecisionText(d);
      && reply in {Ok, Err} && after.up && after.disk.file == s.disk.file && after.disk.tee.state == s.disk.tee.state
      && (b.FileBackend? ==>
            && after.disk.tee == s.disk.tee
            && (!io.logOpens ==> reply == Err && after == s)
            && (io.logOpens ==>
                  && after.disk.log == Some(D.LogText(s.disk.log) + Fitting(io.log, line))
                  && (Takes(io.log, |line|) ==> reply == Ok && Fitting(io.log, line) == line)
                  && (reply == Ok <==> Takes(io.log, Flushed(io.log, |line|)))))
      && (b.OpteeBackend? ==>
            && after.disk.log == s.disk.log
            && (reply == Ok <==> |text| <= 511)
            && after.disk.tee.decision == if |text| <= 511 then Some(text) else s.disk.tee.decision)
  {
    hide Serve, HandleManifest, D.ParseDecisionMessage, D.DecisionText, DecisionReport, StateReport, D.LogText, Flushed;
    var buf := Received(message);
    assert D.COMMAND <= buf by { DecisionBegins(buf); }
    DecisionIsOther(buf);
    OtherServed(b, s.disk, buf, io);
  }

  lemma DecisionBegins(buf: string)
    requires D.ParseDecisionMessage(buf).Some?
    ensures D.COMMAND <= buf
  {
  }

  /** Reports on a file system that does not open the files, and reports change nothing at all. */
  lemma ReportsUnderFaults(b: Backend, s: Service, io: Io)
    requires s.up
    ensures Turn(b, s, "REPORT\n", io).1 == Turn(b, s, "REPORT_DECISION\n", io).1 == s
    ensures b.FileBackend? && !io.opens ==> Turn(b, s, "REPORT\n", io).0 == Err
    ensures b.FileBackend? && !io.logOpens ==> Turn(b, s, "REPORT_DECISION\n", io).0 == Err
    ensures b.OpteeBackend? ==>
      Turn(b, s, "REPORT\n", io) == Turn(b, s, "REPORT\n", CALM) &&
      Turn(b, s, "REPORT_DECISION\n", io) == Turn(b, s, "REPORT_DECISION\n", CALM)
  {
    hide Turn, FileReport, OpteeReport, CStr, D.ReportedByFile;
    ReportServed(b, s, io);
    ReportServed(b, s, CALM);
    DecisionReportServed(b, s, io);
    DecisionReportServed(b, s, CALM);
    NoFile();
    NoLog();
  }

  /** REPORT_DECISION: ERR when no decision is held; otherwise OP-TEE hands out its text, and the file backend
      what is left of it in the line buffer, which is all of it up to 510 characters. */
  lemma DecisionReportIs(b: Backend, s: Service, last: Option<D.Decision>)
    requires s.up && HoldsDecision(b, s.disk, last)
    ensures Turn(b, s, "REPORT_DECISION\n", CALM)
         == (match last
             case None => Err
             case Some(d) => DecisionIs(if b.FileBackend? then D.LastPiece(D.DecisionText(d)) else D.DecisionText(d)), s)
  {
    hide Turn, CStr, D.ReportedByFile, D.DecisionText, D.DecisionSafe, IsPlain;
    DecisionReportServed(b, s, CALM);
    NoLog();
    if last.Some? {
      var text, log := D.DecisionText(last.value), s.disk.log;
      D.DecisionTextShape(last.value);
      D.DecisionTextBound(last.value);
      PlainIsText(text);
      if b.FileBackend? {
        D.LastLineIsReported(log.value[..|log.value| - |text| - 1], text, 512);
      }
    }
  }

  lemma NoFile()
    ensures FileReport(None, 256) == None
  {
  }

  // ----------------------------------------------------- the store behind trustd

  /** A list of manifests as trustd comes to hold them. */
  predicate Listed(ms: TM.Store) {
    TM.Distinct(ms) && forall k | 0 <= k < |ms| :: WireSafe(ms[k]) && ms[k].version >= 0
  }

  /** The backend holds exactly these manifests. */
  predicate Holds(b: Backend, disk: Disk, ms: TM.Store) {
    Listed(ms) && if b.FileBackend? then disk.file == Bytes(ms) else |FileText(ms)| < DB_MAX && disk.tee.state == Bytes(ms)
  }

  lemma CommonIsListed(ms: TM.Store)
    ensures Common(ms) <==> Listed(ms) && |FileText(ms)| < DB_MAX
  {
    hide WireSafe, TM.Distinct, FileText;
  }

  lemma ListedIsRead(ms: TM.Store)
    requires Listed(ms)
    ensures EntriesOf(Bytes(ms)) == ms
  {
    hide WireSafe, FileSafe, Entries, TM.Distinct;
    forall k | 0 <= k < |ms| ensures FileSafe(ms[k]) {
      WireSafeIsFileSafe(ms[k]);
    }
    EntriesOfText(ms);
  }

  /** REPORT: ERR on the empty store, and otherwise the record of the first manifest with the file backend
      and of the last one with OP-TEE. */
  lemma ReportIs(b: Backend, s: Service, ms: TM.Store)
    requires s.up && Holds(b, s.disk, ms)
    ensures Turn(b, s, "REPORT\n", CALM)
         == (if ms == [] then Err
             else StateIs(RecordText(ms[if b.FileBackend? then 0 else |ms| - 1])), s)
  {
    hide WireSafe, RecordText, FileText, EntriesOf, Common, TM.Distinct, OpteeReport, Turn;
    ReportServed(b, s, CALM);
    CommonIsListed(ms);
    ListedIsRead(ms);
    if b.OpteeBackend? {
      ReportsAgreeIff(ms);
    } else if ms != [] {
      assert WireSafe(ms[0]);
      RecordTextShape(ms[0]);
    }
  }

  /** A text as the store sees it: the Trusted Application refuses negative versions, and has room for
      2047 bytes. */
  function OpOn(b: Backend, ms: TM.Store, buf: string): TM.Op {
    match RequestIn(buf)
    case None => TM.Other
    case Some(q) =>
      if b.OpteeBackend? && q.m.version < 0 then TM.Other else OpFor(q.cmd, q.m, b.FileBackend? || Room(ms, q.m))
  }

  lemma PutIsListed(ms: TM.Store, m: Manifest)
    requires Listed(ms) && WireSafe(m) && m.version >= 0
    ensures Listed(TM.Put(ms, m))
  {
    hide WireSafe, TM.Distinct;
    TM.DistinctPut(ms, m);
    TM.PutMembers(ms, m);
    var r := TM.Put(ms, m);
    forall k | 0 <= k < |r| ensures WireSafe(r[k]) && r[k].version >= 0 {
      assert r[k] in r;
    }
  }

  lemma FileHolds(disk: Disk, ms: TM.Store, cmd: Command, m: Manifest)
    requires Holds(FileBackend, disk, ms) && WireSafe(m) && m.version >= 0
    ensures var (ret, after) := BackendDo(FileBackend, disk, cmd, m, CALM);
      var (ms', reply) := TM.Step(ms, OpFor(cmd, m, true));
      Holds(FileBackend, after, ms') && (ret == 0 <==> reply == TM.Accepted)
  {
    hide WireSafe, Listed, EntriesOf, FileText, TM.Find, TM.Put, Merged, FileDoUnder, UpdateAllowed;
    ListedIsRead(ms);
    CalmFile(disk.file, cmd, m);
    assert TM.Distinct(ms) by { ListedIsDistinct(ms); }
    MergedIsPut(ms, m);
    PutIsListed(ms, m);
    PutIsNotEmpty(ms, m);
  }

  lemma ListedIsDistinct(ms: TM.Store)
    requires Listed(ms)
    ensures TM.Distinct(ms)
  {
  }

  lemma OpteeHolds(disk: Disk, ms: TM.Store, cmd: Command, m: Manifest)
    requires Holds(OpteeBackend, disk, ms) && WireSafe(m) && m.version >= 0
    ensures var (ret, after) := BackendDo(OpteeBackend, disk, cmd, m, CALM);
      var (ms', reply) := TM.Step(ms, OpFor(cmd, m, Room(ms, m)));
      Holds(OpteeBackend, after, ms') && (ret == 0 <==> reply == TM.Accepted)
  {
    hide WireSafe, Listed, Common, FileText, TM.Find, TM.Put, OpteeDo, UpdateAllowed;
    CommonIsListed(ms);
    OpteeStep(ms, cmd, m);
    if Room(ms, m) {
      PutIsCommon(ms, m);
      CommonIsListed(TM.Put(ms, m));
    }
  }

  /** One message: the store steps like the abstract machine, and a request is answered OK exactly when the
      machine accepts it. */
  lemma TurnHolds(b: Backend, s: Service, ms: TM.Store, message: string)
    requires s.up && Holds(b, s.disk, ms) && !Fatal(Received(message))
    ensures var (reply, after) := Turn(b, s, message, CALM);
      var (ms', r) := TM.Step(ms, OpOn(b, ms, Received(message)));
      && after.up && Holds(b, after.disk, ms')
      && (RequestIn(Received(message)).Some? ==> (reply == Ok <==> r == TM.Accepted))
  {
    hide Serve, ParseManifestMessage, BackendDo, Holds, WireSafe, TM.Step, Room;
    var buf := Received(message);
    TurnEnds(b, s, message, CALM);
    if RequestIn(buf).Some? {
      var q := RequestIn(buf).value;
      ManifestServed(b, s.disk, buf, CALM);
      ParsedMessageIsWireSafe(buf, CommandName(q.cmd));
      if b.FileBackend? {
        FileHolds(s.disk, ms, q.cmd, q.m);
      } else {
        OpteeHolds(s.disk, ms, q.cmd, q.m);
      }
    } else {
      NothingElseWrites(b, s.disk, buf);
      HeldAlike(b, s.disk, Serve(b, s.disk, buf, CALM).1, ms);
      OtherIsNoStep(ms);
    }
  }

  lemma OtherIsNoStep(ms: TM.Store)
    ensures TM.Step(ms, TM.Other).0 == ms
  {
  }

  lemma NothingElseWrites(b: Backend, disk: Disk, buf: string)
    requires RequestIn(buf).None?
    ensures var after := Serve(b, disk, buf, CALM).1;
      after.file == disk.file && after.tee.state == disk.tee.state
  {
    hide ParseManifestMessage, D.ParseDecisionMessage, DecisionReport, StateReport, Serve, BackendDo, D.DecisionLine,
      D.OpteeRecord;
    if CommandOf(buf).Some? {
      ManifestServed(b, disk, buf, CALM);
    } else {
      OtherServed(b, disk, buf, CALM);
    }
  }

  lemma HeldAlike(b: Backend, disk: Disk, after: Disk, ms: TM.Store)
    requires Holds(b, disk, ms) && after.file == disk.file && after.tee.state == disk.tee.state
    ensures Holds(b, after, ms)
  {
    hide Listed, FileText;
  }

  // -------------------------------------------------------------------- runs

  /** The messages of a run as the store sees them. */
  function OpsOf(b: Backend, ms: TM.Store, msgs: seq<string>): (ops: seq<TM.Op>)
    ensures |ops| == |msgs|
    decreases |msgs|
  {
    if msgs == [] then []
    else
      var before := OpsOf(b, ms, msgs[..|msgs| - 1]);
      before + [OpOn(b, TM.Run(ms, before), Received(msgs[|msgs| - 1]))]
  }

  /** What the messages and the replies say about an artifact: the manifest of the latest ENROLL or UPDATE
      of it that was answered OK. */
  function LatestOk(msgs: seq<string>, replies: seq<Reply>, id: string): Option<Manifest>
    requires |msgs| == |replies|
    decreases |msgs|
  {
    if msgs == [] then None
    else
      var n := |msgs| - 1;
      var q := RequestIn(Received(msgs[n]));
      if q.Some? && q.value.cmd != Verify && q.value.m.artifactId == id && replies[n] == Ok then Some(q.value.m)
      else LatestOk(msgs[..n], replies[..n], id)
  }

  /** The artifacts known at the start, and then those of the messages in the order of their first ENROLL
      that was answered OK. */
  function Arrivals(known: seq<string>, msgs: seq<string>, replies: seq<Reply>): seq<string>
    requires |msgs| == |replies|
    decreases |msgs|
  {
    if msgs == [] then known
    else
      var n := |msgs| - 1;
      var q, ids := RequestIn(Received(msgs[n])), Arrivals(known, msgs[..n], replies[..n]);
      if q.Some? && q.value.cmd == Enroll && replies[n] == Ok && q.value.m.artifactId !in ids
      then ids + [q.value.m.artifactId] else ids
  }

  /** What is expected of an artifact. */
  function ExpectedAt(ms: TM.Store, msgs: seq<string>, replies: seq<Reply>, id: string): Option<Manifest>
    requires |msgs| == |replies|
  {
    var last := LatestOk(msgs, replies, id);
    if last.Some? then last else TM.Find(ms, id)
  }

  /** One more message in the logs of both. */
  lemma LogsStep(b: Backend, ms: TM.Store, msgs: seq<string>, replies: seq<Reply>, id: string)
    requires msgs != [] && |replies| == |msgs|
    requires var n := |msgs| - 1;
      var ops := OpsOf(b, ms, msgs);
      && (RequestIn(Received(msgs[n])).Some? && ops[n] != TM.Other ==>
            (replies[n] == Ok <==> TM.ReplyAt(ms, ops, n) == TM.Accepted))
      && (ops[n] == TM.Other && RequestIn(Received(msgs[n])).Some? ==> replies[n] != Ok)
      && LatestOk(msgs[..n], replies[..n], id) == TM.LastAccepted(ops[..n], TM.Replies(ms, ops[..n]), id)
      && Arrivals(TM.Ids(ms), msgs[..n], replies[..n]) == TM.Newcomers(TM.Ids(ms), ops[..n], TM.Replies(ms, ops[..n]))
    ensures var ops := OpsOf(b, ms, msgs);
      && LatestOk(msgs, replies, id) == TM.LastAccepted(ops, TM.Replies(ms, ops), id)
      && Arrivals(TM.Ids(ms), msgs, replies) == TM.Newcomers(TM.Ids(ms), ops, TM.Replies(ms, ops))
  {
    hide RequestIn, TM.ReplyAt, TM.Run, Room;
    var n, ops := |msgs| - 1, OpsOf(b, ms, msgs);
    assert ops[..n] == OpsOf(b, ms, msgs[..n]);
    assert TM.Replies(ms, ops)[..n] == TM.Replies(ms, ops[..n]);
    LastStep(b, ms, msgs, replies, id);
    var buf := Received(msgs[n]);
    assert ops[n] == OpOn(b, TM.Run(ms, ops[..n]), buf);
  }

  lemma LastStep(b: Backend, ms: TM.Store, msgs: seq<string>, replies: seq<Reply>, id: string)
    requires msgs != [] && |replies| == |msgs|
    requires var n := |msgs| - 1;
      var ops := OpsOf(b, ms, msgs);
      && (RequestIn(Received(msgs[n])).Some? && ops[n] != TM.Other ==>
            (replies[n] == Ok <==> TM.ReplyAt(ms, ops, n) == TM.Accepted))
      && (ops[n] == TM.Other && RequestIn(Received(msgs[n])).Some? ==> replies[n] != Ok)
      && LatestOk(msgs[..n], replies[..n], id) == TM.LastAccepted(ops[..n], TM.Replies(ms, ops[..n]), id)
    ensures var ops := OpsOf(b, ms, msgs);
      LatestOk(msgs, replies, id) == TM.LastAccepted(ops, TM.Replies(ms, ops), id)
  {
    hide RequestIn, TM.ReplyAt, TM.Run, Room;
    var n, ops := |msgs| - 1, OpsOf(b, ms, msgs);
    assert TM.Replies(ms, ops)[..n] == TM.Replies(ms, ops[..n]) && ops[..n] == OpsOf(b, ms, msgs[..n]);
  }

  /** Both backends refine the abstract machine on the wire: over every run of messages whatever -- requests,
      reports, decisions, garbage -- while trustd runs, the store is the machine's, and the manifests and
      the slots are what the messages and the replies say. */
  lemma {:induction false} RunHolds(b: Backend, s: Service, ms: TM.Store, msgs: seq<string>, id: string)
    requires s.up && Holds(b, s.disk, ms) && NoneFatal(msgs)
    ensures var (replies, after) := ServeAll(b, s, msgs, Calm);
      var ops := OpsOf(b, ms, msgs);
      && after.up && Holds(b, after.disk, TM.Run(ms, ops))
      && LatestOk(msgs, replies, id) == TM.LastAccepted(ops, TM.Replies(ms, ops), id)
      && Arrivals(TM.Ids(ms), msgs, replies) == TM.Newcomers(TM.Ids(ms), ops, TM.Replies(ms, ops))
    decreases |msgs|
  {
    hide Turn, Holds, Fatal, OpOn, TM.Step, TM.LastAccepted, TM.Newcomers, LatestOk, Arrivals, RequestIn;
    if msgs == [] {
      NothingLogged(ms, id);
    } else {
      var n := |msgs| - 1;
      assert forall k | 0 <= k < n :: msgs[..n][k] == msgs[k];
      RunHolds(b, s, ms, msgs[..n], id);
      var (before, mid) := ServeAll(b, s, msgs[..n], Calm);
      var ops := OpsOf(b, ms, msgs);
      assert ops[..n] == OpsOf(b, ms, msgs[..n]);
      TurnHolds(b, mid, TM.Run(ms, ops[..n]), msgs[n]);
      OtherIsRefused(TM.Run(ms, ops[..n]));
      var replies := ServeAll(b, s, msgs, Calm).0;
      assert replies[..n] == before;
      LogsStep(b, ms, msgs, replies, id);
    }
  }

  lemma OtherIsRefused(ms: TM.Store)
    ensures TM.Step(ms, TM.Other).1 != TM.Accepted
  {
  }

  lemma NothingLogged(ms: TM.Store, id: string)
    ensures LatestOk([], [], id) == TM.LastAccepted([], [], id)
    ensures Arrivals(TM.Ids(ms), [], []) == TM.Newcomers(TM.Ids(ms), [], [])
  {
  }

  /** VERIFY on the wire: after any run, while trustd runs, it is answered OK exactly for the manifest of the
      latest ENROLL or UPDATE of the artifact that was answered OK -- or, if there was none, for the one
      held at the start. */
  lemma VerifyOnTheWire(b: Backend, s: Service, ms: TM.Store, msgs: seq<string>, m: Manifest)
    requires s.up && Holds(b, s.disk, ms) && NoneFatal(msgs) && WireSafe(m) && m.version >= 1
    ensures var (replies, after) := ServeAll(b, s, msgs, Calm);
      Turn(b, after, ManifestMessage("VERIFY", m), CALM).0 == Ok
      <==> ExpectedAt(ms, msgs, replies, m.artifactId) == Some(m)
  {
    hide Turn, Holds, ServeAll, LatestOk, WireSafe, ManifestMessage, OpsOf, TM.Run, TM.LastAccepted, Delivered,
      ParseManifestMessage, Arrivals, TM.Find, Room, TM.Newcomers;
    RunHolds(b, s, ms, msgs, m.artifactId);
    var (replies, after) := ServeAll(b, s, msgs, Calm);
    SentIsRequest(Verify, m);
    DeliveredIff(Verify, m);
    TurnHolds(b, after, TM.Run(ms, OpsOf(b, ms, msgs)), ManifestMessage("VERIFY", m));
    TM.StoreIsHistory(ms, OpsOf(b, ms, msgs), m.artifactId);
  }

  /** ENROLL on the wire: it is answered OK exactly when there is room. */
  lemma EnrollOnTheWire(b: Backend, s: Service, ms: TM.Store, m: Manifest)
    requires s.up && Holds(b, s.disk, ms) && WireSafe(m) && m.version >= 1
    ensures var (reply, after) := Turn(b, s, ManifestMessage("ENROLL", m), CALM);
      (reply == Ok <==> b.FileBackend? || Room(ms, m)) && Holds(b, after.disk, if reply == Ok then TM.Put(ms, m) else ms)
  {
    hide Turn, Holds, WireSafe, ManifestMessage, Delivered, ParseManifestMessage, Room, TM.Put;
    SentIsRequest(Enroll, m);
    DeliveredIff(Enroll, m);
    TurnHolds(b, s, ms, ManifestMessage("ENROLL", m));
  }

  /** UPDATE on the wire: it is answered OK exactly when the expected manifest has the same backend and a
      lower version, and there is room. */
  lemma UpdateOnTheWire(b: Backend, s: Service, ms: TM.Store, msgs: seq<string>, m: Manifest)
    requires s.up && Holds(b, s.disk, ms) && NoneFatal(msgs) && WireSafe(m) && m.version >= 1
    ensures var (replies, after) := ServeAll(b, s, msgs, Calm);
      var t := ExpectedAt(ms, msgs, replies, m.artifactId);
      Turn(b, after, ManifestMessage("UPDATE", m), CALM).0 == Ok
      <==> t.Some? && t.value.backend == m.backend && t.value.version < m.version &&
           (b.FileBackend? || Room(TM.Run(ms, OpsOf(b, ms, msgs)), m))
  {
    hide Turn, Holds, ServeAll, LatestOk, WireSafe, ManifestMessage, OpsOf, TM.Run, TM.LastAccepted, Delivered,
      ParseManifestMessage, Arrivals, TM.Find, TM.Put, Room, TM.Newcomers;
    RunHolds(b, s, ms, msgs, m.artifactId);
    var (replies, after) := ServeAll(b, s, msgs, Calm);
    SentIsRequest(Update, m);
    DeliveredIff(Update, m);
    TurnHolds(b, after, TM.Run(ms, OpsOf(b, ms, msgs)), ManifestMessage("UPDATE", m));
    TM.StoreIsHistory(ms, OpsOf(b, ms, msgs), m.artifactId);
  }

  /** REPORT on the wire: after any run, while trustd runs, the expected manifest of the earliest artifact with
      the file backend and of the latest newcomer with OP-TEE, by the messages and the replies alone. */
  lemma ReportOnTheWire(b: Backend, s: Service, ms: TM.Store, msgs: seq<string>)
    requires s.up && Holds(b, s.disk, ms) && NoneFatal(msgs)
    ensures var (replies, after) := ServeAll(b, s, msgs, Calm);
      var ids, reply := Arrivals(TM.Ids(ms), msgs, replies), Turn(b, after, "REPORT\n", CALM).0;
      if ids == [] then reply == Err
      else
        var id := ids[if b.FileBackend? then 0 else |ids| - 1];
        var m := ExpectedAt(ms, msgs, replies, id);
        m.Some? && reply == StateIs(RecordText(m.value))
  {
    hide Turn, Holds, ServeAll, LatestOk, OpsOf, TM.Run, TM.LastAccepted, Arrivals, TM.Find, TM.Newcomers, RecordText,
      TM.Distinct;
    var (replies, after) := ServeAll(b, s, msgs, Calm);
    var ops := OpsOf(b, ms, msgs);
    var held := TM.Run(ms, ops);
    RunHolds(b, s, ms, msgs, "");
    ReportIs(b, after, held);
    TM.SlotsAreNewcomers(ms, ops);
    if held != [] {
      var k := if b.FileBackend? then 0 else |held| - 1;
      var id := held[k].artifactId;
      HeldIsDistinct(b, after.disk, held);
      TM.FindAt(held, k);
      RunHolds(b, s, ms, msgs, id);
      TM.StoreIsHistory(ms, ops, id);
    }
  }

  lemma HeldIsDistinct(b: Backend, disk: Disk, ms: TM.Store)
    requires Holds(b, disk, ms)
    ensures TM.Distinct(ms)
  {
  }
}
