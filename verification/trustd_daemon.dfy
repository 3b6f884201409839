/** trustd as its clients see it: one message after the other, over either backend, until a message
    ends it. */
module TrustdDaemon {
  import opened CText
  import opened Manifests
  import opened Protocol
  import opened Streams
  import opened StateFile
  import opened TrustedState
  import opened Trustd
  import D = Decisions
  import TaEntry
  import opened TaRecords
  import TM = TrustMachine

  datatype Backend = FileBackend | OpteeBackend

  /** What a client gets. `NoReply` is the connection that trustd's abort closes, or that nobody accepts
      any more. */
  datatype Reply = Ok | Err | StateIs(text: string) | DecisionIs(text: string) | NoReply

  /** The stores behind trustd. */
  datatype Disk = Disk(file: Option<string>, log: Option<string>, tee: Storage)

  function BackendDo(b: Backend, disk: Disk, cmd: Command, m: Manifest, io: Io): (int, Disk) {
    if b.FileBackend? then
      var (ret, file) := FileDoUnder(disk.file, cmd, m, io);
      (ret, disk.(file := file))
    else
      var (ret, obj) := OpteeDo(disk.tee.state, cmd, m);
      (ret, disk.(tee := disk.tee.(state := obj)))
  }

  /** `handle_enroll`, `handle_update` and `handle_verify` on a message. A version below 1 gets past the
      backend, but not past the event writer. */
  function HandleManifest(b: Backend, disk: Disk, cmd: Command, buf: string, io: Io): (Reply, Disk) {
    match ParseManifestMessage(buf, CommandName(cmd))
    case None => (Err, disk)
    case Some(m) =>
      var (ret, after) := BackendDo(b, disk, cmd, m, io);
      (if m.version <= 0 then NoReply else if ret == 0 then Ok else Err, after)
  }

  /** `handle_record_decision`: the file backend appends a line, the other one overwrites its object. */
  function HandleDecision(b: Backend, disk: Disk, buf: string, io: Io): (Reply, Disk) {
    match D.ParseDecisionMessage(buf)
    case None => (Err, disk)
    case Some(d) =>
      if b.FileBackend? then
        if !io.logOpens then (Err, disk)
        else
          var line := D.DecisionLine(d);
          (if Takes(io.log, Flushed(io.log, |line|)) then Ok else Err,
           disk.(log := Some(D.LogText(disk.log) + Fitting(io.log, line))))
      else
        match D.OpteeRecord(d)
        case None => (Err, disk)
        case Some(text) => (Ok, disk.(tee := disk.tee.(decision := Some(text))))
  }

  /** `handle_report_decision`; the reply is printed as a C string. */
  function DecisionReport(b: Backend, disk: Disk, io: Io): Reply {
    if b.FileBackend? then
      match D.ReportedByFile(Opened(disk.log, io.logOpens), 512) case None => Err case Some(text) => DecisionIs(text)
    else
      var (res, text) := ReadObject(disk.tee.decision, 512);
      if res == Success then DecisionIs(CStr(text)) else Err
  }

  /** `handle_report` */
  function StateReport(b: Backend, disk: Disk, io: Io): Reply {
    var text := if b.FileBackend? then FileReport(Opened(disk.file, io.opens), 256) else OpteeReport(disk.tee.state, 256);
    if text.None? then Err else StateIs(text.value)
  }

  /** The dispatch of trustd's main loop on the text of one message. */
  function Serve(b: Backend, disk: Disk, buf: string, io: Io): (Reply, Disk) {
    if "ENROLL" <= buf then HandleManifest(b, disk, Enroll, buf, io)
    else if "VERIFY" <= buf then HandleManifest(b, disk, Verify, buf, io)
    else if "REPORT_DECISION" <= buf then (DecisionReport(b, disk, io), disk)
    else if "REPORT" <= buf then (StateReport(b, disk, io), disk)
    else if "UPDATE" <= buf then HandleManifest(b, disk, Update, buf, io)
    else if "RECORD_DECISION" <= buf then HandleDecision(b, disk, buf, io)
    else (Err, disk)
  }

  /** The stores, and whether trustd still runs. It is started once. */
  datatype Service = Service(disk: Disk, up: bool)

  const STARTED := Service(Disk(None, None, Storage(None, None)), true)

  /** One message from a client. trustd reads once; it closes a connection on which nothing arrives, and
      accepts none when it no longer runs. */
  function Turn(b: Backend, s: Service, message: string, io: Io): (Reply, Service) {
    if !s.up || message == "" then (NoReply, s)
    else
      var (reply, disk) := Serve(b, s.disk, Received(message), io);
      (reply, Service(disk, reply != NoReply))
  }

  /** The replies to a run of messages, and the service after it; `io(k)` is what the file system does
      during the k-th message. */
  function ServeAll(b: Backend, start: Service, msgs: seq<string>, io: nat -> Io): (r: (seq<Reply>, Service))
    ensures |r.0| == |msgs|
    decreases |msgs|
  {
    if msgs == [] then ([], start)
    else
      var n := |msgs| - 1;
      var (replies, s) := ServeAll(b, start, msgs[..n], io);
      var (reply, after) := Turn(b, s, msgs[n], io(n));
      (replies + [reply], after)
  }

  function Calm(k: nat): Io { CALM }

  // ----------------------------------------------------------- how trustd ends

  /** The commands about manifests, as the dispatch sees them. */
  lemma ManifestServed(b: Backend, disk: Disk, buf: string, io: Io)
    requires CommandOf(buf).Some?
    ensures Serve(b, disk, buf, io) == HandleManifest(b, disk, CommandOf(buf).value, buf, io)
  {
    hide HandleManifest, HandleDecision, DecisionReport, StateReport;
  }

  lemma OtherServed(b: Backend, disk: Disk, buf: string, io: Io)
    requires CommandOf(buf).None?
    ensures Serve(b, disk, buf, io)
         == if "REPORT_DECISION" <= buf then (DecisionReport(b, disk, io), disk)
            else if "REPORT" <= buf then (StateReport(b, disk, io), disk)
            else HandleDecision(b, disk, buf, io)
    ensures Serve(b, disk, buf, io).0 != NoReply
  {
    hide HandleManifest, DecisionReport, StateReport, D.FromFields, D.DecisionLine, D.OpteeRecord, Flushed, Fitting, Takes,
      Scan;
    ReportsAnswer(b, disk, io);
  }

  lemma ReportsAnswer(b: Backend, disk: Disk, io: Io)
    ensures DecisionReport(b, disk, io) != NoReply && StateReport(b, disk, io) != NoReply
  {
    hide D.ReportedByFile, FileReport, OpteeReport, CStr;
  }

  /** A running trustd leaves exactly the fatal messages without a reply. */
  lemma NoReplyIff(b: Backend, disk: Disk, buf: string, io: Io)
    ensures Serve(b, disk, buf, io).0 == NoReply <==> Fatal(buf)
  {
    hide Serve, BackendDo, ParseManifestMessage;
    if CommandOf(buf).Some? {
      ManifestServed(b, disk, buf, io);
    } else {
      OtherServed(b, disk, buf, io);
    }
  }

  predicate AllAnswered(replies: seq<Reply>) { forall k | 0 <= k < |replies| :: replies[k] != NoReply }

  predicate NoneFatal(msgs: seq<string>) { forall k | 0 <= k < |msgs| :: !Fatal(Received(msgs[k])) }

  predicate NoneEmpty(msgs: seq<string>) { forall k | 0 <= k < |msgs| :: msgs[k] != "" }

  /** One turn of a running trustd: what ends it is a fatal message, and it answers all others but empty
      ones. */
  lemma TurnEnds(b: Backend, s: Service, message: string, io: Io)
    requires s.up
    ensures Turn(b, s, message, io).1.up <==> !Fatal(Received(message))
    ensures Turn(b, s, message, io).0 != NoReply <==> message != "" && !Fatal(Received(message))
  {
    hide Serve, ParseManifestMessage;
    NoReplyIff(b, s.disk, Received(message), io);
    NothingIsRequested();
  }

  lemma NothingIsRequested()
    ensures !Fatal(Received(""))
  {
    hide ParseManifestMessage;
    assert CommandOf("") == None;
  }

  lemma {:induction false} UpIff(b: Backend, start: Service, msgs: seq<string>, io: nat -> Io)
    ensures ServeAll(b, start, msgs, io).1.up <==> start.up && NoneFatal(msgs)
    decreases |msgs|
  {
    hide Serve, Fatal;
    if msgs != [] {
      var n := |msgs| - 1;
      UpIff(b, start, msgs[..n], io);
      assert forall k | 0 <= k < n :: msgs[..n][k] == msgs[k];
      if ServeAll(b, start, msgs[..n], io).1.up {
        TurnEnds(b, ServeAll(b, start, msgs[..n], io).1, msgs[n], io(n));
      }
    }
  }

  lemma {:induction false} ReplyAt(b: Backend, start: Service, msgs: seq<string>, io: nat -> Io, k: nat)
    requires k < |msgs|
    ensures ServeAll(b, start, msgs, io).0[k] == Turn(b, ServeAll(b, start, msgs[..k], io).1, msgs[k], io(k)).0
    ensures ServeAll(b, start, msgs, io).0[..k] == ServeAll(b, start, msgs[..k], io).0
    decreases |msgs|
  {
    hide Turn;
    var n := |msgs| - 1;
    if k < n {
      ReplyAt(b, start, msgs[..n], io, k);
      assert msgs[..n][..k] == msgs[..k];
    }
  }

  /** A message is answered exactly when something arrives and neither it nor any message before it is
      fatal. */
  lemma AnsweredAt(b: Backend, start: Service, msgs: seq<string>, io: nat -> Io, k: nat)
    requires start.up && k < |msgs|
    ensures ServeAll(b, start, msgs, io).0[k] != NoReply
       <==> msgs[k] != "" && forall j | 0 <= j <= k :: !Fatal(Received(msgs[j]))
  {
    hide Serve, Fatal, ServeAll;
    ReplyAt(b, start, msgs, io, k);
    UpIff(b, start, msgs[..k], io);
    assert forall j | 0 <= j < k :: msgs[..k][j] == msgs[j];
    if ServeAll(b, start, msgs[..k], io).1.up {
      TurnEnds(b, ServeAll(b, start, msgs[..k], io).1, msgs[k], io(k));
    }
  }

  /** trustd answers every message of a run exactly when none is empty and every manifest it can parse
      from one read has a version of at least 1 -- whatever it runs on, holds at the start, and
      whatever the file system does. */
  lemma AnsweredIff(b: Backend, start: Service, msgs: seq<string>, io: nat -> Io)
    requires start.up
    ensures AllAnswered(ServeAll(b, start, msgs, io).0) <==> NoneEmpty(msgs) && NoneFatal(msgs)
  {
    hide Fatal, ServeAll;
    var replies := ServeAll(b, start, msgs, io).0;
    forall k | 0 <= k < |msgs|
      ensures replies[k] != NoReply <==> msgs[k] != "" && forall j | 0 <= j <= k :: !Fatal(Received(msgs[j]))
    {
      AnsweredAt(b, start, msgs, io, k);
    }
    if AllAnswered(replies) {
      forall k | 0 <= k < |msgs| ensures msgs[k] != "" && !Fatal(Received(msgs[k])) {
        assert replies[k] != NoReply;
      }
    }
  }

  /** Behind the first fatal message nobody is answered and nothing changes any more. */
  lemma {:induction false} NothingAfterTheEnd(b: Backend, start: Service, msgs: seq<string>, io: nat -> Io, n: nat)
    requires n < |msgs| && Fatal(Received(msgs[n]))
    ensures ServeAll(b, start, msgs, io).1 == ServeAll(b, start, msgs[..n + 1], io).1
    ensures forall k | n <= k < |msgs| :: ServeAll(b, start, msgs, io).0[k] == NoReply
    decreases |msgs|
  {
    hide Serve, Fatal;
    var last := |msgs| - 1;
    UpIff(b, start, msgs[..n + 1], io);
    assert msgs[..n + 1][n] == msgs[n];
    if n == last {
      assert msgs[..n + 1] == msgs;
      ReplyAt(b, start, msgs, io, n);
      if ServeAll(b, start, msgs[..n], io).1.up {
        TurnEnds(b, ServeAll(b, start, msgs[..n], io).1, msgs[n], io(n));
      }
    } else {
      NothingAfterTheEnd(b, start, msgs[..last], io, n);
      assert msgs[..last][..n + 1] == msgs[..n + 1];
    }
  }

  /** An empty read, and a message that is cut in front of its version: neither counts as a request. */
  lemma CutMessageWitness(b: Backend)
    ensures var long := "ENROLL" + Blanks(505) + "a 0 b h";
      var (replies, s) := ServeAll(b, STARTED, ["", long], Calm);
      && replies == [NoReply, Err] && s == STARTED && Fatal(long) && !Fatal(Received(long))
  {
    hide Serve, ParseManifestMessage, Blanks, Turn;
    var long := "ENROLL" + Blanks(505) + "a 0 b h";
    LongMessage();
    ManifestServed(b, STARTED.disk, Received(long), CALM);
    EmptyTurn(b);
    LongTurn(b, long);
    TwoServed(b, ["", long]);
  }

  function Blanks(n: nat): (s: string)
    ensures |s| == n && All(s, IsSpace)
  {
    seq(n, _ => ' ')
  }

  lemma EmptyTurn(b: Backend)
    ensures Turn(b, STARTED, "", CALM) == (NoReply, STARTED)
  {
  }

  lemma LongTurn(b: Backend, long: string)
    requires long != "" && Serve(b, STARTED.disk, Received(long), CALM) == (Err, STARTED.disk)
    ensures Turn(b, STARTED, long, CALM) == (Err, STARTED)
  {
    hide Serve;
  }

  lemma LongMessage()
    ensures var long := "ENROLL" + Blanks(505) + "a 0 b h";
      && Fatal(long) && !Fatal(Received(long))
      && CommandOf(Received(long)) == Some(Enroll) && ParseManifestMessage(Received(long), "ENROLL") == None
  {
    hide ParseManifestMessage, Blanks, CommandOf;
    var blanks := Blanks(505);
    var long := "ENROLL" + blanks + "a 0 b h";
    assert long == "ENROLL" + (blanks + "a 0 b h");
    assert Received(long) == "ENROLL" + blanks;
    ZeroBehindBlanks(blanks);
    OnlyBlanks(blanks);
  }

  lemma EnrollBegins(rest: string)
    ensures CommandOf("ENROLL" + rest) == Some(Enroll)
    ensures ParseManifestMessage("ENROLL" + rest, "ENROLL") == FromFields(Scan(rest, WIRE_FORMAT))
  {
    hide Scan, FromFields;
    assert ("ENROLL" + rest)[6..] == rest;
  }

  lemma ZeroBehindBlanks(blanks: string)
    requires All(blanks, IsSpace)
    ensures CommandOf("ENROLL" + (blanks + "a 0 b h")) == Some(Enroll)
    ensures ParseManifestMessage("ENROLL" + (blanks + "a 0 b h"), "ENROLL") == Some(Manifest("a", 0, "b", "h"))
  {
    hide Scan, FromFields, WireSafe, RecordText, ParseManifestMessage, CommandOf;
    var zero := Manifest("a", 0, "b", "h");
    EnrollBegins(blanks + "a 0 b h");
    SmallIsWireSafe("a", 0);
    ZeroRecord();
    assert blanks + "a 0 b h" == blanks + RecordText(zero) + "";
    WireSafeCarries(zero);
    RecordRoundTrip(WIRE_FORMAT, zero, blanks, "");
  }

  lemma OnlyBlanks(blanks: string)
    requires All(blanks, IsSpace)
    ensures CommandOf("ENROLL" + blanks) == Some(Enroll) && ParseManifestMessage("ENROLL" + blanks, "ENROLL") == None
  {
    hide Scan, ParseManifestMessage, CommandOf;
    EnrollBegins(blanks);
    SkipSpaceOf(blanks, "");
    assert blanks + "" == blanks;
    BlanksScan(blanks);
  }

  lemma BlanksScan(blanks: string)
    requires SkipSpace(blanks) == ""
    ensures Scan(blanks, WIRE_FORMAT) == []
  {
  }

  lemma ZeroRecord()
    ensures RecordText(Manifest("a", 0, "b", "h")) == "a 0 b h"
  {
    hide RecordText;
    RecordTextIs(Manifest("a", 0, "b", "h"));
    assert PrintInt(0) == "0";
    assert "0" + " " + ("b" + " " + "h") == "0 b h";
  }

  /** From the client's manifest to the backend and back: trustd asks the backend for exactly what its
      conversions leave of the manifest -- the manifest itself if and only if it is wire-safe -- and
      the reply tells success from failure, unless that version is below 1: then trustd is gone. */
  lemma ServedAsSent(b: Backend, disk: Disk, cmd: Command, m: Manifest, io: Io)
    ensures Turn(b, Service(disk, true), ManifestMessage(CommandName(cmd), m), io)
         == match Delivered(cmd, m)
            case None => (Err, Service(disk, true))
            case Some(p) =>
              var (ret, after) := BackendDo(b, disk, cmd, p, io);
              if p.version <= 0 then (NoReply, Service(after, false))
              else (if ret == 0 then Ok else Err, Service(after, true))
    ensures Delivered(cmd, m) == Some(m) <==> WireSafe(m)
  {
    hide BackendDo, WireSafe, ParseManifestMessage, Serve, ManifestMessage;
    SentIsRequest(cmd, m);
    DeliveredIff(cmd, m);
    MessageIsNotEmpty(cmd, m);
    ManifestServed(b, disk, Sent(cmd, m), io);
  }

  lemma MessageIsNotEmpty(cmd: Command, m: Manifest)
    ensures ManifestMessage(CommandName(cmd), m) != ""
  {
    hide RecordText;
  }

  /** A version 0 message: it is stored, never answered, and neither is any message after it. */
  lemma VersionZeroWitness(b: Backend)
    ensures var zero := Manifest("a", 0, "b", "h");
      var (replies, s) := ServeAll(b, STARTED, [ManifestMessage("ENROLL", zero), ManifestMessage("ENROLL", SMALL_A)], Calm);
      && replies == [NoReply, NoReply] && !s.up
      && (if b.FileBackend? then s.disk.file else s.disk.tee.state) == Some(FileText([zero]))
  {
    hide WireSafe, Serve, BackendDo, ManifestMessage, FileText, Common, Turn, Delivered, FileDo, OpteeDo;
    var zero := Manifest("a", 0, "b", "h");
    var msgs := [ManifestMessage("ENROLL", zero), ManifestMessage("ENROLL", SMALL_A)];
    SmallIsWireSafe("a", 0);
    ServedAsSent(b, STARTED.disk, Enroll, zero, CALM);
    var s := Turn(b, STARTED, msgs[0], CALM).1;
    DeadTurn(b, s, msgs[1]);
    ZeroLine(zero);
    ZeroIsStored(b, zero);
    TwoServed(b, msgs);
  }

  lemma ZeroLine(zero: Manifest)
    requires WireSafe(zero) && zero.version == 0
    ensures |FileText([zero])| <= 235
  {
    hide WireSafe, RecordText;
    RecordTextShape(zero);
    assert FileText([zero]) == FileLine(zero) + FileText([zero][1..]);
  }

  lemma OneMoreServed(b: Backend, start: Service, msgs: seq<string>, message: string)
    ensures var (replies, s) := ServeAll(b, start, msgs, Calm);
      var (reply, after) := Turn(b, s, message, CALM);
      ServeAll(b, start, msgs + [message], Calm) == (replies + [reply], after)
  {
    hide Turn;
    var all := msgs + [message];
    assert all[..|all| - 1] == msgs && all[|all| - 1] == message && Calm(|msgs|) == CALM;
  }

  lemma NothingServed(b: Backend, start: Service)
    ensures ServeAll(b, start, [], Calm) == ([], start)
  {
  }

  lemma TwoServed(b: Backend, msgs: seq<string>)
    requires |msgs| == 2
    ensures var (first, s) := Turn(b, STARTED, msgs[0], CALM);
      var (second, end) := Turn(b, s, msgs[1], CALM);
      ServeAll(b, STARTED, msgs, Calm) == ([first, second], end)
  {
    hide Turn, ServeAll;
    NothingServed(b, STARTED);
    OneMoreServed(b, STARTED, [], msgs[0]);
    assert [] + [msgs[0]] == [msgs[0]] && [msgs[0]] + [msgs[1]] == msgs;
    var (first, s) := Turn(b, STARTED, msgs[0], CALM);
    assert [] + [first] == [first];
    assert ServeAll(b, STARTED, [msgs[0]], Calm) == ([first], s);
    OneMoreServed(b, STARTED, [msgs[0]], msgs[1]);
    var (second, end) := Turn(b, s, msgs[1], CALM);
    assert [first] + [second] == [first, second];
  }

  lemma DeadTurn(b: Backend, s: Service, buf: string)
    requires !s.up
    ensures Turn(b, s, buf, CALM) == (NoReply, s)
  {
  }

  lemma ZeroIsStored(b: Backend, zero: Manifest)
    requires WireSafe(zero) && zero.version == 0 && |FileText([zero])| < DB_MAX
    ensures var after := BackendDo(b, STARTED.disk, Enroll, zero, CALM).1;
      (if b.FileBackend? then after.file else after.tee.state) == Some(FileText([zero]))
  {
    hide WireSafe, FileText, Common, FileDo, OpteeDo, FileDoUnder;
    EmptyIsCommon();
    CalmFile(None, Enroll, zero);
    FileStep([], Enroll, zero);
    OpteeStep([], Enroll, zero);
    assert TM.Put([], zero) == [zero];
  }

  // ------------------------------------- telling the backends apart through the socket

  /** What both backends have in common while they cannot be told apart: the trusted manifests, the text
      of the latest decision, and whether trustd still runs. */
  datatype Shared = Shared(ms: TM.Store, last: Option<string>, up: bool)

  /** What a text that trustd reads makes of it. */
  function FollowText(s: Shared, buf: string): Shared {
    match RequestIn(buf)
    case Some(q) => Shared(Trustd.Next(s.ms, q.cmd, q.m), s.last, q.m.version >= 1)
    case None =>
      match D.ParseDecisionMessage(buf)
      case None => s
      case Some(d) => s.(last := Some(D.DecisionText(d)))
  }

  /** ... and a message. */
  function Follow(s: Shared, message: string): Shared {
    if !s.up || message == "" then s else FollowText(s, Received(message))
  }

  function FollowAll(start: Shared, msgs: seq<string>): Shared
    decreases |msgs|
  {
    if msgs == [] then start else Follow(FollowAll(start, msgs[..|msgs| - 1]), msgs[|msgs| - 1])
  }

  /** The texts that a client cannot tell the backends apart with: requests both have room for,
      decisions both have room for, reports of at most one artifact, and decision reports of a line
      that fits the file backend's buffer. */
  predicate AlikeText(s: Shared, buf: string) {
    match RequestIn(buf)
    case Some(q) => q.m.version <= 0 || Agreeable(s.ms, q.cmd, q.m)
    case None =>
      if CommandOf(buf).Some? then true
      else if "REPORT_DECISION" <= buf then s.last.None? || |s.last.value| <= 510
      else if "REPORT" <= buf then |s.ms| <= 1
      else
        match D.ParseDecisionMessage(buf)
        case None => true
        case Some(d) => |D.DecisionText(d)| <= 511
  }

  predicate Alike(s: Shared, message: string) {
    !s.up || message == "" || AlikeText(s, Received(message))
  }

  predicate AllAlike(start: Shared, msgs: seq<string>) {
    forall k | 0 <= k < |msgs| :: Alike(FollowAll(start, msgs[..k]), msgs[k])
  }

  /** The log ends in the line of the latest decision. */
  predicate LogEnds(log: Option<string>, last: Option<string>) {
    match last
    case None => log.None?
    case Some(text) =>
      log.Some? && |log.value| > |text| &&
      var n := |log.value| - |text| - 1;
      log.value == log.value[..n] + (text + "\n") && D.Closed(log.value[..n])
  }

  predicate IsDecisionText(text: string) {
    All(text, IsPlain) && 0 < |text| && !IsSpace(text[0])
  }

  /** Both backends hold what is shared. */
  predicate Twins(f: Disk, o: Disk, s: Shared) {
    Common(s.ms) && f.file == Bytes(s.ms) && o.tee.state == Bytes(s.ms) &&
    o.tee.decision == s.last && LogEnds(f.log, s.last) &&
    (s.last.Some? ==> IsDecisionText(s.last.value) && |s.last.value| <= 511)
  }

  lemma ManifestsAlike(f: Disk, o: Disk, s: Shared, buf: string)
    requires s.up && Twins(f, o, s) && RequestIn(buf).Some?
    ensures var q := RequestIn(buf).value;
      var (fr, f'), (or, o') := Serve(FileBackend, f, buf, CALM), Serve(OpteeBackend, o, buf, CALM);
      && (fr == or <==> AlikeText(s, buf))
      && (AlikeText(s, buf) && q.m.version >= 1 ==> Twins(f', o', FollowText(s, buf)))
  {
    hide Serve, ParseManifestMessage, FileDo, FileDoUnder, OpteeDo, WireSafe, Common, Bytes, Agreeable, Next, LogEnds,
      IsDecisionText;
    var q := RequestIn(buf).value;
    ManifestServed(FileBackend, f, buf, CALM);
    ManifestServed(OpteeBackend, o, buf, CALM);
    ParsedMessageIsWireSafe(buf, CommandName(q.cmd));
    CalmFile(f.file, q.cmd, q.m);
    StepAgreesIff(s.ms, q.cmd, q.m);
    SuccessAgreesIff(s.ms, q.cmd, q.m);
  }

  /** The reply only tells success: from version 1 on that is enough to tell the outcomes apart. */
  lemma SuccessAgreesIff(ms: TM.Store, cmd: Command, m: Manifest)
    requires Common(ms) && WireSafe(m)
    ensures m.version >= 1 ==>
      ((FileDo(Bytes(ms), cmd, m).0 == 0 <==> OpteeDo(Bytes(ms), cmd, m).0 == 0) <==> Agreeable(ms, cmd, m))
  {
    hide FileDo, OpteeDo, WireSafe, FileText, TM.Put, TM.Find, Common, Bytes, Room, UpdateAllowed;
    FileStep(ms, cmd, m);
    OpteeStep(ms, cmd, m);
  }

  lemma ReportsAlike(f: Disk, o: Disk, s: Shared)
    requires Twins(f, o, s)
    ensures StateReport(FileBackend, f, CALM) == StateReport(OpteeBackend, o, CALM) <==> |s.ms| <= 1
  {
    hide Common, Bytes, FileReport, OpteeReport, LogEnds, IsDecisionText;
    ReportsAgreeIff(s.ms);
  }

  lemma DecisionReportsAlike(f: Disk, o: Disk, s: Shared)
    requires Twins(f, o, s)
    ensures DecisionReport(FileBackend, f, CALM) == DecisionReport(OpteeBackend, o, CALM)
       <==> s.last.None? || |s.last.value| <= 510
  {
    hide Common, Bytes, D.ReportedByFile, CStr, IsPlain;
    if s.last.None? {
      NoLog();
    } else {
      var text, log := s.last.value, f.log.value;
      D.LastLineIsReported(log[..|log| - |text| - 1], text, 512);
      PlainIsText(text);
    }
  }

  lemma NoLog()
    ensures D.ReportedByFile(None, 512) == None
  {
  }

  lemma PlainIsText(text: string)
    requires All(text, IsPlain)
    ensures CStr(text) == text
  {
    forall k | 0 <= k < |text| ensures text[k] != NUL { assert IsPlain(text[k]); }
    CStrOf(text, "");
  }

  lemma TextIsText(d: D.Decision)
    requires D.DecisionSafe(d)
    ensures IsDecisionText(D.DecisionText(d))
  {
    hide D.DecisionText, D.DecisionSafe, IsPlain;
    D.DecisionTextShape(d);
  }

  lemma LogGrows(log: Option<string>, last: Option<string>, text: string)
    requires LogEnds(log, last)
    ensures LogEnds(Some(D.LogText(log) + (text + "\n")), Some(text))
  {
    var before := D.LogText(log);
    var all := before + (text + "\n");
    assert all[..|all| - |text| - 1] == before;
  }

  /** What recording a decision does on a calm file system. */
  lemma Recorded(b: Backend, disk: Disk, buf: string, d: D.Decision)
    requires D.ParseDecisionMessage(buf) == Some(d)
    ensures Serve(b, disk, buf, CALM)
         == if b.FileBackend? then (Ok, disk.(log := Some(D.LogText(disk.log) + (D.DecisionText(d) + "\n"))))
            else if |D.DecisionText(d)| > 511 then (Err, disk)
            else (Ok, disk.(tee := disk.tee.(decision := Some(D.DecisionText(d)))))
  {
    hide D.DecisionText, Serve, HandleManifest, DecisionReport, StateReport, D.LogText, D.FromFields, Scan;
    DecisionIsOther(buf);
    OtherServed(b, disk, buf, CALM);
  }

  lemma DecisionIsOther(buf: string)
    requires D.COMMAND <= buf
    ensures CommandOf(buf).None? && !("REPORT" <= buf) && !("REPORT_DECISION" <= buf)
  {
    assert buf[0] == 'R' && buf[2] == 'C';
  }

  lemma DecisionsAlike(f: Disk, o: Disk, s: Shared, buf: string)
    requires s.up && Twins(f, o, s) && D.ParseDecisionMessage(buf).Some?
    ensures var (fr, f'), (or, o') := Serve(FileBackend, f, buf, CALM), Serve(OpteeBackend, o, buf, CALM);
      && (fr == or <==> AlikeText(s, buf))
      && (AlikeText(s, buf) ==> Twins(f', o', FollowText(s, buf)))
  {
    hide Serve, Common, Bytes, D.DecisionText, IsDecisionText, LogEnds, Scan, D.FromFields;
    var d := D.ParseDecisionMessage(buf).value;
    D.ParsedDecisionIsSafe(buf);
    TextIsText(d);
    Recorded(FileBackend, f, buf, d);
    Recorded(OpteeBackend, o, buf, d);
    LogGrows(f.log, s.last, D.DecisionText(d));
    DecisionIsOther(buf);
  }

  /** One text on both backends: the replies are equal exactly for the texts above, and then the
      backends still hold the same. */
  lemma MessageAlikeIff(f: Disk, o: Disk, s: Shared, buf: string)
    requires s.up && Twins(f, o, s)
    ensures var (fr, f'), (or, o') := Serve(FileBackend, f, buf, CALM), Serve(OpteeBackend, o, buf, CALM);
      && (fr == or <==> AlikeText(s, buf))
      && (AlikeText(s, buf) && FollowText(s, buf).up ==> Twins(f', o', FollowText(s, buf)))
    ensures FollowText(s, buf).up <==> !Fatal(buf)
  {
    hide Serve, Twins, ParseManifestMessage, Agreeable, Next, D.ParseDecisionMessage, DecisionReport, StateReport;
    if RequestIn(buf).Some? {
      ManifestsAlike(f, o, s, buf);
    } else if CommandOf(buf).Some? {
      ManifestServed(FileBackend, f, buf, CALM);
      ManifestServed(OpteeBackend, o, buf, CALM);
      ManifestIsNoDecision(buf);
    } else if D.ParseDecisionMessage(buf).Some? {
      DecisionsAlike(f, o, s, buf);
    } else {
      OtherServed(FileBackend, f, buf, CALM);
      OtherServed(OpteeBackend, o, buf, CALM);
      ReportsAlike(f, o, s);
      DecisionReportsAlike(f, o, s);
    }
  }

  lemma ManifestIsNoDecision(buf: string)
    requires CommandOf(buf).Some?
    ensures D.ParseDecisionMessage(buf).None?
  {
    hide Scan, D.FromFields;
    if D.COMMAND <= buf {
      DecisionIsOther(buf);
    }
  }

  /** One turn on both backends. */
  lemma TurnAlikeIff(f: Service, o: Service, s: Shared, message: string)
    requires f.up == o.up == s.up && (s.up ==> Twins(f.disk, o.disk, s))
    ensures var (fr, f'), (or, o') := Turn(FileBackend, f, message, CALM), Turn(OpteeBackend, o, message, CALM);
      && (fr == or <==> Alike(s, message))
      && (Alike(s, message) ==> var s' := Follow(s, message);
            f'.up == o'.up == s'.up && (s'.up ==> Twins(f'.disk, o'.disk, s')))
  {
    hide Serve, Twins, AlikeText, FollowText, Fatal;
    if s.up && message != "" {
      MessageAlikeIff(f.disk, o.disk, s, Received(message));
      NoReplyIff(FileBackend, f.disk, Received(message), CALM);
      NoReplyIff(OpteeBackend, o.disk, Received(message), CALM);
    }
  }

  lemma AllAlikeSnoc(start: Shared, msgs: seq<string>)
    requires msgs != []
    ensures var n := |msgs| - 1;
      AllAlike(start, msgs) <==> AllAlike(start, msgs[..n]) && Alike(FollowAll(start, msgs[..n]), msgs[n])
  {
    hide Alike, FollowAll;
    var n := |msgs| - 1;
    assert forall k | 0 <= k < n :: msgs[..n][..k] == msgs[..k] && msgs[..n][k] == msgs[k];
    if AllAlike(start, msgs) {
      forall k | 0 <= k < n ensures Alike(FollowAll(start, msgs[..n][..k]), msgs[..n][k]) {
        assert Alike(FollowAll(start, msgs[..k]), msgs[k]);
      }
    }
    if AllAlike(start, msgs[..n]) && Alike(FollowAll(start, msgs[..n]), msgs[n]) {
      forall k | 0 <= k < |msgs| ensures Alike(FollowAll(start, msgs[..k]), msgs[k]) {
        if k < n {
          assert Alike(FollowAll(start, msgs[..n][..k]), msgs[..n][k]);
        }
      }
    }
  }

  /** The backends cannot be told apart through the socket by any run of messages whatever -- requests,
      reports, decisions, garbage, empty and overlong ones, and what follows trustd's end -- from any
      stores that hold the same, if and only if each message is one of those above where it is sent.
      Until trustd's end the stores then still hold the same. */
  lemma {:induction false} IndistinguishableOnTheWire(f: Service, o: Service, s: Shared, msgs: seq<string>)
    requires f.up == o.up == s.up && (s.up ==> Twins(f.disk, o.disk, s))
    ensures ServeAll(FileBackend, f, msgs, Calm).0 == ServeAll(OpteeBackend, o, msgs, Calm).0 <==> AllAlike(s, msgs)
    ensures AllAlike(s, msgs) ==>
      var f', o', s' := ServeAll(FileBackend, f, msgs, Calm).1, ServeAll(OpteeBackend, o, msgs, Calm).1, FollowAll(s, msgs);
      f'.up == o'.up == s'.up && (s'.up ==> Twins(f'.disk, o'.disk, s'))
    decreases |msgs|
  {
    hide Turn, Twins, Alike, Follow, AllAlike;
    if msgs == [] {
      NothingIsAlike(s);
    } else {
      var n := |msgs| - 1;
      IndistinguishableOnTheWire(f, o, s, msgs[..n]);
      AllAlikeSnoc(s, msgs);
      var fs, os, ss := ServeAll(FileBackend, f, msgs[..n], Calm), ServeAll(OpteeBackend, o, msgs[..n], Calm),
        FollowAll(s, msgs[..n]);
      OneMoreServed(FileBackend, f, msgs[..n], msgs[n]);
      OneMoreServed(OpteeBackend, o, msgs[..n], msgs[n]);
      assert msgs == msgs[..n] + [msgs[n]];
      if AllAlike(s, msgs[..n]) {
        TurnAlikeIff(fs.1, os.1, ss, msgs[n]);
        SameLast(fs.0, Turn(FileBackend, fs.1, msgs[n], CALM).0, Turn(OpteeBackend, os.1, msgs[n], CALM).0);
      } else {
        assert ServeAll(FileBackend, f, msgs, Calm).0[..n] == fs.0 && ServeAll(OpteeBackend, o, msgs, Calm).0[..n] == os.0;
      }
    }
  }

  lemma NothingIsAlike(s: Shared)
    ensures AllAlike(s, [])
  {
  }

  lemma SameLast(replies: seq<Reply>, a: Reply, b: Reply)
    ensures replies + [a] == replies + [b] <==> a == b
  {
    assert (replies + [a])[|replies|] == a && (replies + [b])[|replies|] == b;
  }

  /** Two empty services hold the same: nothing. */
  const NOTHING := Shared([], None, true)

  /** A message of a small deployment: it is about one of its artifacts, no plain REPORT, and no decision
      longer than the file backend's line. */
  predicate Ordinary(message: string, ids: set<string>) {
    var buf := Received(message);
    (RequestIn(buf).Some? ==> RequestIn(buf).value.m.artifactId in ids) &&
    ("REPORT" <= buf ==> "REPORT_DECISION" <= buf) &&
    (D.ParseDecisionMessage(buf).Some? ==> |D.DecisionText(D.ParseDecisionMessage(buf).value)| <= 510)
  }

  /** What is shared in such a deployment. */
  predicate Small(s: Shared, ids: set<string>) {
    s.up ==> Common(s.ms) && (forall k | 0 <= k < |s.ms| :: s.ms[k].artifactId in ids) &&
             (s.last.Some? ==> |s.last.value| <= 510)
  }

  lemma OrdinaryIsAlike(s: Shared, message: string, ids: set<string>)
    requires Small(s, ids) && Ordinary(message, ids) && |ids| <= 8
    ensures Alike(s, message) && Small(Follow(s, message), ids)
  {
    hide ParseManifestMessage, D.ParseDecisionMessage, D.DecisionText, Common, Agreeable, Next, FileText, WireSafe;
    var buf := Received(message);
    if s.up && RequestIn(buf).Some? {
      var q := RequestIn(buf).value;
      ParsedMessageIsWireSafe(buf, CommandName(q.cmd));
      if q.m.version >= 1 {
        StepAmong(s.ms, q, ids);
        StepAgreesIff(s.ms, q.cmd, q.m);
      }
    }
  }

  lemma {:induction false} OrdinaryAreAlike(s: Shared, msgs: seq<string>, ids: set<string>)
    requires Small(s, ids) && |ids| <= 8 && forall k | 0 <= k < |msgs| :: Ordinary(msgs[k], ids)
    ensures AllAlike(s, msgs) && Small(FollowAll(s, msgs), ids)
    decreases |msgs|
  {
    hide Ordinary, Alike, Small, Follow, AllAlike;
    if msgs == [] {
      NothingIsAlike(s);
    } else {
      var n := |msgs| - 1;
      assert forall k | 0 <= k < n :: msgs[..n][k] == msgs[k];
      OrdinaryAreAlike(s, msgs[..n], ids);
      OrdinaryIsAlike(FollowAll(s, msgs[..n]), msgs[n], ids);
      AllAlikeSnoc(s, msgs);
    }
  }

  /** A deployment of at most eight artifacts: whatever is sent to trustd, without plain REPORTs and
      overlong decisions, the replies do not tell which backend it runs on. */
  lemma EightArtifactsOnTheWire(f: Service, o: Service, s: Shared, msgs: seq<string>, ids: set<string>)
    requires f.up == o.up == s.up && (s.up ==> Twins(f.disk, o.disk, s))
    requires Small(s, ids) && |ids| <= 8 && forall k | 0 <= k < |msgs| :: Ordinary(msgs[k], ids)
    ensures ServeAll(FileBackend, f, msgs, Calm).0 == ServeAll(OpteeBackend, o, msgs, Calm).0
  {
    hide Ordinary, Small, Twins, ServeAll, AllAlike;
    OrdinaryAreAlike(s, msgs, ids);
    IndistinguishableOnTheWire(f, o, s, msgs);
  }

  // --------------------------------------------------------------- the daemon

  class Daemon {
    const backend: Backend
    const files: StateFiles
    const ta: TaEntry.TrustedApplication
    /** Until the event writer aborts. */
    var up: bool

    constructor (backend: Backend)
      ensures this.backend == backend && fresh(files) && fresh(ta)
      ensures Now() == STARTED
    {
      this.backend := backend;
      files := new StateFiles();
      ta := new TaEntry.TrustedApplication();
      up := true;
    }

    ghost function OnDisk(): Disk
      reads files, ta
    {
      Disk(files.state, files.decisions, ta.Stored())
    }

    ghost function Now(): Service
      reads this, files, ta
    {
      Service(OnDisk(), up)
    }

    /** `file_enroll` */
    method FileEnroll(m: Manifest, io: Io) returns (ret: int)
      modifies files
      ensures (ret, files.state) == FileDoUnder(old(files.state), Enroll, m, io) && files.decisions == old(files.decisions)
    {
      hide StoreSucceeds, Installed, Snapshots, EntriesOf, TM.Find;
      ret := files.Store(m, io.store);
    }

    /** `file_update` */
    method FileUpdate(incoming: Manifest, io: Io) returns (ret: int)
      modifies files
      ensures (ret, files.state) == FileDoUnder(old(files.state), Update, incoming, io)
      ensures files.decisions == old(files.decisions)
    {
      hide StoreSucceeds, Installed, EntriesOf, TM.Find, UpdateAllowed;
      var trusted := files.LoadArtifact(incoming.artifactId, io.opens);
      if trusted.None? {
        return -1;
      }
      if !UpdateAllowed(trusted.value, incoming) {
        return -2;
      }
      ret := FileEnroll(incoming, io);
    }

    /** `file_verify` */
    method FileVerify(incoming: Manifest, io: Io) returns (ret: int)
      ensures (ret, files.state) == FileDoUnder(files.state, Verify, incoming, io)
    {
      hide StoreSucceeds, Installed, EntriesOf, TM.Find;
      var trusted := files.LoadArtifact(incoming.artifactId, io.opens);
      ret := if trusted.Some? && incoming == trusted.value then 0 else -1;
    }

    /** `optee_enroll`, `optee_update` and `optee_verify` */
    method OpteeInvoke(cmd: Command, m: Manifest) returns (ret: int)
      modifies ta
      ensures (ret, ta.state) == OpteeDo(old(ta.state), cmd, m) && ta.decision == old(ta.decision)
    {
      hide EnrollCommand, UpdateCommand, VerifyCommand, LatestState;
      var res, _ := ta.InvokeCommand(TeeCommand(cmd), Input(StateText(m)));
      ret := Errno(res);
    }

    /** `trust_backend_enroll`, `trust_backend_update` and `trust_backend_verify` */
    method Do(cmd: Command, m: Manifest, io: Io) returns (ret: int)
      modifies files, ta
      ensures (ret, OnDisk()) == BackendDo(backend, old(OnDisk()), cmd, m, io)
    {
      hide FileDoUnder, OpteeDo;
      if backend.OpteeBackend? {
        ret := OpteeInvoke(cmd, m);
      } else {
        match cmd
        case Enroll => ret := FileEnroll(m, io);
        case Update => ret := FileUpdate(m, io);
        case Verify => ret := FileVerify(m, io);
      }
    }

    /** `handle_enroll`, `handle_update` and `handle_verify`, with the abort of `trustd_manifest_event`. */
    method Handle(cmd: Command, buf: string, io: Io) returns (reply: Reply)
      modifies this`up, files, ta
      ensures (reply, OnDisk()) == HandleManifest(backend, old(OnDisk()), cmd, buf, io)
      ensures up == (old(up) && reply != NoReply)
    {
      hide BackendDo, ParseManifestMessage;
      var m := ParseManifestMessage(buf, CommandName(cmd));
      if m.None? {
        return Err;
      }
      var ret := Do(cmd, m.value, io);
      if m.value.version <= 0 {
        up := false;
        return NoReply;
      }
      reply := if ret == 0 then Ok else Err;
    }

    /** One turn of trustd's main loop, if there is still one: one read, and nothing for an empty one. */
    method ServeOne(message: string, io: Io) returns (reply: Reply)
      modifies this`up, files, ta
      ensures (reply, Now()) == Turn(backend, old(Now()), message, io)
    {
      hide HandleManifest, HandleDecision, DecisionReport, StateReport, ServeAll;
      if !up || message == "" {
        return NoReply;
      }
      var buf := Received(message);
      OtherAnswers(backend, OnDisk(), buf, io);
      if "ENROLL" <= buf {
        reply := Handle(Enroll, buf, io);
      } else if "VERIFY" <= buf {
        reply := Handle(Verify, buf, io);
      } else if "REPORT_DECISION" <= buf {
        reply := HandleReportDecision(io);
      } else if "REPORT" <= buf {
        reply := HandleReport(io);
      } else if "UPDATE" <= buf {
        reply := Handle(Update, buf, io);
      } else if "RECORD_DECISION" <= buf {
        reply := HandleRecordDecision(buf, io);
      } else {
        reply := Err;
      }
    }

    /** `handle_report` */
    method HandleReport(io: Io) returns (reply: Reply)
      modifies ta
      ensures OnDisk() == old(OnDisk())
      ensures reply == StateReport(backend, OnDisk(), io)
    {
      hide LatestState, EntriesOf, RecordText;
      if backend.OpteeBackend? {
        var res, out := ta.InvokeCommand(CMD_REPORT, Output(256, ""));
        return if res == Success && out.Output? then StateIs(out.text) else Err;
      }
      var m := files.Load(io.opens);
      if m.None? {
        return Err;
      }
      var state := RecordText(m.value);
      reply := if |state| < 256 then StateIs(state) else Err;
    }

    /** `handle_record_decision` */
    method HandleRecordDecision(buf: string, io: Io) returns (reply: Reply)
      modifies files, ta
      ensures (reply, OnDisk()) == HandleDecision(backend, old(OnDisk()), buf, io)
    {
      hide D.ParseDecisionMessage, D.DecisionText, Flushed, Fitting, Takes;
      var d := D.ParseDecisionMessage(buf);
      if d.None? {
        return Err;
      }
      if backend.OpteeBackend? {
        var record := D.OpteeRecord(d.value);
        if record.None? {
          return Err;
        }
        TextIsNotEmpty(d.value);
        var res, _ := ta.InvokeCommand(CMD_RECORD_DECISION, Input(record.value));
        return if res == Success then Ok else Err;
      }
      var ret := files.AppendDecision(d.value, io.logOpens, io.log);
      reply := if ret == 0 then Ok else Err;
    }

    /** `handle_report_decision` */
    method HandleReportDecision(io: Io) returns (reply: Reply)
      modifies ta
      ensures OnDisk() == old(OnDisk())
      ensures reply == DecisionReport(backend, OnDisk(), io)
    {
      hide D.ReportedByFile, CStr;
      if backend.OpteeBackend? {
        var res, out := ta.InvokeCommand(CMD_REPORT_DECISION, Output(512, ""));
        return if res == Success && out.Output? then DecisionIs(CStr(out.text)) else Err;
      }
      var text := files.ReportDecision(512, io.logOpens);
      reply := if text.Some? then DecisionIs(text.value) else Err;
    }
  }

  /** Only the commands about manifests end trustd. */
  lemma OtherAnswers(b: Backend, disk: Disk, buf: string, io: Io)
    ensures DecisionReport(b, disk, io) != NoReply && StateReport(b, disk, io) != NoReply
    ensures HandleDecision(b, disk, buf, io).0 != NoReply
  {
    hide D.ParseDecisionMessage, D.DecisionLine, D.OpteeRecord, Flushed, Fitting, Takes, DecisionReport, StateReport;
    ReportsAnswer(b, disk, io);
  }

  lemma TextIsNotEmpty(d: D.Decision)
    ensures D.DecisionText(d) != ""
  {
  }

  // --------------------------------------------------------------- decisions

  /** A decision recorded through the Trusted Application reaches the client unchanged exactly when
      its text has at most 502 characters. */
  lemma OpteeDecisionEndToEnd(st: Storage, d: D.Decision)
    requires D.DecisionSafe(d) && D.OpteeRecord(d).Some?
    ensures var (res, _, after) := Invoke(st, CMD_RECORD_DECISION, Input(D.OpteeRecord(d).value));
      var (res', out, end) := Invoke(after, CMD_REPORT_DECISION, Output(512, ""));
      && res == Success && after.state == st.state && res' == Success && end == after
      && out.Output? && out.text == D.DecisionText(d)
      && (D.ClientReads(D.DecisionReply(out.text)) == Some(D.DecisionText(d)) <==> |D.DecisionText(d)| <= 502)
  {
    hide D.DecisionText, D.ClientReads, D.DecisionSafe;
    D.DecisionTextShape(d);
    D.ReplyRoundTripIff(D.DecisionText(d));
  }

  /** What the log of messages and replies says: the latest decision that was answered with success. */
  function LatestDecision(start: Option<D.Decision>, msgs: seq<string>, replies: seq<Reply>): Option<D.Decision>
    requires |msgs| == |replies|
    decreases |msgs|
  {
    if msgs == [] then start
    else
      var n := |msgs| - 1;
      if D.ParseDecisionMessage(Received(msgs[n])).Some? && replies[n] == Ok
      then D.ParseDecisionMessage(Received(msgs[n]))
      else LatestDecision(start, msgs[..n], replies[..n])
  }

  /** The backend holds the latest decision. */
  predicate HoldsDecision(b: Backend, disk: Disk, last: Option<D.Decision>) {
    var text := if last.None? then None else Some(D.DecisionText(last.value));
    (last.Some? ==> D.DecisionSafe(last.value) && (b.OpteeBackend? ==> |D.DecisionText(last.value)| <= 511)) &&
    if b.FileBackend? then LogEnds(disk.log, text) else disk.tee.decision == text
  }

  lemma RecordHolds(b: Backend, disk: Disk, buf: string, last: Option<D.Decision>)
    requires HoldsDecision(b, disk, last) && D.ParseDecisionMessage(buf).Some?
    ensures var (reply, after) := Serve(b, disk, buf, CALM);
      HoldsDecision(b, after, if reply == Ok then D.ParseDecisionMessage(buf) else last)
  {
    hide Serve, D.DecisionText, D.DecisionSafe, LogEnds, Scan, D.FromFields, D.LogText;
    var d := D.ParseDecisionMessage(buf).value;
    D.ParsedDecisionIsSafe(buf);
    Recorded(b, disk, buf, d);
    if b.FileBackend? {
      LogGrows(disk.log, if last.None? then None else Some(D.DecisionText(last.value)), D.DecisionText(d));
    }
  }

  lemma OthersKeepDecisions(b: Backend, disk: Disk, buf: string)
    requires D.ParseDecisionMessage(buf).None?
    ensures var after := Serve(b, disk, buf, CALM).1;
      after.log == disk.log && after.tee.decision == disk.tee.decision
  {
    hide FileDoUnder, OpteeDo, ParseManifestMessage, D.ParseDecisionMessage, DecisionReport, StateReport;
  }

  lemma {:induction false} LatestIsHeld(b: Backend, start: Service, held: Option<D.Decision>, msgs: seq<string>)
    requires HoldsDecision(b, start.disk, held)
    ensures var (replies, s) := ServeAll(b, start, msgs, Calm);
      HoldsDecision(b, s.disk, LatestDecision(held, msgs, replies))
    decreases |msgs|
  {
    hide Serve, HoldsDecision, D.ParseDecisionMessage;
    if msgs != [] {
      var n := |msgs| - 1;
      LatestIsHeld(b, start, held, msgs[..n]);
      var (replies, s) := ServeAll(b, start, msgs[..n], Calm);
      var all := ServeAll(b, start, msgs, Calm).0;
      assert all[..n] == replies;
      var buf := Received(msgs[n]);
      if s.up && msgs[n] != "" {
        if D.ParseDecisionMessage(buf).Some? {
          RecordHolds(b, s.disk, buf, LatestDecision(held, msgs[..n], replies));
        } else {
          OthersKeepDecisions(b, s.disk, buf);
          HeldByLog(b, s.disk, Serve(b, s.disk, buf, CALM).1, LatestDecision(held, msgs[..n], replies));
        }
      }
    }
  }

  lemma HeldByLog(b: Backend, disk: Disk, after: Disk, last: Option<D.Decision>)
    requires HoldsDecision(b, disk, last) && after.log == disk.log && after.tee.decision == disk.tee.decision
    ensures HoldsDecision(b, after, last)
  {
    hide D.DecisionText, D.DecisionSafe, LogEnds;
  }

  /** What REPORT_DECISION hands to the client when a decision is held. */
  lemma HeldIsReported(b: Backend, disk: Disk, d: D.Decision)
    requires HoldsDecision(b, disk, Some(d))
    ensures var reply, text := DecisionReport(b, disk, CALM), D.DecisionText(d);
      (reply.DecisionIs? && D.ClientReads(D.DecisionReply(reply.text)) == Some(text)) <==> |text| <= 502
  {
    hide D.DecisionText, D.DecisionSafe, D.ClientReads, D.ReportedByFile, CStr, IsPlain;
    var text, reply := D.DecisionText(d), DecisionReport(b, disk, CALM);
    D.DecisionTextShape(d);
    D.ReplyRoundTripIff(text);
    PlainIsText(text);
    if reply.DecisionIs? {
      D.ClientGetsAtMost502(reply.text);
    }
    if b.FileBackend? && |text| <= 510 {
      D.LastLineIsReported(disk.log.value[..|disk.log.value| - |text| - 1], text, 512);
    }
  }

  lemma DecisionReportServed(b: Backend, s: Service, io: Io)
    requires s.up
    ensures Turn(b, s, "REPORT_DECISION\n", io) == (DecisionReport(b, s.disk, io), s)
  {
    hide HandleManifest, HandleDecision, DecisionReport, Serve;
    var buf := "REPORT_DECISION\n";
    assert Received(buf) == buf;
    assert buf[..15] == "REPORT_DECISION" && "REPORT_DECISION" <= buf;
    assert buf[0] == 'R' && CommandOf(buf).None?;
    OtherServed(b, s.disk, buf, io);
  }

  /** REPORT_DECISION returns the latest decision in both backends: whatever messages were sent, while
      trustd still runs the client reads the text of the latest decision that was recorded with
      success, if and only if it has at most 502 characters; and nothing when there is none. */
  lemma LatestDecisionReachesClient(b: Backend, start: Service, held: Option<D.Decision>, msgs: seq<string>)
    requires HoldsDecision(b, start.disk, held) && ServeAll(b, start, msgs, Calm).1.up
    ensures var (replies, s) := ServeAll(b, start, msgs, Calm);
      var reply := Turn(b, s, "REPORT_DECISION\n", CALM).0;
      match LatestDecision(held, msgs, replies)
      case None => reply == Err
      case Some(d) =>
        var text := D.DecisionText(d);
        (reply.DecisionIs? && D.ClientReads(D.DecisionReply(reply.text)) == Some(text)) <==> |text| <= 502
  {
    hide D.DecisionText, D.ClientReads, Turn, ServeAll, LatestDecision, D.ReportedByFile;
    var (replies, s) := ServeAll(b, start, msgs, Calm);
    LatestIsHeld(b, start, held, msgs);
    DecisionReportServed(b, s, CALM);
    NoLog();
    if LatestDecision(held, msgs, replies).Some? {
      HeldIsReported(b, s.disk, LatestDecision(held, msgs, replies).value);
    }
  }

  /** A small deployment from its very first start on: over any run of ordinary messages both backends
      give the same replies, and until trustd's end they hold the same bytes, the same latest decision,
      and the one that the log of messages and replies says. */
  lemma FromTheFirstStart(msgs: seq<string>, ids: set<string>)
    requires |ids| <= 8 && forall k | 0 <= k < |msgs| :: Ordinary(msgs[k], ids)
    ensures var (fr, f), (or, o) := ServeAll(FileBackend, STARTED, msgs, Calm), ServeAll(OpteeBackend, STARTED, msgs, Calm);
      && fr == or && f.up == o.up
      && (f.up ==> f.disk.file == o.disk.tee.state &&
                   HoldsDecision(FileBackend, f.disk, LatestDecision(None, msgs, fr)) &&
                   HoldsDecision(OpteeBackend, o.disk, LatestDecision(None, msgs, fr)))
  {
    hide Ordinary, ServeAll, AllAlike, HoldsDecision, LatestDecision, Common, Bytes, FollowAll, Small;
    FirstStart(ids);
    OrdinaryAreAlike(NOTHING, msgs, ids);
    IndistinguishableOnTheWire(STARTED, STARTED, NOTHING, msgs);
    LatestIsHeld(FileBackend, STARTED, None, msgs);
    LatestIsHeld(OpteeBackend, STARTED, None, msgs);
  }

  lemma FirstStart(ids: set<string>)
    ensures Twins(STARTED.disk, STARTED.disk, NOTHING) && Small(NOTHING, ids)
    ensures HoldsDecision(FileBackend, STARTED.disk, None) && HoldsDecision(OpteeBackend, STARTED.disk, None)
  {
    EmptyIsCommon();
  }
}
