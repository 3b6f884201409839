/** trustd's two backends, side by side and one by one. */
module Trustd {
  import opened CText
  import opened Manifests
  import opened Protocol
  import opened Streams
  import opened StateFile
  import opened TrustedState
  import D = Decisions
  import opened TaRecords
  import opened TaTokens
  import opened TaStore
  import TaMachine
  import TM = TrustMachine

  // ------------------------------------------------------------ file backend

  /** What the file system does while trustd handles one message: whether the state file opens for a
      look-up, the faults of a store, and whether and how far the decision log can be used. */
  datatype Io = Io(opens: bool, store: Faults, logOpens: bool, log: Device)

  const CALM := Io(true, NO_FAULTS, true, AMPLE)

  /** `file_enroll`, on whatever the file system does. */
  function EnrollUnder(content: Option<string>, m: Manifest, io: Io): (int, Option<string>) {
    if StoreSucceeds(content, m, io.store) then (0, Some(Installed(content, m, io.store))) else (-1, content)
  }

  /** `file_enroll`, `file_update` and `file_verify`: the return value and the file afterwards. */
  function FileDoUnder(content: Option<string>, cmd: Command, m: Manifest, io: Io): (int, Option<string>) {
    var trusted := TM.Find(EntriesOf(Opened(content, io.opens)), m.artifactId);
    match cmd
    case Enroll => EnrollUnder(content, m, io)
    case Update => (
      match trusted
      case None => (-1, content)
      case Some(t) => if UpdateAllowed(t, m) then EnrollUnder(content, m, io) else (-2, content))
    case Verify => (
      match trusted
      case None => (-1, content)
      case Some(t) => (if m == t then 0 else -1, content))
  }

  /** `tear_trusted_state_store` when no file operation fails. */
  function Stored(content: Option<string>, m: Manifest): Option<string> {
    Some(FileText(Merged(EntriesOf(content), m)))
  }

  /** The same three when no file operation fails. */
  function FileDo(content: Option<string>, cmd: Command, m: Manifest): (int, Option<string>) {
    match cmd
    case Enroll => (0, Stored(content, m))
    case Update => (
      match TM.Find(EntriesOf(content), m.artifactId)
      case None => (-1, content)
      case Some(t) => if UpdateAllowed(t, m) then (0, Stored(content, m)) else (-2, content))
    case Verify => (
      match TM.Find(EntriesOf(content), m.artifactId)
      case None => (-1, content)
      case Some(t) => (if m == t then 0 else -1, content))
  }

  lemma CalmFile(content: Option<string>, cmd: Command, m: Manifest)
    ensures FileDoUnder(content, cmd, m, CALM) == FileDo(content, cmd, m)
  {
    hide EntriesOf, Merged, FileText, StoreSucceeds, Installed, TM.Find, UpdateAllowed;
    StoreIsCompleteIff(content, m, NO_FAULTS);
  }

  /** Whatever the file system does, an ENROLL or UPDATE that fails leaves the file as it was, and one
      that succeeds and whose text fits the device leaves the new manifest for its artifact; a
      successful UPDATE then never lowers a version. */
  lemma FaultyWrites(content: Option<string>, cmd: Command, m: Manifest, io: Io)
    requires FileSafe(m) && cmd != Verify
    ensures var (ret, after) := FileDoUnder(content, cmd, m, io);
      && (ret != 0 ==> after == content)
      && (ret == 0 && Takes(io.store.device, |FileText(NewEntries(content, m, io.store))|) ==>
            TM.Find(EntriesOf(after), m.artifactId) == Some(m) &&
            (cmd == Update ==>
               var t := TM.Find(EntriesOf(content), m.artifactId);
               t.Some? && t.value.version < m.version && t.value.backend == m.backend))
  {
    hide EntriesOf, Merged, FileText, StoreSucceeds, Installed, TM.Find, FileSafe;
    StoreIsCompleteIff(content, m, io.store);
    var before := Opened(content, io.store.opens);
    StoreReadsBack(before, m);
    FindMerged(EntriesOf(before), m, m.artifactId);
    NoEntries();
    NothingRead(m);
  }

  /** What the three return on whatever the file system does: a VERIFY changes nothing and returns 0 exactly
      when the file opens and holds the manifest, an UPDATE only gets to its store when the file opens and
      the policy allows it. */
  lemma FaultyLookups(content: Option<string>, m: Manifest, io: Io)
    ensures FileDoUnder(content, Verify, m, io)
         == (if io.opens && TM.Find(EntriesOf(content), m.artifactId) == Some(m) then 0 else -1, content)
    ensures FileDoUnder(content, Enroll, m, io).0 in {0, -1}
    ensures var t := TM.Find(EntriesOf(content), m.artifactId);
      FileDoUnder(content, Update, m, io)
      == if !io.opens || t.None? then (-1, content)
         else if t.value.backend != m.backend || m.version <= t.value.version then (-2, content)
         else FileDoUnder(content, Enroll, m, io)
  {
    hide EntriesOf, StoreSucceeds, Installed, TM.Find;
    NoEntries();
    NothingRead(m);
  }

  // ---------------------------------------------------------- OP-TEE backend

  /** `manifest_to_state` into its 256-byte buffer. */
  function StateText(m: Manifest): string {
    RecordText(m)[..Min(|RecordText(m)|, 255)]
  }

  /** `tear_optee_result_to_errno` */
  function Errno(res: TeeResult): int {
    if res == Success then 0 else if res == Security then -2 else -1
  }

  function TeeCommand(cmd: Command): nat {
    match cmd case Enroll => CMD_ENROLL case Update => CMD_UPDATE case Verify => CMD_VERIFY
  }

  /** `optee_enroll`, `optee_update` and `optee_verify` on the state object. */
  function OpteeDo(obj: Option<string>, cmd: Command, m: Manifest): (int, Option<string>) {
    var (res, _, st) := Invoke(Storage(obj, None), TeeCommand(cmd), Input(StateText(m)));
    (Errno(res), st.state)
  }

  // --------------------------------------------------------------- agreement

  /** The bytes both backends hold for a list of manifests. */
  function Bytes(ms: TM.Store): Option<string> {
    if ms == [] then None else Some(FileText(ms))
  }

  /** The stores that both backends can hold. */
  predicate Common(ms: TM.Store) {
    TM.Distinct(ms) && |FileText(ms)| < DB_MAX && forall k | 0 <= k < |ms| :: WireSafe(ms[k]) && ms[k].version >= 0
  }

  predicate Room(ms: TM.Store, m: Manifest) {
    |FileText(TM.Put(ms, m))| < DB_MAX
  }

  function OpOf(ms: TM.Store, cmd: Command, m: Manifest): TM.Op {
    OpFor(cmd, m, Room(ms, m))
  }

  /** The records of the Trusted Application for a list of manifests. */
  function Texts(ms: TM.Store): (rs: seq<string>)
    ensures |rs| == |ms|
  {
    seq(|ms|, k requires 0 <= k < |ms| => RecordText(ms[k]))
  }

  lemma {:induction false} SameBytes(ms: TM.Store)
    ensures Serialise(Texts(ms)) == FileText(ms)
  {
    hide RecordText;
    if ms != [] {
      var r, rest := RecordText(ms[0]), FileText(ms[1..]);
      assert Texts(ms)[1..] == Texts(ms[1..]);
      SameBytes(ms[1..]);
      assert r + ("\n" + rest) == r + "\n" + rest;
    }
  }

  lemma RecordIsGood(m: Manifest)
    requires WireSafe(m) && m.version >= 0
    ensures Writable(RecordText(m)) && LineFree(RecordText(m)) && StateOf(RecordText(m)) == m
  {
    hide WireSafe, ParseState, RecordText;
    RecordTextShape(m);
    RecordIsParsed(m);
    OneLineIsLineFree(RecordText(m));
  }

  lemma OneLineIsLineFree(s: string)
    requires OnOneLine(s)
    ensures LineFree(s) && NUL !in s
  {
    forall k | 0 <= k < |s| ensures IsLineChar(s[k]) && s[k] != NUL { assert IsWordCharOrBlank(s[k]); }
  }

  /** A common store is a well-formed database of the Trusted Application, with the same bytes. */
  lemma CommonIsGood(ms: TM.Store)
    requires Common(ms)
    ensures GoodStore(Texts(ms)) && Parsed(Texts(ms)) == ms && Object(Texts(ms)) == Bytes(ms)
  {
    hide RecordText, WireSafe, ParseState, LineFree, Serialise, TM.Distinct;
    var rs := Texts(ms);
    forall k | 0 <= k < |rs| ensures Writable(rs[k]) && LineFree(rs[k]) && StateOf(rs[k]) == ms[k] {
      RecordIsGood(ms[k]);
    }
    SameBytes(ms);
    assert Parsed(rs) == ms;
  }

  /** ... and a state file that holds exactly these manifests. */
  lemma CommonIsRead(ms: TM.Store)
    requires Common(ms)
    ensures EntriesOf(Bytes(ms)) == ms && AllFileSafe(ms)
  {
    hide WireSafe, FileSafe, Entries;
    forall k | 0 <= k < |ms| ensures FileSafe(ms[k]) {
      WireSafeIsFileSafe(ms[k]);
    }
    EntriesOfText(ms);
  }

  lemma TextsCons(m: Manifest, ms: TM.Store)
    ensures Texts([m] + ms) == [RecordText(m)] + Texts(ms)
  {
    hide RecordText;
  }

  lemma HeadIsSafe(ms: TM.Store)
    requires Common(ms) && ms != []
    ensures WireSafe(ms[0]) && ms[0].version >= 0
  {
    hide WireSafe;
  }

  lemma {:induction false} TextsPut(ms: TM.Store, m: Manifest)
    requires Common(ms) && WireSafe(m) && m.version >= 0
    requires Records(Texts(ms)) && Writable(RecordText(m)) && StateOf(RecordText(m)) == m
    ensures PutRecord(Texts(ms), RecordText(m)) == Texts(TM.Put(ms, m))
  {
    hide RecordText, WireSafe, ParseState, Serialise, FileText, Texts, Common;
    if ms == [] {
      TextsCons(m, []);
      assert [m] + [] == [m];
    } else {
      assert WireSafe(ms[0]) && ms[0].version >= 0 by { HeadIsSafe(ms); }
      RecordIsGood(ms[0]);
      TextsCons(ms[0], ms[1..]);
      assert ms == [ms[0]] + ms[1..];
      assert Texts(ms)[1..] == Texts(ms[1..]);
      if ms[0].artifactId == m.artifactId {
        TextsCons(m, ms[1..]);
      } else {
        CommonTail(ms);
        TextsPut(ms[1..], m);
        TextsCons(ms[0], TM.Put(ms[1..], m));
      }
    }
  }

  lemma CommonTail(ms: TM.Store)
    requires Common(ms) && ms != []
    ensures Common(ms[1..])
  {
    hide WireSafe, FileLine;
    var rest := ms[1..];
    assert forall k | 0 <= k < |rest| :: rest[k] == ms[k + 1];
  }

  lemma PutIsCommon(ms: TM.Store, m: Manifest)
    requires Common(ms) && WireSafe(m) && m.version >= 0 && Room(ms, m)
    ensures Common(TM.Put(ms, m))
  {
    hide WireSafe, FileText;
    TM.DistinctPut(ms, m);
    TM.PutMembers(ms, m);
    var r := TM.Put(ms, m);
    forall k | 0 <= k < |r| ensures WireSafe(r[k]) && r[k].version >= 0 {
      assert r[k] in r;
    }
  }

  /** When the two backends answer alike, request by request: a negative version is accepted by
      the file backend only, and only the Trusted Application runs out of room. */
  predicate Agreeable(ms: TM.Store, cmd: Command, m: Manifest) {
    match cmd
    case Verify => true
    case Enroll => m.version >= 0 && Room(ms, m)
    case Update => (
      match TM.Find(ms, m.artifactId)
      case None => true
      case Some(t) => m.version >= 0 && (UpdateAllowed(t, m) ==> Room(ms, m)))
  }

  /** What trustd makes of a return value: only UPDATE tells a rollback from a failure. */
  datatype Outcome = Done | RolledBack | Failed

  function OutcomeOf(cmd: Command, ret: int): Outcome {
    if ret == 0 then Done else if cmd == Update && ret == -2 then RolledBack else Failed
  }

  function Next(ms: TM.Store, cmd: Command, m: Manifest): TM.Store {
    TM.Step(ms, OpOf(ms, cmd, m)).0
  }

  lemma FileStep(ms: TM.Store, cmd: Command, m: Manifest)
    requires Common(ms)
    ensures FileDo(Bytes(ms), cmd, m)
         == match cmd
            case Enroll => (0, Some(FileText(TM.Put(ms, m))))
            case Update => (
              match TM.Find(ms, m.artifactId)
              case None => (-1, Bytes(ms))
              case Some(t) =>
                if UpdateAllowed(t, m) then (0, Some(FileText(TM.Put(ms, m)))) else (-2, Bytes(ms)))
            case Verify => (
              match TM.Find(ms, m.artifactId)
              case None => (-1, Bytes(ms))
              case Some(t) => (if m == t then 0 else -1, Bytes(ms)))
  {
    hide TM.Find, TM.Put, Merged, EntriesOf, WireSafe, FileText, UpdateAllowed;
    CommonIsRead(ms);
    MergedIsPut(ms, m);
  }

  /** The text trustd passes on, as the Trusted Application reads it. */
  lemma StateTextIsRead(m: Manifest)
    requires WireSafe(m)
    ensures TaMachine.InputManifest(Input(StateText(m))) == if m.version >= 0 then Some(m) else None
    ensures m.version >= 0 ==> TaMachine.InputRecord(Input(StateText(m))) == RecordText(m)
  {
    hide WireSafe, ParseState, RecordText, CStr;
    RecordTextShape(m);
    RecordIsParsed(m);
    OneLineIsLineFree(RecordText(m));
    assert StateText(m) == RecordText(m);
    WritableIsItsText(RecordText(m));
  }

  lemma OpteeStep(ms: TM.Store, cmd: Command, m: Manifest)
    requires Common(ms) && WireSafe(m)
    ensures OpteeDo(Bytes(ms), cmd, m)
         == if m.version < 0 then (-1, Bytes(ms)) else
            match cmd
            case Enroll => if Room(ms, m) then (0, Bytes(TM.Put(ms, m))) else (-1, Bytes(ms))
            case Update => (
              match TM.Find(ms, m.artifactId)
              case None => (-1, Bytes(ms))
              case Some(t) =>
                if !UpdateAllowed(t, m) then (-2, Bytes(ms))
                else if Room(ms, m) then (0, Bytes(TM.Put(ms, m))) else (-1, Bytes(ms)))
            case Verify => (
              match TM.Find(ms, m.artifactId)
              case None => (-1, Bytes(ms))
              case Some(t) => (if m == t then 0 else -2, Bytes(ms)))
  {
    hide TM.Find, TM.Put, WireSafe, Common, UpdateAllowed, EnrollCommand, UpdateCommand, VerifyCommand, StateText, Bytes,
      LatestState, Room, InputText;
    if m.version < 0 {
      RefusedCommands(ms, m);
    } else {
      OpteeEnroll(ms, m);
      OpteeLookups(ms, m);
    }
  }

  lemma RefusedCommands(ms: TM.Store, m: Manifest)
    requires WireSafe(m) && m.version < 0
    ensures var p := Input(StateText(m));
      && Errno(EnrollCommand(Bytes(ms), p).0) == -1 && EnrollCommand(Bytes(ms), p).1 == Bytes(ms)
      && Errno(UpdateCommand(Bytes(ms), p).0) == -1 && UpdateCommand(Bytes(ms), p).1 == Bytes(ms)
      && Errno(VerifyCommand(Bytes(ms), p)) == -1
  {
    hide WireSafe, EnrollCommand, UpdateCommand, VerifyCommand, StateText, Bytes, TaMachine.InputManifest;
    StateTextIsRead(m);
    TaMachine.MalformedIsRefused(Bytes(ms), Input(StateText(m)));
  }

  lemma OpteeLookups(ms: TM.Store, m: Manifest)
    requires Common(ms) && WireSafe(m) && m.version >= 0
    ensures var p := Input(StateText(m));
      match TM.Find(ms, m.artifactId)
      case None =>
        VerifyCommand(Bytes(ms), p) == ItemNotFound && UpdateCommand(Bytes(ms), p) == (ItemNotFound, Bytes(ms))
      case Some(t) =>
        && VerifyCommand(Bytes(ms), p) == (if m == t then Success else Security)
        && UpdateCommand(Bytes(ms), p)
           == (if UpdateAllowed(t, m) then EnrollCommand(Bytes(ms), p) else (Security, Bytes(ms)))
  {
    hide TM.Find, WireSafe, Common, UpdateAllowed, EnrollCommand, UpdateCommand, VerifyCommand, StateText, Bytes,
      TaMachine.InputManifest, Texts, Parsed, Object, GoodStore, Records;
    CommonIsGood(ms);
    StateTextIsRead(m);
    TaMachine.VerifySimulates(Texts(ms), Input(StateText(m)));
    TaMachine.UpdateSimulates(Texts(ms), Input(StateText(m)));
  }

  lemma OpteeEnroll(ms: TM.Store, m: Manifest)
    requires Common(ms) && WireSafe(m) && m.version >= 0
    ensures EnrollCommand(Bytes(ms), Input(StateText(m)))
         == if Room(ms, m) then (Success, Bytes(TM.Put(ms, m))) else (ShortBuffer, Bytes(ms))
  {
    hide TM.Find, WireSafe, EnrollCommand, StateText, TaMachine.InputManifest, RecordText, FileText, Parsed, Serialise,
      GoodStore, Records, Common, Texts;
    CommonIsGood(ms);
    StateTextIsRead(m);
    TaMachine.GoodIsRecords(Texts(ms));
    RecordIsGood(m);
    TextsPut(ms, m);
    SameBytes(TM.Put(ms, m));
    TaMachine.EnrollSimulates(Texts(ms), Input(StateText(m)));
    assert Object(Texts(TM.Put(ms, m))) == Bytes(TM.Put(ms, m)) by { TextsLength(TM.Put(ms, m)); }
  }

  lemma TextsLength(ms: TM.Store)
    ensures Texts(ms) == [] <==> ms == []
  {
  }

  lemma PutIsNotEmpty(ms: TM.Store, m: Manifest)
    ensures TM.Put(ms, m) != []
  {
  }

  /** One request on both backends holding the same store: they agree on success, on failure
      and on what is a rollback exactly when the request is agreeable, and then they hold the
      same bytes again, those of the abstract machine's next state. */
  lemma StepAgreesIff(ms: TM.Store, cmd: Command, m: Manifest)
    requires Common(ms) && WireSafe(m)
    ensures OutcomeOf(cmd, FileDo(Bytes(ms), cmd, m).0) == OutcomeOf(cmd, OpteeDo(Bytes(ms), cmd, m).0)
       <==> Agreeable(ms, cmd, m)
    ensures Agreeable(ms, cmd, m) ==>
      && FileDo(Bytes(ms), cmd, m).1 == OpteeDo(Bytes(ms), cmd, m).1 == Bytes(Next(ms, cmd, m))
      && Common(Next(ms, cmd, m))
  {
    hide FileDo, OpteeDo, WireSafe, FileText, TM.Put;
    FileStep(ms, cmd, m);
    OpteeStep(ms, cmd, m);
    PutIsNotEmpty(ms, m);
    if m.version >= 0 && Room(ms, m) {
      PutIsCommon(ms, m);
    }
    if TM.Find(ms, m.artifactId).Some? {
      var t := TM.Find(ms, m.artifactId).value;
      var k :| 0 <= k < |ms| && ms[k] == t;
      assert t.version >= 0;
    }
  }

  // -------------------------------------------------------------------- runs

  function FileRun(content: Option<string>, qs: seq<Request>): Option<string>
    decreases |qs|
  {
    if qs == [] then content else FileDo(FileRun(content, qs[..|qs| - 1]), qs[|qs| - 1].cmd, qs[|qs| - 1].m).1
  }

  function OpteeRun(obj: Option<string>, qs: seq<Request>): Option<string>
    decreases |qs|
  {
    if qs == [] then obj else OpteeDo(OpteeRun(obj, qs[..|qs| - 1]), qs[|qs| - 1].cmd, qs[|qs| - 1].m).1
  }

  function FileOutcome(content: Option<string>, qs: seq<Request>, k: nat): Outcome
    requires k < |qs|
  {
    OutcomeOf(qs[k].cmd, FileDo(FileRun(content, qs[..k]), qs[k].cmd, qs[k].m).0)
  }

  function OpteeOutcome(obj: Option<string>, qs: seq<Request>, k: nat): Outcome
    requires k < |qs|
  {
    OutcomeOf(qs[k].cmd, OpteeDo(OpteeRun(obj, qs[..k]), qs[k].cmd, qs[k].m).0)
  }

  function ModelRun(ms: TM.Store, qs: seq<Request>): TM.Store
    decreases |qs|
  {
    if qs == [] then ms else Next(ModelRun(ms, qs[..|qs| - 1]), qs[|qs| - 1].cmd, qs[|qs| - 1].m)
  }

  /** Every request is wire-safe and agreeable at the point where it is made. */
  predicate AllAgreeable(ms: TM.Store, qs: seq<Request>) {
    forall k | 0 <= k < |qs| :: WireSafe(qs[k].m) && Agreeable(ModelRun(ms, qs[..k]), qs[k].cmd, qs[k].m)
  }

  lemma AgreeablePrefix(ms: TM.Store, qs: seq<Request>, n: nat)
    requires AllAgreeable(ms, qs) && n <= |qs|
    ensures AllAgreeable(ms, qs[..n])
  {
    hide WireSafe, Agreeable;
    forall k | 0 <= k < n
      ensures WireSafe(qs[..n][k].m) && Agreeable(ModelRun(ms, qs[..n][..k]), qs[..n][k].cmd, qs[..n][k].m)
    {
      assert qs[..n][..k] == qs[..k];
    }
  }

  lemma EmptyIsCommon()
    ensures Common([]) && Bytes([]) == None
  {
  }

  /** The backends are interchangeable over whole runs from any common store: they hold the same bytes throughout, and
      those are the state of one abstract machine. */
  lemma {:induction false} BackendsHoldTheSame(ms: TM.Store, qs: seq<Request>)
    requires Common(ms) && AllAgreeable(ms, qs)
    ensures FileRun(Bytes(ms), qs) == OpteeRun(Bytes(ms), qs) == Bytes(ModelRun(ms, qs)) && Common(ModelRun(ms, qs))
    decreases |qs|
  {
    hide WireSafe, Agreeable, FileDo, OpteeDo, Next, FileText, Common, Bytes;
    if qs != [] {
      var n := |qs| - 1;
      AgreeablePrefix(ms, qs, n);
      BackendsHoldTheSame(ms, qs[..n]);
      StepAgreesIff(ModelRun(ms, qs[..n]), qs[n].cmd, qs[n].m);
    }
  }

  /** ... and they give every request the same outcome. */
  lemma BackendsAnswerAlike(ms: TM.Store, qs: seq<Request>, k: nat)
    requires Common(ms) && AllAgreeable(ms, qs) && k < |qs|
    ensures FileOutcome(Bytes(ms), qs, k) == OpteeOutcome(Bytes(ms), qs, k)
  {
    hide WireSafe, Agreeable, FileDo, OpteeDo, Next, FileText, Bytes;
    AgreeablePrefix(ms, qs, k);
    BackendsHoldTheSame(ms, qs[..k]);
    StepAgreesIff(ModelRun(ms, qs[..k]), qs[k].cmd, qs[k].m);
  }

  // ------------------------------------------------- eight artifacts always fit

  predicate Among(qs: seq<Request>, ids: set<string>) {
    forall k | 0 <= k < |qs| :: WireSafe(qs[k].m) && qs[k].m.version >= 0 && qs[k].m.artifactId in ids
  }

  lemma {:induction false} DistinctAmong(ms: TM.Store, ids: set<string>)
    requires TM.Distinct(ms) && forall k | 0 <= k < |ms| :: ms[k].artifactId in ids
    ensures |ms| <= |ids|
    decreases |ms|
  {
    if ms != [] {
      var n := |ms| - 1;
      var init := ms[..n];
      assert forall k | 0 <= k < n :: init[k] == ms[k];
      DistinctAmong(init, ids - {ms[n].artifactId});
    }
  }

  lemma {:induction false} FileTextLength(ms: TM.Store)
    requires forall k | 0 <= k < |ms| :: WireSafe(ms[k]) && ms[k].version >= 0
    ensures |FileText(ms)| <= 235 * |ms|
  {
    hide WireSafe, RecordText;
    if ms != [] {
      assert WireSafe(ms[0]) && ms[0].version >= 0;
      RecordTextShape(ms[0]);
      FileTextLength(ms[1..]);
    }
  }

  lemma RoomAmong(ms: TM.Store, m: Manifest, ids: set<string>)
    requires Common(ms) && (forall k | 0 <= k < |ms| :: ms[k].artifactId in ids)
    requires WireSafe(m) && m.version >= 0 && m.artifactId in ids && |ids| <= 8
    ensures Room(ms, m) && forall k | 0 <= k < |TM.Put(ms, m)| :: TM.Put(ms, m)[k].artifactId in ids
  {
    hide WireSafe, FileText;
    var r := TM.Put(ms, m);
    TM.PutMembers(ms, m);
    TM.DistinctPut(ms, m);
    forall k | 0 <= k < |r| ensures WireSafe(r[k]) && r[k].version >= 0 && r[k].artifactId in ids {
      assert r[k] in r;
    }
    DistinctAmong(r, ids);
    FileTextLength(r);
  }

  /** Every run over at most eight artifacts with versions from 0 on is agreeable throughout, so
      the backends are interchangeable on it. */
  lemma {:induction false} EightArtifactsAgree(ms: TM.Store, qs: seq<Request>, ids: set<string>)
    requires Among(qs, ids) && |ids| <= 8
    requires Common(ms) && forall k | 0 <= k < |ms| :: ms[k].artifactId in ids
    ensures AllAgreeable(ms, qs)
    ensures forall k | 0 <= k < |ModelRun(ms, qs)| :: ModelRun(ms, qs)[k].artifactId in ids
    decreases |qs|
  {
    hide WireSafe, Room, Bytes, Common, Agreeable, Next, AllAgreeable;
    NothingIsAgreeable(ms);
    if qs != [] {
      var n := |qs| - 1;
      var q := qs[n];
      EightArtifactsAgree(ms, qs[..n], ids);
      BackendsHoldTheSame(ms, qs[..n]);
      StepAmong(ModelRun(ms, qs[..n]), q, ids);
      AgreeableSnoc(ms, qs);
    }
  }

  lemma NothingIsAgreeable(ms: TM.Store)
    ensures AllAgreeable(ms, [])
  {
  }

  lemma StepAmong(ms: TM.Store, q: Request, ids: set<string>)
    requires Common(ms) && (forall k | 0 <= k < |ms| :: ms[k].artifactId in ids)
    requires WireSafe(q.m) && q.m.version >= 0 && q.m.artifactId in ids && |ids| <= 8
    ensures Agreeable(ms, q.cmd, q.m)
    ensures var next := Next(ms, q.cmd, q.m); forall k | 0 <= k < |next| :: next[k].artifactId in ids
  {
    hide WireSafe, Room, Common, TM.Put, TM.Find;
    RoomAmong(ms, q.m, ids);
  }

  lemma AgreeableSnoc(ms: TM.Store, qs: seq<Request>)
    requires qs != [] && AllAgreeable(ms, qs[..|qs| - 1])
    requires var q := qs[|qs| - 1];
      WireSafe(q.m) && Agreeable(ModelRun(ms, qs[..|qs| - 1]), q.cmd, q.m)
    ensures AllAgreeable(ms, qs)
  {
    hide WireSafe, Agreeable, ModelRun;
    var n := |qs| - 1;
    forall k | 0 <= k < |qs|
      ensures WireSafe(qs[k].m) && Agreeable(ModelRun(ms, qs[..k]), qs[k].cmd, qs[k].m)
    {
      if k < n {
        assert qs[..n][..k] == qs[..k] && qs[..n][k] == qs[k];
      }
    }
  }

  // ------------------------------------------------------------------ REPORT

  /** `file_report` into a buffer of `size` bytes. */
  function FileReport(content: Option<string>, size: nat): Option<string> {
    var ms := EntriesOf(content);
    if ms == [] || |RecordText(ms[0])| >= size then None else Some(RecordText(ms[0]))
  }

  /** `tear_optee_report` */
  function OpteeReport(obj: Option<string>, size: nat): Option<string> {
    var (res, out, _) := Invoke(Storage(obj, None), CMD_REPORT, Output(size, ""));
    if res == Success && out.Output? then Some(out.text) else None
  }

  /** The two backends report different slots: the first and the last. Their answers are equal
      exactly when there is at most one artifact. */
  lemma ReportsAgreeIff(ms: TM.Store)
    requires Common(ms)
    ensures FileReport(Bytes(ms), 256) == (if ms == [] then None else Some(RecordText(ms[0])))
    ensures OpteeReport(Bytes(ms), 256) == (if ms == [] then None else Some(RecordText(ms[|ms| - 1])))
    ensures FileReport(Bytes(ms), 256) == OpteeReport(Bytes(ms), 256) <==> |ms| <= 1
  {
    hide WireSafe, ParseState, RecordText, FileText, Frames, LatestIn, EntriesOf, Serialise;
    CommonIsRead(ms);
    CommonIsGood(ms);
    var rs := Texts(ms);
    StoredObjectReads(rs);
    TaMachine.LatestIsLast(rs, "");
    if ms != [] {
      assert WireSafe(ms[0]) && WireSafe(ms[|ms| - 1]);
      RecordTextShape(ms[0]);
      RecordTextShape(ms[|ms| - 1]);
      RecordIsGood(ms[0]);
      RecordIsGood(ms[|ms| - 1]);
    }
  }

  /** REPORT on a store of two artifacts: the file backend shows the first, the Trusted Application
      the second. */
  lemma ReportsDifferWitness()
    ensures var ms := [SMALL_A, SMALL_C];
      && Common(ms) && FileReport(Bytes(ms), 256) == Some("a 1 b h") && OpteeReport(Bytes(ms), 256) == Some("c 1 b h")
  {
    hide WireSafe, FileText, RecordText, FileReport, OpteeReport, FileLine;
    var ms := [SMALL_A, SMALL_C];
    SmallLines();
    SmallRecords();
    assert SMALL_A.artifactId[0] != SMALL_C.artifactId[0];
    assert forall k | 0 <= k < |ms| :: ms[k] in {SMALL_A, SMALL_C};
    ReportsAgreeIff(ms);
  }

  lemma SmallRecords()
    ensures RecordText(SMALL_A) == "a 1 b h" && RecordText(SMALL_C) == "c 1 b h"
    ensures forall m | m in {SMALL_A, SMALL_C} :: WireSafe(m)
  {
    hide RecordText, WireSafe;
    SmallLines();
    assert FileLine(SMALL_A)[..7] == RecordText(SMALL_A) && FileLine(SMALL_C)[..7] == RecordText(SMALL_C);
    SmallIsWireSafe("a", 1);
    SmallIsWireSafe("c", 1);
  }

  lemma SmallIsWireSafe(id: string, version: int)
    requires 0 < |id| <= 63 && All(id, IsWordChar) && InRange(Int, version)
    ensures WireSafe(Manifest(id, version, "b", "h"))
  {
    CarriedFields(31, Manifest(id, version, "b", "h"));
  }

  // ------------------------------------------- requests on which the backends differ

  /** An ENROLL with a negative version: the file backend takes it, the Trusted Application does not. */
  lemma NegativeVersionWitness()
    ensures var m := Manifest("a", -1, "b", "h");
      && WireSafe(m) && FileDo(None, Enroll, m) == (0, Some(FileText([m]))) && OpteeDo(None, Enroll, m) == (-1, None)
      && !Agreeable([], Enroll, m)
  {
    hide WireSafe, FileDo, OpteeDo, FileText, Common;
    var m := Manifest("a", -1, "b", "h");
    SmallIsWireSafe("a", -1);
    EmptyIsCommon();
    FileStep([], Enroll, m);
    OpteeStep([], Enroll, m);
  }

  /** The widest manifest whose artifact id begins with a given digit: a line of 226 characters. */
  function Wide(k: nat): Manifest
    requires k < 10
  {
    Manifest([DigitChar(k)] + D.Filler(62), 1, D.Filler(31), D.Filler(127))
  }

  function WideStore(n: nat): (ms: TM.Store)
    requires n <= 10
    ensures |ms| == n && forall k | 0 <= k < n :: ms[k] == Wide(k)
  {
    seq(n, k requires 0 <= k < n => Wide(k))
  }

  lemma WideShape(k: nat)
    requires k < 10
    ensures WireSafe(Wide(k)) && |FileLine(Wide(k))| == 226
  {
    hide D.Filler;
    var m := Wide(k);
    assert IsDigit(m.artifactId[0]);
    CarriedFields(31, m);
    RecordTextIs(m);
    assert |PrintInt(1)| == 1;
  }

  lemma {:induction false} WideStoreLength(n: nat)
    requires n <= 10
    ensures |FileText(WideStore(n))| == 226 * n
  {
    hide FileLine, Wide, FileText;
    if n == 0 {
      NoText();
    } else {
      WideStoreLength(n - 1);
      WideShape(n - 1);
      assert WideStore(n) == WideStore(n - 1) + [Wide(n - 1)];
      TextSnoc(WideStore(n - 1), Wide(n - 1));
    }
  }

  lemma {:induction false} PutAppends(ms: TM.Store, m: Manifest)
    requires TM.Find(ms, m.artifactId).None?
    ensures TM.Put(ms, m) == ms + [m]
  {
    if ms != [] {
      PutAppends(ms[1..], m);
    }
  }

  /** Nine wide artifacts fill the database: the file backend enrolls a tenth, the Trusted Application
      does not. */
  lemma FullStoreWitness()
    ensures var ms, m := WideStore(9), Wide(9);
      && Common(ms) && WireSafe(m) && FileDo(Bytes(ms), Enroll, m).0 == 0
      && OpteeDo(Bytes(ms), Enroll, m) == (-1, Bytes(ms)) && !Agreeable(ms, Enroll, m)
  {
    hide WireSafe, FileDo, OpteeDo, FileText, FileLine, Wide, TM.Find, TM.Put;
    var ms, m := WideStore(9), Wide(9);
    WideStoreLength(9);
    WideStoreLength(10);
    forall k | 0 <= k < 10
      ensures WireSafe(Wide(k)) && Wide(k).version >= 0 && Wide(k).artifactId != "" && Wide(k).artifactId[0] == DigitChar(k)
    {
      WideShape(k);
      WideId(k);
    }
    assert TM.Distinct(ms);
    assert TM.Find(ms, m.artifactId).None?;
    PutAppends(ms, m);
    assert WideStore(10) == ms + [m];
    FileStep(ms, Enroll, m);
    OpteeStep(ms, Enroll, m);
  }

  lemma WideId(k: nat)
    requires k < 10
    ensures Wide(k).artifactId != "" && Wide(k).artifactId[0] == DigitChar(k) && Wide(k).version == 1
  {
    hide D.Filler;
  }
}
