/** The activation pipeline: runtime managers and everyone else's messages interleaved over one trustd,
    one message at a time. */
module Activation {
  import opened CText
  import opened Manifests
  import opened Decisions
  import opened Protocol
  import Profiles
  import TM = TrustMachine

  /** How the workload child ends. */
  datatype Child = NoFork | NoWait | Signalled | Exited(status: nat)

  /** What one start of the runtime manager finds: the files it loads, whether the derived paths fit
      their buffers, and how its child and the optimizer behave, and whether the backend can record its decision. */
  datatype Job = Job(
    manifest: Option<Manifest>, optimizing: bool, profile: Option<Profiles.Profile>, pathsFit: bool,
    child: Child, metricsFile: bool, runId: string, answer: Answer, recorded: bool)

  /** `tear_platform_check_profile`: both backends are always available. */
  predicate PlatformSupports(backend: string) { backend == "mock" || backend == "onnxruntime-cpu" }

  /** `profile_matches_manifest` */
  predicate Matches(p: Profiles.Profile, m: Manifest) {
    p.artifactId == m.artifactId && p.backend == m.backend
  }

  /** Everything `tear_runtime_manager_main` gets past before it asks trustd: the manifest's own event,
      the profile, the platform and the paths. */
  predicate Prepared(job: Job) {
    job.manifest.Some? && Printable(job.manifest.value) && job.profile.Some? &&
    PlatformSupports(job.profile.value.backend) && Matches(job.profile.value, job.manifest.value) && job.pathsFit
  }

  /** `tear_workload_run_checked` after the launch. */
  predicate RunSucceeds(job: Job) {
    job.child == Exited(0) && (job.optimizing ==> job.metricsFile)
  }

  datatype Phase = Started | Waiting | Verified(at: nat) | Launched(at: nat) | Recorded | Finished(ok: bool)

  datatype Event =
    | VerifiedAt(run: nat, at: nat)
    | LaunchOf(run: nat, at: nat)
    | DecisionOf(run: nat, decision: Decision)

  /** The service and its runs: the store trustd found when it started, the requests it has served so
      far and the texts it has read, whether it still runs, the phase of every run, and the log of what
      the runs did. `at` counts the requests served before a run's VERIFY. */
  datatype System = System(
    start: TM.Store, ops: seq<TM.Op>, read: seq<string>, up: bool, phases: map<nat, Phase>, log: seq<Event>)

  function Idle(start: TM.Store): System { System(start, [], [], true, map[], []) }

  function StoreAt(start: TM.Store, ops: seq<TM.Op>, at: nat): TM.Store
    requires at <= |ops|
  {
    TM.Run(start, ops[..at])
  }

  /** What a message asks of the store; `room` says whether the backend takes the result. */
  function OpIn(buf: string, room: bool): TM.Op {
    match RequestIn(buf)
    case None => TM.Other
    case Some(q) => OpFor(q.cmd, q.m, room)
  }

  /** One message to trustd: whether it is answered OK, and the service afterwards. */
  function Ask(s: System, buf: string, room: bool): (bool, System) {
    if !s.up then (false, s)
    else
      var op := OpIn(buf, room);
      (TM.Step(TM.Run(s.start, s.ops), op).1 == TM.Accepted && !Fatal(buf),
       s.(ops := s.ops + [op], read := s.read + [buf], up := !Fatal(buf)))
  }

  /** What the manager sends once its decision is recorded. */
  const REPORT_DECISION := "REPORT_DECISION\n"

  /** A step: a message of anyone else, a new run, or the next action of a run. */
  datatype Step = Message(text: string, room: bool) | Start(run: nat) | Advance(run: nat)

  function Next(jobs: nat -> Job, s: System, step: Step): System {
    match step
    case Message(text, room) => Ask(s, Received(text), room).1
    case Start(r) => if r in s.phases then s else s.(phases := s.phases[r := Started])
    case Advance(r) =>
      if r !in s.phases then s else
      var job := jobs(r);
      match s.phases[r]
      case Started => s.(phases := s.phases[r := if Prepared(job) then Waiting else Finished(false)])
      case Waiting =>
        if !Prepared(job) then s else
        var (accepted, after) := Ask(s, Sent(Verify, job.manifest.value), true);
        after.(phases := s.phases[r := if accepted then Verified(|s.ops|) else Finished(false)],
               log := if accepted then s.log + [VerifiedAt(r, |s.ops|)] else s.log)
      case Verified(at) =>
        if job.child == NoFork then s.(phases := s.phases[r := Finished(false)])
        else s.(phases := s.phases[r := Launched(at)], log := s.log + [LaunchOf(r, at)])
      case Launched(_) =>
        if !RunSucceeds(job) then s.(phases := s.phases[r := Finished(false)])
        else if !job.optimizing || job.profile.None? then s.(phases := s.phases[r := Finished(true)])
        else
          var d := DecisionOfJob(job);
          var after := Ask(s, Received(DecisionMessage(d)), true).1;
          after.(phases := s.phases[r := if s.up && job.recorded then Recorded else Finished(true)],
                 log := if s.up then s.log + [DecisionOf(r, d)] else s.log)
      case Recorded => Ask(s, REPORT_DECISION, true).1.(phases := s.phases[r := Finished(true)])
      case Finished(_) => s
  }

  function Exec(start: TM.Store, jobs: nat -> Job, steps: seq<Step>): System
    decreases |steps|
  {
    if steps == [] then Idle(start) else Next(jobs, Exec(start, jobs, steps[..|steps| - 1]), steps[|steps| - 1])
  }

  /** The decision of a successful run. */
  function DecisionOfJob(job: Job): Decision
    requires job.profile.Some?
  {
    DecisionFor(job.runId, job.profile.value.artifactId, job.answer)
  }

  /** The message a manager sends in a phase, if it sends one. */
  function ManagerMessage(job: Job, phase: Phase): Option<string> {
    match phase
    case Waiting => if Prepared(job) then Some(Sent(Verify, job.manifest.value)) else None
    case Launched(_) =>
      if RunSucceeds(job) && job.optimizing && job.profile.Some?
      then Some(Received(DecisionMessage(DecisionOfJob(job)))) else None
    case Recorded => Some(REPORT_DECISION)
    case _ => None
  }

  /** What an action of a run does to the service is what its message does. */
  lemma AdvanceAsks(jobs: nat -> Job, s: System, r: nat)
    ensures var s' := Next(jobs, s, Advance(r));
      var message := if r in s.phases then ManagerMessage(jobs(r), s.phases[r]) else None;
      var after := if message.None? then s else Ask(s, message.value, true).1;
      s'.start == s.start && s'.ops == after.ops && s'.read == after.read && s'.up == after.up
  {
    hide OpIn, Fatal, TM.Step, TM.Run, Prepared, Sent, DecisionFor, RunSucceeds, DecisionMessage;
  }

  /** A manager asks trustd to verify, and tells it about decisions: neither writes, and only a VERIFY can
      end trustd. */
  lemma ManagerMessageIs(job: Job, phase: Phase)
    requires ManagerMessage(job, phase).Some?
    ensures var buf := ManagerMessage(job, phase).value;
      && (phase == Waiting ==> OpIn(buf, true) == if Asked(job).Some? then TM.Verify(Asked(job).value) else TM.Other)
      && (phase == Waiting ==> (Fatal(buf) <==> Asked(job).Some? && Asked(job).value.version <= 0))
      && (phase != Waiting ==> OpIn(buf, true) == TM.Other && !Fatal(buf))
  {
    hide ParseManifestMessage, Sent, Delivered, DecisionFor, RunSucceeds, DecisionMessage;
    if phase == Waiting {
      PreparedHasManifest(job);
      SentIsRequest(Verify, job.manifest.value);
    } else if phase.Launched? {
      DecisionIsNoRequest(DecisionOfJob(job));
    } else {
      assert REPORT_DECISION[0] == 'R';
    }
  }

  lemma DecisionIsNoRequest(d: Decision)
    ensures CommandOf(Received(DecisionMessage(d))) == None
  {
    hide PrintFields;
    var text := DecisionMessage(d);
    assert text[0] == 'R' && Received(text)[0] == 'R';
  }

  // ---------------------------------------------------------------- the gate

  /** What trustd reads from a run's VERIFY. */
  function Asked(job: Job): Option<Manifest> {
    if job.manifest.None? then None else Delivered(Verify, job.manifest.value)
  }

  /** At the moment of the VERIFY the store held exactly the manifest that trustd read, and the run's
      profile matches the one it was given. */
  predicate Trusted(jobs: nat -> Job, start: TM.Store, ops: seq<TM.Op>, run: nat, at: nat) {
    at < |ops| && Prepared(jobs(run)) && Asked(jobs(run)).Some? &&
    ops[at] == TM.Verify(Asked(jobs(run)).value) &&
    TM.Find(StoreAt(start, ops, at), Asked(jobs(run)).value.artifactId) == Asked(jobs(run))
  }

  ghost predicate GoodEvent(jobs: nat -> Job, start: TM.Store, ops: seq<TM.Op>, log: seq<Event>, k: nat)
    requires k < |log|
  {
    match log[k]
    case VerifiedAt(r, at) => Trusted(jobs, start, ops, r, at)
    case LaunchOf(r, at) => Trusted(jobs, start, ops, r, at) && VerifiedAt(r, at) in log[..k]
    case DecisionOf(r, d) =>
      jobs(r).optimizing && RunSucceeds(jobs(r)) && Prepared(jobs(r)) &&
      d == DecisionOfJob(jobs(r)) &&
      exists at :: LaunchOf(r, at) in log[..k]
  }

  predicate GoodPhase(s: System, jobs: nat -> Job, r: nat)
    requires r in s.phases
  {
    match s.phases[r]
    case Waiting => Prepared(jobs(r))
    case Verified(at) => Trusted(jobs, s.start, s.ops, r, at) && VerifiedAt(r, at) in s.log
    case Launched(at) => Trusted(jobs, s.start, s.ops, r, at) && LaunchOf(r, at) in s.log
    case _ => true
  }

  ghost predicate Gated(s: System, jobs: nat -> Job) {
    (forall k | 0 <= k < |s.log| :: GoodEvent(jobs, s.start, s.ops, s.log, k)) &&
    (forall r | r in s.phases :: GoodPhase(s, jobs, r))
  }

  lemma TrustedStays(jobs: nat -> Job, start: TM.Store, ops: seq<TM.Op>, more: seq<TM.Op>, run: nat, at: nat)
    requires Trusted(jobs, start, ops, run, at)
    ensures Trusted(jobs, start, ops + more, run, at)
  {
    assert (ops + more)[..at] == ops[..at];
  }

  /** More requests and more events leave what the log says about the past as it was. */
  lemma GatedGrows(s: System, jobs: nat -> Job, more: seq<TM.Op>, k: nat, events: seq<Event>)
    requires Gated(s, jobs) && k < |s.log|
    ensures GoodEvent(jobs, s.start, s.ops + more, s.log + events, k)
  {
    hide Trusted, Prepared, RunSucceeds;
    assert GoodEvent(jobs, s.start, s.ops, s.log, k);
    assert (s.log + events)[..k] == s.log[..k];
    match s.log[k]
    case VerifiedAt(r, at) => TrustedStays(jobs, s.start, s.ops, more, r, at);
    case LaunchOf(r, at) => TrustedStays(jobs, s.start, s.ops, more, r, at);
    case DecisionOf(r, d) =>
  }

  lemma PhaseStays(s: System, jobs: nat -> Job, more: seq<TM.Op>, events: seq<Event>, r: nat, s': System)
    requires Gated(s, jobs) && r in s.phases && r in s'.phases && s'.phases[r] == s.phases[r]
    requires s'.start == s.start && s'.ops == s.ops + more && s'.log == s.log + events
    ensures GoodPhase(s', jobs, r)
  {
    hide Trusted, Prepared, GoodEvent;
    assert GoodPhase(s, jobs, r);
    match s.phases[r]
    case Verified(at) => TrustedStays(jobs, s.start, s.ops, more, r, at);
    case Launched(at) => TrustedStays(jobs, s.start, s.ops, more, r, at);
    case _ =>
  }

  /** Growing the requests, at most one new event that is good, and one changed phase that is good,
      keeps the gate. */
  lemma GatedStep(s: System, jobs: nat -> Job, s': System, more: seq<TM.Op>, events: seq<Event>, r: nat)
    requires Gated(s, jobs)
    requires s'.start == s.start && s'.ops == s.ops + more && s'.log == s.log + events && |events| <= 1
    requires events != [] ==> GoodEvent(jobs, s'.start, s'.ops, s'.log, |s.log|)
    requires forall q | q in s'.phases && q != r :: q in s.phases && s'.phases[q] == s.phases[q]
    requires r in s'.phases ==> GoodPhase(s', jobs, r)
    ensures Gated(s', jobs)
  {
    hide GoodEvent, GoodPhase;
    forall k | 0 <= k < |s'.log| ensures GoodEvent(jobs, s'.start, s'.ops, s'.log, k) {
      if k < |s.log| {
        GatedGrows(s, jobs, more, k, events);
      }
    }
    forall q | q in s'.phases ensures GoodPhase(s', jobs, q) {
      if q != r {
        PhaseStays(s, jobs, more, events, q, s');
      }
    }
  }

  lemma VerifyIsTrusted(jobs: nat -> Job, s: System, r: nat)
    requires Prepared(jobs(r)) && Ask(s, Sent(Verify, jobs(r).manifest.value), true).0
    ensures Trusted(jobs, s.start, Ask(s, Sent(Verify, jobs(r).manifest.value), true).1.ops, r, |s.ops|)
  {
    hide Prepared, TM.Find, TM.Run, Delivered, Sent, ParseManifestMessage;
    PreparedHasManifest(jobs(r));
    SentIsRequest(Verify, jobs(r).manifest.value);
    var ops := Ask(s, Sent(Verify, jobs(r).manifest.value), true).1.ops;
    assert ops[..|s.ops|] == s.ops;
  }

  lemma AskGrows(s: System, buf: string, room: bool)
    ensures var after := Ask(s, buf, room).1;
      && after.start == s.start && after.phases == s.phases && after.log == s.log
      && after.ops == s.ops + (if s.up then [OpIn(buf, room)] else [])
      && after.read == s.read + (if s.up then [buf] else [])
    ensures Ask(s, buf, room).0 ==> s.up
  {
    hide OpIn, Fatal, TM.Step, TM.Run;
  }

  lemma StepKeepsGated(s: System, jobs: nat -> Job, step: Step)
    requires Gated(s, jobs)
    ensures Gated(Next(jobs, s, step), jobs)
  {
    hide Trusted, Prepared, RunSucceeds, Gated, Ask, OpIn, DecisionFor;
    var s' := Next(jobs, s, step);
    match step
    case Message(text, room) =>
      AskGrows(s, Received(text), room);
      AnyRun(s, jobs, s', if s.up then [OpIn(Received(text), room)] else []);
    case Start(r) =>
      if r !in s.phases {
        assert s'.ops == s.ops + [] && s'.log == s.log + [];
        GatedStep(s, jobs, s', [], [], r);
      }
    case Advance(r) =>
      if r in s.phases {
        AdvanceKeepsGated(s, jobs, r);
      }
  }

  lemma AnyRun(s: System, jobs: nat -> Job, s': System, more: seq<TM.Op>)
    requires Gated(s, jobs)
    requires s'.start == s.start && s'.ops == s.ops + more && s'.log == s.log && s'.phases == s.phases
    ensures Gated(s', jobs)
  {
    hide GoodEvent, GoodPhase;
    assert s'.log == s.log + [];
    forall k | 0 <= k < |s'.log| ensures GoodEvent(jobs, s'.start, s'.ops, s'.log, k) {
      GatedGrows(s, jobs, more, k, []);
    }
    forall q | q in s'.phases ensures GoodPhase(s', jobs, q) {
      PhaseStays(s, jobs, more, [], q, s');
    }
  }

  lemma PhaseIsGood(s: System, jobs: nat -> Job, r: nat)
    requires Gated(s, jobs) && r in s.phases
    ensures GoodPhase(s, jobs, r)
  {
    hide GoodPhase, GoodEvent;
  }

  lemma WaitingKeepsGated(s: System, jobs: nat -> Job, r: nat)
    requires Gated(s, jobs) && r in s.phases && s.phases[r] == Waiting
    ensures Gated(Next(jobs, s, Advance(r)), jobs)
  {
    hide Trusted, Prepared, Gated, Ask, OpIn, Sent;
    var s', job := Next(jobs, s, Advance(r)), jobs(r);
    PhaseIsGood(s, jobs, r);
    PreparedHasManifest(job);
    assert s.log + [] == s.log;
    var buf := Sent(Verify, job.manifest.value);
    AskGrows(s, buf, true);
    if Ask(s, buf, true).0 {
      VerifyIsTrusted(jobs, s, r);
      GatedStep(s, jobs, s', [OpIn(buf, true)], [VerifiedAt(r, |s.ops|)], r);
    } else {
      GatedStep(s, jobs, s', if s.up then [OpIn(buf, true)] else [], [], r);
    }
  }

  lemma LaunchedKeepsGated(s: System, jobs: nat -> Job, r: nat)
    requires Gated(s, jobs) && r in s.phases && s.phases[r].Launched?
    ensures Gated(Next(jobs, s, Advance(r)), jobs)
  {
    hide Trusted, Prepared, RunSucceeds, Gated, Ask, OpIn, DecisionFor, DecisionMessage;
    var s', job, at := Next(jobs, s, Advance(r)), jobs(r), s.phases[r].at;
    PhaseIsGood(s, jobs, r);
    assert s.ops + [] == s.ops && s.log + [] == s.log;
    if !RunSucceeds(job) || !job.optimizing || job.profile.None? {
      GatedStep(s, jobs, s', [], [], r);
    } else {
      var buf, e := Received(DecisionMessage(DecisionOfJob(job))), DecisionOf(r, DecisionOfJob(job));
      AskGrows(s, buf, true);
      assert (s.log + [e])[..|s.log|] == s.log;
      TrustedIsPrepared(jobs, s.start, s.ops, r, at);
      GatedStep(s, jobs, s', if s.up then [OpIn(buf, true)] else [], if s.up then [e] else [], r);
    }
  }

  lemma AdvanceKeepsGated(s: System, jobs: nat -> Job, r: nat)
    requires Gated(s, jobs) && r in s.phases
    ensures Gated(Next(jobs, s, Advance(r)), jobs)
  {
    hide Trusted, Prepared, RunSucceeds, Gated, Ask, OpIn, Sent, DecisionFor, DecisionMessage;
    var s', job := Next(jobs, s, Advance(r)), jobs(r);
    PhaseIsGood(s, jobs, r);
    assert s.ops + [] == s.ops && s.log + [] == s.log;
    match s.phases[r]
    case Started => GatedStep(s, jobs, s', [], [], r);
    case Waiting => WaitingKeepsGated(s, jobs, r);
    case Verified(at) =>
      if job.child == NoFork {
        GatedStep(s, jobs, s', [], [], r);
      } else {
        assert (s.log + [LaunchOf(r, at)])[..|s.log|] == s.log;
        GatedStep(s, jobs, s', [], [LaunchOf(r, at)], r);
      }
    case Launched(at) => LaunchedKeepsGated(s, jobs, r);
    case Recorded =>
      AskGrows(s, REPORT_DECISION, true);
      GatedStep(s, jobs, s', if s.up then [OpIn(REPORT_DECISION, true)] else [], [], r);
    case Finished(_) =>
  }

  lemma PreparedHasManifest(job: Job)
    requires Prepared(job)
    ensures job.manifest.Some?
  {
  }

  lemma TrustedIsPrepared(jobs: nat -> Job, start: TM.Store, ops: seq<TM.Op>, r: nat, at: nat)
    requires Trusted(jobs, start, ops, r, at)
    ensures Prepared(jobs(r))
  {
  }

  lemma StartStays(jobs: nat -> Job, s: System, step: Step)
    ensures Next(jobs, s, step).start == s.start
  {
    hide Ask;
    if step.Message? {
      AskGrows(s, Received(step.text), step.room);
    } else if step.Advance? {
      AdvanceAsks(jobs, s, step.run);
    }
  }

  /** The gate holds in every reachable system, from every store, under every interleaving of managers and
      messages. */
  lemma {:induction false} AlwaysGated(start: TM.Store, jobs: nat -> Job, steps: seq<Step>)
    ensures Gated(Exec(start, jobs, steps), jobs) && Exec(start, jobs, steps).start == start
    decreases |steps|
  {
    hide GoodEvent, GoodPhase, Next;
    if steps != [] {
      var before := Exec(start, jobs, steps[..|steps| - 1]);
      AlwaysGated(start, jobs, steps[..|steps| - 1]);
      StepKeepsGated(before, jobs, steps[|steps| - 1]);
      StartStays(jobs, before, steps[|steps| - 1]);
    }
  }

  // --------------------------------------------- what the store can hold at all

  /** Every manifest that a request writes came out of a message. */
  predicate FromMessages(ops: seq<TM.Op>) {
    forall k | 0 <= k < |ops| :: ops[k].Enroll? || ops[k].Update? ==> WireSafe(ops[k].m)
  }

  /** A store that trustd wrote holds wire-safe manifests only. */
  predicate AllWireSafe(ms: TM.Store) { forall e | e in ms :: WireSafe(e) }

  lemma OpIsWireSafe(buf: string, room: bool)
    ensures var op := OpIn(buf, room); op.Enroll? || op.Update? ==> WireSafe(op.m)
  {
    hide ParseManifestMessage, WireSafe;
    if RequestIn(buf).Some? {
      ParsedMessageIsWireSafe(buf, CommandName(CommandOf(buf).value));
    }
  }

  lemma {:induction false} OpsAreFromMessages(start: TM.Store, jobs: nat -> Job, steps: seq<Step>)
    ensures FromMessages(Exec(start, jobs, steps).ops)
    decreases |steps|
  {
    hide OpIn, Ask, Next, WireSafe, ManagerMessage;
    if steps != [] {
      var n := |steps| - 1;
      OpsAreFromMessages(start, jobs, steps[..n]);
      var s := Exec(start, jobs, steps[..n]);
      match steps[n]
      case Message(text, room) =>
        MessageAsks(jobs, s, text, room);
        AskGrows(s, Received(text), room);
        OpIsWireSafe(Received(text), room);
      case Start(r) => StartOps(jobs, s, r);
      case Advance(r) =>
        AdvanceAsks(jobs, s, r);
        if r in s.phases && ManagerMessage(jobs(r), s.phases[r]).Some? {
          var buf := ManagerMessage(jobs(r), s.phases[r]).value;
          AskGrows(s, buf, true);
          OpIsWireSafe(buf, true);
        }
    }
  }

  lemma MessageAsks(jobs: nat -> Job, s: System, text: string, room: bool)
    ensures Next(jobs, s, Message(text, room)) == Ask(s, Received(text), room).1
  {
    hide Ask;
  }

  lemma {:induction false} StoreIsWireSafe(start: TM.Store, ops: seq<TM.Op>)
    requires FromMessages(ops) && AllWireSafe(start)
    ensures AllWireSafe(TM.Run(start, ops))
    decreases |ops|
  {
    hide WireSafe, TM.Find, TM.Put;
    if ops != [] {
      var n := |ops| - 1;
      assert forall k | 0 <= k < n :: ops[..n][k] == ops[k];
      StoreIsWireSafe(start, ops[..n]);
      if ops[n].Enroll? || ops[n].Update? {
        TM.PutMembers(TM.Run(start, ops[..n]), ops[n].m);
      }
    }
  }

  lemma HeldIsWireSafe(start: TM.Store, jobs: nat -> Job, steps: seq<Step>, at: nat, m: Manifest)
    requires AllWireSafe(start) && at <= |Exec(start, jobs, steps).ops|
    requires TM.Find(StoreAt(start, Exec(start, jobs, steps).ops, at), m.artifactId) == Some(m)
    ensures WireSafe(m)
  {
    hide WireSafe, Exec, TM.Run, TM.Find;
    OpsAreFromMessages(start, jobs, steps);
    var ops := Exec(start, jobs, steps).ops;
    assert forall k | 0 <= k < at :: ops[..at][k] == ops[k];
    StoreIsWireSafe(start, ops[..at]);
    FoundIsHeld(StoreAt(start, ops, at), m.artifactId);
  }

  lemma FoundIsHeld(ms: TM.Store, id: string)
    ensures TM.Find(ms, id).Some? ==> TM.Find(ms, id).value in ms
  {
  }

  /** Activation gate: in every interleaving, a launch comes after a VERIFY of the same run at which the
      store held exactly the manifest that trustd read, with a profile of the artifact and backend of
      the launched one. The store held the launched manifest itself if and only if that is wire-safe:
      white space in its file is where the two part. */
  lemma LaunchesAreVerified(start: TM.Store, jobs: nat -> Job, steps: seq<Step>, k: nat)
    requires AllWireSafe(start) && k < |Exec(start, jobs, steps).log| && Exec(start, jobs, steps).log[k].LaunchOf?
    ensures var s, e := Exec(start, jobs, steps), Exec(start, jobs, steps).log[k];
      var job := jobs(e.run);
      && VerifiedAt(e.run, e.at) in s.log[..k] && e.at < |s.ops|
      && Asked(job).Some? && TM.Find(StoreAt(start, s.ops, e.at), Asked(job).value.artifactId) == Asked(job)
      && job.profile.Some? && job.profile.value.artifactId == job.manifest.value.artifactId
      && job.profile.value.backend == job.manifest.value.backend
      && job.profile.value.backend in {"mock", "onnxruntime-cpu"} && job.pathsFit
      && (TM.Find(StoreAt(start, s.ops, e.at), job.manifest.value.artifactId) == job.manifest
          <==> WireSafe(job.manifest.value))
  {
    hide StoreAt, Exec, TM.Find, WireSafe, Delivered;
    AlwaysGated(start, jobs, steps);
    var s, e := Exec(start, jobs, steps), Exec(start, jobs, steps).log[k];
    assert GoodEvent(jobs, s.start, s.ops, s.log, k);
    var m := jobs(e.run).manifest.value;
    DeliveredIff(Verify, m);
    if TM.Find(StoreAt(start, s.ops, e.at), m.artifactId) == Some(m) {
      HeldIsWireSafe(start, jobs, steps, e.at, m);
    }
  }

  /** A decision is recorded only for an optimization-capable manifest whose verified workload was
      launched, exited with 0 and left its metrics file; it is the one the optimizer's answer calls
      for, under the run's own artifact. */
  lemma DecisionsFollowRuns(start: TM.Store, jobs: nat -> Job, steps: seq<Step>, k: nat)
    requires k < |Exec(start, jobs, steps).log| && Exec(start, jobs, steps).log[k].DecisionOf?
    ensures var s, e := Exec(start, jobs, steps), Exec(start, jobs, steps).log[k];
      var job := jobs(e.run);
      && job.optimizing && job.child == Exited(0) && job.metricsFile
      && job.manifest.Some? && e.decision.artifactId == job.manifest.value.artifactId
      && e.decision == DecisionFor(job.runId, job.manifest.value.artifactId, job.answer)
      && exists at :: LaunchOf(e.run, at) in s.log[..k]
  {
    hide Exec;
    AlwaysGated(start, jobs, steps);
    assert GoodEvent(jobs, start, Exec(start, jobs, steps).ops, Exec(start, jobs, steps).log, k);
  }

  /** The optimizer only advises. An approved decision is an allowed action proposed after a launched run
      that succeeded; and neither it nor anything else a manager does reaches the trusted manifests:
      they are what the messages of everyone else made of them. */
  lemma ApprovalsAreAdvice(start: TM.Store, jobs: nat -> Job, steps: seq<Step>, k: nat)
    requires k < |Exec(start, jobs, steps).log|
    ensures var s, e := Exec(start, jobs, steps), Exec(start, jobs, steps).log[k];
      e.DecisionOf? && e.decision.decision == "approved" ==>
        && jobs(e.run).answer.Proposal? && jobs(e.run).answer.action in {"keep_current_profile", "reject_input"}
        && RunSucceeds(jobs(e.run)) && exists at :: LaunchOf(e.run, at) in s.log[..k]
    ensures TM.Run(start, Exec(start, jobs, steps).ops) == TM.Run(start, OutsideOps(start, jobs, steps))
  {
    hide Exec, DecisionFor, TM.Run, OutsideOps, RunSucceeds;
    AlwaysGated(start, jobs, steps);
    ManagersNeverWrite(start, jobs, steps);
    var s, e := Exec(start, jobs, steps), Exec(start, jobs, steps).log[k];
    assert GoodEvent(jobs, s.start, s.ops, s.log, k);
    if e.DecisionOf? {
      OnlyAllowedActionsAreApproved(jobs(e.run).runId, jobs(e.run).profile.value.artifactId, jobs(e.run).answer);
    }
  }

  /** The requests that did not come from a manager. */
  function OutsideOps(start: TM.Store, jobs: nat -> Job, steps: seq<Step>): seq<TM.Op>
    decreases |steps|
  {
    if steps == [] then []
    else
      var n := |steps| - 1;
      OutsideOps(start, jobs, steps[..n]) +
      if steps[n].Message? && Exec(start, jobs, steps[..n]).up then [OpIn(Received(steps[n].text), steps[n].room)] else []
  }

  /** No action of a manager changes the trusted manifests. */
  lemma AdvanceKeepsStore(jobs: nat -> Job, s: System, r: nat)
    ensures TM.Run(s.start, Next(jobs, s, Advance(r)).ops) == TM.Run(s.start, s.ops)
  {
    hide OpIn, Fatal, Next, ManagerMessage, TM.Run, Asked;
    AdvanceAsks(jobs, s, r);
    if r in s.phases && ManagerMessage(jobs(r), s.phases[r]).Some? {
      var buf := ManagerMessage(jobs(r), s.phases[r]).value;
      ManagerMessageIs(jobs(r), s.phases[r]);
      RunSnoc(s.start, s.ops, OpIn(buf, true));
    }
  }

  lemma RunSnoc(start: TM.Store, ops: seq<TM.Op>, op: TM.Op)
    ensures TM.Run(start, ops + [op]) == TM.Step(TM.Run(start, ops), op).0
  {
    hide TM.Step;
    assert (ops + [op])[..|ops|] == ops;
  }

  lemma {:induction false} ManagersNeverWrite(start: TM.Store, jobs: nat -> Job, steps: seq<Step>)
    ensures TM.Run(start, Exec(start, jobs, steps).ops) == TM.Run(start, OutsideOps(start, jobs, steps))
    decreases |steps|
  {
    hide OpIn, Fatal, TM.Run, Next, Ask;
    if steps != [] {
      var n := |steps| - 1;
      ManagersNeverWrite(start, jobs, steps[..n]);
      var s, outside := Exec(start, jobs, steps[..n]), OutsideOps(start, jobs, steps[..n]);
      assert outside + [] == outside;
      match steps[n]
      case Message(text, room) =>
        var op := OpIn(Received(text), room);
        MessageOps(jobs, s, text, room);
        RunSnoc(start, s.ops, op);
        RunSnoc(start, outside, op);
      case Start(r) => StartOps(jobs, s, r);
      case Advance(r) =>
        AlwaysGated(start, jobs, steps[..n]);
        AdvanceKeepsStore(jobs, s, r);
    }
  }

  lemma MessageOps(jobs: nat -> Job, s: System, text: string, room: bool)
    ensures Next(jobs, s, Message(text, room)).ops == if s.up then s.ops + [OpIn(Received(text), room)] else s.ops
  {
    hide OpIn, Fatal, TM.Step, TM.Run;
  }

  lemma StartOps(jobs: nat -> Job, s: System, r: nat)
    ensures Next(jobs, s, Start(r)).ops == s.ops
  {
  }

  // ---------------------------------------------------------- how a run ends

  /** A run was launched. */
  predicate Launches(log: seq<Event>, r: nat) {
    exists k | 0 <= k < |log| :: log[k].LaunchOf? && log[k].run == r
  }

  predicate IsDecisionOf(e: Event, r: nat) { e.DecisionOf? && e.run == r }

  /** How many decisions of a run there are. */
  function Decided(log: seq<Event>, r: nat): nat {
    if log == [] then 0 else Decided(log[..|log| - 1], r) + if IsDecisionOf(log[|log| - 1], r) then 1 else 0
  }

  /** What the phase of a run says about its past: it ends well exactly when it was launched and its
      workload succeeded; and a run that ended well has sent its one decision, unless trustd had ended. */
  predicate EndsWell(s: System, jobs: nat -> Job, r: nat) {
    if r !in s.phases then !Launches(s.log, r) && Decided(s.log, r) == 0
    else
      match s.phases[r]
      case Launched(_) => Launches(s.log, r) && Decided(s.log, r) == 0
      case Recorded =>
        Launches(s.log, r) && RunSucceeds(jobs(r)) && jobs(r).optimizing && jobs(r).recorded && Decided(s.log, r) == 1
      case Finished(ok) =>
        && (ok <==> Launches(s.log, r) && RunSucceeds(jobs(r)))
        && (ok && jobs(r).optimizing && s.up ==> Decided(s.log, r) == 1)
        && (!ok || !jobs(r).optimizing ==> Decided(s.log, r) == 0)
        && Decided(s.log, r) <= 1
      case _ => !Launches(s.log, r) && Decided(s.log, r) == 0
  }

  lemma LogGrows(log: seq<Event>, e: Event, r: nat)
    ensures Launches(log + [e], r) <==> Launches(log, r) || (e.LaunchOf? && e.run == r)
    ensures Decided(log + [e], r) == Decided(log, r) + if IsDecisionOf(e, r) then 1 else 0
  {
    hide IsDecisionOf;
    var all := log + [e];
    assert all[..|all| - 1] == log && all[|log|] == e;
    assert forall k | 0 <= k < |log| :: all[k] == log[k];
  }

  lemma NothingHappened(r: nat)
    ensures !Launches([], r) && Decided([], r) == 0
  {
  }

  /** What one step adds to the log, and whose phase it changes. */
  lemma StepIsOneRuns(jobs: nat -> Job, s: System, step: Step, r: nat)
    requires step.Message? || step.run != r
    ensures var s' := Next(jobs, s, step);
      && (r in s'.phases <==> r in s.phases) && (r in s.phases ==> s'.phases[r] == s.phases[r]) && (s'.up ==> s.up)
      && (s'.log == s.log ||
          (|s'.log| == |s.log| + 1 && s'.log == s.log + [s'.log[|s.log|]] && s'.log[|s.log|].run != r))
  {
    hide Ask, RunSucceeds, Prepared, DecisionFor, Sent, DecisionMessage, OpIn;
    match step
    case Message(text, room) => AskKeeps(s, Received(text), room);
    case Start(q) =>
    case Advance(q) =>
      if q in s.phases && ManagerMessage(jobs(q), s.phases[q]).Some? {
        AskKeeps(s, ManagerMessage(jobs(q), s.phases[q]).value, true);
      }
  }

  lemma AskKeeps(s: System, buf: string, room: bool)
    ensures var after := Ask(s, buf, room).1;
      after.phases == s.phases && after.log == s.log && (after.up ==> s.up) && after.start == s.start
    ensures !s.up ==> Ask(s, buf, room) == (false, s)
  {
    hide OpIn, Fatal, TM.Step, TM.Run;
  }

  lemma StepEndsWell(s: System, jobs: nat -> Job, step: Step, r: nat)
    requires Gated(s, jobs) && EndsWell(s, jobs, r)
    ensures EndsWell(Next(jobs, s, step), jobs, r)
  {
    hide Gated, Launches, Decided, RunSucceeds, Next;
    var s' := Next(jobs, s, step);
    if step.Message? || step.run != r {
      StepIsOneRuns(jobs, s, step, r);
      if s'.log != s.log {
        LogGrows(s.log, s'.log[|s.log|], r);
      }
    } else if step.Start? {
      StartEndsWell(s, jobs, r);
    } else if r in s.phases {
      AdvanceEndsWell(s, jobs, r);
    } else {
      NoRunToAdvance(s, jobs, r);
    }
  }

  lemma NoRunToAdvance(s: System, jobs: nat -> Job, r: nat)
    requires r !in s.phases
    ensures Next(jobs, s, Advance(r)) == s
  {
  }

  lemma StartEndsWell(s: System, jobs: nat -> Job, r: nat)
    requires EndsWell(s, jobs, r)
    ensures EndsWell(Next(jobs, s, Start(r)), jobs, r)
  {
    hide Launches, Decided, RunSucceeds;
  }

  lemma AdvanceEndsWell(s: System, jobs: nat -> Job, r: nat)
    requires Gated(s, jobs) && EndsWell(s, jobs, r) && r in s.phases
    ensures EndsWell(Next(jobs, s, Advance(r)), jobs, r)
  {
    hide Gated, Launches, Decided, RunSucceeds, Ask, Prepared, DecisionFor, Sent, DecisionMessage, OpIn, Trusted;
    if ManagerMessage(jobs(r), s.phases[r]).Some? {
      AskKeeps(s, ManagerMessage(jobs(r), s.phases[r]).value, true);
    }
    match s.phases[r]
    case Waiting => LogGrows(s.log, VerifiedAt(r, |s.ops|), r);
    case Verified(at) => LogGrows(s.log, LaunchOf(r, at), r);
    case Launched(_) =>
      LaunchedHasProfile(s, jobs, r);
      LogGrows(s.log, DecisionOf(r, DecisionOfJob(jobs(r))), r);
    case _ =>
  }

  lemma LaunchedHasProfile(s: System, jobs: nat -> Job, r: nat)
    requires Gated(s, jobs) && r in s.phases && s.phases[r].Launched?
    ensures jobs(r).profile.Some? && jobs(r).manifest.Some?
    ensures jobs(r).profile.value.artifactId == jobs(r).manifest.value.artifactId
  {
    hide Gated;
    PhaseIsGood(s, jobs, r);
  }

  /** How runs end, in every reachable system: a run is over with success exactly when it was launched and
      its workload succeeded; and while trustd runs, every such run of an optimizing job has sent exactly
      one decision, every other run none. */
  lemma {:induction false} RunsEndWell(start: TM.Store, jobs: nat -> Job, steps: seq<Step>, r: nat)
    ensures var s := Exec(start, jobs, steps);
      && EndsWell(s, jobs, r)
      && (r in s.phases && s.phases[r].Finished? ==>
            && (s.phases[r].ok <==> Launches(s.log, r) && jobs(r).child == Exited(0) &&
                                    (jobs(r).optimizing ==> jobs(r).metricsFile))
            && (s.up ==> Decided(s.log, r) == if s.phases[r].ok && jobs(r).optimizing then 1 else 0))
    decreases |steps|
  {
    hide Next, Gated, Launches, Decided;
    if steps == [] {
      NothingHappened(r);
    } else {
      var n := |steps| - 1;
      RunsEndWell(start, jobs, steps[..n], r);
      assert Gated(Exec(start, jobs, steps[..n]), jobs) by { AlwaysGated(start, jobs, steps[..n]); }
      StepEndsWell(Exec(start, jobs, steps[..n]), jobs, steps[n], r);
    }
  }

  /** The words of a decision, for every answer of the optimizer. */
  predicate Says(d: Decision, answer: Answer) {
    match answer
    case Unreachable => (d.proposal, d.decision, d.reason) == ("none", "rejected", "optimizer_unavailable")
    case NoProposal => (d.proposal, d.decision, d.reason) == ("none", "rejected", "metrics_missing")
    case Proposal(action) =>
      && d.proposal == action
      && (action == "keep_current_profile" ==> (d.decision, d.reason) == ("approved", "policy_allows"))
      && (action == "reject_input" ==> (d.decision, d.reason) == ("approved", "input_rejected"))
      && (action == "request_high_accuracy_profile" ==> (d.decision, d.reason) == ("rejected", "profile_unavailable"))
      && (action !in {"keep_current_profile", "reject_input", "request_high_accuracy_profile"} ==>
            (d.decision, d.reason) == ("rejected", "unknown_proposal"))
  }

  lemma DecisionSays(runId: string, artifactId: string, answer: Answer)
    ensures var d := DecisionFor(runId, artifactId, answer);
      d.runId == runId && d.artifactId == artifactId && d.value == 0 && Says(d, answer)
  {
    assert |"request_high_accuracy_profile"| == 29 && |"keep_current_profile"| == 20 && |"reject_input"| == 12;
  }

  /** The words of a job can be sent in a decision. */
  predicate WordsFit(job: Job) {
    0 < |job.runId| <= 63 && All(job.runId, IsWordChar) && job.manifest.Some? &&
    0 < |job.manifest.value.artifactId| <= 63 && All(job.manifest.value.artifactId, IsWordChar) &&
    (job.answer.Proposal? ==> 0 < |job.answer.action| <= 127 && All(job.answer.action, IsWordChar))
  }

  /** The decision is made and sent: with trustd up, a launched workload of an optimizing job that succeeds
      makes its manager send one message, which trustd reads -- when the words fit -- as the decision the
      policy takes on the optimizer's answer, under the run's own id and artifact. */
  lemma DecisionsAreSent(start: TM.Store, jobs: nat -> Job, steps: seq<Step>, r: nat)
    requires var s := Exec(start, jobs, steps);
      s.up && r in s.phases && s.phases[r].Launched? && jobs(r).optimizing && jobs(r).child == Exited(0) &&
      jobs(r).metricsFile
    ensures var s, s' := Exec(start, jobs, steps), Exec(start, jobs, steps + [Advance(r)]);
      && |s'.log| == |s.log| + 1 && s'.log[..|s.log|] == s.log && s'.log[|s.log|].DecisionOf? && s'.log[|s.log|].run == r
      && jobs(r).manifest.Some?
      && var d := s'.log[|s.log|].decision;
         && d.runId == jobs(r).runId && d.artifactId == jobs(r).manifest.value.artifactId && d.value == 0
         && Says(d, jobs(r).answer)
         && s'.read == s.read + [Received(DecisionMessage(d))]
         && (WordsFit(jobs(r)) ==> ParseDecisionMessage(Received(DecisionMessage(d))) == Some(d))
         && s'.up && s'.phases == s.phases[r := if jobs(r).recorded then Recorded else Finished(true)]
  {
    hide Exec, Gated, Prepared, DecisionFor, Says, DecisionMessage, OpIn, Fatal, TM.Step, TM.Run, ParseDecisionMessage,
         DecisionText, OpteeRecord, IsWordChar;
    var s, job := Exec(start, jobs, steps), jobs(r);
    ExecSnoc(start, jobs, steps, Advance(r));
    AlwaysGated(start, jobs, steps);
    LaunchedHasProfile(s, jobs, r);
    ManagerMessageIs(job, s.phases[r]);
    DecisionSays(job.runId, job.manifest.value.artifactId, job.answer);
    if WordsFit(job) {
      RuntimeDecisionsFit(job.runId, job.manifest.value.artifactId, job.answer);
      var message := DecisionMessage(DecisionOfJob(job));
      assert message[..|message|] == message;
    }
  }

  /** A recorded decision is then asked for again, once, and the run is over. */
  lemma RecordedIsReported(start: TM.Store, jobs: nat -> Job, steps: seq<Step>, r: nat)
    requires var s := Exec(start, jobs, steps); r in s.phases && s.phases[r] == Recorded
    ensures var s, s' := Exec(start, jobs, steps), Exec(start, jobs, steps + [Advance(r)]);
      && s'.read == (if s.up then s.read + ["REPORT_DECISION\n"] else s.read)
      && s'.up == s.up && s'.log == s.log && s'.phases == s.phases[r := Finished(true)]
  {
    hide Exec, OpIn, Fatal, TM.Step, TM.Run;
    ExecSnoc(start, jobs, steps, Advance(r));
    ManagerMessageIs(jobs(r), Recorded);
  }

  /** ... and nothing else a run does sends one. */
  lemma OthersSendNone(start: TM.Store, jobs: nat -> Job, steps: seq<Step>, r: nat)
    requires var s := Exec(start, jobs, steps);
      !(s.up && r in s.phases && s.phases[r].Launched? && jobs(r).optimizing && RunSucceeds(jobs(r)))
    ensures var s, s' := Exec(start, jobs, steps), Exec(start, jobs, steps + [Advance(r)]);
      && (s'.read == s.read ||
          (|s'.read| == |s.read| + 1 && s'.read[..|s.read|] == s.read && !("RECORD_DECISION" <= s'.read[|s.read|])))
      && (s'.log == s.log || (|s'.log| == |s.log| + 1 && s'.log[..|s.log|] == s.log && !s'.log[|s.log|].DecisionOf?))
  {
    hide Exec, Prepared, RunSucceeds, DecisionFor, DecisionMessage, OpIn, Ask, Sent, Next;
    var s := Exec(start, jobs, steps);
    ExecSnoc(start, jobs, steps, Advance(r));
    AdvanceAsks(jobs, s, r);
    AdvanceLogs(jobs, s, r);
    if r in s.phases && ManagerMessage(jobs(r), s.phases[r]).Some? {
      var buf := ManagerMessage(jobs(r), s.phases[r]).value;
      AskGrows(s, buf, true);
      match s.phases[r]
      case Waiting =>
        PreparedHasManifest(jobs(r));
        SentTail(Verify, jobs(r).manifest.value);
        assert buf[..6] == "VERIFY" && buf[0] == 'V';
      case Recorded => assert buf[2] == 'P' && "RECORD_DECISION"[2] == 'C';
      case _ =>
    }
  }

  lemma AdvanceLogs(jobs: nat -> Job, s: System, r: nat)
    requires !(s.up && r in s.phases && s.phases[r].Launched? && jobs(r).optimizing && RunSucceeds(jobs(r)))
    ensures var s' := Next(jobs, s, Advance(r));
      s'.log == s.log || (|s'.log| == |s.log| + 1 && s'.log[..|s.log|] == s.log && !s'.log[|s.log|].DecisionOf?)
  {
    hide Prepared, RunSucceeds, DecisionFor, DecisionMessage, OpIn, Ask, Sent;
    if r in s.phases && ManagerMessage(jobs(r), s.phases[r]).Some? {
      AskKeeps(s, ManagerMessage(jobs(r), s.phases[r]).value, true);
    }
  }

  // --------------------------------------------------- versions only go forward

  /** No ENROLL of the artifact is accepted between two moments. */
  predicate NoEnrollBetween(start: TM.Store, ops: seq<TM.Op>, from: nat, to: nat, id: string) {
    forall k | from <= k < to && k < |ops| ::
      ops[k].Enroll? && ops[k].m.artifactId == id ==> TM.ReplyAt(start, ops, k) != TM.Accepted
  }

  lemma EpochBetween(start: TM.Store, ops: seq<TM.Op>, from: nat, to: nat, id: string)
    requires from <= to <= |ops| && NoEnrollBetween(start, ops, from, to, id)
    ensures TM.WithinEpoch(StoreAt(start, ops, from), ops[from..to], id)
    ensures TM.Run(StoreAt(start, ops, from), ops[from..to]) == StoreAt(start, ops, to)
  {
    hide TM.Step;
    var mid := ops[from..to];
    assert ops[..from] + mid == ops[..to];
    TM.RunConcat(start, ops[..from], mid);
    forall k | 0 <= k < |mid| && mid[k].Enroll? && mid[k].m.artifactId == id
      ensures TM.ReplyAt(StoreAt(start, ops, from), mid, k) != TM.Accepted
    {
      TM.RunConcat(start, ops[..from], mid[..k]);
      assert ops[..from] + mid[..k] == ops[..from + k];
      assert ops[from + k] == mid[k];
    }
  }

  /** Successive launches never go back in version: of two launches for which trustd read the same
      artifact, the one verified later was verified with at least the version of the other one and the
      same backend, unless an ENROLL of the artifact was accepted in between. For wire-safe manifests
      that is the launched version. */
  lemma LaunchesNeverRollBack(start: TM.Store, jobs: nat -> Job, steps: seq<Step>, i: nat, j: nat)
    requires AllWireSafe(start)
    requires var log := Exec(start, jobs, steps).log;
      i < |log| && j < |log| && log[i].LaunchOf? && log[j].LaunchOf? && log[i].at <= log[j].at
    requires var s := Exec(start, jobs, steps);
      && ArtifactOf(jobs(s.log[i].run)) == ArtifactOf(jobs(s.log[j].run))
      && NoEnrollBetween(start, s.ops, s.log[i].at, s.log[j].at, ArtifactOf(jobs(s.log[i].run)))
    ensures var s := Exec(start, jobs, steps);
      var first, second := jobs(s.log[i].run), jobs(s.log[j].run);
      && Asked(first).Some? && Asked(second).Some?
      && Asked(first).value.version <= Asked(second).value.version
      && Asked(first).value.backend == Asked(second).value.backend
      && (WireSafe(first.manifest.value) && WireSafe(second.manifest.value) ==>
            first.manifest.value.version <= second.manifest.value.version)
  {
    hide Exec, StoreAt, TM.Find, TM.WithinEpoch, NoEnrollBetween, TM.Run, WireSafe, Delivered;
    var s := Exec(start, jobs, steps);
    var from, to := s.log[i].at, s.log[j].at;
    LaunchesAreVerified(start, jobs, steps, i);
    LaunchesAreVerified(start, jobs, steps, j);
    DeliveredIff(Verify, jobs(s.log[i].run).manifest.value);
    DeliveredIff(Verify, jobs(s.log[j].run).manifest.value);
    var id := ArtifactOf(jobs(s.log[i].run));
    EpochBetween(start, s.ops, from, to, id);
    TM.NoRollback(StoreAt(start, s.ops, from), s.ops[from..to], id);
  }

  /** The artifact a run's VERIFY is about. */
  function ArtifactOf(job: Job): string {
    if Asked(job).None? then "" else Asked(job).value.artifactId
  }

  /** When a manager ends trustd: exactly when trustd reads a version below 1 from its VERIFY, which the
      manager's own check of a wire-safe manifest rules out. */
  lemma ManagerEndsTrustdIff(jobs: nat -> Job, s: System, r: nat)
    requires s.up && r in s.phases
    ensures !Next(jobs, s, Advance(r)).up
       <==> s.phases[r] == Waiting && Prepared(jobs(r)) && Asked(jobs(r)).Some? && Asked(jobs(r)).value.version <= 0
    ensures Prepared(jobs(r)) && WireSafe(jobs(r).manifest.value) ==> Next(jobs, s, Advance(r)).up
  {
    hide WireSafe, Delivered, Next, OpIn, Fatal, TM.Step, TM.Run, RunSucceeds, DecisionOfJob, Sent;
    AdvanceAsks(jobs, s, r);
    if ManagerMessage(jobs(r), s.phases[r]).Some? {
      ManagerMessageIs(jobs(r), s.phases[r]);
    }
    if jobs(r).manifest.Some? {
      DeliveredIff(Verify, jobs(r).manifest.value);
    }
  }

  // ------------------------------------------- launches the store never vouched for

  /** The steps of a run up to its launch. */
  function Launching(r: nat): seq<Step> { [Start(r), Advance(r), Advance(r), Advance(r)] }

  lemma ExecSnoc(start: TM.Store, jobs: nat -> Job, steps: seq<Step>, step: Step)
    ensures Exec(start, jobs, steps + [step]) == Next(jobs, Exec(start, jobs, steps), step)
  {
    hide Next;
    assert (steps + [step])[..|steps|] == steps;
  }

  lemma ExecLaunching(start: TM.Store, jobs: nat -> Job, steps: seq<Step>, r: nat)
    ensures Exec(start, jobs, steps + Launching(r))
         == var s := Next(jobs, Exec(start, jobs, steps), Start(r));
            Next(jobs, Next(jobs, Next(jobs, s, Advance(r)), Advance(r)), Advance(r))
  {
    hide Next, Exec;
    ExecSnoc(start, jobs, steps, Start(r));
    ExecSnoc(start, jobs, steps + [Start(r)], Advance(r));
    ExecSnoc(start, jobs, steps + [Start(r)] + [Advance(r)], Advance(r));
    ExecSnoc(start, jobs, steps + [Start(r)] + [Advance(r)] + [Advance(r)], Advance(r));
    assert steps + [Start(r)] + [Advance(r)] + [Advance(r)] + [Advance(r)] == steps + Launching(r);
  }

  /** The gate also opens: a new run is launched when its manifest has an artifact, a version from 1 on and a
      backend that the platform knows, its profile is for both, the paths fit, a child can be forked, trustd
      runs, and its store holds what it reads from the run's VERIFY. */
  lemma GateOpens(start: TM.Store, jobs: nat -> Job, steps: seq<Step>, r: nat)
    requires var s, job := Exec(start, jobs, steps), jobs(r);
      && s.up && r !in s.phases && job.pathsFit && job.child != NoFork
      && job.manifest.Some? && job.profile.Some? && job.profile.value.backend in {"mock", "onnxruntime-cpu"}
      && job.profile.value.artifactId == job.manifest.value.artifactId != ""
      && job.profile.value.backend == job.manifest.value.backend && job.manifest.value.version >= 1
      && Asked(job).Some?
      && var p := Asked(job).value; p.version >= 1 && TM.Find(TM.Run(start, s.ops), p.artifactId) == Some(p)
    ensures var s := Exec(start, jobs, steps);
      var at := |s.ops|;
      Exec(start, jobs, steps + Launching(r))
      == System(start, s.ops + [TM.Verify(Asked(jobs(r)).value)],
                s.read + [Sent(Verify, jobs(r).manifest.value)], true, s.phases[r := Launched(at)],
                s.log + [VerifiedAt(r, at)] + [LaunchOf(r, at)])
  {
    hide Exec, TM.Find, TM.Run, Delivered, Sent;
    assert Prepared(jobs(r));
    PreparedOpens(start, jobs, steps, r);
  }

  /** The gate decides, both ways: a run that is about to ask gets past its VERIFY exactly when trustd runs, reads
      a version from 1 on and holds what it reads, and is over without success otherwise. Whoever asks, a new run
      starts. */
  lemma GateDecides(start: TM.Store, jobs: nat -> Job, steps: seq<Step>, r: nat)
    ensures var s, s' := Exec(start, jobs, steps), Exec(start, jobs, steps + [Start(r)]);
      s' == s.(phases := s.phases[r := if r in s.phases then s.phases[r] else Started])
    ensures var s, s' := Exec(start, jobs, steps), Exec(start, jobs, steps + [Advance(r)]);
      var p := Asked(jobs(r));
      r in s.phases && s.phases[r] == Waiting ==>
        s'.phases == s.phases[r :=
          if s.up && p.Some? && p.value.version >= 1 && TM.Find(TM.Run(start, s.ops), p.value.artifactId) == p
          then Verified(|s.ops|) else Finished(false)]
  {
    hide Exec, Prepared, TM.Find, TM.Run, Delivered, Sent, Gated;
    var s := Exec(start, jobs, steps);
    ExecSnoc(start, jobs, steps, Start(r));
    ExecSnoc(start, jobs, steps, Advance(r));
    AlwaysGated(start, jobs, steps);
    if r in s.phases {
      assert s.phases[r := s.phases[r]] == s.phases;
      if s.phases[r] == Waiting {
        PhaseIsGood(s, jobs, r);
        PreparedHasManifest(jobs(r));
        SentIsRequest(Verify, jobs(r).manifest.value);
      }
    }
  }

  lemma PreparedOpens(start: TM.Store, jobs: nat -> Job, steps: seq<Step>, r: nat)
    requires var s := Exec(start, jobs, steps);
      s.up && r !in s.phases && Prepared(jobs(r)) && jobs(r).child != NoFork && Asked(jobs(r)).Some? &&
      var p := Asked(jobs(r)).value; p.version >= 1 && TM.Find(TM.Run(start, s.ops), p.artifactId) == Some(p)
    ensures var s := Exec(start, jobs, steps);
      var at := |s.ops|;
      Exec(start, jobs, steps + Launching(r))
      == System(start, s.ops + [TM.Verify(Asked(jobs(r)).value)],
                s.read + [Sent(Verify, jobs(r).manifest.value)], true, s.phases[r := Launched(at)],
                s.log + [VerifiedAt(r, at)] + [LaunchOf(r, at)])
  {
    hide Exec, Prepared, TM.Find, TM.Run, Delivered, Sent, ParseManifestMessage;
    ExecLaunching(start, jobs, steps, r);
    assert Exec(start, jobs, steps).start == start by { AlwaysGated(start, jobs, steps); }
    PreparedHasManifest(jobs(r));
    var s := Exec(start, jobs, steps);
    SentIsRequest(Verify, jobs(r).manifest.value);
    var waiting := s.(phases := s.phases[r := Started][r := Waiting]);
    assert Next(jobs, Next(jobs, s, Start(r)), Advance(r)) == waiting;
    assert waiting.phases[r := Verified(|s.ops|)][r := Launched(|s.ops|)] == s.phases[r := Launched(|s.ops|)];
  }

  /** A system in which one wire-safe manifest was enrolled and nothing else happened. */
  function Enrolled(good: Manifest): seq<Step> { [Message(ManifestMessage("ENROLL", good), true)] }

  lemma EnrolledIs(jobs: nat -> Job, good: Manifest)
    requires WireSafe(good) && good.version >= 1
    ensures Exec([], jobs, Enrolled(good))
         == System([], [TM.Enroll(good, true)], [Sent(Enroll, good)], true, map[], [])
    ensures TM.Run([], [TM.Enroll(good, true)]) == [good]
  {
    hide WireSafe, Delivered, Sent, ParseManifestMessage, ManifestMessage;
    SentIsRequest(Enroll, good);
    DeliveredIff(Enroll, good);
    assert Received(ManifestMessage("ENROLL", good)) == Sent(Enroll, good) by { EnrollSent(good); }
    assert Enrolled(good)[..0] == [] && [TM.Enroll(good, true)][..0] == [];
    assert [] + [TM.Enroll(good, true)] == [TM.Enroll(good, true)];
    assert [] + [Sent(Enroll, good)] == [Sent(Enroll, good)];
  }

  lemma EnrollSent(good: Manifest)
    ensures Received(ManifestMessage("ENROLL", good)) == Sent(Enroll, good)
  {
    hide ManifestMessage;
  }

  /** Whatever is put behind a white space in the hash is launched as if it had been enrolled. */
  lemma TamperedHashIsLaunched(jobs: nat -> Job, good: Manifest, junk: string)
    requires WireSafe(good) && Prepared(jobs(0)) && jobs(0).child != NoFork
    requires jobs(0).manifest == Some(good.(modelHash := good.modelHash + (" " + junk)))
    ensures var s := Exec([], jobs, Enrolled(good) + Launching(0));
      && |s.ops| == 2 && LaunchOf(0, 1) in s.log && StoreAt([], s.ops, 1) == [good] && jobs(0).manifest != Some(good)
  {
    hide Exec, WireSafe, Delivered, TM.Run;
    HashIsCut(Verify, good, junk);
    PreparedIsPrintable(jobs(0));
    EnrolledIs(jobs, good);
    PreparedOpens([], jobs, Enrolled(good), 0);
    var s := Exec([], jobs, Enrolled(good) + Launching(0));
    assert s.ops[..1] == [TM.Enroll(good, true)];
    assert |(good.modelHash + (" " + junk))| > |good.modelHash|;
  }

  lemma PreparedIsPrintable(job: Job)
    requires Prepared(job)
    ensures Printable(job.manifest.value)
  {
  }

  /** The manifest of examples/model-v1.json. */
  const DEMO := Manifest("demo-model", 1, "mock", "sha256-demo-model-v1")

  lemma DemoIsSafe()
    ensures WireSafe(DEMO)
  {
    assert All("demo-model", IsWordChar) && All("mock", IsWordChar) && All("sha256-demo-model-v1", IsWordChar);
    CarriedFields(31, DEMO);
  }

  /** A start of the runtime manager with a profile made for the manifest, and a workload that succeeds. */
  function DemoJob(m: Manifest): Job {
    Job(Some(m), false, Some(Profiles.Profile("demo", m.artifactId, m.backend, "m", true, true, true)), true, Exited(0),
        false, "run-1-1", Unreachable, true)
  }

  function TamperedJob(r: nat): Job {
    DemoJob(Manifest("demo-model", 1, "mock", "sha256-demo-model-v1 tampered"))
  }

  /** With the demo model enrolled, a manifest whose hash is not the enrolled one is launched. */
  lemma TamperedDemoWitness()
    ensures var s := Exec([], TamperedJob, Enrolled(DEMO) + Launching(0));
      |s.ops| == 2 && LaunchOf(0, 1) in s.log && StoreAt([], s.ops, 1) == [DEMO] && TamperedJob(0).manifest != Some(DEMO)
  {
    hide Exec, WireSafe;
    DemoIsSafe();
    assert "sha256-demo-model-v1 tampered" == "sha256-demo-model-v1" + (" " + "tampered");
    TamperedHashIsLaunched(TamperedJob, DEMO, "tampered");
  }

  function BorrowingJob(r: nat): Job {
    DemoJob(Manifest(RecordText(DEMO), if r == 0 then 9 else 3, "mock", "evil"))
  }

  lemma BorrowingIsPrepared(r: nat)
    ensures Prepared(BorrowingJob(r))
  {
    hide RecordText;
    RecordTextIs(DEMO);
  }

  /** An artifact id that spells the demo model's record borrows its identity: any hash is launched, and
      two launches under that id go from version 9 back to version 3 without any ENROLL in between. */
  lemma BorrowedIdentityWitness()
    ensures var s := Exec([], BorrowingJob, Enrolled(DEMO) + Launching(0) + Launching(1));
      && |s.ops| == 3 && LaunchOf(0, 1) in s.log && LaunchOf(1, 2) in s.log
      && (forall k | 1 <= k < |s.ops| :: !s.ops[k].Enroll?)
      && StoreAt([], s.ops, 1) == StoreAt([], s.ops, 2) == [DEMO]
      && BorrowingJob(0).manifest.value.version == 9 && BorrowingJob(1).manifest.value.version == 3
  {
    hide Exec, WireSafe, Prepared, Delivered, RecordText, TM.Run;
    var jobs := BorrowingJob;
    DemoIsSafe();
    BorrowingIsPrepared(0);
    BorrowingIsPrepared(1);
    IdIsCut(Verify, DEMO, 9, "mock", "evil");
    IdIsCut(Verify, DEMO, 3, "mock", "evil");
    EnrolledIs(jobs, DEMO);
    PreparedOpens([], jobs, Enrolled(DEMO), 0);
    var enroll, verify := TM.Enroll(DEMO, true), TM.Verify(DEMO);
    RunSnoc([], [enroll], verify);
    PreparedOpens([], jobs, Enrolled(DEMO) + Launching(0), 1);
    var s := Exec([], jobs, Enrolled(DEMO) + Launching(0) + Launching(1));
    assert s.ops == [enroll] + [verify] + [verify];
    assert s.ops[..1] == [enroll] && s.ops[..2] == [enroll] + [verify];
  }
}
