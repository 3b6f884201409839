/** The supervisor's plan loops over the trust service. */
module Supervisors {
  import opened CText
  import opened Manifests
  import opened Protocol
  import opened StateFile
  import opened Plans
  import opened RunCommand
  import RunParser
  import TM = TrustMachine

  /** The manifest files of the deployment: what `tear_manifest_load` makes of a path. */
  type Library = string -> Option<Manifest>

  /** Whether a backend takes a manifest. */
  type Capacity = (TM.Store, Manifest) -> bool

  /** The service that the supervisor's children talk to: the store behind trustd, and whether trustd
      still runs. */
  datatype Service = Service(store: TM.Store, up: bool)

  /** The manifest trustd enrolls when tearictl is given `m`, if both of them survive it. */
  function Deployed(m: Manifest): Option<Manifest> {
    match Delivered(Enroll, m)
    case None => None
    case Some(p) => if p.version >= 1 && Printable(m) then Some(p) else None
  }

  /** What becomes of the two tearictl children of one line: whether the first can be forked and waited
      for, and whether its REPORT sibling works. */
  datatype Calls = Calls(forks: bool, waits: bool, reports: bool)

  predicate Works(calls: Calls) { calls.forks && calls.waits && calls.reports }

  /** `tearictl enroll`: whether it exits with 0, and the service afterwards. */
  function TearictlEnroll(s: Service, m: Option<Manifest>, room: Capacity): (bool, Service) {
    if m.None? || !s.up then (false, s)
    else
      match Delivered(Enroll, m.value)
      case None => (false, s)
      case Some(p) =>
        var (store, reply) := TM.Step(s.store, TM.Enroll(p, room(s.store, p)));
        (reply == TM.Accepted && p.version >= 1 && Printable(m.value), Service(store, p.version >= 1))
  }

  /** `provision_manifest_path`: the ENROLL child, and the REPORT child, which is answered when the ENROLL
      was. */
  function ProvisionOne(s: Service, m: Option<Manifest>, room: Capacity, calls: Calls): (bool, Service) {
    if !calls.forks then (false, s)
    else
      var (ok, after) := TearictlEnroll(s, m, room);
      (ok && calls.waits && calls.reports, after)
  }

  /** The manifests trustd enrolls for a list of commands, if all of them load and are deployed. */
  function ManifestsOf(cs: seq<RunConfig>, load: Library): Option<seq<Manifest>> {
    if cs == [] then Some([])
    else if load(cs[0].manifest).None? || Deployed(load(cs[0].manifest).value).None? then None
    else
      match ManifestsOf(cs[1..], load)
      case None => None
      case Some(ms) => Some([Deployed(load(cs[0].manifest).value).value] + ms)
  }

  /** The fgets loop of `provision_plan_file` from its `n`-th command on: whether it gets to the end, and
      the service it leaves -- after a failure, the one with the lines before it enrolled. */
  function Provisioned(lines: seq<string>, load: Library, room: Capacity, s: Service, calls: nat -> Calls, n: nat)
    : (bool, Service)
    decreases |lines|
  {
    if lines == [] then (true, s)
    else
      match StepOf(lines[0])
      case Skip => Provisioned(lines[1..], load, room, s, calls, n)
      case Invalid => (false, s)
      case Run(c) =>
        var (ok, after) := ProvisionOne(s, load(c.manifest), room, calls(n));
        if !ok then (false, after) else Provisioned(lines[1..], load, room, after, calls, n + 1)
  }

  /** The manifests fit one after the other. */
  predicate AllRoom(ms: seq<Manifest>, room: Capacity, store: TM.Store) {
    ms == [] || (room(store, ms[0]) && AllRoom(ms[1..], room, TM.Put(store, ms[0])))
  }

  /** One line: it is provisioned exactly when the children work, trustd runs, the manifest loads, is
      deployed and finds room. */
  lemma EnrolledExactly(s: Service, m: Option<Manifest>, room: Capacity, calls: Calls)
    ensures var (ok, after) := ProvisionOne(s, m, room, calls);
      && (ok <==> Works(calls) && s.up && m.Some? && Deployed(m.value).Some? && room(s.store, Deployed(m.value).value))
      && (ok ==> after == Service(TM.Put(s.store, Deployed(m.value).value), true))
    ensures m.Some? ==>
      (Deployed(m.value).Some?
       <==> m.value.artifactId != "" && m.value.version >= 1 && m.value.backend != "" &&
            Delivered(Enroll, m.value).Some? && Delivered(Enroll, m.value).value.version >= 1)
    ensures m.Some? && Deployed(m.value).Some? ==> Deployed(m.value) == Delivered(Enroll, m.value)
    ensures Works(calls) <==> calls == Calls(true, true, true)
  {
    hide Delivered, TM.Put;
  }

  /** ... and whatever happens, this is the service afterwards: an ENROLL that reaches trustd is stored
      when there is room, also when the line fails; and trustd ends on a version below 1. */
  lemma EnrollLeaves(s: Service, m: Option<Manifest>, room: Capacity, calls: Calls)
    ensures var after := ProvisionOne(s, m, room, calls).1;
      var sent := if calls.forks && s.up && m.Some? then Delivered(Enroll, m.value) else None;
      && (sent.None? ==> after == s)
      && (sent.Some? ==>
            && (after.up <==> sent.value.version >= 1)
            && (room(s.store, sent.value) ==>
                  forall id :: TM.Find(after.store, id)
                               == if id == sent.value.artifactId then sent else TM.Find(s.store, id))
            && (!room(s.store, sent.value) ==> after.store == s.store))
  {
    hide Delivered, TM.Put, TM.Find;
    if calls.forks && s.up && m.Some? && Delivered(Enroll, m.value).Some? {
      forall id {
        TM.FindPut(s.store, Delivered(Enroll, m.value).value, id);
      }
    }
  }

  /** A plan is provisioned line by line: what a failing line leaves is what the plan leaves. */
  lemma {:induction false} ProvisionedConcat(a: seq<string>, b: seq<string>, load: Library, room: Capacity, s: Service,
                                             calls: nat -> Calls, n: nat)
    ensures var (ok, after) := Provisioned(a, load, room, s, calls, n);
      Provisioned(a + b, load, room, s, calls, n)
      == if ok then Provisioned(b, load, room, after, calls, n + |Commands(a).0|) else (false, after)
    decreases |a|
  {
    hide StepOf, ProvisionOne;
    if a == [] {
      assert a + b == b;
    } else {
      assert (a + b)[1..] == a[1..] + b;
      match StepOf(a[0])
      case Skip => ProvisionedConcat(a[1..], b, load, room, s, calls, n);
      case Invalid =>
      case Run(c) =>
        var (ok, after) := ProvisionOne(s, load(c.manifest), room, calls(n));
        if ok {
          ProvisionedConcat(a[1..], b, load, room, after, calls, n + 1);
        }
    }
  }

  /** One line: a remark changes nothing, an invalid line fails and changes nothing, and a command does what
      its children do, whether they fail or not. */
  lemma OneLineIsProvisioned(line: string, load: Library, room: Capacity, s: Service, calls: nat -> Calls, n: nat)
    ensures Provisioned([line], load, room, s, calls, n)
         == match StepOf(line)
            case Skip => (true, s)
            case Invalid => (false, s)
            case Run(c) => ProvisionOne(s, load(c.manifest), room, calls(n))
  {
    hide StepOf, ProvisionOne;
    assert [line][1..] == [];
  }

  /** All children for `k` commands from the `n`-th on work. */
  predicate AllWork(calls: nat -> Calls, n: nat, k: nat) {
    forall i: nat | n <= i < n + k :: Works(calls(i))
  }

  /** A plan is provisioned exactly when every line is a valid command, every manifest loads, reaches
      trustd as one with a version from 1 on, and finds room, the children work -- and trustd runs,
      unless the plan is empty; the store is then the old one with these manifests enrolled in plan
      order. */
  lemma {:induction false} ProvisionedExactly(lines: seq<string>, load: Library, room: Capacity, s: Service,
                                              calls: nat -> Calls, n: nat)
    ensures var (cs, valid) := Commands(lines);
      var ms := ManifestsOf(cs, load);
      var (ok, after) := Provisioned(lines, load, room, s, calls, n);
      && (ok <==> valid && ms.Some? && AllRoom(ms.value, room, s.store) && AllWork(calls, n, |cs|) && (s.up || cs == []))
      && (ok ==> after == Service(EnrollAll(s.store, ms.value), s.up))
    decreases |lines|
  {
    hide StepOf, TM.Put, Deployed, ProvisionOne, AllWork, Works;
    NoWork(calls, n);
    if lines != [] {
      match StepOf(lines[0])
      case Skip => ProvisionedExactly(lines[1..], load, room, s, calls, n);
      case Invalid =>
      case Run(c) =>
        var cs := Commands(lines[1..]).0;
        assert ([c] + cs)[1..] == cs;
        var m := load(c.manifest);
        EnrolledExactly(s, m, room, calls(n));
        WorkSplits(calls, n, |cs|);
        if ProvisionOne(s, m, room, calls(n)).0 {
          ProvisionedExactly(lines[1..], load, room, ProvisionOne(s, m, room, calls(n)).1, calls, n + 1);
        }
        if m.Some? && Deployed(m.value).Some? && ManifestsOf(cs, load).Some? {
          var ms := ManifestsOf(cs, load).value;
          assert ([Deployed(m.value).value] + ms)[1..] == ms;
          EnrollCons(s.store, Deployed(m.value).value, ms);
        }
    }
  }

  /** The same for a plan written line by line. */
  lemma WrittenPlanIsProvisioned(ls: seq<PlanLine>, load: Library, room: Capacity, s: Service, calls: nat -> Calls)
    requires AllMeant(ls)
    ensures var cs := ConfigsOf(ls);
      var ms := ManifestsOf(cs, load);
      var (ok, after) := Provisioned(Lines(PlanText(ls), 512), load, room, s, calls, 0);
      && (ok <==> (forall k | 0 <= k < |ls| :: !MeaningOf(ls[k]).Invalid?) && ms.Some? &&
                  AllRoom(ms.value, room, s.store) && AllWork(calls, 0, |cs|) && (s.up || cs == []))
      && (ok ==> after == Service(EnrollAll(s.store, ms.value), s.up))
  {
    hide Meant, LineText, MeaningOf, PlanText, Lines, AllWork, AllRoom, ManifestsOf, EnrollAll, Commands, ConfigsOf,
         Provisioned;
    PlanRoundTrip(ls);
    ProvisionedExactly(Lines(PlanText(ls), 512), load, room, s, calls, 0);
    if ValidLines(ls) == |ls| {
      assert ls[..|ls|] == ls;
    }
  }

  lemma NoWork(calls: nat -> Calls, n: nat)
    ensures AllWork(calls, n, 0)
  {
  }

  lemma WorkSplits(calls: nat -> Calls, n: nat, k: nat)
    ensures AllWork(calls, n, k + 1) <==> Works(calls(n)) && AllWork(calls, n + 1, k)
  {
    hide Works;
  }

  lemma {:induction false} EnrollCons(store: TM.Store, m: Manifest, ms: seq<Manifest>)
    ensures EnrollAll(store, [m] + ms) == EnrollAll(TM.Put(store, m), ms)
    decreases |ms|
  {
    hide TM.Put;
    var all := [m] + ms;
    if ms == [] {
      assert all[..0] == [];
    } else {
      assert all[..|all| - 1] == [m] + ms[..|ms| - 1];
      EnrollCons(store, m, ms[..|ms| - 1]);
    }
  }

  function EnrollAll(store: TM.Store, ms: seq<Manifest>): TM.Store
    decreases |ms|
  {
    if ms == [] then store else TM.Put(EnrollAll(store, ms[..|ms| - 1]), ms[|ms| - 1])
  }

  /** The last manifest of an artifact on a plan. */
  function LastFor(ms: seq<Manifest>, id: string): Option<Manifest>
    decreases |ms|
  {
    if ms == [] then None
    else if ms[|ms| - 1].artifactId == id then Some(ms[|ms| - 1])
    else LastFor(ms[..|ms| - 1], id)
  }

  lemma {:induction false} FindEnrolled(store: TM.Store, ms: seq<Manifest>, id: string)
    ensures TM.Find(EnrollAll(store, ms), id)
         == if LastFor(ms, id).Some? then LastFor(ms, id) else TM.Find(store, id)
    decreases |ms|
  {
    if ms != [] {
      var init := ms[..|ms| - 1];
      FindEnrolled(store, init, id);
      TM.FindPut(EnrollAll(store, init), ms[|ms| - 1], id);
    }
  }

  lemma {:induction false} OnPlan(ms: seq<Manifest>, k: nat)
    requires k < |ms|
    ensures LastFor(ms, ms[k].artifactId).Some?
    decreases |ms|
  {
    if k < |ms| - 1 {
      OnPlan(ms[..|ms| - 1], k);
    }
  }

  /** Provision, then run: once every manifest of a plan is enrolled, the VERIFY for a line succeeds
      exactly when the line's manifest is the one of the last line with the same artifact. */
  lemma ProvisionedVerifies(store: TM.Store, ms: seq<Manifest>, k: nat)
    requires k < |ms|
    ensures TM.Step(EnrollAll(store, ms), TM.Verify(ms[k])).1 == TM.Accepted
       <==> LastFor(ms, ms[k].artifactId) == Some(ms[k])
  {
    FindEnrolled(store, ms, ms[k].artifactId);
    OnPlan(ms, k);
  }

  datatype State = Ready | Running

  /** What becomes of one run besides trust: whether the supervisor can fork, the manager gets as far as
      VERIFY with its profile and paths, `waitpid` works, and everything after VERIFY succeeds. */
  datatype Course = Course(forks: bool, prepared: bool, waits: bool, succeeds: bool)

  /** What a run asked trustd, if it asked, and whether the answer was OK. */
  datatype Ran = Ran(asked: Option<Manifest>, verified: bool)

  /** The manager child of one run: it asks trustd to verify its manifest, which does not change the
      store, but can end trustd. */
  function RunOf(s: Service, m: Option<Manifest>, course: Course): (Ran, Service) {
    if !course.forks || m.None? || !Printable(m.value) || !course.prepared || !s.up then (Ran(None, false), s)
    else
      match Delivered(Verify, m.value)
      case None => (Ran(None, false), s)
      case Some(p) =>
        (Ran(Some(p), p.version >= 1 && TM.Step(s.store, TM.Verify(p)).1 == TM.Accepted), s.(up := p.version >= 1))
  }

  /** The runs of a list of commands, one after the other; `courses(k)` is the course of the k-th. */
  function RunsOf(s: Service, load: Library, cs: seq<RunConfig>, courses: nat -> Course): (r: (seq<Ran>, Service))
    ensures |r.0| == |cs|
    decreases |cs|
  {
    if cs == [] then ([], s)
    else
      var n := |cs| - 1;
      var (runs, before) := RunsOf(s, load, cs[..n], courses);
      var (ran, after) := RunOf(before, load(cs[n].manifest), courses(n));
      (runs + [ran], after)
  }

  /** trustd answers OK to the VERIFY of a manifest, and the client gets as far as sending it: its event
      writer takes an artifact, a version from 1 on and a backend. */
  predicate Verifies(s: Service, m: Option<Manifest>) {
    s.up && m.Some? && m.value.artifactId != "" && m.value.version >= 1 && m.value.backend != "" &&
    match Delivered(Verify, m.value)
    case None => false
    case Some(p) => p.version >= 1 && TM.Find(s.store, p.artifactId) == Some(p)
  }

  /** One run, for every service, manifest and course: it is verified exactly when it gets as far as
      asking and trustd holds what it asks for; it asks with what trustd reads of its manifest; the store
      is never changed, and trustd ends exactly on a version below 1. */
  lemma RunExactly(s: Service, m: Option<Manifest>, course: Course)
    ensures var (ran, after) := RunOf(s, m, course);
      var asks := course.forks && course.prepared && s.up && m.Some? &&
        m.value.artifactId != "" && m.value.version >= 1 && m.value.backend != "";
      && (ran.verified <==> course.forks && course.prepared && Verifies(s, m))
      && ran.asked == (if asks then Delivered(Verify, m.value) else None)
      && after.store == s.store
      && (after.up <==> s.up && (ran.asked.Some? ==> ran.asked.value.version >= 1))
  {
    hide Delivered, TM.Find;
  }

  /** No run asked for a manifest that ends trustd. */
  predicate AllLive(runs: seq<Ran>) {
    forall k | 0 <= k < |runs| :: runs[k].asked.Some? ==> runs[k].asked.value.version >= 1
  }

  /** The runs of a plan: each is verified exactly when it gets as far as asking, the store -- the same
      for all of them -- holds what it asks for, and no run before it ended trustd. */
  lemma {:induction false} RunsExactly(s: Service, load: Library, cs: seq<RunConfig>, courses: nat -> Course)
    ensures var (runs, after) := RunsOf(s, load, cs, courses);
      && after == Service(s.store, s.up && AllLive(runs))
      && forall k | 0 <= k < |cs| ::
           (runs[k].verified <==>
              courses(k).forks && courses(k).prepared && AllLive(runs[..k]) && Verifies(s, load(cs[k].manifest)))
    decreases |cs|
  {
    hide RunOf, Verifies, AllLive;
    if cs == [] {
      NothingLive();
    } else {
      var n := |cs| - 1;
      var (runs, before) := RunsOf(s, load, cs[..n], courses);
      RunsExactly(s, load, cs[..n], courses);
      var m := load(cs[n].manifest);
      RunExactly(before, m, courses(n));
      VerifiesUp(s, before, m);
      var ran := RunOf(before, m, courses(n)).0;
      LiveSnoc(runs, ran);
      var all := RunsOf(s, load, cs, courses).0;
      assert all == runs + [ran];
      assert forall k | 0 <= k <= n :: all[..k] == runs[..k];
      assert runs[..n] == runs;
    }
  }

  lemma NothingLive()
    ensures AllLive([])
  {
  }

  lemma LiveSnoc(runs: seq<Ran>, ran: Ran)
    ensures AllLive(runs + [ran]) <==> AllLive(runs) && (ran.asked.Some? ==> ran.asked.value.version >= 1)
  {
    var all := runs + [ran];
    assert all[|runs|] == ran && forall k | 0 <= k < |runs| :: all[k] == runs[k];
  }

  lemma VerifiesUp(s: Service, t: Service, m: Option<Manifest>)
    requires t.store == s.store && (t.up ==> s.up)
    ensures Verifies(t, m) <==> t.up && Verifies(s, m)
  {
  }

  class Supervisor {
    var state: State
    /** trustd, which the supervisor started once. */
    var service: Service
    const room: Capacity
    const load: Library

    constructor (room: Capacity, load: Library)
      ensures state == Ready && service == Service([], true) && this.room == room && this.load == load
    {
      state, service := Ready, Service([], true);
      this.room, this.load := room, load;
    }

    /** `provision_manifest_path` */
    method ProvisionManifest(path: string, calls: Calls) returns (ret: int)
      modifies this`service
      ensures (ret == 0, service) == ProvisionOne(old(service), load(path), room, calls) && ret in {0, -1}
    {
      hide Delivered;
      if !calls.forks {
        return -1;
      }
      var enrolled := TearictlEnrolls(load(path));
      if !enrolled || !calls.waits {
        return -1;
      }
      ret := if calls.reports then 0 else -1;
    }

    /** The child: `cmd_enroll`, with the abort of its event writer. */
    method TearictlEnrolls(m: Option<Manifest>) returns (ok: bool)
      modifies this`service
      ensures (ok, service) == TearictlEnroll(old(service), m, room)
    {
      hide Delivered;
      if m.None? || !service.up {
        return false;
      }
      var p := Delivered(Enroll, m.value);
      if p.None? {
        return false;
      }
      var (after, reply) := TM.Step(service.store, TM.Enroll(p.value, room(service.store, p.value)));
      service := Service(after, p.value.version >= 1);
      ok := reply == TM.Accepted && service.up && Printable(m.value);
    }

    /** `provision_plan_file` */
    method ProvisionPlan(content: Option<string>, calls: nat -> Calls) returns (ret: int)
      modifies this`service
      ensures content.None? ==> ret == -1 && service == old(service)
      ensures content.Some? ==>
        (ret == 0, service) == Provisioned(Lines(content.value, 512), load, room, old(service), calls, 0) && ret in {0, -1}
    {
      hide Lines, StepOf, TM.Put, ProvisionOne;
      if content.None? {
        return -1;
      }
      var text, pos: nat, n: nat := content.value, 0, 0;
      ghost var whole := Provisioned(Lines(text, 512), load, room, service, calls, 0);
      assert text[0..] == text;
      NothingRead();
      while pos < |text|
        invariant 0 <= pos <= |text|
        invariant Provisioned(Lines(text[pos..], 512), load, room, service, calls, n) == whole
        decreases |text| - pos
      {
        var line;
        line, pos := FGets(text, pos, 512);
        assert ([line] + Lines(text[pos..], 512))[1..] == Lines(text[pos..], 512);
        var step := StepOf(line);
        if step.Skip? {
          continue;
        }
        if step.Invalid? {
          return -1;
        }
        ret := ProvisionManifest(step.config.manifest, calls(n));
        n := n + 1;
        if ret < 0 {
          return;
        }
      }
      assert text[pos..] == "";
      ret := 0;
    }

    /** `run_workload_once`: whatever happens to the child, the supervisor is ready again. */
    method RunWorkloadOnce(c: RunConfig, course: Course) returns (ret: int, ran: Ran)
      modifies this`state, this`service
      ensures state == Ready && (ran, service) == RunOf(old(service), load(c.manifest), course)
      ensures ret == if ran.verified && course.waits && course.succeeds then 0 else 1
      ensures ret == 0 <==> course == Course(true, true, true, true) && Verifies(old(service), load(c.manifest))
    {
      hide Delivered, TM.Step, Verifies;
      RunExactly(service, load(c.manifest), course);
      state := Running;
      if !course.forks {
        state := Ready;
        return 1, Ran(None, false);
      }
      ran := Manage(load(c.manifest), course);
      if !course.waits {
        state := Ready;
        return 1, ran;
      }
      state := Ready;
      ret := if ran.verified && course.succeeds then 0 else 1;
    }

    /** The child: the runtime manager up to the answer to its VERIFY. */
    method Manage(m: Option<Manifest>, course: Course) returns (ran: Ran)
      requires course.forks
      modifies this`service
      ensures (ran, service) == RunOf(old(service), m, course)
    {
      hide Delivered, TM.Step;
      if m.None? || !Printable(m.value) || !course.prepared || !service.up {
        return Ran(None, false);
      }
      var p := Delivered(Verify, m.value);
      if p.None? {
        return Ran(None, false);
      }
      var (_, reply) := TM.Step(service.store, TM.Verify(p.value));
      service := service.(up := p.value.version >= 1);
      ran := Ran(p, service.up && reply == TM.Accepted);
    }

    /** `run_plan_file`: a failed run does not stop the plan, an invalid line does. */
    method RunPlan(content: Option<string>, courses: nat -> Course) returns (ret: int, runs: seq<Ran>)
      requires state == Ready
      modifies this`state, this`service
      ensures state == Ready
      ensures content.None? ==> ret == -1 && runs == [] && service == old(service)
      ensures content.Some? ==>
        var (cs, ok) := Commands(Lines(content.value, 512));
        ret == (if ok then 0 else -1) && (runs, service) == RunsOf(old(service), load, cs, courses)
    {
      hide Lines, Commands, StepOf, RunOf, RunsOf;
      runs := [];
      if content.None? {
        return -1, runs;
      }
      var text, pos: nat := content.value, 0;
      ghost var done: seq<RunConfig>, all := [], Commands(Lines(text, 512));
      assert text[0..] == text && [] + all.0 == all.0;
      NothingRead();
      NothingRun(service, load, courses);
      while pos < |text|
        invariant 0 <= pos <= |text| && state == Ready
        invariant var (rest, ok) := Commands(Lines(text[pos..], 512)); ok == all.1 && all.0 == done + rest
        invariant |runs| == |done| && (runs, service) == RunsOf(old(service), load, done, courses)
        decreases |text| - pos
      {
        var line;
        line, pos := FGets(text, pos, 512);
        CommandsStep(line, Lines(text[pos..], 512));
        var step := StepOf(line);
        if step.Skip? {
          continue;
        }
        if step.Invalid? {
          assert all.0 == done + [] && done + [] == done;
          return -1, runs;
        }
        RunsSnoc(old(service), load, done, step.config, courses);
        var r, ran := RunWorkloadOnce(step.config, courses(|runs|));
        ghost var rest := Commands(Lines(text[pos..], 512)).0;
        assert done + ([step.config] + rest) == (done + [step.config]) + rest;
        runs := runs + [ran];
        done := done + [step.config];
        if r < 0 {
          return -1, runs;
        }
      }
      assert text[pos..] == "";
      assert done + [] == done;
      ret := 0;
    }
  }

  lemma NothingRun(s: Service, load: Library, courses: nat -> Course)
    ensures RunsOf(s, load, [], courses) == ([], s)
  {
  }

  lemma RunsSnoc(s: Service, load: Library, cs: seq<RunConfig>, c: RunConfig, courses: nat -> Course)
    ensures var (runs, before) := RunsOf(s, load, cs, courses);
      var (ran, after) := RunOf(before, load(c.manifest), courses(|cs|));
      RunsOf(s, load, cs + [c], courses) == (runs + [ran], after)
  {
    hide RunOf;
    assert (cs + [c])[..|cs|] == cs;
  }

  lemma {:induction false} ManifestAt(cs: seq<RunConfig>, load: Library, k: nat)
    requires ManifestsOf(cs, load).Some?
    ensures |ManifestsOf(cs, load).value| == |cs|
    ensures k < |cs| ==> load(cs[k].manifest).Some? &&
                         Deployed(load(cs[k].manifest).value) == Some(ManifestsOf(cs, load).value[k])
  {
    hide Deployed;
    if cs != [] {
      ManifestAt(cs[1..], load, if k == 0 then 0 else k - 1);
    }
  }

  /** What a deployed manifest's run asks: the manifest that was enrolled for it. */
  lemma DeployedRun(s: Service, m: Manifest, course: Course)
    requires s.up && Deployed(m).Some?
    ensures var p := Deployed(m).value;
      var asks := course.forks && course.prepared;
      RunOf(s, Some(m), course)
      == (Ran(if asks then Some(p) else None, asks && TM.Step(s.store, TM.Verify(p)).1 == TM.Accepted), s)
  {
    hide Delivered, TM.Step;
    DeliveredAlike(Enroll, Verify, m);
  }

  lemma {:induction false} DeployedRuns(s: Service, load: Library, cs: seq<RunConfig>, courses: nat -> Course, n: nat)
    requires n <= |cs| && s.up && ManifestsOf(cs, load).Some? && |ManifestsOf(cs, load).value| == |cs|
    ensures var (runs, after) := RunsOf(s, load, cs[..n], courses);
      && after == s
      && forall k | 0 <= k < n ::
           var m, asks := ManifestsOf(cs, load).value[k], courses(k).forks && courses(k).prepared;
           runs[k] == Ran(if asks then Some(m) else None, asks && TM.Step(s.store, TM.Verify(m)).1 == TM.Accepted)
  {
    hide RunOf, Deployed, TM.Step, ManifestsOf, RunsOf;
    if n == 0 {
      NothingRun(s, load, courses);
    } else {
      DeployedRuns(s, load, cs, courses, n - 1);
      ManifestAt(cs, load, n - 1);
      DeployedRun(s, load(cs[n - 1].manifest).value, courses(n - 1));
      assert cs[..n] == cs[..n - 1] + [cs[n - 1]];
      RunsSnoc(s, load, cs[..n - 1], cs[n - 1], courses);
    }
  }

  /** PROVISION_PLAN answered with success and RUN_PLAN on the same plan after it, with no other request
      in between: the whole plan runs and leaves the service as it is; every run that gets as far as
      asking asks for its line's delivered manifest, and is verified exactly when that is the manifest
      of the last line with the same artifact. An empty plan needs no trustd. */
  lemma ProvisionedRuns(lines: seq<string>, load: Library, room: Capacity, s: Service, calls: nat -> Calls,
                        courses: nat -> Course)
    requires Provisioned(lines, load, room, s, calls, 0).0
    ensures var (cs, valid) := Commands(lines);
      var after := Provisioned(lines, load, room, s, calls, 0).1;
      var (runs, end) := RunsOf(after, load, cs, courses);
      && valid && ManifestsOf(cs, load).Some? && |ManifestsOf(cs, load).value| == |cs| && end == after
      && forall k | 0 <= k < |cs| ::
           var m, asks := ManifestsOf(cs, load).value[k], courses(k).forks && courses(k).prepared;
           && load(cs[k].manifest).Some? && Delivered(Verify, load(cs[k].manifest).value) == Some(m)
           && runs[k].asked == (if asks then Some(m) else None)
           && (runs[k].verified <==> asks && LastFor(ManifestsOf(cs, load).value, m.artifactId) == Some(m))
  {
    hide Lines, Commands, TM.Step, EnrollAll, ManifestsOf, Provisioned, AllRoom, RunsOf, AllWork, Delivered;
    ProvisionedExactly(lines, load, room, s, calls, 0);
    var cs := Commands(lines).0;
    var ms := ManifestsOf(cs, load).value;
    var after := Provisioned(lines, load, room, s, calls, 0).1;
    ManifestAt(cs, load, 0);
    assert cs[..|cs|] == cs;
    if s.up {
      DeployedRuns(after, load, cs, courses, |cs|);
    } else {
      NothingRun(after, load, courses);
    }
    forall k | 0 <= k < |cs|
      ensures load(cs[k].manifest).Some? && Delivered(Verify, load(cs[k].manifest).value) == Some(ms[k])
      ensures TM.Step(after.store, TM.Verify(ms[k])).1 == TM.Accepted <==> LastFor(ms, ms[k].artifactId) == Some(ms[k])
    {
      ManifestAt(cs, load, k);
      DeployedIsDelivered(load(cs[k].manifest).value);
      ProvisionedVerifies(s.store, ms, k);
    }
  }

  lemma DeployedIsDelivered(m: Manifest)
    requires Deployed(m).Some?
    ensures Delivered(Verify, m) == Deployed(m)
  {
    hide Delivered;
    DeliveredAlike(Enroll, Verify, m);
  }

  /** The two commands, one after the other. */
  method ProvisionThenRun(sup: Supervisor, content: Option<string>, calls: nat -> Calls, courses: nat -> Course)
    returns (provisioned: bool, ms: seq<Manifest>, runs: seq<Ran>)
    requires sup.state == Ready
    modifies sup
    ensures sup.state == Ready
    ensures content.None? ==> !provisioned && sup.service == old(sup.service)
    ensures content.Some? ==>
      var lines := Lines(content.value, 512);
      var (ok, after) := Provisioned(lines, sup.load, sup.room, old(sup.service), calls, 0);
      var cs := Commands(lines).0;
      && provisioned == ok && sup.service == after
      && (ok ==> ManifestsOf(cs, sup.load) == Some(ms) && runs == RunsOf(after, sup.load, cs, courses).0)
    ensures provisioned ==> |runs| == |ms| && forall k | 0 <= k < |ms| ::
      (runs[k].verified <==> courses(k).forks && courses(k).prepared && LastFor(ms, ms[k].artifactId) == Some(ms[k]))
    ensures !provisioned ==> ms == [] && runs == []
  {
    hide Lines, Commands, TM.Step, EnrollAll, ManifestsOf, Provisioned, AllRoom, RunsOf, LastFor, Delivered;
    ms, runs := [], [];
    ghost var before := sup.service;
    var ret := sup.ProvisionPlan(content, calls);
    provisioned := ret == 0;
    if provisioned {
      var lines := Lines(content.value, 512);
      ProvisionedRuns(lines, sup.load, sup.room, before, calls, courses);
      ms := ManifestsOf(Commands(lines).0, sup.load).value;
      ret, runs := sup.RunPlan(content, courses);
    }
  }

  lemma NothingRead()
    ensures Lines("", 512) == [] && Commands([]) == ([], true)
  {
  }
}
