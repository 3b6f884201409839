/** The file backend: a state file that is rewritten through a temporary file and a rename,
    and an append-only decision log. Every file operation can fail, and the machine can stop
    after any of them. */
module TrustedState {
  import opened CText
  import opened Manifests
  import opened StateFile
  import opened Decisions
  import opened Streams
  import TM = TrustMachine

  /** What the file system does during one store: whether the state file opens for reading and the
      temporary file for writing, how much the device takes, and whether the rename and the removal
      work. */
  datatype Faults = Faults(opens: bool, tmpOpens: bool, device: Device, renames: bool, removes: bool)

  const NO_FAULTS := Faults(true, true, AMPLE, true, true)

  /** What a reader finds: a file that does not open counts as none. */
  function Opened(content: Option<string>, opens: bool): Option<string> {
    if opens then content else None
  }

  /** The entries the store writes. */
  function NewEntries(content: Option<string>, m: Manifest, io: Faults): TM.Store {
    Merged(EntriesOf(Opened(content, io.opens)), m)
  }

  /** The temporary file's stream after one `fprintf` for every entry. */
  function TmpStream(dev: Device, ms: TM.Store): Stream
    decreases |ms|
  {
    if ms == [] then OPENED else Printed(dev, TmpStream(dev, ms[..|ms| - 1]), FileLine(ms[|ms| - 1]))
  }

  /** Nothing that the store looks at reports an error. */
  predicate StoreSucceeds(content: Option<string>, m: Manifest, io: Faults) {
    io.tmpOpens && !TmpStream(io.device, NewEntries(content, m, io)).failed && io.renames
  }

  /** What is in the temporary file when it is renamed. */
  function Installed(content: Option<string>, m: Manifest, io: Faults): string {
    AfterClose(io.device, TmpStream(io.device, NewEntries(content, m, io)))
  }

  /** The files on disk between two operations. */
  datatype Files = Files(state: Option<string>, tmp: Option<string>)

  /** ... after each `fprintf` */
  function WriteSteps(state: Option<string>, dev: Device, ms: TM.Store): (steps: seq<Files>)
    ensures |steps| == |ms| && forall k | 0 <= k < |steps| :: steps[k].state == state
    decreases |ms|
  {
    if ms == [] then [] else WriteSteps(state, dev, ms[..|ms| - 1]) + [Files(state, Some(TmpStream(dev, ms).disk))]
  }

  /** The last operation: the rename, or the removal after a failure. */
  function LastFiles(content: Option<string>, m: Manifest, io: Faults): Files {
    var left := Installed(content, m, io);
    if StoreSucceeds(content, m, io) then Files(Some(left), None)
    else Files(content, if io.removes then None else Some(left))
  }

  /** Everything the machine can find after a crash: the files after each operation of a store. */
  function Snapshots(content: Option<string>, m: Manifest, io: Faults): seq<Files> {
    if !io.tmpOpens then []
    else
      [Files(content, Some(""))] + WriteSteps(content, io.device, NewEntries(content, m, io)) +
      [Files(content, Some(Installed(content, m, io)))] + [LastFiles(content, m, io)]
  }

  lemma EntriesStep(s: string, line: string, rest: string)
    requires Lines(s, LINE_MAX) == [line] + Lines(rest, LINE_MAX)
    ensures Entries(s) == match ParseFileLine(line)
                          case None => Entries(rest)
                          case Some(e) => [e] + Entries(rest)
  {
    hide ParseFileLine, Lines;
    EntriesCons(line, Lines(rest, LINE_MAX));
  }

  lemma {:induction false} TextConcat(a: TM.Store, b: TM.Store)
    ensures FileText(a + b) == FileText(a) + FileText(b)
  {
    hide FileLine;
    if a == [] {
      assert a + b == b;
    } else {
      assert (a + b)[1..] == a[1..] + b;
      TextConcat(a[1..], b);
    }
  }

  lemma TextSnoc(a: TM.Store, m: Manifest)
    ensures FileText(a + [m]) == FileText(a) + FileLine(m)
  {
    hide FileLine;
    TextConcat(a, [m]);
    assert FileText([m]) == FileLine(m) + "";
  }

  // ------------------------------------------------- what a store leaves behind

  /** Whatever the state file held, a store that loses nothing is read back as the old entries
      with the manifest merged in. */
  lemma StoreReadsBack(content: Option<string>, m: Manifest)
    requires FileSafe(m)
    ensures EntriesOf(Some(FileText(Merged(EntriesOf(content), m)))) == Merged(EntriesOf(content), m)
  {
    hide FileSafe, Lines, EntriesIn, FileText, Merged;
    var ms := EntriesOf(content);
    if content.Some? {
      EntriesAreFileSafe(Lines(content.value, LINE_MAX));
    }
    assert AllFileSafe(ms);
    MergedIsFileSafe(ms, m);
    EntriesOfText(Merged(ms, m));
  }

  lemma {:induction false} WrittenStands(dev: Device, ms: TM.Store)
    ensures Stands(dev, TmpStream(dev, ms), FileText(ms))
    decreases |ms|
  {
    hide Stands, FileLine, Printed, FileText;
    if ms == [] {
      OpenedStands(dev);
      NoText();
    } else {
      var n := |ms| - 1;
      WrittenStands(dev, ms[..n]);
      PrintedStands(dev, TmpStream(dev, ms[..n]), FileText(ms[..n]), FileLine(ms[n]));
      TextSnoc(ms[..n], ms[n]);
      assert ms[..n] + [ms[n]] == ms;
    }
  }

  lemma NoText()
    ensures FileText([]) == ""
  {
  }

  /** A store returns 0 exactly when the whole buffers of its text fit the device; the text it then
      installs is complete exactly when all of it fits. What the last, incomplete buffer loses in the
      unchecked `fclose` is reported to nobody. */
  lemma StoreIsCompleteIff(content: Option<string>, m: Manifest, io: Faults)
    ensures var text := FileText(NewEntries(content, m, io));
      && (StoreSucceeds(content, m, io)
          <==> io.tmpOpens && io.renames && Takes(io.device, Flushed(io.device, |text|)))
      && Installed(content, m, io) == Fitting(io.device, text)
      && (Installed(content, m, io) == text <==> Takes(io.device, |text|))
  {
    hide EntriesOf, Merged, FileText, TmpStream, Stands, AfterClose, Flushed;
    var ms := NewEntries(content, m, io);
    WrittenStands(io.device, ms);
    ClosedStream(io.device, TmpStream(io.device, ms), FileText(ms));
  }

  /** The crash points that matter: the state file is the old one until the rename, which comes last. */
  lemma SnapshotState(content: Option<string>, m: Manifest, io: Faults, k: nat)
    requires k < |Snapshots(content, m, io)|
    ensures Snapshots(content, m, io)[k].state
         == if StoreSucceeds(content, m, io) && k == |Snapshots(content, m, io)| - 1
            then Some(Installed(content, m, io)) else content
  {
    hide EntriesOf, Merged, FileText, TmpStream, WriteSteps, AfterClose, StoreSucceeds, Installed;
  }

  /** What a stop can leave in the temporary file: nothing yet, after every entry the whole buffers of the text
      so far, then all of it as far as it fits -- and in the end it is gone, unless the store failed and the
      removal did too. */
  lemma SnapshotsAre(content: Option<string>, m: Manifest, io: Faults, k: nat)
    requires k < |NewEntries(content, m, io)|
    ensures var es, dev, steps := NewEntries(content, m, io), io.device, Snapshots(content, m, io);
      if !io.tmpOpens then steps == []
      else
        var text := FileText(es[..k + 1]);
        && |steps| == |es| + 3 && steps[0].tmp == Some("")
        && steps[k + 1].tmp == Some(Fitting(dev, text[..Flushed(dev, |text|)]))
        && steps[|es| + 1].tmp == Some(Fitting(dev, FileText(es)))
        && steps[|es| + 2].tmp == if StoreSucceeds(content, m, io) || io.removes then None else steps[|es| + 1].tmp
  {
    hide EntriesOf, Merged, FileText, TmpStream, AfterClose, StoreSucceeds, Installed, WriteSteps, Fitting, Flushed,
      NewEntries;
    var es, dev := NewEntries(content, m, io), io.device;
    StoreIsCompleteIff(content, m, io);
    WriteStepsAt(content, dev, es, k);
    WrittenStands(dev, es[..k + 1]);
  }

  lemma {:induction false} WriteStepsAt(state: Option<string>, dev: Device, ms: TM.Store, k: nat)
    requires k < |ms|
    ensures WriteSteps(state, dev, ms)[k] == Files(state, Some(TmpStream(dev, ms[..k + 1]).disk))
    decreases |ms|
  {
    hide TmpStream;
    var n := |ms| - 1;
    if k < n {
      WriteStepsAt(state, dev, ms[..n], k);
      assert ms[..n][..k + 1] == ms[..k + 1];
    } else {
      assert ms[..k + 1] == ms;
    }
  }

  /** Crash atomicity on disk, exactly: whichever moment of a store the machine stops at, the state file
      is the old one or the complete new one, if and only if the store fails or all of its text fits
      the device (or what fits is what stood there before). */
  lemma CrashAtomicIff(content: Option<string>, m: Manifest, io: Faults)
    ensures var text, dev := FileText(NewEntries(content, m, io)), io.device;
      (forall k | 0 <= k < |Snapshots(content, m, io)| :: Snapshots(content, m, io)[k].state in {content, Some(text)})
      <==> io.tmpOpens && io.renames && Takes(dev, Flushed(dev, |text|)) ==>
             Takes(dev, |text|) || content == Some(Fitting(dev, text))
  {
    hide EntriesOf, Merged, FileText, TmpStream, AfterClose, StoreSucceeds, Installed, Snapshots, Flushed, Takes, Fitting;
    var text, snapshots := FileText(NewEntries(content, m, io)), Snapshots(content, m, io);
    StoreIsCompleteIff(content, m, io);
    forall k | 0 <= k < |snapshots|
      ensures snapshots[k].state
           == if StoreSucceeds(content, m, io) && k == |snapshots| - 1 then Some(Installed(content, m, io)) else content
    {
      SnapshotState(content, m, io, k);
    }
    SnapshotsAreNotEmpty(content, m, io);
    assert StoreSucceeds(content, m, io) ==> snapshots[|snapshots| - 1].state == Some(Installed(content, m, io));
  }

  lemma SnapshotsAreNotEmpty(content: Option<string>, m: Manifest, io: Faults)
    ensures StoreSucceeds(content, m, io) ==> Snapshots(content, m, io) != []
  {
    hide EntriesOf, Merged, TmpStream, WriteSteps, Installed, LastFiles;
  }

  lemma NewEntriesAreSafe(content: Option<string>, m: Manifest, io: Faults)
    requires FileSafe(m)
    ensures AllFileSafe(NewEntries(content, m, io))
  {
    hide FileSafe, Lines, EntriesIn, Merged;
    var before := Opened(content, io.opens);
    if before.Some? {
      EntriesAreFileSafe(Lines(before.value, LINE_MAX));
    }
    MergedIsFileSafe(EntriesOf(before), m);
  }

  /** What the next start reads of a store that reported success: the new entries as far as the device
      took their text, the last of them perhaps with a part of its hash; and all of them exactly when
      nothing but the last line feed was lost. */
  lemma LossIsReadIff(content: Option<string>, m: Manifest, io: Faults)
    requires FileSafe(m)
    ensures var es, read := NewEntries(content, m, io), EntriesOf(Some(Installed(content, m, io)));
      && read == CutEntries(es, |Fitting(io.device, FileText(es))|)
      && (read == es <==> Takes(io.device, BareLength(es)))
  {
    hide FileSafe, Entries, FileText, Merged, StoreSucceeds, Installed, CutEntries, Flushed;
    var es, dev := NewEntries(content, m, io), io.device;
    var text := FileText(es);
    StoreIsCompleteIff(content, m, io);
    NewEntriesAreSafe(content, m, io);
    var n := |Fitting(dev, text)|;
    assert Fitting(dev, text) == text[..n];
    CutIsRead(es, n);
    CutIsWholeIff(es, n);
  }

  /** Crash atomicity as the next start sees it: whichever moment of a store the machine stopped at, the
      file holds the old entries or all of the new ones, unless the store reported success for a text
      of which more than the last line feed did not fit. */
  lemma CrashedStore(content: Option<string>, m: Manifest, io: Faults, k: nat)
    requires FileSafe(m) && k < |Snapshots(content, m, io)|
    requires var es, dev := NewEntries(content, m, io), io.device;
      io.tmpOpens && io.renames && Takes(dev, Flushed(dev, |FileText(es)|)) ==> Takes(dev, BareLength(es))
    ensures EntriesOf(Snapshots(content, m, io)[k].state) in {EntriesOf(content), NewEntries(content, m, io)}
  {
    hide FileSafe, EntriesOf, FileText, Merged, TmpStream, AfterClose, StoreSucceeds, Installed, Snapshots, Flushed;
    SnapshotState(content, m, io, k);
    StoreIsCompleteIff(content, m, io);
    LossIsReadIff(content, m, io);
  }

  /** A device that takes eight characters: storing `a 1 b hash` reports success and leaves a hash that
      nobody enrolled. */
  lemma CutHashWitness()
    ensures var io, m := NO_FAULTS.(device := Device(4096, Some(8))), Manifest("a", 1, "b", "hash");
      && FileSafe(m) && StoreSucceeds(None, m, io) && LastFiles(None, m, io).state == Some("a 1 b ha")
      && EntriesOf(LastFiles(None, m, io).state) == [Manifest("a", 1, "b", "ha")]
  {
    hide FileSafe, Entries, FileLine, RecordText, StoreSucceeds, Installed, FileText;
    var io, m := NO_FAULTS.(device := Device(4096, Some(8))), Manifest("a", 1, "b", "hash");
    assert FileSafe(m) by { SmallHashIsSafe(); }
    NothingRead(m);
    assert Merged([], m) == [m];
    var text := FileText([m]);
    assert text == "a 1 b hash\n" by { HashLine(); }
    StoreIsCompleteIff(None, m, io);
    LossIsReadIff(None, m, io);
    assert Fitting(io.device, text) == "a 1 b ha";
    assert "hash"[..2] == "ha";
    CutHash();
  }

  lemma SmallHashIsSafe()
    ensures FileSafe(Manifest("a", 1, "b", "hash"))
  {
    CarriedFields(63, Manifest("a", 1, "b", "hash"));
  }

  lemma HashLine()
    ensures FileText([Manifest("a", 1, "b", "hash")]) == "a 1 b hash\n"
  {
    hide RecordText;
    var m := Manifest("a", 1, "b", "hash");
    RecordTextIs(m);
    assert PrintInt(1) == "1";
    assert "1" + " " + ("b" + " " + "hash") == "1 b hash";
    assert [m][1..] == [] && FileText([m]) == FileLine(m) + "";
  }

  lemma CutHash()
    ensures CutEntries([Manifest("a", 1, "b", "hash")], 8) == [Manifest("a", 1, "b", "ha")]
  {
    hide FileLine;
    LineLength(Manifest("a", 1, "b", "hash"));
    assert |PrintInt(1)| == 1;
    assert "hash"[..2] == "ha";
  }

  /** The smallest manifests of two artifacts. */
  const SMALL_A := Manifest("a", 1, "b", "h")
  const SMALL_C := Manifest("c", 1, "b", "h")

  lemma SmallLines()
    ensures FileSafe(SMALL_A) && FileSafe(SMALL_C)
    ensures FileLine(SMALL_A) == "a 1 b h\n" && FileLine(SMALL_C) == "c 1 b h\n"
    ensures FileText([SMALL_A]) == "a 1 b h\n" && FileText([SMALL_A, SMALL_C]) == "a 1 b h\nc 1 b h\n"
  {
    hide RecordText;
    RecordTextIs(SMALL_A);
    RecordTextIs(SMALL_C);
    assert PrintInt(1) == "1";
    assert "1" + " " + ("b" + " " + "h") == "1 b h";
    assert [SMALL_A][1..] == [] && [SMALL_A, SMALL_C][1..] == [SMALL_C] && [SMALL_C][1..] == [];
    assert FileText([SMALL_C]) == FileLine(SMALL_C) + "";
    SmallIsSafe(SMALL_A);
    SmallIsSafe(SMALL_C);
  }

  lemma SmallIsSafe(m: Manifest)
    requires m in {SMALL_A, SMALL_C}
    ensures FileSafe(m)
  {
    CarriedFields(63, m);
  }

  /** A device that is full: storing `c` beside `a` reports success, and the next start finds neither the
      old entries nor the new ones, but none. */
  lemma UnreportedLossWitness()
    ensures var io := NO_FAULTS.(device := Device(4096, Some(0)));
      var before := Some(FileText([SMALL_A]));
      && StoreSucceeds(before, SMALL_C, io) && LastFiles(before, SMALL_C, io).state == Some("")
      && EntriesOf(before) == [SMALL_A] && NewEntries(before, SMALL_C, io) == [SMALL_A, SMALL_C] && EntriesOf(Some("")) == []
  {
    hide FileLine, Lines, EntriesIn, FileText, FileSafe, StoreSucceeds, Installed;
    var io := NO_FAULTS.(device := Device(4096, Some(0)));
    var before := Some(FileText([SMALL_A]));
    SmallLines();
    assert AllFileSafe([SMALL_A]);
    EntriesOfText([SMALL_A]);
    assert Merged([SMALL_A], SMALL_C) == [SMALL_A, SMALL_C];
    StoreIsCompleteIff(before, SMALL_C, io);
    NothingRead(SMALL_C);
    assert Fitting(io.device, FileText([SMALL_A, SMALL_C])) == "";
  }

  /** Exactly when a store leaves every other artifact as it was: the state file opened for reading,
      or held no other artifact. (A file that does not open is taken for an empty one.) */
  lemma OthersAreKeptIff(content: Option<string>, m: Manifest, io: Faults)
    ensures KeepsOthers(content, m, io)
       <==> io.opens || forall e | e in EntriesOf(content) :: e.artifactId == m.artifactId
  {
    hide EntriesOf, Merged;
    var ms := EntriesOf(content);
    NoEntries();
    forall id | id != m.artifactId
      ensures TM.Find(NewEntries(content, m, io), id) == if io.opens then TM.Find(ms, id) else None
    {
      FindMerged(EntriesOf(Opened(content, io.opens)), m, id);
    }
    if !io.opens && !(forall e | e in ms :: e.artifactId == m.artifactId) {
      var e :| e in ms && e.artifactId != m.artifactId;
      ListedIsFound(ms, e);
      assert TM.Find(NewEntries(content, m, io), e.artifactId) != TM.Find(ms, e.artifactId);
    }
  }

  ghost predicate KeepsOthers(content: Option<string>, m: Manifest, io: Faults) {
    forall id | id != m.artifactId :: TM.Find(NewEntries(content, m, io), id) == TM.Find(EntriesOf(content), id)
  }

  lemma NoEntries()
    ensures EntriesOf(None) == []
  {
  }

  lemma ListedIsFound(ms: TM.Store, e: Manifest)
    requires e in ms
    ensures TM.Find(ms, e.artifactId).Some?
  {
  }

  lemma {:induction false} FindMerged(ms: TM.Store, m: Manifest, id: string)
    ensures TM.Find(Merged(ms, m), id) == if id == m.artifactId then Some(m) else TM.Find(ms, id)
  {
    if ms != [] {
      FindMerged(ms[1..], m, id);
      var head := if ms[0].artifactId == m.artifactId then m else ms[0];
      assert Replaced(ms, m) == [head] + Replaced(ms[1..], m);
      if ms[0].artifactId != m.artifactId {
        assert Merged(ms, m) == [head] + Merged(ms[1..], m);
      } else if id != m.artifactId {
        FindSkips(head, Replaced(ms[1..], m), id);
        FindReplaced(ms[1..], m, id);
        assert Merged(ms, m) == Replaced(ms, m);
      }
    }
  }

  lemma {:induction false} FindReplaced(ms: TM.Store, m: Manifest, id: string)
    requires id != m.artifactId
    ensures TM.Find(Replaced(ms, m), id) == TM.Find(ms, id)
  {
    if ms != [] {
      FindReplaced(ms[1..], m, id);
    }
  }

  lemma FindSkips(e: Manifest, rest: TM.Store, id: string)
    requires e.artifactId != id
    ensures TM.Find([e] + rest, id) == TM.Find(rest, id)
  {
    assert ([e] + rest)[1..] == rest;
  }

  /** A state file that does not open: storing `c` takes `a` out of the trusted store and reports
      success. */
  lemma UnopenedFileWitness()
    ensures var io := NO_FAULTS.(opens := false);
      var before := Some(FileText([SMALL_A]));
      && StoreSucceeds(before, SMALL_C, io) && TM.Find(EntriesOf(before), "a") == Some(SMALL_A)
      && TM.Find(EntriesOf(LastFiles(before, SMALL_C, io).state), "a") == None
      && !KeepsOthers(before, SMALL_C, io)
  {
    hide FileLine, Lines, EntriesIn, FileText, FileSafe, StoreSucceeds, Installed, KeepsOthers;
    var io := NO_FAULTS.(opens := false);
    var before := Some(FileText([SMALL_A]));
    SmallLines();
    assert AllFileSafe([SMALL_A]) && AllFileSafe([SMALL_C]);
    EntriesOfText([SMALL_A]);
    EntriesOfText([SMALL_C]);
    StoreIsCompleteIff(before, SMALL_C, io);
    OthersAreKeptIff(before, SMALL_C, io);
    NoEntries();
    assert Merged([], SMALL_C) == [SMALL_C];
    assert SMALL_A in EntriesOf(before);
  }

  class StateFiles {
    /** `/tmp/tear-trusted-state`, its temporary file and `/tmp/tear-trusted-decisions`. */
    var state: Option<string>
    var tmp: Option<string>
    var decisions: Option<string>
    /** What a crash could leave behind: the files after every operation so far. */
    ghost var history: seq<Files>

    constructor ()
      ensures state == None && decisions == None
    {
      state, tmp, decisions := None, None, None;
      history := [];
    }

    ghost method Tick()
      modifies this`history
      ensures history == old(history) + [Files(state, tmp)]
    {
      history := history + [Files(state, tmp)];
    }

    /** One `fprintf` of a manifest line into the temporary file. */
    method WriteManifest(out: Stream, m: Manifest, dev: Device) returns (out': Stream, ok: bool)
      modifies this`tmp, this`history
      ensures out' == Printed(dev, out, FileLine(m)) && ok == !out'.failed
      ensures tmp == Some(out'.disk) && history == old(history) + [Files(state, tmp)]
    {
      out' := Printed(dev, out, FileLine(m));
      ok := !out'.failed;
      tmp := Some(out'.disk);
      Tick();
    }

    /** `tear_trusted_state_store`. It returns 0 exactly when nothing it looks at reports an error, the
        state file is then what the rename installed and otherwise unchanged, and the machine can stop
        -- after opening the temporary file, any of its writes, its closing, and the rename or
        removal -- at exactly the snapshots. */
    method Store(m: Manifest, io: Faults) returns (ret: int)
      modifies this`state, this`tmp, this`history
      ensures ret == if StoreSucceeds(old(state), m, io) then 0 else -1
      ensures state == if ret == 0 then Some(Installed(old(state), m, io)) else old(state)
      ensures tmp == if !io.tmpOpens then old(tmp)
                     else if ret == 0 || io.removes then None else Some(Installed(old(state), m, io))
      ensures history == old(history) + Snapshots(old(state), m, io)
    {
      hide Merged, EntriesOf, FileText, AfterClose, WriteSteps;
      var content := if io.opens then state else None;
      if !io.tmpOpens {
        assert history == history + [];
        return -1;
      }
      tmp := Some("");
      Tick();
      var out: Stream;
      ret, out := WriteAll(content, m, io.device);
      // fclose: its result is not looked at
      tmp := Some(AfterClose(io.device, out));
      Tick();
      ghost var es := Merged(EntriesOf(content), m);
      if ret < 0 || !io.renames {
        if io.removes {
          tmp := None;
        }
        Tick();
        ret := -1;
      } else {
        state, tmp := tmp, None;
        Tick();
      }
      SameHistory(old(history), Files(old(state), Some("")), WriteSteps(old(state), io.device, es),
                  Files(old(state), Some(AfterClose(io.device, out))), Files(state, tmp));
    }

    /** Everything the store prints into the temporary file. */
    method WriteAll(content: Option<string>, m: Manifest, dev: Device) returns (ret: int, out: Stream)
      modifies this`tmp, this`history
      ensures out == TmpStream(dev, Merged(EntriesOf(content), m)) && ret == if out.failed then -1 else 0
      ensures history == old(history) + WriteSteps(state, dev, Merged(EntriesOf(content), m))
    {
      hide ParseFileLine, FileLine, Lines, Merged, Replaced, TM.Find, FileText, Printed;
      ghost var all := EntriesOf(content);
      var found := false;
      ret, out := 0, OPENED;
      MergedAfterLoop(all, m);
      NothingRead(m);
      if content.Some? {
        ret, found, out := RewriteLines(content.value, m, dev);
      } else {
        assert history == history + WriteSteps(state, dev, []);
      }
      ghost var done := Replaced(all, m);
      if found {
        assert done + [] == done;
      } else {
        ghost var past := out;
        var ok;
        WrittenSnoc(state, dev, done, m);
        out, ok := WriteManifest(out, m, dev);
        FailedStays(dev, past, FileLine(m));
        ret := if ok then ret else -1;
        Later(old(history), WriteSteps(state, dev, done), Files(state, tmp));
      }
    }

    /** The fgets loop: every line that parses is written to the temporary file, the entries
        of the artifact replaced. */
    method RewriteLines(content: string, m: Manifest, dev: Device) returns (ret: int, found: bool, out: Stream)
      modifies this`tmp, this`history
      ensures found <==> TM.Find(Entries(content), m.artifactId).Some?
      ensures out == TmpStream(dev, Replaced(Entries(content), m)) && ret == if out.failed then -1 else 0
      ensures history == old(history) + WriteSteps(state, dev, Replaced(Entries(content), m))
    {
      hide ParseFileLine, FileLine, Entries, TM.Find, FileText, Replaced, Lines, Printed, TmpStream, WriteSteps;
      var pos: nat := 0;
      ret, found, out := 0, false, OPENED;
      ghost var all, rest, done: TM.Store := Entries(content), Entries(content), [];
      assert content[0..] == content;
      NothingRead(m);
      NothingWritten(state, dev);
      assert [] + Replaced(all, m) == Replaced(all, m) && history + [] == history;
      while pos < |content|
        invariant 0 <= pos <= |content| && rest == Entries(content[pos..])
        invariant done + Replaced(rest, m) == Replaced(all, m)
        invariant found || TM.Find(rest, m.artifactId).Some? <==> TM.Find(all, m.artifactId).Some?
        invariant out == TmpStream(dev, done) && ret == if out.failed then -1 else 0
        invariant history == old(history) + WriteSteps(state, dev, done)
        decreases |content| - pos
      {
        ghost var here := content[pos..];
        var line;
        line, pos := FGets(content, pos, LINE_MAX);
        EntriesStep(here, line, content[pos..]);
        rest := Entries(content[pos..]);
        var entry := ParseFileLine(line);
        if entry.Some? {
          var existing := entry.value;
          var same := existing.artifactId == m.artifactId;
          var w := if same then m else existing;
          ghost var past := out;
          var ok;
          WrittenSnoc(state, dev, done, w);
          out, ok := WriteManifest(out, w, dev);
          FailedStays(dev, past, FileLine(w));
          Later(old(history), WriteSteps(state, dev, done), Files(state, tmp));
          OneMore(done, existing, rest, m);
          done := done + [w];
          ret := if ok then ret else -1;
          found := found || same;
        }
      }
      assert content[pos..] == "";
      assert done + [] == done;
    }

    /** `tear_trusted_state_load_artifact` */
    method LoadArtifact(id: string, opens: bool) returns (r: Option<Manifest>)
      ensures r == TM.Find(EntriesOf(Opened(state, opens)), id)
    {
      hide ParseFileLine, Entries, Lines;
      if state.None? || !opens {
        return None;
      }
      var content: string, pos: nat := state.value, 0;
      assert content[0..] == content;
      NothingRead(Manifest(id, 0, "", ""));
      while pos < |content|
        invariant 0 <= pos <= |content|
        invariant TM.Find(Entries(content[pos..]), id) == TM.Find(Entries(content), id)
        decreases |content| - pos
      {
        ghost var rest := content[pos..];
        var line;
        line, pos := FGets(content, pos, LINE_MAX);
        EntriesStep(rest, line, content[pos..]);
        var candidate := ParseFileLine(line);
        if candidate.Some? {
          if candidate.value.artifactId == id {
            return candidate;
          }
          assert ([candidate.value] + Entries(content[pos..]))[1..] == Entries(content[pos..]);
        }
      }
      assert content[pos..] == "";
      r := None;
    }

    /** `tear_trusted_state_append_decision`: the log grows by what the device takes of the line, and a
        loss is reported only when it is one of whole buffers. */
    method AppendDecision(d: Decision, opens: bool, dev: Device) returns (ret: int)
      modifies this`decisions
      ensures ret == if opens && Takes(dev, Flushed(dev, |DecisionLine(d)|)) then 0 else -1
      ensures decisions == if opens then Some(LogText(old(decisions)) + Fitting(dev, DecisionLine(d)))
                           else old(decisions)
    {
      hide DecisionText, Printed, AfterClose, Fitting, Takes, Flushed, Stands;
      if !opens {
        return -1;
      }
      ghost var line := DecisionLine(d);
      OpenedStands(dev);
      PrintedStands(dev, OPENED, "", line);
      assert "" + line == line;
      var out := Printed(dev, OPENED, DecisionLine(d));
      ClosedStream(dev, out, line);
      // fclose: its result is not looked at
      decisions := Some(LogText(decisions) + AfterClose(dev, out));
      ret := if out.failed then -1 else 0;
    }

    /** `tear_trusted_state_report_decision` */
    method ReportDecision(size: nat, opens: bool) returns (r: Option<string>)
      requires size > 0
      ensures r == ReportedByFile(Opened(decisions, opens), size)
    {
      hide Lines, CStr;
      if decisions.None? || !opens {
        return None;
      }
      var content: string, pos: nat, last := decisions.value, 0, "";
      assert content[0..] == content;
      NoLines();
      EmptyCStr();
      while pos < |content|
        invariant 0 <= pos <= |content|
        invariant var rest := Lines(content[pos..], 512);
          CStr(LastOf(Lines(content, 512))) == if rest == [] then last else CStr(LastOf(rest))
        decreases |content| - pos
      {
        var line;
        line, pos := FGets(content, pos, 512);
        last := CStr(line);
      }
      assert content[pos..] == "";
      if last == "" {
        return None;
      }
      var text := last[..SpanLen(last, NotNewline)];
      r := if |text| < size then Some(text) else None;
    }

    /** `tear_trusted_state_load`: the first line that parses. */
    method Load(opens: bool) returns (r: Option<Manifest>)
      ensures var ms := EntriesOf(Opened(state, opens)); r == if ms == [] then None else Some(ms[0])
    {
      hide ParseFileLine, Entries, Lines;
      if state.None? || !opens {
        return None;
      }
      var content: string, pos: nat := state.value, 0;
      assert content[0..] == content;
      NothingRead(Manifest("", 0, "", ""));
      while pos < |content|
        invariant 0 <= pos <= |content| && Entries(content[pos..]) == Entries(content)
        decreases |content| - pos
      {
        ghost var rest := content[pos..];
        var line;
        line, pos := FGets(content, pos, LINE_MAX);
        EntriesStep(rest, line, content[pos..]);
        var manifest := ParseFileLine(line);
        if manifest.Some? {
          return manifest;
        }
      }
      assert content[pos..] == "";
      r := None;
    }
  }

  lemma EmptyCStr()
    ensures CStr("") == ""
  {
  }

  lemma NothingRead(m: Manifest)
    ensures Entries("") == [] && Replaced([], m) == [] && FileText([]) == "" && TM.Find([], m.artifactId) == None
  {
  }

  lemma MergedAfterLoop(ms: TM.Store, m: Manifest)
    ensures Merged(ms, m) == Replaced(ms, m) + if TM.Find(ms, m.artifactId).Some? then [] else [m]
    ensures TM.Find([], m.artifactId) == None
  {
  }

  lemma NothingWritten(state: Option<string>, dev: Device)
    ensures TmpStream(dev, []) == OPENED && WriteSteps(state, dev, []) == []
  {
  }

  lemma WrittenSnoc(state: Option<string>, dev: Device, ms: TM.Store, w: Manifest)
    ensures TmpStream(dev, ms + [w]) == Printed(dev, TmpStream(dev, ms), FileLine(w))
    ensures WriteSteps(state, dev, ms + [w])
         == WriteSteps(state, dev, ms) + [Files(state, Some(TmpStream(dev, ms + [w]).disk))]
  {
    hide FileLine, Printed;
    assert (ms + [w])[..|ms|] == ms;
  }

  lemma Later(before: seq<Files>, steps: seq<Files>, next: Files)
    ensures before + steps + [next] == before + (steps + [next])
  {
  }

  lemma SameHistory(before: seq<Files>, first: Files, steps: seq<Files>, closed: Files, last: Files)
    ensures before + [first] + steps + [closed] + [last] == before + ([first] + steps + [closed] + [last])
  {
  }

  lemma OneMore(done: TM.Store, e: Manifest, rest: TM.Store, m: Manifest)
    ensures var w := if e.artifactId == m.artifactId then m else e;
      done + Replaced([e] + rest, m) == (done + [w]) + Replaced(rest, m)
    ensures TM.Find([e] + rest, m.artifactId).Some?
       <==> e.artifactId == m.artifactId || TM.Find(rest, m.artifactId).Some?
  {
    assert ([e] + rest)[1..] == rest;
  }
}
