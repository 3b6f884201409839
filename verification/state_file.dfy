/** The trusted-state file as text: fgets lines, and what the file backend makes of them. */
module StateFile {
  import opened CText
  import opened Manifests
  import TM = TrustMachine

  const LINE_MAX := 512

  predicate NotNewline(c: char) { c != '\n' }

  /** How many characters one `fgets` into `size` bytes takes (section 7.21.7.2 of ISO C11). */
  function Taken(s: string, size: nat): (n: nat)
    requires size >= 2
    ensures n <= |s| && (s != "" ==> n > 0)
  {
    var n := SpanLen(s, NotNewline);
    Min(if n < |s| then n + 1 else n, size - 1)
  }

  /** The lines that repeated `fgets` returns. */
  function Lines(s: string, size: nat): seq<string>
    requires size >= 2
    decreases |s|
  {
    if s == "" then [] else [s[..Taken(s, size)]] + Lines(s[Taken(s, size)..], size)
  }

  /** `fgets`: the next line of a file and the position behind it. */
  method FGets(content: string, pos: nat, size: nat) returns (line: string, pos': nat)
    requires size >= 2 && pos < |content|
    ensures pos < pos' <= |content| && line == content[pos..pos']
    ensures Lines(content[pos..], size) == [line] + Lines(content[pos'..], size)
  {
    line := [];
    pos' := pos;
    while pos' < |content| && |line| < size - 1 && (line == [] || line[|line| - 1] != '\n')
      invariant pos <= pos' <= |content| && line == content[pos..pos'] && |line| <= size - 1
      invariant forall k | pos <= k < pos' - 1 :: NotNewline(content[k])
      decreases |content| - pos'
    {
      line := line + [content[pos']];
      pos' := pos' + 1;
    }
    var n := pos' - pos;
    var rest := content[pos..];
    assert rest[..n] == line && rest[n..] == content[pos'..];
    assert forall k | 0 <= k < n - 1 :: rest[k] == content[pos + k] && NotNewline(rest[k]);
    assert rest[n - 1] == line[n - 1];
    assert SpanLen(rest, NotNewline) >= n - 1;
    assert n == Taken(rest, size);
  }

  /** The manifests the file backend sees in a list of lines: lines that do not parse are skipped. */
  function EntriesIn(lines: seq<string>): TM.Store {
    if lines == [] then []
    else if ParseFileLine(lines[0]).None? then EntriesIn(lines[1..])
    else [ParseFileLine(lines[0]).value] + EntriesIn(lines[1..])
  }

  function Entries(s: string): TM.Store {
    EntriesIn(Lines(s, LINE_MAX))
  }

  function EntriesOf(content: Option<string>): TM.Store {
    if content.None? then [] else Entries(content.value)
  }

  predicate AllFileSafe(ms: TM.Store) { forall k | 0 <= k < |ms| :: FileSafe(ms[k]) }

  function FileText(ms: TM.Store): string {
    if ms == [] then "" else FileLine(ms[0]) + FileText(ms[1..])
  }

  /** The rewriting loop: every entry of the artifact becomes `m`. */
  function Replaced(ms: TM.Store, m: Manifest): (r: TM.Store)
    ensures |r| == |ms|
  {
    if ms == [] then []
    else [if ms[0].artifactId == m.artifactId then m else ms[0]] + Replaced(ms[1..], m)
  }

  /** ... and `m` goes last when there was none. */
  function Merged(ms: TM.Store, m: Manifest): TM.Store {
    Replaced(ms, m) + (if TM.Find(ms, m.artifactId).Some? then [] else [m])
  }

  // ------------------------------------------------------------ reading back

  /** A line that ends in its only newline and fits the buffer is taken whole. */
  lemma LineOf(line: string, rest: string, size: nat)
    requires size >= 2 && All(line, NotNewline) && |line| + 1 < size
    ensures Lines(line + "\n" + rest, size) == [line + "\n"] + Lines(rest, size)
  {
    var s := line + "\n" + rest;
    assert s == line + ("\n" + rest);
    SpanLenOf(line, "\n" + rest, NotNewline);
    assert s[..|line| + 1] == line + "\n" && s[|line| + 1..] == rest;
  }

  /** Lines written out, each with its line feed. */
  function TextOf(ls: seq<string>): string {
    if ls == [] then "" else ls[0] + "\n" + TextOf(ls[1..])
  }

  /** Lines that `fgets` into 512 bytes takes whole. */
  predicate WholeLines(ls: seq<string>) {
    forall k | 0 <= k < |ls| :: All(ls[k], NotNewline) && |ls[k]| <= 510
  }

  /** ... are read back one by one. */
  lemma {:induction false} LinesOfText(ls: seq<string>)
    requires WholeLines(ls)
    ensures |Lines(TextOf(ls), 512)| == |ls|
    ensures forall k | 0 <= k < |ls| :: Lines(TextOf(ls), 512)[k] == ls[k] + "\n"
  {
    hide Lines;
    if ls == [] {
      NoLine();
    } else {
      assert forall k | 0 <= k < |ls| - 1 :: ls[1..][k] == ls[k + 1];
      LinesOfText(ls[1..]);
      assert All(ls[0], NotNewline);
      LineOf(ls[0], TextOf(ls[1..]), 512);
    }
  }

  lemma NoLine()
    ensures Lines("", 512) == []
  {
  }

  lemma FileSafeFields(m: Manifest)
    requires FileSafe(m)
    ensures |m.artifactId| <= 63 && All(m.artifactId, IsWordChar)
    ensures -0x8000_0000 <= m.version <= INT_MAX
    ensures |m.backend| <= 63 && All(m.backend, IsWordChar)
    ensures |m.modelHash| <= 127 && All(m.modelHash, IsWordChar)
  {
    CarriedFields(63, m);
  }

  lemma WireSafeIsFileSafe(m: Manifest)
    requires WireSafe(m)
    ensures FileSafe(m)
  {
    WireSafeFields(m);
  }

  lemma FileLineShape(m: Manifest)
    requires FileSafe(m)
    ensures All(RecordText(m), NotNewline) && |RecordText(m)| <= 267
  {
    FileSafeFields(m);
    RecordTextIs(m);
    PrintIntLength(m.version);
    WordsHaveNoNewline(m.artifactId);
    WordsHaveNoNewline(PrintInt(m.version));
    WordsHaveNoNewline(m.backend);
    WordsHaveNoNewline(m.modelHash);
  }

  lemma WordsHaveNoNewline(s: string)
    requires All(s, IsWordChar)
    ensures All(s, NotNewline)
  {
    forall k | 0 <= k < |s| ensures NotNewline(s[k]) { assert IsWordChar(s[k]); }
  }

  lemma EntriesCons(line: string, lines: seq<string>)
    ensures EntriesIn([line] + lines)
         == (if ParseFileLine(line).None? then [] else [ParseFileLine(line).value]) + EntriesIn(lines)
  {
    assert ([line] + lines)[1..] == lines;
  }

  /** Round trip of the file: the entries written are the entries read, in order. */
  lemma {:induction false} EntriesOfText(ms: TM.Store)
    requires AllFileSafe(ms)
    ensures Entries(FileText(ms)) == ms
  {
    hide ParseFileLine, FileSafe, RecordText;
    if ms != [] {
      var line, rest := RecordText(ms[0]), FileText(ms[1..]);
      assert FileSafe(ms[0]);
      FileLineShape(ms[0]);
      LineOf(line, rest, LINE_MAX);
      FileLineRoundTrip(ms[0]);
      EntriesCons(line + "\n", Lines(rest, LINE_MAX));
      EntriesOfText(ms[1..]);
    }
  }

  /** Whatever the file holds, what the backend reads from it can be written back. */
  lemma {:induction false} EntriesAreFileSafe(lines: seq<string>)
    ensures AllFileSafe(EntriesIn(lines))
  {
    hide FileSafe, ParseFileLine;
    if lines != [] {
      EntriesAreFileSafe(lines[1..]);
      if ParseFileLine(lines[0]).Some? {
        ParsedLineIsFileSafe(lines[0]);
      }
    }
  }

  lemma ParsedLineIsFileSafe(line: string)
    requires ParseFileLine(line).Some?
    ensures FileSafe(ParseFileLine(line).value)
  {
    ScannedFieldsCarry(line, FILE_FORMAT);
    assert Scan(line, FILE_FORMAT) == Fields(ParseFileLine(line).value);
  }

  lemma {:induction false} ReplacedAt(ms: TM.Store, m: Manifest, k: nat)
    requires k < |ms|
    ensures Replaced(ms, m)[k] == if ms[k].artifactId == m.artifactId then m else ms[k]
  {
    if k > 0 {
      ReplacedAt(ms[1..], m, k - 1);
    }
  }

  lemma MergedIsFileSafe(ms: TM.Store, m: Manifest)
    requires AllFileSafe(ms) && FileSafe(m)
    ensures AllFileSafe(Merged(ms, m))
  {
    hide FileSafe;
    forall k | 0 <= k < |Merged(ms, m)| ensures FileSafe(Merged(ms, m)[k]) {
      if k < |ms| {
        ReplacedAt(ms, m, k);
      }
    }
  }

  lemma {:induction false} ReplacedOthers(ms: TM.Store, m: Manifest)
    requires TM.Find(ms, m.artifactId).None?
    ensures Replaced(ms, m) == ms
  {
    if ms != [] {
      ReplacedOthers(ms[1..], m);
    }
  }

  /** On a duplicate-free file the rewrite is the write of the abstract machine. */
  lemma {:induction false} MergedIsPut(ms: TM.Store, m: Manifest)
    requires TM.Distinct(ms)
    ensures Merged(ms, m) == TM.Put(ms, m)
  {
    if ms != [] {
      var rest := ms[1..];
      assert forall i | 0 <= i < |rest| :: rest[i] == ms[i + 1];
      if ms[0].artifactId == m.artifactId {
        assert forall e | e in rest :: e.artifactId != m.artifactId;
        ReplacedOthers(rest, m);
        assert Merged(ms, m) == [m] + rest;
      } else {
        MergedIsPut(rest, m);
        assert Merged(ms, m) == [ms[0]] + Merged(rest, m);
      }
    }
  }

  // ------------------------------------------------ what a cut file is read as

  /** The characters of a line in front of the hash. */
  function HashAt(m: Manifest): nat { |m.artifactId| + |PrintInt(m.version)| + |m.backend| + 3 }

  /** What is read of the first `n` characters of a line: nothing until its hash begins, and then the
      entry with what there is of the hash. */
  function CutEntry(m: Manifest, n: nat): TM.Store {
    if n <= HashAt(m) then [] else [m.(modelHash := m.modelHash[..Min(n - HashAt(m), |m.modelHash|)])]
  }

  /** What is read of the first `n` characters of a file. */
  function CutEntries(ms: TM.Store, n: nat): TM.Store {
    if ms == [] then []
    else if n >= |FileLine(ms[0])| then [ms[0]] + CutEntries(ms[1..], n - |FileLine(ms[0])|)
    else CutEntry(ms[0], n)
  }

  lemma NothingScanned(kinds: seq<Kind>)
    ensures Scan("", kinds) == []
  {
  }

  /** A word is one field at most. */
  lemma OneWord(lead: string, s: string, width: nat, kinds: seq<Kind>)
    requires All(lead, IsSpace) && All(s, IsWordChar) && |s| <= width
    requires kinds != [] && kinds[0] == Word(width)
    ensures |Scan(lead + s, kinds)| <= 1
  {
    SkipSpaceOf(lead, s);
    SpanLenOf(s, "", IsWordChar);
    assert s + "" == s && s[|s|..] == "";
    NothingScanned(kinds[1..]);
  }

  /** A number and what may be left of its word are two. */
  lemma NumberAndWord(s: string)
    requires All(s, IsWordChar) && |s| <= 63
    ensures |Scan(" " + s, FILE_FORMAT[1..])| <= 2
  {
    hide IntLen;
    SkipSpaceOf(" ", s);
    var n := IntLen(s);
    assert "" + s[n..] == s[n..];
    OneWord("", s[n..], 63, FILE_FORMAT[2..]);
    assert FILE_FORMAT[1..][1..] == FILE_FORMAT[2..];
  }

  /** The four parts of a line and where a cut can fall. */
  lemma RecordParts(m: Manifest, j: nat)
    requires j <= |RecordText(m)|
    ensures |RecordText(m)| == HashAt(m) + |m.modelHash|
    ensures var id, v, b, h := m.artifactId, PrintInt(m.version), m.backend, m.modelHash;
      RecordText(m)[..j]
      == if j <= |id| then id[..j]
         else if j <= |id| + 1 + |v| then id + (" " + v[..j - |id| - 1])
         else if j < HashAt(m) then id + (" " + (v + (" " + b[..j - |id| - |v| - 2])))
         else id + (" " + (v + (" " + (b + (" " + h[..j - HashAt(m)])))))
  {
    hide RecordText, PrintInt;
    RecordTextIs(m);
    var id, v, b, h := m.artifactId, PrintInt(m.version), m.backend, m.modelHash;
    CutBehind(id, v + " " + (b + " " + h), j);
    CutBehind(v, b + " " + h, if j > |id| then j - |id| - 1 else 0);
    CutBehind(b, h, if j > |id| + 1 + |v| then j - |id| - |v| - 2 else 0);
  }

  lemma CutBehind(a: string, rest: string, n: nat)
    requires n <= |a| + 1 + |rest|
    ensures (a + " " + rest)[..n] == if n <= |a| then a[..n] else a + (" " + rest[..n - |a| - 1])
  {
    assert a + " " + rest == a + (" " + rest);
  }

  /** Where a line is cut decides what is read of it. */
  lemma CutLine(m: Manifest, j: nat)
    requires FileSafe(m) && j <= |RecordText(m)|
    ensures |RecordText(m)| == HashAt(m) + |m.modelHash|
    ensures ParseFileLine(RecordText(m)[..j])
         == if j <= HashAt(m) then None else Some(m.(modelHash := m.modelHash[..j - HashAt(m)]))
  {
    hide RecordText, Scan, PrintInt, FileSafe;
    FileSafeFields(m);
    RecordParts(m, j);
    PrintIntLength(m.version);
    var id, v, b := m.artifactId, PrintInt(m.version), m.backend;
    if j <= |id| {
      assert "" + id[..j] == id[..j];
      OneWord("", id[..j], 63, FILE_FORMAT);
    } else if j <= |id| + 1 + |v| {
      CutInVersion(m, v[..j - |id| - 1]);
    } else if j <= HashAt(m) {
      var part := b[..Min(j - |id| - |v| - 2, |b|)];
      assert part + "" == part && b[..|b|] == b && " " + m.modelHash[..0] == " ";
      CutInBackend(m, part, if j == HashAt(m) then " " else "");
    } else {
      var cut := m.(modelHash := m.modelHash[..j - HashAt(m)]);
      CutIsSafe(m, j - HashAt(m));
      RecordParts(cut, |RecordText(cut)|);
      assert cut.modelHash[..|cut.modelHash|] == cut.modelHash;
      assert RecordText(cut)[..|RecordText(cut)|] == RecordText(cut) == "" + RecordText(cut) + "";
      RecordRoundTrip(FILE_FORMAT, cut, "", "");
    }
  }

  lemma CutIsSafe(m: Manifest, n: nat)
    requires FileSafe(m) && 0 < n <= |m.modelHash|
    ensures FileSafe(m.(modelHash := m.modelHash[..n]))
  {
    CarriedFields(63, m);
    CarriedFields(63, m.(modelHash := m.modelHash[..n]));
  }

  lemma CutInVersion(m: Manifest, v: string)
    requires FileSafe(m) && All(v, IsWordChar) && |v| <= 63
    ensures ParseFileLine(m.artifactId + (" " + v)) == None
  {
    hide Scan;
    FileSafeFields(m);
    var s := m.artifactId + (" " + v);
    assert CarriesOne(FILE_FORMAT[0], Text(m.artifactId)) by { CarriedFields(63, m); }
    assert s == "" + (PrintField(Text(m.artifactId)) + (" " + v));
    ScanStep(s, FILE_FORMAT, Text(m.artifactId), "", " " + v);
    NumberAndWord(v);
  }

  lemma CutInBackend(m: Manifest, b: string, gap: string)
    requires FileSafe(m) && All(b, IsWordChar) && |b| <= 63 && gap in {"", " "} && (gap == " " ==> b == m.backend)
    ensures ParseFileLine(m.artifactId + (" " + (PrintInt(m.version) + (" " + (b + gap))))) == None
  {
    hide Scan, PrintInt;
    FileSafeFields(m);
    assert CarriesOne(FILE_FORMAT[0], Text(m.artifactId)) && CarriesOne(FILE_FORMAT[1], Number(m.version))
      && CarriesOne(FILE_FORMAT[2], Text(m.backend)) by { CarriedFields(63, m); }
    var s2 := " " + (b + gap);
    var s1 := " " + (PrintInt(m.version) + s2);
    var s := m.artifactId + s1;
    assert s == "" + (PrintField(Text(m.artifactId)) + s1);
    ScanStep(s, FILE_FORMAT, Text(m.artifactId), "", s1);
    assert s1 == " " + (PrintField(Number(m.version)) + s2);
    ScanStep(s1, FILE_FORMAT[1..], Number(m.version), " ", s2);
    assert FILE_FORMAT[1..][1..] == FILE_FORMAT[2..] && FILE_FORMAT[2..][1..] == FILE_FORMAT[3..];
    if gap == "" {
      assert s2 == " " + b;
      OneWord(" ", b, 63, FILE_FORMAT[2..]);
    } else {
      ScanStep(s2, FILE_FORMAT[2..], Text(m.backend), " ", gap);
      assert " " + "" == " ";
      NoWord();
    }
  }

  lemma NoWord()
    ensures Scan(" ", FILE_FORMAT[3..]) == []
  {
    SkipSpaceOf(" ", "");
    assert " " + "" == " ";
  }

  /** A cut inside a line leaves one line, or none. */
  lemma CutIsOneLine(s: string)
    requires All(s, NotNewline) && |s| < 511
    ensures Entries(s) == match ParseFileLine(s) case None => [] case Some(e) => [e]
  {
    hide ParseFileLine;
    SpanLenOf(s, "", NotNewline);
    assert s + "" == s;
    if s == "" {
      EmptyLineIsNoEntry();
    } else {
      assert Taken(s, LINE_MAX) == |s| && s[..|s|] == s && s[|s|..] == "";
      assert Lines(s, LINE_MAX) == [s] + Lines("", LINE_MAX);
      EntriesCons(s, []);
    }
  }

  lemma EmptyLineIsNoEntry()
    ensures ParseFileLine("") == None && Entries("") == []
  {
    NothingScanned(FILE_FORMAT);
  }

  /** The first `n` characters of a file are read as its first entries, and then at most one more with
      a part of its hash. */
  lemma {:induction false} CutIsRead(ms: TM.Store, n: nat)
    requires AllFileSafe(ms) && n <= |FileText(ms)|
    ensures Entries(FileText(ms)[..n]) == CutEntries(ms, n)
  {
    hide ParseFileLine, FileSafe, RecordText, Lines, EntriesIn, HashAt;
    if ms == [] {
      EmptyLineIsNoEntry();
    } else {
      assert FileSafe(ms[0]);
      FileLineShape(ms[0]);
      var r, rest := RecordText(ms[0]), FileText(ms[1..]);
      var line := r + "\n";
      if n >= |line| {
        CutIsRead(ms[1..], n - |line|);
        assert (line + rest)[..n] == line + rest[..n - |line|];
        LineOf(r, rest[..n - |line|], LINE_MAX);
        FileLineRoundTrip(ms[0]);
        EntriesCons(line, Lines(rest[..n - |line|], LINE_MAX));
      } else {
        assert (line + rest)[..n] == r[..n];
        CutLine(ms[0], n);
        RecordParts(ms[0], n);
        CutIsOneLine(r[..n]);
      }
    }
  }

  /** An entry of which the hash may have lost its end. */
  predicate Shortened(cut: Manifest, m: Manifest) {
    cut.artifactId == m.artifactId && cut.version == m.version && cut.backend == m.backend &&
    cut.modelHash <= m.modelHash
  }

  /** Only the last entry that is read can be shortened. */
  lemma {:induction false} CutEntriesAt(ms: TM.Store, n: nat)
    ensures |CutEntries(ms, n)| <= |ms|
    ensures forall k | 0 <= k < |CutEntries(ms, n)| ::
      Shortened(CutEntries(ms, n)[k], ms[k]) && (k < |CutEntries(ms, n)| - 1 ==> CutEntries(ms, n)[k] == ms[k])
  {
    hide FileLine, HashAt;
    if ms != [] && n >= |FileLine(ms[0])| {
      var rest := CutEntries(ms[1..], n - |FileLine(ms[0])|);
      CutEntriesAt(ms[1..], n - |FileLine(ms[0])|);
      forall k | 0 <= k < |rest| + 1
        ensures Shortened(([ms[0]] + rest)[k], ms[k]) && (k < |rest| ==> ([ms[0]] + rest)[k] == ms[k])
      {
        if k > 0 {
          assert ([ms[0]] + rest)[k] == rest[k - 1] && ms[k] == ms[1..][k - 1];
        }
      }
    }
  }

  /** The length of a file without its last line feed. */
  function BareLength(ms: TM.Store): nat { if FileText(ms) == "" then 0 else |FileText(ms)| - 1 }

  /** A cut file is read as the whole one exactly when it lost nothing but its last line feed. */
  lemma {:induction false} CutIsWholeIff(ms: TM.Store, n: nat)
    requires AllFileSafe(ms)
    ensures CutEntries(ms, n) == ms <==> n >= BareLength(ms)
  {
    hide FileSafe, RecordText, FileLine, HashAt;
    if ms != [] {
      assert FileSafe(ms[0]);
      LineLength(ms[0]);
      if n >= |FileLine(ms[0])| {
        CutIsWholeIff(ms[1..], n - |FileLine(ms[0])|);
        var rest := CutEntries(ms[1..], n - |FileLine(ms[0])|);
        assert ([ms[0]] + rest)[1..] == rest && ms == [ms[0]] + ms[1..];
      } else {
        NonEmptyText(ms[1..]);
        assert ms[0].modelHash[..|ms[0].modelHash|] == ms[0].modelHash;
        assert ms[0].modelHash != "" by { HashIsNotEmpty(ms[0]); }
        if |ms| == 1 {
          assert ms == [ms[0]] && FileText(ms[1..]) == "";
        }
      }
    }
  }

  lemma HashIsNotEmpty(m: Manifest)
    requires FileSafe(m)
    ensures m.modelHash != ""
  {
    CarriedFields(63, m);
  }

  lemma LineLength(m: Manifest)
    ensures |FileLine(m)| == HashAt(m) + |m.modelHash| + 1
  {
    RecordParts(m, 0);
  }

  lemma NonEmptyText(ms: TM.Store)
    ensures ms != [] ==> FileText(ms) != ""
  {
  }

  /** Looking an artifact up in a cut file. */
  lemma {:induction false} FindCut(ms: TM.Store, n: nat, id: string)
    ensures var found, was := TM.Find(CutEntries(ms, n), id), TM.Find(ms, id);
      found.Some? ==> was.Some? && Shortened(found.value, was.value)
  {
    hide FileLine, HashAt;
    if ms != [] && n >= |FileLine(ms[0])| {
      FindCut(ms[1..], n - |FileLine(ms[0])|, id);
      var rest := CutEntries(ms[1..], n - |FileLine(ms[0])|);
      assert ([ms[0]] + rest)[1..] == rest;
    }
  }
}
