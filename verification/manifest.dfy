/** Model manifests and the three texts they travel in: the message on trustd's socket,
    the line of the trusted-state file and the record of the Trusted Application. */
module Manifests {
  import opened CText

  datatype Manifest = Manifest(artifactId: string, version: int, backend: string, modelHash: string)

  function Fields(m: Manifest): seq<Field> {
    [Text(m.artifactId), Number(m.version), Text(m.backend), Text(m.modelHash)]
  }

  /** `"%s %d %s %s"` */
  function RecordText(m: Manifest): string {
    PrintFields(Fields(m))
  }

  /** The conversions trustd applies to a message and to a line of its file. */
  const WIRE_FORMAT := [Word(63), Int, Word(31), Word(127)]
  const FILE_FORMAT := [Word(63), Int, Word(63), Word(127)]

  /** A manifest whose fields survive trustd's conversions. */
  predicate WireSafe(m: Manifest) {
    Carries(WIRE_FORMAT, Fields(m))
  }

  /** A manifest that a line of the trusted-state file can carry. */
  predicate FileSafe(m: Manifest) {
    Carries(FILE_FORMAT, Fields(m))
  }

  function FromFields(fields: seq<Field>): Option<Manifest> {
    if |fields| == 4 && fields[0].Text? && fields[1].Number? && fields[2].Text? && fields[3].Text?
    then Some(Manifest(fields[0].text, fields[1].value, fields[2].text, fields[3].text))
    else None
  }

  /** `sscanf(buf, "<command> %63s %d %31s %127s", ...) == 4` */
  function ParseManifestMessage(buf: string, command: string): Option<Manifest> {
    if command <= buf then FromFields(Scan(buf[|command|..], WIRE_FORMAT)) else None
  }

  /** `sscanf(line, "%63s %d %63s %127s", ...) == 4` */
  function ParseFileLine(line: string): Option<Manifest> {
    FromFields(Scan(line, FILE_FORMAT))
  }

  /** `fprintf(f, "%s %d %s %s\n", ...)` */
  function FileLine(m: Manifest): string {
    RecordText(m) + "\n"
  }

  /** `"ENROLL %s %d %s %s\n"` and its siblings. */
  function ManifestMessage(command: string, m: Manifest): string {
    command + " " + RecordText(m) + "\n"
  }

  /** Whatever arrives on the socket, a manifest that trustd accepts is wire-safe. */
  lemma ParsedMessageIsWireSafe(buf: string, command: string)
    requires ParseManifestMessage(buf, command).Some?
    ensures WireSafe(ParseManifestMessage(buf, command).value)
  {
    hide Scan;
    var fields := Scan(buf[|command|..], WIRE_FORMAT);
    ScannedFieldsCarry(buf[|command|..], WIRE_FORMAT);
    var m := ParseManifestMessage(buf, command).value;
    assert fields == Fields(m);
  }

  lemma NoLead(text: string, tail: string)
    ensures "" + text + tail == text + tail
  {
    assert "" + text == text;
  }

  /** Every conversion list that carries the fields reads the printed record back. */
  lemma RecordRoundTrip(kinds: seq<Kind>, m: Manifest, lead: string, tail: string)
    requires Carries(kinds, Fields(m))
    requires All(lead, IsSpace)
    requires tail == "" || IsSpace(tail[0])
    ensures FromFields(Scan(lead + RecordText(m) + tail, kinds)) == Some(m)
  {
    ScanPrinted(kinds, Fields(m), lead, tail);
  }

  /** The message a client prints is read back by trustd as the same manifest exactly when the
      manifest is wire-safe: white space in a field, an empty or an overlong one change it. */
  lemma MessageRoundTrip(command: string, m: Manifest)
    ensures ParseManifestMessage(ManifestMessage(command, m), command) == Some(m) <==> WireSafe(m)
  {
    hide WireSafe, RecordText, Scan;
    var text := ManifestMessage(command, m);
    assert text[|command|..] == " " + RecordText(m) + "\n" && command <= text by {
      MessageTail(command, RecordText(m));
    }
    if WireSafe(m) {
      assert Carries(WIRE_FORMAT, Fields(m)) by { WireSafeCarries(m); }
      RecordRoundTrip(WIRE_FORMAT, m, " ", "\n");
    }
    if ParseManifestMessage(text, command) == Some(m) {
      ParsedMessageIsWireSafe(text, command);
    }
  }

  lemma WireSafeCarries(m: Manifest)
    ensures WireSafe(m) <==> Carries(WIRE_FORMAT, Fields(m))
  {
  }

  /** What a format carries, field by field. */
  lemma CarriedFields(backendWidth: nat, m: Manifest)
    ensures Carries([Word(63), Int, Word(backendWidth), Word(127)], Fields(m))
       <==> && 0 < |m.artifactId| <= 63 && All(m.artifactId, IsWordChar)
            && InRange(Int, m.version)
            && 0 < |m.backend| <= backendWidth && All(m.backend, IsWordChar)
            && 0 < |m.modelHash| <= 127 && All(m.modelHash, IsWordChar)
  {
    var kinds, fs := [Word(63), Int, Word(backendWidth), Word(127)], Fields(m);
    if Carries(kinds, fs) {
      assert CarriesOne(kinds[0], fs[0]) && CarriesOne(kinds[1], fs[1]);
      assert CarriesOne(kinds[2], fs[2]) && CarriesOne(kinds[3], fs[3]);
    }
  }

  lemma WireSafeFields(m: Manifest)
    requires WireSafe(m)
    ensures 0 < |m.artifactId| <= 63 && All(m.artifactId, IsWordChar)
    ensures -0x8000_0000 <= m.version <= INT_MAX
    ensures 0 < |m.backend| <= 31 && All(m.backend, IsWordChar)
    ensures 0 < |m.modelHash| <= 127 && All(m.modelHash, IsWordChar)
    ensures Carries(FILE_FORMAT, Fields(m))
  {
    hide Carries;
    CarriedFields(31, m);
    CarriedFields(63, m);
  }

  /** A line written to the trusted-state file is read back as the same manifest. */
  lemma FileLineRoundTrip(m: Manifest)
    requires FileSafe(m)
    ensures ParseFileLine(FileLine(m)) == Some(m)
  {
    RecordRoundTrip(FILE_FORMAT, m, "", "\n");
    NoLead(RecordText(m), "\n");
  }

  /** The record, word by word. */
  lemma RecordTextIs(m: Manifest)
    ensures RecordText(m) == m.artifactId + " " + (PrintInt(m.version) + " " + (m.backend + " " + m.modelHash))
  {
    var fs := Fields(m);
    assert fs[1..][1..] == fs[2..] && fs[2..][1..] == fs[3..];
    assert PrintFields(fs[3..]) == m.modelHash;
    assert PrintFields(fs[2..]) == m.backend + " " + m.modelHash;
    assert PrintFields(fs[1..]) == PrintInt(m.version) + " " + PrintFields(fs[2..]);
  }

  lemma PrintIntLength(v: int)
    requires -0x8000_0000 <= v <= INT_MAX
    ensures |PrintInt(v)| <= if v < 0 then 11 else 10
  {
    IntDigits();
    PrintNatLength(if v < 0 then -v else v, 10);
  }

  predicate OnOneLine(s: string) { All(s, IsWordCharOrBlank) }

  predicate IsWordCharOrBlank(c: char) { IsWordChar(c) || c == ' ' }

  /** The printed record fits the 256-byte buffers with room to spare and holds neither
      a line break nor a terminator. */
  lemma RecordTextShape(m: Manifest)
    requires WireSafe(m)
    ensures 7 <= |RecordText(m)| <= (if m.version < 0 then 235 else 234)
    ensures OnOneLine(RecordText(m))
  {
    WireSafeFields(m);
    RecordTextIs(m);
    PrintIntLength(m.version);
  }

  /** The update policy, the same in trustd and in the Trusted Application. */
  predicate UpdateAllowed(trusted: Manifest, incoming: Manifest) {
    trusted.artifactId == incoming.artifactId && trusted.backend == incoming.backend &&
    incoming.version > trusted.version
  }
}
