/** The messages about manifests, between what a client prints and what trustd's dispatch makes of
    the one read it does. */
module Protocol {
  import opened CText
  import opened Manifests
  import TM = TrustMachine

  datatype Command = Enroll | Update | Verify

  datatype Request = Request(cmd: Command, m: Manifest)

  function CommandName(cmd: Command): (name: string)
    ensures |name| == 6
  {
    match cmd case Enroll => "ENROLL" case Update => "UPDATE" case Verify => "VERIFY"
  }

  /** What one `read` into trustd's 512-byte buffer takes of a message. */
  function Received(message: string): string { message[..Min(|message|, 511)] }

  /** The prefix test of trustd's main loop, for the three commands about a manifest. */
  function CommandOf(buf: string): Option<Command> {
    if "ENROLL" <= buf then Some(Enroll)
    else if "VERIFY" <= buf then Some(Verify)
    else if "UPDATE" <= buf then Some(Update)
    else None
  }

  /** The request trustd reads from a message, if it can parse one. */
  function RequestIn(buf: string): Option<Request> {
    match CommandOf(buf)
    case None => None
    case Some(cmd) =>
      match ParseManifestMessage(buf, CommandName(cmd))
      case None => None
      case Some(m) => Some(Request(cmd, m))
  }

  /** A manifest that the event writer of every process accepts; on any other it aborts the process. */
  predicate Printable(m: Manifest) { m.artifactId != "" && m.version >= 1 && m.backend != "" }

  /** A message that ends trustd: its event writer aborts on a version below 1, after the backend was
      asked and before the reply is sent. */
  predicate Fatal(buf: string) {
    RequestIn(buf).Some? && RequestIn(buf).value.m.version <= 0
  }

  /** A request as the abstract machine sees it. */
  function OpFor(cmd: Command, m: Manifest, room: bool): TM.Op {
    match cmd
    case Enroll => TM.Enroll(m, room)
    case Update => TM.Update(m, room)
    case Verify => TM.Verify(m)
  }

  /** `tear_trust_enroll`, `tear_trust_update_model` and `tear_trust_verify`, as they arrive. */
  function Sent(cmd: Command, m: Manifest): string {
    Received(ManifestMessage(CommandName(cmd), m))
  }

  /** The manifest that reaches trustd when a client sends `m`. */
  function Delivered(cmd: Command, m: Manifest): Option<Manifest> {
    ParseManifestMessage(Sent(cmd, m), CommandName(cmd))
  }

  /** A sent message is dispatched to its own handler. */
  lemma SentIsRequest(cmd: Command, m: Manifest)
    ensures CommandOf(Sent(cmd, m)) == Some(cmd)
    ensures RequestIn(Sent(cmd, m))
         == match Delivered(cmd, m) case None => None case Some(p) => Some(Request(cmd, p))
  {
    hide ParseManifestMessage, RecordText;
    SentTail(cmd, m);
    var name, buf := CommandName(cmd), Sent(cmd, m);
    assert buf[..6] == name && buf[0] == name[0];
  }

  /** What follows the command word is the same for all three commands. */
  lemma SentTail(cmd: Command, m: Manifest)
    ensures CommandName(cmd) <= Sent(cmd, m)
    ensures Sent(cmd, m)[6..] == (" " + RecordText(m) + "\n")[..Min(|RecordText(m)| + 2, 505)]
  {
    hide RecordText;
    var name, tail := CommandName(cmd), " " + RecordText(m) + "\n";
    MessageTail(name, RecordText(m));
    assert ManifestMessage(name, m) == name + tail;
    var n := Min(|tail|, 505);
    assert Received(name + tail) == name + tail[..n];
  }

  lemma DeliveredAlike(a: Command, b: Command, m: Manifest)
    ensures Delivered(a, m) == Delivered(b, m)
  {
    hide Sent, Scan, RecordText;
    SentTail(a, m);
    SentTail(b, m);
  }

  lemma DeliveredIsSafe(cmd: Command, m: Manifest)
    requires Delivered(cmd, m).Some?
    ensures WireSafe(Delivered(cmd, m).value)
  {
    ParsedMessageIsWireSafe(Sent(cmd, m), CommandName(cmd));
  }

  /** Only the words of the first record count: whatever else the client's fields put behind it, trustd
      reads that record's manifest. */
  lemma FirstRecordCounts(cmd: Command, m: Manifest, good: Manifest, tail: string)
    requires WireSafe(good) && tail != "" && IsSpace(tail[0])
    requires RecordText(m) + "\n" == RecordText(good) + tail
    ensures Delivered(cmd, m) == Some(good)
  {
    hide RecordText, WireSafe, Sent, Scan, ManifestMessage;
    SentTail(cmd, m);
    RecordTextShape(good);
    assert Carries(WIRE_FORMAT, Fields(good)) by { WireSafeCarries(good); }
    var r := RecordText(good);
    assert " " + RecordText(m) + "\n" == " " + (r + tail);
    var n := Min(|r| + |tail|, 504) - |r|;
    assert (" " + (r + tail))[..1 + |r| + n] == " " + r + tail[..n];
    RecordRoundTrip(WIRE_FORMAT, good, " ", tail[..n]);
  }

  /** A manifest reaches trustd unchanged exactly when it is wire-safe. */
  lemma DeliveredIff(cmd: Command, m: Manifest)
    ensures Delivered(cmd, m) == Some(m) <==> WireSafe(m)
  {
    hide WireSafe, Delivered, RecordText;
    if WireSafe(m) {
      FirstRecordCounts(cmd, m, m, "\n");
    }
    if Delivered(cmd, m) == Some(m) {
      DeliveredIsSafe(cmd, m);
    }
  }

  /** Anything behind a white space in the hash is ignored. */
  lemma HashIsCut(cmd: Command, good: Manifest, junk: string)
    requires WireSafe(good)
    ensures Delivered(cmd, good.(modelHash := good.modelHash + (" " + junk))) == Some(good)
  {
    hide RecordText, WireSafe, Delivered, PrintInt;
    var m := good.(modelHash := good.modelHash + (" " + junk));
    RecordTextIs(m);
    RecordTextIs(good);
    var a, b, c, d := good.artifactId + " ", PrintInt(good.version) + " ", good.backend + " ", good.modelHash;
    assert a + (b + (c + (d + (" " + junk)))) == (a + (b + (c + d))) + (" " + junk);
    assert RecordText(m) + "\n" == RecordText(good) + (" " + junk + "\n");
    FirstRecordCounts(cmd, m, good, " " + junk + "\n");
  }

  /** An artifact id that spells a whole record is read as that record. */
  lemma IdIsCut(cmd: Command, good: Manifest, version: int, backend: string, hash: string)
    requires WireSafe(good)
    ensures Delivered(cmd, Manifest(RecordText(good), version, backend, hash)) == Some(good)
  {
    hide RecordText, WireSafe, Delivered, PrintInt;
    var m := Manifest(RecordText(good), version, backend, hash);
    RecordTextIs(m);
    var rest := PrintInt(version) + " " + (backend + " " + hash);
    assert RecordText(m) + "\n" == RecordText(good) + (" " + rest + "\n");
    FirstRecordCounts(cmd, m, good, " " + rest + "\n");
  }
}
