/** Optimizer decisions: printed by the client, parsed by trustd, kept by either backend,
    and reported back through buffers of 512 bytes. */
module Decisions {
  import opened CText
  import opened StateFile
  import TaTokens
  import opened TaRecords

  datatype Decision = Decision(
    runId: string, artifactId: string, proposal: string, decision: string, reason: string, value: int)

  function Fields(d: Decision): seq<Field> {
    [Text(d.runId), Text(d.artifactId), Text(d.proposal), Text(d.decision), Text(d.reason), Number(d.value)]
  }

  const DECISION_FORMAT := [Word(63), Word(63), Word(127), Word(63), Word(127), Long]

  const COMMAND := "RECORD_DECISION"

  /** A decision whose fields survive trustd's conversions. */
  predicate DecisionSafe(d: Decision) { Carries(DECISION_FORMAT, Fields(d)) }

  /** `"RECORD_DECISION %s %s %s %s %s %ld\n"` */
  function DecisionMessage(d: Decision): string {
    COMMAND + " " + PrintFields(Fields(d)) + "\n"
  }

  function FromFields(fs: seq<Field>): Option<Decision> {
    if |fs| == 6 && fs[0].Text? && fs[1].Text? && fs[2].Text? && fs[3].Text? && fs[4].Text? && fs[5].Number?
    then Some(Decision(fs[0].text, fs[1].text, fs[2].text, fs[3].text, fs[4].text, fs[5].value))
    else None
  }

  /** `parse_decision_message` */
  function ParseDecisionMessage(buf: string): Option<Decision> {
    if COMMAND <= buf then FromFields(Scan(buf[|COMMAND|..], DECISION_FORMAT)) else None
  }

  /** The stored text, the same in both backends; the file adds a line feed. */
  function DecisionText(d: Decision): string {
    "run_id=" + d.runId + (" artifact_id=" + d.artifactId + (" proposal=" + d.proposal +
    (" decision=" + d.decision + (" reason=" + d.reason + (" value=" + PrintInt(d.value))))))
  }

  /** The line of the decision log. */
  function DecisionLine(d: Decision): string { DecisionText(d) + "\n" }

  /** A log that does not exist yet is empty. */
  function LogText(log: Option<string>): string { if log.None? then "" else log.value }

  /** The message, word by word. */
  lemma DecisionMessageIs(d: Decision)
    ensures DecisionMessage(d)
         == "RECORD_DECISION " + d.runId + (" " + (d.artifactId + (" " + (d.proposal + (" " + (d.decision + (" " +
            (d.reason + (" " + PrintInt(d.value)))))))))) + "\n"
  {
    hide PrintInt;
    var fs := Fields(d);
    assert fs[1..][1..] == fs[2..] && fs[2..][1..] == fs[3..] && fs[3..][1..] == fs[4..] && fs[4..][1..] == fs[5..];
    assert PrintFields(fs[5..]) == PrintInt(d.value);
    assert PrintFields(fs[4..]) == d.reason + (" " + PrintFields(fs[5..]));
    assert PrintFields(fs[3..]) == d.decision + (" " + PrintFields(fs[4..]));
    assert PrintFields(fs[2..]) == d.proposal + (" " + PrintFields(fs[3..]));
    var rest := " " + PrintFields(fs[1..]);
    assert PrintFields(fs) == d.runId + rest;
    assert COMMAND + " " == "RECORD_DECISION " && "RECORD_DECISION " + (d.runId + rest) == "RECORD_DECISION " + d.runId + rest;
  }

  lemma DecisionRoundTrip(kinds: seq<Kind>, d: Decision, lead: string, tail: string)
    requires Carries(kinds, Fields(d))
    requires All(lead, IsSpace)
    requires tail == "" || IsSpace(tail[0])
    ensures FromFields(Scan(lead + PrintFields(Fields(d)) + tail, kinds)) == Some(d)
  {
    ScanPrinted(kinds, Fields(d), lead, tail);
  }

  /** The wire message of a decision is read back as the same decision. */
  lemma DecisionMessageRoundTrip(d: Decision)
    requires DecisionSafe(d)
    ensures ParseDecisionMessage(DecisionMessage(d)) == Some(d)
  {
    hide PrintFields, Scan;
    MessageTail(COMMAND, PrintFields(Fields(d)));
    DecisionRoundTrip(DECISION_FORMAT, d, " ", "\n");
  }

  lemma ParsedDecisionIsSafe(buf: string)
    requires ParseDecisionMessage(buf).Some?
    ensures DecisionSafe(ParseDecisionMessage(buf).value)
  {
    hide Scan;
    ScannedFieldsCarry(buf[|COMMAND|..], DECISION_FORMAT);
    assert Scan(buf[|COMMAND|..], DECISION_FORMAT) == Fields(ParseDecisionMessage(buf).value);
  }

  lemma DecisionSafeFields(d: Decision)
    requires DecisionSafe(d)
    ensures All(d.runId, IsWordChar) && |d.runId| <= 63
    ensures All(d.artifactId, IsWordChar) && |d.artifactId| <= 63
    ensures All(d.proposal, IsWordChar) && |d.proposal| <= 127
    ensures All(d.decision, IsWordChar) && |d.decision| <= 63
    ensures All(d.reason, IsWordChar) && |d.reason| <= 127
    ensures InRange(Long, d.value)
  {
    var fs := Fields(d);
    assert CarriesOne(DECISION_FORMAT[0], fs[0]) && CarriesOne(DECISION_FORMAT[1], fs[1]);
    assert CarriesOne(DECISION_FORMAT[2], fs[2]) && CarriesOne(DECISION_FORMAT[3], fs[3]);
    assert CarriesOne(DECISION_FORMAT[4], fs[4]) && CarriesOne(DECISION_FORMAT[5], fs[5]);
  }

  /** The text of a decision is one line of printable characters; its length is the sum of its
      fields and 55 characters of labels. */
  lemma DecisionTextShape(d: Decision)
    requires DecisionSafe(d)
    ensures All(DecisionText(d), IsPlain) && DecisionText(d)[0] == 'r'
    ensures |DecisionText(d)| == 55 + |d.runId| + |d.artifactId| + |d.proposal| + |d.decision| + |d.reason|
                                 + |PrintInt(d.value)|
  {
    hide IsPlain;
    DecisionSafeFields(d);
    var value := " value=" + PrintInt(d.value);
    var reason := " reason=" + d.reason + value;
    var decision := " decision=" + d.decision + reason;
    var proposal := " proposal=" + d.proposal + decision;
    var artifact := " artifact_id=" + d.artifactId + proposal;
    LabelIsPlain(" value=", PrintInt(d.value), "");
    assert value + "" == value;
    LabelIsPlain(" reason=", d.reason, value);
    LabelIsPlain(" decision=", d.decision, reason);
    LabelIsPlain(" proposal=", d.proposal, decision);
    LabelIsPlain(" artifact_id=", d.artifactId, proposal);
    LabelIsPlain("run_id=", d.runId, artifact);
    assert DecisionText(d) == "run_id=" + d.runId + artifact;
  }

  lemma DecisionTextLength(d: Decision)
    ensures |DecisionText(d)| == 55 + |d.runId| + |d.artifactId| + |d.proposal| + |d.decision| + |d.reason|
                                 + |PrintInt(d.value)|
  {
    hide PrintInt;
  }

  predicate IsLabel(s: string) {
    s in {" value=", " reason=", " decision=", " proposal=", " artifact_id=", "run_id="}
  }

  lemma LabelIsPlain(l: string, s: string, rest: string)
    requires IsLabel(l) && All(s, IsWordChar) && All(rest, IsPlain)
    ensures All(l + s + rest, IsPlain)
  {
    WordsArePlain(s);
    assert All(l, IsPlain);
    PlainConcat(l, s);
    PlainConcat(l + s, rest);
  }

  /** The stored text is made of six words, each a label and the field it names. */
  lemma DecisionTextWords(d: Decision)
    requires DecisionSafe(d)
    ensures TaTokens.Words(DecisionText(d))
         == ["run_id=" + d.runId, "artifact_id=" + d.artifactId, "proposal=" + d.proposal, "decision=" + d.decision,
             "reason=" + d.reason, "value=" + PrintInt(d.value)]
  {
    hide TaTokens.Words, PrintInt;
    DecisionSafeFields(d);
    var value := " value=" + PrintInt(d.value);
    var reason := " reason=" + d.reason + value;
    var decision := " decision=" + d.decision + reason;
    var proposal := " proposal=" + d.proposal + decision;
    var artifact := " artifact_id=" + d.artifactId + proposal;
    NoMoreWords();
    assert value + "" == value;
    assert " " + "value=" == " value=" && " " + "reason=" == " reason=" && " " + "decision=" == " decision=";
    assert " " + "proposal=" == " proposal=" && " " + "artifact_id=" == " artifact_id=" && "" + "run_id=" == "run_id=";
    LabelledWord(" ", "value=", PrintInt(d.value), "");
    LabelledWord(" ", "reason=", d.reason, value);
    LabelledWord(" ", "decision=", d.decision, reason);
    LabelledWord(" ", "proposal=", d.proposal, decision);
    LabelledWord(" ", "artifact_id=", d.artifactId, proposal);
    LabelledWord("", "run_id=", d.runId, artifact);
    assert DecisionText(d) == "" + "run_id=" + d.runId + artifact;
  }

  lemma NoMoreWords()
    ensures TaTokens.Words("") == []
  {
  }

  lemma LabelledWord(gap: string, l: string, s: string, rest: string)
    requires All(gap, IsBlank) && l != "" && All(l, TaTokens.IsWordLetter)
    requires All(s, IsWordChar) && (rest == "" || rest[0] == ' ')
    ensures TaTokens.Words(gap + l + s + rest) == [l + s] + TaTokens.Words(rest)
  {
    hide TaTokens.Words;
    var word := l + s;
    assert All(word, TaTokens.IsWordLetter) && word != "" by {
      forall k | 0 <= k < |word| ensures TaTokens.IsWordLetter(word[k]) {
        assert word[k] == if k < |l| then l[k] else s[k - |l|];
        assert k >= |l| ==> IsWordChar(s[k - |l|]);
      }
    }
    TaTokens.FirstWord(gap, word, rest);
    assert gap + l + s + rest == gap + (word + rest);
  }

  // ---------------------------------------------------------- the two stores

  /** `tear_optee_record_decision`: the text that is handed to the Trusted Application. */
  function OpteeRecord(d: Decision): Option<string> {
    if |DecisionText(d)| < 512 then Some(DecisionText(d)) else None
  }

  /** The decision log of the file backend after some decisions. */
  function Log(ds: seq<Decision>): string {
    if ds == [] then "" else Log(ds[..|ds| - 1]) + DecisionLine(ds[|ds| - 1])
  }

  function LastOf(lines: seq<string>): string {
    if lines == [] then "" else lines[|lines| - 1]
  }

  /** `tear_trusted_state_report_decision` */
  function ReportedByFile(content: Option<string>, size: nat): Option<string> {
    if content.None? then None
    else
      var last := CStr(LastOf(Lines(content.value, 512)));
      if last == "" then None
      else
        var text := last[..SpanLen(last, NotNewline)];
        if |text| < size then Some(text) else None
  }

  /** A log that every append has terminated. */
  predicate Closed(log: string) { log == "" || log[|log| - 1] == '\n' }

  /** A line that fits the buffer is the last thing fgets returns, however long the lines
      before it are. */
  lemma {:induction false} LastLineOf(log: string, line: string)
    requires Closed(log) && All(line, NotNewline) && |line| + 1 < 512
    ensures LastOf(Lines(log + (line + "\n"), 512)) == line + "\n"
    ensures Lines(log + (line + "\n"), 512) != []
    decreases |log|
  {
    hide Lines;
    var s := log + (line + "\n");
    if log == "" {
      assert s == line + "\n" + "";
      LineOf(line, "", 512);
      NoLines();
      assert [line + "\n"] + [] == [line + "\n"];
    } else {
      var n := Taken(s, 512);
      TakenWithin(log, line + "\n");
      assert s[n..] == log[n..] + (line + "\n");
      LinesStep(s);
      LastLineOf(log[n..], line);
    }
  }

  lemma NoLines()
    ensures Lines("", 512) == []
  {
  }

  lemma LinesStep(s: string)
    requires s != ""
    ensures Lines(s, 512) == [s[..Taken(s, 512)]] + Lines(s[Taken(s, 512)..], 512)
  {
  }

  lemma TakenWithin(log: string, rest: string)
    requires log != "" && Closed(log)
    ensures 0 < Taken(log + rest, 512) <= |log|
  {
    var s := log + rest;
    assert s[|log| - 1] == '\n' && !NotNewline(s[|log| - 1]);
  }

  lemma {:induction false} LogIsClosed(ds: seq<Decision>)
    ensures Closed(Log(ds))
  {
  }

  // ------------------------------------------------------------- the way back

  /** `tear_trust_report_decision`: what a client makes of the reply `DECISION <text>`. */
  function ClientReads(reply: string): Option<string> {
    var buf := reply[..Min(|reply|, 511)];
    if !("DECISION" <= buf) then None
    else
      var t := SkipSpace(buf[8..]);
      var n := Min(511, SpanLen(t, IsPlain));
      if n == 0 then None else Some(t[..n])
  }

  function DecisionReply(text: string): string { "DECISION " + text }

  /** A reported text reaches the client unchanged exactly when it has at most 502 characters. */
  lemma ReplyRoundTripIff(text: string)
    requires All(text, IsPlain) && text != "" && !IsSpace(text[0])
    ensures ClientReads(DecisionReply(text)) == Some(text) <==> |text| <= 502
  {
    var cut := text[..Min(|text|, 502)];
    var reply := DecisionReply(text);
    var buf := reply[..Min(|reply|, 511)];
    assert buf == "DECISION " + cut;
    assert buf[..8] == "DECISION";
    assert buf[8..] == " " + cut;
    SkipSpaceOf(" ", cut);
    SpanLenOf(cut, "", IsPlain);
    assert cut + "" == cut;
    assert cut[..|cut|] == cut;
    assert ClientReads(reply) == Some(cut);
    assert |text| <= 502 ==> cut == text;
  }

  /** What trustd replies to REPORT_DECISION when the file backend holds the log of `ds`. */
  function FileReply(ds: seq<Decision>): Option<string> {
    match ReportedByFile(Some(Log(ds)), 512)
    case None => None
    case Some(text) => Some(DecisionReply(text))
  }

  /** What is left of a line in the line buffer: the whole of one that fits, and of a longer one what is
      behind its 511th character. */
  function LastPiece(text: string): string { if |text| <= 510 then text else text[511..] }

  /** The file backend reports the last line of a log, whatever the length of the lines in front of it, as
      far as it is left in the line buffer and if it fits the caller's; a missing or an empty log is no
      report. */
  lemma LastLineIsReported(log: string, text: string, size: nat)
    requires Closed(log) && All(text, IsPlain) && 0 < |text| <= 1021 && size > 0
    ensures ReportedByFile(Some(log + (text + "\n")), size)
         == if |LastPiece(text)| < size then Some(LastPiece(text)) else None
    ensures ReportedByFile(None, size) == ReportedByFile(Some(""), size) == None
  {
    hide Lines;
    NoLines();
    assert All(text, NotNewline) by {
      forall k | 0 <= k < |text| ensures NotNewline(text[k]) { assert IsPlain(text[k]); }
    }
    if |text| <= 510 {
      LastLineOf(log, text);
    } else {
      LongLineIsSplit(log, text);
    }
    LineFeedIsCut(LastPiece(text));
  }

  lemma LineFeedIsCut(s: string)
    requires All(s, IsPlain)
    ensures CStr(s + "\n") == s + "\n" && SpanLen(s + "\n", NotNewline) == |s| && (s + "\n")[..|s|] == s
  {
    var line := s + "\n";
    forall k | 0 <= k < |line| ensures line[k] != NUL {
      assert k < |s| ==> line[k] == s[k] && IsPlain(s[k]);
    }
    CStrOf(line, "");
    assert All(s, NotNewline) by {
      forall k | 0 <= k < |s| ensures NotNewline(s[k]) { assert IsPlain(s[k]); }
    }
    SpanLenOf(s, "\n", NotNewline);
  }

  lemma LongLine(line: string)
    requires All(line, NotNewline) && 511 <= |line| <= 1021
    ensures LastOf(Lines(line + "\n", 512)) == line[511..] + "\n"
  {
    hide Lines, SpanLen;
    var s, rest := line + "\n", line[511..];
    SpanLenOf(line, "\n", NotNewline);
    LinesStep(s);
    assert s[511..] == rest + "\n" + "";
    assert All(rest, NotNewline);
    LineOf(rest, "", 512);
    NoLines();
    assert [rest + "\n"] + [] == [rest + "\n"];
  }

  lemma {:induction false} LongLineIsSplit(log: string, line: string)
    requires Closed(log) && All(line, NotNewline) && 511 <= |line| <= 1021
    ensures LastOf(Lines(log + (line + "\n"), 512)) == line[511..] + "\n" && Lines(log + (line + "\n"), 512) != []
    decreases |log|
  {
    hide Lines, Taken;
    var end := line + "\n";
    var s := log + end;
    LinesStep(s);
    if log == "" {
      assert s == end;
      LongLine(line);
    } else {
      var n := Taken(s, 512);
      TakenWithin(log, end);
      assert s[n..] == log[n..] + end;
      ClosedTail(log, n);
      LongLineIsSplit(log[n..], line);
    }
  }

  lemma ClosedTail(log: string, n: nat)
    requires Closed(log) && n <= |log|
    ensures Closed(log[n..])
  {
  }

  /** The file backend reports exactly the latest recorded decision when its line fits the buffer. */
  lemma FileReportsLatest(ds: seq<Decision>)
    requires ds != [] && DecisionSafe(ds[|ds| - 1]) && |DecisionText(ds[|ds| - 1])| <= 510
    ensures ReportedByFile(Some(Log(ds)), 512) == Some(DecisionText(ds[|ds| - 1]))
  {
    hide DecisionText, Lines, DecisionSafe, ReportedByFile;
    DecisionTextShape(ds[|ds| - 1]);
    LogIsClosed(ds[..|ds| - 1]);
    LastLineIsReported(Log(ds[..|ds| - 1]), DecisionText(ds[|ds| - 1]), 512);
  }

  /** The whole way of a decision through the file backend, exactly: the client gets the
      latest recorded decision back unchanged if and only if its text has at most 502
      characters. */
  lemma FileDecisionEndToEnd(ds: seq<Decision>)
    requires ds != [] && DecisionSafe(ds[|ds| - 1])
    ensures var text := DecisionText(ds[|ds| - 1]);
      (FileReply(ds).Some? && ClientReads(FileReply(ds).value) == Some(text)) <==> |text| <= 502
  {
    hide DecisionText, ReportedByFile, DecisionSafe;
    var text := DecisionText(ds[|ds| - 1]);
    DecisionTextShape(ds[|ds| - 1]);
    if |text| <= 502 {
      FileReportsLatest(ds);
      ReplyRoundTripIff(text);
    } else if FileReply(ds).Some? {
      ClientGetsAtMost502(FileReply(ds).value[9..]);
      assert FileReply(ds).value == DecisionReply(FileReply(ds).value[9..]);
    }
  }

  lemma ClientGetsAtMost502(text: string)
    ensures var r := ClientReads(DecisionReply(text)); r.Some? ==> |r.value| <= 502
  {
    var reply := DecisionReply(text);
    var buf := reply[..Min(|reply|, 511)];
    if |buf| > 8 {
      assert buf[8] == ' ';
      assert buf[8..][0] == ' ' && SpanLen(buf[8..], IsSpace) > 0;
    }
  }

  // --------------------------------------------------- what the runtime manager sends

  /** `approve_or_reject_proposal` */
  function Judge(available: bool, action: string): (string, string) {
    if !available then ("rejected", "metrics_missing")
    else if action == "request_high_accuracy_profile" then ("rejected", "profile_unavailable")
    else if action == "keep_current_profile" then ("approved", "policy_allows")
    else if action == "reject_input" then ("approved", "input_rejected")
    else ("rejected", "unknown_proposal")
  }

  /** The optimizer only suggests: a decision is `approved` exactly for the two actions the policy
      knows and allows, and never for a change of profile. */
  lemma OnlyAllowedActionsAreApproved(runId: string, artifactId: string, answer: Answer)
    ensures DecisionFor(runId, artifactId, answer).decision == "approved"
       <==> answer.Proposal? && answer.action in {"keep_current_profile", "reject_input"}
    ensures DecisionFor(runId, artifactId, answer).decision in {"approved", "rejected"}
  {
    assert |"request_high_accuracy_profile"| == 29 && |"approved"| == |"rejected"| == 8;
    assert "approved"[0] != "rejected"[0];
  }

  /** What `ask_optd` learns: nothing, no proposal, or a word of at most 127 characters. */
  datatype Answer = Unreachable | NoProposal | Proposal(action: string)

  /** `record_optimizer_decision`: the decision that is recorded for an answer. */
  function DecisionFor(runId: string, artifactId: string, answer: Answer): Decision {
    match answer
    case Unreachable => Decision(runId, artifactId, "none", "rejected", "optimizer_unavailable", 0)
    case NoProposal => Decision(runId, artifactId, "none", Judge(false, "none").0, Judge(false, "none").1, 0)
    case Proposal(action) =>
      Decision(runId, artifactId, action, Judge(true, action).0, Judge(true, action).1, 0)
  }

  /** Every decision of the runtime manager fits all buffers on the way: the wire message, the
      OP-TEE record, the file line and the reply. It reaches trustd unchanged exactly when the
      artifact id, which the manifest file decides, is free of white space. */
  lemma RuntimeDecisionsFit(runId: string, artifactId: string, answer: Answer)
    requires 0 < |runId| <= 63 && All(runId, IsWordChar)
    requires 0 < |artifactId| <= 63
    requires answer.Proposal? ==> 0 < |answer.action| <= 127 && All(answer.action, IsWordChar)
    ensures var d := DecisionFor(runId, artifactId, answer);
      && |DecisionText(d)| <= 502 && OpteeRecord(d) == Some(DecisionText(d)) && |DecisionMessage(d)| <= 511
      && (ParseDecisionMessage(DecisionMessage(d)) == Some(d) <==> All(artifactId, IsWordChar))
  {
    hide DecisionText, DecisionSafe, DecisionMessage, Judge, PrintInt, IsWordChar, ParseDecisionMessage;
    var d := DecisionFor(runId, artifactId, answer);
    JudgeShape(answer.Proposal?, d.proposal);
    VerdictWords();
    UnavailableWords();
    DecisionTextLength(d);
    ZeroPrinted();
    MessageLength(d);
    if All(artifactId, IsWordChar) {
      SafeFromFields(d);
      DecisionMessageRoundTrip(d);
    }
    if ParseDecisionMessage(DecisionMessage(d)) == Some(d) {
      ParsedDecisionIsSafe(DecisionMessage(d));
      DecisionSafeFields(d);
    }
  }

  function Filler(n: nat): (s: string)
    ensures |s| == n && All(s, IsWordChar)
  {
    seq(n, _ => 'x')
  }

  /** A decision with the widest fields and a reason of `n` characters. */
  function Widest(n: nat): Decision {
    Decision(Filler(63), Filler(63), Filler(127), Filler(63), Filler(n), -0x8000_0000_0000_0000)
  }

  lemma WidestIsSafe(n: nat)
    requires 0 < n <= 127
    ensures DecisionSafe(Widest(n)) && |DecisionText(Widest(n))| == 391 + n
  {
    hide DecisionText, DecisionSafe, Filler, PrintInt, IsWordChar;
    SafeFromFields(Widest(n));
    DecisionTextLength(Widest(n));
    LeastLongPrinted();
  }

  lemma LeastLongPrinted()
    ensures |PrintInt(-0x8000_0000_0000_0000)| == 20
  {
    hide PrintNat;
    IntDigits();
    assert Pow10(12) == 1_000_000_000_000 && Pow10(14) == 100_000_000_000_000;
    assert Pow10(16) == 10_000_000_000_000_000 && Pow10(18) == 1_000_000_000_000_000_000;
    PrintNatLength(0x8000_0000_0000_0000, 19);
    PrintNatIsLong(0x8000_0000_0000_0000, 19);
  }

  /** No decision that trustd accepts has more than 518 characters. */
  lemma DecisionTextBound(d: Decision)
    requires DecisionSafe(d)
    ensures |DecisionText(d)| <= 518
  {
    hide DecisionText, PrintInt;
    DecisionSafeFields(d);
    DecisionTextLength(d);
    assert |PrintInt(d.value)| <= 20 by { LongLength(d.value); }
  }

  lemma LongLength(v: int)
    requires InRange(Long, v)
    ensures |PrintInt(v)| <= 20
  {
    hide PrintNat;
    IntDigits();
    assert Pow10(12) == 1_000_000_000_000 && Pow10(14) == 100_000_000_000_000;
    assert Pow10(16) == 10_000_000_000_000_000 && Pow10(18) == 1_000_000_000_000_000_000;
    PrintNatLength(if v < 0 then -v else v, 19);
  }

  /** Decisions that trustd accepts and that are cut on the way: one of 503 characters, which both
      backends record and report whole, and the longest of all. */
  lemma CutDecisionWitness()
    ensures var d := Widest(112);
      && DecisionSafe(d) && |DecisionText(d)| == 503 && OpteeRecord(d) == Some(DecisionText(d))
      && ReportedByFile(Some(Log([d])), 512) == Some(DecisionText(d))
      && ClientReads(DecisionReply(DecisionText(d))) != Some(DecisionText(d))
    ensures var d := Widest(127);
      && DecisionSafe(d) && |DecisionText(d)| == 518 && OpteeRecord(d) == None
      && ClientReads(DecisionReply(DecisionText(d))) != Some(DecisionText(d))
    ensures forall d | DecisionSafe(d) :: |DecisionText(d)| <= 518
  {
    hide DecisionText, DecisionSafe, ReportedByFile, ClientReads, Log;
    WidestIsSafe(112);
    WidestIsSafe(127);
    DecisionTextShape(Widest(112));
    DecisionTextShape(Widest(127));
    ReplyRoundTripIff(DecisionText(Widest(112)));
    ReplyRoundTripIff(DecisionText(Widest(127)));
    FileReportsLatest([Widest(112)]);
    forall d | DecisionSafe(d) ensures |DecisionText(d)| <= 518 {
      DecisionTextBound(d);
    }
  }

  lemma UnavailableWords()
    ensures All("none", IsWordChar) && All("optimizer_unavailable", IsWordChar)
  {
  }

  lemma ZeroPrinted()
    ensures PrintInt(0) == "0"
  {
  }

  lemma JudgeShape(available: bool, action: string)
    ensures var (verdict, reason) := Judge(available, action);
      All(verdict, IsWordChar) && 0 < |verdict| <= 8 && All(reason, IsWordChar) && 0 < |reason| <= 19
  {
    hide IsWordChar;
    VerdictWords();
    RejectionWords();
    ApprovalWords();
  }

  lemma VerdictWords()
    ensures All("rejected", IsWordChar) && All("approved", IsWordChar)
  {
  }

  lemma RejectionWords()
    ensures All("metrics_missing", IsWordChar) && All("profile_unavailable", IsWordChar)
    ensures All("unknown_proposal", IsWordChar)
  {
  }

  lemma ApprovalWords()
    ensures All("policy_allows", IsWordChar) && All("input_rejected", IsWordChar)
  {
  }

  lemma SafeFromFields(d: Decision)
    requires 0 < |d.runId| <= 63 && All(d.runId, IsWordChar)
    requires 0 < |d.artifactId| <= 63 && All(d.artifactId, IsWordChar)
    requires 0 < |d.proposal| <= 127 && All(d.proposal, IsWordChar)
    requires 0 < |d.decision| <= 63 && All(d.decision, IsWordChar)
    requires 0 < |d.reason| <= 127 && All(d.reason, IsWordChar)
    requires InRange(Long, d.value)
    ensures DecisionSafe(d)
  {
    var fs := Fields(d);
    forall k | 0 <= k < |fs| ensures CarriesOne(DECISION_FORMAT[k], fs[k]) {
      assert k == 0 || k == 1 || k == 2 || k == 3 || k == 4 || k == 5;
    }
  }

  lemma {:induction false} PrintedLength(fs: seq<Field>)
    requires fs != []
    ensures |PrintFields(fs)| == |PrintField(fs[0])| + if |fs| == 1 then 0 else 1 + |PrintFields(fs[1..])|
  {
  }

  lemma MessageLength(d: Decision)
    ensures |DecisionMessage(d)| == 22 + |d.runId| + |d.artifactId| + |d.proposal| + |d.decision| + |d.reason|
                                    + |PrintInt(d.value)|
  {
    hide PrintFields;
    var fs := Fields(d);
    assert fs[1..][1..] == fs[2..] && fs[2..][1..] == fs[3..] && fs[3..][1..] == fs[4..] && fs[4..][1..] == fs[5..];
    PrintedLength(fs);
    PrintedLength(fs[1..]);
    PrintedLength(fs[2..]);
    PrintedLength(fs[3..]);
    PrintedLength(fs[4..]);
    PrintedLength(fs[5..]);
  }
}
