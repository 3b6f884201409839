# TEAR trust service: a verified model

TEAR keeps, for every model artifact, one trusted manifest (artifact id, version, backend,
hash) and lets a workload start only when trustd confirms the manifest it was given. The
trusted store exists twice: in a Trusted Application, as newline-framed records in a
2048-byte database, and in a text file that is rewritten through a temporary file. This
project models both, the daemon in front of them, the text protocols around them, and the
activation pipeline on top, and proves what they are for.

The project is layered; every layer is proved against the one above it.

1. `trust_machine.dfy`: the trust service as a machine over an ordered list of manifests.
   Rollback safety, agreement of VERIFY with history, and slot order are proved here over
   whole runs.
2. `ta_records.dfy`, `ta_tokens.dfy`, `ta_store.dfy`, `ta_machine.dfy`, `ta_breaks.dfy`: the
   Trusted Application on arbitrary bytes (embedded terminators and line breaks included), what
   its tokenizer accepts, its database as a list of records, the refinement of layer 1 over
   every run, and what a line break in a text does to the database.
3. `ta_entry.dfy`: the same application as it runs, with cursors, fixed arrays, two database
   buffers and persistent objects that are overwritten, each method proved equal to layer 2.
4. `stream.dfy`, `state_file.dfy`, `decisions.dfy`, `trusted_state.dfy`: the file backend, with
   failing file operations, buffered output on a full device and crashes, and the decision log.
5. `protocol.dfy`, `trustd.dfy`, `file_runs.dfy`, `trustd_daemon.dfy`, `daemon_runs.dfy`: the messages,
   the two backends side by side, the file backend over whole runs, the daemon's dispatch until it
   ends, and what it answers after any run of messages.
6. `run_command.dfy`, `run_parser.dfy`, `plan.dfy`, `supervisor.dfy`: the RUN command from its builder
   to the in-place tokenizer, the lines of a plan, and the plan loops.
7. `profile.dfy`, `metrics.dfy`, `activation.dfy`: template expansion and profile loading, the
   metric log, and runtime managers interleaved with messages.

`c_text.dfy` and `manifest.dfy` hold the C library pieces (terminated strings, `%s`, `%d`,
`%ld`, sscanf, snprintf) and the manifest texts. `fgets` is in `state_file.dfy`.

Conventions. A C character is a Dafny `char`; the code only compares characters with ASCII
constants. An `int` holds 32 bits and a `long` 64; where C leaves the overflow of a parsed
number undefined the model wraps around, so that every statement covers every input. Struct
fields filled by sscanf are strings of at most the conversion's width. Library behaviour
follows ISO C11, sections 7.21.6.2 and 7.21.6.7 (sscanf), 7.21.6.5 (snprintf), 7.21.7.2 (fgets)
and 7.21.3 and 7.21.5.1 (buffered streams). Persistent objects are read and overwritten
atomically, as chapter 5 of the GlobalPlatform TEE Internal Core API Specification describes them.

Where the code falls short of what one would expect, the model keeps the code, a concrete input
shows the failure, and the exact condition is proved:

- The gate verifies what trustd reads from a text, not the manifest that is launched. White space
  in a field of the manifest file is enough to launch a hash, an id or a version the store never
  held (`Activation.TamperedDemoWitness`, `Activation.BorrowedIdentityWitness`); the store held the
  launched manifest exactly when it is wire-safe (`Activation.LaunchesAreVerified`).
- A manifest version below 1 terminates trustd: its event writer calls `abort` after the store was
  asked and before the reply is sent, and the supervisor starts trustd only once. Every later
  message stays unanswered (`TrustdDaemon.VersionZeroWitness`), and trustd survives a run exactly
  without such a message in what it reads (`TrustdDaemon.AnsweredIff`,
  `TrustdDaemon.CutMessageWitness`).
- The file backend does not look at the result of `fclose`. What the last, incomplete buffer of a
  new state file loses is reported to nobody (`TrustedState.UnreportedLossWitness`,
  `TrustedState.StoreIsCompleteIff`, `TrustedState.CrashAtomicIff`). The next start can then find a
  hash that nobody enrolled (`TrustedState.CutHashWitness`, `TrustedState.LossIsReadIff`,
  `FileRuns.VerifyAfterLossIff`), but never an older version (`FileRuns.FaultyNeverRollsBack`). The
  same holds for a line of the decision log (`TrustedState.StateFiles.AppendDecision`).
- The file backend takes a state file it cannot open for an empty one
  (`TrustedState.UnopenedFileWitness`, `TrustedState.OthersAreKeptIff`).
- ENROLL of the Trusted Application accepts a text with a line break in it, which VERIFY then
  rejects (`TaMachine.LineBreakWitness`, `TaMachine.EnrolledTextVerifiesIff`), and which can leave
  a fragment behind that makes every later ENROLL fail (`TaBreaks.BrokenStoreWitness`,
  `TaBreaks.StaysUsableIff`). trustd cannot send such a text.
- The two backends differ on negative versions and when the Trusted Application runs out of room
  (`Trustd.NegativeVersionWitness`, `Trustd.FullStoreWitness`, `Trustd.StepAgreesIff`), and in which
  slot REPORT shows (`Trustd.ReportsDifferWitness`, `Trustd.ReportsAgreeIff`). What of this a client
  can see is `TrustdDaemon.IndistinguishableOnTheWire`.
- The reply buffer of the decision client cuts texts above 502 characters
  (`Decisions.CutDecisionWitness`, `Decisions.ReplyRoundTripIff`).
- The metric reader matches names by prefix and reads lines in pieces of 255 characters, so that it
  can take another metric's value or the first digits of one (`Metrics.ExtendedNameWitness`,
  `Metrics.CutValueWitness`, `Metrics.ExactMetricIff`, `Metrics.ParsedMetric`).

## Model

| member | source | states |
|---|---|---|
| TrustMachine.NoRollback | optee/ta/tear_ta/ta_entry.c:241-251 | over any run in which no ENROLL of an artifact is accepted, it stays enrolled, keeps its backend, and its version grows by at least the number of accepted UPDATEs |
| TrustMachine.StaleUpdateIsRejected | runtime/trustd.c:174-206 | an UPDATE not above a version the artifact had earlier in the epoch is rejected and changes nothing, whatever happened in between |
| TrustMachine.StoreIsHistory | runtime/trustd.c:188-218 | after any run from any store, an artifact has the manifest of its latest accepted ENROLL or UPDATE in the log of requests and replies, or else the one it started with |
| TrustMachine.VerifyAgreesWithHistory | runtime/trustd.c:208-218 | VERIFY is accepted after a run exactly for the manifest of the latest accepted write of its artifact, or else the one it started with |
| TrustMachine.SlotsAreNewcomers | runtime/trusted_state.c:194-217 | along every run the slots are those of the start, followed by the new artifacts in the order in which they were first enrolled |
| CText.ScanPrinted | runtime/trusted_state.c:44-56 | sscanf inverts the printer on every list of words within their widths and numbers in range, after any white space and before any |
| CText.ScannedFieldsCarry | runtime/trustd.c:121-139 | whatever text is scanned, a complete match yields only words without white space within their widths and numbers in range |
| CText.PlusIsRead | runtime/trustd.c:121-139 | a number with a plus sign is read as the same number |
| Manifests.MessageRoundTrip | runtime/trust_client.c:105-169 | a client's ENROLL, UPDATE or VERIFY message is read back by trustd as the same manifest exactly when the manifest is wire-safe |
| Manifests.ParsedMessageIsWireSafe | runtime/trustd.c:121-139 | every manifest trustd accepts from any message is wire-safe |
| Protocol.DeliveredIff | runtime/trustd.c:121-139 | through the one 511-byte read a manifest reaches trustd unchanged exactly when its fields are words within the widths and its version is in range |
| Protocol.FirstRecordCounts | runtime/trustd.c:121-139 | whatever the fields of a sent manifest put behind the text of a wire-safe record and a white space is ignored: trustd reads that record |
| Manifests.FileLineRoundTrip | runtime/trusted_state.c:33-56 | a printed line of the state file is read back as the same manifest |
| Manifests.RecordTextShape | runtime/trustd.c:160-171 | the record of a wire-safe manifest is one line of 7 to 234 characters (235 with a minus sign), so the 256-byte buffer never cuts it |
| Manifests.RecordTextIs | runtime/trust_client.c:105-169 | the record is the id, the version in decimals, the backend and the hash with single blanks between them |
| TaTokens.RecordIsParsed | optee/ta/tear_ta/ta_entry.c:185-230 | parse_state inverts the record printer for versions from 0 on and refuses negative ones |
| TaTokens.ParseStateExactly | optee/ta/tear_ta/ta_entry.c:161-230 | parse_state accepts exactly the texts of four words within the field widths whose second word is all digits, and yields those words |
| TaTokens.WordsOfLayout | optee/ta/tear_ta/ta_entry.c:161-183 | every layout of the same words, whatever the blanks around them, has exactly those words |
| TaTokens.BreaksEndUpInFields | optee/ta/tear_ta/ta_entry.c:161-230 | an accepted text holds a line break exactly when one of its id, backend and hash does |
| TaStore.FramingRoundTrip | optee/ta/tear_ta/ta_entry.c:266-317 | iterating over appended records yields those records, once each and in order, exactly when none is empty or holds a line break |
| TaStore.StoredObjectReads | optee/ta/tear_ta/ta_entry.c:28-93 | everything written can be read back, as the records it was made of |
| TaStore.AtMost255Artifacts | optee/ta/tear_ta/ta_entry.c:10-11 | a well-formed store holds at most 255 artifacts |
| TaStore.FindStateFinds | optee/ta/tear_ta/ta_entry.c:319-365 | the find loop over a stored database is a look-up by artifact id |
| TaStore.RewriteWrites | optee/ta/tear_ta/ta_entry.c:392-434 | the rewriting loop writes every record, or reports a short buffer exactly when the whole serialisation has 2048 bytes or more |
| TaStore.UpsertWrites | optee/ta/tear_ta/ta_entry.c:367-437 | an accepted record is written in its slot or appended, or nothing changes and the result is SHORT_BUFFER, exactly by the size of the resulting serialisation |
| TaMachine.InvokeSimulates | optee/ta/tear_ta/ta_entry.c:521-733 | one command, on any number and parameter, moves a well-formed store as the abstract machine does, reports its reply, and leaves a well-formed store |
| TaMachine.RunRefines | optee/ta/tear_ta/ta_entry.c:521-733 | after every run of safe requests the stored bytes serialise a duplicate-free list of parseable records that is the abstract machine's state |
| TaMachine.ResultsRefine | optee/ta/tear_ta/ta_entry.c:521-733 | every result code of such a run is the one of the abstract machine's reply; malformed inputs give BAD_PARAMETERS when they are missing, empty, of 256 bytes and more, or an empty text for ENROLL, and BAD_FORMAT otherwise |
| TaMachine.MalformedIsRefused | optee/ta/tear_ta/ta_entry.c:533-638 | on whatever bytes are stored, an input that denotes no manifest changes nothing and gives exactly those codes |
| TaMachine.UnreadableIsRefused | optee/ta/tear_ta/ta_entry.c:54-93 | an object that is empty or of 2048 bytes and more makes ENROLL, UPDATE, VERIFY and REPORT return SHORT_BUFFER and stays as it is |
| TaMachine.VerifyAgreesWithHistory | optee/ta/tear_ta/ta_entry.c:558-595 | VERIFY returns success after a run from any well-formed store exactly when the latest successful ENROLL or UPDATE of the artifact, or else the store at the start, held the same version, backend and hash |
| TaMachine.NoRollback | optee/ta/tear_ta/ta_entry.c:597-638 | the stored bytes never lose an artifact, change its backend or lower its version until its next successful ENROLL, and gain a version per successful UPDATE |
| TaMachine.StaleUpdateIsRejected | optee/ta/tear_ta/ta_entry.c:597-638 | an UPDATE not above a version the artifact had in the epoch returns SECURITY and changes nothing |
| TaMachine.ReportIsLatestNewcomer | optee/ta/tear_ta/ta_entry.c:439-489 | after any run from any well-formed store REPORT hands out the current record of the artifact that was first enrolled most recently, or asks for a larger output, or returns ITEM_NOT_FOUND on an empty store |
| TaMachine.VerifiedTextsAreLineFree | optee/ta/tear_ta/ta_entry.c:558-595 | whatever bytes are stored, VERIFY succeeds for no text with a line break |
| TaMachine.EnrolledTextVerifiesIff | optee/ta/tear_ta/ta_entry.c:533-595 | a successfully enrolled text verifies afterwards if and only if it holds no line break |
| TaMachine.LineBreakWitness | optee/ta/tear_ta/ta_entry.c:533-595 | a concrete text that ENROLL accepts and VERIFY then rejects |
| TaBreaks.StaysUsableIff | optee/ta/tear_ta/ta_entry.c:367-437 | after an accepted text every well-formed ENROLL is decided by room alone if and only if every piece between the line breaks of the text is a record; otherwise no ENROLL ever succeeds again |
| TaBreaks.BrokenStoreWitness | optee/ta/tear_ta/ta_entry.c:367-437 | a concrete text that ENROLL accepts and after which no ENROLL of any artifact succeeds |
| TaEntry.CopyToken | optee/ta/tear_ta/ta_entry.c:161-183 | the two cursor loops take exactly the next token of the text, within the buffer |
| TaEntry.ParseInt | optee/ta/tear_ta/ta_entry.c:185-202 | the accumulating loop accepts exactly non-empty digit strings and computes their value in 32 bits |
| TaEntry.State.Parse | optee/ta/tear_ta/ta_entry.c:204-230 | the struct is filled exactly as parse_state is specified, or the text is refused |
| TaEntry.State.Same | optee/ta/tear_ta/ta_entry.c:232-239 | true exactly when all four fields are equal |
| TaEntry.NextStateRecord | optee/ta/tear_ta/ta_entry.c:266-297 | returns the next maximal run without line breaks, -1 exactly when it does not fit, 0 exactly when none is left, and strictly advances the offset |
| TaEntry.AppendRecord | optee/ta/tear_ta/ta_entry.c:299-317 | appends the record and a line feed behind the old contents, or refuses by the record and database limits |
| TaEntry.TrustedApplication.ReadInto | optee/ta/tear_ta/ta_entry.c:54-93 | opens, checks the size and reads an object into the buffer, with the result codes of each failure |
| TaEntry.TrustedApplication.WriteStateDb | optee/ta/tear_ta/ta_entry.c:28-52 | overwrites the object with the buffer, or refuses sizes outside 1 to 2047 and leaves it |
| TaEntry.TrustedApplication.Find | optee/ta/tear_ta/ta_entry.c:319-365 | the loop over the database array computes the find specification on any stored bytes |
| TaEntry.RewriteDb | optee/ta/tear_ta/ta_entry.c:392-434 | the loop into the second buffer computes the rewrite specification on any stored bytes |
| TaEntry.TrustedApplication.Upsert | optee/ta/tear_ta/ta_entry.c:367-437 | the object afterwards is the specified one; the decision object is untouched |
| TaEntry.TrustedApplication.Latest | optee/ta/tear_ta/ta_entry.c:439-489 | the scan computes the last record of any stored bytes, with its error cases |
| TaEntry.TrustedApplication.Verify | optee/ta/tear_ta/ta_entry.c:558-595 | compares the parsed input with the stored record and returns the specified code |
| TaEntry.TrustedApplication.Update | optee/ta/tear_ta/ta_entry.c:597-638 | applies the update policy to the stored record before it writes; the object afterwards is the specified one |
| TaEntry.TrustedApplication.InvokeCommand | optee/ta/tear_ta/ta_entry.c:521-733 | every command number and parameter gives the specified result, output parameter and storage |
| StateFile.FGets | runtime/trusted_state.c:195-195 | takes the next line, at most size - 1 characters, and leaves the remaining lines |
| StateFile.EntriesOfText | runtime/trusted_state.c:33-56 | the entries written to a state file are the entries read back, in order |
| StateFile.CutIsRead | runtime/trusted_state.c:44-56 | the first n characters of a state file are read as its first entries and at most one more, whose hash lost its end |
| StateFile.CutIsWholeIff | runtime/trusted_state.c:44-56 | a cut state file is read as the whole one exactly when it lost nothing but its last line feed |
| StateFile.MergedIsPut | runtime/trusted_state.c:194-217 | on a duplicate-free file the rewriting loop is the write of the abstract machine |
| Streams.PrintedStands | runtime/trusted_state.c:33-42 | after any fprintf calls the device holds what fits of the whole buffers of everything printed, the rest is pending, and an error was reported exactly when the whole buffers did not fit |
| TrustedState.StateFiles.Store | runtime/trusted_state.c:160-241 | returns 0 exactly when nothing it looks at reported an error; the state file is then what was renamed into place and otherwise unchanged; the files after every single operation are the specified snapshots; a temporary file is left only when its removal fails |
| TrustedState.StateFiles.RewriteLines | runtime/trusted_state.c:194-212 | the fgets loop prints every parseable entry, the artifact's own replaced, and notes every error fprintf reports |
| TrustedState.StateFiles.LoadArtifact | runtime/trusted_state.c:243-282 | finds the first parseable entry of the artifact, skipping lines that do not parse; nothing in a file that does not open |
| TrustedState.StateFiles.Load | runtime/trusted_state.c:284-316 | the first parseable entry of the file, if it opens |
| TrustedState.StateFiles.AppendDecision | runtime/trusted_state.c:72-111 | appends what the device takes of the decision's line behind the old log, and reports an error exactly when the log does not open or whole buffers of the line did not fit |
| TrustedState.StateFiles.ReportDecision | runtime/trusted_state.c:113-158 | the last line fgets returns, without its line feed, if the log opens and it fits the caller's buffer |
| TrustedState.StoreReadsBack | runtime/trusted_state.c:160-241 | whatever the file held, a complete store is read back as the old entries with the manifest merged in |
| TrustedState.StoreIsCompleteIff | runtime/trusted_state.c:214-240 | a store returns 0 exactly when the files work and the whole buffers of the new text fit the device; what it then installs is complete exactly when all of the text fits |
| TrustedState.UnreportedLossWitness | runtime/trusted_state.c:214-240 | on a full device a store reports success and the next start finds neither the old entries nor the new ones |
| TrustedState.LossIsReadIff | runtime/trusted_state.c:214-240 | what the next start reads of a store is the new entries as far as the device took their text, and all of them if and only if nothing but the last line feed was lost |
| TrustedState.CutHashWitness | runtime/trusted_state.c:214-240 | on a device that takes eight characters, storing `a 1 b hash` reports success and leaves the hash `ha` |
| TrustedState.CrashAtomicIff | runtime/trusted_state.c:160-241 | at every point where a store can stop the state file is the old or the complete new one, if and only if not all files work, or whole buffers of the text do not fit the device, or all of it fits (or what fits is the old file) |
| TrustedState.SnapshotsAre | runtime/trusted_state.c:160-241 | what a stop after each operation of a store leaves in the temporary file: the whole buffers of the lines so far, then what fits of the text, and in the end nothing, unless store and removal failed |
| TrustedState.CrashedStore | runtime/trusted_state.c:160-241 | at whatever point a store stops, the next reader sees the old entries or all of the new ones, unless the store reported success for a text of which more than the last line feed did not fit |
| TrustedState.OthersAreKeptIff | runtime/trusted_state.c:180-212 | a store keeps every other artifact exactly when the state file opened for reading or held no other |
| TrustedState.UnopenedFileWitness | runtime/trusted_state.c:180-212 | a concrete store that reports success and loses another artifact because the state file did not open |
| Trustd.StepAgreesIff | runtime/trustd.c:188-301 | on the same store both backends agree on success, failure and rollback exactly when the version is not negative where it matters and the Trusted Application has room; they then hold the same bytes again |
| Trustd.NegativeVersionWitness | runtime/trustd.c:188-301 | an ENROLL with version -1 is accepted by the file backend and refused by the Trusted Application |
| Trustd.FullStoreWitness | runtime/trustd.c:188-301 | with nine wide artifacts enrolled, a tenth is accepted by the file backend and refused by the Trusted Application |
| Trustd.BackendsHoldTheSame | runtime/trustd.c:188-301 | over every run of agreeable requests, from any store both can hold, state file and state object hold identical bytes, those of the abstract machine's store |
| Trustd.BackendsAnswerAlike | runtime/trustd.c:188-301 | every request of such a run has the same outcome in both backends |
| Trustd.EightArtifactsAgree | runtime/trustd.c:188-301 | every run over at most eight artifacts with versions from 0 on is agreeable throughout |
| Trustd.FaultyWrites | runtime/trustd.c:188-206 | whatever the file system does, a failed ENROLL or UPDATE leaves the file as it was, and a successful one whose text fits leaves the new manifest, an UPDATE only above the old version |
| Trustd.FaultyLookups | runtime/trustd.c:193-218 | whatever the file system does, VERIFY changes nothing and returns 0 exactly when the file opens and holds the manifest, and UPDATE gets to its store exactly when the file opens and holds a lower version of the same backend |
| FileRuns.FileRunRefines | runtime/trustd.c:188-218 | from any duplicate-free file the file backend is the abstract machine over every run, without a bound on its size |
| FileRuns.FileOutcomesRefine | runtime/trustd.c:188-218 | every return value along a run of the file backend is the one of the abstract machine's reply |
| FileRuns.FileVerifyAgreesWithHistory | runtime/trustd.c:208-218 | after any run from any duplicate-free file VERIFY returns 0 exactly for the manifest of the latest ENROLL or UPDATE of the artifact that returned 0, or else the one the file started with |
| FileRuns.FileNeverRollsBack | runtime/trustd.c:193-206 | from any moment of a run until its next ENROLL an artifact stays in the file, keeps its backend and never loses a version; an UPDATE not above a version it had then returns -2 and changes nothing |
| FileRuns.FaultyNeverRollsBack | runtime/trusted_state.c:160-241 | whatever the file system does during a run, an artifact that is in the file at two moments without a successful ENROLL in between has at least its old version and its old backend |
| FileRuns.VerifyAfterLossIff | runtime/trustd.c:208-218 | after a store VERIFY answers for every manifest as if nothing had been lost, if and only if nothing but the last line feed was |
| FileRuns.FileReportsEarliest | runtime/trustd.c:220-237 | after any run REPORT of the file backend is the current manifest of the artifact that was there before all others |
| FileRuns.FileRefines | runtime/trustd.c:188-218 | on any duplicate-free file, however formatted, one request steps and answers like the abstract machine |
| Trustd.OpteeStep | optee/ca/tear_optee_client.c:27-36 | the return value of every OP-TEE request on a common store: rollback and mismatch give -2, every other failure -1 |
| Trustd.ReportsAgreeIff | runtime/trustd.c:220-237 | the file backend reports the first slot, the Trusted Application the last; they agree exactly with at most one artifact |
| Trustd.ReportsDifferWitness | runtime/trustd.c:220-312 | a store of two artifacts on which the backends report different ones |
| TrustdDaemon.ServedAsSent | runtime/trustd.c:765-799 | one turn of trustd on a client's text: the backend is asked for what read and conversions leave of the manifest, the manifest itself exactly when it is wire-safe; the reply tells success from failure, and a version below 1 ends trustd without one |
| TrustdDaemon.AnsweredIff | runtime/trustd.c:765-799 | a running trustd answers every message of a run if and only if none is empty and every manifest it can parse from its one read has a version of at least 1, whatever the backend, the stores at the start and the file system |
| TrustdDaemon.NothingAfterTheEnd | runtime/observability.c:19-23 | from the first such message on nobody is answered and nothing stored changes |
| TrustdDaemon.CutMessageWitness | runtime/trustd.c:773-780 | an empty read gets no reply and a message whose version lies behind the 511-byte read gets ERR, and trustd lives on |
| TrustdDaemon.VersionZeroWitness | runtime/trustd.c:425-451 | a version 0 ENROLL is stored and not answered, and neither is the valid ENROLL after it |
| TrustdDaemon.IndistinguishableOnTheWire | runtime/trustd.c:765-799 | over any run of messages whatever, cut at the read, from any stores that hold the same, the two backends' replies are all equal if and only if each message is empty, unparseable, a request or decision both have room for, a REPORT of at most one artifact, or a decision report of at most 510 characters, where it is sent; until trustd's end the stores then hold the same |
| TrustdDaemon.EightArtifactsOnTheWire | runtime/trustd.c:765-799 | in a deployment of at most eight artifacts no run of messages without plain REPORTs and overlong decisions tells the backends apart |
| TrustdDaemon.FromTheFirstStart | runtime/trustd.c:756-799 | a deployment of at most eight artifacts from its first start on: over any run of ordinary messages the backends give the same replies, and until trustd's end hold the same bytes and the decision that the log of messages and replies says |
| TrustdDaemon.Daemon.ServeOne | runtime/trustd.c:765-799 | one read, dispatched by its prefix: reply, stores and the running state are those of `Turn`, also when file operations fail, which `ServedAsSent`, `DaemonRuns.GarbageIsRefused`, `DaemonRuns.ReportIs`, `DaemonRuns.DecisionUnderFaults` and `LatestDecisionReachesClient` spell out for every kind of message; an empty read is not answered, and after the abort nothing is |
| TrustdDaemon.Daemon.Handle | runtime/trustd.c:425-518 | parses, asks the backend, then aborts on a version below 1 or replies; unparseable messages change nothing |
| TrustdDaemon.Daemon.FileUpdate | runtime/trustd.c:193-206 | load, policy check, store, on whatever the file system does: -1 without a readable entry, -2 for a rollback or backend change, otherwise the result of the store |
| TrustdDaemon.Daemon.HandleRecordDecision | runtime/trustd.c:530-570 | the file log grows by what the device takes of the decision's line, or the decision object is overwritten with its text; errors of the append become ERR |
| TrustdDaemon.Daemon.HandleReportDecision | runtime/trustd.c:572-582 | replies with the last line of the log or the C string in the decision object, and changes nothing |
| DaemonRuns.GarbageIsRefused | runtime/trustd.c:775-797 | a message that is no report and that trustd can parse neither as a request about a manifest nor as a decision -- an unknown command, or words that do not parse -- is answered ERR and changes nothing |
| DaemonRuns.DecisionUnderFaults | runtime/trustd.c:530-570 | a decision, on whatever the file system does: the file log keeps what it had and gains what fits of the line, all of it with OK when there is room, and is refused when it does not open; the decision object is overwritten exactly up to 511 characters |
| DaemonRuns.ReportsUnderFaults | runtime/trustd.c:520-582 | reports change nothing, and are answered ERR by the file backend when their file does not open |
| DaemonRuns.DecisionReportIs | runtime/trustd.c:572-582 | REPORT_DECISION is answered ERR when no decision is held, with the text of the held one by OP-TEE, and with what is left of it in the line buffer by the file backend |
| DaemonRuns.ReportIs | runtime/trustd.c:520-527 | a running trustd that holds a list of manifests answers REPORT with ERR when it is empty, and else with STATE and the record of the first one (file backend) or of the last one (OP-TEE) |
| DaemonRuns.RunHolds | runtime/trustd.c:765-799 | over every run of messages that trustd survives, in both backends, the store is the abstract machine's, and the log of messages and replies tells the accepted writes and the order of first enrolments |
| DaemonRuns.VerifyOnTheWire | runtime/trustd.c:489-518 | after any such run a VERIFY message is answered OK exactly for the manifest of the latest ENROLL or UPDATE of its artifact that was answered OK, or else for the one held at the start |
| DaemonRuns.EnrollOnTheWire | runtime/trustd.c:425-451 | an ENROLL message is answered OK exactly when there is room, which the file backend always has, and only then writes |
| DaemonRuns.UpdateOnTheWire | runtime/trustd.c:453-487 | after any such run an UPDATE message is answered OK exactly when that manifest has the same backend and a lower version and there is room |
| DaemonRuns.ReportOnTheWire | runtime/trustd.c:520-527 | after any such run REPORT is answered ERR when no ENROLL was ever answered OK and nothing was held, and else with that manifest of the earliest artifact (file backend) or of the latest newcomer (OP-TEE), by the messages and replies alone |
| TrustdDaemon.OpteeDecisionEndToEnd | optee/ca/tear_optee_client.c:178-254 | whatever was stored, a decision recorded in the Trusted Application is reported unchanged, and reaches the client unchanged exactly up to 502 characters |
| TrustdDaemon.LatestDecisionReachesClient | runtime/trustd.c:530-582 | after any run of messages that trustd survives, REPORT_DECISION gives the client the text of the latest decision answered with OK, or else the one held at the start, if and only if it has at most 502 characters, in both backends |
| Decisions.DecisionMessageRoundTrip | runtime/trust_client.c:193-220 | the wire message of a decision is read back by trustd as the same decision |
| Decisions.DecisionMessageIs | runtime/trust_client.c:193-220 | the message is the command, the run id, the artifact id, the proposal, the decision, the reason and the value with single blanks between them, and a line feed |
| Decisions.ParsedDecisionIsSafe | runtime/trustd.c:141-157 | every decision trustd accepts from any message has fields within their widths and without white space |
| Decisions.DecisionTextWords | optee/ca/tear_optee_client.c:191-198 | the stored text consists of six words, each a label and the field it names |
| Decisions.LastLineIsReported | runtime/trusted_state.c:113-158 | the file backend reports of the last line of a log all of it up to 510 characters, and of a longer one what is behind its 511th character, exactly when that fits the caller's buffer, and nothing from a missing or empty log |
| Decisions.FileReportsLatest | runtime/trusted_state.c:113-158 | the file backend reports exactly the latest recorded decision of a log, however long earlier lines are |
| Decisions.FileDecisionEndToEnd | runtime/trust_client.c:222-260 | the client gets the latest decision of the file log unchanged if and only if its text has at most 502 characters |
| Decisions.ReplyRoundTripIff | runtime/trust_client.c:222-260 | a reported text survives the 512-byte reply buffer exactly when it has at most 502 characters |
| Decisions.CutDecisionWitness | runtime/trust_client.c:222-260 | a decision of 503 characters that both backends record and report whole and the client reads cut, and one of 518, the most that trustd accepts |
| Decisions.RuntimeDecisionsFit | runtime/runtime_manager.c:184-290 | every decision of the runtime manager fits the message, record, line and reply buffers, and reaches trustd unchanged exactly when the artifact id is free of white space |
| RunCommand.CmdRun | runtime/tearictl.c:258-297 | builds the whole RUN text, and rejects exactly when arguments are missing or the text reaches 512 bytes |
| RunCommand.RunRoundTrip | runtime/supervisor.c:230-284 | the text tearictl accepts for words without white space, with its line feed and through the 511-byte read, is parsed exactly when no extra word or a first extra word `--` is given, and every word and the joined arguments are recovered |
| RunParser.NextTokenInPlace | runtime/supervisor.c:205-228 | finds the next token, writes at most one terminator behind it, and never passes the end of the text |
| RunParser.ParseRunCommand | runtime/supervisor.c:230-284 | the in-place parser computes the specification; tokens found earlier stay intact while the buffer is cut up |
| Plans.LineIsMeant | runtime/supervisor.c:308-342 | every line of a plan within the buffer, with or without its line feed: gaps before the end or a `#` are skipped; `RUN` with words behind gaps that begin with a blank is the command of the first three words when nothing follows or `--` does, the arguments standing as on the line; any other line is invalid |
| Plans.EveryLineIsMeant | runtime/supervisor.c:308-342 | this covers every text of one line without carriage returns |
| Plans.CommandsAreMeant | runtime/supervisor.c:331-349 | the commands of a plan are those of its lines up to the first invalid one, in order |
| Plans.PlanRoundTrip | runtime/supervisor.c:331-349 | a plan written line by line, with remarks and blank lines in between, gives exactly the commands written, up to the first invalid line |
| Plans.RunTextIsMeant | runtime/tearictl.c:258-297 | the text tearictl builds for words is a command line of exactly these words |
| Plans.OtherWordIsRefused | runtime/supervisor.c:230-246 | a text whose first word is not RUN is not parsed |
| Supervisors.Supervisor.ProvisionPlan | runtime/supervisor.c:489-527 | the loop over the plan's lines gives result and service of `Provisioned`, also after a failure half-way, a tearictl that cannot be started or waited for, or a manifest that ends trustd; what that is for a written plan is `WrittenPlanIsProvisioned`, `ProvisionedConcat`, `OneLineIsProvisioned` and `EnrollLeaves` |
| Supervisors.ProvisionedExactly | runtime/supervisor.c:454-527 | a plan is provisioned exactly when every line is a valid command, its tearictl children work, its manifest loads, reaches trustd with a version from 1 on, is accepted by the event writers and finds room, and trustd runs unless the plan is empty; the store is then the old one with the delivered manifests enrolled in plan order |
| Supervisors.WrittenPlanIsProvisioned | runtime/supervisor.c:489-527 | the same for a plan written line by line: every line is a remark or a command, and exactly the manifests of its commands are enrolled, in order |
| Supervisors.ProvisionedConcat | runtime/supervisor.c:505-523 | a plan is provisioned line by line and stops at the first failing one, with the service that one left |
| Supervisors.OneLineIsProvisioned | runtime/supervisor.c:505-523 | a remark changes nothing, an invalid line fails and changes nothing, and a command leaves what its children left, also when it fails |
| Supervisors.EnrollLeaves | runtime/supervisor.c:454-473 | whatever becomes of a line, an ENROLL that reaches trustd is stored exactly when there is room, changes no other artifact, and ends trustd exactly on a version below 1; otherwise nothing changes |
| Supervisors.Supervisor.RunPlan | runtime/supervisor.c:316-354 | runs every command up to the first invalid line, whether runs fail or not, each with its own course and its VERIFY against the service the runs before it left; the result is 0 exactly without an invalid line. The commands of a written plan are those of `Plans.PlanRoundTrip`, the runs those of `RunsExactly` |
| Supervisors.RunExactly | runtime/runtime_manager.c:317-369 | one run, for every service, manifest and course: it is verified exactly when the child is forked, gets as far as VERIFY, trustd runs and reads from it a version from 1 on that its store holds; it asks for what trustd reads; the store never changes, and trustd ends exactly on a version below 1 |
| Supervisors.RunsExactly | runtime/supervisor.c:316-354 | the runs of a plan: each is verified exactly when it gets as far as VERIFY, the store, which no run changes, holds what trustd reads, and no run before it ended trustd |
| Supervisors.Supervisor.RunWorkloadOnce | runtime/supervisor.c:755-802 | the supervisor is ready again after every run, asked or not; the result is 0 exactly when fork, waitpid, the preparation and the workload succeed, trustd runs, and its store holds what it reads from the VERIFY of the loaded manifest, otherwise 1 |
| Supervisors.ProvisionedVerifies | runtime/supervisor.c:489-527 | after enrolling a plan, the VERIFY for a line succeeds exactly when its manifest is the last one of its artifact on the plan |
| Supervisors.ProvisionedRuns | runtime/supervisor.c:316-354 | after a provisioned plan every line of it runs and leaves the service as it is; a run that gets as far as asking asks for its line's delivered manifest, and is verified exactly when that is the manifest of the last line of its artifact |
| Supervisors.ProvisionThenRun | runtime/supervisor.c:316-354 | the two plan commands in sequence return exactly those results, delivered manifests and runs, and leave the provisioned service |
| Profiles.SubstituteTemplate | runtime/profile.c:44-88 | succeeds exactly when the one-pass expansion has at most 255 characters, then stores it, and never writes outside the buffer |
| Profiles.ExpansionOfReferences | runtime/profile.c:44-88 | expanding every reference to itself gives the template back: nothing is lost, added or rescanned |
| Profiles.ExpansionLength | runtime/profile.c:44-88 | the length of an expansion from the pieces of the template and the lengths of the ids |
| Profiles.MeantLine | runtime/profile.c:103-120 | a line `key=value` is exactly that key and that value, the key ending at the first `=`; an empty line, a `#` line and a line without `=` are nothing |
| Profiles.SettingsAreRead | runtime/profile.c:103-151 | the values a written file gives a key are exactly those its settings give it, in order, whatever remarks stand between them |
| Profiles.ProfileRoundTrip | runtime/profile.c:90-171 | a written file whose last settings are the fields of a profile within the widths, and a template, is loaded as exactly that profile with the expanded path, or not at all when the path exceeds 255 characters |
| Profiles.SettingsSay | runtime/profile.c:113-151 | the seven settings of every such profile are such a file |
| Profiles.LastWins | runtime/profile.c:103-151 | every field is the last value of its key, cut to the field's width |
| Profiles.ProfileOfLastValues | runtime/profile.c:153-170 | a file loads exactly when its four required keys have last values and the expanded path fits, and as the profile of those values |
| Profiles.OrderAcrossKeysIsIrrelevant | runtime/profile.c:90-171 | files that give every key the same values in the same order load as the same profile |
| Profiles.ProfileFile.Load | runtime/profile.c:90-171 | the overwriting loop computes that profile, or fails exactly when a required field is empty or the path does not fit |
| Metrics.PlainFieldsLookUp | runtime/optd.c:102-122 | the reader's searches for name and value stop at those fields of a printed line when no field text holds a `=` |
| Metrics.ParsedMetric | runtime/optd.c:102-122 | of a printed line of any length in which its searches find their fields, the reader takes the digits its 256-byte buffer holds exactly when the metric's name begins with the wanted one; that is the printed value if and only if the line has at most 256 characters |
| Metrics.ReadMetrics | runtime/optd.c:124-160 | the loop keeps the last margin and the last density and succeeds exactly when both were seen |
| Metrics.LoadsWhatWasWritten | runtime/observability.c:321-342 | loading the log of any metric calls, long lines included, yields what is visible of the last values under the wanted names or extensions of them, and succeeds exactly when there are both |
| Metrics.ExactMetricIff | runtime/optd.c:102-160 | what the reader takes from a log is the last value of exactly the wanted name on a line that fits, if and only if no metric with an extended name or a cut value stands behind it |
| Metrics.ExtendedNameWitness | runtime/optd.c:102-160 | a log from which the reader takes another value than the last one of the wanted name |
| Metrics.CutValueWitness | runtime/optd.c:124-160 | with the widest ids of a profile a margin of 900 is loaded as 90 |
| Activation.AlwaysGated | runtime/runtime_manager.c:292-392 | the gate invariant holds in every system reachable from any store by any interleaving of managers and messages |
| Activation.LaunchesAreVerified | runtime/runtime_manager.c:344-378 | every launch follows a VERIFY of the same run at which the store held exactly the manifest trustd read from its message, with a profile of the launched artifact and of its backend, one of the two the platform knows; the store held the launched manifest itself if and only if that is wire-safe |
| Activation.LaunchesNeverRollBack | runtime/runtime_manager.c:363-378 | of two launches for which trustd read the same artifact, the one verified later was verified with at least the version and the same backend, unless an ENROLL of it was accepted in between; for wire-safe manifests that is the launched version |
| Activation.GateOpens | runtime/runtime_manager.c:317-378 | conversely a new run is launched when its manifest and its profile agree on artifact and a known backend, its version is at least 1, the paths fit, fork works, trustd runs and its store holds what it reads from the VERIFY |
| Activation.GateDecides | runtime/runtime_manager.c:363-369 | from every reachable system a run that asks gets past its VERIFY exactly when trustd runs, reads a version from 1 on and holds what it reads, and ends without success otherwise |
| Activation.TamperedHashIsLaunched | runtime/trust_client.c:149-169 | for every enrolled wire-safe manifest, one that differs in the hash behind a white space is launched |
| Activation.TamperedDemoWitness | runtime/trust_client.c:149-169 | with examples/model-v1.json enrolled, the same manifest with hash `sha256-demo-model-v1 tampered` is launched |
| Activation.BorrowedIdentityWitness | runtime/trust_client.c:149-169 | an artifact id that spells the demo model's record is launched with any hash, and with versions 9 and then 3 |
| Activation.ManagerEndsTrustdIff | runtime/observability.c:64-77 | a manager's step ends trustd exactly when trustd reads a version below 1 from its VERIFY, never for a wire-safe manifest |
| Activation.RunsEndWell | runtime/runtime_manager.c:363-392 | in every reachable system a manager that is done ended with 0 exactly when its workload was launched, exited with 0 and, for an optimizing manifest, left its metrics file; while trustd runs exactly one decision was sent for every such run of an optimizing manifest, and none for any other |
| Activation.DecisionsAreSent | runtime/runtime_manager.c:252-284 | in every reachable system with trustd up, a launched workload of an optimizing manifest that succeeds makes its manager send one message, which trustd reads, for words that fit, as the decision with the run's own id and artifact, the optimizer's proposal, and the verdict and reason spelled out for each answer; the manager then reports it when it was recorded |
| Activation.RecordedIsReported | runtime/runtime_manager.c:231-249 | after a recorded decision the manager asks for the report once, and is done |
| Activation.OthersSendNone | runtime/runtime_manager.c:292-392 | no other action of a run sends or logs a decision |
| Activation.DecisionsFollowRuns | runtime/workload_adapter.c:183-255 | a decision is sent to trustd only for an optimization-capable manifest whose launched workload exited with 0 and left its metrics file, and it is the one the optimizer's answer calls for |
| Activation.ApprovalsAreAdvice | runtime/runtime_manager.c:184-290 | in every reachable system an approved decision follows a launched run that succeeded and one of the two allowed proposals, and the trusted store is what the messages of everyone but the managers made of it: a manager's VERIFY, RECORD_DECISION and REPORT_DECISION never change it |

## Left out

- Sockets, fork, exec, waitpid, signals and TEE session handling: each request is one atomic step, and how a child ends is an input.
- Partial socket reads: a message arrives in one read, cut at 511 bytes, and what a longer one leaves in the socket is dropped.
- TaEntry.TrustedApplication.ReadInto: a failing object-info call or read, and the CORRUPT_OBJECT result of a short read, are not modelled; the storage is an atomic store whose objects are missing, of the wrong size or read whole.
- TaEntry.TrustedApplication.WriteStateDb: a failing `TEE_CreatePersistentObject` is not modelled.
- Overflow of parsed numbers is undefined in C; the model wraps around.
- A state-file line with a backend of 32 to 63 characters overflows the 32-byte field in C (runtime/trusted_state.c:51); the model keeps the characters. trustd never writes such a line.
- Tokens, struct texts read by sscanf, and files are values here; the database, record, token, command and path buffers are arrays.
- Event and log lines other than the metric line; of the event writer only its abort on a manifest version below 1, an empty id or an empty backend.
- JSON manifest loading, platform detection, ONNX inference, the optimizer's thresholds, path selection, self-tests and argument parsing.
- `tear_optee_report` also terminates the caller's buffer in its last byte, which no reader sees.
- Streams.PrintedStands: whether a full buffer is handed over at once or with the next character is left to the library by the standard; the model hands it over at once, and a device that has run full stays full.
- Supervisors.Supervisor.ProvisionPlan: trustd is its abstract machine, and the room of its backend is a parameter; TrustdDaemon.ServedAsSent and Trustd.StepAgreesIff connect that to both backends.
- Metrics.ParsedMetric: a field in front that contains `name=` or `value=` makes the reader look there; such lines are outside of it.
- Metrics.LoadsWhatWasWritten: the same, and a field that repeats the keyword `TEAR_METRIC`.
- Metrics.ExactMetricIff: the same.
