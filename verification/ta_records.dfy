/** The Trusted Application's view of its data: what the C loops compute on arbitrary bytes.
    Nothing is assumed here about how the bytes came about. */
module TaRecords {
  import opened CText
  import opened Manifests

  const RECORD_MAX := 256
  const DB_MAX := 2048
  const DECISION_MAX := 512

  datatype TeeResult =
    | Success | BadParameters | BadFormat | ShortBuffer | ItemNotFound | Security | NotSupported

  predicate IsBlank(c: char) { c == ' ' }
  predicate IsTokenChar(c: char) { c != NUL && c != ' ' }

  // ------------------------------------------------------------------ tokens

  /** One call of `copy_token` on the text at the cursor: the token, or None when it is
      empty or does not fit `size` bytes, and the text after it. */
  function Token(s: string, size: nat): (r: (Option<string>, string))
    ensures |r.1| <= |s|
    ensures r.0.Some? ==> 0 < |r.0.value| < size && All(r.0.value, IsTokenChar)
  {
    var t := s[SpanLen(s, IsBlank)..];
    var n := SpanLen(t, IsTokenChar);
    (if 0 < n < size then Some(t[..n]) else None, t[n..])
  }

  /** `parse_positive_int` on a 32-bit `int`. */
  function ParsePositiveInt(s: string): (r: Option<int>)
    ensures r.Some? <==> s != "" && All(s, IsDigit)
  {
    if s != "" && All(s, IsDigit) then Some(Wrap32(Value(s))) else None
  }

  /** Nothing but blanks up to the terminator. */
  predicate AtEnd(s: string) {
    var n := SpanLen(s, IsBlank);
    n == |s| || s[n] == NUL
  }

  /** The version, the backend and the hash of `parse_state`, after the artifact id. */
  function ParseRest(id: string, s: string): Option<Manifest> {
    var version := Token(s, 16);
    if version.0.None? || ParsePositiveInt(version.0.value).None? then None else
    var backend := Token(version.1, 32);
    if backend.0.None? then None else
    var hash := Token(backend.1, 128);
    if hash.0.None? || !AtEnd(hash.1) then None else
    Some(Manifest(id, ParsePositiveInt(version.0.value).value, backend.0.value, hash.0.value))
  }

  /** `parse_state` */
  function ParseState(s: string): Option<Manifest> {
    var id := Token(s, 64);
    if id.0.None? then None else ParseRest(id.0.value, id.1)
  }

  // ----------------------------------------------------------------- framing

  /** The maximal runs without line breaks: what repeated `next_state_record` walks over. */
  function Frames(s: string): seq<string>
    decreases |s|
  {
    var t := s[SpanLen(s, IsBreak)..];
    if t == "" then []
    else
      var n := SpanLen(t, IsLineChar);
      [t[..n]] + Frames(t[n..])
  }

  /** `append_record`: None when the record or the buffer is too long. */
  function Append(out: string, record: string): Option<string> {
    if |record| == 0 || |record| >= RECORD_MAX then None
    else if |out| + |record| + 1 >= DB_MAX then None
    else Some(out + record + "\n")
  }

  // -------------------------------------------------------- the state object

  /** `read_trusted_state_db` and `read_trusted_decision` into a buffer of `size` bytes. */
  function ReadObject(obj: Option<string>, size: nat): (TeeResult, string) {
    if obj.None? then (ItemNotFound, "")
    else if |obj.value| == 0 || |obj.value| >= size then (ShortBuffer, "")
    else (Success, obj.value)
  }

  function FindIn(frames: seq<string>, id: string, size: nat): (TeeResult, string)
    decreases |frames|
  {
    if frames == [] then (ItemNotFound, "")
    else if |frames[0]| >= RECORD_MAX then (BadFormat, "")
    else
      var record := CStr(frames[0]);
      match ParseState(record)
      case None => (BadFormat, "")
      case Some(m) =>
        if m.artifactId != id then FindIn(frames[1..], id, size)
        else if |record| >= size then (ShortBuffer, "")
        else (Success, record)
  }

  /** `find_trusted_state`: the stored record of an artifact. */
  function FindState(obj: Option<string>, id: string, size: nat): (TeeResult, string) {
    var (res, db) := ReadObject(obj, DB_MAX);
    if res != Success then (res, "") else FindIn(Frames(db), id, size)
  }

  /** The second buffer after the rewriting loop of `upsert_trusted_state`. */
  function Rewrite(frames: seq<string>, incoming: string, id: string, out: string, found: bool)
    : (TeeResult, string)
    decreases |frames|
  {
    if frames == [] then
      if found then (Success, out)
      else
        match Append(out, incoming)
        case None => (ShortBuffer, "")
        case Some(out') => (Success, out')
    else if |frames[0]| >= RECORD_MAX then (BadFormat, "")
    else
      var record := CStr(frames[0]);
      match ParseState(record)
      case None => (BadFormat, "")
      case Some(m) =>
        match Append(out, if m.artifactId == id then incoming else record)
        case None => (ShortBuffer, "")
        case Some(out') => Rewrite(frames[1..], incoming, id, out', found || m.artifactId == id)
  }

  /** `upsert_trusted_state`: the result and the object afterwards. */
  function Upsert(obj: Option<string>, incoming: string): (r: (TeeResult, Option<string>))
    ensures r.0 != Success ==> r.1 == obj
  {
    if |incoming| == 0 || |incoming| >= RECORD_MAX then (BadParameters, obj)
    else if ParseState(incoming).None? then (BadFormat, obj)
    else
      var (res, db) := ReadObject(obj, DB_MAX);
      if res != Success && res != ItemNotFound then (res, obj)
      else
        var (res', out) := Rewrite(Frames(db), incoming, ParseState(incoming).value.artifactId, "", false);
        if res' != Success then (res', obj)
        else if |out| == 0 || |out| >= DB_MAX then (BadParameters, obj)
        else (Success, Some(out))
  }

  function LatestIn(frames: seq<string>, latest: string): (TeeResult, string)
    decreases |frames|
  {
    if frames == [] then (if latest == "" then ItemNotFound else Success, latest)
    else if |frames[0]| >= RECORD_MAX || CStr(frames[0]) == "" then (BadFormat, "")
    else LatestIn(frames[1..], CStr(frames[0]))
  }

  /** `latest_trusted_state`: the record in the last slot. */
  function LatestState(obj: Option<string>, size: nat): (TeeResult, string) {
    var (res, db) := ReadObject(obj, DB_MAX);
    if res != Success then (res, "") else
    var (res', latest) := LatestIn(Frames(db), "");
    if res' == Success && |latest| >= size then (ShortBuffer, "") else (res', latest)
  }

  // ---------------------------------------------------------------- commands

  /** The first memory reference of an invocation. An output reference is described by its
      size and, once written, by the text placed in it. */
  datatype Param = NoParam | Input(bytes: string) | Output(size: nat, text: string)

  const CMD_PING := 0
  const CMD_ENROLL := 1
  const CMD_VERIFY := 2
  const CMD_UPDATE := 3
  const CMD_REPORT := 4
  const CMD_RECORD_DECISION := 5
  const CMD_REPORT_DECISION := 6

  datatype Storage = Storage(state: Option<string>, decision: Option<string>)

  /** `copy_input_state` and the C string that results. */
  function InputText(param: Param): Option<string> {
    if param.Input? && 0 < |param.bytes| < RECORD_MAX then Some(CStr(param.bytes)) else None
  }

  function VerifyCommand(obj: Option<string>, param: Param): TeeResult {
    var text := InputText(param);
    if text.None? then BadParameters else
    var m := ParseState(text.value);
    if m.None? then BadFormat else
    var (res, trusted) := FindState(obj, m.value.artifactId, RECORD_MAX);
    if res != Success then res
    else if ParseState(trusted).None? then BadFormat
    else if m != ParseState(trusted) then Security
    else Success
  }

  function UpdateCommand(obj: Option<string>, param: Param): (r: (TeeResult, Option<string>))
    ensures r.0 != Success ==> r.1 == obj
  {
    var text := InputText(param);
    if text.None? then (BadParameters, obj) else
    var m := ParseState(text.value);
    if m.None? then (BadFormat, obj) else
    var (res, trusted) := FindState(obj, m.value.artifactId, RECORD_MAX);
    if res != Success then (res, obj)
    else if ParseState(trusted).None? then (BadFormat, obj)
    else if !UpdateAllowed(ParseState(trusted).value, m.value) then (Security, obj)
    else Upsert(obj, text.value)
  }

  function EnrollCommand(obj: Option<string>, param: Param): (r: (TeeResult, Option<string>))
    ensures r.0 != Success ==> r.1 == obj
  {
    var text := InputText(param);
    if text.None? then (BadParameters, obj) else Upsert(obj, text.value)
  }

  /** Handing a text out through an output reference. */
  function WriteOutput(res: TeeResult, text: string, param: Param): (TeeResult, Param)
    requires param.Output?
  {
    if res != Success then (res, param)
    else if param.size < |text| + 1 then (ShortBuffer, param.(size := |text| + 1))
    else (Success, Output(|text| + 1, text))
  }

  /** One invocation of the Trusted Application, on any command number, any parameter and
      any stored bytes: the result, the parameter and the storage afterwards. */
  function Invoke(st: Storage, cmd: nat, param: Param): (r: (TeeResult, Param, Storage))
    ensures r.0 != Success ==> r.2 == st
  {
    if cmd == CMD_PING then (Success, param, st)
    else if cmd == CMD_ENROLL then
      var (res, obj) := EnrollCommand(st.state, param);
      (res, param, st.(state := obj))
    else if cmd == CMD_VERIFY then (VerifyCommand(st.state, param), param, st)
    else if cmd == CMD_UPDATE then
      var (res, obj) := UpdateCommand(st.state, param);
      (res, param, st.(state := obj))
    else if cmd == CMD_REPORT then
      if !param.Output? then (BadParameters, param, st) else
      var (res, latest) := LatestState(st.state, RECORD_MAX);
      var (res', out) := WriteOutput(res, latest, param);
      (res', out, st)
    else if cmd == CMD_RECORD_DECISION then
      if param.Input? && 0 < |param.bytes| < DECISION_MAX
      then (Success, param, st.(decision := Some(param.bytes)))
      else (BadParameters, param, st)
    else if cmd == CMD_REPORT_DECISION then
      if !param.Output? then (BadParameters, param, st) else
      var (res, text) := ReadObject(st.decision, DECISION_MAX);
      var (res', out) := WriteOutput(res, text, param);
      (res', out, st)
    else (NotSupported, param, st)
  }
}
