/** The Trusted Application as it runs: cursors moving over fixed buffers, two database
    buffers, and two persistent objects overwritten in place. Every method is proved
    against the total specification in TaRecords. */
module TaEntry {
  import opened CText
  import opened Manifests
  import opened TaRecords
  import opened TaTokens
  import opened TaStore

  /** A buffer that holds a C string is terminated inside its bounds. */
  ghost predicate Terminated(a: array<char>)
    reads a
  {
    |CStr(a[..])| < a.Length
  }

  ghost function Contents(a: array<char>): (s: string)
    reads a
  {
    CStr(a[..])
  }

  lemma ContentsAt(a: array<char>)
    requires Terminated(a)
    ensures var s := Contents(a);
      (forall k | 0 <= k < |s| :: a[k] == s[k] && s[k] != NUL) && a[|s|] == NUL
  {
  }

  /** `strlen` */
  method StrLen(a: array<char>) returns (n: nat)
    requires Terminated(a)
    ensures n == |Contents(a)|
  {
    n := 0;
    ContentsAt(a);
    while a[n] != NUL
      invariant n <= |Contents(a)|
      decreases |Contents(a)| - n
    {
      n := n + 1;
    }
  }

  /** `strcmp(a, b) == 0` */
  method SameString(a: array<char>, b: array<char>) returns (same: bool)
    requires Terminated(a) && Terminated(b)
    ensures same <==> Contents(a) == Contents(b)
  {
    ContentsAt(a);
    ContentsAt(b);
    var k := 0;
    while a[k] == b[k] && a[k] != NUL
      invariant k <= |Contents(a)| && k <= |Contents(b)|
      invariant Contents(a)[..k] == Contents(b)[..k]
      decreases |Contents(a)| - k
    {
      k := k + 1;
    }
    same := a[k] == b[k];
    if same {
      assert Contents(a) == Contents(a)[..k] && Contents(b) == Contents(b)[..k];
    }
  }

  /** `TEE_MemMove(dst + at, src + from, n)` between two buffers. */
  method MemMove(dst: array<char>, at: nat, src: array<char>, from: nat, n: nat)
    requires dst != src && at + n <= dst.Length && from + n <= src.Length
    modifies dst
    ensures dst[..] == old(dst[..at]) + src[from..from + n] + old(dst[at + n..])
  {
    forall k | 0 <= k < n {
      dst[at + k] := src[from + k];
    }
  }

  /** `TEE_MemMove(dst, src + from, n); dst[n] = '\0'` */
  method CopyText(dst: array<char>, src: array<char>, from: nat, n: nat)
    requires dst != src && n < dst.Length && from + n <= src.Length
    modifies dst
    ensures dst[..n] == src[from..from + n] && dst[n] == NUL
    ensures Terminated(dst) && Contents(dst) == CStr(src[from..from + n])
  {
    MemMove(dst, 0, src, from, n);
    dst[n] := NUL;
    ghost var t := src[from..from + n];
    assert dst[..] == t + ([NUL] + dst[n + 1..]);
    CutAtTerminator(t, dst[n + 1..]);
  }

  lemma CutAtTerminator(t: string, rest: string)
    ensures CStr(t + ([NUL] + rest)) == CStr(t)
  {
    var r := CStr(t);
    var after := t[|r|..] + ([NUL] + rest);
    assert t + ([NUL] + rest) == r + after;
    SpanLenOf(r, after, NotNul);
  }

  /** `TEE_MemFill(a, 0, size)` */
  method Clear(a: array<char>)
    modifies a
    ensures forall k | 0 <= k < a.Length :: a[k] == NUL
  {
    forall k | 0 <= k < a.Length {
      a[k] := NUL;
    }
  }

  // ------------------------------------------------------------------ tokens

  /** `copy_token`: moves the cursor past blanks and the token and copies the token out. */
  method CopyToken(dst: array<char>, buf: array<char>, cursor: nat) returns (ok: bool, cursor': nat)
    requires dst != buf && Terminated(buf) && cursor <= |Contents(buf)|
    modifies dst
    ensures cursor <= cursor' <= |Contents(buf)|
    ensures ok ==> Terminated(dst)
    ensures Token(Contents(buf)[cursor..], dst.Length)
         == (if ok then Some(Contents(dst)) else None, Contents(buf)[cursor'..])
    ensures !ok ==> dst[..] == old(dst[..])
  {
    hide Token, CStr;
    ghost var s := Contents(buf);
    ContentsAt(buf);
    cursor' := cursor;
    while buf[cursor'] == ' '
      invariant cursor <= cursor' <= |s|
      invariant forall k | cursor <= k < cursor' :: IsBlank(s[k])
      decreases |s| - cursor'
    {
      cursor' := cursor' + 1;
    }
    var start := cursor';
    while buf[cursor'] != NUL && buf[cursor'] != ' '
      invariant start <= cursor' <= |s|
      invariant forall k | start <= k < cursor' :: IsTokenChar(s[k])
      decreases |s| - cursor'
    {
      cursor' := cursor' + 1;
    }
    TokenBetween(s, cursor, start, cursor', dst.Length);
    var len := cursor' - start;
    if len == 0 || len >= dst.Length {
      return false, cursor';
    }
    CopyText(dst, buf, start, len);
    assert s[start..cursor'] == buf[start..start + len];
    CStrOf(s[start..cursor'], "");
    ok := true;
  }

  /** Where the two loops of `copy_token` stop is where the token is. */
  lemma TokenBetween(s: string, cursor: nat, start: nat, end: nat, size: nat)
    requires cursor <= start <= end <= |s|
    requires forall k | cursor <= k < start :: IsBlank(s[k])
    requires forall k | start <= k < end :: IsTokenChar(s[k])
    requires start < |s| ==> !IsBlank(s[start])
    requires end < |s| ==> !IsTokenChar(s[end])
    ensures Token(s[cursor..], size) == (if 0 < end - start < size then Some(s[start..end]) else None, s[end..])
  {
    hide SpanLen;
    SpanLenAt(s, cursor, start, IsBlank);
    SpanLenAt(s, start, end, IsTokenChar);
    Slices(s, cursor, start);
    Slices(s, start, end);
  }

  lemma WrapStep(v: nat, d: nat)
    ensures Wrap32(Wrap32(v) * 10 + d) == Wrap32(v * 10 + d)
  {
    var k := (v + 0x8000_0000) / 0x1_0000_0000;
    assert Wrap32(v) == v - k * 0x1_0000_0000;
    WrapTurns(v * 10 + d, -10 * k);
  }

  lemma WrapTurns(v: int, k: int)
    ensures Wrap32(v + k * 0x1_0000_0000) == Wrap32(v)
  {
    var a, b := v + 0x8000_0000, 0x1_0000_0000;
    assert (a + k * b) / b == a / b + k;
  }

  /** `parse_positive_int`, accumulating in a 32-bit `int`. */
  method ParseInt(s: array<char>) returns (ok: bool, out: int)
    requires Terminated(s)
    ensures TaRecords.ParsePositiveInt(Contents(s)) == if ok then Some(out) else None
  {
    ghost var t := Contents(s);
    ContentsAt(s);
    out := 0;
    if s[0] == NUL {
      return false, out;
    }
    var i := 0;
    while s[i] != NUL
      invariant i <= |t|
      invariant All(t[..i], IsDigit)
      invariant out == Wrap32(Value(t[..i]))
      decreases |t| - i
    {
      if s[i] < '0' || s[i] > '9' {
        assert !IsDigit(t[i]);
        return false, out;
      }
      assert t[..i + 1][..i] == t[..i];
      WrapStep(Value(t[..i]), DigitValue(t[i]));
      out := Wrap32(out * 10 + (s[i] as int - '0' as int));
      i := i + 1;
    }
    assert t[..i] == t;
    ok := true;
  }

  /** `struct tear_ta_state` */
  class State {
    const artifactId: array<char>
    var version: int
    const backend: array<char>
    const modelHash: array<char>

    ghost function Buffers(): set<array<char>> { {artifactId, backend, modelHash} }

    constructor ()
      ensures Valid() && fresh(Buffers())
    {
      artifactId := new char[64];
      version := 0;
      backend := new char[32];
      modelHash := new char[128];
    }

    ghost predicate Valid() {
      artifactId.Length == 64 && backend.Length == 32 && modelHash.Length == 128
    }

    /** The fields hold C strings. */
    ghost predicate Filled()
      reads this, artifactId, backend, modelHash
    {
      Valid() && Terminated(artifactId) && Terminated(backend) && Terminated(modelHash)
    }

    ghost function Value(): Manifest
      reads this, artifactId, backend, modelHash
    {
      Manifest(Contents(artifactId), version, Contents(backend), Contents(modelHash))
    }

    /** `parse_state` */
    method Parse(buf: array<char>) returns (ok: bool)
      requires Valid() && Terminated(buf)
      requires buf != artifactId && buf != backend && buf != modelHash
      modifies this, artifactId, backend, modelHash
      ensures Valid()
      ensures ok ==> Filled()
      ensures TaRecords.ParseState(Contents(buf)) == if ok then Some(Value()) else None
    {
      hide Token, TaRecords.ParsePositiveInt, CStr, Contents, Terminated, AtEnd;
      ghost var s := Contents(buf);
      Clear(artifactId);
      Clear(backend);
      Clear(modelHash);
      version := 0;
      var versionBuf := new char[16];
      var cursor := 0;
      assert s[0..] == s;
      ok, cursor := CopyToken(artifactId, buf, cursor);
      if !ok { return; }
      ok, cursor := CopyToken(versionBuf, buf, cursor);
      if !ok { return; }
      ok, version := ParseInt(versionBuf);
      if !ok { return; }
      ok, cursor := CopyToken(backend, buf, cursor);
      if !ok { return; }
      ok, cursor := CopyToken(modelHash, buf, cursor);
      if !ok { return; }
      ok := AtTextEnd(buf, cursor);
    }

    /** `same_state` */
    method Same(other: State) returns (same: bool)
      requires Filled() && other.Filled()
      ensures same <==> Value() == other.Value()
    {
      var id := SameString(artifactId, other.artifactId);
      var b := SameString(backend, other.backend);
      var h := SameString(modelHash, other.modelHash);
      same := id && version == other.version && b && h;
    }

    /** `update_allowed(this, incoming)` */
    method Allows(incoming: State) returns (allowed: bool)
      requires Filled() && incoming.Filled()
      ensures allowed <==> UpdateAllowed(Value(), incoming.Value())
    {
      var id := SameString(artifactId, incoming.artifactId);
      if !id { return false; }
      var b := SameString(backend, incoming.backend);
      if !b { return false; }
      allowed := incoming.version > version;
    }
  }

  /** The tail of `parse_state`: only blanks may follow the last token. */
  method AtTextEnd(buf: array<char>, from: nat) returns (ok: bool)
    requires Terminated(buf) && from <= |Contents(buf)|
    ensures ok <==> AtEnd(Contents(buf)[from..])
  {
    ghost var s := Contents(buf);
    ContentsAt(buf);
    var cursor := from;
    while buf[cursor] == ' '
      invariant from <= cursor <= |s|
      invariant forall k | from <= k < cursor :: IsBlank(s[k])
      decreases |s| - cursor
    {
      cursor := cursor + 1;
    }
    SpanLenAt(s, from, cursor, IsBlank);
    ok := buf[cursor] == NUL;
  }

  // ----------------------------------------------------------------- framing

  /** `next_state_record`: 0 when only line breaks are left, -1 when the next record does not
      fit, 1 when it was copied out; the offset moves past what was looked at. */
  method NextStateRecord(db: array<char>, dbLen: nat, offset: nat, record: array<char>)
    returns (ret: int, offset': nat)
    requires db != record && offset <= dbLen <= db.Length && record.Length > 0
    modifies record
    ensures offset <= offset' <= dbLen
    ensures ret in {-1, 0, 1}
    ensures ret == 0 <==> Frames(db[offset..dbLen]) == []
    ensures ret != 0 ==> var frames := Frames(db[offset..dbLen]);
      && offset < offset' && Frames(db[offset'..dbLen]) == frames[1..]
      && (ret == -1 <==> |frames[0]| >= record.Length)
      && (ret == 1 ==> Terminated(record) && Contents(record) == CStr(frames[0]))
  {
    hide Frames, CStr;
    ghost var s := db[..dbLen];
    assert forall k | 0 <= k <= dbLen :: db[k..dbLen] == s[k..];
    offset' := offset;
    while offset' < dbLen && (db[offset'] == '\n' || db[offset'] == '\r')
      invariant offset <= offset' <= dbLen
      invariant forall k | offset <= k < offset' :: IsBreak(s[k])
    {
      offset' := offset' + 1;
    }
    if offset' >= dbLen {
      FrameBetween(s, offset, offset', offset');
      return 0, offset';
    }
    var start := offset';
    while offset' < dbLen && db[offset'] != '\n' && db[offset'] != '\r'
      invariant start <= offset' <= dbLen
      invariant forall k | start <= k < offset' :: IsLineChar(s[k])
    {
      offset' := offset' + 1;
    }
    FrameBetween(s, offset, start, offset');
    var len := offset' - start;
    if len == 0 || len >= record.Length {
      return -1, offset';
    }
    assert s[start..offset'] == db[start..start + len];
    CopyText(record, db, start, len);
    ret := 1;
  }

  /** Where the two loops of `next_state_record` stop is where the next record is. */
  lemma FrameBetween(s: string, offset: nat, start: nat, end: nat)
    requires offset <= start <= end <= |s|
    requires forall k | offset <= k < start :: IsBreak(s[k])
    requires forall k | start <= k < end :: IsLineChar(s[k])
    requires start < |s| ==> !IsBreak(s[start])
    requires end < |s| ==> IsBreak(s[end])
    ensures start == |s| ==> Frames(s[offset..]) == []
    ensures start < |s| ==> start < end && Frames(s[offset..]) == [s[start..end]] + Frames(s[end..])
  {
    hide Frames, SpanLen;
    SpanLenAt(s, offset, start, IsBreak);
    Slices(s, offset, start);
    FramesSkip(s[offset..]);
    if start == |s| {
      NoFrames();
    } else {
      SpanLenAt(s, start, end, IsLineChar);
      Slices(s, start, end);
      FramesStep(s[start..]);
    }
  }

  /** `append_record` */
  method AppendRecord(db: array<char>, dbLen: nat, record: array<char>, recordLen: nat)
    returns (ok: bool, dbLen': nat)
    requires db != record && db.Length == DB_MAX && dbLen <= DB_MAX && recordLen <= record.Length
    modifies db
    ensures dbLen' <= DB_MAX
    ensures Append(old(db[..dbLen]), record[..recordLen]) == if ok then Some(db[..dbLen']) else None
  {
    dbLen' := dbLen;
    if recordLen == 0 || recordLen >= RECORD_MAX {
      return false, dbLen';
    }
    if dbLen' + recordLen + 1 >= DB_MAX {
      return false, dbLen';
    }
    MemMove(db, dbLen', record, 0, recordLen);
    dbLen' := dbLen' + recordLen;
    db[dbLen'] := '\n';
    dbLen' := dbLen' + 1;
    assert db[..dbLen'] == old(db[..dbLen]) + record[..recordLen] + "\n";
    ok := true;
  }

  // ------------------------------------------------------------ the application

  class TrustedApplication {
    /** The persistent objects `tear.trusted_state.v1` and `tear.last_decision.v1`. */
    var state: Option<string>
    var decision: Option<string>

    constructor ()
      ensures state == None && decision == None
    {
      state, decision := None, None;
    }

    ghost function Stored(): Storage
      reads this
    {
      Storage(state, decision)
    }

    /** `read_trusted_state_db` and `read_trusted_decision`: open, size check, read. */
    method ReadInto(obj: Option<string>, buf: array<char>) returns (res: TeeResult, len: nat)
      modifies buf
      ensures len <= buf.Length
      ensures ReadObject(obj, buf.Length) == (res, if res == Success then buf[..len] else "")
    {
      len := 0;
      if obj.None? {
        return ItemNotFound, len;
      }
      if |obj.value| == 0 || |obj.value| >= buf.Length {
        return ShortBuffer, len;
      }
      len := |obj.value|;
      forall k | 0 <= k < len {
        buf[k] := obj.value[k];
      }
      assert buf[..len] == obj.value;
      res := Success;
    }

    /** `write_trusted_state_db`: overwrite the whole object. */
    method WriteStateDb(buf: array<char>, len: nat) returns (res: TeeResult)
      requires len <= buf.Length
      modifies this
      ensures decision == old(decision)
      ensures len == 0 || len >= DB_MAX ==> res == BadParameters && state == old(state)
      ensures 0 < len < DB_MAX ==> res == Success && state == Some(buf[..len])
    {
      if len == 0 || len >= DB_MAX {
        return BadParameters;
      }
      state := Some(buf[..len]);
      res := Success;
    }

    /** `find_trusted_state` */
    method Find(artifactId: array<char>, trusted: array<char>) returns (res: TeeResult)
      requires Terminated(artifactId) && artifactId != trusted
      modifies trusted
      ensures res == Success ==> Terminated(trusted)
      ensures FindState(state, old(Contents(artifactId)), trusted.Length)
           == (res, if res == Success then Contents(trusted) else "")
    {
      hide Frames, CStr, Contents, Terminated, TaRecords.ParseState;
      ghost var id := Contents(artifactId);
      var db := new char[DB_MAX];
      var dbLen: nat;
      res, dbLen := ReadInto(state, db);
      if res != Success {
        return;
      }
      var offset: nat := 0;
      ghost var all := Frames(db[..dbLen]);
      assert db[0..dbLen] == db[..dbLen];
      NoFrames();
      while offset < dbLen
        invariant offset <= dbLen <= db.Length && Terminated(artifactId) && Contents(artifactId) == id
        invariant FindIn(Frames(db[offset..dbLen]), id, trusted.Length) == FindIn(all, id, trusted.Length)
        decreases dbLen - offset
      {
        var record := new char[RECORD_MAX];
        var candidate := new State();
        var ret: int;
        ret, offset := NextStateRecord(db, dbLen, offset, record);
        if ret < 0 {
          return BadFormat;
        }
        if ret == 0 {
          assert FindIn(all, id, trusted.Length).0 == ItemNotFound;
          break;
        }
        var ok := candidate.Parse(record);
        if !ok {
          return BadFormat;
        }
        var same := SameString(candidate.artifactId, artifactId);
        if same {
          RecordsHaveSevenCharacters(Contents(record));
          var len := StrLen(record);
          if len == 0 || len >= trusted.Length {
            return ShortBuffer;
          }
          CopyContents(trusted, record, len);
          return Success;
        }
      }
      assert offset == dbLen ==> db[offset..dbLen] == "";
      return ItemNotFound;
    }

    /** `upsert_trusted_state`: rewrites the database into a second buffer and stores that. */
    method Upsert(incoming: array<char>) returns (res: TeeResult)
      requires Terminated(incoming)
      modifies this
      ensures decision == old(decision)
      ensures (res, state) == TaRecords.Upsert(old(state), old(Contents(incoming)))
    {
      hide Frames, CStr, Contents, Terminated, TaRecords.ParseState, Rewrite;
      var db := new char[DB_MAX];
      var out := new char[DB_MAX];
      var dbLen: nat, outLen: nat := 0, 0;
      var incomingLen := StrLen(incoming);
      var incomingState := new State();
      if incomingLen == 0 || incomingLen >= RECORD_MAX {
        return BadParameters;
      }
      var ok := incomingState.Parse(incoming);
      if !ok {
        return BadFormat;
      }
      Clear(db);
      Clear(out);
      res, dbLen := ReadInto(state, db);
      if res != Success && res != ItemNotFound {
        return;
      }
      if res == ItemNotFound {
        dbLen := 0;
      }
      assert db[..dbLen] == ReadObject(state, DB_MAX).1;
      res, outLen := RewriteDb(db, dbLen, incoming, incomingLen, incomingState, out);
      if res != Success {
        return;
      }
      res := WriteStateDb(out, outLen);
    }

    /** `latest_trusted_state` */
    method Latest(buf: array<char>) returns (res: TeeResult, len: nat)
      modifies buf
      ensures len <= buf.Length
      ensures res == LatestState(state, buf.Length).0
      ensures res == Success ==> buf[..len] == LatestState(state, buf.Length).1
    {
      hide Frames, CStr, Contents, Terminated;
      var db := new char[DB_MAX];
      var latest := new char[RECORD_MAX];
      var dbLen: nat, offset: nat, latestLen: nat := 0, 0, 0;
      len := 0;
      res, dbLen := ReadInto(state, db);
      if res != Success {
        return;
      }
      Clear(latest);
      ghost var whole := LatestIn(Frames(db[..dbLen]), "");
      assert db[0..dbLen] == db[..dbLen];
      assert latest[..0] == "";
      NoFrames();
      while offset < dbLen
        invariant offset <= dbLen <= db.Length && latestLen < latest.Length
        invariant LatestIn(Frames(db[offset..dbLen]), latest[..latestLen]) == whole
        decreases dbLen - offset
      {
        var record := new char[RECORD_MAX];
        var ret: int;
        ret, offset := NextStateRecord(db, dbLen, offset, record);
        if ret < 0 {
          return BadFormat, len;
        }
        if ret == 0 {
          assert LatestIn([], latest[..latestLen]) == whole;
          break;
        }
        latestLen := StrLen(record);
        if latestLen == 0 || latestLen >= latest.Length {
          return BadFormat, len;
        }
        CopyContents(latest, record, latestLen);
      }
      assert offset == dbLen ==> db[offset..dbLen] == "";
      if latestLen == 0 {
        return ItemNotFound, len;
      }
      if latestLen >= buf.Length {
        return ShortBuffer, len;
      }
      CopyText(buf, latest, 0, latestLen);
      len := latestLen;
      res := Success;
    }

    /** TEAR_TA_CMD_ENROLL */
    method Enroll(param: Param) returns (res: TeeResult)
      modifies this
      ensures decision == old(decision)
      ensures (res, state) == EnrollCommand(old(state), param)
    {
      hide TaRecords.Upsert, InputText, Terminated, Contents;
      var incoming := new char[RECORD_MAX];
      var ok := CopyInputState(param, incoming);
      if !ok {
        return BadParameters;
      }
      res := Upsert(incoming);
    }

    /** The part VERIFY and UPDATE share: read the input, look its artifact up and read that record. */
    method LoadBoth(param: Param, incoming: array<char>, incomingState: State, trustedState: State)
      returns (res: TeeResult)
      requires incoming.Length == RECORD_MAX && incomingState.Valid() && trustedState.Valid()
      requires incomingState != trustedState && incoming !in incomingState.Buffers() + trustedState.Buffers()
      requires incomingState.Buffers() !! trustedState.Buffers()
      modifies incoming, incomingState, incomingState.Buffers(), trustedState, trustedState.Buffers()
      ensures res != Success ==> VerifyCommand(state, param) == res && UpdateCommand(state, param) == (res, state)
      ensures res == Success ==>
        && Terminated(incoming) && incomingState.Filled() && trustedState.Filled()
        && InputText(param) == Some(Contents(incoming))
        && TaRecords.ParseState(Contents(incoming)) == Some(incomingState.Value())
        && FindState(state, incomingState.Value().artifactId, RECORD_MAX).0 == Success
        && TaRecords.ParseState(FindState(state, incomingState.Value().artifactId, RECORD_MAX).1)
           == Some(trustedState.Value())
    {
      hide FindState, InputText, Terminated, Contents, TaRecords.ParseState, TaRecords.Upsert, UpdateAllowed, CStr;
      var trusted := new char[RECORD_MAX];
      var ok := CopyInputState(param, incoming);
      if !ok {
        return BadParameters;
      }
      ok := incomingState.Parse(incoming);
      if !ok {
        return BadFormat;
      }
      res := Find(incomingState.artifactId, trusted);
      if res != Success {
        return;
      }
      ok := trustedState.Parse(trusted);
      if !ok {
        return BadFormat;
      }
    }

    /** TEAR_TA_CMD_VERIFY */
    method Verify(param: Param) returns (res: TeeResult)
      ensures res == VerifyCommand(state, param)
    {
      hide FindState, InputText, Terminated, Contents, TaRecords.ParseState, UpdateCommand, CStr;
      var incoming := new char[RECORD_MAX];
      var incomingState := new State();
      var trustedState := new State();
      res := LoadBoth(param, incoming, incomingState, trustedState);
      if res != Success {
        return;
      }
      var same := incomingState.Same(trustedState);
      res := if same then Success else Security;
    }

    /** TEAR_TA_CMD_UPDATE */
    method Update(param: Param) returns (res: TeeResult)
      modifies this
      ensures decision == old(decision)
      ensures (res, state) == UpdateCommand(old(state), param)
    {
      hide FindState, InputText, Terminated, Contents, TaRecords.ParseState, TaRecords.Upsert, UpdateAllowed, CStr,
        VerifyCommand;
      var incoming := new char[RECORD_MAX];
      var incomingState := new State();
      var trustedState := new State();
      res := LoadBoth(param, incoming, incomingState, trustedState);
      if res != Success {
        return;
      }
      var allowed := trustedState.Allows(incomingState);
      if !allowed {
        return Security;
      }
      res := Upsert(incoming);
    }

    /** TEAR_TA_CMD_REPORT */
    method Report(param: Param) returns (res: TeeResult, out: Param)
      ensures (res, out, Stored()) == Invoke(Stored(), CMD_REPORT, param)
    {
      hide LatestState;
      var latest := new char[RECORD_MAX];
      var len: nat;
      out := param;
      if !param.Output? {
        return BadParameters, out;
      }
      res, len := Latest(latest);
      if res != Success {
        return;
      }
      res, out := HandOut(latest, len, param);
    }

    /** TEAR_TA_CMD_RECORD_DECISION, with `write_trusted_decision` */
    method RecordDecision(param: Param) returns (res: TeeResult)
      modifies this
      ensures state == old(state)
      ensures (res, param, Stored()) == Invoke(old(Stored()), CMD_RECORD_DECISION, param)
    {
      if !param.Input? || |param.bytes| == 0 || |param.bytes| >= DECISION_MAX {
        return BadParameters;
      }
      decision := Some(param.bytes);
      res := Success;
    }

    /** TEAR_TA_CMD_REPORT_DECISION */
    method ReportDecision(param: Param) returns (res: TeeResult, out: Param)
      ensures (res, out, Stored()) == Invoke(Stored(), CMD_REPORT_DECISION, param)
    {
      var text := new char[DECISION_MAX];
      var len: nat;
      out := param;
      if !param.Output? {
        return BadParameters, out;
      }
      res, len := ReadInto(decision, text);
      if res != Success {
        return;
      }
      res, out := HandOut(text, len, param);
    }

    /** `TA_InvokeCommandEntryPoint` */
    method InvokeCommand(cmd: nat, param: Param) returns (res: TeeResult, out: Param)
      modifies this
      ensures (res, out, Stored()) == Invoke(old(Stored()), cmd, param)
    {
      hide EnrollCommand, VerifyCommand, UpdateCommand, LatestState, ReadObject;
      out := param;
      if cmd == CMD_PING {
        res := Success;
      } else if cmd == CMD_ENROLL {
        res := Enroll(param);
      } else if cmd == CMD_VERIFY {
        res := Verify(param);
      } else if cmd == CMD_UPDATE {
        res := Update(param);
      } else if cmd == CMD_REPORT {
        res, out := Report(param);
      } else if cmd == CMD_RECORD_DECISION {
        res := RecordDecision(param);
      } else if cmd == CMD_REPORT_DECISION {
        res, out := ReportDecision(param);
      } else {
        res := NotSupported;
      }
    }
  }

  /** The size check and the copy at the end of the two reporting commands. */
  method HandOut(text: array<char>, len: nat, param: Param) returns (res: TeeResult, out: Param)
    requires len <= text.Length && param.Output?
    ensures (res, out) == WriteOutput(Success, text[..len], param)
  {
    if param.size < len + 1 {
      return ShortBuffer, param.(size := len + 1);
    }
    return Success, Output(len + 1, text[..len]);
  }

  /** `copy_input_state` */
  method CopyInputState(param: Param, buf: array<char>) returns (ok: bool)
    requires buf.Length == RECORD_MAX
    modifies buf
    ensures InputText(param) == if ok then Some(Contents(buf)) else None
    ensures ok ==> Terminated(buf)
  {
    if !param.Input? || |param.bytes| == 0 || |param.bytes| >= buf.Length {
      return false;
    }
    var n := |param.bytes|;
    forall k | 0 <= k < n {
      buf[k] := param.bytes[k];
    }
    buf[n] := NUL;
    assert buf[..] == param.bytes + ([NUL] + buf[n + 1..]);
    CutAtTerminator(param.bytes, buf[n + 1..]);
    ok := true;
  }

  /** The loop of `upsert_trusted_state`, and the record it appends when it replaced none. */
  method RewriteDb(db: array<char>, dbLen: nat, incoming: array<char>, incomingLen: nat, incomingState: State,
                   out: array<char>)
    returns (res: TeeResult, outLen: nat)
    requires db != out && incoming != out && db.Length == out.Length == DB_MAX && dbLen <= DB_MAX
    requires Terminated(incoming) && incomingLen == |Contents(incoming)|
    requires incomingState.Filled()
    requires out != incomingState.artifactId && out != incomingState.backend && out != incomingState.modelHash
    modifies out
    ensures outLen <= DB_MAX
    ensures Rewrite(Frames(db[..dbLen]), old(Contents(incoming)), old(incomingState.Value()).artifactId, "", false)
         == (res, if res == Success then out[..outLen] else "")
  {
    hide Frames, CStr, Contents, Terminated, TaRecords.ParseState, Append;
    ghost var x, id := Contents(incoming), incomingState.Value().artifactId;
    ghost var whole := Rewrite(Frames(db[..dbLen]), x, id, "", false);
    var offset: nat, found, ok := 0, false, true;
    outLen := 0;
    ContentsOf(incoming);
    NoFrames();
    assert db[0..dbLen] == db[..dbLen] && out[..0] == "";
    while offset < dbLen
      invariant offset <= dbLen && outLen <= DB_MAX
      invariant Rewrite(Frames(db[offset..dbLen]), x, id, out[..outLen], found) == whole
      decreases dbLen - offset
    {
      var record := new char[RECORD_MAX];
      var existing := new State();
      var ret: int;
      ret, offset := NextStateRecord(db, dbLen, offset, record);
      if ret < 0 {
        return BadFormat, outLen;
      }
      if ret == 0 {
        assert Rewrite([], x, id, out[..outLen], found) == whole;
        break;
      }
      ok := existing.Parse(record);
      if !ok {
        return BadFormat, outLen;
      }
      var same := SameString(existing.artifactId, incomingState.artifactId);
      if same {
        ok, outLen := AppendRecord(out, outLen, incoming, incomingLen);
        if !ok {
          return ShortBuffer, outLen;
        }
        found := true;
      } else {
        var recordLen := StrLen(record);
        ContentsOf(record);
        ok, outLen := AppendRecord(out, outLen, record, recordLen);
        if !ok {
          return ShortBuffer, outLen;
        }
      }
    }
    assert offset == dbLen ==> db[offset..dbLen] == "";
    if !found {
      ok, outLen := AppendRecord(out, outLen, incoming, incomingLen);
      if !ok {
        return ShortBuffer, outLen;
      }
    }
    res := Success;
  }

  lemma ContentsOf(a: array<char>)
    requires Terminated(a)
    ensures |Contents(a)| < a.Length && a[..|Contents(a)|] == Contents(a)
  {
  }

  method CopyContents(dst: array<char>, src: array<char>, n: nat)
    requires dst != src && Terminated(src) && n == |Contents(src)| < dst.Length
    modifies dst
    ensures Terminated(dst) && Contents(dst) == Contents(src) && dst[..n] == Contents(src)
  {
    CopyText(dst, src, 0, n);
    ContentsAt(src);
    assert src[0..n] == Contents(src);
    CStrOf(src[0..n], "");
  }
}
