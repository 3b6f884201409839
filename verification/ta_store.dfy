/** The Trusted Application's database, read as a list of records: the byte-level commands
    refine the abstract trust machine on every run whose written inputs hold no line break. */
module TaStore {
  import opened CText
  import opened Manifests
  import opened TaRecords
  import opened TaTokens
  import TM = TrustMachine

  // ------------------------------------------------------------------ framing

  /** What repeated `append_record` leaves in the buffer. */
  function Serialise(rs: seq<string>): string {
    if rs == [] then "" else rs[0] + ("\n" + Serialise(rs[1..]))
  }

  /** Line breaks in front are skipped. */
  lemma FramesSkip(s: string)
    ensures Frames(s) == Frames(s[SpanLen(s, IsBreak)..])
  {
    var t := s[SpanLen(s, IsBreak)..];
    if t != "" {
      assert SpanLen(t, IsBreak) == 0 && t[0..] == t;
    }
  }

  /** A record is taken up to the next line break. */
  lemma FramesStep(t: string)
    requires t != "" && !IsBreak(t[0])
    ensures var n := SpanLen(t, IsLineChar); n > 0 && Frames(t) == [t[..n]] + Frames(t[n..])
  {
    assert SpanLen(t, IsBreak) == 0 && t[0..] == t;
  }

  lemma BreakInFront(rest: string)
    ensures Frames("\n" + rest) == Frames(rest)
  {
    hide Frames;
    var tail := "\n" + rest;
    FramesSkip(tail);
    FramesSkip(rest);
    assert tail[1..] == rest;
    Slices(tail, 1, 1 + SpanLen(rest, IsBreak));
  }

  lemma FrameOf(r: string, rest: string)
    requires r != "" && LineFree(r)
    ensures Frames(r + ("\n" + rest)) == [r] + Frames(rest)
  {
    hide Frames, SpanLen;
    var tail := "\n" + rest;
    var s := r + tail;
    assert s[0] == r[0] && IsLineChar(r[0]);
    FramesStep(s);
    SpanLenOf(r, tail, IsLineChar);
    BreakInFront(rest);
    assert s[..|r|] == r && s[|r|..] == tail;
  }

  lemma {:induction false} FramesOfSerialised(rs: seq<string>)
    requires forall r | r in rs :: r != "" && LineFree(r)
    ensures Frames(Serialise(rs)) == rs
  {
    hide Frames, LineFree;
    if rs == [] {
      NoFrames();
    } else {
      assert rs[0] in rs && forall r | r in rs[1..] :: r in rs;
      FrameOf(rs[0], Serialise(rs[1..]));
      FramesOfSerialised(rs[1..]);
    }
  }

  lemma NoFrames()
    ensures Frames("") == []
  {
  }

  lemma {:induction false} FramesAreLines(s: string)
    ensures forall f | f in Frames(s) :: f != "" && LineFree(f)
    decreases |s|
  {
    var t := s[SpanLen(s, IsBreak)..];
    if t != "" {
      FramesAreLines(t[SpanLen(t, IsLineChar)..]);
    }
  }

  /** The framing round trip holds for exactly the record lists without empty records and
      line breaks: iterating over the appended bytes yields the appended records, once
      each and in order. */
  lemma FramingRoundTrip(rs: seq<string>)
    ensures Frames(Serialise(rs)) == rs <==> forall r | r in rs :: r != "" && LineFree(r)
  {
    if Frames(Serialise(rs)) == rs {
      FramesAreLines(Serialise(rs));
    }
    if forall r | r in rs :: r != "" && LineFree(r) {
      FramesOfSerialised(rs);
    }
  }

  // ------------------------------------------------------------ well-formed stores

  /** A text that `upsert_trusted_state` accepts. */
  predicate Writable(r: string) {
    |r| < RECORD_MAX && NUL !in r && ParseState(r).Some?
  }

  predicate Records(rs: seq<string>) {
    forall k | 0 <= k < |rs| :: Writable(rs[k])
  }

  function StateOf(r: string): Manifest
    requires Writable(r)
  {
    ParseState(r).value
  }

  function Parsed(rs: seq<string>): (ms: TM.Store)
    requires Records(rs)
    ensures |ms| == |rs|
  {
    hide ParseState;
    seq(|rs|, k requires 0 <= k < |rs| => StateOf(rs[k]))
  }

  predicate Lines(rs: seq<string>) {
    forall k | 0 <= k < |rs| :: LineFree(rs[k])
  }

  /** What every reachable database is: parseable records under 256 bytes without line breaks,
      one per artifact, whose serialisation fits the buffer. */
  predicate GoodStore(rs: seq<string>) {
    Records(rs) && Lines(rs) && TM.Distinct(Parsed(rs)) && |Serialise(rs)| < DB_MAX
  }

  /** The stored object: absent until the first successful ENROLL. */
  function Object(rs: seq<string>): Option<string> {
    if rs == [] then None else Some(Serialise(rs))
  }

  /** Everything stored can be read back, as the records it was made of. */
  lemma StoredObjectReads(rs: seq<string>)
    requires GoodStore(rs)
    ensures ReadObject(Object(rs), DB_MAX) == if rs == [] then (ItemNotFound, "") else (Success, Serialise(rs))
    ensures Frames(Serialise(rs)) == rs
  {
    hide Frames, ParseState, LineFree, TM.Distinct, Parsed;
    forall r | r in rs ensures r != "" && LineFree(r) {
      var k :| 0 <= k < |rs| && rs[k] == r;
      assert Writable(rs[k]) && LineFree(rs[k]);
      RecordsHaveSevenCharacters(r);
    }
    FramesOfSerialised(rs);
  }

  lemma {:induction false} SerialisedLength(rs: seq<string>)
    requires Records(rs)
    ensures 8 * |rs| <= |Serialise(rs)|
  {
    hide ParseState;
    if rs != [] {
      assert Writable(rs[0]);
      RecordsHaveSevenCharacters(rs[0]);
      SerialisedLength(rs[1..]);
    }
  }

  /** The store never holds more than 255 artifacts. */
  lemma AtMost255Artifacts(rs: seq<string>)
    requires GoodStore(rs)
    ensures |rs| <= 255
  {
    SerialisedLength(rs);
  }

  // ------------------------------------------------------------------- finding

  function FindRecord(rs: seq<string>, id: string): (r: Option<string>)
    requires Records(rs)
    ensures r.Some? ==> r.value in rs && Writable(r.value)
  {
    hide ParseState;
    if rs == [] then None
    else if StateOf(rs[0]).artifactId == id then Some(rs[0])
    else FindRecord(rs[1..], id)
  }

  lemma {:induction false} FindRecordFinds(rs: seq<string>, id: string)
    requires Records(rs)
    ensures TM.Find(Parsed(rs), id)
         == match FindRecord(rs, id) case None => None case Some(r) => Some(StateOf(r))
  {
    hide ParseState;
    if rs != [] {
      assert Parsed(rs)[1..] == Parsed(rs[1..]);
      FindRecordFinds(rs[1..], id);
    }
  }

  lemma WritableIsItsText(r: string)
    requires NUL !in r
    ensures CStr(r) == r
  {
    CStrOf(r, "");
  }

  lemma {:induction false} FindInRecords(rs: seq<string>, id: string)
    requires Records(rs)
    ensures FindIn(rs, id, RECORD_MAX)
         == match FindRecord(rs, id) case None => (ItemNotFound, "") case Some(r) => (Success, r)
  {
    hide ParseState, CStr, Parsed, TM.Find;
    if rs != [] {
      assert Writable(rs[0]);
      WritableIsItsText(rs[0]);
      FindInRecords(rs[1..], id);
    }
  }

  /** `find_trusted_state` on a stored database is a look-up by artifact id. */
  lemma FindStateFinds(rs: seq<string>, id: string)
    requires GoodStore(rs)
    ensures FindState(Object(rs), id, RECORD_MAX)
         == match FindRecord(rs, id) case None => (ItemNotFound, "") case Some(r) => (Success, r)
  {
    hide Frames, FindIn, Parsed, Serialise, LineFree;
    StoredObjectReads(rs);
    FindInRecords(rs, id);
  }

  // ------------------------------------------------------------------ upserting

  /** Replace the record of the same artifact where it stands, or append. */
  function PutRecord(rs: seq<string>, x: string): (r: seq<string>)
    requires Records(rs) && Writable(x)
    ensures Records(r) && r != []
  {
    hide ParseState;
    if rs == [] then [x]
    else if StateOf(rs[0]).artifactId == StateOf(x).artifactId then [x] + rs[1..]
    else [rs[0]] + PutRecord(rs[1..], x)
  }

  /** On the parsed records it is the write of the abstract machine. */
  lemma {:induction false} PutRecordPuts(rs: seq<string>, x: string)
    requires Records(rs) && Writable(x)
    ensures Parsed(PutRecord(rs, x)) == TM.Put(Parsed(rs), StateOf(x))
    ensures Lines(rs) && LineFree(x) ==> Lines(PutRecord(rs, x))
  {
    hide ParseState, LineFree;
    if rs == [] {
    } else if StateOf(rs[0]).artifactId == StateOf(x).artifactId {
      assert Parsed(rs)[1..] == Parsed(rs[1..]);
      assert ([x] + rs[1..])[1..] == rs[1..];
    } else {
      PutRecordPuts(rs[1..], x);
      assert Parsed(rs)[1..] == Parsed(rs[1..]);
      assert ([rs[0]] + PutRecord(rs[1..], x))[1..] == PutRecord(rs[1..], x);
    }
  }

  /** The records the rewriting loop still has to write. */
  function Rewritten(rs: seq<string>, x: string, found: bool): (r: seq<string>)
    requires Records(rs) && Writable(x)
  {
    hide ParseState;
    if rs == [] then (if found then [] else [x])
    else
      var same := StateOf(rs[0]).artifactId == StateOf(x).artifactId;
      [if same then x else rs[0]] + Rewritten(rs[1..], x, found || same)
  }

  lemma AppendWrites(out: string, r: string)
    requires r != "" && |r| < RECORD_MAX
    ensures Append(out, r) == if |out| + |r| + 1 < DB_MAX then Some(out + (r + "\n")) else None
  {
    assert out + r + "\n" == out + (r + "\n");
  }

  lemma SerialiseCons(out: string, r: string, more: seq<string>)
    ensures Serialise([r] + more) == r + ("\n" + Serialise(more))
    ensures out + Serialise([r] + more) == (out + (r + "\n")) + Serialise(more)
  {
    assert r + ("\n" + Serialise(more)) == (r + "\n") + Serialise(more);
    assert ([r] + more)[1..] == more;
  }

  /** The rewriting loop either writes every record or reports a short buffer, and it does
      the latter exactly when the whole serialisation has 2048 bytes or more. */
  lemma {:induction false} RewriteWrites(rs: seq<string>, x: string, out: string, found: bool)
    requires Records(rs) && Writable(x)
    requires |out| < DB_MAX
    ensures var all := Serialise(Rewritten(rs, x, found));
      Rewrite(rs, x, StateOf(x).artifactId, out, found)
      == if |out| + |all| < DB_MAX then (Success, out + all) else (ShortBuffer, "")
    decreases |rs|
  {
    hide ParseState, CStr, Append, Serialise;
    RecordsHaveSevenCharacters(x);
    AppendWrites(out, x);
    if rs == [] {
      NothingSerialised();
      SerialiseCons(out, x, []);
      assert [x] + [] == [x];
      assert Rewritten(rs, x, found) == if found then [] else [x];
      assert Serialise([x]) == x + "\n" by { assert x + ("\n" + "") == x + "\n"; }
      assert out + "" == out;
    } else {
      assert Writable(rs[0]);
      RecordsHaveSevenCharacters(rs[0]);
      WritableIsItsText(rs[0]);
      AppendWrites(out, rs[0]);
      var same := StateOf(rs[0]).artifactId == StateOf(x).artifactId;
      var r := if same then x else rs[0];
      SerialiseCons(out, r, Rewritten(rs[1..], x, found || same));
      if |out| + |r| + 1 < DB_MAX {
        RewriteWrites(rs[1..], x, out + (r + "\n"), found || same);
      }
    }
  }

  lemma NothingSerialised()
    ensures Serialise([]) == ""
  {
  }

  lemma {:induction false} RewrittenOthers(rs: seq<string>, x: string)
    requires Records(rs) && Writable(x)
    requires TM.Find(Parsed(rs), StateOf(x).artifactId).None?
    ensures Rewritten(rs, x, true) == rs
  {
    hide ParseState;
    if rs != [] {
      assert Parsed(rs)[1..] == Parsed(rs[1..]);
      RewrittenOthers(rs[1..], x);
    }
  }

  lemma {:induction false} RewrittenIsPut(rs: seq<string>, x: string)
    requires Records(rs) && Writable(x)
    requires TM.Distinct(Parsed(rs))
    ensures Rewritten(rs, x, false) == PutRecord(rs, x)
  {
    hide ParseState;
    if rs != [] {
      var ms := Parsed(rs);
      assert ms[1..] == Parsed(rs[1..]);
      assert forall i, j | 0 <= i < j < |ms[1..]| :: ms[1..][i] == ms[i + 1] && ms[1..][j] == ms[j + 1];
      if StateOf(rs[0]).artifactId == StateOf(x).artifactId {
        assert forall m | m in ms[1..] :: m.artifactId != ms[0].artifactId;
        RewrittenOthers(rs[1..], x);
      } else {
        RewrittenIsPut(rs[1..], x);
      }
    }
  }

  /** Exact capacity: on a stored database an accepted record is written in its slot, or the
      upsert reports a short buffer and changes nothing; the latter exactly when the
      resulting serialisation has 2048 bytes or more. */
  lemma UpsertWrites(rs: seq<string>, x: string)
    requires GoodStore(rs) && Writable(x)
    ensures Upsert(Object(rs), x)
         == if |Serialise(PutRecord(rs, x))| < DB_MAX
            then (Success, Object(PutRecord(rs, x)))
            else (ShortBuffer, Object(rs))
  {
    hide Frames, ParseState, Rewrite, LineFree, Serialise;
    StoredObjectReads(rs);
    RecordsHaveSevenCharacters(x);
    RewriteWrites(rs, x, "", false);
    RewrittenIsPut(rs, x);
    var all := Serialise(PutRecord(rs, x));
    assert "" + all == all;
    assert all != "" by { SerialisedLength(PutRecord(rs, x)); }
    if rs == [] {
      NoFrames();
    }
  }

  lemma PutKeepsGood(rs: seq<string>, x: string)
    requires GoodStore(rs) && Writable(x) && LineFree(x)
    requires |Serialise(PutRecord(rs, x))| < DB_MAX
    ensures GoodStore(PutRecord(rs, x))
  {
    PutRecordPuts(rs, x);
    TM.DistinctPut(Parsed(rs), StateOf(x));
  }
}
