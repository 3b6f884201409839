/** What a text with a line break in it does to the Trusted Application's database: when the store
    stays usable after such a text was accepted. */
module TaBreaks {
  import opened CText
  import opened Manifests
  import opened TaRecords
  import opened TaTokens
  import opened TaStore
  import opened TaMachine

  // ------------------------------------------------ the frames of any records

  lemma BreakSkipped(s: string)
    requires s != "" && IsBreak(s[0])
    ensures Frames(s) == Frames(s[1..])
  {
    hide Frames;
    FramesSkip(s);
    FramesSkip(s[1..]);
    Slices(s, 1, 1 + SpanLen(s[1..], IsBreak));
  }

  /** The first frame of a text, and what is left of it. */
  lemma FirstFrame(a: string, rest: string)
    requires a != "" && All(a, IsLineChar)
    requires rest == "" || IsBreak(rest[0])
    ensures Frames(a + rest) == [a] + Frames(rest)
  {
    hide Frames, SpanLen;
    var s := a + rest;
    assert s[0] == a[0] && IsLineChar(a[0]);
    FramesStep(s);
    SpanLenOf(a, rest, IsLineChar);
    assert s[..|a|] == a && s[|a|..] == rest;
  }

  /** A record is cut up at its own line breaks, and nowhere else. */
  lemma {:induction false} FramesAppend(x: string, rest: string)
    ensures Frames(x + ("\n" + rest)) == Frames(x) + Frames(rest)
    decreases |x|
  {
    hide Frames, SpanLen;
    var tail := "\n" + rest;
    var s := x + tail;
    if x == "" {
      NoFrames();
      BreakInFront(rest);
      assert s == tail && [] + Frames(rest) == Frames(rest);
    } else if IsBreak(x[0]) {
      BreakSkipped(x);
      BreakSkipped(s);
      assert s[1..] == x[1..] + tail;
      FramesAppend(x[1..], rest);
    } else {
      var n := SpanLen(x, IsLineChar);
      var a, b := x[..n], x[n..];
      assert x == a + b && s == a + (b + tail);
      FirstFrame(a, b);
      FirstFrame(a, b + tail);
      FramesAppend(b, rest);
      assert [a] + (Frames(b) + Frames(rest)) == ([a] + Frames(b)) + Frames(rest);
    }
  }

  /** The frames of every record, one after the other. */
  function AllFrames(rs: seq<string>): seq<string> {
    if rs == [] then [] else Frames(rs[0]) + AllFrames(rs[1..])
  }

  lemma {:induction false} FramesOfAny(rs: seq<string>)
    ensures Frames(Serialise(rs)) == AllFrames(rs)
  {
    hide Frames;
    if rs == [] {
      NoFrames();
    } else {
      FramesAppend(rs[0], Serialise(rs[1..]));
      FramesOfAny(rs[1..]);
    }
  }

  lemma {:induction false} FrameOfSome(rs: seq<string>, f: string)
    ensures f in AllFrames(rs) <==> exists r :: r in rs && f in Frames(r)
  {
    hide Frames;
    if rs != [] {
      FrameOfSome(rs[1..], f);
      if f in AllFrames(rs[1..]) {
        var r :| r in rs[1..] && f in Frames(r);
        assert r in rs;
      }
      assert rs[0] in rs;
      forall r | r in rs && f in Frames(r) ensures f in AllFrames(rs) {
        assert r == rs[0] || r in rs[1..];
      }
    }
  }

  // -------------------------------------------------------- sizes of the frames

  /** The bytes that writing the frames back takes. */
  function Size(frames: seq<string>): nat {
    if frames == [] then 0 else |frames[0]| + 1 + Size(frames[1..])
  }

  lemma {:induction false} SizeConcat(a: seq<string>, b: seq<string>)
    ensures Size(a + b) == Size(a) + Size(b)
  {
    if a == [] {
      assert a + b == b;
    } else {
      assert (a + b)[1..] == a[1..] + b;
      SizeConcat(a[1..], b);
    }
  }

  lemma {:induction false} FramesSize(s: string)
    ensures Size(Frames(s)) <= |s| + 1
    decreases |s|
  {
    hide Frames;
    if s == "" {
      NoFrames();
    } else if IsBreak(s[0]) {
      BreakSkipped(s);
      FramesSize(s[1..]);
    } else {
      var n := SpanLen(s, IsLineChar);
      FramesStep(s);
      assert ([s[..n]] + Frames(s[n..]))[1..] == Frames(s[n..]);
      if n == |s| {
        assert s[n..] == "";
        NoFrames();
      } else {
        BreakSkipped(s[n..]);
        FramesSize(s[n..][1..]);
      }
    }
  }

  lemma {:induction false} AllFramesSize(rs: seq<string>)
    ensures Size(AllFrames(rs)) <= |Serialise(rs)|
  {
    hide Frames;
    if rs != [] {
      FramesSize(rs[0]);
      SizeConcat(Frames(rs[0]), AllFrames(rs[1..]));
      AllFramesSize(rs[1..]);
    }
  }

  // --------------------------------------------------- rewriting over the frames

  predicate Readable(f: string) { |f| < RECORD_MAX && ParseState(CStr(f)).Some? }

  /** Over readable frames only the room decides. */
  lemma {:induction false} ReadableRewrite(frames: seq<string>, y: string, id: string, out: string, found: bool)
    requires Writable(y) && |out| < DB_MAX && (found ==> out != "")
    requires forall f | f in frames :: Readable(f)
    ensures var (res, written) := Rewrite(frames, y, id, out, found);
      res in {Success, ShortBuffer} && (res == Success ==> 0 < |written| < DB_MAX)
    decreases |frames|
  {
    hide ParseState, CStr;
    if frames != [] {
      assert Readable(frames[0]);
      var record := CStr(frames[0]);
      var same := ParseState(record).value.artifactId == id;
      var out' := Append(out, if same then y else record);
      if out'.Some? {
        ReadableRewrite(frames[1..], y, id, out'.value, found || same);
      }
    }
  }

  /** An unreadable frame lets no rewriting succeed, ... */
  lemma {:induction false} UnreadableRewrite(frames: seq<string>, y: string, id: string, out: string, found: bool)
    requires exists f :: f in frames && !Readable(f)
    ensures Rewrite(frames, y, id, out, found).0 != Success
    decreases |frames|
  {
    hide ParseState, CStr;
    var f :| f in frames && !Readable(f);
    if f != frames[0] {
      assert f in frames[1..];
      if Readable(frames[0]) {
        var record := CStr(frames[0]);
        var same := ParseState(record).value.artifactId == id;
        var out' := Append(out, if same then y else record);
        if out'.Some? {
          UnreadableRewrite(frames[1..], y, id, out'.value, found || same);
        }
      }
    }
  }

  /** ... and the shortest record there is finds it before the room runs out. */
  lemma {:induction false} UnreadableIsFound(frames: seq<string>, y: string, id: string, out: string, found: bool)
    requires exists f :: f in frames && !Readable(f)
    requires |y| == 7 && |out| + Size(frames) < DB_MAX
    ensures Rewrite(frames, y, id, out, found).0 == BadFormat
    decreases |frames|
  {
    hide ParseState, CStr;
    var f :| f in frames && !Readable(f);
    if Readable(frames[0]) {
      assert f in frames[1..];
      var record := CStr(frames[0]);
      RecordsHaveSevenCharacters(record);
      var same := ParseState(record).value.artifactId == id;
      UnreadableIsFound(frames[1..], y, id, out + (if same then y else record) + "\n", found || same);
    }
  }

  // ------------------------------------------------------- when the store stays usable

  /** Every well-formed ENROLL is decided by the room it needs, and by nothing else. */
  ghost predicate Usable(obj: Option<string>) {
    forall p: Param :: InputManifest(p).Some? ==> EnrollCommand(obj, p).0 in {Success, ShortBuffer}
  }

  /** The pieces a text is cut into can all be read back. */
  predicate PiecesParse(x: string) { forall f | f in Frames(x) :: ParseState(f).Some? }

  lemma EnrollRewrites(rs: seq<string>, p: Param)
    requires rs != [] && Records(rs) && |Serialise(rs)| < DB_MAX && InputManifest(p).Some?
    ensures var x := InputRecord(p);
      var (res, out) := Rewrite(AllFrames(rs), x, StateOf(x).artifactId, "", false);
      EnrollCommand(Object(rs), p).0
      == if res != Success then res else if |out| == 0 || |out| >= DB_MAX then BadParameters else Success
  {
    hide ParseState, Rewrite, Frames, CStr, Serialise, AllFrames;
    SerialisedLength(rs);
    FramesOfAny(rs);
    RecordsHaveSevenCharacters(InputRecord(p));
  }

  /** The shortest input of all. */
  const SHORTEST := Input("a 1 b h")

  lemma ShortestIsAccepted()
    ensures InputManifest(SHORTEST).Some? && |InputRecord(SHORTEST)| == 7
  {
    hide ParseState, CStr;
    SmallText("h");
    assert "a 1 b " + "h" == "a 1 b h";
    WritableIsItsText("a 1 b h");
  }

  /** A small text with a given hash. */
  lemma SmallText(hash: string)
    requires 0 < |hash| <= 127 && All(hash, IsTokenChar)
    ensures ParseState("a 1 b " + hash) == Some(Manifest("a", 1, "b", hash))
  {
    hide Token, ParseRest, PrintInt;
    var s3 := " " + (hash + "");
    var s2 := " " + ("b" + s3);
    var s1 := " " + ("1" + s2);
    assert "a 1 b " + hash == "" + ("a" + s1) by { SmallParts(hash); }
    TokenOf("", "a", s1, 64);
    OneIsParsed();
    LastTokens("a", "1", "b", hash, s1, s2, s3);
  }

  lemma SmallParts(hash: string)
    ensures "a 1 b " + hash == "" + ("a" + (" " + ("1" + (" " + ("b" + (" " + (hash + "")))))))
  {
    assert hash + "" == hash;
    assert " " + ("b" + (" " + hash)) == " b " + hash;
    assert " " + ("1" + (" b " + hash)) == " 1 b " + hash;
    assert "a" + (" 1 b " + hash) == "a 1 b " + hash;
  }

  lemma OneIsParsed()
    ensures ParsePositiveInt("1") == Some(1) && All("1", IsTokenChar) && All("b", IsTokenChar) && All("a", IsTokenChar)
  {
    assert "1"[..0] == "";
  }

  /** Usability in terms of the stored frames. */
  lemma UsableByFrames(rs: seq<string>)
    requires rs != [] && Records(rs) && |Serialise(rs)| < DB_MAX
    ensures Usable(Object(rs)) <==> forall f | f in AllFrames(rs) :: Readable(f)
    ensures (exists f :: f in AllFrames(rs) && !Readable(f)) ==> forall p: Param :: EnrollCommand(Object(rs), p).0 != Success
  {
    hide ParseState, Rewrite, Frames, CStr, Serialise, AllFrames, EnrollCommand, InputText, Readable, Object;
    var frames := AllFrames(rs);
    if exists f :: f in frames && !Readable(f) {
      ShortestIsAccepted();
      EnrollRewrites(rs, SHORTEST);
      AllFramesSize(rs);
      UnreadableIsFound(frames, InputRecord(SHORTEST), StateOf(InputRecord(SHORTEST)).artifactId, "", false);
      forall p: Param ensures EnrollCommand(Object(rs), p).0 != Success {
        if InputManifest(p).Some? {
          EnrollRewrites(rs, p);
          UnreadableRewrite(frames, InputRecord(p), StateOf(InputRecord(p)).artifactId, "", false);
        } else {
          MalformedIsRefused(Object(rs), p);
        }
      }
    } else {
      forall p: Param | InputManifest(p).Some? ensures EnrollCommand(Object(rs), p).0 in {Success, ShortBuffer} {
        EnrollRewrites(rs, p);
        ReadableRewrite(frames, InputRecord(p), StateOf(InputRecord(p)).artifactId, "", false);
      }
    }
  }

  lemma {:induction false} PutMembers(rs: seq<string>, x: string)
    requires Records(rs) && Writable(x)
    ensures x in PutRecord(rs, x) && forall r | r in PutRecord(rs, x) :: r == x || r in rs
  {
    hide ParseState;
    if rs != [] && StateOf(rs[0]).artifactId != StateOf(x).artifactId {
      PutMembers(rs[1..], x);
    }
  }

  lemma GoodRecordIsReadable(r: string)
    requires Writable(r) && LineFree(r)
    ensures Frames(r) == [r] && Readable(r)
  {
    hide ParseState, Frames;
    RecordsHaveSevenCharacters(r);
    WritableIsItsText(r);
    FramesOfSerialised([r]);
    FramesAppend(r, "");
    NoFrames();
    assert Serialise([r]) == r + ("\n" + "") && Frames(r) + [] == Frames(r);
  }

  lemma {:induction false} FramesArePieces(s: string, f: string)
    requires f in Frames(s)
    ensures |f| <= |s| && (NUL !in s ==> NUL !in f)
    decreases |s|
  {
    hide Frames, SpanLen;
    if s == "" {
      NoFrames();
    } else if IsBreak(s[0]) {
      BreakSkipped(s);
      FramesArePieces(s[1..], f);
    } else {
      var n := SpanLen(s, IsLineChar);
      FramesStep(s);
      if f != s[..n] {
        FramesArePieces(s[n..], f);
      }
    }
  }

  /** The store an accepted text leaves is readable exactly as far as the text's pieces are. */
  lemma ReadableAfter(rs: seq<string>, x: string)
    requires GoodStore(rs) && Writable(x)
    ensures (forall f | f in AllFrames(PutRecord(rs, x)) :: Readable(f)) <==> PiecesParse(x)
  {
    hide ParseState, Frames, AllFrames, LineFree, Serialise, CStr;
    var after := PutRecord(rs, x);
    PutMembers(rs, x);
    forall f | f in Frames(x) ensures f in AllFrames(after) && (Readable(f) <==> ParseState(f).Some?) {
      FrameOfSome(after, f);
      FramesArePieces(x, f);
      WritableIsItsText(f);
    }
    if PiecesParse(x) {
      forall f | f in AllFrames(after) ensures Readable(f) {
        FrameOfSome(after, f);
        var r :| r in after && f in Frames(r);
        if r != x {
          var j :| 0 <= j < |rs| && rs[j] == r;
          assert Writable(rs[j]) && LineFree(rs[j]);
          GoodRecordIsReadable(r);
        }
      }
    }
  }

  /** Exactly when an accepted ENROLL leaves the store usable: every piece between the line breaks of its
      text must be a record itself. Otherwise no ENROLL of any artifact ever succeeds again. */
  lemma StaysUsableIff(rs: seq<string>, param: Param)
    requires GoodStore(rs) && InputManifest(param).Some?
    requires EnrollCommand(Object(rs), param).0 == Success
    ensures var after := EnrollCommand(Object(rs), param).1;
      && (Usable(after) <==> PiecesParse(InputRecord(param)))
      && (!PiecesParse(InputRecord(param)) ==>
            forall p: Param :: EnrollCommand(after, p).0 != Success && EnrollCommand(after, p).1 == after)
  {
    hide ParseState, Frames, AllFrames, GoodStore, EnrollCommand, InputText, Serialise, Readable, Usable, PiecesParse,
      Object;
    var x := InputRecord(param);
    assert Records(rs) by { GoodIsRecords(rs); }
    EnrollSimulates(rs, param);
    ReadableAfter(rs, x);
    UsableByFrames(PutRecord(rs, x));
  }

  /** A text whose second line is no record: ENROLL accepts it, and no ENROLL succeeds after it. */
  lemma BrokenStoreWitness()
    ensures var after := EnrollCommand(None, Input("a 1 b h\nx")).1;
      && EnrollCommand(None, Input("a 1 b h\nx")).0 == Success
      && !Usable(after) && forall p: Param :: EnrollCommand(after, p).0 != Success
  {
    hide ParseState, EnrollCommand, Serialise, CStr, Frames, Usable, PiecesParse;
    var x := "a 1 b h\nx";
    assert x == "a 1 b " + "h\nx";
    SmallText("h\nx");
    WritableIsItsText(x);
    EmptyStoreIsGood();
    EnrollSimulates([], Input(x));
    SerialisedWitness(x);
    FragmentIsLeft();
    StaysUsableIff([], Input(x));
  }

  lemma FragmentIsLeft()
    ensures !PiecesParse("a 1 b h\nx")
  {
    hide ParseState, Frames;
    assert "a 1 b h\nx" == "a 1 b h" + ("\n" + "x");
    FramesAppend("a 1 b h", "x");
    FramesStep("x");
    assert "x"[..1] == "x" && "x" in Frames("x");
    ShortIsRefused("x");
  }

  lemma ShortIsRefused(s: string)
    requires |s| < 7
    ensures ParseState(s).None?
  {
    hide ParseState;
    if ParseState(s).Some? {
      RecordsHaveSevenCharacters(s);
    }
  }
}
