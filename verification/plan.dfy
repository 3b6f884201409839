/** A plan as text: the lines, the commands among them, and what makes a line one. */
module Plans {
  import opened CText
  import opened StateFile
  import opened RunCommand

  datatype PlanStep = Skip | Invalid | Run(config: RunConfig)

  /** `should_skip_plan_line`, the `RUN ` prefix and `parse_run_command` on one line of a plan. */
  function StepOf(line: string): PlanStep {
    var s := CStr(line);
    var n := SpanLen(s, IsGap);
    if n == |s| || s[n] == '\n' || s[n] == '#' then Skip
    else if !("RUN " <= s) then Invalid
    else match ParseRun(s) case None => Invalid case Some(c) => Run(c)
  }

  /** The commands of a plan up to the first invalid line, and whether there is none. */
  function Commands(lines: seq<string>): (seq<RunConfig>, bool) {
    if lines == [] then ([], true)
    else
      match StepOf(lines[0])
      case Skip => Commands(lines[1..])
      case Invalid => ([], false)
      case Run(c) => var (cs, ok) := Commands(lines[1..]); ([c] + cs, ok)
  }

  lemma CommandsStep(line: string, lines: seq<string>)
    ensures var (cs, ok) := Commands(lines);
      Commands([line] + lines)
      == match StepOf(line) case Skip => (cs, ok) case Invalid => ([], false) case Run(c) => ([c] + cs, ok)
  {
    hide StepOf;
    assert ([line] + lines)[1..] == lines;
  }

  // ------------------------------------------------------- what a line means

  /** A line as its author means it: a command of words with gaps in front of them and behind the last,
      a remark behind a gap, or anything else. */
  datatype PlanLine =
    | Command(gaps: seq<string>, words: seq<string>, tail: string)
    | Remark(gap: string, text: string)
    | Other(gap: string, text: string)

  /** Every word behind its gap, and what follows. */
  function Spaced(gaps: seq<string>, words: seq<string>, tail: string): string
    requires |gaps| == |words|
  {
    if words == [] then tail else gaps[0] + (words[0] + Spaced(gaps[1..], words[1..], tail))
  }

  predicate IsTabOrBlank(c: char) { c == ' ' || c == '\t' }

  predicate Gap(s: string) { All(s, IsTabOrBlank) }

  predicate Words(gaps: seq<string>, words: seq<string>) {
    |gaps| == |words| && forall k | 0 <= k < |words| :: gaps[k] != "" && Gap(gaps[k]) && ArgWord(words[k])
  }

  predicate Meant(l: PlanLine) {
    match l
    case Command(gaps, words, tail) =>
      Words(gaps, words) && Gap(tail) && " " <= Spaced(gaps, words, tail)
    case Remark(gap, text) =>
      Gap(gap) && All(text, IsPlain) && (text == "" || text[0] == '#')
    case Other(gap, text) =>
      Gap(gap) && All(text, IsPlain) && text != "" && text[0] != '#' && !IsGap(text[0]) && !("RUN " <= gap + text)
  }

  function LineText(l: PlanLine): string
    requires Meant(l)
  {
    match l
    case Command(gaps, words, tail) => "RUN" + Spaced(gaps, words, tail)
    case Remark(gap, text) => gap + text
    case Other(gap, text) => gap + text
  }

  /** A command of three words, or of three words, `--` and the arguments: these stand in the
      configuration as they stand on the line. */
  function MeaningOf(l: PlanLine): PlanStep
    requires Meant(l)
  {
    match l
    case Remark(_, _) => Skip
    case Other(_, _) => Invalid
    case Command(gaps, ws, tail) =>
      if |ws| == 3 then Run(RunConfig(ws[0], ws[1], ws[2], ""))
      else if |ws| == 4 && ws[3] == "--" then Run(RunConfig(ws[0], ws[1], ws[2], ""))
      else if |ws| > 4 && ws[3] == "--"
      then Run(RunConfig(ws[0], ws[1], ws[2], ws[4] + Spaced(gaps[5..], ws[5..], tail)))
      else Invalid
  }

  /** What a line does, for every line of a plan within the buffer, with or without its line feed. */
  lemma LineIsMeant(l: PlanLine, end: string)
    requires Meant(l) && |LineText(l)| <= 510 && end in {"", "\n"}
    ensures StepOf(LineText(l) + end) == MeaningOf(l)
  {
    hide StepOf, Spaced, LineText, Meant;
    match l
    case Remark(gap, text) => RemarkIsSkipped(gap, text, end);
    case Other(gap, text) => OtherIsInvalid(gap, text, end);
    case Command(_, _, _) => CommandIsRun(l, end);
  }

  lemma PlainLine(s: string, end: string)
    requires All(s, IsPlain) && end in {"", "\n"}
    ensures CStr(s + end) == s + end
  {
    var line := s + end;
    forall k | 0 <= k < |line| ensures line[k] != NUL {
      assert k < |s| ==> line[k] == s[k] && IsPlain(s[k]);
    }
    CStrOf(line, "");
  }

  lemma GapsArePlain(gap: string)
    requires Gap(gap)
    ensures All(gap, IsPlain)
  {
    forall k | 0 <= k < |gap| ensures IsPlain(gap[k]) { assert IsGap(gap[k]); }
  }

  lemma RemarkIsSkipped(gap: string, text: string, end: string)
    requires Meant(Remark(gap, text)) && end in {"", "\n"}
    ensures StepOf(LineText(Remark(gap, text)) + end) == Skip
  {
    hide CStr;
    GapsArePlain(gap);
    PlainConcat(gap, text);
    PlainLine(gap + text, end);
    var rest := text + end;
    assert (gap + text) + end == gap + rest;
    SpanLenOf(gap, rest, IsGap);
    assert rest != "" ==> (gap + rest)[|gap|] == rest[0];
  }

  lemma OtherIsInvalid(gap: string, text: string, end: string)
    requires Meant(Other(gap, text)) && end in {"", "\n"}
    ensures StepOf(LineText(Other(gap, text)) + end) == Invalid
  {
    hide CStr, ParseRun;
    GapsArePlain(gap);
    PlainConcat(gap, text);
    PlainLine(gap + text, end);
    var rest := text + end;
    var s := (gap + text) + end;
    assert s == gap + rest;
    SpanLenOf(gap, rest, IsGap);
    assert s[|gap|] == text[0] && IsPlain(text[0]);
    NotRun(gap + text, end);
  }

  lemma NotRun(s: string, end: string)
    requires !("RUN " <= s) && end in {"", "\n"}
    ensures !("RUN " <= s + end)
  {
    var k := if |s| >= 3 && s[..3] == "RUN" then 3 else if |s| >= 2 && s[..2] == "RU" then 2
             else if |s| >= 1 && s[0] == 'R' then 1 else 0;
    assert |s + end| > k ==> (s + end)[k] != "RUN "[k];
  }

  /** The next word, behind any gap. */
  lemma TokenBehindGap(gap: string, w: string, rest: string)
    requires Gap(gap) && ArgWord(w) && (rest == "" || IsGap(rest[0]))
    ensures NextToken(gap + (w + rest)) == (Some(w), if rest == "" then "" else rest[1..])
  {
    hide SpanLen, ArgWord;
    var s := gap + (w + rest);
    var t := w + rest;
    WordsAreArgs(w);
    assert t[0] == w[0];
    SpanLenOf(gap, t, IsGap);
    assert s[|gap|..] == t;
    SpanLenOf(w, rest, IsArg);
    assert t[..|w|] == w && (rest != "" ==> t[|w| + 1..] == rest[1..]);
  }

  lemma WordsAreArgs(w: string)
    requires ArgWord(w)
    ensures w != "" && All(w, IsArg) && !IsGap(w[0])
  {
    assert forall k | 0 <= k < |w| :: IsArg(w[k]);
  }

  lemma SpacedStartsWithGap(gaps: seq<string>, words: seq<string>, tail: string)
    requires Words(gaps, words) && Gap(tail)
    ensures var s := Spaced(gaps, words, tail); s == "" || IsGap(s[0])
  {
    if words != [] {
      assert gaps[0] != "" && Gap(gaps[0]) && IsGap(gaps[0][0]);
    }
  }

  /** One separator has been taken from the text behind a word. */
  function Behind(s: string): string { if s == "" then "" else s[1..] }

  /** The tokenizer finds the words one after the other, and none at the end. */
  lemma TokenOfSpaced(gaps: seq<string>, words: seq<string>, tail: string)
    requires Words(gaps, words) && Gap(tail)
    ensures NextToken(Behind(Spaced(gaps, words, tail)))
         == if words == [] then (None, "") else (Some(words[0]), Behind(Spaced(gaps[1..], words[1..], tail)))
  {
    hide NextToken;
    var s := Spaced(gaps, words, tail);
    if words == [] {
      GapOnly(Behind(tail));
    } else {
      hide Spaced;
      assert Words(gaps[1..], words[1..]);
      SpacedStartsWithGap(gaps[1..], words[1..], tail);
      var rest := Spaced(gaps[1..], words[1..], tail);
      assert gaps[0] != "" && Gap(gaps[0]) && ArgWord(words[0]);
      assert s == gaps[0] + (words[0] + rest) by { SpacedCons(gaps, words, tail); }
      assert Behind(s) == gaps[0][1..] + (words[0] + rest);
      TokenBehindGap(gaps[0][1..], words[0], rest);
    }
  }

  lemma SpacedCons(gaps: seq<string>, words: seq<string>, tail: string)
    requires |gaps| == |words| && words != []
    ensures Spaced(gaps, words, tail) == gaps[0] + (words[0] + Spaced(gaps[1..], words[1..], tail))
  {
  }

  lemma GapOnly(s: string)
    requires Gap(s)
    ensures NextToken(s) == (None, "") && SkipGaps(s) == ""
  {
    SpanLenOf(s, "", IsGap);
    assert s + "" == s;
  }

  /** ... and the arguments begin at the first character that is no gap. */
  lemma ArgsOfSpaced(gaps: seq<string>, words: seq<string>, tail: string)
    requires Words(gaps, words) && Gap(tail)
    ensures SkipGaps(Behind(Spaced(gaps, words, tail)))
         == if words == [] then "" else words[0] + Spaced(gaps[1..], words[1..], tail)
  {
    if words == [] {
      GapOnly(Behind(tail));
    } else {
      hide Spaced;
      SpacedCons(gaps, words, tail);
      var rest := words[0] + Spaced(gaps[1..], words[1..], tail);
      assert gaps[0] != "" && Gap(gaps[0]) && ArgWord(words[0]) && rest[0] == words[0][0] && IsArg(words[0][0]);
      assert Behind(gaps[0] + rest) == gaps[0][1..] + rest;
      SpanLenOf(gaps[0][1..], rest, IsGap);
    }
  }

  /** Words and gaps hold no line end and no terminator. */
  lemma {:induction false} SpacedIsText(gaps: seq<string>, words: seq<string>, tail: string)
    requires Words(gaps, words) && Gap(tail)
    ensures All(Spaced(gaps, words, tail), IsPlain) && All(Spaced(gaps, words, tail), IsLineChar)
  {
    if words == [] {
      GapsArePlain(tail);
      GapsAreLineChars(tail);
    } else {
      hide IsGap;
      assert Words(gaps[1..], words[1..]);
      SpacedIsText(gaps[1..], words[1..], tail);
      GapsArePlain(gaps[0]);
      GapsAreLineChars(gaps[0]);
      assert ArgWord(words[0]);
    }
  }

  lemma GapsAreLineChars(gap: string)
    requires Gap(gap)
    ensures All(gap, IsLineChar)
  {
    forall k | 0 <= k < |gap| ensures IsLineChar(gap[k]) { assert IsGap(gap[k]); }
  }

  /** A command line is parsed word by word. */
  lemma ParsedByWords(gaps: seq<string>, ws: seq<string>, tail: string)
    requires Meant(Command(gaps, ws, tail))
    ensures var step := MeaningOf(Command(gaps, ws, tail));
      ParseTrimmed("RUN" + Spaced(gaps, ws, tail)) == if step.Run? then Some(step.config) else None
  {
    hide NextToken, Spaced, SkipGaps;
    var s0 := Spaced(gaps, ws, tail);
    SpacedStartsWithGap(gaps, ws, tail);
    RunIsWord();
    assert Gap("") && "" + ("RUN" + s0) == "RUN" + s0;
    TokenBehindGap("", "RUN", s0);
    TokenOfSpaced(gaps, ws, tail);
    if |ws| >= 1 {
      Shorter(gaps, ws, 1);
      TokenOfSpaced(gaps[1..], ws[1..], tail);
    }
    if |ws| >= 2 {
      Shorter(gaps, ws, 2);
      TokenOfSpaced(gaps[2..], ws[2..], tail);
    }
    if |ws| >= 3 {
      Shorter(gaps, ws, 3);
      TokenOfSpaced(gaps[3..], ws[3..], tail);
    }
    if |ws| >= 4 {
      Shorter(gaps, ws, 4);
      ArgsOfSpaced(gaps[4..], ws[4..], tail);
    }
  }

  lemma Shorter(gaps: seq<string>, ws: seq<string>, n: nat)
    requires Words(gaps, ws) && 0 < n <= |ws|
    ensures Words(gaps[n..], ws[n..])
    ensures gaps[n - 1..][1..] == gaps[n..] && ws[n - 1..][1..] == ws[n..]
  {
  }

  /** A text whose first word is not RUN is no command. */
  lemma OtherWordIsRefused(gap: string, w: string, rest: string)
    requires Gap(gap) && ArgWord(w) && w != "RUN" && (rest == "" || IsGap(rest[0]))
    requires All(rest, IsLineChar) && |gap| + |w| + |rest| <= 511
    ensures ParseRun(gap + (w + rest)) == None
  {
    hide NextToken, Trim;
    var s := gap + (w + rest);
    assert s[..Min(|s|, 511)] == s;
    assert IsLineChar(s[|s| - 1]) by { assert s[|s| - 1] == if rest == "" then w[|w| - 1] else rest[|rest| - 1]; }
    TrimIs(s, |s|);
    assert s[..|s|] == s;
    TokenBehindGap(gap, w, rest);
  }

  lemma CommandIsRun(l: PlanLine, end: string)
    requires l.Command? && Meant(l) && |LineText(l)| <= 510 && end in {"", "\n"}
    ensures StepOf(LineText(l) + end) == MeaningOf(l)
  {
    hide CStr, ParseTrimmed, Trim, MeaningOf, Spaced;
    var tail := Spaced(l.gaps, l.words, l.tail);
    var s := "RUN" + tail;
    SpacedIsText(l.gaps, l.words, l.tail);
    assert All("RUN", IsPlain);
    PlainConcat("RUN", tail);
    PlainLine(s, end);
    var line := s + end;
    assert line[0] == 'R' && SpanLen(line, IsGap) == 0;
    assert line == "RUN" + (tail + end);
    assert "RUN " <= line;
    assert line[..Min(|line|, 511)] == line;
    assert IsLineChar(s[|s| - 1]) by { if tail != "" { assert s[|s| - 1] == tail[|tail| - 1]; } }
    TrimIs(line, |s|);
    assert line[..|s|] == s;
    ParsedByWords(l.gaps, l.words, l.tail);
    CommandMeaning(l);
  }

  lemma CommandMeaning(l: PlanLine)
    requires l.Command? && Meant(l)
    ensures !MeaningOf(l).Skip?
  {
  }

  /** The form is no restriction: every text of one line has a meaning. */
  lemma EveryLineIsMeant(s: string) returns (l: PlanLine)
    requires All(s, IsPlain) && All(s, IsLineChar)
    ensures Meant(l) && LineText(l) == s
  {
    if "RUN " <= s {
      var gaps, words, tail := SplitIntoWords(s[3..]);
      assert s == "RUN" + s[3..];
      l := Command(gaps, words, tail);
    } else {
      var n := SpanLen(s, IsGap);
      assert s == s[..n] + s[n..];
      l := if n == |s| || s[n] == '#' then Remark(s[..n], s[n..]) else Other(s[..n], s[n..]);
    }
  }

  lemma {:induction false} SplitIntoWords(s: string) returns (gaps: seq<string>, words: seq<string>, tail: string)
    requires All(s, IsPlain) && All(s, IsLineChar) && (s == "" || IsGap(s[0]))
    ensures Words(gaps, words) && Gap(tail) && Spaced(gaps, words, tail) == s
    decreases |s|
  {
    hide Spaced, ArgWord, All;
    var n := SpanLen(s, IsGap);
    if n == |s| {
      gaps, words, tail := [], [], s;
      GapAlone(s);
    } else {
      var m := SpanLen(s[n..], IsArg);
      WordIsFound(s);
      var gs, ws;
      gs, ws, tail := SplitIntoWords(s[n..][m..]);
      gaps, words := [s[..n]] + gs, [s[n..][..m]] + ws;
      SplitJoins(s, n, m, gs, ws, tail);
    }
  }

  lemma GapAlone(s: string)
    requires SpanLen(s, IsGap) == |s|
    ensures Gap(s) && Spaced([], [], s) == s
  {
  }

  /** Behind a gap there is a word, and behind the word the end or a gap. */
  lemma WordIsFound(s: string)
    requires All(s, IsPlain) && All(s, IsLineChar) && s != "" && IsGap(s[0]) && SpanLen(s, IsGap) < |s|
    ensures var n := SpanLen(s, IsGap);
      var t := s[n..];
      var m := SpanLen(t, IsArg);
      && 0 < n && Gap(s[..n]) && ArgWord(t[..m]) && |t[m..]| < |s|
      && (t[m..] == "" || IsGap(t[m..][0])) && All(t[m..], IsPlain) && All(t[m..], IsLineChar)
  {
    var n := SpanLen(s, IsGap);
    var t := s[n..];
    assert forall k | 0 <= k < |t| :: t[k] == s[n + k] && IsPlain(s[n + k]) && IsLineChar(s[n + k]);
  }

  lemma SplitJoins(s: string, n: nat, m: nat, gs: seq<string>, ws: seq<string>, tail: string)
    requires n + m <= |s| && |gs| == |ws| && Spaced(gs, ws, tail) == s[n..][m..]
    ensures Spaced([s[..n]] + gs, [s[n..][..m]] + ws, tail) == s
  {
    hide Spaced;
    var gaps, words := [s[..n]] + gs, [s[n..][..m]] + ws;
    SpacedCons(gaps, words, tail);
    assert gaps[1..] == gs && words[1..] == ws;
    assert s == s[..n] + (s[n..][..m] + s[n..][m..]);
  }

  /** Single gaps are what `cmd_run` writes. */
  lemma {:induction false} SpreadIsSpaced(gaps: seq<string>, ws: seq<string>)
    requires |gaps| == |ws| && forall k | 0 <= k < |gaps| :: gaps[k] == " "
    ensures Spread(ws) == Spaced(gaps, ws, "")
  {
    if ws != [] {
      SpreadIsSpaced(gaps[1..], ws[1..]);
      assert " " + ws[0] + Spread(ws[1..]) == " " + (ws[0] + Spread(ws[1..]));
    }
  }

  // -------------------------------------------------------- what a plan means

  predicate AllMeant(ls: seq<PlanLine>) {
    forall k | 0 <= k < |ls| :: Meant(ls[k]) && |LineText(ls[k])| <= 510
  }

  /** The lines of a file, with or without their line feeds. */
  predicate ReadAs(lines: seq<string>, ls: seq<PlanLine>)
    requires AllMeant(ls)
  {
    |lines| == |ls| && forall k | 0 <= k < |ls| :: lines[k] == LineText(ls[k]) || lines[k] == LineText(ls[k]) + "\n"
  }

  /** The configurations of the commands among the lines. */
  function ConfigsOf(ls: seq<PlanLine>): seq<RunConfig>
    requires AllMeant(ls)
    decreases |ls|
  {
    if ls == [] then []
    else
      var step := MeaningOf(ls[|ls| - 1]);
      ConfigsOf(ls[..|ls| - 1]) + if step.Run? then [step.config] else []
  }

  /** How many lines there are in front of the first invalid one. */
  function ValidLines(ls: seq<PlanLine>): (n: nat)
    requires AllMeant(ls)
    ensures n <= |ls|
    ensures forall k | 0 <= k < n :: !MeaningOf(ls[k]).Invalid?
    ensures n < |ls| ==> MeaningOf(ls[n]).Invalid?
  {
    if ls == [] || MeaningOf(ls[0]).Invalid? then 0 else 1 + ValidLines(ls[1..])
  }

  lemma {:induction false} ConfigsCons(l: PlanLine, ls: seq<PlanLine>)
    requires Meant(l) && AllMeant(ls) && AllMeant([l] + ls)
    ensures ConfigsOf([l] + ls) == (if MeaningOf(l).Run? then [MeaningOf(l).config] else []) + ConfigsOf(ls)
    decreases |ls|
  {
    hide MeaningOf, Meant, LineText;
    var all := [l] + ls;
    if ls == [] {
      assert all[..0] == [];
    } else {
      assert all[..|all| - 1] == [l] + ls[..|ls| - 1];
      ConfigsCons(l, ls[..|ls| - 1]);
    }
  }

  /** The commands of a plan are those of its lines in front of the first invalid one, in order. */
  lemma {:induction false} CommandsAreMeant(lines: seq<string>, ls: seq<PlanLine>)
    requires AllMeant(ls) && ReadAs(lines, ls)
    ensures Commands(lines) == (ConfigsOf(ls[..ValidLines(ls)]), ValidLines(ls) == |ls|)
    decreases |ls|
  {
    hide StepOf, MeaningOf, Meant, LineText, ConfigsOf;
    if ls == [] {
      NoConfigs();
    } else {
      var n := ValidLines(ls);
      var end := if lines[0] == LineText(ls[0]) then "" else "\n";
      assert LineText(ls[0]) + "" == LineText(ls[0]);
      LineIsMeant(ls[0], end);
      if n > 0 {
        CommandsAreMeant(lines[1..], ls[1..]);
        assert ls[..n] == [ls[0]] + ls[1..][..n - 1];
        ConfigsCons(ls[0], ls[1..][..n - 1]);
        assert [] + ConfigsOf(ls[1..][..n - 1]) == ConfigsOf(ls[1..][..n - 1]);
      } else {
        NoConfigs();
        assert ls[..0] == [];
      }
    }
  }

  lemma NoConfigs()
    ensures ConfigsOf([]) == []
  {
  }

  function LineTexts(ls: seq<PlanLine>): (texts: seq<string>)
    requires AllMeant(ls)
    ensures |texts| == |ls|
  {
    seq(|ls|, k requires 0 <= k < |ls| => LineText(ls[k]))
  }

  /** The plan with these lines. */
  function PlanText(ls: seq<PlanLine>): string
    requires AllMeant(ls)
  {
    TextOf(LineTexts(ls))
  }

  /** A plan written line by line gives exactly the commands written, whatever remarks and blank lines
      stand between them. */
  lemma PlanRoundTrip(ls: seq<PlanLine>)
    requires AllMeant(ls)
    ensures Commands(Lines(PlanText(ls), 512)) == (ConfigsOf(ls[..ValidLines(ls)]), ValidLines(ls) == |ls|)
  {
    hide Lines, Meant, LineText, TextOf, Commands, ConfigsOf, ValidLines;
    LinesAreWhole(ls);
    LinesOfText(LineTexts(ls));
    CommandsAreMeant(Lines(PlanText(ls), 512), ls);
  }

  lemma LinesAreWhole(ls: seq<PlanLine>)
    requires AllMeant(ls)
    ensures WholeLines(LineTexts(ls))
  {
    hide LineText, Meant;
    forall k | 0 <= k < |ls| ensures All(LineText(ls[k]), NotNewline) {
      LineIsOneLine(ls[k]);
    }
  }

  lemma LineIsOneLine(l: PlanLine)
    requires Meant(l)
    ensures All(LineText(l), NotNewline)
  {
    hide Spaced;
    var t := LineText(l);
    match l
    case Command(gaps, words, tail) =>
      SpacedIsText(gaps, words, tail);
      assert All("RUN", IsPlain);
      PlainConcat("RUN", Spaced(gaps, words, tail));
      PlainIsOneLine(t);
    case Remark(gap, text) =>
      GapsArePlain(gap);
      PlainConcat(gap, text);
      PlainIsOneLine(t);
    case Other(gap, text) =>
      GapsArePlain(gap);
      PlainConcat(gap, text);
      PlainIsOneLine(t);
  }

  lemma PlainIsOneLine(s: string)
    requires All(s, IsPlain)
    ensures All(s, NotNewline)
  {
    forall k | 0 <= k < |s| ensures NotNewline(s[k]) { assert IsPlain(s[k]); }
  }

  /** A command that `cmd_run` could send is the same command on a line of a plan. */
  lemma RunTextIsMeant(ws: seq<string>) returns (l: PlanLine)
    requires ws != [] && forall k | 0 <= k < |ws| :: ArgWord(ws[k])
    ensures Meant(l) && l.Command? && l.words == ws && LineText(l) == RunText(ws)
  {
    hide Spread, ArgWord;
    var gaps := seq(|ws|, _ => " ");
    SpreadIsSpaced(gaps, ws);
    SpreadStartsWithGap(ws);
    l := Command(gaps, ws, "");
  }
}
