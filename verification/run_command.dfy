/** The RUN command: built by tearictl into a 512-byte buffer, taken apart in place by the
    supervisor. */
module RunCommand {
  import opened CText

  const COMMAND_MAX := 512

  predicate IsGap(c: char) { c == ' ' || c == '\t' }
  predicate IsArg(c: char) { c != NUL && !IsGap(c) }

  /** A word that survives the tokenizer: neither gaps nor line ends. */
  predicate ArgWord(s: string) {
    s != "" && forall k | 0 <= k < |s| :: IsArg(s[k]) && !IsBreak(s[k])
  }

  datatype RunConfig = RunConfig(workload: string, manifest: string, profile: string, args: string)

  // ----------------------------------------------------------------- tearictl

  /** `" %s"` for every word. */
  function Spread(ws: seq<string>): string {
    if ws == [] then "" else " " + ws[0] + Spread(ws[1..])
  }

  /** The whole text for `argv[2..]`. */
  function RunText(ws: seq<string>): string { "RUN" + Spread(ws) }

  /** `snprintf(dst + at, size - at, "%s", text)`: the length it would have needed. */
  method Snprintf(dst: array<char>, at: nat, text: string) returns (n: nat)
    requires at < dst.Length && NUL !in text
    modifies dst
    ensures n == |text|
    ensures dst[..at] == old(dst[..at])
    ensures n < dst.Length - at ==> dst[at..at + n] == text && dst[at + n] == NUL
  {
    n := |text|;
    var fit := Min(n, dst.Length - at - 1);
    forall k | 0 <= k < fit {
      dst[at + k] := text[k];
    }
    dst[at + fit] := NUL;
  }

  lemma {:induction false} SpreadSnoc(ws: seq<string>, w: string)
    ensures Spread(ws + [w]) == Spread(ws) + (" " + w)
  {
    if ws == [] {
      assert [] + [w] == [w] && [w][1..] == [];
      assert Spread([w]) == " " + w + "";
    } else {
      assert (ws + [w])[1..] == ws[1..] + [w];
      SpreadSnoc(ws[1..], w);
      assert " " + ws[0] + (Spread(ws[1..]) + (" " + w)) == (" " + ws[0] + Spread(ws[1..])) + (" " + w);
    }
  }

  lemma {:induction false} SpreadPrefix(ws: seq<string>, n: nat)
    requires n <= |ws|
    ensures |Spread(ws[..n])| <= |Spread(ws)|
    decreases |ws| - n
  {
    if n < |ws| {
      assert ws[..n + 1] == ws[..n] + [ws[n]];
      SpreadSnoc(ws[..n], ws[n]);
      SpreadPrefix(ws, n + 1);
    } else {
      assert ws[..n] == ws;
    }
  }

  lemma SpreadThree(ws: seq<string>)
    requires |ws| >= 3
    ensures Spread(ws[..3]) == " " + ws[0] + (" " + ws[1] + (" " + ws[2]))
  {
    var t := ws[..3];
    assert t[1..][1..] == t[2..] && t[2..][1..] == [];
    assert Spread(t[2..]) == " " + ws[2] + "";
    assert Spread(t[1..]) == " " + ws[1] + Spread(t[2..]);
  }

  lemma FirstWords(ws: seq<string>)
    requires |ws| >= 3
    ensures "RUN " + ws[0] + (" " + ws[1] + (" " + ws[2])) == RunText(ws[..3])
  {
    hide Spread;
    SpreadThree(ws);
    var rest := " " + ws[1] + (" " + ws[2]);
    assert "RUN " + ws[0] + rest == "RUN" + (" " + ws[0] + rest);
  }

  lemma TextGrows(ws: seq<string>, n: nat)
    requires 0 < n <= |ws|
    ensures RunText(ws[..n]) == RunText(ws[..n - 1]) + (" " + ws[n - 1])
    ensures |RunText(ws[..n])| <= |RunText(ws)|
  {
    hide Spread;
    assert ws[..n] == ws[..n - 1] + [ws[n - 1]];
    SpreadSnoc(ws[..n - 1], ws[n - 1]);
    SpreadPrefix(ws, n);
  }

  /** `cmd_run`: rejects exactly when an argument is missing or the text reaches 512 bytes, and
      sends the whole text otherwise. */
  method CmdRun(argv: seq<string>) returns (command: Option<string>)
    requires forall w | w in argv :: NUL !in w
    ensures command == if |argv| < 5 || |RunText(argv[2..])| >= COMMAND_MAX then None else Some(RunText(argv[2..]))
  {
    if |argv| < 5 {
      return None;
    }
    hide RunText;
    ghost var ws := argv[2..];
    var buf := new char[COMMAND_MAX];
    FirstWords(ws);
    var ret := Snprintf(buf, 0, "RUN " + argv[2] + (" " + argv[3] + (" " + argv[4])));
    TextGrows(ws, 3);
    if ret >= COMMAND_MAX {
      return None;
    }
    var pos: nat, i: nat := ret, 5;
    while i < |argv|
      invariant 5 <= i <= |argv| && pos < COMMAND_MAX
      invariant buf[..pos] == RunText(ws[..i - 2])
    {
      ret := Snprintf(buf, pos, " " + argv[i]);
      TextGrows(ws, i - 1);
      if ret >= COMMAND_MAX - pos {
        return None;
      }
      assert buf[..pos + ret] == buf[..pos] + buf[pos..pos + ret];
      pos := pos + ret;
      i := i + 1;
    }
    assert ws[..i - 2] == ws;
    command := Some(buf[..pos]);
  }

  /** What reaches the supervisor's 512-byte buffer: `supervisor_command` appends a line feed, and the
      supervisor reads once. */
  function Arrived(command: string): string { (command + "\n")[..Min(|command| + 1, 511)] }

  // --------------------------------------------------------------- supervisor

  /** `next_token` on the text at the cursor: the token, and the text behind the one separator
      that was overwritten. */
  function NextToken(s: string): (Option<string>, string) {
    var t := s[SpanLen(s, IsGap)..];
    var n := SpanLen(t, IsArg);
    if t == "" then (None, t) else (Some(t[..n]), if n < |t| then t[n + 1..] else "")
  }

  function SkipGaps(s: string): string { s[SpanLen(s, IsGap)..] }

  /** `parse_run_command` on the trimmed text. */
  function ParseTrimmed(s: string): Option<RunConfig> {
    var command := NextToken(s);
    if command.0 != Some("RUN") then None else
    var workload := NextToken(command.1);
    var manifest := NextToken(workload.1);
    var profile := NextToken(manifest.1);
    if workload.0.None? || manifest.0.None? || profile.0.None? then None else
    var token := NextToken(profile.1);
    if token.0.None? then Some(RunConfig(workload.0.value, manifest.0.value, profile.0.value, ""))
    else if token.0.value == "--"
    then Some(RunConfig(workload.0.value, manifest.0.value, profile.0.value, SkipGaps(token.1)))
    else None
  }

  /** `parse_run_command`, with its copy into 512 bytes. */
  function ParseRun(buf: string): Option<RunConfig> {
    ParseTrimmed(Trim(buf[..Min(|buf|, 511)]))
  }

  // --------------------------------------------------------------- round trip

  /** The words after `--`, as the supervisor passes them on. */
  function Join(ws: seq<string>): string {
    if ws == [] then "" else Spread(ws)[1..]
  }

  /** A word at the cursor is the next token, and one separator is taken with it. */
  lemma TokenAtCursor(w: string, rest: string)
    requires ArgWord(w)
    requires rest == "" || IsGap(rest[0])
    ensures NextToken(w + rest) == (Some(w), if rest == "" then "" else rest[1..])
  {
    var t := w + rest;
    assert t[0] == w[0] && IsArg(w[0]);
    assert SpanLen(t, IsGap) == 0 && t[0..] == t;
    SpanLenOf(w, rest, IsArg);
    assert t[..|w|] == w && (rest != "" ==> t[|w| + 1..] == rest[1..]);
  }

  lemma SpreadStartsWithGap(ws: seq<string>)
    ensures Spread(ws) == "" || IsGap(Spread(ws)[0])
    ensures ws != [] ==> Spread(ws) == " " + (ws[0] + Spread(ws[1..])) && Spread(ws)[1..] == ws[0] + Spread(ws[1..])
  {
    if ws != [] {
      assert " " + ws[0] + Spread(ws[1..]) == " " + (ws[0] + Spread(ws[1..]));
    }
  }

  lemma {:induction false} SpreadHasNoLineEnd(ws: seq<string>)
    requires forall k | 0 <= k < |ws| :: ArgWord(ws[k])
    ensures All(Spread(ws), IsLineChar)
  {
    if ws != [] {
      assert ArgWord(ws[0]);
      SpreadHasNoLineEnd(ws[1..]);
    }
  }

  lemma TokenOfWords(ws: seq<string>)
    requires ws != [] && ArgWord(ws[0])
    ensures NextToken(Spread(ws)[1..]) == (Some(ws[0]), if |ws| == 1 then "" else Spread(ws[1..])[1..])
  {
    hide NextToken, Spread, ArgWord;
    SpreadStartsWithGap(ws);
    SpreadStartsWithGap(ws[1..]);
    TokenAtCursor(ws[0], Spread(ws[1..]));
    SpreadIsEmpty(ws[1..]);
  }

  lemma SpreadIsEmpty(ws: seq<string>)
    ensures Spread(ws) == "" <==> ws == []
  {
  }

  /** Round trip of the RUN command: for words without white space, what `cmd_run` accepts is
      parsed exactly when no extra word is given or the first extra word is `--`, and the
      supervisor then recovers every word, the arguments joined by single spaces. */
  lemma RunRoundTrip(ws: seq<string>)
    requires |ws| >= 3 && forall k | 0 <= k < |ws| :: ArgWord(ws[k])
    requires |RunText(ws)| < COMMAND_MAX
    ensures ParseRun(Arrived(RunText(ws)))
         == if |ws| == 3 then Some(RunConfig(ws[0], ws[1], ws[2], ""))
            else if ws[3] == "--" then Some(RunConfig(ws[0], ws[1], ws[2], Join(ws[4..])))
            else None
  {
    hide NextToken, Spread, ArgWord, ParseTrimmed, Trim, SkipGaps;
    var s := RunText(ws);
    ArrivedIsTrimmed(ws);
    SpreadStartsWithGap(ws);
    RunIsWord();
    TokenAtCursor("RUN", Spread(ws));
    SpreadIsEmpty(ws);
    TokenOfWords(ws);
    assert ws[1..][1..] == ws[2..] && ws[2..][1..] == ws[3..];
    TokenOfWords(ws[1..]);
    TokenOfWords(ws[2..]);
    SpreadIsEmpty(ws[1..]);
    SpreadIsEmpty(ws[2..]);
    SpreadIsEmpty(ws[3..]);
    var rest := if |ws| == 3 then "" else Spread(ws[3..])[1..];
    FourTokens(s, Spread(ws)[1..], ws[0], Spread(ws[1..])[1..], ws[1], Spread(ws[2..])[1..], ws[2], rest);
    if |ws| == 3 {
      NoToken();
    } else {
      assert ws[3..][1..] == ws[4..];
      TokenOfWords(ws[3..]);
      NoLeadingGap(ws[4..]);
    }
  }

  lemma FourTokens(s: string, s1: string, workload: string, s2: string, manifest: string, s3: string, profile: string,
                   rest: string)
    requires NextToken(s) == (Some("RUN"), s1)
    requires NextToken(s1) == (Some(workload), s2)
    requires NextToken(s2) == (Some(manifest), s3)
    requires NextToken(s3) == (Some(profile), rest)
    ensures ParseTrimmed(s)
         == match NextToken(rest).0
            case None => Some(RunConfig(workload, manifest, profile, ""))
            case Some(t) =>
              if t == "--" then Some(RunConfig(workload, manifest, profile, SkipGaps(NextToken(rest).1))) else None
  {
    hide NextToken, SkipGaps;
  }

  lemma NoToken()
    ensures NextToken("").0 == None
  {
  }

  lemma RunIsWord()
    ensures ArgWord("RUN")
  {
  }

  /** The line feed is trimmed off again; a command of 511 characters arrives without it. */
  lemma ArrivedIsTrimmed(ws: seq<string>)
    requires ws != [] && (forall k | 0 <= k < |ws| :: ArgWord(ws[k])) && |RunText(ws)| < COMMAND_MAX
    ensures var buf := Arrived(RunText(ws)); Trim(buf[..Min(|buf|, 511)]) == RunText(ws)
  {
    hide Trim, Spread, ArgWord;
    var s := RunText(ws);
    var buf := Arrived(s);
    assert IsLineChar(s[|s| - 1]) by { EndsInWord(ws); }
    assert buf[..Min(|buf|, 511)] == buf;
    assert buf[..|s|] == s;
    TrimIs(buf, |s|);
  }

  lemma EndsInWord(ws: seq<string>)
    requires ws != [] && forall k | 0 <= k < |ws| :: ArgWord(ws[k])
    ensures RunText(ws) != "" && IsLineChar(RunText(ws)[|RunText(ws)| - 1])
  {
    SpreadHasNoLineEnd(ws);
    var s := RunText(ws);
    assert Spread(ws) != "";
    assert s[|s| - 1] == Spread(ws)[|Spread(ws)| - 1];
  }

  lemma NoLeadingGap(ws: seq<string>)
    requires forall k | 0 <= k < |ws| :: ArgWord(ws[k])
    ensures SkipGaps(if ws == [] then "" else Spread(ws)[1..]) == Join(ws)
  {
    hide Spread;
    if ws != [] {
      SpreadStartsWithGap(ws);
      SpreadIsEmpty(ws);
      var t := Spread(ws)[1..];
      assert t[0] == ws[0][0] && ArgWord(ws[0]) && IsArg(ws[0][0]);
      assert t[0..] == t;
    }
  }
}
