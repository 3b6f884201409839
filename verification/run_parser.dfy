/** The supervisor's side of RUN as it runs: one local buffer, a cursor, and terminators written
    over the separators. */
module RunParser {
  import opened CText
  import opened RunCommand

  /** The C string that starts at a position of the buffer. */
  function TextAt(s: string, at: nat): string
    requires at <= |s|
  {
    CStr(s[at..])
  }

  /** There is a terminator at or after the position. */
  predicate Ends(s: string, at: nat) {
    at <= |s| && |TextAt(s, at)| < |s| - at
  }

  lemma TextAtIs(s: string, at: nat)
    requires Ends(s, at)
    ensures var t := TextAt(s, at);
      s[at..at + |t|] == t && s[at + |t|] == NUL && forall k | at <= k < at + |t| :: s[k] != NUL
  {
    assert forall k | at <= k < |s| :: s[k] == s[at..][k - at];
  }

  /** The buffer changed at most by terminators written at or after the cursor. */
  predicate OnlyCut(before: string, after: string, cursor: nat) {
    |before| == |after| &&
    forall k | 0 <= k < |before| :: after[k] == before[k] || (cursor <= k && before[k] != NUL && after[k] == NUL)
  }

  /** A string that ends at or before the cursor survives such changes. */
  lemma CutKeeps(before: string, after: string, cursor: nat, at: nat)
    requires OnlyCut(before, after, cursor)
    requires Ends(before, at) && at + |TextAt(before, at)| <= cursor
    ensures Ends(after, at) && TextAt(after, at) == TextAt(before, at)
  {
    var t := TextAt(before, at);
    TextAtIs(before, at);
    assert after[at..] == t + ([NUL] + after[at + |t| + 1..]) by {
      assert forall k | at <= k <= at + |t| :: after[k] == before[k];
    }
    assert t + ([NUL] + after[at + |t| + 1..]) == t + [NUL] + after[at + |t| + 1..];
    CStrOf(t, after[at + |t| + 1..]);
  }

  lemma TextBetween(s: string, at: nat, end: nat)
    requires at <= end < |s| && s[end] == NUL && forall k | at <= k < end :: s[k] != NUL
    ensures Ends(s, at) && TextAt(s, at) == s[at..end]
  {
    assert s[at..] == s[at..end] + [NUL] + s[end + 1..];
    CStrOf(s[at..end], s[end + 1..]);
  }

  /** Where the two loops of `next_token` stop is where the token is. */
  lemma TokenBetween(t: string, start: nat, end: nat)
    requires start <= end <= |t| && NUL !in t
    requires forall k | 0 <= k < start :: IsGap(t[k])
    requires forall k | start <= k < end :: IsArg(t[k])
    requires start < |t| ==> !IsGap(t[start])
    requires end < |t| ==> !IsArg(t[end])
    ensures start == |t| ==> NextToken(t) == (None, "")
    ensures start < |t| ==> NextToken(t) == (Some(t[start..end]), if end < |t| then t[end + 1..] else "")
  {
    hide SpanLen;
    assert t[0..] == t;
    SpanLenAt(t, 0, start, IsGap);
    SpanLenAt(t, start, end, IsArg);
    Slices(t, start, end);
    if end < |t| {
      Slices(t, start, end + 1);
    }
  }

  /** `next_token`: the start of the token (found tells it from NULL) and the new cursor. The token
      ends in a terminator before the cursor or at it, and the cursor never passes the end. */
  method NextTokenInPlace(a: array<char>, cursor: nat) returns (found: bool, start: nat, cursor': nat)
    requires Ends(a[..], cursor)
    modifies a
    ensures cursor <= cursor' <= cursor + |old(TextAt(a[..], cursor))|
    ensures Ends(a[..], cursor') && OnlyCut(old(a[..]), a[..], cursor)
    ensures found ==> Ends(a[..], start) && start + |TextAt(a[..], start)| <= cursor'
    ensures NextToken(old(TextAt(a[..], cursor)))
         == (if found then Some(TextAt(a[..], start)) else None, TextAt(a[..], cursor'))
  {
    hide NextToken, TextAt, OnlyCut;
    ghost var s := a[..];
    start := PastGaps(a, cursor);
    if a[start] == NUL {
      NoTokenLeft(s, cursor, start);
      return false, start, start;
    }
    cursor' := PastArg(a, start);
    TokenCut(s, cursor, start, cursor');
    if a[cursor'] != NUL {
      a[cursor'] := NUL;
      assert a[..] == s[cursor' := NUL];
      cursor' := cursor' + 1;
    } else {
      assert a[..] == s[cursor' := NUL];
    }
    found := true;
  }

  lemma NoTokenLeft(s: string, cursor: nat, start: nat)
    requires Ends(s, cursor) && cursor <= start < |s| && s[start] == NUL
    requires forall k | cursor <= k < start :: IsGap(s[k])
    ensures Ends(s, start) && OnlyCut(s, s, cursor) && start <= cursor + |TextAt(s, cursor)|
    ensures NextToken(TextAt(s, cursor)) == (None, TextAt(s, start))
  {
    hide NextToken, TextAt, Ends;
    TextBetween(s, cursor, start);
    TextBetween(s, start, start);
    TokenBetween(s[cursor..start], start - cursor, start - cursor);
  }

  /** Writing a terminator over the character behind the token. */
  lemma TokenCut(s: string, cursor: nat, start: nat, at: nat)
    requires Ends(s, cursor) && cursor <= start < at < |s| && at <= cursor + |TextAt(s, cursor)|
    requires forall k | cursor <= k < start :: IsGap(s[k])
    requires forall k | start <= k < at :: IsArg(s[k])
    requires !IsArg(s[at])
    ensures var cut := s[at := NUL];
      var after := if s[at] == NUL then at else at + 1;
      && Ends(cut, after) && OnlyCut(s, cut, cursor) && after <= cursor + |TextAt(s, cursor)|
      && Ends(cut, start) && start + |TextAt(cut, start)| <= after
      && NextToken(TextAt(s, cursor)) == (Some(TextAt(cut, start)), TextAt(cut, after))
  {
    hide NextToken, TextAt, OnlyCut;
    var t := TextAt(s, cursor);
    OneCut(s, cursor, at);
    CutText(s, cursor, start, at);
    TokenInText(s, cursor, start, at);
  }

  /** The token of the text, in terms of the buffer. */
  lemma TokenInText(s: string, cursor: nat, start: nat, at: nat)
    requires Ends(s, cursor) && cursor <= start < at < |s| && at <= cursor + |TextAt(s, cursor)|
    requires forall k | cursor <= k < start :: IsGap(s[k])
    requires forall k | start <= k < at :: IsArg(s[k])
    requires !IsArg(s[at])
    ensures var end := cursor + |TextAt(s, cursor)|;
      NextToken(TextAt(s, cursor)) == (Some(s[start..at]), if s[at] == NUL then "" else s[at + 1..end])
      && (s[at] == NUL <==> at == end)
  {
    hide NextToken, TextAt, Ends;
    var end := cursor + |TextAt(s, cursor)|;
    EndsInside(s, cursor);
    TextAtIs(s, cursor);
    TokenInSlice(s, cursor, end, start, at);
  }

  lemma TokenInSlice(s: string, cursor: nat, end: nat, start: nat, at: nat)
    requires cursor <= start < at <= end < |s| && s[end] == NUL
    requires forall k | cursor <= k < end :: s[k] != NUL
    requires forall k | cursor <= k < start :: IsGap(s[k])
    requires forall k | start <= k < at :: IsArg(s[k])
    requires !IsArg(s[at])
    ensures NextToken(s[cursor..end]) == (Some(s[start..at]), if s[at] == NUL then "" else s[at + 1..end])
    ensures s[at] == NUL <==> at == end
  {
    hide NextToken;
    PartOf(s, cursor, end, start, at);
    TokenBetween(s[cursor..end], start - cursor, at - cursor);
  }

  lemma EndsInside(s: string, cursor: nat)
    requires Ends(s, cursor)
    ensures cursor + |TextAt(s, cursor)| < |s| && s[cursor..cursor + |TextAt(s, cursor)|] == TextAt(s, cursor)
  {
  }

  lemma PartOf(s: string, cursor: nat, end: nat, start: nat, at: nat)
    requires cursor <= start <= at <= end <= |s|
    ensures var t := s[cursor..end];
      && (forall k | 0 <= k < |t| :: t[k] == s[cursor + k])
      && t[start - cursor..at - cursor] == s[start..at]
      && (at < end ==> t[at - cursor + 1..] == s[at + 1..end])
  {
  }

  /** The texts in front of the new terminator and behind it. */
  lemma CutText(s: string, cursor: nat, start: nat, at: nat)
    requires Ends(s, cursor) && cursor <= start < at <= cursor + |TextAt(s, cursor)|
    ensures var cut, end := s[at := NUL], cursor + |TextAt(s, cursor)|;
      && Ends(cut, start) && TextAt(cut, start) == s[start..at]
      && (at == end ==> Ends(cut, at) && TextAt(cut, at) == "")
      && (at < end ==> Ends(cut, at + 1) && TextAt(cut, at + 1) == s[at + 1..end])
  {
    hide TextAt;
    var cut, end := s[at := NUL], cursor + |TextAt(s, cursor)|;
    TextAtIs(s, cursor);
    TextBetween(cut, start, at);
    assert cut[start..at] == s[start..at];
    if at < end {
      TextBetween(cut, at + 1, end);
      assert cut[at + 1..end] == s[at + 1..end];
    } else {
      TextBetween(cut, at, at);
    }
  }

  lemma OneCut(s: string, cursor: nat, at: nat)
    requires cursor <= at < |s|
    ensures OnlyCut(s, s[at := NUL], cursor)
  {
  }

  /** The first loop of `next_token`. */
  method PastGaps(a: array<char>, from: nat) returns (at: nat)
    requires Ends(a[..], from)
    ensures Ends(a[..], at) && at + |TextAt(a[..], at)| == from + |TextAt(a[..], from)|
    ensures from <= at && !IsGap(a[at]) && forall k | from <= k < at :: IsGap(a[k])
  {
    hide TextAt;
    TextAtIs(a[..], from);
    at := from;
    while a[at] == ' ' || a[at] == '\t'
      invariant from <= at <= from + |TextAt(a[..], from)|
      invariant forall k | from <= k < at :: IsGap(a[k])
      decreases from + |TextAt(a[..], from)| - at
    {
      at := at + 1;
    }
    EndsLater(a[..], from, at);
  }

  lemma EndsLater(s: string, at: nat, later: nat)
    requires Ends(s, at) && at <= later <= at + |TextAt(s, at)|
    ensures Ends(s, later) && later + |TextAt(s, later)| == at + |TextAt(s, at)|
  {
    TextAtIs(s, at);
    TextBetween(s, later, at + |TextAt(s, at)|);
  }

  /** The second loop. */
  method PastArg(a: array<char>, from: nat) returns (at: nat)
    requires Ends(a[..], from)
    ensures from <= at <= from + |TextAt(a[..], from)| && !IsArg(a[at])
    ensures forall k | from <= k < at :: IsArg(a[k])
    ensures IsArg(a[from]) ==> from < at
  {
    hide TextAt;
    TextAtIs(a[..], from);
    at := from;
    while a[at] != NUL && a[at] != ' ' && a[at] != '\t'
      invariant from <= at <= from + |TextAt(a[..], from)|
      invariant forall k | from <= k < at :: IsArg(a[k])
      decreases from + |TextAt(a[..], from)| - at
    {
      at := at + 1;
    }
  }

  /** `strncpy(local, buf, size - 1)` and the terminator behind it. */
  method CopyIn(a: array<char>, buf: string)
    requires a.Length > 0 && NUL !in buf
    modifies a
    ensures Ends(a[..], 0) && TextAt(a[..], 0) == buf[..Min(|buf|, a.Length - 1)]
  {
    var n := Min(|buf|, a.Length - 1);
    forall k | 0 <= k < a.Length {
      a[k] := if k < n then buf[k] else NUL;
    }
    TextBetween(a[..], 0, n);
    assert a[0..n] == buf[..n];
  }

  /** `trim_newline` in place. */
  method TrimInPlace(a: array<char>)
    requires Ends(a[..], 0)
    modifies a
    ensures Ends(a[..], 0) && TextAt(a[..], 0) == Trim(old(TextAt(a[..], 0)))
  {
    hide TextAt;
    ghost var s, t := a[..], TextAt(a[..], 0);
    TextAtIs(s, 0);
    var len := 0;
    while a[len] != NUL
      invariant 0 <= len <= |t|
      decreases |t| - len
    {
      len := len + 1;
    }
    while len > 0 && (a[len - 1] == '\n' || a[len - 1] == '\r')
      invariant 0 <= len <= |t|
      invariant a[..len] == t[..len] && a[len] == NUL
      invariant forall k | len <= k < |t| :: IsBreak(t[k])
    {
      assert a[len - 1] == t[len - 1];
      a[len - 1] := NUL;
      len := len - 1;
    }
    assert len > 0 ==> a[len - 1] == t[len - 1];
    assert forall k | 0 <= k < len :: a[k] == t[k] && t[k] != NUL;
    TrimIs(t, len);
    TextBetween(a[..], 0, len);
    assert a[0..len] == t[..len];
  }

  /** `parse_run_command`: the four words and the arguments stay readable in the buffer while the
      tokenizer cuts it up behind them. */
  method ParseRunCommand(buf: string) returns (r: Option<RunConfig>)
    requires NUL !in buf
    ensures r == ParseRun(buf)
  {
    hide NextToken, TextAt, OnlyCut, Trim, SkipGaps;
    var local := new char[COMMAND_MAX];
    CopyIn(local, buf);
    TrimInPlace(local);
    var ok, cmd, cursor := NextTokenInPlace(local, 0);
    var command := "";
    if ok {
      command := TextAt(local[..], cmd);
    }
    if !ok || command != "RUN" {
      return None;
    }
    var okW, workload, okM, manifest, okP, profile;
    okW, workload, cursor := NextTokenInPlace(local, cursor);
    ghost var s1, c1 := local[..], cursor;
    okM, manifest, cursor := NextTokenInPlace(local, cursor);
    ghost var s2, c2 := local[..], cursor;
    if okW { CutKeeps(s1, s2, c1, workload); }
    okP, profile, cursor := NextTokenInPlace(local, cursor);
    ghost var s3, c3 := local[..], cursor;
    if okW { CutKeeps(s2, s3, c2, workload); }
    if okM { CutKeeps(s2, s3, c2, manifest); }
    if !okW || !okM || !okP {
      return None;
    }
    var more, token;
    more, token, cursor := NextTokenInPlace(local, cursor);
    CutKeeps(s3, local[..], c3, workload);
    CutKeeps(s3, local[..], c3, manifest);
    CutKeeps(s3, local[..], c3, profile);
    var args := "";
    if more {
      if TextAt(local[..], token) != "--" {
        return None;
      }
      var at := PastGaps(local, cursor);
      ArgsFrom(local[..], cursor, at);
      args := TextAt(local[..], at);
    }
    r := Some(RunConfig(TextAt(local[..], workload), TextAt(local[..], manifest), TextAt(local[..], profile), args));
  }

  lemma ArgsFrom(s: string, cursor: nat, at: nat)
    requires Ends(s, cursor) && cursor <= at <= cursor + |TextAt(s, cursor)| && at < |s| && !IsGap(s[at])
    requires forall k | cursor <= k < at :: IsGap(s[k])
    ensures TextAt(s, at) == SkipGaps(TextAt(s, cursor))
  {
    hide TextAt;
    var t := TextAt(s, cursor);
    var end := cursor + |t|;
    TextAtIs(s, cursor);
    assert forall k | 0 <= k < |t| :: t[k] == s[cursor + k];
    SpanLenAt(t, 0, at - cursor, IsGap);
    assert t[0..] == t;
    TextBetween(s, at, end);
    assert s[at..end] == t[at - cursor..];
  }
}
