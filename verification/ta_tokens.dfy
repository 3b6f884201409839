/** What the hand-written tokenizer and decimal parser of the Trusted Application accept. */
module TaTokens {
  import opened CText
  import opened Manifests
  import opened TaRecords

  lemma SkipBlanks(gap: string, rest: string)
    requires All(gap, IsBlank)
    requires rest == "" || !IsBlank(rest[0])
    ensures (gap + rest)[SpanLen(gap + rest, IsBlank)..] == rest
  {
    SpanLenOf(gap, rest, IsBlank);
  }

  /** `copy_token` takes exactly the next token and stops right behind it. */
  lemma TokenOf(gap: string, token: string, rest: string, size: nat)
    requires All(gap, IsBlank)
    requires token != "" && All(token, IsTokenChar)
    requires rest == "" || !IsTokenChar(rest[0])
    ensures Token(gap + (token + rest), size) == (if |token| < size then Some(token) else None, rest)
  {
    SkipBlanks(gap, token + rest);
    SpanLenOf(token, rest, IsTokenChar);
    assert (token + rest)[..|token|] == token && (token + rest)[|token|..] == rest;
  }

  /** The text a token was taken from, put together again. */
  lemma TokenSplits(s: string, size: nat) returns (gap: string)
    requires Token(s, size).0.Some?
    ensures All(gap, IsBlank)
    ensures s == gap + (Token(s, size).0.value + Token(s, size).1)
    ensures Token(s, size).1 == "" || !IsTokenChar(Token(s, size).1[0])
  {
    var n := SpanLen(s, IsBlank);
    gap := s[..n];
    var t := s[n..];
    var k := SpanLen(t, IsTokenChar);
    assert t[..k] + t[k..] == t;
    assert gap + t == s;
  }

  // -------------------------------------------------- printed records are read back

  lemma VersionToken(v: int)
    requires -0x8000_0000 <= v <= INT_MAX
    ensures All(PrintInt(v), IsTokenChar) && 0 < |PrintInt(v)| < 16
    ensures ParsePositiveInt(PrintInt(v)) == if v >= 0 then Some(v) else None
  {
    PrintIntLength(v);
    if v >= 0 {
      PrintNatValue(v);
    } else {
      assert PrintInt(v)[0] == '-';
    }
  }

  lemma {:induction false} WordCharsAreTokenChars(s: string)
    requires All(s, IsWordChar)
    ensures All(s, IsTokenChar)
  {
    forall k | 0 <= k < |s| ensures IsTokenChar(s[k]) { assert IsWordChar(s[k]); }
  }

  lemma LastTokens(id: string, version: string, backend: string, hash: string, s1: string, s2: string, s3: string)
    requires 0 < |version| < 16 && All(version, IsTokenChar)
    requires 0 < |backend| <= 31 && All(backend, IsTokenChar)
    requires 0 < |hash| <= 127 && All(hash, IsTokenChar)
    requires s1 == " " + (version + s2) && s2 == " " + (backend + s3) && s3 == " " + (hash + "")
    ensures ParseRest(id, s1)
         == match ParsePositiveInt(version)
            case None => None
            case Some(v) => Some(Manifest(id, v, backend, hash))
  {
    hide Token;
    TokenOf(" ", version, s2, 16);
    TokenOf(" ", backend, s3, 32);
    TokenOf(" ", hash, "", 128);
  }

  /** Round trip of the third printer: a wire-safe manifest printed into a record is read
      back by `parse_state`, except that a negative version is refused. */
  lemma RecordIsParsed(m: Manifest)
    requires WireSafe(m)
    ensures ParseState(RecordText(m)) == if m.version >= 0 then Some(m) else None
  {
    WireSafeFields(m);
    RecordTextIs(m);
    VersionToken(m.version);
    WordCharsAreTokenChars(m.artifactId);
    WordCharsAreTokenChars(m.backend);
    WordCharsAreTokenChars(m.modelHash);
    var version := PrintInt(m.version);
    var s3 := " " + (m.modelHash + "");
    var s2 := " " + (m.backend + s3);
    var s1 := " " + (version + s2);
    assert RecordText(m) == "" + (m.artifactId + s1) by {
      assert m.backend + " " + m.modelHash == m.backend + s3;
      assert version + " " + (m.backend + s3) == version + s2;
      assert m.artifactId + " " + (version + s2) == m.artifactId + s1;
    }
    TokenOf("", m.artifactId, s1, 64);
    LastTokens(m.artifactId, version, m.backend, m.modelHash, s1, s2, s3);
  }

  // --------------------------------------------------------- exactly what is accepted

  predicate IsWordLetter(c: char) { c != ' ' }

  /** The words of a text: its maximal runs without blanks. */
  function Words(s: string): seq<string>
    decreases |s|
  {
    var t := s[SpanLen(s, IsBlank)..];
    if t == "" then []
    else
      var n := SpanLen(t, IsWordLetter);
      [t[..n]] + Words(t[n..])
  }

  /** `parse_state` said declaratively: four words within the field widths of the struct,
      the second of them all digits. */
  function StateOfWords(ws: seq<string>): Option<Manifest> {
    if |ws| == 4 && |ws[0]| < 64 && |ws[1]| < 16 && |ws[2]| < 32 && |ws[3]| < 128 && ws[1] != "" && All(ws[1], IsDigit)
    then Some(Manifest(ws[0], Wrap32(Value(ws[1])), ws[2], ws[3]))
    else None
  }

  /** Where the tokenizer finds a token, the words begin with it. */
  lemma WordsStep(s: string, size: nat)
    requires NUL !in s
    ensures var t := Token(s, size);
      NUL !in t.1 &&
      if Words(s) == [] then t.0.None? && AtEnd(s) && t.1 == ""
      else Words(s)[1..] == Words(t.1) && !AtEnd(s) && Words(s)[0] != "" &&
           t.0 == if |Words(s)[0]| < size then Some(Words(s)[0]) else None
  {
    var t := s[SpanLen(s, IsBlank)..];
    var n := SpanLen(t, IsTokenChar);
    SpanLenAt(t, 0, n, IsWordLetter) by {
      assert forall k | 0 <= k < n :: IsTokenChar(t[k]) && IsWordLetter(t[k]);
    }
    assert t[0..] == t;
    assert n > 0 || t == "";
  }

  lemma ParseRestExactly(id: string, s: string)
    requires NUL !in s && id != "" && |id| < 64
    ensures ParseRest(id, s) == StateOfWords([id] + Words(s))
  {
    hide Token;
    var s1, s2, s3 := Token(s, 16).1, Token(Token(s, 16).1, 32).1, Token(Token(Token(s, 16).1, 32).1, 128).1;
    var ws := Words(s);
    WordsStep(s, 16);
    WordsStep(s1, 32);
    WordsStep(s2, 128);
    WordsStep(s3, 0);
    assert |ws| > 1 ==> Words(s1)[0] == ws[1];
    assert |ws| > 2 ==> Words(s2)[0] == ws[2];
  }

  lemma ParseStateExactly(s: string)
    requires NUL !in s
    ensures ParseState(s) == StateOfWords(Words(s))
  {
    WordsStep(s, 64);
    if Token(s, 64).0.Some? {
      ParseRestExactly(Token(s, 64).0.value, Token(s, 64).1);
      assert Words(s) == [Words(s)[0]] + Words(s)[1..];
    }
  }

  /** A text laid out as words with blanks around them; `gaps[k]` precedes word k and the
      last gap follows the last word. */
  function Spaced(gaps: seq<string>, ws: seq<string>): string
    requires |gaps| == |ws| + 1
    decreases |ws|
  {
    if ws == [] then gaps[0] else gaps[0] + (ws[0] + Spaced(gaps[1..], ws[1..]))
  }

  /** A layout: blanks in the gaps, at least one between two words, no blank in a word. */
  predicate Layout(gaps: seq<string>, ws: seq<string>)
    decreases |ws|
  {
    |gaps| == |ws| + 1 && All(gaps[0], IsBlank) &&
    (ws != [] ==>
       ws[0] != "" && All(ws[0], IsWordLetter) && (|ws| > 1 ==> gaps[1] != "") && Layout(gaps[1..], ws[1..]))
  }

  lemma FirstWord(gap: string, word: string, rest: string)
    requires All(gap, IsBlank)
    requires word != "" && All(word, IsWordLetter)
    requires rest == "" || IsBlank(rest[0])
    ensures Words(gap + (word + rest)) == [word] + Words(rest)
  {
    var t := word + rest;
    assert t[0] == word[0] && IsWordLetter(word[0]);
    SkipBlanks(gap, t);
    SpanLenOf(word, rest, IsWordLetter);
    assert t[..|word|] == word && t[|word|..] == rest;
  }

  lemma NoWords(gap: string)
    requires All(gap, IsBlank)
    ensures Words(gap) == []
  {
    SkipBlanks(gap, "");
    assert gap + "" == gap;
  }

  /** Spacing is irrelevant: every layout of the same words has those words. */
  lemma {:induction false} WordsOfLayout(gaps: seq<string>, ws: seq<string>)
    requires Layout(gaps, ws)
    ensures Words(Spaced(gaps, ws)) == ws
    decreases |ws|
  {
    hide Words;
    if ws == [] {
      NoWords(gaps[0]);
    } else {
      var rest := Spaced(gaps[1..], ws[1..]);
      WordsOfLayout(gaps[1..], ws[1..]);
      FirstWord(gaps[0], ws[0], rest);
    }
  }

  // ---------------------------------------------------------------- line breaks

  predicate LineFree(s: string) { All(s, IsLineChar) }

  lemma LineFreeConcat(a: string, b: string)
    ensures LineFree(a + b) <==> LineFree(a) && LineFree(b)
  {
    if LineFree(a + b) {
      forall k | 0 <= k < |a| ensures IsLineChar(a[k]) { assert a[k] == (a + b)[k]; }
      forall k | 0 <= k < |b| ensures IsLineChar(b[k]) { assert b[k] == (a + b)[|a| + k]; }
    }
  }

  lemma TokenLineFree(s: string, size: nat)
    requires Token(s, size).0.Some?
    ensures LineFree(s) <==> LineFree(Token(s, size).0.value) && LineFree(Token(s, size).1)
    ensures NUL !in s ==> NUL !in Token(s, size).1
  {
    var t := Token(s, size);
    var gap := TokenSplits(s, size);
    LineFreeConcat(gap, t.0.value + t.1);
    LineFreeConcat(t.0.value, t.1);
    assert LineFree(gap) by {
      forall k | 0 <= k < |gap| ensures IsLineChar(gap[k]) { assert IsBlank(gap[k]); }
    }
  }

  lemma DigitsAreLineFree(s: string)
    requires All(s, IsDigit)
    ensures LineFree(s)
  {
    forall k | 0 <= k < |s| ensures IsLineChar(s[k]) { assert IsDigit(s[k]); }
  }

  lemma AtEndIsLineFree(s: string)
    requires NUL !in s && AtEnd(s)
    ensures LineFree(s)
  {
    forall k | 0 <= k < |s| ensures IsLineChar(s[k]) { assert IsBlank(s[k]); }
  }

  lemma BreaksInRest(id: string, s: string)
    requires NUL !in s && ParseRest(id, s).Some?
    ensures var m := ParseRest(id, s).value;
      LineFree(s) <==> LineFree(m.backend) && LineFree(m.modelHash)
  {
    hide Token, LineFree;
    var s1, s2, s3 := Token(s, 16).1, Token(Token(s, 16).1, 32).1, Token(Token(Token(s, 16).1, 32).1, 128).1;
    TokenLineFree(s, 16);
    TokenLineFree(s1, 32);
    TokenLineFree(s2, 128);
    DigitsAreLineFree(Token(s, 16).0.value);
    AtEndIsLineFree(s3);
  }

  /** A line break in an accepted record always ends up inside a field. */
  lemma BreaksEndUpInFields(s: string)
    requires NUL !in s && ParseState(s).Some?
    ensures var m := ParseState(s).value;
      LineFree(s) <==> LineFree(m.artifactId) && LineFree(m.backend) && LineFree(m.modelHash)
  {
    hide Token, LineFree;
    TokenLineFree(s, 64);
    BreaksInRest(Token(s, 64).0.value, Token(s, 64).1);
  }

  /** Four tokens and three blanks: no record is shorter than seven characters. */
  lemma RecordsHaveSevenCharacters(s: string)
    requires ParseState(s).Some?
    ensures |s| >= 7
  {
    var s1 := Token(s, 64).1;
    var s2 := Token(s1, 16).1;
    var s3 := Token(s2, 32).1;
    TokenTakesTwo(s1, 16, s, 64);
    TokenTakesTwo(s2, 32, s1, 16);
    TokenTakesTwo(s3, 128, s2, 32);
    var gap := TokenSplits(s, 64);
  }

  lemma TokenTakesTwo(s: string, size: nat, before: string, sizeBefore: nat)
    requires Token(before, sizeBefore).0.Some? && s == Token(before, sizeBefore).1
    requires Token(s, size).0.Some?
    ensures |Token(s, size).1| + 2 <= |s|
  {
    var gap := TokenSplits(before, sizeBefore);
    var gap' := TokenSplits(s, size);
    var t := Token(s, size).0.value;
    assert s[0] == (gap' + t)[0] && IsTokenChar(t[0]);
  }
}
