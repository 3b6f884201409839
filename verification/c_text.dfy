/** The pieces of the C library the repository's text formats rest on: NUL-terminated
    strings in fixed buffers, spans of characters, decimal integers, and the
    conversions of sscanf (sections 7.21.6.2 and 7.21.6.7 of ISO C11). */
module CText {

  const NUL := '\0'

  datatype Option<+T> = None | Some(value: T)

  predicate NotNul(c: char) { c != NUL }

  /** White space as sscanf's directives see it: space and the codes 9 to 13. */
  predicate IsSpace(c: char) { c == ' ' || '\t' <= c <= '\r' }

  /** A character `%s` stores: the scan also stops at the terminator. */
  predicate IsWordChar(c: char) { !IsSpace(c) && c != NUL }

  predicate IsDigit(c: char) { '0' <= c <= '9' }

  predicate All(s: string, p: char -> bool) { forall k | 0 <= k < |s| :: p(s[k]) }

  /** How far a scanning loop `while (p(*s)) s++` moves. */
  function SpanLen(s: string, p: char -> bool): (n: nat)
    ensures n <= |s|
    ensures forall k | 0 <= k < n :: p(s[k])
    ensures n < |s| ==> !p(s[n])
  {
    if s == "" || !p(s[0]) then 0 else 1 + SpanLen(s[1..], p)
  }

  /** The scanning loop stops exactly at the end of the first part. */
  lemma SpanLenOf(a: string, b: string, p: char -> bool)
    requires All(a, p)
    requires b == "" || !p(b[0])
    ensures SpanLen(a + b, p) == |a|
  {
    var s := a + b;
    assert forall k | 0 <= k < |a| :: s[k] == a[k] && p(s[k]);
    assert b != "" ==> s[|a|] == b[0];
  }

  /** A cursor that advanced from `i` to `j` over characters in `p` and stopped
      has moved by the span. */
  lemma SpanLenAt(s: string, i: nat, j: nat, p: char -> bool)
    requires i <= j <= |s|
    requires forall k | i <= k < j :: p(s[k])
    requires j < |s| ==> !p(s[j])
    ensures SpanLen(s[i..], p) == j - i
  {
    assert s[i..] == s[i..j] + s[j..];
    SpanLenOf(s[i..j], s[j..], p);
  }

  lemma Slices(s: string, i: nat, j: nat)
    requires i <= j <= |s|
    ensures s[i..][j - i..] == s[j..] && s[i..][..j - i] == s[i..j]
  {
  }

  /** The C string held in a buffer: what precedes the first NUL. */
  function CStr(s: string): (r: string)
    ensures NUL !in r && |r| <= |s|
  {
    s[..SpanLen(s, NotNul)]
  }

  /** Copying a NUL-free text into a buffer and terminating it stores that text. */
  lemma CStrOf(a: string, rest: string)
    requires NUL !in a
    ensures CStr(a + [NUL] + rest) == a
    ensures CStr(a) == a
  {
    assert All(a, NotNul);
    assert a + [NUL] + rest == a + ([NUL] + rest);
    SpanLenOf(a, [NUL] + rest, NotNul);
    SpanLenOf(a, "", NotNul);
    assert a + "" == a;
  }

  function SkipSpace(s: string): (t: string)
    ensures t == "" || !IsSpace(t[0])
    ensures |t| <= |s|
  {
    s[SpanLen(s, IsSpace)..]
  }

  /** A character of one line of text. */
  predicate IsPlain(c: char) { c != '\n' && c != NUL }

  lemma WordsArePlain(s: string)
    requires All(s, IsWordChar)
    ensures All(s, IsPlain)
  {
    forall k | 0 <= k < |s| ensures IsPlain(s[k]) { assert IsWordChar(s[k]); }
  }

  lemma PlainConcat(a: string, b: string)
    requires All(a, IsPlain) && All(b, IsPlain)
    ensures All(a + b, IsPlain)
  {
  }

  predicate IsBreak(c: char) { c == '\n' || c == '\r' }

  predicate IsLineChar(c: char) { !IsBreak(c) }

  /** `trim_newline`: without the line breaks at the end. */
  function Trim(s: string): string {
    if s != "" && IsBreak(s[|s| - 1]) then Trim(s[..|s| - 1]) else s
  }

  lemma {:induction false} TrimIs(s: string, n: nat)
    requires n <= |s| && (forall k | n <= k < |s| :: IsBreak(s[k])) && (n > 0 ==> !IsBreak(s[n - 1]))
    ensures Trim(s) == s[..n]
    decreases |s|
  {
    if n < |s| {
      var t := s[..|s| - 1];
      assert forall k | n <= k < |t| :: t[k] == s[k];
      TrimIs(t, n);
      assert t[..n] == s[..n];
    } else {
      assert s[..n] == s;
    }
  }

  function Min(a: nat, b: nat): nat { if a <= b then a else b }

  // ---------------------------------------------------------------- decimals

  const INT_MAX := 0x7fff_ffff

  /** Storing a value in a 32-bit two's complement `int`. */
  function Wrap32(v: int): (r: int)
    ensures -0x8000_0000 <= r <= INT_MAX
    ensures r == v <==> -0x8000_0000 <= v <= INT_MAX
  {
    (v + 0x8000_0000) % 0x1_0000_0000 - 0x8000_0000
  }

  const LONG_MAX := 0x7fff_ffff_ffff_ffff

  /** The same for a 64-bit `long`. */
  function Wrap64(v: int): (r: int)
    ensures -0x8000_0000_0000_0000 <= r <= LONG_MAX
    ensures r == v <==> -0x8000_0000_0000_0000 <= v <= LONG_MAX
  {
    (v + 0x8000_0000_0000_0000) % 0x1_0000_0000_0000_0000 - 0x8000_0000_0000_0000
  }

  function DigitValue(c: char): nat
    requires IsDigit(c)
  {
    c as int - '0' as int
  }

  function DigitChar(d: nat): (c: char)
    requires d < 10
    ensures IsDigit(c) && DigitValue(c) == d
  {
    ('0' as int + d) as char
  }

  /** The number a digit string denotes. */
  function Value(s: string): nat
    requires All(s, IsDigit)
  {
    if s == "" then 0 else Value(s[..|s| - 1]) * 10 + DigitValue(s[|s| - 1])
  }

  function PrintNat(n: nat): (s: string)
    ensures s != "" && All(s, IsDigit)
  {
    if n < 10 then [DigitChar(n)] else PrintNat(n / 10) + [DigitChar(n % 10)]
  }

  /** `%d` and `%ld` on output. */
  function PrintInt(v: int): (s: string)
    ensures s != "" && All(s, IsWordChar)
  {
    if v < 0 then "-" + PrintNat(-v) else PrintNat(v)
  }

  lemma {:induction false} PrintNatValue(n: nat)
    ensures Value(PrintNat(n)) == n
  {
    if n >= 10 {
      PrintNatValue(n / 10);
      var s := PrintNat(n);
      assert s[..|s| - 1] == PrintNat(n / 10);
    }
  }

  function Pow10(k: nat): (r: nat)
    ensures r >= 1
  {
    if k == 0 then 1 else 10 * Pow10(k - 1)
  }

  /** `%d` needs no more digits than the bound on the number has. */
  lemma {:induction false} PrintNatLength(n: nat, k: nat)
    requires k >= 1 && n < Pow10(k)
    ensures |PrintNat(n)| <= k
  {
    if n >= 10 {
      assert Pow10(k) == 10 * Pow10(k - 1);
      assert Pow10(1) == 10;
      PrintNatLength(n / 10, k - 1);
    }
  }

  /** ... and no fewer. */
  lemma {:induction false} PrintNatIsLong(n: nat, k: nat)
    requires k >= 1 && n >= Pow10(k - 1)
    ensures |PrintNat(n)| >= k
  {
    if k > 1 {
      assert Pow10(k - 1) == 10 * Pow10(k - 2);
      PrintNatIsLong(n / 10, k - 1);
    }
  }

  lemma IntDigits()
    ensures Pow10(10) == 10_000_000_000
  {
    assert Pow10(2) == 100;
    assert Pow10(4) == 10_000;
    assert Pow10(6) == 1_000_000;
    assert Pow10(8) == 100_000_000;
  }

  // ------------------------------------------------------------------ sscanf

  /** A conversion: `%<width>s`, `%d` or `%ld`. All skip leading white space, so the
      white-space directives the formats put in front of them match nothing more. */
  datatype Kind = Word(width: nat) | Int | Long

  datatype Field = Text(text: string) | Number(value: int)

  predicate IsSign(c: char) { c == '-' || c == '+' }

  /** A number that a variable of the conversion's type holds. */
  predicate InRange(kind: Kind, v: int) {
    if kind.Long? then -0x8000_0000_0000_0000 <= v <= LONG_MAX else -0x8000_0000 <= v <= INT_MAX
  }

  /** The length of the integer that `%d` consumes, 0 if there is none. */
  function IntLen(s: string): (n: nat)
    ensures n <= |s|
  {
    var sign := if s != "" && IsSign(s[0]) then 1 else 0;
    var digits := SpanLen(s[sign..], IsDigit);
    if digits == 0 then 0 else sign + digits
  }

  /** The integer written down. */
  function Written(s: string): int
    requires 0 < IntLen(s) == |s|
  {
    if s[0] == '-' then -(Value(s[1..]) as int)
    else if s[0] == '+' then Value(s[1..])
    else Value(s)
  }

  /** The value the conversion stores for it. */
  function IntValue(s: string, kind: Kind): int
    requires 0 < IntLen(s) == |s|
  {
    if kind.Long? then Wrap64(Written(s)) else Wrap32(Written(s))
  }

  /** The fields sscanf assigns; it returns their number. */
  function Scan(s: string, kinds: seq<Kind>): (fields: seq<Field>)
    ensures |fields| <= |kinds|
  {
    if kinds == [] then []
    else
      var t := SkipSpace(s);
      match kinds[0]
      case Word(width) =>
        var n := Min(width, SpanLen(t, IsWordChar));
        if n == 0 then [] else [Text(t[..n])] + Scan(t[n..], kinds[1..])
      case _ =>
        var n := IntLen(t);
        if n == 0 then []
        else
          IntLenPrefix(t);
          [Number(IntValue(t[..n], kinds[0]))] + Scan(t[n..], kinds[1..])
  }

  /** Cutting the consumed integer out leaves a text that is all integer. */
  lemma IntLenPrefix(s: string)
    requires IntLen(s) > 0
    ensures IntLen(s[..IntLen(s)]) == IntLen(s)
  {
    var n := IntLen(s);
    var sign := if IsSign(s[0]) then 1 else 0;
    var digits := s[sign..n];
    assert s[..n][sign..] == digits;
    assert All(digits, IsDigit);
    SpanLenOf(digits, "", IsDigit);
    assert digits + "" == digits;
  }

  /** What printing a field with `%s` or `%d` writes. */
  function PrintField(f: Field): string
  {
    match f
    case Text(s) => s
    case Number(v) => PrintInt(v)
  }

  /** `"%s %d ..."`: the fields with one space between two of them. */
  function PrintFields(fs: seq<Field>): string
  {
    if fs == [] then ""
    else if |fs| == 1 then PrintField(fs[0])
    else PrintField(fs[0]) + (" " + PrintFields(fs[1..]))
  }

  /** What one conversion can carry: a word without white space, not empty and
      within the width, or a number that fits an `int`. */
  predicate CarriesOne(kind: Kind, f: Field)
  {
    match f
    case Text(s) => kind.Word? && 0 < |s| <= kind.width && All(s, IsWordChar)
    case Number(v) => !kind.Word? && InRange(kind, v)
  }

  predicate Carries(kinds: seq<Kind>, fs: seq<Field>)
  {
    |kinds| == |fs| && forall k | 0 <= k < |fs| :: CarriesOne(kinds[k], fs[k])
  }

  /** `%d` stops right behind the digits it printed, and stores their value. */
  lemma ScanPrintedInt(v: int, kind: Kind, rest: string)
    requires InRange(kind, v)
    requires rest == "" || !IsDigit(rest[0])
    ensures IntLen(PrintInt(v) + rest) == |PrintInt(v)|
    ensures IntLen(PrintInt(v)) == |PrintInt(v)|
    ensures IntValue(PrintInt(v), kind) == v
  {
    hide IntLen, PrintInt, Written;
    ScanPrintedLen(v, rest);
    ScanPrintedLen(v, "");
    assert PrintInt(v) + "" == PrintInt(v);
    PrintedIsWritten(v);
  }

  lemma PrintedIsWritten(v: int)
    requires IntLen(PrintInt(v)) == |PrintInt(v)|
    ensures Written(PrintInt(v)) == v
  {
    hide IntLen;
    var digits := PrintNat(if v < 0 then -v else v);
    PrintNatValue(if v < 0 then -v else v);
    if v < 0 {
      assert PrintInt(v)[1..] == digits;
    } else {
      assert IsDigit(digits[0]);
    }
  }

  lemma ScanPrintedLen(v: int, rest: string)
    requires rest == "" || !IsDigit(rest[0])
    ensures IntLen(PrintInt(v) + rest) == |PrintInt(v)|
  {
    hide IntLen, PrintNat;
    var digits := PrintNat(if v < 0 then -v else v);
    if v < 0 {
      MinusFirst(digits, rest);
      SignedLen(digits, rest);
    } else {
      UnsignedLen(digits, rest);
    }
  }

  lemma MinusFirst(digits: string, rest: string)
    ensures "-" + digits + rest == "-" + (digits + rest)
  {
  }

  lemma SignedLen(digits: string, rest: string)
    requires digits != "" && All(digits, IsDigit)
    requires rest == "" || !IsDigit(rest[0])
    ensures IntLen("-" + (digits + rest)) == 1 + |digits|
  {
    var s := "-" + (digits + rest);
    assert s[1..] == digits + rest;
    SpanLenOf(digits, rest, IsDigit);
  }

  lemma UnsignedLen(digits: string, rest: string)
    requires digits != "" && All(digits, IsDigit)
    requires rest == "" || !IsDigit(rest[0])
    ensures IntLen(digits + rest) == |digits|
  {
    var s := digits + rest;
    assert s[0] == digits[0] && IsDigit(digits[0]);
    assert s[0..] == s;
    SpanLenOf(digits, rest, IsDigit);
  }

  /** A plus sign is read over: a number may be written with it, and has the same value. */
  lemma PlusIsRead(n: nat, kind: Kind, rest: string)
    requires InRange(kind, n) && (rest == "" || !IsDigit(rest[0]))
    ensures IntLen("+" + (PrintNat(n) + rest)) == 1 + |PrintNat(n)|
    ensures IntLen("+" + PrintNat(n)) == 1 + |PrintNat(n)| && IntValue("+" + PrintNat(n), kind) == n
  {
    hide PrintNat;
    var digits := PrintNat(n);
    PrintNatValue(n);
    PlusLen(digits, rest);
    PlusLen(digits, "");
    assert digits + "" == digits && ("+" + digits)[1..] == digits;
  }

  lemma PlusLen(digits: string, rest: string)
    requires digits != "" && All(digits, IsDigit)
    requires rest == "" || !IsDigit(rest[0])
    ensures IntLen("+" + (digits + rest)) == 1 + |digits|
  {
    var s := "+" + (digits + rest);
    assert s[1..] == digits + rest;
    SpanLenOf(digits, rest, IsDigit);
  }

  lemma SkipSpaceOf(lead: string, rest: string)
    requires All(lead, IsSpace)
    requires rest == "" || !IsSpace(rest[0])
    ensures SkipSpace(lead + rest) == rest
  {
    SpanLenOf(lead, rest, IsSpace);
  }

  /** One conversion reads back one printed field and stops right after it. */
  lemma ScanStep(s: string, kinds: seq<Kind>, f: Field, lead: string, rest: string)
    requires kinds != [] && CarriesOne(kinds[0], f)
    requires All(lead, IsSpace)
    requires rest == "" || IsSpace(rest[0])
    requires s == lead + (PrintField(f) + rest)
    ensures Scan(s, kinds) == [f] + Scan(rest, kinds[1..])
  {
    var word := PrintField(f);
    var t := word + rest;
    SkipSpaceOf(lead, t);
    SpanLenOf(word, rest, IsWordChar);
    if f.Number? {
      ScanPrintedInt(f.value, kinds[0], rest);
    }
    assert t[..|word|] == word && t[|word|..] == rest;
  }

  lemma Regroup(a: string, b: string, c: string, d: string)
    ensures a + (b + c) + d == a + (b + (c + d))
  {
    assert (b + c) + d == b + (c + d);
    assert a + ((b + c) + d) == (a + (b + c)) + d;
  }

  lemma PrintFieldsCons(fs: seq<Field>, lead: string, tail: string)
    requires |fs| > 1
    ensures lead + PrintFields(fs) + tail
         == lead + (PrintField(fs[0]) + (" " + PrintFields(fs[1..]) + tail))
  {
    var a, b, c := PrintField(fs[0]), " ", PrintFields(fs[1..]);
    Regroup(lead, a, b + c, tail);
  }

  /** Round trip: sscanf inverts the printer on every field list it can carry,
      whatever white space precedes the text and whatever follows a white-space
      character after it. */
  lemma {:induction false} ScanPrinted(kinds: seq<Kind>, fs: seq<Field>, lead: string, tail: string)
    requires Carries(kinds, fs)
    requires All(lead, IsSpace)
    requires tail == "" || IsSpace(tail[0])
    ensures Scan(lead + PrintFields(fs) + tail, kinds) == fs
    decreases |fs|
  {
    var s := lead + PrintFields(fs) + tail;
    if fs == [] {
    } else if |fs| == 1 {
      assert s == lead + (PrintField(fs[0]) + tail);
      ScanStep(s, kinds, fs[0], lead, tail);
    } else {
      var rest := " " + PrintFields(fs[1..]) + tail;
      PrintFieldsCons(fs, lead, tail);
      ScanStep(s, kinds, fs[0], lead, rest);
      ScanPrinted(kinds[1..], fs[1..], " ", tail);
    }
  }

  /** Conversely, whatever text is scanned, the fields of a complete match are
      ones the conversions carry. */
  lemma {:induction false} ScannedFieldsCarry(s: string, kinds: seq<Kind>)
    requires |Scan(s, kinds)| == |kinds|
    ensures Carries(kinds, Scan(s, kinds))
    decreases |kinds|
  {
    if kinds != [] {
      var t := SkipSpace(s);
      var n := if kinds[0].Word? then Min(kinds[0].width, SpanLen(t, IsWordChar)) else IntLen(t);
      ScannedFieldsCarry(t[n..], kinds[1..]);
      var fs := Scan(s, kinds);
      assert fs[1..] == Scan(t[n..], kinds[1..]);
      assert CarriesOne(kinds[0], fs[0]);
      forall k | 0 < k < |fs| ensures CarriesOne(kinds[k], fs[k]) {
        assert fs[1..][k - 1] == fs[k] && kinds[1..][k - 1] == kinds[k];
        assert CarriesOne(kinds[1..][k - 1], fs[1..][k - 1]);
      }
    }
  }

  /** What is left of a message behind its command word. */
  lemma MessageTail(command: string, text: string)
    ensures (command + " " + text + "\n")[|command|..] == " " + text + "\n"
    ensures command <= command + " " + text + "\n"
  {
    assert command + " " + text + "\n" == command + (" " + text + "\n");
  }
}
