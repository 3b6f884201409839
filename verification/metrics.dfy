/** Metric lines: printed field by field by the workload, scraped with strstr by the optimizer. */
module Metrics {
  import opened CText
  import opened StateFile

  // ---------------------------------------------------------------- printing

  /** One `tear_metric_long` call. */
  datatype Metric = Metric(
    tsMs: int, component: string, profileId: string, artifactId: string, backend: string, name: string, value: int)

  datatype Pair = Pair(key: string, text: string)

  /** `" %s=%s"` for every field. */
  function PrintPairs(ps: seq<Pair>): string {
    if ps == [] then "" else " " + ps[0].key + ("=" + (ps[0].text + PrintPairs(ps[1..])))
  }

  /** The fields in the order they are printed; an empty backend is left out. */
  function Pairs(e: Metric): seq<Pair> {
    [Pair("ts_ms", PrintInt(e.tsMs)), Pair("component", e.component), Pair("profile_id", e.profileId),
     Pair("artifact_id", e.artifactId)]
    + (if e.backend == "" then [] else [Pair("backend", e.backend)])
    + [Pair("name", e.name), Pair("value", PrintInt(e.value))]
  }

  /** `tear_metric_long` with `write_profile_fields`. */
  function MetricLine(e: Metric): string { "TEAR_METRIC" + PrintPairs(Pairs(e)) + "\n" }

  predicate IsValueChar(c: char) { c != '=' && c != '\n' && c != NUL }

  /** What a caller of `tear_metric_long` gives it: one line of text and numbers in the range of `long`. */
  predicate TextSafe(e: Metric) {
    All(e.component, IsPlain) && All(e.profileId, IsPlain) && All(e.artifactId, IsPlain) && All(e.backend, IsPlain) &&
    All(e.name, IsPlain) && InRange(Long, e.tsMs) && InRange(Long, e.value)
  }

  /** ... and without a `=` in the texts. */
  predicate FieldsSafe(e: Metric) {
    All(e.component, IsValueChar) && All(e.profileId, IsValueChar) && All(e.artifactId, IsValueChar) &&
    All(e.backend, IsValueChar) && All(e.name, IsValueChar) && InRange(Long, e.tsMs) && InRange(Long, e.value)
  }

  // ---------------------------------------------------------------- scraping

  /** `strstr`: where the pattern occurs first. */
  function StrStr(s: string, pat: string): (r: Option<nat>)
    ensures r.Some? ==> r.value + |pat| <= |s|
  {
    if pat <= s then Some(0)
    else if s == "" then None
    else match StrStr(s[1..], pat) case None => None case Some(i) => Some(i + 1)
  }

  /** `parse_metric_line` */
  function ParseMetric(line: string, wanted: string): Option<int> {
    var record, name, value := StrStr(line, "TEAR_METRIC"), StrStr(line, "name="), StrStr(line, "value=");
    if record.None? || name.None? || value.None? then None
    else if !(wanted <= line[name.value + 5..]) then None
    else
      var fields := Scan(line[value.value + 6..], [Long]);
      if |fields| == 1 && fields[0].Number? then Some(fields[0].value) else None
  }

  predicate EndsWith(s: string, w: string) { |w| <= |s| && s[|s| - |w|..] == w }

  predicate NotEqSign(c: char) { c != '=' }

  predicate EqFree(s: string) { All(s, NotEqSign) }

  lemma NoEarlyMatch(a: string, b: string, w: string)
    requires EqFree(a) && EqFree(w) && w + "=" <= a + ("=" + b)
    ensures a == w
  {
    var s, pat := a + ("=" + b), w + "=";
    var rest := s[|pat|..];
    assert s == pat + rest && pat + rest == w + ("=" + rest);
    SpanLenOf(a, "=" + b, NotEqSign);
    SpanLenOf(w, "=" + rest, NotEqSign);
    assert s[..|w|] == w && s[..|a|] == a;
  }

  /** Searching for `w=` only ever stops at an `=` sign: at the first one if the text in front of it
      ends with `w`, otherwise behind it. */
  lemma {:induction false} StrStrSplits(a: string, b: string, w: string)
    requires EqFree(a) && EqFree(w)
    ensures StrStr(a + ("=" + b), w + "=")
         == if EndsWith(a, w) then Some(|a| - |w|)
            else match StrStr(b, w + "=") case None => None case Some(i) => Some(|a| + 1 + i)
    decreases |a|
  {
    var s, pat := a + ("=" + b), w + "=";
    if pat <= s {
      NoEarlyMatch(a, b, w);
      assert a[0..] == w;
    } else {
      assert a == w ==> s == pat + b;
      assert a != w;
      if a == "" {
        assert s[1..] == b;
      } else {
        assert s[1..] == a[1..] + ("=" + b);
        StrStrSplits(a[1..], b, w);
        assert |w| < |a| ==> a[1..][|a| - 1 - |w|..] == a[|a| - |w|..];
        assert |w| == |a| ==> a[0..] == a;
      }
    }
  }

  // ------------------------------------------------------- finding a field

  predicate PlainPairs(ps: seq<Pair>) {
    forall k | 0 <= k < |ps| :: EqFree(ps[k].key) && EqFree(ps[k].text)
  }

  /** The text from inside a field on. */
  function From(text: string, ps: seq<Pair>): string { text + PrintPairs(ps) + "\n" }

  lemma FromSplits(text: string, ps: seq<Pair>)
    requires ps != []
    ensures From(text, ps) == (text + " " + ps[0].key) + ("=" + From(ps[0].text, ps[1..]))
  {
    SplitAtSign(text, ps[0].key, ps[0].text, PrintPairs(ps[1..]));
  }

  lemma SplitAtSign(text: string, k: string, v: string, more: string)
    ensures text + (" " + k + ("=" + (v + more))) + "\n" == (text + " " + k) + ("=" + (v + more + "\n"))
  {
    var value := "=" + (v + more);
    assert value + "\n" == "=" + (v + more + "\n");
    assert text + (" " + k + value) + "\n" == (text + " " + k) + (value + "\n");
  }

  lemma EndsInKey(text: string, key: string, w: string)
    requires ' ' !in w
    ensures EndsWith(text + " " + key, w) <==> EndsWith(key, w)
  {
    var s := text + " " + key;
    if |w| <= |key| {
      assert s[|s| - |w|..] == key[|key| - |w|..];
    } else if |w| <= |s| {
      assert s[|s| - |w|..][|w| - |key| - 1] == s[|s| - |key| - 1] == ' ';
    }
  }

  /** strstr finds `w=` at the first field whose key ends with `w`, whatever the values are. */
  lemma {:induction false} FindField(text: string, ps: seq<Pair>, w: string, j: nat)
    requires EqFree(text) && PlainPairs(ps) && EqFree(w) && ' ' !in w
    requires j < |ps| && EndsWith(ps[j].key, w)
    requires forall k | 0 <= k < j :: !EndsWith(ps[k].key, w)
    ensures var r := StrStr(From(text, ps), w + "=");
      r.Some? && From(text, ps)[r.value + |w| + 1..] == From(ps[j].text, ps[j + 1..])
    decreases |ps|
  {
    hide From, EndsWith, StrStr;
    var a, b := text + " " + ps[0].key, From(ps[0].text, ps[1..]);
    FromSplits(text, ps);
    EndsInKey(text, ps[0].key, w);
    StrStrSplits(a, b, w);
    if j == 0 {
      EndsWithin(a, w);
      assert (a + ("=" + b))[|a| + 1..] == b;
    } else {
      assert forall k | 0 <= k < |ps| - 1 :: ps[1..][k] == ps[k + 1];
      FindField(ps[0].text, ps[1..], w, j - 1);
      assert ps[1..][j..] == ps[j + 1..];
      var i := StrStr(b, w + "=").value;
      Behind(a, b, i + |w| + 1);
    }
  }

  lemma EndsWithin(a: string, w: string)
    requires EndsWith(a, w)
    ensures |w| <= |a|
  {
  }

  lemma Behind(a: string, b: string, n: nat)
    requires n <= |b|
    ensures (a + ("=" + b))[|a| + 1 + n..] == b[n..]
  {
  }

  // ------------------------------------------------------------ one line

  lemma ValueIsPlain(s: string)
    requires All(s, IsValueChar)
    ensures EqFree(s)
  {
    forall k | 0 <= k < |s| ensures NotEqSign(s[k]) { assert IsValueChar(s[k]); }
  }

  lemma NumberIsPlain(v: int)
    ensures EqFree(PrintInt(v)) && All(PrintInt(v), IsValueChar)
  {
    var s := PrintInt(v);
    var digits := PrintNat(if v < 0 then -v else v);
    forall k | 0 <= k < |s| ensures NotEqSign(s[k]) && IsValueChar(s[k]) {
      assert s[k] == '-' || IsDigit(s[k]);
    }
  }

  /** The index of `name` among the fields. */
  function NameAt(e: Metric): nat { if e.backend == "" then 4 else 5 }

  lemma PairsShape(e: Metric)
    ensures var ps, j := Pairs(e), NameAt(e);
      && |ps| == j + 2 && ps[j] == Pair("name", e.name) && ps[j + 1] == Pair("value", PrintInt(e.value))
      && forall k | 0 <= k < j :: ps[k].key in {"ts_ms", "component", "profile_id", "artifact_id", "backend"}
  {
  }

  lemma PairsArePlain(e: Metric)
    requires FieldsSafe(e)
    ensures PlainPairs(Pairs(e))
  {
    hide PrintInt, MetricLine;
    ValueIsPlain(e.component);
    ValueIsPlain(e.profileId);
    ValueIsPlain(e.artifactId);
    ValueIsPlain(e.backend);
    ValueIsPlain(e.name);
    NumberIsPlain(e.tsMs);
    NumberIsPlain(e.value);
    KeysArePlain();
  }

  lemma KeysArePlain()
    ensures EqFree("ts_ms") && EqFree("component") && EqFree("profile_id") && EqFree("artifact_id")
    ensures EqFree("backend") && EqFree("name") && EqFree("value")
  {
  }

  lemma OnlyNameEndsWithName()
    ensures forall k | k in {"ts_ms", "component", "profile_id", "artifact_id", "backend"} ::
      !EndsWith(k, "name") && !EndsWith(k, "value")
    ensures EndsWith("name", "name") && EndsWith("value", "value") && !EndsWith("name", "value")
  {
    assert "ts_ms"[1..] == "s_ms" && "ts_ms"[0..] == "ts_ms";
    assert "component"[5..] == "nent" && "component"[4..] == "onent";
    assert "profile_id"[6..] == "e_id" && "profile_id"[5..] == "le_id";
    assert "artifact_id"[7..] == "t_id" && "artifact_id"[6..] == "ct_id";
    assert "backend"[3..] == "kend" && "backend"[2..] == "ckend";
    assert "name"[0..] == "name" && "value"[0..] == "value";
  }

  /** A wanted metric: a word without blanks and `=`. */
  predicate Wanted(w: string) { EqFree(w) && ' ' !in w }

  lemma PrefixOfName(w: string, name: string, rest: string)
    requires ' ' !in w
    ensures w <= name + (" " + rest) <==> w <= name
  {
    var s := name + (" " + rest);
    assert s[|name|] == ' ' && (w <= s ==> w == s[..|w|]);
    assert s[..|name|] == name;
    if |w| <= |name| {
      assert s[..|w|] == name[..|w|];
    }
  }

  lemma LineIsFrom(e: Metric)
    ensures MetricLine(e) == From("TEAR_METRIC", Pairs(e))
    ensures StrStr(MetricLine(e), "TEAR_METRIC").Some?
  {
    hide Pairs, PrintPairs;
    assert MetricLine(e) == "TEAR_METRIC" + (PrintPairs(Pairs(e)) + "\n");
    StartsWithHeader(MetricLine(e), PrintPairs(Pairs(e)) + "\n");
  }

  lemma NameFound(e: Metric)
    requires FieldsSafe(e)
    ensures var r := StrStr(MetricLine(e), "name=");
      r.Some? && MetricLine(e)[r.value + 5..] == From(e.name, [Pair("value", PrintInt(e.value))])
  {
    hide StrStr, EndsWith, PlainPairs, PrintInt, Pairs, EqFree, MetricLine, From;
    var ps, j := Pairs(e), NameAt(e);
    PairsShape(e);
    PairsArePlain(e);
    KeysArePlain();
    HeaderIsPlain();
    OnlyNameEndsWithName();
    LineIsFrom(e);
    FindField("TEAR_METRIC", ps, "name", j);
    assert "name" + "=" == "name=";
    assert ps[j + 1..] == [ps[j + 1]];
  }

  lemma ValueFound(e: Metric)
    requires FieldsSafe(e)
    ensures var r := StrStr(MetricLine(e), "value=");
      r.Some? && MetricLine(e)[r.value + 6..] == From(PrintInt(e.value), [])
  {
    hide StrStr, EndsWith, PlainPairs, PrintInt, Pairs, EqFree, MetricLine, From;
    var ps, j := Pairs(e), NameAt(e);
    PairsShape(e);
    PairsArePlain(e);
    KeysArePlain();
    HeaderIsPlain();
    OnlyNameEndsWithName();
    LineIsFrom(e);
    FindField("TEAR_METRIC", ps, "value", j + 1);
    assert "value" + "=" == "value=";
    assert ps[j + 2..] == [];
  }

  /** What the reader's 256-byte buffer holds of a printed line. */
  function FirstPiece(e: Metric): string { MetricLine(e)[..Min(|MetricLine(e)|, 255)] }

  /** The number the reader can see of a printed value: its digits as far as they are in the buffer. */
  function Seen(e: Metric): Option<int> {
    var digits := PrintInt(e.value);
    var start := if |MetricLine(e)| > |digits| then |MetricLine(e)| - |digits| - 1 else 0;
    var fields := Scan(digits[..Min(|digits|, if start < 255 then 255 - start else 0)], [Long]);
    if |fields| == 1 && fields[0].Number? then Some(fields[0].value) else None
  }

  /** A prefix holds the first occurrence of a pattern, or none. */
  lemma {:induction false} StrStrPrefix(s: string, n: nat, pat: string)
    requires n <= |s| && pat != ""
    ensures var r := StrStr(s, pat); StrStr(s[..n], pat) == if r.Some? && r.value + |pat| <= n then r else None
    decreases |s|
  {
    if pat <= s {
      assert |pat| <= n ==> s[..n][..|pat|] == s[..|pat|];
    } else {
      if n > 0 {
        assert s[..n][1..] == s[1..][..n - 1];
        StrStrPrefix(s[1..], n - 1, pat);
      }
    }
  }

  lemma {:induction false} PairsConcat(a: seq<Pair>, b: seq<Pair>)
    ensures PrintPairs(a + b) == PrintPairs(a) + PrintPairs(b)
  {
    if a == [] {
      assert a + b == b;
    } else {
      assert (a + b)[1..] == a[1..] + b;
      PairsConcat(a[1..], b);
      var x, y, z, t := " " + a[0].key, a[0].text, PrintPairs(a[1..]), PrintPairs(b);
      assert x + ("=" + (y + (z + t))) == (x + ("=" + (y + z))) + t;
    }
  }

  /** How a printed line ends. */
  function LineEnd(e: Metric): string {
    "name=" + (e.name + (" " + ("value" + ("=" + (PrintInt(e.value) + "\n")))))
  }

  lemma LineEndsSo(e: Metric) returns (head: string)
    ensures MetricLine(e) == head + LineEnd(e)
    ensures |LineEnd(e)| == |e.name| + |PrintInt(e.value)| + 13
  {
    hide PrintInt, PrintPairs;
    var ps, j, digits := Pairs(e), NameAt(e), PrintInt(e.value);
    PairsShape(e);
    var front, last := ps[..j], [Pair("name", e.name), Pair("value", digits)];
    assert ps == front + last;
    PairsConcat(front, last);
    head := "TEAR_METRIC" + PrintPairs(front) + " ";
    assert PrintPairs(last) + "\n" == " " + LineEnd(e) by { LastPairs(e.name, digits); }
    HeaderFirst(e);
    assert "TEAR_METRIC" + (PrintPairs(front) + (" " + LineEnd(e))) == head + LineEnd(e);
    assert (PrintPairs(front) + PrintPairs(last)) + "\n" == PrintPairs(front) + (PrintPairs(last) + "\n");
  }

  lemma LastPairs(name: string, digits: string)
    ensures PrintPairs([Pair("name", name), Pair("value", digits)]) + "\n"
         == " " + ("name=" + (name + (" " + ("value" + ("=" + (digits + "\n"))))))
  {
    var ps := [Pair("name", name), Pair("value", digits)];
    assert ps[1..] == [Pair("value", digits)] && ps[1..][1..] == [];
    var v := " " + "value" + ("=" + (digits + ""));
    assert PrintPairs(ps[1..]) == v;
    assert digits + "" == digits && v + "\n" == " " + ("value" + ("=" + (digits + "\n")));
    assert PrintPairs(ps) == " " + "name" + ("=" + (name + v));
    assert " " + "name" + ("=" + (name + v)) + "\n" == " " + ("name=" + (name + (v + "\n")));
  }

  /** The reader's two searches stop at the name and at the value of a line, and not at something like
      them in a field in front. */
  predicate LooksUp(e: Metric) {
    var line, end := MetricLine(e), |e.name| + |PrintInt(e.value)| + 13;
    var i, j := StrStr(line, "name="), StrStr(line, "value=");
    i.Some? && j.Some? && i.value == |line| - end && j.value == i.value + 6 + |e.name|
  }

  lemma ValueIsPlainText(s: string)
    requires All(s, IsValueChar)
    ensures All(s, IsPlain)
  {
    forall k | 0 <= k < |s| ensures IsPlain(s[k]) { assert IsValueChar(s[k]); }
  }

  /** Without a `=` in the fields they do. */
  lemma PlainFieldsLookUp(e: Metric)
    requires FieldsSafe(e)
    ensures LooksUp(e) && TextSafe(e)
  {
    hide StrStr, PrintInt, MetricLine, From, FieldsSafe, IsPlain, IsValueChar;
    NameFound(e);
    ValueFound(e);
    LastField(e.name, "value", PrintInt(e.value));
    FromNothing(PrintInt(e.value));
    assert TextSafe(e) by { PlainFields(e); }
  }

  lemma PlainFields(e: Metric)
    requires FieldsSafe(e)
    ensures TextSafe(e)
  {
    hide IsPlain, IsValueChar;
    ValueIsPlainText(e.component);
    ValueIsPlainText(e.profileId);
    ValueIsPlainText(e.artifactId);
    ValueIsPlainText(e.backend);
    ValueIsPlainText(e.name);
  }

  /** The parts of a printed line that the reader looks for. */
  lemma LineParts(e: Metric)
    requires LooksUp(e)
    ensures var line, digits := MetricLine(e), PrintInt(e.value);
      var i, j := StrStr(line, "name="), StrStr(line, "value=");
      && StrStr(line, "TEAR_METRIC") == Some(0) && i.Some? && j.Some?
      && |line| == j.value + 6 + |digits| + 1 && j.value == i.value + 6 + |e.name|
      && line[i.value + 5..] == e.name + (" " + ("value" + ("=" + (digits + "\n"))))
      && line[j.value + 6..] == digits + "\n"
  {
    hide StrStr, PrintInt, MetricLine;
    var line, digits := MetricLine(e), PrintInt(e.value);
    var head := LineEndsSo(e);
    var i := StrStr(line, "name=").value;
    assert i == |head| && line[i..] == LineEnd(e);
    var rest := e.name + (" " + ("value" + ("=" + (digits + "\n"))));
    assert LineEnd(e)[5..] == rest;
    assert line[i + 5..] == line[i..][5..];
    var at := |e.name| + 7;
    assert rest[at..] == digits + "\n";
    assert line[i + 5 + at..] == line[i + 5..][at..];
    HeaderFirst(e);
    StartsWithHeader(line, PrintPairs(Pairs(e)) + "\n");
  }

  lemma HeaderFirst(e: Metric)
    ensures MetricLine(e) == "TEAR_METRIC" + (PrintPairs(Pairs(e)) + "\n")
  {
    hide Pairs, PrintPairs;
  }

  lemma FromNothing(text: string)
    ensures From(text, []) == text + "\n"
  {
    assert text + "" == text;
  }

  /** A proper part of the digits of a number denotes a smaller one. */
  lemma {:induction false} PartIsSmaller(n: nat, k: nat)
    requires 0 < k < |PrintNat(n)|
    ensures Value(PrintNat(n)[..k]) < n
  {
    var init := PrintNat(n / 10);
    assert PrintNat(n)[..|init|] == init;
    if k == |init| {
      PrintNatValue(n / 10);
    } else {
      PartIsSmaller(n / 10, k);
      assert PrintNat(n)[..k] == init[..k];
    }
  }

  /** What a scan takes of the first digits of a number. */
  lemma PartIsScanned(v: int, k: nat)
    requires InRange(Long, v) && k <= |PrintInt(v)|
    ensures var fields := Scan(PrintInt(v)[..k], [Long]);
      && |fields| <= 1 && (|fields| == 1 ==> fields[0].Number?)
      && (fields == [Number(v)] <==> k == |PrintInt(v)|)
  {
    hide IntLen, PrintNat;
    var s, n := PrintInt(v), if v < 0 then -v else v;
    var sign := if v < 0 then 1 else 0;
    if k == |s| {
      assert s[..k] == s == s + "";
      ValueScanned(v, "");
    } else if k > sign {
      var part := PrintNat(n)[..k - sign];
      PartIsSmaller(n, k - sign);
      assert s[..k] == (if v < 0 then "-" else "") + part;
      PartScanned(v < 0, part);
    } else {
      NoDigits(s[..k]);
    }
  }

  lemma NoDigits(s: string)
    requires s in {"", "-"}
    ensures Scan(s, [Long]) == []
  {
  }

  lemma PartScanned(negative: bool, part: string)
    requires part != "" && All(part, IsDigit) && Value(part) <= 0x8000_0000_0000_0000
    ensures var s := (if negative then "-" else "") + part;
      Scan(s, [Long]) == [Number(Wrap64(if negative then -(Value(part) as int) else Value(part)))]
  {
    hide IntLen;
    var s := (if negative then "-" else "") + part;
    assert IsDigit(part[0]);
    if negative {
      SignedLen(part, "");
      assert part + "" == part && "-" + part == s && s[1..] == part;
    } else {
      UnsignedLen(part, "");
      assert part + "" == part && "" + part == part;
    }
    assert IntLen(s) == |s|;
    WholeScanned(s);
  }

  lemma WholeScanned(s: string)
    requires IntLen(s) == |s| > 0 && !IsSpace(s[0])
    ensures Scan(s, [Long]) == [Number(IntValue(s, Long))]
  {
    hide IntLen;
    assert SpanLen(s, IsSpace) == 0 && s[0..] == s && s[..|s|] == s;
    assert [Long][1..] == [];
  }

  lemma ValueScanned(v: int, rest: string)
    requires InRange(Long, v) && rest in {"", "\n"}
    ensures Scan(PrintInt(v) + rest, [Long]) == [Number(v)]
  {
    hide Scan;
    assert "" + (PrintField(Number(v)) + rest) == PrintInt(v) + rest;
    ScanStep(PrintInt(v) + rest, [Long], Number(v), "", rest);
    NothingScanned(rest);
  }

  lemma NothingScanned(rest: string)
    requires rest in {"", "\n"}
    ensures Scan(rest, []) == [] && [Long][1..] == []
  {
  }

  /** What is behind the positions of a text is behind them in a part of it, as far as it goes. */
  lemma PartBehind(s: string, n: nat, at: nat)
    requires at <= n <= |s|
    ensures s[..n][at..] == s[at..][..n - at]
  {
  }

  /** The visible number is the printed value exactly when the line has at most 256 characters. */
  lemma SeenIff(e: Metric)
    requires TextSafe(e) && LooksUp(e)
    ensures Seen(e) == Some(e.value) <==> |MetricLine(e)| <= 256
  {
    hide StrStr, Scan, PrintInt, MetricLine, TextSafe, LooksUp;
    var line, digits := MetricLine(e), PrintInt(e.value);
    LineParts(e);
    assert InRange(Long, e.value) by { ValueInRange(e); }
    var start := |line| - |digits| - 1;
    PartIsScanned(e.value, Min(|digits|, if start < 255 then 255 - start else 0));
  }

  /** What the buffer shows of the value. */
  lemma ValueVisible(e: Metric, j: nat)
    requires TextSafe(e) && LooksUp(e) && StrStr(MetricLine(e), "value=") == Some(j) && j + 6 <= |FirstPiece(e)|
    ensures var fields := Scan(FirstPiece(e)[j + 6..], [Long]);
      Seen(e) == if |fields| == 1 && fields[0].Number? then Some(fields[0].value) else None
  {
    hide StrStr, Scan, PrintInt, MetricLine, TextSafe, LooksUp;
    var line, digits, n := MetricLine(e), PrintInt(e.value), |FirstPiece(e)|;
    LineParts(e);
    assert InRange(Long, e.value) by { ValueInRange(e); }
    PartBehind(line, n, j + 6);
    VisibleDigits(digits, n - (j + 6), e.value);
  }

  /** ... and that it shows nothing when it does not reach that far. */
  lemma ValueHidden(e: Metric, j: nat)
    requires LooksUp(e) && StrStr(MetricLine(e), "value=") == Some(j) && j + 6 > |FirstPiece(e)|
    ensures Seen(e) == None
  {
    hide StrStr, Scan, PrintInt, MetricLine, LooksUp;
    LineParts(e);
    NoDigits("");
    assert PrintInt(e.value)[..0] == "";
  }

  /** The reader finds in a printed line of any length what was printed there, as far as its buffer goes:
      it takes the visible number if and only if the metric's name begins with the wanted one. That
      is the printed value exactly when the line has at most 256 characters. */
  lemma ParsedMetric(e: Metric, w: string)
    requires TextSafe(e) && LooksUp(e) && Wanted(w)
    ensures ParseMetric(FirstPiece(e), w) == if w <= e.name then Seen(e) else None
    ensures Seen(e) == Some(e.value) <==> |MetricLine(e)| <= 256
  {
    hide StrStr, Scan, PrintInt, MetricLine, TextSafe, EqFree, LooksUp, Seen;
    SeenIff(e);
    var line, n := MetricLine(e), |FirstPiece(e)|;
    LineParts(e);
    var i, j := StrStr(line, "name=").value, StrStr(line, "value=").value;
    StrStrPrefix(line, n, "TEAR_METRIC");
    StrStrPrefix(line, n, "name=");
    StrStrPrefix(line, n, "value=");
    if j + 6 <= n {
      ValueVisible(e, j);
      PartBehind(line, n, i + 5);
      NameVisible(w, e.name, "value" + ("=" + (PrintInt(e.value) + "\n")), n - (i + 5));
    } else {
      ValueHidden(e, j);
    }
  }

  lemma VisibleDigits(digits: string, k: nat, v: int)
    requires digits == PrintInt(v) && InRange(Long, v) && k <= |digits| + 1
    ensures Scan((digits + "\n")[..k], [Long]) == Scan(digits[..Min(|digits|, k)], [Long])
  {
    hide Scan, PrintInt;
    if k <= |digits| {
      assert (digits + "\n")[..k] == digits[..k];
    } else {
      assert (digits + "\n")[..k] == digits + "\n" && digits[..|digits|] == digits == digits + "";
      ValueScanned(v, "\n");
      ValueScanned(v, "");
    }
  }

  lemma NameVisible(w: string, name: string, rest: string, k: nat)
    requires ' ' !in w && |name| < k <= |name| + 1 + |rest|
    ensures w <= (name + (" " + rest))[..k] <==> w <= name
  {
    var s := name + (" " + rest);
    assert s[..k] == name + (" " + rest[..k - |name| - 1]);
    PrefixOfName(w, name, rest[..k - |name| - 1]);
  }

  lemma ValueInRange(e: Metric)
    requires TextSafe(e)
    ensures InRange(Long, e.value)
  {
    hide MetricLine;
  }

  lemma LastField(text: string, key: string, value: string)
    ensures From(text, [Pair(key, value)]) == text + (" " + (key + ("=" + From(value, []))))
  {
    hide From;
    FromSplits(text, [Pair(key, value)]);
    assert [Pair(key, value)][1..] == [];
    assert text + " " + key + ("=" + From(value, [])) == text + (" " + (key + ("=" + From(value, []))));
  }

  lemma HeaderIsPlain()
    ensures EqFree("TEAR_METRIC")
  {
  }

  lemma StartsWithHeader(line: string, rest: string)
    requires line == "TEAR_METRIC" + rest
    ensures StrStr(line, "TEAR_METRIC") == Some(0)
  {
  }

  // ------------------------------------------------------------ the log

  const MARGIN := "confidence_margin_x1000"
  const DENSITY := "input_density_x1000"

  /** What `load_metrics` has seen so far. */
  datatype Loading = Loading(margin: Option<int>, density: Option<int>)

  function LoadLine(st: Loading, line: string): Loading {
    var margin := ParseMetric(CStr(line), MARGIN);
    if margin.Some? then st.(margin := margin)
    else
      var density := ParseMetric(CStr(line), DENSITY);
      if density.Some? then st.(density := density) else st
  }

  function LoadLines(lines: seq<string>): Loading {
    if lines == [] then Loading(None, None) else LoadLine(LoadLines(lines[..|lines| - 1]), lines[|lines| - 1])
  }

  /** `load_metrics`: margin and density, when both were seen. */
  function LoadMetrics(content: Option<string>): Option<(int, int)> {
    if content.None? then None
    else
      var st := LoadLines(Lines(content.value, 256));
      if st.margin.Some? && st.density.Some? then Some((st.margin.value, st.density.value)) else None
  }

  lemma LoadSnoc(lines: seq<string>, line: string)
    ensures LoadLines(lines + [line]) == LoadLine(LoadLines(lines), line)
  {
    hide LoadLine;
    var all := lines + [line];
    assert all[..|all| - 1] == lines;
  }

  lemma NothingLoaded()
    ensures LoadLines([]) == Loading(None, None) && Lines("", 256) == []
  {
  }

  /** The loop of `load_metrics`. */
  method ReadMetrics(content: Option<string>) returns (ok: bool, margin: int, density: int)
    ensures LoadMetrics(content) == if ok then Some((margin, density)) else None
  {
    hide Lines, ParseMetric, CStr;
    margin, density := 0, 0;
    if content.None? {
      return false, margin, density;
    }
    var haveMargin, haveDensity := false, false;
    var text, pos: nat := content.value, 0;
    ghost var seen: seq<string> := [];
    assert text[0..] == text;
    NothingLoaded();
    while pos < |text|
      invariant 0 <= pos <= |text|
      invariant seen + Lines(text[pos..], 256) == Lines(text, 256)
      invariant LoadLines(seen) == Loading(if haveMargin then Some(margin) else None,
                                           if haveDensity then Some(density) else None)
      decreases |text| - pos
    {
      var line;
      line, pos := FGets(text, pos, 256);
      LoadSnoc(seen, line);
      assert seen + ([line] + Lines(text[pos..], 256)) == (seen + [line]) + Lines(text[pos..], 256);
      seen := seen + [line];
      var value := ParseMetric(CStr(line), MARGIN);
      if value.Some? {
        margin, haveMargin := value.value, true;
        continue;
      }
      value := ParseMetric(CStr(line), DENSITY);
      if value.Some? {
        density, haveDensity := value.value, true;
        continue;
      }
    }
    assert text[pos..] == "" && seen == Lines(text, 256);
    ok := haveMargin && haveDensity;
  }

  /** The file a sequence of `tear_metric_long` calls writes. */
  function LogText(es: seq<Metric>): string {
    if es == [] then "" else MetricLine(es[0]) + LogText(es[1..])
  }

  /** The pieces that fgets makes of every line. */
  function LogLines(es: seq<Metric>): seq<string>
    decreases |es|
  {
    if es == [] then [] else LogLines(es[..|es| - 1]) + Lines(MetricLine(es[|es| - 1]), 256)
  }

  predicate LogPairs(ps: seq<Pair>) {
    forall k | 0 <= k < |ps| :: All(ps[k].key, IsPlain) && All(ps[k].text, IsPlain)
  }

  lemma {:induction false} PairsArePlainText(ps: seq<Pair>)
    requires LogPairs(ps)
    ensures All(PrintPairs(ps), IsPlain)
  {
    hide IsPlain;
    if ps != [] {
      PairsArePlainText(ps[1..]);
      SignsArePlain();
      PlainConcat(ps[0].text, PrintPairs(ps[1..]));
      PlainConcat("=", ps[0].text + PrintPairs(ps[1..]));
      PlainConcat(" ", ps[0].key);
      PlainConcat(" " + ps[0].key, "=" + (ps[0].text + PrintPairs(ps[1..])));
    }
  }

  lemma SignsArePlain()
    ensures All(" ", IsPlain) && All("=", IsPlain) && All("TEAR_METRIC", IsPlain)
    ensures All("ts_ms", IsPlain) && All("component", IsPlain) && All("profile_id", IsPlain)
    ensures All("artifact_id", IsPlain) && All("backend", IsPlain)
    ensures All("name", IsPlain) && All("value", IsPlain)
  {
  }

  lemma LineShape(e: Metric)
    requires TextSafe(e)
    ensures var body := "TEAR_METRIC" + PrintPairs(Pairs(e));
      All(body, IsPlain) && MetricLine(e) == body + "\n"
  {
    hide PrintInt, PrintPairs, IsPlain, IsValueChar;
    NumberIsPlain(e.tsMs);
    NumberIsPlain(e.value);
    ValueIsPlainText(PrintInt(e.tsMs));
    ValueIsPlainText(PrintInt(e.value));
    SignsArePlain();
    PairsArePlainText(Pairs(e));
    PlainConcat("TEAR_METRIC", PrintPairs(Pairs(e)));
  }

  /** No field repeats the keyword of a metric line. */
  predicate NoEcho(e: Metric) { StrStr(MetricLine(e)[1..], "TEAR_METRIC").None? }

  predicate MetricSafe(e: Metric) { TextSafe(e) && LooksUp(e) && NoEcho(e) }

  predicate AllSafe(es: seq<Metric>) { forall k | 0 <= k < |es| :: MetricSafe(es[k]) }

  lemma LinesStep(s: string)
    requires s != ""
    ensures Lines(s, 256) == [s[..Taken(s, 256)]] + Lines(s[Taken(s, 256)..], 256)
  {
  }

  /** Terminated texts are cut up one by one. */
  lemma {:induction false} LinesConcat(s: string, rest: string)
    requires s == "" || s[|s| - 1] == '\n'
    ensures Lines(s + rest, 256) == Lines(s, 256) + Lines(rest, 256)
    decreases |s|
  {
    hide Lines, Taken;
    if s == "" {
      NothingLoaded();
      assert s + rest == rest && [] + Lines(rest, 256) == Lines(rest, 256);
    } else {
      var n := Taken(s, 256);
      TakenAlike(s, rest);
      LinesStep(s);
      LinesStep(s + rest);
      var piece, more := s[..n], s[n..];
      assert (s + rest)[..n] == piece && (s + rest)[n..] == more + rest;
      LinesConcat(more, rest);
      assert [piece] + (Lines(more, 256) + Lines(rest, 256)) == ([piece] + Lines(more, 256)) + Lines(rest, 256);
    }
  }

  lemma TakenAlike(s: string, rest: string)
    requires s != "" && s[|s| - 1] == '\n'
    ensures Taken(s + rest, 256) == Taken(s, 256)
  {
    var t, n := s + rest, SpanLen(s, NotNewline);
    assert !NotNewline(s[|s| - 1]) && n < |s|;
    SpanLenAt(t, 0, n, NotNewline) by {
      assert forall k | 0 <= k < n :: t[k] == s[k] && NotNewline(s[k]);
      assert t[n] == s[n] && !NotNewline(s[n]);
    }
    assert t[0..] == t;
  }

  lemma LogTextSnoc(es: seq<Metric>, e: Metric)
    ensures LogText(es + [e]) == LogText(es) + MetricLine(e)
    decreases |es|
  {
    hide MetricLine;
    if es == [] {
      assert [] + [e] == [e] && [e][1..] == [] && MetricLine(e) + "" == MetricLine(e) == "" + MetricLine(e);
    } else {
      assert (es + [e])[1..] == es[1..] + [e];
      LogTextSnoc(es[1..], e);
      var first, last := MetricLine(es[0]), MetricLine(e);
      assert first + (LogText(es[1..]) + last) == (first + LogText(es[1..])) + last;
    }
  }

  lemma LineIsClosed(e: Metric)
    ensures MetricLine(e) != "" && MetricLine(e)[|MetricLine(e)| - 1] == '\n'
  {
    hide Pairs, PrintPairs;
  }

  lemma {:induction false} LogIsClosed(es: seq<Metric>)
    ensures LogText(es) == "" || LogText(es)[|LogText(es)| - 1] == '\n'
  {
    hide MetricLine;
    if es != [] {
      LineIsClosed(es[0]);
      LogIsClosed(es[1..]);
    }
  }

  /** The whole log is cut up line by line. */
  lemma {:induction false} LogIsRead(es: seq<Metric>)
    ensures Lines(LogText(es), 256) == LogLines(es)
    decreases |es|
  {
    hide Lines, MetricLine;
    if es == [] {
      NothingLoaded();
    } else {
      var n := |es| - 1;
      LogIsRead(es[..n]);
      LogTextSnoc(es[..n], es[n]);
      assert es[..n] + [es[n]] == es;
      LogIsClosed(es[..n]);
      LinesConcat(LogText(es[..n]), MetricLine(es[n]));
    }
  }

  /** No occurrence in the whole is none in a part. */
  lemma {:induction false} StrStrBehind(s: string, n: nat, pat: string)
    requires n <= |s| && StrStr(s, pat).None?
    ensures StrStr(s[n..], pat).None?
  {
    if n > 0 {
      StrStrBehind(s[1..], n - 1, pat);
      assert s[1..][n - 1..] == s[n..];
    } else {
      assert s[0..] == s;
    }
  }

  lemma PieceIsIgnored(st: Loading, piece: string)
    requires StrStr(piece, "TEAR_METRIC").None? && NUL !in piece
    ensures LoadLine(st, piece) == st
  {
    hide StrStr, Scan, CStr;
    CStrOf(piece, "");
  }

  /** Pieces without the keyword are passed over. */
  lemma {:induction false} PassedOver(before: seq<string>, t: string)
    requires StrStr(t, "TEAR_METRIC").None? && NUL !in t
    ensures LoadLines(before + Lines(t, 256)) == LoadLines(before)
    decreases |t|
  {
    hide StrStr, Taken, Lines, LoadLine, LoadLines;
    if t == "" {
      NothingLoaded();
      assert before + [] == before;
    } else {
      var n := Taken(t, 256);
      var piece := t[..n];
      StrStrPrefix(t, n, "TEAR_METRIC");
      StrStrBehind(t, n, "TEAR_METRIC");
      PieceIsIgnored(LoadLines(before), piece);
      LinesStep(t);
      LoadSnoc(before, piece);
      PassedOver(before + [piece], t[n..]);
      assert before + ([piece] + Lines(t[n..], 256)) == (before + [piece]) + Lines(t[n..], 256);
    }
  }

  /** Loading the pieces of one printed line is loading its first one. */
  lemma LineLoaded(before: seq<string>, e: Metric)
    requires MetricSafe(e)
    ensures LoadLines(before + Lines(MetricLine(e), 256)) == LoadLine(LoadLines(before), FirstPiece(e))
    ensures CStr(FirstPiece(e)) == FirstPiece(e)
  {
    hide StrStr, MetricLine, LoadLine, TextSafe, LoadLines, LooksUp;
    var line, piece := MetricLine(e), FirstPiece(e);
    LineIsClosed(e);
    LineHasNoNul(e);
    FirstIsTaken(e);
    var rest := line[|piece|..];
    StrStrBehind(line[1..], |piece| - 1, "TEAR_METRIC");
    assert line[1..][|piece| - 1..] == rest;
    LoadSnoc(before, piece);
    PassedOver(before + [piece], rest);
    assert before + ([piece] + Lines(rest, 256)) == (before + [piece]) + Lines(rest, 256);
    CStrOf(piece, "");
  }

  lemma LineHasNoNul(e: Metric)
    requires TextSafe(e)
    ensures NUL !in MetricLine(e)
  {
    hide Pairs, PrintPairs, MetricLine, TextSafe;
    LineShape(e);
    var body := "TEAR_METRIC" + PrintPairs(Pairs(e));
    forall k | 0 <= k < |body| ensures body[k] != NUL { assert IsPlain(body[k]); }
  }

  lemma FirstIsTaken(e: Metric)
    requires TextSafe(e)
    ensures Lines(MetricLine(e), 256) == [FirstPiece(e)] + Lines(MetricLine(e)[|FirstPiece(e)|..], 256)
  {
    hide Pairs, PrintPairs, MetricLine, TextSafe;
    LineShape(e);
    var body := "TEAR_METRIC" + PrintPairs(Pairs(e));
    assert All(body, NotNewline) by {
      forall k | 0 <= k < |body| ensures NotNewline(body[k]) { assert IsPlain(body[k]); }
    }
    SpanLenOf(body, "\n", NotNewline);
    assert Taken(MetricLine(e), 256) == |FirstPiece(e)|;
  }

  /** The number that is visible of the last metric whose name begins with the wanted one. */
  function LastNamed(es: seq<Metric>, w: string): Option<int>
    decreases |es|
  {
    if es == [] then None
    else if Shows(es[|es| - 1], w) then Seen(es[|es| - 1])
    else LastNamed(es[..|es| - 1], w)
  }

  /** A metric whose name begins with the wanted one and of whose value something is visible. */
  predicate Shows(e: Metric, w: string) { w <= e.name && Seen(e).Some? }

  lemma WantedNames()
    ensures Wanted(MARGIN) && Wanted(DENSITY) && MARGIN[0] == 'c' && DENSITY[0] == 'i'
  {
  }

  lemma LoadedLine(st: Loading, e: Metric)
    requires TextSafe(e) && LooksUp(e) && CStr(FirstPiece(e)) == FirstPiece(e)
    ensures LoadLine(st, FirstPiece(e))
         == Loading(if Shows(e, MARGIN) then Seen(e) else st.margin, if Shows(e, DENSITY) then Seen(e) else st.density)
  {
    hide ParseMetric, FirstPiece, TextSafe, CStr, Seen, LooksUp;
    WantedNames();
    ParsedMetric(e, MARGIN);
    ParsedMetric(e, DENSITY);
    assert !(MARGIN <= e.name && DENSITY <= e.name);
  }

  lemma {:induction false} LoadedLog(es: seq<Metric>)
    requires AllSafe(es)
    ensures LoadLines(LogLines(es)) == Loading(LastNamed(es, MARGIN), LastNamed(es, DENSITY))
    decreases |es|
  {
    hide LoadLine, MetricLine, MetricSafe, Lines, Shows, Seen, FirstPiece;
    if es != [] {
      var n := |es| - 1;
      assert forall k | 0 <= k < n :: es[..n][k] == es[k];
      LoadedLog(es[..n]);
      assert MetricSafe(es[n]);
      LineLoaded(LogLines(es[..n]), es[n]);
      SafeFields(es[n]);
      LoadedLine(LoadLines(LogLines(es[..n])), es[n]);
    }
  }

  lemma SafeFields(e: Metric)
    requires MetricSafe(e)
    ensures TextSafe(e) && LooksUp(e)
  {
  }

  /** Metric log agreement: loading what any sequence of metric calls wrote, lines of any length among
      it, yields what is visible of the last value written under each wanted name, or under a name
      that extends it, and succeeds exactly when there is one of both. */
  lemma LoadsWhatWasWritten(es: seq<Metric>)
    requires AllSafe(es)
    ensures LoadMetrics(Some(LogText(es)))
         == var margin, density := LastNamed(es, "confidence_margin_x1000"), LastNamed(es, "input_density_x1000");
            if margin.Some? && density.Some? then Some((margin.value, density.value)) else None
  {
    hide Lines, LoadLines, LogText, LogLines, MetricSafe, LastNamed;
    LogIsRead(es);
    LoadedLog(es);
  }

  /** Where the last metric stands that shows a number under the wanted name or an extension of it. */
  function LastAt(es: seq<Metric>, w: string): Option<nat>
    decreases |es|
  {
    if es == [] then None else if Shows(es[|es| - 1], w) then Some(|es| - 1) else LastAt(es[..|es| - 1], w)
  }

  lemma {:induction false} LastAtIs(es: seq<Metric>, w: string)
    ensures var r := LastAt(es, w);
      && (r.Some? ==> r.value < |es| && Shows(es[r.value], w))
      && forall k: nat | k < |es| && (r.Some? ==> r.value < k) :: !Shows(es[k], w)
    decreases |es|
  {
    hide Shows;
    if es != [] && !Shows(es[|es| - 1], w) {
      var init := es[..|es| - 1];
      LastAtIs(init, w);
      assert forall k | 0 <= k < |init| :: init[k] == es[k];
    }
  }

  /** A metric that shows its own value under exactly the wanted name. */
  predicate Exact(e: Metric, w: string) { e.name == w && |MetricLine(e)| <= 256 }

  /** Where the last such metric stands. */
  function LastExactAt(es: seq<Metric>, w: string): Option<nat>
    decreases |es|
  {
    if es == [] then None else if Exact(es[|es| - 1], w) then Some(|es| - 1) else LastExactAt(es[..|es| - 1], w)
  }

  lemma {:induction false} LastExactAtIs(es: seq<Metric>, w: string)
    ensures var r := LastExactAt(es, w);
      && (r.Some? ==> r.value < |es| && Exact(es[r.value], w))
      && forall k: nat | k < |es| && (r.Some? ==> r.value < k) :: !Exact(es[k], w)
    decreases |es|
  {
    hide Exact;
    if es != [] && !Exact(es[|es| - 1], w) {
      var init := es[..|es| - 1];
      LastExactAtIs(init, w);
      assert forall k | 0 <= k < |init| :: init[k] == es[k];
    }
  }

  lemma {:induction false} LastNamedAt(es: seq<Metric>, w: string)
    ensures LastAt(es, w).Some? ==> LastAt(es, w).value < |es|
    ensures LastNamed(es, w) == match LastAt(es, w) case None => None case Some(k) => Seen(es[k])
    decreases |es|
  {
    hide Shows, Seen;
    if es != [] {
      LastNamedAt(es[..|es| - 1], w);
    }
  }

  /** The last number shown is that of the last exact metric if and only if every other metric that shows
      one -- under an extended name, or with a cut value -- stands in front of that one. */
  lemma LastIsExactIff(es: seq<Metric>, w: string)
    requires AllSafe(es) && Wanted(w)
    ensures LastExactAt(es, w).Some? ==> LastExactAt(es, w).value < |es|
    ensures LastAt(es, w) == LastExactAt(es, w)
       <==> forall k | 0 <= k < |es| && Shows(es[k], w) && !Exact(es[k], w) ::
              LastExactAt(es, w).Some? && k < LastExactAt(es, w).value
    ensures LastExactAt(es, w).Some? ==> Seen(es[LastExactAt(es, w).value]) == Some(es[LastExactAt(es, w).value].value)
  {
    hide LastAt, LastExactAt, Seen, MetricLine, MetricSafe, Shows, Exact;
    LastAtIs(es, w);
    LastExactAtIs(es, w);
    forall k | 0 <= k < |es| && Exact(es[k], w) ensures Shows(es[k], w) && Seen(es[k]) == Some(es[k].value) {
      assert MetricSafe(es[k]);
      ExactIsShown(es[k], w);
    }
  }

  lemma ExactIsShown(e: Metric, w: string)
    requires MetricSafe(e) && Wanted(w) && Exact(e, w)
    ensures Shows(e, w) && Seen(e) == Some(e.value)
  {
    hide Seen, MetricLine, NoEcho, TextSafe, LooksUp;
    SafeFields(e);
    ParsedMetric(e, w);
  }

  /** What the reader takes from the log of any metric calls, by index, and when that is what was meant:
      the last margin and the last density of exactly these names on lines that fit, if and only if no
      metric with an extended name or a cut value stands behind them. */
  lemma ExactMetricIff(es: seq<Metric>)
    requires AllSafe(es)
    ensures var margin, density := LastAt(es, MARGIN), LastAt(es, DENSITY);
      && (margin.Some? ==> margin.value < |es| && Seen(es[margin.value]).Some?)
      && (density.Some? ==> density.value < |es| && Seen(es[density.value]).Some?)
      && LoadMetrics(Some(LogText(es)))
         == if margin.Some? && density.Some?
            then Some((Seen(es[margin.value]).value, Seen(es[density.value]).value)) else None
    ensures forall w | w in {MARGIN, DENSITY} ::
      && (LastExactAt(es, w).Some? ==> LastExactAt(es, w).value < |es|)
      && (LastAt(es, w) == LastExactAt(es, w)
          <==> forall k | 0 <= k < |es| && Shows(es[k], w) && !Exact(es[k], w) ::
                 LastExactAt(es, w).Some? && k < LastExactAt(es, w).value)
      && (LastExactAt(es, w).Some? ==> Seen(es[LastExactAt(es, w).value]) == Some(es[LastExactAt(es, w).value].value))
  {
    hide LastNamed, LastAt, LastExactAt, LoadMetrics, LogText, MetricSafe, Seen, Exact, Wanted;
    LoadsWhatWasWritten(es);
    WantedNames();
    LastAtIs(es, MARGIN);
    LastAtIs(es, DENSITY);
    LastNamedAt(es, MARGIN);
    LastNamedAt(es, DENSITY);
    LastIsExactIff(es, MARGIN);
    LastIsExactIff(es, DENSITY);
  }

  // ---------------------------------------------------------------- witnesses

  lemma PairLength(ps: seq<Pair>)
    ensures |PrintPairs(ps)|
         == if ps == [] then 0 else 2 + |ps[0].key| + |ps[0].text| + |PrintPairs(ps[1..])|
  {
  }

  /** The length of a line: its fields and 68 characters around them, with a backend 77. */
  lemma LineLength(e: Metric)
    ensures |MetricLine(e)|
         == |PrintInt(e.tsMs)| + |e.component| + |e.profileId| + |e.artifactId| + |e.name| + |PrintInt(e.value)| +
            68 + (if e.backend == "" then 0 else 9 + |e.backend|)
  {
    hide PrintPairs, PrintInt;
    var ps := Pairs(e);
    assert ps[1..][1..] == ps[2..] && ps[2..][1..] == ps[3..] && ps[3..][1..] == ps[4..] && ps[4..][1..] == ps[5..];
    PairLength(ps);
    PairLength(ps[1..]);
    PairLength(ps[2..]);
    PairLength(ps[3..]);
    PairLength(ps[4..]);
    PairLength(ps[5..]);
    PairLength(ps[6..]);
    if e.backend != "" {
      assert ps[5..][1..] == ps[6..] && ps[6..][1..] == ps[7..];
      PairLength(ps[7..]);
    }
  }

  /** Without a capital M in its fields a line does not repeat the keyword. */
  lemma NoEchoWithoutM(e: Metric)
    requires 'M' !in e.component + e.profileId + e.artifactId + e.backend + e.name
    ensures NoEcho(e)
  {
    hide PrintInt, PrintPairs, MetricLine, StrStr;
    HeaderFirst(e);
    var tail := PrintPairs(Pairs(e)) + "\n";
    var line, pat := MetricLine(e)[1..], "TEAR_METRIC";
    assert line == "EAR_METRIC" + tail;
    PairsHaveNoM(e);
    assert forall k | 5 <= k < 10 :: "EAR_METRIC"[k] != 'M';
    assert forall k | 10 <= k < |line| :: line[k] == tail[k - 10];
    NoSuchChar(line, pat, 5);
  }

  lemma {:induction false} NoSuchChar(s: string, pat: string, at: nat)
    requires at < |pat| && forall k | at <= k < |s| :: s[k] != pat[at]
    ensures StrStr(s, pat).None?
    decreases |s|
  {
    assert |s| > at ==> s[at] != pat[at];
    if s != "" {
      NoSuchChar(s[1..], pat, at);
    }
  }

  predicate HasNoM(ps: seq<Pair>) { forall k | 0 <= k < |ps| :: 'M' !in ps[k].key && 'M' !in ps[k].text }

  lemma {:induction false} PrintedWithoutM(ps: seq<Pair>)
    requires HasNoM(ps)
    ensures 'M' !in PrintPairs(ps)
  {
    if ps != [] {
      PrintedWithoutM(ps[1..]);
      assert 'M' !in ps[0].key && 'M' !in ps[0].text;
    }
  }

  lemma PairsHaveNoM(e: Metric)
    requires 'M' !in e.component + e.profileId + e.artifactId + e.backend + e.name
    ensures 'M' !in PrintPairs(Pairs(e))
  {
    hide PrintPairs, PrintInt, HasNoM;
    DigitsHaveNoM(e.tsMs);
    DigitsHaveNoM(e.value);
    FieldsHaveNoM(e);
    PrintedWithoutM(Pairs(e));
  }

  lemma FieldsHaveNoM(e: Metric)
    requires 'M' !in e.component + e.profileId + e.artifactId + e.backend + e.name
    requires 'M' !in PrintInt(e.tsMs) && 'M' !in PrintInt(e.value)
    ensures HasNoM(Pairs(e))
  {
    hide PrintInt;
    var ps := Pairs(e);
    KeysHaveNoM();
    forall k | 0 <= k < |ps| ensures 'M' !in ps[k].key && 'M' !in ps[k].text {
      assert ps[k].text in {PrintInt(e.tsMs), e.component, e.profileId, e.artifactId, e.backend, e.name, PrintInt(e.value)};
      assert ps[k].key in {"ts_ms", "component", "profile_id", "artifact_id", "backend", "name", "value"};
    }
  }

  lemma KeysHaveNoM()
    ensures forall s | s in {"ts_ms", "component", "profile_id", "artifact_id", "backend", "name", "value"} :: 'M' !in s
  {
  }

  lemma DigitsHaveNoM(v: int)
    ensures 'M' !in PrintInt(v)
  {
    hide PrintNat;
    var digits := PrintNat(if v < 0 then -v else v);
    assert forall k | 0 <= k < |digits| :: IsDigit(digits[k]);
  }

  /** A small metric of the demo workload. */
  function Sample(name: string, value: int): Metric {
    Metric(100, "demo_model", "p", "a", "", name, value)
  }

  lemma SmallNumbers()
    ensures PrintInt(5) == "5" && PrintInt(100) == "100" && PrintInt(900) == "900" && |PrintInt(90)| == 2
  {
    assert PrintNat(10) == PrintNat(1) + "0" && PrintNat(90) == PrintNat(9) + "0";
  }

  lemma SampleIsSafe(name: string, value: int)
    requires All(name, IsValueChar) && 'M' !in name && |name| <= 40 && value in {5, 100, 900}
    ensures MetricSafe(Sample(name, value)) && |MetricLine(Sample(name, value))| <= 256
  {
    hide MetricLine, StrStr, NoEcho, LooksUp;
    assert All("demo_model", IsValueChar);
    PlainFieldsLookUp(Sample(name, value));
    NoEchoWithoutM(Sample(name, value));
    LineLength(Sample(name, value));
    SmallNumbers();
  }

  lemma NamesAreValues()
    ensures All(DENSITY, IsValueChar) && All(MARGIN, IsValueChar) && All(MARGIN + "_raw", IsValueChar)
    ensures |DENSITY| <= 40 && |MARGIN + "_raw"| <= 40 && |MARGIN| == 23
    ensures 'M' !in DENSITY && 'M' !in MARGIN && 'M' !in MARGIN + "_raw"
  {
  }

  /** What a safe metric on a short line shows. */
  lemma ShownInFull(e: Metric, w: string)
    requires MetricSafe(e) && Wanted(w) && |MetricLine(e)| <= 256
    ensures Seen(e) == Some(e.value) && (Shows(e, w) <==> w <= e.name)
  {
    hide MetricLine, Seen, NoEcho, TextSafe, LooksUp;
    SafeFields(e);
    ParsedMetric(e, w);
  }

  /** A log from which the reader takes 100 as the margin although the last value of exactly that
      name is 900. */
  lemma ExtendedNameWitness()
    ensures var es := [Sample(DENSITY, 5), Sample(MARGIN, 900), Sample(MARGIN + "_raw", 100)];
      && AllSafe(es) && LastExactAt(es, MARGIN) == Some(1) && es[1].value == 900
      && LoadMetrics(Some(LogText(es))) == Some((100, 5))
  {
    hide LoadMetrics, MetricSafe, LogText, LastNamed, LastAt, LastExactAt, MetricLine, Seen, Shows, Wanted;
    var a, b, c := Sample(DENSITY, 5), Sample(MARGIN, 900), Sample(MARGIN + "_raw", 100);
    var es := [a, b, c];
    NamesAreValues();
    SampleIsSafe(DENSITY, 5);
    SampleIsSafe(MARGIN, 900);
    SampleIsSafe(MARGIN + "_raw", 100);
    WantedNames();
    NamesDiffer();
    ShownInFull(a, MARGIN);
    ShownInFull(b, MARGIN);
    ShownInFull(c, MARGIN);
    ShownInFull(a, DENSITY);
    ShownInFull(b, DENSITY);
    ShownInFull(c, DENSITY);
    assert AllSafe(es);
    ExactMetricIff(es);
    LastAtIs(es, MARGIN);
    LastAtIs(es, DENSITY);
    LastExactAtIs(es, MARGIN);
    assert Shows(es[2], MARGIN) && Shows(es[0], DENSITY) && !Shows(es[1], DENSITY) && !Shows(es[2], DENSITY);
    assert Exact(es[1], MARGIN) && !Exact(es[2], MARGIN);
  }

  lemma NamesDiffer()
    ensures MARGIN <= MARGIN + "_raw" && MARGIN != MARGIN + "_raw"
    ensures !(DENSITY <= MARGIN) && !(DENSITY <= MARGIN + "_raw") && !(MARGIN <= DENSITY) && DENSITY <= DENSITY
  {
    assert MARGIN[0] == 'c' && (MARGIN + "_raw")[0] == 'c' && DENSITY[0] == 'i';
  }

  function Repeated(c: char, n: nat): (s: string)
    ensures |s| == n && forall k | 0 <= k < n :: s[k] == c
  {
    seq(n, _ => c)
  }

  /** A metric of a profile with the widest ids. */
  const WIDE := Metric(100, "demo_model", Repeated('p', 63), Repeated('a', 63), "onnxruntime-cpu", MARGIN, 900)

  lemma WideFields()
    ensures FieldsSafe(WIDE) && 'M' !in WIDE.component + WIDE.profileId + WIDE.artifactId + WIDE.backend + WIDE.name
  {
    hide Repeated;
    NamesAreValues();
    assert All("demo_model", IsValueChar) && All("onnxruntime-cpu", IsValueChar);
    assert 'M' !in "demo_model" && 'M' !in "onnxruntime-cpu" && 'M' !in WIDE.profileId && 'M' !in WIDE.artifactId;
  }

  lemma WideLength()
    ensures |MetricLine(WIDE)| == 257
  {
    hide MetricLine, PrintInt, Repeated;
    NamesAreValues();
    LineLength(WIDE);
    SmallNumbers();
  }

  lemma WideIsSafe()
    ensures MetricSafe(WIDE) && Seen(WIDE) == Some(90)
  {
    hide MetricLine, StrStr, NoEcho, Scan, PrintInt, LooksUp, TextSafe, FieldsSafe, Repeated;
    WideFields();
    PlainFieldsLookUp(WIDE);
    NoEchoWithoutM(WIDE);
    WideLength();
    SmallNumbers();
    assert "900"[..2] == "90";
    NinetyScanned();
  }

  lemma NinetyScanned()
    ensures Scan("90", [Long]) == [Number(90)]
  {
    hide Scan;
    assert "9" == "90"[..1] && Value("9") == 9 by { assert "9"[..0] == ""; }
    assert Value("90") == 90;
    PartScanned(false, "90");
    assert "" + "90" == "90";
  }

  /** A value cut inside its digits: with the widest ids of a profile a margin of 900 is loaded as 90. */
  lemma CutValueWitness()
    ensures var es := [Sample(DENSITY, 5), WIDE];
      AllSafe(es) && WIDE.value == 900 && LoadMetrics(Some(LogText(es))) == Some((90, 5))
  {
    hide LoadMetrics, MetricSafe, LogText, LastNamed, LastAt, LastExactAt, MetricLine, Seen, Wanted;
    var a := Sample(DENSITY, 5);
    var es := [a, WIDE];
    NamesAreValues();
    SampleIsSafe(DENSITY, 5);
    WideIsSafe();
    WantedNames();
    NamesDiffer();
    ShownInFull(a, DENSITY);
    assert AllSafe(es);
    ExactMetricIff(es);
    LastAtIs(es, MARGIN);
    LastAtIs(es, DENSITY);
    LastExactAtIs(es, MARGIN);
    assert Shows(es[1], MARGIN) && Shows(es[0], DENSITY) && !Shows(es[1], DENSITY);
  }
}
