/** Workload profiles: the template expansion into a 256-byte buffer and the key/value loader. */
module Profiles {
  import opened CText
  import opened StateFile

  const PATH_MAX := 256

  // ------------------------------------------------------- template expansion

  datatype Piece = Lit(c: char) | ArtifactRef | ProfileRef

  const ARTIFACT_REF := "{artifact_id}"
  const PROFILE_REF := "{profile_id}"

  /** What a template says, read once from left to right and without looking at any id. */
  function Pieces(t: string): seq<Piece>
    decreases |t|
  {
    if t == "" then []
    else if ARTIFACT_REF <= t then [ArtifactRef] + Pieces(t[|ARTIFACT_REF|..])
    else if PROFILE_REF <= t then [ProfileRef] + Pieces(t[|PROFILE_REF|..])
    else [Lit(t[0])] + Pieces(t[1..])
  }

  function PieceText(p: Piece, artifactId: string, profileId: string): string {
    match p case Lit(c) => [c] case ArtifactRef => artifactId case ProfileRef => profileId
  }

  /** The pieces written out, the ids in place of the references. */
  function Render(ps: seq<Piece>, artifactId: string, profileId: string): string {
    if ps == [] then "" else PieceText(ps[0], artifactId, profileId) + Render(ps[1..], artifactId, profileId)
  }

  /** The one-pass expansion. The ids are inserted after the template has been read, so inserted
      text is never rescanned, whatever it contains. */
  function Expansion(t: string, artifactId: string, profileId: string): string {
    Render(Pieces(t), artifactId, profileId)
  }

  /** Nothing of the template is lost or added: expanding the references to themselves gives the
      template back. */
  lemma {:induction false} ExpansionOfReferences(t: string)
    ensures Expansion(t, "{artifact_id}", "{profile_id}") == t
    decreases |t|
  {
    if t != "" {
      var n := if ARTIFACT_REF <= t then |ARTIFACT_REF| else if PROFILE_REF <= t then |PROFILE_REF| else 1;
      ExpansionOfReferences(t[n..]);
      assert t == t[..n] + t[n..];
    }
  }

  function Count(ps: seq<Piece>, p: Piece): nat {
    if ps == [] then 0 else (if ps[0] == p then 1 else 0) + Count(ps[1..], p)
  }

  /** The length of the expansion, from the template and the lengths of the ids alone. */
  lemma {:induction false} ExpansionLength(ps: seq<Piece>, artifactId: string, profileId: string)
    ensures |Render(ps, artifactId, profileId)|
         == |ps| - Count(ps, ArtifactRef) - Count(ps, ProfileRef)
            + Count(ps, ArtifactRef) * |artifactId| + Count(ps, ProfileRef) * |profileId|
  {
    if ps != [] {
      ExpansionLength(ps[1..], artifactId, profileId);
      OneMoreTime(Count(ps[1..], ArtifactRef), |artifactId|);
      OneMoreTime(Count(ps[1..], ProfileRef), |profileId|);
      match ps[0]
      case Lit(_) =>
      case ArtifactRef =>
        assert Count(ps, ArtifactRef) == Count(ps[1..], ArtifactRef) + 1;
      case ProfileRef =>
        assert Count(ps, ProfileRef) == Count(ps[1..], ProfileRef) + 1;
    }
  }

  lemma OneMoreTime(k: nat, n: nat)
    ensures (k + 1) * n == k * n + n
  {
  }

  /** `append_str` */
  method AppendStr(dst: array<char>, pos: nat, src: string) returns (ok: bool, pos': nat)
    requires pos < dst.Length
    modifies dst
    ensures ok <==> pos + |src| < dst.Length
    ensures pos' == if ok then pos + |src| else pos
    ensures ok ==> dst[..pos'] == old(dst[..pos]) + src && dst[pos'] == NUL
  {
    if pos + |src| >= dst.Length {
      return false, pos;
    }
    forall k | 0 <= k < |src| {
      dst[pos + k] := src[k];
    }
    pos' := pos + |src|;
    dst[pos'] := NUL;
    ok := true;
  }

  lemma RenderStep(t: string, artifactId: string, profileId: string)
    requires t != ""
    ensures var n := if ARTIFACT_REF <= t then |ARTIFACT_REF| else if PROFILE_REF <= t then |PROFILE_REF| else 1;
      var text := if ARTIFACT_REF <= t then artifactId else if PROFILE_REF <= t then profileId else [t[0]];
      0 < n <= |t| && Expansion(t, artifactId, profileId) == text + Expansion(t[n..], artifactId, profileId)
  {
    var n := if ARTIFACT_REF <= t then |ARTIFACT_REF| else if PROFILE_REF <= t then |PROFILE_REF| else 1;
    var ps := Pieces(t);
    assert ps[1..] == Pieces(t[n..]);
  }

  /** `substitute_metrics_template`: succeeds exactly when the expansion has at most 255 characters,
      and then stores it; no write leaves the buffer. */
  method SubstituteTemplate(template: string, artifactId: string, profileId: string) returns (r: Option<string>)
    ensures var text := Expansion(template, artifactId, profileId);
      r == if |text| < PATH_MAX then Some(text) else None
  {
    hide Expansion;
    var result := new char[PATH_MAX];
    result[0] := NUL;
    var pos: nat, p: nat, ok := 0, 0, true;
    ghost var whole := Expansion(template, artifactId, profileId);
    assert template[0..] == template && result[..0] == "";
    while p < |template|
      invariant 0 <= p <= |template| && pos < PATH_MAX
      invariant whole == result[..pos] + Expansion(template[p..], artifactId, profileId)
      decreases |template| - p
    {
      var rest := template[p..];
      RenderStep(rest, artifactId, profileId);
      ghost var before := result[..pos];
      if ARTIFACT_REF <= rest {
        ok, pos := AppendStr(result, pos, artifactId);
        if !ok { return None; }
        Grown(whole, before, artifactId, Expansion(rest[|ARTIFACT_REF|..], artifactId, profileId));
        assert rest[|ARTIFACT_REF|..] == template[p + |ARTIFACT_REF|..];
        p := p + |ARTIFACT_REF|;
        continue;
      }
      if PROFILE_REF <= rest {
        ok, pos := AppendStr(result, pos, profileId);
        if !ok { return None; }
        Grown(whole, before, profileId, Expansion(rest[|PROFILE_REF|..], artifactId, profileId));
        assert rest[|PROFILE_REF|..] == template[p + |PROFILE_REF|..];
        p := p + |PROFILE_REF|;
        continue;
      }
      if pos + 1 >= PATH_MAX {
        return None;
      }
      result[pos] := template[p];
      pos := pos + 1;
      Grown(whole, before, [rest[0]], Expansion(rest[1..], artifactId, profileId));
      assert result[..pos] == before + [rest[0]] && rest[1..] == template[p + 1..];
      p := p + 1;
      result[pos] := NUL;
    }
    assert template[p..] == "";
    EmptyExpansion(artifactId, profileId);
    assert result[..pos] + "" == result[..pos];
    r := Some(result[..pos]);
  }

  lemma EmptyExpansion(artifactId: string, profileId: string)
    ensures Expansion("", artifactId, profileId) == ""
  {
  }

  lemma Grown(whole: string, before: string, text: string, rest: string)
    requires whole == before + (text + rest)
    ensures whole == (before + text) + rest
  {
  }

  // ------------------------------------------------------------------- loading

  /** What the file says so far: the fields at their widths, and the raw template. */
  datatype Fields = Fields(
    profileId: string, artifactId: string, backend: string, template: string, keep: bool, high: bool, reject: bool)

  const NO_FIELDS := Fields("", "", "", "", false, false, false)

  predicate NotEquals(c: char) { c != '=' }

  /** A line as the loader reads it: nothing, or a key and a value around the first `=`. */
  function KeyValue(line: string): Option<(string, string)> {
    var s := Trim(CStr(line));
    var n := SpanLen(s, NotEquals);
    if s == "" || s[0] == '#' || n == |s| then None else Some((s[..n], s[n + 1..]))
  }

  /** `strncpy(field, value, width)` into a zeroed field of `width + 1` bytes. */
  function Cut(value: string, width: nat): string { value[..Min(|value|, width)] }

  const KEY_PROFILE := "profile_id"
  const KEY_ARTIFACT := "artifact_id"
  const KEY_BACKEND := "backend"
  const KEY_TEMPLATE := "metrics_file_template"
  const KEY_KEEP := "adaptation.keep_current_profile"
  const KEY_HIGH := "adaptation.request_high_accuracy_profile"
  const KEY_REJECT := "adaptation.reject_input"

  /** One line of the loop. */
  function Apply(f: Fields, line: string): Fields {
    match KeyValue(line)
    case None => f
    case Some((key, value)) =>
      if key == KEY_PROFILE then f.(profileId := Cut(value, 63))
      else if key == KEY_ARTIFACT then f.(artifactId := Cut(value, 127))
      else if key == KEY_BACKEND then f.(backend := Cut(value, 63))
      else if key == KEY_TEMPLATE then f.(template := Cut(value, 255))
      else if key == KEY_KEEP then f.(keep := value == "allowed")
      else if key == KEY_HIGH then f.(high := value == "allowed")
      else if key == KEY_REJECT then f.(reject := value == "allowed")
      else f
  }

  function ApplyAll(f: Fields, lines: seq<string>): Fields
    decreases |lines|
  {
    if lines == [] then f else Apply(ApplyAll(f, lines[..|lines| - 1]), lines[|lines| - 1])
  }

  /** The values a file gives a key, in order. */
  function Values(lines: seq<string>, key: string): seq<string>
    decreases |lines|
  {
    if lines == [] then []
    else
      var kv := KeyValue(lines[|lines| - 1]);
      Values(lines[..|lines| - 1], key) + if kv.Some? && kv.value.0 == key then [kv.value.1] else []
  }

  /** The last value of a key, or nothing. */
  function Last(lines: seq<string>, key: string): string {
    var vs := Values(lines, key);
    if vs == [] then "" else vs[|vs| - 1]
  }

  lemma LastSnoc(lines: seq<string>, key: string)
    requires lines != []
    ensures var kv := KeyValue(lines[|lines| - 1]);
      Last(lines, key) == if kv.Some? && kv.value.0 == key then kv.value.1 else Last(lines[..|lines| - 1], key)
  {
    hide KeyValue;
  }

  /** The fields that the last values of the keys make up. */
  function FromLast(lines: seq<string>): Fields {
    Fields(Cut(Last(lines, KEY_PROFILE), 63), Cut(Last(lines, KEY_ARTIFACT), 127),
           Cut(Last(lines, KEY_BACKEND), 63), Cut(Last(lines, KEY_TEMPLATE), 255),
           Last(lines, KEY_KEEP) == "allowed", Last(lines, KEY_HIGH) == "allowed", Last(lines, KEY_REJECT) == "allowed")
  }

  lemma FromLastSnoc(lines: seq<string>)
    requires lines != []
    ensures FromLast(lines) == Apply(FromLast(lines[..|lines| - 1]), lines[|lines| - 1])
  {
    hide KeyValue, Cut, Last;
    LastSnoc(lines, KEY_PROFILE);
    LastSnoc(lines, KEY_ARTIFACT);
    LastSnoc(lines, KEY_BACKEND);
    LastSnoc(lines, KEY_TEMPLATE);
    LastSnoc(lines, KEY_KEEP);
    LastSnoc(lines, KEY_HIGH);
    LastSnoc(lines, KEY_REJECT);
    KeysDiffer();
  }

  lemma KeysDiffer()
    ensures |KEY_PROFILE| == 10 && |KEY_ARTIFACT| == 11 && |KEY_BACKEND| == 7 && |KEY_TEMPLATE| == 21
    ensures |KEY_KEEP| == 31 && |KEY_HIGH| == 40 && |KEY_REJECT| == 23
  {
  }

  /** Last wins: every field is the last value of its key, cut to the width of the field, and
      depends on nothing else in the file. */
  lemma {:induction false} LastWins(lines: seq<string>)
    ensures ApplyAll(NO_FIELDS, lines) == FromLast(lines)
    decreases |lines|
  {
    hide Apply, FromLast;
    if lines == [] {
      NothingLast();
    } else {
      LastWins(lines[..|lines| - 1]);
      FromLastSnoc(lines);
    }
  }

  lemma NothingLast()
    ensures FromLast([]) == NO_FIELDS
  {
  }

  datatype Profile = Profile(
    profileId: string, artifactId: string, backend: string, metricsPath: string, keep: bool, high: bool, reject: bool)

  /** The checks and the expansion after the loop. */
  function Finish(f: Fields): Option<Profile> {
    if f.profileId == "" || f.artifactId == "" || f.backend == "" || f.template == "" then None
    else
      var path := Expansion(f.template, f.artifactId, f.profileId);
      if |path| >= PATH_MAX then None
      else Some(Profile(f.profileId, f.artifactId, f.backend, path, f.keep, f.high, f.reject))
  }

  /** `tear_profile_load` */
  function Loaded(content: Option<string>): Option<Profile> {
    if content.None? then None else Finish(ApplyAll(NO_FIELDS, Lines(content.value, 512)))
  }

  /** When a file loads, and as what, in terms of the last values of its keys. */
  lemma ProfileOfLastValues(content: string)
    ensures var lines := Lines(content, 512);
      var id, artifact := Cut(Last(lines, KEY_PROFILE), 63), Cut(Last(lines, KEY_ARTIFACT), 127);
      var path := Expansion(Cut(Last(lines, KEY_TEMPLATE), 255), artifact, id);
      && (Loaded(Some(content)).Some?
          <==> Last(lines, KEY_PROFILE) != "" && Last(lines, KEY_ARTIFACT) != "" && Last(lines, KEY_BACKEND) != "" &&
               Last(lines, KEY_TEMPLATE) != "" && |path| <= 255)
      && (Loaded(Some(content)).Some? ==>
            var p := Loaded(Some(content)).value;
            && p.profileId == id && p.artifactId == artifact && p.metricsPath == path
            && p.backend == Cut(Last(lines, KEY_BACKEND), 63)
            && (p.keep <==> Last(lines, KEY_KEEP) == "allowed") && (p.high <==> Last(lines, KEY_HIGH) == "allowed")
            && (p.reject <==> Last(lines, KEY_REJECT) == "allowed"))
  {
    hide Lines, Last, Expansion, ApplyAll;
    LastWins(Lines(content, 512));
  }

  /** Two files that give every key the same values in the same order load as the same profile,
      however their lines are interleaved -- with the template before or after the ids it mentions. */
  lemma OrderAcrossKeysIsIrrelevant(a: string, b: string)
    requires forall key :: Values(Lines(a, 512), key) == Values(Lines(b, 512), key)
    ensures Loaded(Some(a)) == Loaded(Some(b))
  {
    hide Values, Lines, Cut, Finish, ApplyAll, Last;
    var la, lb := Lines(a, 512), Lines(b, 512);
    LastWins(la);
    LastWins(lb);
    SameLast(la, lb, KEY_PROFILE);
    SameLast(la, lb, KEY_ARTIFACT);
    SameLast(la, lb, KEY_BACKEND);
    SameLast(la, lb, KEY_TEMPLATE);
    SameLast(la, lb, KEY_KEEP);
    SameLast(la, lb, KEY_HIGH);
    SameLast(la, lb, KEY_REJECT);
  }

  lemma SameLast(la: seq<string>, lb: seq<string>, key: string)
    requires Values(la, key) == Values(lb, key)
    ensures Last(la, key) == Last(lb, key)
  {
  }

  // ------------------------------------------------------- what a file says

  /** A line of a profile as its author means it: a setting, or a remark. */
  datatype ProfileLine = Setting(key: string, value: string) | Remark(text: string)

  function LineText(l: ProfileLine): string {
    match l case Setting(key, value) => key + "=" + value case Remark(text) => text
  }

  predicate IsTextChar(c: char) { c != NUL && !IsBreak(c) }

  /** A setting's key ends at its first `=` and is no comment; a remark is empty, a comment, or has no
      `=`. */
  predicate Meant(l: ProfileLine) {
    All(LineText(l), IsTextChar) && |LineText(l)| <= 510 &&
    match l
    case Setting(key, _) => '=' !in key && (key == "" || key[0] != '#')
    case Remark(text) => text == "" || text[0] == '#' || '=' !in text
  }

  predicate AllMeant(ls: seq<ProfileLine>) { forall k | 0 <= k < |ls| :: Meant(ls[k]) }

  function LineTexts(ls: seq<ProfileLine>): (texts: seq<string>)
    ensures |texts| == |ls|
  {
    seq(|ls|, k requires 0 <= k < |ls| => LineText(ls[k]))
  }

  /** A file with these lines. */
  function ProfileText(ls: seq<ProfileLine>): string { TextOf(LineTexts(ls)) }

  /** The values the author gives a key, in order. */
  function Given(ls: seq<ProfileLine>, key: string): seq<string>
    decreases |ls|
  {
    if ls == [] then []
    else
      var l := ls[|ls| - 1];
      Given(ls[..|ls| - 1], key) + if l.Setting? && l.key == key then [l.value] else []
  }

  /** What the author gives a key last, or nothing. */
  function LastGiven(ls: seq<ProfileLine>, key: string): string {
    var vs := Given(ls, key);
    if vs == [] then "" else vs[|vs| - 1]
  }

  /** The loader takes the line feed off again, and nothing else. */
  lemma TextTrims(body: string)
    requires All(body, IsTextChar)
    ensures Trim(CStr(body + "\n")) == body
  {
    hide CStr, Trim;
    var line := body + "\n";
    forall k | 0 <= k < |line| ensures line[k] != NUL {
      assert k < |body| ==> line[k] == body[k] && IsTextChar(body[k]);
    }
    CStrOf(line, "");
    assert body != "" ==> IsTextChar(body[|body| - 1]);
    TrimIs(line, |body|);
    assert line[..|body|] == body;
  }

  lemma SettingSplits(key: string, value: string)
    requires '=' !in key
    ensures var s := key + "=" + value;
      SpanLen(s, NotEquals) == |key| && s[..|key|] == key && s[|key| + 1..] == value
  {
    var s := key + "=" + value;
    assert All(key, NotEquals) && s == key + ("=" + value);
    SpanLenOf(key, "=" + value, NotEquals);
  }

  lemma RemarkSplits(text: string)
    requires '=' !in text
    ensures SpanLen(text, NotEquals) == |text|
  {
    assert All(text, NotEquals) && text + "" == text;
    SpanLenOf(text, "", NotEquals);
  }

  /** One line: a setting is its key and its value, and a remark is nothing. */
  lemma MeantLine(l: ProfileLine)
    requires Meant(l)
    ensures KeyValue(LineText(l) + "\n") == if l.Setting? then Some((l.key, l.value)) else None
  {
    hide Trim, CStr, SpanLen, All;
    TextTrims(LineText(l));
    match l
    case Setting(key, value) =>
      SettingSplits(key, value);
    case Remark(text) =>
      if '=' !in text {
        RemarkSplits(text);
      }
  }

  /** Every setting adds its value under its key, and a remark adds nothing. */
  lemma {:induction false} SettingsAreRead(ls: seq<ProfileLine>, key: string)
    requires AllMeant(ls)
    ensures Values(Lines(ProfileText(ls), 512), key) == Given(ls, key)
  {
    hide Lines, Meant, LineText, TextOf;
    MeantAreWhole(ls);
    LinesOfText(LineTexts(ls));
    ValuesGiven(Lines(ProfileText(ls), 512), ls, key);
  }

  lemma MeantAreWhole(ls: seq<ProfileLine>)
    requires AllMeant(ls)
    ensures WholeLines(LineTexts(ls))
  {
    hide LineText;
    forall k | 0 <= k < |ls| ensures All(LineText(ls[k]), NotNewline) && |LineText(ls[k])| <= 510 {
      assert Meant(ls[k]);
      var t := LineText(ls[k]);
      assert forall i | 0 <= i < |t| :: IsTextChar(t[i]);
    }
  }

  lemma {:induction false} ValuesGiven(lines: seq<string>, ls: seq<ProfileLine>, key: string)
    requires AllMeant(ls) && |lines| == |ls| && forall k | 0 <= k < |ls| :: lines[k] == LineText(ls[k]) + "\n"
    ensures Values(lines, key) == Given(ls, key)
    decreases |ls|
  {
    hide Meant, LineText, KeyValue;
    if ls != [] {
      var n := |ls| - 1;
      ValuesGiven(lines[..n], ls[..n], key);
      assert Meant(ls[n]);
      MeantLine(ls[n]);
    }
  }

  function Allowed(b: bool): string { if b then "allowed" else "forbidden" }

  /** The settings of a profile with a given template. */
  function Settings(p: Profile, template: string): seq<ProfileLine> {
    [Setting("profile_id", p.profileId), Setting("artifact_id", p.artifactId), Setting("backend", p.backend),
     Setting("metrics_file_template", template), Setting("adaptation.keep_current_profile", Allowed(p.keep)),
     Setting("adaptation.request_high_accuracy_profile", Allowed(p.high)),
     Setting("adaptation.reject_input", Allowed(p.reject))]
  }

  /** Texts that fit the fields of a profile. */
  predicate ProfileSafe(p: Profile, template: string) {
    0 < |p.profileId| <= 63 && All(p.profileId, IsTextChar) && 0 < |p.artifactId| <= 127 && All(p.artifactId, IsTextChar) &&
    0 < |p.backend| <= 63 && All(p.backend, IsTextChar) && 0 < |template| <= 255 && All(template, IsTextChar)
  }

  /** What the lines give each key last is the profile with that template. */
  predicate Says(ls: seq<ProfileLine>, p: Profile, template: string) {
    && LastGiven(ls, KEY_PROFILE) == p.profileId && LastGiven(ls, KEY_ARTIFACT) == p.artifactId
    && LastGiven(ls, KEY_BACKEND) == p.backend && LastGiven(ls, KEY_TEMPLATE) == template
    && (LastGiven(ls, KEY_KEEP) == "allowed" <==> p.keep) && (LastGiven(ls, KEY_HIGH) == "allowed" <==> p.high)
    && (LastGiven(ls, KEY_REJECT) == "allowed" <==> p.reject)
  }

  /** Round trip of a profile: a file that gives each key its value, wherever remarks and other settings
      stand between, is loaded as exactly that profile with its template expanded, or not at all when the
      expansion is too long. */
  lemma ProfileRoundTrip(ls: seq<ProfileLine>, p: Profile, template: string)
    requires AllMeant(ls) && Says(ls, p, template) && ProfileSafe(p, template)
    ensures var path := Expansion(template, p.artifactId, p.profileId);
      Loaded(Some(ProfileText(ls))) == if |path| <= 255 then Some(p.(metricsPath := path)) else None
  {
    hide Lines, Last, LastGiven, Expansion, ApplyAll, ProfileText, Loaded, Meant, Cut;
    ProfileOfLastValues(ProfileText(ls));
    LastIsGiven(ls, KEY_PROFILE);
    LastIsGiven(ls, KEY_ARTIFACT);
    LastIsGiven(ls, KEY_BACKEND);
    LastIsGiven(ls, KEY_TEMPLATE);
    LastIsGiven(ls, KEY_KEEP);
    LastIsGiven(ls, KEY_HIGH);
    LastIsGiven(ls, KEY_REJECT);
    NotCut(p.profileId, 63);
    NotCut(p.artifactId, 127);
    NotCut(p.backend, 63);
    NotCut(template, 255);
  }

  lemma LastIsGiven(ls: seq<ProfileLine>, key: string)
    requires AllMeant(ls)
    ensures Last(Lines(ProfileText(ls), 512), key) == LastGiven(ls, key)
  {
    hide Values, Given, Lines, ProfileText, Meant;
    SettingsAreRead(ls, key);
  }

  lemma NotCut(value: string, width: nat)
    requires |value| <= width
    ensures Cut(value, width) == value
  {
  }

  lemma AllowedWords()
    ensures forall b :: Allowed(b) == "allowed" <==> b
  {
    assert |"allowed"| == 7 && |"forbidden"| == 9;
  }

  /** Seven settings of different keys give every one of them its one value. */
  lemma {:induction false} GivenAt(ls: seq<ProfileLine>, k: nat)
    requires k < |ls| && forall i | 0 <= i < |ls| :: ls[i].Setting?
    requires forall i | 0 <= i < |ls| && i != k :: ls[i].key != ls[k].key
    ensures Given(ls, ls[k].key) == [ls[k].value]
    decreases |ls|
  {
    var n := |ls| - 1;
    if k < n {
      GivenAt(ls[..n], k);
    } else {
      NotGiven(ls[..n], ls[k].key);
    }
  }

  lemma {:induction false} NotGiven(ls: seq<ProfileLine>, key: string)
    requires forall i | 0 <= i < |ls| :: ls[i].Setting? && ls[i].key != key
    ensures Given(ls, key) == []
    decreases |ls|
  {
    if ls != [] {
      NotGiven(ls[..|ls| - 1], key);
    }
  }

  lemma GivenOnce(p: Profile, template: string)
    ensures var ls := Settings(p, template);
      && Given(ls, KEY_PROFILE) == [p.profileId] && Given(ls, KEY_ARTIFACT) == [p.artifactId]
      && Given(ls, KEY_BACKEND) == [p.backend] && Given(ls, KEY_TEMPLATE) == [template]
      && Given(ls, KEY_KEEP) == [Allowed(p.keep)] && Given(ls, KEY_HIGH) == [Allowed(p.high)]
      && Given(ls, KEY_REJECT) == [Allowed(p.reject)]
  {
    hide Given, Allowed;
    var ls := Settings(p, template);
    KeysDiffer();
    GivenAt(ls, 0);
    GivenAt(ls, 1);
    GivenAt(ls, 2);
    GivenAt(ls, 3);
    GivenAt(ls, 4);
    GivenAt(ls, 5);
    GivenAt(ls, 6);
  }

  /** Every profile within the widths can be written out: its seven settings say it. */
  lemma SettingsSay(p: Profile, template: string)
    requires ProfileSafe(p, template)
    ensures AllMeant(Settings(p, template)) && Says(Settings(p, template), p, template)
  {
    hide Given, Meant, Settings, All;
    SettingsAreMeant(p, template);
    GivenOnce(p, template);
    AllowedWords();
  }

  lemma SettingsAreMeant(p: Profile, template: string)
    requires ProfileSafe(p, template)
    ensures AllMeant(Settings(p, template))
  {
    hide IsTextChar, PlainKey, Meant, All;
    KeysDiffer();
    NameKeys();
    TemplateKey();
    KeepKey();
    HighKey();
    WordsAreText();
    var ls := Settings(p, template);
    forall k | 0 <= k < |ls| ensures Meant(ls[k]) {
      SettingIsMeant(ls[k].key, ls[k].value);
    }
  }

  /** A key that can stand on a line. */
  predicate PlainKey(key: string) { All(key, IsTextChar) && '=' !in key && key != "" && key[0] != '#' }

  lemma SettingIsMeant(key: string, value: string)
    requires PlainKey(key) && All(value, IsTextChar) && |key| + |value| <= 509
    ensures Meant(Setting(key, value))
  {
  }

  lemma NameKeys()
    ensures PlainKey(KEY_PROFILE) && PlainKey(KEY_ARTIFACT) && PlainKey(KEY_BACKEND)
  {
  }

  lemma TemplateKey()
    ensures PlainKey(KEY_TEMPLATE) && PlainKey(KEY_REJECT)
  {
  }

  lemma KeepKey()
    ensures PlainKey(KEY_KEEP)
  {
  }

  lemma HighKey()
    ensures PlainKey(KEY_HIGH)
  {
  }

  lemma WordsAreText()
    ensures All("allowed", IsTextChar) && All("forbidden", IsTextChar)
  {
  }

  lemma ApplySnoc(f: Fields, lines: seq<string>, line: string)
    ensures ApplyAll(f, lines + [line]) == Apply(ApplyAll(f, lines), line)
  {
    hide Apply;
    var all := lines + [line];
    assert all[..|all| - 1] == lines;
  }

  /** `struct tear_profile` with its loader. */
  class ProfileFile {
    var fields: Fields
    var metricsPath: string

    constructor ()
      ensures fields == NO_FIELDS
    {
      fields, metricsPath := NO_FIELDS, "";
    }

    /** `tear_profile_load`: the loop overwrites the fields line by line. */
    method Load(content: Option<string>) returns (ret: int)
      modifies this
      ensures ret in {0, -1}
      ensures ret == 0 <==> Loaded(content).Some?
      ensures ret == 0 ==> Loaded(content) == Some(Profile(fields.profileId, fields.artifactId, fields.backend,
                                                           metricsPath, fields.keep, fields.high, fields.reject))
    {
      hide Lines, Apply, ApplyAll, Expansion;
      fields := NO_FIELDS;
      if content.None? {
        return -1;
      }
      var text, pos: nat := content.value, 0;
      ghost var seen: seq<string> := [];
      assert text[0..] == text;
      NothingApplied();
      while pos < |text|
        invariant 0 <= pos <= |text|
        invariant seen + Lines(text[pos..], 512) == Lines(text, 512)
        invariant fields == ApplyAll(NO_FIELDS, seen)
        decreases |text| - pos
      {
        ghost var rest := Lines(text[pos..], 512);
        var line;
        line, pos := FGets(text, pos, 512);
        ApplySnoc(NO_FIELDS, seen, line);
        assert seen + ([line] + Lines(text[pos..], 512)) == (seen + [line]) + Lines(text[pos..], 512);
        seen := seen + [line];
        fields := Apply(fields, line);
      }
      assert text[pos..] == "";
      assert seen == Lines(text, 512);
      if fields.profileId == "" || fields.artifactId == "" || fields.backend == "" || fields.template == "" {
        return -1;
      }
      var path := SubstituteTemplate(fields.template, fields.artifactId, fields.profileId);
      if path.None? {
        return -1;
      }
      metricsPath := path.value;
      ret := 0;
    }
  }

  lemma NothingApplied()
    ensures ApplyAll(NO_FIELDS, []) == NO_FIELDS && Lines("", 512) == []
  {
  }
}
