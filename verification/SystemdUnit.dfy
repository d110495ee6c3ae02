/** Writing a systemd unit and reading its metadata comments back (agent/app/servicemgr/service.py). */
module SystemdUnit {
  import opened Text
  import opened Wrappers

  datatype Spec = Spec(name: string, description: string, execStart: string,
                       workingDirectory: Option<string>, user: Option<string>, group: Option<string>,
                       environment: seq<(string, string)>, restart: string, restartSec: nat,
                       limitNofile: Option<int>, after: seq<string>, wantedBy: string,
                       kind: string, version: Option<string>)

  const MANAGED_PREFIX := "argus-rag-worker-"
  const KIND := "# X-Argus-Kind="
  const VERSION := "# X-Argus-Version="

  /** Python's truth value of an optional string. */
  predicate Given(s: Option<string>) { s.Some? && s.value != "" }

  // ---------------------------------------------------------------- what is refused

  predicate NameChar(c: char) {
    'A' <= c <= 'Z' || 'a' <= c <= 'z' || '0' <= c <= '9' || c == '_' || c == '.' || c == '@' || c == '-'
  }

  /** `_NAME_RE.match`: the `$` of the pattern also matches before a final line feed. */
  predicate NameMatches(s: string) {
    && s != "" && (forall i | 0 <= i < |s| - 1 :: NameChar(s[i]))
    && (NameChar(s[|s| - 1]) || (1 < |s| && s[|s| - 1] == '\n'))
  }

  predicate FreeOf(rejected: set<char>, s: string) { forall i | 0 <= i < |s| :: s[i] !in rejected }

  /** The characters `_check_no_newline` looks for. */
  const REJECTED: set<char> := {'\n', '\r'}

  predicate EnvironmentAccepted(rejected: set<char>, env: seq<(string, string)>) {
    forall i | 0 <= i < |env| :: NameMatches(env[i].0) && FreeOf(rejected, env[i].1)
  }

  /** No `ValueError` is raised, with the guard looking for the given characters. */
  predicate Accepted(rejected: set<char>, spec: Spec) {
    && MANAGED_PREFIX <= spec.name && NameMatches(spec.name)
    && FreeOf(rejected, spec.execStart) && FreeOf(rejected, spec.description)
    && EnvironmentAccepted(rejected, spec.environment)
  }

  ghost predicate NoNewline(s: string) { '\n' !in s && '\r' !in s }

  /** What the renderer refuses: names without the prefix or with other characters, and newlines in the texts it checks. */
  lemma AcceptedExactly(spec: Spec)
    ensures Accepted(REJECTED, spec) <==>
              && "argus-rag-worker-" <= spec.name && NameMatches(spec.name)
              && NoNewline(spec.execStart) && NoNewline(spec.description)
              && forall i | 0 <= i < |spec.environment| ::
                   NameMatches(spec.environment[i].0) && NoNewline(spec.environment[i].1)
  {
    hide NameMatches;
    assert forall s: string :: FreeOf(REJECTED, s) <==> NoNewline(s);
    hide FreeOf, NoNewline;
  }

  /** Letters, digits, `_`, `.`, `@` and `-`, at least one of them. */
  ghost predicate NameText(t: string) {
    t != "" && forall c | c in t :: 'A' <= c <= 'Z' || 'a' <= c <= 'z' || '0' <= c <= '9' || c in "_.@-"
  }

  /** What the pattern of names accepts: such a text, with a final line feed or without. */
  lemma NameIs(s: string)
    ensures NameMatches(s) <==> exists t :: NameText(t) && (s == t || s == t + "\n")
  {
    assert forall c: char :: c in "_.@-" <==> c == '_' || c == '.' || c == '@' || c == '-';
    assert forall t :: NameText(t) <==> t != "" && forall c | c in t :: NameChar(c);
    hide NameChar, NameText;
    if NameMatches(s) {
      var t := if NameChar(s[|s| - 1]) then s else s[..|s| - 1];
      assert s == t || s == t + "\n";
      assert forall c | c in t :: NameChar(c);
      assert NameText(t);
    }
    forall t | NameText(t) && (s == t || s == t + "\n") ensures NameMatches(s) {
      assert forall i | 0 <= i < |t| :: s[i] == t[i] && t[i] in t;
    }
  }

  // ---------------------------------------------------------------- environment values

  /** `s.replace(c, with)` for a single character. */
  function Replace(s: string, c: char, with: string): string {
    if s == "" then "" else (if s[0] == c then with else [s[0]]) + Replace(s[1..], c, with)
  }

  function Escape(v: string): string { Replace(Replace(v, '\\', "\\\\"), '\"', "\\\"") }

  /** Every backslash and every quote preceded by a backslash, in one pass. */
  function EscapeOnce(v: string): string {
    if v == "" then ""
    else (if v[0] == '\\' || v[0] == '\"' then ['\\', v[0]] else [v[0]]) + EscapeOnce(v[1..])
  }

  lemma ReplaceCons(head: char, tail: string, c: char, with: string)
    ensures Replace([head] + tail, c, with) == (if head == c then with else [head]) + Replace(tail, c, with)
  {
    assert ([head] + tail)[1..] == tail;
  }

  /** The two chained replacements are the one-pass escape: the second does not touch what the first put in. */
  lemma {:induction false} EscapeIsOnePass(v: string)
    ensures Escape(v) == EscapeOnce(v)
  {
    if v != "" {
      EscapeIsOnePass(v[1..]);
      var c, tail := v[0], Replace(v[1..], '\\', "\\\\");
      if c == '\\' {
        assert Replace(v, '\\', "\\\\") == ['\\'] + (['\\'] + tail);
        ReplaceCons('\\', ['\\'] + tail, '\"', "\\\"");
        ReplaceCons('\\', tail, '\"', "\\\"");
        assert ['\\'] + (['\\'] + Escape(v[1..])) == ['\\', c] + Escape(v[1..]);
      } else {
        assert Replace(v, '\\', "\\\\") == [c] + tail;
        ReplaceCons(c, tail, '\"', "\\\"");
      }
    }
  }

  /** Reads a quoted text up to its closing quote: a backslash makes the next character literal. */
  function ReadQuoted(s: string): Option<(string, string)> {
    if s == "" then None
    else if s[0] == '\"' then Some(("", s[1..]))
    else if s[0] == '\\' then
      if |s| == 1 then None else Prepend(s[1], ReadQuoted(s[2..]))
    else Prepend(s[0], ReadQuoted(s[1..]))
  }

  function Prepend(c: char, r: Option<(string, string)>): Option<(string, string)> {
    if r.Some? then Some(([c] + r.value.0, r.value.1)) else None
  }

  /** Reading the quoted value back gives the value, and stops at the quote the renderer wrote after it: the
      escaped text contains no bare quote. */
  lemma {:induction false} QuotedReadsBack(v: string, rest: string)
    ensures ReadQuoted(Escape(v) + "\"" + rest) == Some((v, rest))
  {
    EscapeIsOnePass(v);
    if v == "" {
      assert "" + "\"" + rest == "\"" + rest && ("\"" + rest)[1..] == rest;
    } else {
      QuotedReadsBack(v[1..], rest);
      EscapeIsOnePass(v[1..]);
      var c, tail := v[0], EscapeOnce(v[1..]) + "\"" + rest;
      assert v == [c] + v[1..];
      assert EscapeOnce(v) + "\"" + rest == (if c == '\\' || c == '\"' then ['\\', c] else [c]) + tail;
      hide Escape, EscapeOnce;
      ReadQuotedCons(c, tail);
    }
  }

  lemma ReadQuotedCons(c: char, tail: string)
    ensures ReadQuoted((if c == '\\' || c == '\"' then ['\\', c] else [c]) + tail) == Prepend(c, ReadQuoted(tail))
  {
    if c == '\\' || c == '\"' {
      assert (['\\', c] + tail)[2..] == tail;
    } else {
      assert ([c] + tail)[1..] == tail;
    }
  }

  // ---------------------------------------------------------------- rendering

  datatype Key =
    | Description | After | Type | User | Group | WorkingDirectory | Environment
    | ExecStart | Restart | RestartSec | LimitNofile | WantedBy

  function KeyText(k: Key): string {
    match k
    case Description => "Description"
    case After => "After"
    case Type => "Type"
    case User => "User"
    case Group => "Group"
    case WorkingDirectory => "WorkingDirectory"
    case Environment => "Environment"
    case ExecStart => "ExecStart"
    case Restart => "Restart"
    case RestartSec => "RestartSec"
    case LimitNofile => "LimitNOFILE"
    case WantedBy => "WantedBy"
  }

  function Line(k: Key, value: string): string { KeyText(k) + ("=" + value) }

  function LineIfGiven(k: Key, value: Option<string>): seq<string> { if Given(value) then [Line(k, value.value)] else [] }

  /** `f"{n}"` of an integer. */
  function IntText(n: int): string { if n < 0 then "-" + Digits(-n) else Digits(n) }

  /** Different numbers are written differently, and a natural number as its digits. */
  lemma IntTextInjective(m: int, n: int)
    requires IntText(m) == IntText(n)
    ensures m == n
  {
    var dm, dn := Digits(if m < 0 then -m else m), Digits(if n < 0 then -n else n);
    assert dm[0] in dm && dn[0] in dn;
    hide Digits;
    if m < 0 && n < 0 {
      assert ("-" + Digits(-m))[1..] == Digits(-m) && ("-" + Digits(-n))[1..] == Digits(-n);
      DigitsInjective(-m, -n);
    } else if m >= 0 && n >= 0 {
      DigitsInjective(m, n);
    }
  }

  function PathLine(name: string): string { "# /etc/systemd/system/" + name + ".service" }

  function ManagedLine(): string {
    "# Managed by " + ("Argus RAG Studio Agent " + ("(servicemgr) - " + "DO NOT EDIT BY HAND"))
  }

  function EnvLine(entry: (string, string)): string {
    KeyText(Environment) + ("=\"" + entry.0 + ("=" + Escape(entry.1) + "\""))
  }

  function EnvLines(env: seq<(string, string)>): (out: seq<string>)
    ensures |out| == |env| && forall i | 0 <= i < |env| :: out[i] == EnvLine(env[i])
  {
    seq(|env|, i requires 0 <= i < |env| => EnvLine(env[i]))
  }

  function MetaLines(spec: Spec): seq<string> {
    [KIND + spec.kind] + if Given(spec.version) then [VERSION + spec.version.value] else []
  }

  function ServiceLines(spec: Spec): seq<string> {
    ["", "[Service]", Line(Type, "simple")]
    + LineIfGiven(User, spec.user) + LineIfGiven(Group, spec.group)
    + LineIfGiven(WorkingDirectory, spec.workingDirectory)
    + EnvLines(spec.environment)
    + [Line(ExecStart, spec.execStart), Line(Restart, spec.restart), Line(RestartSec, Digits(spec.restartSec))]
    + (if spec.limitNofile.Some? then [Line(LimitNofile, IntText(spec.limitNofile.value))] else [])
    + ["", "[Install]", Line(WantedBy, spec.wantedBy)]
  }

  function AfterLines(spec: Spec): seq<string> {
    if spec.after != [] then [Line(After, Join(" ", spec.after))] else []
  }

  function UnitLines(spec: Spec): seq<string> {
    [PathLine(spec.name), ManagedLine()] + MetaLines(spec)
    + ["", "[Unit]", Line(Description, spec.description)] + AfterLines(spec) + ServiceLines(spec)
  }

  function Render(spec: Spec): string { Terminated(UnitLines(spec)) }

  /** `render_unit`; `None` is the `ValueError`. */
  method RenderUnit(spec: Spec) returns (text: Option<string>)
    ensures text == if Accepted(REJECTED, spec) then Some(Render(spec)) else None
  {
    if !(MANAGED_PREFIX <= spec.name) || !NameMatches(spec.name)
       || !FreeOf(REJECTED, spec.execStart) || !FreeOf(REJECTED, spec.description) {
      return None;
    }
    var envOk := CheckEnvironment(spec.environment);
    if !envOk { return None; }
    hide Line, PathLine, ManagedLine, Given, Accepted, Join, Terminated, Join, LineIfGiven, ServiceLines;
    var lines := [PathLine(spec.name), ManagedLine()];
    lines := lines + [KIND + spec.kind];
    if Given(spec.version) { lines := lines + [VERSION + spec.version.value]; }
    assert lines == [PathLine(spec.name), ManagedLine()] + MetaLines(spec);
    lines := lines + ["", "[Unit]", Line(Description, spec.description)];
    ghost var before := lines;
    if spec.after != [] { lines := lines + [Line(After, Join(" ", spec.after))]; }
    assert lines == before + AfterLines(spec);
    var service := RenderService(spec);
    lines := lines + service;
    assert lines == UnitLines(spec);
    JoinIsTerminated(lines + [""]);
    assert (lines + [""])[..|lines|] == lines && Terminated(lines) + "" == Terminated(lines);
    return Some(Join("\n", lines + [""]));
  }

  /** The sections after the unit description. */
  method RenderService(spec: Spec) returns (lines: seq<string>)
    ensures lines == ServiceLines(spec)
  {
    hide Line, Given, Join, EnvLine, IntText, Digits;
    lines := ["", "[Service]", Line(Type, "simple")];
    lines := AddIfGiven(lines, User, spec.user);
    lines := AddIfGiven(lines, Group, spec.group);
    lines := AddIfGiven(lines, WorkingDirectory, spec.workingDirectory);
    lines := AddEnvironment(lines, spec.environment);
    lines := lines + [Line(ExecStart, spec.execStart), Line(Restart, spec.restart),
                      Line(RestartSec, Digits(spec.restartSec))];
    ghost var before := lines;
    if spec.limitNofile.Some? { lines := lines + [Line(LimitNofile, IntText(spec.limitNofile.value))]; }
    assert before + [] == before;
    lines := lines + ["", "[Install]", Line(WantedBy, spec.wantedBy)];
  }

  method AddIfGiven(lines: seq<string>, k: Key, value: Option<string>) returns (out: seq<string>)
    ensures out == lines + LineIfGiven(k, value)
  {
    out := lines;
    if Given(value) { out := out + [Line(k, value.value)]; }
  }

  method AddEnvironment(lines: seq<string>, env: seq<(string, string)>) returns (out: seq<string>)
    ensures out == lines + EnvLines(env)
  {
    hide EnvLine;
    out := lines;
    for i := 0 to |env|
      invariant out == lines + EnvLines(env[..i])
    {
      out := out + [EnvLine(env[i])];
      assert EnvLines(env[..i + 1]) == EnvLines(env[..i]) + [EnvLine(env[i])];
    }
    assert env[..|env|] == env;
  }

  method CheckEnvironment(env: seq<(string, string)>) returns (ok: bool)
    ensures ok <==> EnvironmentAccepted(REJECTED, env)
  {
    for i := 0 to |env|
      invariant forall j | 0 <= j < i :: NameMatches(env[j].0) && FreeOf(REJECTED, env[j].1)
    {
      if !NameMatches(env[i].0) || !FreeOf(REJECTED, env[i].1) { return false; }
    }
    return true;
  }

  // ---------------------------------------------------------------- reading the metadata

  datatype Meta = Meta(kind: Option<string>, version: Option<string>)

  const NOTHING := Meta(None, None)

  /** `line.split("=", 1)[1]` of a line with an equals sign. */
  function AfterEquals(line: string): string {
    if line == "" then "" else if line[0] == '=' then line[1..] else AfterEquals(line[1..])
  }

  function ReadLine(m: Meta, line: string): Meta {
    if KIND <= line then m.(kind := Some(Strip(AfterEquals(line))))
    else if VERSION <= line then m.(version := Some(Strip(AfterEquals(line))))
    else m
  }

  function ReadFrom(m: Meta, lines: seq<string>): Meta
    decreases |lines|
  {
    if lines == [] then m else ReadFrom(ReadLine(m, lines[0]), lines[1..])
  }

  function ReadText(text: string): Meta { ReadFrom(NOTHING, SplitLines(StrSplitlines, text)) }

  /** `_read_metadata`. */
  method ReadMetadata(file: Option<string>) returns (kind: Option<string>, version: Option<string>)
    ensures Meta(kind, version) == if file.Some? then ReadText(file.value) else NOTHING
  {
    kind, version := None, None;
    if file.None? { return; }
    hide Strip, AfterEquals;
    var lines := SplitLines(StrSplitlines, file.value);
    for i := 0 to |lines|
      invariant ReadFrom(Meta(kind, version), lines[i..]) == ReadText(file.value)
    {
      var line := lines[i];
      assert lines[i..][0] == line && lines[i..][1..] == lines[i + 1..];
      if KIND <= line {
        kind := Some(Strip(AfterEquals(line)));
      } else if VERSION <= line {
        version := Some(Strip(AfterEquals(line)));
      }
    }
  }

  // ---------------------------------------------------------------- which lines matter to the reader

  predicate Ordinary(line: string) { !(KIND <= line) && !(VERSION <= line) }

  /** A rendered line none of whose physical lines is a metadata line. */
  ghost predicate Quiet(line: string) {
    forall p | p in SplitLines(StrSplitlines, line + "\n") :: Ordinary(p)
  }

  ghost predicate AllQuiet(lines: seq<string>) { forall l | l in lines :: Quiet(l) }

  /** The metadata of `m` where those of `later` say nothing. */
  function Over(m: Meta, later: Meta): Meta {
    Meta(if later.kind.Some? then later.kind else m.kind, if later.version.Some? then later.version else m.version)
  }

  /** What the reader makes of a list of rendered lines, starting from `m`. */
  function Scan(m: Meta, lines: seq<string>): Meta { ReadFrom(m, SplitLines(StrSplitlines, Terminated(lines))) }

  lemma {:induction false} ReadFromConcat(m: Meta, a: seq<string>, b: seq<string>)
    ensures ReadFrom(m, a + b) == ReadFrom(ReadFrom(m, a), b)
    decreases |a|
  {
    hide ReadLine;
    if a == [] {
      assert a + b == b;
    } else {
      ReadFromConcat(ReadLine(m, a[0]), a[1..], b);
      assert (a + b)[1..] == a[1..] + b;
    }
  }

  lemma ScanFirst(m: Meta, line: string, rest: seq<string>)
    ensures Scan(m, [line] + rest) == Scan(ReadFrom(m, SplitLines(StrSplitlines, line + "\n")), rest)
  {
    hide SplitLines, Terminated, ReadFrom;
    TerminatedCons(line, rest);
    SplitAtFeed(StrSplitlines, line, Terminated(rest));
    ReadFromConcat(m, SplitLines(StrSplitlines, line + "\n"), SplitLines(StrSplitlines, Terminated(rest)));
  }

  lemma OneLine(line: string)
    requires NoBreak(StrSplitlines, line)
    ensures SplitLines(StrSplitlines, line + "\n") == [line]
  {
    SplitFirst(StrSplitlines, line, "");
    assert line + "\n" + "" == line + "\n";
  }

  /** What was read before only matters where nothing is read later. */
  lemma {:induction false} ReadFromIsOver(m: Meta, lines: seq<string>)
    ensures ReadFrom(m, lines) == Over(m, ReadFrom(NOTHING, lines))
    decreases |lines|
  {
    if lines != [] {
      var line, rest := lines[0], lines[1..];
      ReadFromIsOver(ReadLine(m, line), rest);
      ReadFromIsOver(ReadLine(NOTHING, line), rest);
      assert ReadLine(m, line) == Over(m, ReadLine(NOTHING, line));
      hide ReadLine;
    }
  }

  lemma {:induction false} ReadsNothing(lines: seq<string>)
    ensures ReadFrom(NOTHING, lines) == NOTHING <==> forall p | p in lines :: Ordinary(p)
    decreases |lines|
  {
    if lines != [] {
      var line, rest := lines[0], lines[1..];
      ReadsNothing(rest);
      assert lines == [line] + rest;
      assert ReadLine(NOTHING, line) == NOTHING <==> Ordinary(line);
      hide ReadLine, Ordinary;
      ReadFromIsOver(ReadLine(NOTHING, line), rest);
    }
  }

  lemma ScanIsOver(m: Meta, lines: seq<string>)
    ensures Scan(m, lines) == Over(m, Scan(NOTHING, lines))
  {
    ReadFromIsOver(m, SplitLines(StrSplitlines, Terminated(lines)));
  }

  lemma AllQuietCons(line: string, rest: seq<string>)
    ensures AllQuiet([line] + rest) <==> Quiet(line) && AllQuiet(rest)
  {
    hide Quiet;
    assert forall l :: l in [line] + rest <==> l == line || l in rest;
  }

  lemma {:induction false} ScansNothing(lines: seq<string>)
    ensures Scan(NOTHING, lines) == NOTHING <==> AllQuiet(lines)
  {
    if lines == [] {
      ScanNothing(NOTHING);
    } else {
      hide Scan, ReadFrom, AllQuiet, SplitLines;
      var line, rest := lines[0], lines[1..];
      ScansNothing(rest);
      assert lines == [line] + rest;
      ReadsNothing(SplitLines(StrSplitlines, line + "\n"));
      AllQuietCons(line, rest);
      ScanFirst(NOTHING, line, rest);
      ScanIsOver(ReadFrom(NOTHING, SplitLines(StrSplitlines, line + "\n")), rest);
    }
  }

  lemma ScanNothing(m: Meta)
    ensures Scan(m, []) == m
  {}

  // ---------------------------------------------------------------- texts that hide a metadata line

  /** Behind a line boundary the text goes on like a metadata line. */
  ghost predicate Hides(s: string) {
    exists i :: 0 < i < |s| && IsBreak(StrSplitlines, s[i - 1]) && !Ordinary(s[i..])
  }

  lemma HidesCons(c: char, t: string)
    ensures Hides([c] + t) <==> (IsBreak(StrSplitlines, c) && !Ordinary(t)) || Hides(t)
  {
    hide IsBreak;
    var s := [c] + t;
    assert s[1..] == t;
    assert forall i | 1 < i < |s| :: s[i..] == t[i - 1..] && s[i - 1] == t[i - 2];
    if IsBreak(StrSplitlines, c) && !Ordinary(t) { assert s[1 - 1] == c; }
    if Hides(t) {
      var i :| 0 < i < |t| && IsBreak(StrSplitlines, t[i - 1]) && !Ordinary(t[i..]);
      assert s[i + 1..] == t[i..] && s[i] == t[i - 1];
      assert s[(i + 1) - 1] == t[i - 1];
    }
  }

  lemma NothingHides()
    ensures !Hides("") && Ordinary("")
  {}

  /** What stands before the first line boundary is of no concern. */
  lemma {:induction false} HidesBehind(a: string, t: string)
    requires NoBreak(StrSplitlines, a)
    ensures Hides(a + t) <==> Hides(t)
  {
    hide Hides, IsBreak, Ordinary;
    if a == "" {
      assert a + t == t;
    } else {
      assert a[0] in a && forall c | c in a[1..] :: c in a;
      HidesBehind(a[1..], t);
      assert a + t == [a[0]] + (a[1..] + t);
      HidesCons(a[0], a[1..] + t);
    }
  }

  lemma OneLineHidesNothing(s: string)
    requires NoBreak(StrSplitlines, s)
    ensures !Hides(s)
  {
    hide Hides, NoBreak;
    NothingHides();
    HidesBehind(s, "");
    assert s + "" == s;
  }

  lemma OrdinarySnoc(s: string, c: char)
    requires c !in KIND && c !in VERSION
    ensures Ordinary(s + [c]) <==> Ordinary(s)
  {
    PrefixSnoc(KIND, s, c);
    PrefixSnoc(VERSION, s, c);
  }

  lemma PrefixSnoc(tag: string, s: string, c: char)
    requires c !in tag
    ensures tag <= s + [c] <==> tag <= s
  {
    assert (s + [c])[|s|] == c;
  }

  lemma {:induction false} HidesSnoc(s: string, c: char)
    requires c !in KIND && c !in VERSION
    ensures Hides(s + [c]) <==> Hides(s)
  {
    hide Hides, IsBreak, Ordinary, KIND, VERSION;
    if s == "" {
      assert s + [c] == [c] + "";
      HidesCons(c, "");
      NothingHides();
    } else {
      HidesSnoc(s[1..], c);
      OrdinarySnoc(s[1..], c);
      assert s == [s[0]] + s[1..];
      assert s + [c] == [s[0]] + (s[1..] + [c]);
      HidesCons(s[0], s[1..]);
      HidesCons(s[0], s[1..] + [c]);
    }
  }

  lemma TagsArePlain()
    ensures forall c | c == '\n' || c == '\"' || c == '\\' :: c !in KIND && c !in VERSION
    ensures NoBreak(StrSplitlines, KIND) && NoBreak(StrSplitlines, VERSION)
  {
    PrintableHasNoBreak(KIND);
    PrintableHasNoBreak(VERSION);
  }

  lemma OrdinaryUpToBreak(a: string, c: char, t: string)
    requires IsBreak(StrSplitlines, c)
    ensures Ordinary(a + [c] + t) <==> Ordinary(a)
  {
    TagsArePlain();
    hide IsBreak;
    PrefixUpTo(KIND, a, c, t);
    PrefixUpTo(VERSION, a, c, t);
  }

  lemma PrefixUpTo(tag: string, a: string, c: char, t: string)
    requires c !in tag
    ensures tag <= a + [c] + t <==> tag <= a
  {
    assert (a + [c] + t)[|a|] == c;
  }

  lemma OnlySignStartsTag(s: string)
    ensures s == "" || s[0] != '#' ==> Ordinary(s)
  {
    assert KIND[0] == '#' && VERSION[0] == '#';
  }

  /** The physical lines of a text are ordinary if and only if it neither begins like a metadata line nor hides one. */
  lemma {:induction false} LinesAreOrdinary(s: string)
    ensures (forall p | p in SplitLines(StrSplitlines, s) :: Ordinary(p)) <==> Ordinary(s) && !Hides(s)
    decreases |s|
  {
    hide Hides, IsBreak, Ordinary, NoBreak, SplitLines;
    var n := LineLength(StrSplitlines, s);
    if n == |s| {
      assert s[..n] == s;
      OneLineHidesNothing(s);
      NothingHides();
      NoLines(StrSplitlines);
      if s != "" { SplitOne(StrSplitlines, s); }
    } else {
      var c, t := s[n], s[n + 1..];
      assert s == s[..n] + [c] + t;
      assert c == '\r' && t != "" && t[0] == '\n' ==> t == ['\n'] + t[1..];
      LinesAreOrdinary(BehindBreak(c, t));
      OrdinaryAtBreak(s[..n], c, t);
    }
  }

  /** What follows a line boundary: a line feed after a carriage return belongs to it. */
  function BehindBreak(c: char, t: string): string {
    if c == '\r' && t != "" && t[0] == '\n' then t[1..] else t
  }

  lemma OrdinaryAtBreak(a: string, c: char, t: string)
    requires NoBreak(StrSplitlines, a) && IsBreak(StrSplitlines, c)
    requires (forall p | p in SplitLines(StrSplitlines, BehindBreak(c, t)) :: Ordinary(p))
      <==> Ordinary(BehindBreak(c, t)) && !Hides(BehindBreak(c, t))
    ensures (forall p | p in SplitLines(StrSplitlines, a + [c] + t) :: Ordinary(p))
      <==> Ordinary(a + [c] + t) && !Hides(a + [c] + t)
  {
    hide Hides, IsBreak, Ordinary, NoBreak, SplitLines;
    SplitFirstBreak(StrSplitlines, a, c, t);
    OrdinaryUpToBreak(a, c, t);
    assert a + [c] + t == a + ([c] + t);
    HidesBehind(a, [c] + t);
    HidesCons(c, t);
    if BehindBreak(c, t) != t {
      assert t == ['\n'] + t[1..];
      HidesCons('\n', t[1..]);
      OnlySignStartsTag(t);
      FeedIsBreak();
    }
  }

  lemma FeedIsBreak()
    ensures IsBreak(StrSplitlines, '\n')
  {}

  lemma QuietIs(line: string)
    ensures Quiet(line) <==> Ordinary(line) && !Hides(line)
  {
    TagsArePlain();
    hide Hides, Ordinary;
    LinesAreOrdinary(line + "\n");
    OrdinarySnoc(line, '\n');
    HidesSnoc(line, '\n');
  }

  // ---------------------------------------------------------------- the rendered lines

  /** A start of line that no metadata prefix shares. */
  predicate Apart(line: string) { line == "" || line[0] != '#' || (3 <= |line| && line[2] != 'X') }

  lemma ApartIsOrdinary(line: string)
    requires Apart(line)
    ensures Ordinary(line)
  {
    assert KIND[0] == '#' && VERSION[0] == '#' && KIND[2] == 'X' && VERSION[2] == 'X' && |KIND| == 15 && |VERSION| == 18;
  }

  lemma QuietLine(line: string)
    requires Apart(line) && NoBreak(StrSplitlines, line)
    ensures Quiet(line)
  {
    hide Ordinary, Quiet, Hides;
    QuietIs(line);
    ApartIsOrdinary(line);
    OneLineHidesNothing(line);
  }

  lemma NoBreakConcat(a: string, b: string)
    requires NoBreak(StrSplitlines, a) && NoBreak(StrSplitlines, b)
    ensures NoBreak(StrSplitlines, a + b)
  {
    hide IsBreak;
  }

  ghost predicate Printable(s: string) { forall i | 0 <= i < |s| :: ' ' <= s[i] <= '~' }

  lemma PrintableHasNoBreak(s: string)
    requires Printable(s)
    ensures NoBreak(StrSplitlines, s)
  {
    assert forall c: char | ' ' <= c <= '~' :: !IsBreak(StrSplitlines, c);
    hide IsBreak;
  }

  lemma KeyIsPlain(k: Key)
    ensures KeyText(k) != "" && KeyText(k)[0] != '#' && NoBreak(StrSplitlines, KeyText(k) + "=")
  {
    hide NoBreak;
    PrintableHasNoBreak(KeyText(k) + "=");
  }

  /** A directive is quiet if and only if its value hides nothing. */
  lemma QuietDirective(k: Key, value: string)
    ensures Quiet(Line(k, value)) <==> !Hides(value)
  {
    hide KeyText, Quiet, NoBreak, Hides, Ordinary;
    KeyIsPlain(k);
    QuietIs(Line(k, value));
    ApartIsOrdinary(Line(k, value));
    assert Line(k, value) == (KeyText(k) + "=") + value;
    HidesBehind(KeyText(k) + "=", value);
  }

  lemma NameHasNoBreak(s: string)
    requires forall i | 0 <= i < |s| :: NameChar(s[i])
    ensures NoBreak(StrSplitlines, s)
  {
    assert forall c: char | NameChar(c) :: !IsBreak(StrSplitlines, c);
    hide NameChar, IsBreak;
  }

  /** A name may end in a line feed; what follows it then starts a physical line of its own. */
  lemma HidesAroundName(before: string, name: string, behind: string)
    requires NameMatches(name) && NoBreak(StrSplitlines, before) && behind != "" && behind[0] != '#'
    ensures Hides(before + (name + behind)) <==> Hides(behind)
  {
    hide NoBreak, Hides, Ordinary;
    HidesBehind(before, name + behind);
    var n := |name| - 1;
    if name[n] == '\n' {
      NameHasNoBreak(name[..n]);
      hide NameMatches;
      assert name + behind == name[..n] + (['\n'] + behind);
      HidesBehind(name[..n], ['\n'] + behind);
      HidesCons('\n', behind);
      OnlySignStartsTag(behind);
    } else {
      NameHasNoBreak(name);
      HidesBehind(name, behind);
    }
  }

  lemma {:induction false} EscapedPrefix(tag: string, v: string)
    requires '\\' !in tag && '\"' !in tag
    ensures tag <= EscapeOnce(v) <==> tag <= v
  {
    if tag != "" && v != "" {
      assert tag == [tag[0]] + tag[1..] && v == [v[0]] + v[1..];
      assert tag[0] in tag;
      if v[0] == '\\' || v[0] == '\"' {
        assert EscapeOnce(v)[0] == '\\';
      } else {
        EscapedPrefix(tag[1..], v[1..]);
        assert EscapeOnce(v)[1..] == EscapeOnce(v[1..]);
      }
    }
  }

  lemma EscapedOrdinary(v: string)
    ensures Ordinary(EscapeOnce(v)) <==> Ordinary(v)
  {
    TagsArePlain();
    EscapedPrefix(KIND, v);
    EscapedPrefix(VERSION, v);
  }

  /** Escaping neither hides nor reveals anything. */
  lemma {:induction false} EscapedHides(v: string)
    ensures Hides(EscapeOnce(v)) <==> Hides(v)
  {
    hide Hides, Ordinary;
    if v != "" {
      var c, t := v[0], v[1..];
      EscapedHides(t);
      EscapedOrdinary(t);
      assert v == [c] + t;
      HidesCons(c, t);
      HidesCons(c, EscapeOnce(t));
      if c == '\\' || c == '\"' {
        assert EscapeOnce(v) == ['\\'] + ([c] + EscapeOnce(t));
        HidesCons('\\', [c] + EscapeOnce(t));
      }
    }
  }

  lemma QuietEnvLine(entry: (string, string))
    requires NameMatches(entry.0)
    ensures Quiet(EnvLine(entry)) <==> !Hides(entry.1)
  {
    EscapeIsOnePass(entry.1);
    EscapedHides(entry.1);
    TagsArePlain();
    PrintableHasNoBreak("=");
    var before := KeyText(Environment) + "=\"";
    PrintableHasNoBreak(before);
    hide KeyText, Quiet, NoBreak, Escape, EscapeOnce, NameMatches, Hides, Ordinary;
    var behind := "=" + (Escape(entry.1) + "\"");
    HidesAroundName(before, entry.0, behind);
    HidesBehind("=", Escape(entry.1) + "\"");
    HidesSnoc(Escape(entry.1), '\"');
    var line := before + (entry.0 + behind);
    assert EnvLine(entry) == line;
    KeyIsPlain(Environment);
    ApartIsOrdinary(line);
    QuietIs(line);
  }

  lemma QuietPathLine(name: string)
    requires NameMatches(name)
    ensures Quiet(PathLine(name))
  {
    var before, behind := "# /etc/systemd/system/", ".service";
    PrintableHasNoBreak(before);
    PrintableHasNoBreak(behind);
    hide Quiet, NoBreak, NameMatches, Hides, Ordinary;
    var line := before + (name + behind);
    assert line == PathLine(name) && line[2] == '/';
    HidesAroundName(before, name, behind);
    OneLineHidesNothing(behind);
    ApartIsOrdinary(line);
    QuietIs(line);
  }

  lemma QuietManagedLine()
    ensures Quiet(ManagedLine())
  {
    var a, b, c, d := "# Managed by ", "Argus RAG Studio Agent ", "(servicemgr) - ", "DO NOT EDIT BY HAND";
    PrintableHasNoBreak(a);
    PrintableHasNoBreak(b);
    PrintableHasNoBreak(c);
    PrintableHasNoBreak(d);
    assert a[2] == 'M';
    hide Quiet, NoBreak;
    NoBreakConcat(c, d);
    NoBreakConcat(b, c + d);
    NoBreakConcat(a, b + (c + d));
    QuietLine(ManagedLine());
  }

  lemma QuietFixedLines()
    ensures Quiet("") && Quiet("[Unit]") && Quiet("[Service]") && Quiet("[Install]")
  {
    PrintableHasNoBreak("[Unit]");
    PrintableHasNoBreak("[Service]");
    PrintableHasNoBreak("[Install]");
    hide Quiet, NoBreak;
    QuietLine("");
    QuietLine("[Unit]");
    QuietLine("[Service]");
    QuietLine("[Install]");
  }

  // ---------------------------------------------------------------- what the fields hide

  ghost predicate HidesIfGiven(s: Option<string>) { s.Some? && Hides(s.value) }

  ghost predicate EnvironmentHides(env: seq<(string, string)>) { exists i :: 0 <= i < |env| && Hides(env[i].1) }

  /** Some text behind the metadata lines of the unit hides a metadata line. The names in `after` are joined first: two
      of them can form one together. */
  ghost predicate FieldsHide(spec: Spec) {
    || Hides(spec.description) || Hides(Join(" ", spec.after))
    || HidesIfGiven(spec.user) || HidesIfGiven(spec.group) || HidesIfGiven(spec.workingDirectory)
    || EnvironmentHides(spec.environment)
    || Hides(spec.execStart) || Hides(spec.restart) || Hides(spec.wantedBy)
  }

  /** The names that the renderer checks. */
  predicate NamesMatch(spec: Spec) {
    NameMatches(spec.name) && forall i | 0 <= i < |spec.environment| :: NameMatches(spec.environment[i].0)
  }

  function LinesBehind(spec: Spec): seq<string> {
    ["", "[Unit]", Line(Description, spec.description)] + AfterLines(spec) + ServiceLines(spec)
  }

  lemma AllQuietConcat(a: seq<string>, b: seq<string>)
    ensures AllQuiet(a + b) <==> AllQuiet(a) && AllQuiet(b)
  {
    hide Quiet;
    assert forall l :: l in a + b <==> l in a || l in b;
  }

  lemma QuietIfGiven(k: Key, value: Option<string>)
    ensures AllQuiet(LineIfGiven(k, value)) <==> !HidesIfGiven(value)
  {
    NothingHides();
    hide Quiet, Hides, Line;
    if value.Some? { QuietDirective(k, value.value); }
  }

  lemma QuietEnvLines(env: seq<(string, string)>)
    requires forall i | 0 <= i < |env| :: NameMatches(env[i].0)
    ensures AllQuiet(EnvLines(env)) <==> !EnvironmentHides(env)
  {
    hide Quiet, Hides, NameMatches, EnvLine;
    var lines := EnvLines(env);
    forall i | 0 <= i < |env| ensures lines[i] in lines && (Quiet(lines[i]) <==> !Hides(env[i].1)) {
      QuietEnvLine(env[i]);
    }
  }

  lemma DirectiveWithoutBreak(k: Key, value: string)
    requires NoBreak(StrSplitlines, value)
    ensures Quiet(Line(k, value))
  {
    hide Quiet, Hides, NoBreak, Line;
    QuietDirective(k, value);
    OneLineHidesNothing(value);
  }

  lemma DigitsArePrintable(n: nat)
    ensures Printable(Digits(n))
  {}

  lemma IntTextHasNoBreak(n: int)
    ensures NoBreak(StrSplitlines, IntText(n))
  {
    var d := if n < 0 then Digits(-n) else Digits(n);
    DigitsArePrintable(if n < 0 then -n else n);
    PrintableHasNoBreak(d);
    PrintableHasNoBreak("-");
    hide NoBreak, Digits;
    NoBreakConcat("-", d);
  }

  lemma QuietLimit(limit: Option<int>)
    ensures AllQuiet(if limit.Some? then [Line(LimitNofile, IntText(limit.value))] else [])
  {
    hide Quiet, NoBreak, IntText, Line;
    if limit.Some? {
      IntTextHasNoBreak(limit.value);
      DirectiveWithoutBreak(LimitNofile, IntText(limit.value));
    }
  }

  lemma QuietStart(spec: Spec)
    ensures AllQuiet([Line(ExecStart, spec.execStart), Line(Restart, spec.restart), Line(RestartSec, Digits(spec.restartSec))])
       <==> !Hides(spec.execStart) && !Hides(spec.restart)
  {
    DigitsArePrintable(spec.restartSec);
    PrintableHasNoBreak(Digits(spec.restartSec));
    hide Quiet, NoBreak, Digits, Line, Hides;
    QuietDirective(ExecStart, spec.execStart);
    QuietDirective(Restart, spec.restart);
    DirectiveWithoutBreak(RestartSec, Digits(spec.restartSec));
    var lines := [Line(ExecStart, spec.execStart), Line(Restart, spec.restart), Line(RestartSec, Digits(spec.restartSec))];
    assert lines[0] in lines && lines[1] in lines && lines[2] in lines;
  }

  lemma QuietSections(spec: Spec)
    ensures AllQuiet(["", "[Service]", Line(Type, "simple")])
    ensures AllQuiet(["", "[Install]", Line(WantedBy, spec.wantedBy)]) <==> !Hides(spec.wantedBy)
  {
    QuietFixedLines();
    PrintableHasNoBreak("simple");
    hide Quiet, NoBreak, Line, Hides;
    DirectiveWithoutBreak(Type, "simple");
    QuietDirective(WantedBy, spec.wantedBy);
    var lines := ["", "[Install]", Line(WantedBy, spec.wantedBy)];
    assert lines[2] in lines;
  }

  lemma ServiceIsQuiet(spec: Spec)
    requires NamesMatch(spec)
    ensures AllQuiet(ServiceLines(spec))
       <==> !(HidesIfGiven(spec.user) || HidesIfGiven(spec.group) || HidesIfGiven(spec.workingDirectory)
              || EnvironmentHides(spec.environment) || Hides(spec.execStart) || Hides(spec.restart) || Hides(spec.wantedBy))
  {
    hide Quiet, NoBreak, NameMatches, Line, EnvLines, IntText, Digits, Hides, LineIfGiven, HidesIfGiven, EnvironmentHides,
         AllQuiet;
    QuietSections(spec);
    QuietIfGiven(User, spec.user);
    QuietIfGiven(Group, spec.group);
    QuietIfGiven(WorkingDirectory, spec.workingDirectory);
    QuietEnvLines(spec.environment);
    QuietStart(spec);
    QuietLimit(spec.limitNofile);
    var a := ["", "[Service]", Line(Type, "simple")];
    var b := [Line(ExecStart, spec.execStart), Line(Restart, spec.restart), Line(RestartSec, Digits(spec.restartSec))];
    var c := if spec.limitNofile.Some? then [Line(LimitNofile, IntText(spec.limitNofile.value))] else [];
    var d := ["", "[Install]", Line(WantedBy, spec.wantedBy)];
    AllQuietParts(a, LineIfGiven(User, spec.user), LineIfGiven(Group, spec.group),
                  LineIfGiven(WorkingDirectory, spec.workingDirectory), EnvLines(spec.environment), b, c, d);
  }

  lemma AllQuietParts(a: seq<string>, b: seq<string>, c: seq<string>, d: seq<string>,
                      e: seq<string>, f: seq<string>, g: seq<string>, h: seq<string>)
    ensures AllQuiet(a + b + c + d + e + f + g + h)
       <==> AllQuiet(a) && AllQuiet(b) && AllQuiet(c) && AllQuiet(d) && AllQuiet(e) && AllQuiet(f) && AllQuiet(g) && AllQuiet(h)
  {
    hide AllQuiet;
    AllQuietConcat(a, b);
    AllQuietConcat(a + b, c);
    AllQuietConcat(a + b + c, d);
    AllQuietConcat(a + b + c + d, e);
    AllQuietConcat(a + b + c + d + e, f);
    AllQuietConcat(a + b + c + d + e + f, g);
    AllQuietConcat(a + b + c + d + e + f + g, h);
  }

  lemma LinesBehindAreQuiet(spec: Spec)
    requires NamesMatch(spec)
    ensures AllQuiet(LinesBehind(spec)) <==> !FieldsHide(spec)
  {
    QuietFixedLines();
    NothingHides();
    hide Quiet, NamesMatch, Line, Hides, ServiceLines, HidesIfGiven, EnvironmentHides;
    ServiceIsQuiet(spec);
    QuietDirective(Description, spec.description);
    var joined := Join(" ", spec.after);
    QuietDirective(After, joined);
    var first := ["", "[Unit]", Line(Description, spec.description)];
    assert AllQuiet(first) <==> !Hides(spec.description) by { assert first[2] in first; }
    assert AllQuiet(AfterLines(spec)) <==> !Hides(joined);
    hide AllQuiet;
    AllQuietConcat(first, AfterLines(spec));
    AllQuietConcat(first + AfterLines(spec), ServiceLines(spec));
  }

  // ---------------------------------------------------------------- reading one field back

  datatype Tag = KindTag | VersionTag {
    function Text(): string { match this case KindTag => KIND case VersionTag => VERSION }

    function Of(m: Meta): Option<string> { match this case KindTag => m.kind case VersionTag => m.version }

    function Put(m: Meta, value: string): Meta {
      match this case KindTag => m.(kind := Some(value)) case VersionTag => m.(version := Some(value))
    }
  }

  lemma {:induction false} AfterEqualsAt(before: string, value: string)
    requires '=' !in before
    ensures AfterEquals(before + "=" + value) == value
  {
    if before == "" {
      assert "" + "=" + value == "=" + value && ("=" + value)[1..] == value;
    } else {
      assert before[0] in before;
      assert (before + "=" + value)[1..] == before[1..] + "=" + value;
      AfterEqualsAt(before[1..], value);
    }
  }

  lemma ReadKind(m: Meta, kind: string)
    ensures ReadLine(m, KIND + kind) == m.(kind := Some(Strip(kind)))
  {
    hide Strip;
    AfterEqualsAt("# X-Argus-Kind", kind);
    assert KIND + kind == "# X-Argus-Kind" + "=" + kind;
  }

  lemma ReadVersion(m: Meta, version: string)
    ensures ReadLine(m, VERSION + version) == m.(version := Some(Strip(version)))
  {
    hide Strip;
    AfterEqualsAt("# X-Argus-Version", version);
    assert VERSION + version == "# X-Argus-Version" + "=" + version;
    assert VERSION[10] == 'V' && KIND[10] == 'K' && (VERSION + version)[10] == 'V';
  }

  lemma ReadTagged(m: Meta, tag: Tag, value: string)
    ensures ReadLine(m, tag.Text() + value) == tag.Put(m, Strip(value))
  {
    hide ReadLine, Strip;
    match tag
    case KindTag => ReadKind(m, value);
    case VersionTag => ReadVersion(m, value);
  }

  lemma OtherLine(m: Meta, tag: Tag, line: string)
    requires !(tag.Text() <= line)
    ensures tag.Of(ReadLine(m, line)) == tag.Of(m)
  {}

  /** What a tag has in the end is what it had, or the value of one of the lines. */
  lemma {:induction false} LastOfTag(m: Meta, tag: Tag, lines: seq<string>)
    ensures var end := tag.Of(ReadFrom(m, lines));
            end == tag.Of(m) || exists v :: tag.Text() + v in lines && end == Some(Strip(v))
    decreases |lines|
  {
    if lines != [] {
      hide ReadLine, Strip;
      var line, rest := lines[0], lines[1..];
      var next := ReadLine(m, line);
      LastOfTag(next, tag, rest);
      assert forall p | p in rest :: p in lines;
      if tag.Text() <= line {
        var v := line[|tag.Text()|..];
        assert line == tag.Text() + v;
        ReadTagged(m, tag, v);
        assert tag.Text() + v in lines && tag.Of(next) == Some(Strip(v));
      } else {
        OtherLine(m, tag, line);
      }
    }
  }

  /** The value without its final blanks holds no line boundary. */
  ghost predicate FitsOneLine(value: string) { NoBreak(StrSplitlines, RStrip(value)) }

  lemma OneLineFits(value: string)
    requires NoBreak(StrSplitlines, value)
    ensures FitsOneLine(value)
  {
    RStripIsPrefix(value);
    hide IsBreak;
  }

  /** With a boundary at `n`, the value fits one line just when nothing but blanks follows. */
  lemma FitsIfBlankBehind(value: string, n: nat)
    requires n < |value| && IsBreak(StrSplitlines, value[n]) && NoBreak(StrSplitlines, value[..n])
    ensures FitsOneLine(value) <==> Blank(value[n + 1..])
  {
    RStripIsPrefix(value);
    RStripTakesBlanks(value);
    BreakIsSpace(StrSplitlines, value[n]);
    var k := |RStrip(value)|;
    assert RStrip(value) == value[..k];
    hide RStrip, IsBreak, IsSpace;
    var w := value[n + 1..];
    if k <= n {
      assert forall c | c in value[..k] :: c in value[..n];
      assert w == value[k..][n + 1 - k..];
    } else {
      assert value[..k][n] == value[n] && value[..k][n] in value[..k];
      assert k != n + 1 && w[k - 1 - (n + 1)] == value[k - 1];
    }
  }

  /** A text is its first line and, if there is more, what follows the boundary at `k`. */
  lemma CutFirstLine(s: string) returns (n: nat, k: nat)
    requires s != ""
    ensures n <= |s| && n < k
    ensures k <= |s| ==> SplitLines(StrSplitlines, s) == [s[..n]] + SplitLines(StrSplitlines, s[k..])
    ensures k > |s| ==> SplitLines(StrSplitlines, s) == [s[..n]]
  {
    n := LineLength(StrSplitlines, s);
    k := n + if n + 1 < |s| && s[n] == '\r' && s[n + 1] == '\n' then 2 else 1;
    assert s[..|s|] == s;
    hide IsBreak, NoBreak;
  }

  lemma {:induction false} LineIsPart(s: string, p: string) returns (i: nat)
    requires p in SplitLines(StrSplitlines, s)
    ensures i + |p| <= |s| && s[i..i + |p|] == p
    decreases |s|
  {
    hide SplitLines, NoBreaks, NoBreak, IsBreak;
    i := 0;
    NoLines(StrSplitlines);
    if s != "" {
      var n, k := CutFirstLine(s);
      if p != s[..n] {
        var j := LineIsPart(s[k..], p);
        i := k + j;
        assert s[i..i + |p|] == s[k..][j..j + |p|];
      }
    }
  }

  lemma BlankHidesNothing(s: string)
    requires Blank(s)
    ensures Ordinary(s) && !Hides(s)
  {
    assert KIND[0] == '#' && VERSION[0] == '#' && !IsSpace('#');
    assert forall i | 0 < i < |s| :: s[i..][0] == s[i];
    hide IsSpace, IsBreak;
  }

  lemma TagsAreSolid(tag: Tag)
    ensures tag.Text() != "" && !IsSpace(tag.Text()[0]) && NoBreak(StrSplitlines, tag.Text())
  {
    TagsArePlain();
    assert KIND[0] == '#' && VERSION[0] == '#';
  }

  /** A tagged line has more to it than its value. */
  lemma TaggedIsLonger(tag: Tag, v: string)
    ensures |Strip(tag.Text() + v)| > |Strip(v)|
  {
    TagsAreSolid(tag);
    var b, c := CutBlanks(v);
    StripIsTrimmed(v);
    var t, m := tag.Text(), Strip(v);
    var line := t + v;
    hide Strip, IsSpace;
    assert line[0] == t[0];
    if m == "" {
      StripKeepsSpan(line, 0, 0);
    } else {
      assert line[|t| + |b| + |m| - 1] == v[|b| + |m| - 1] == m[|m| - 1];
      StripKeepsSpan(line, 0, |t| + |b| + |m| - 1);
    }
  }

  /** What is cut off at a boundary is missed, unless it is blank. */
  lemma CutIsShorter(first: string, c: char, t: string)
    requires !Blank(t)
    ensures |Strip(first + [c] + t)| > |Strip(first)|
  {
    var q :| 0 <= q < |t| && !IsSpace(t[q]);
    var a, b := CutBlanks(first);
    StripIsTrimmed(first);
    var m, s := Strip(first), first + [c] + t;
    hide Strip, IsSpace;
    assert s[|first| + 1 + q] == t[q];
    if m == "" {
      StripKeepsSpan(s, |first| + 1 + q, |first| + 1 + q);
    } else {
      assert s[|a|] == first[|a|] == m[0];
      StripKeepsSpan(s, |a|, |first| + 1 + q);
    }
  }

  lemma FieldInOneLine(m: Meta, tag: Tag, v: string)
    requires NoBreak(StrSplitlines, v)
    ensures ReadFrom(m, SplitLines(StrSplitlines, tag.Text() + v + "\n")) == tag.Put(m, Strip(v))
  {
    TagsAreSolid(tag);
    hide NoBreak, SplitLines, ReadLine, Strip;
    NoBreakConcat(tag.Text(), v);
    OneLine(tag.Text() + v);
    ReadTagged(m, tag, v);
    ReadFirst(m, tag.Text() + v, []);
    assert [tag.Text() + v] + [] == [tag.Text() + v];
  }

  lemma ReadFirst(m: Meta, line: string, rest: seq<string>)
    ensures ReadFrom(m, [line] + rest) == ReadFrom(ReadLine(m, line), rest)
  {
    hide ReadLine;
    assert ([line] + rest)[1..] == rest;
  }

  lemma FieldInManyLines(m: Meta, tag: Tag, first: string, c: char, t: string)
    requires NoBreak(StrSplitlines, first) && IsBreak(StrSplitlines, c)
    ensures ReadFrom(m, SplitLines(StrSplitlines, tag.Text() + (first + [c] + t) + "\n"))
         == ReadFrom(tag.Put(m, Strip(first)), SplitLines(StrSplitlines, BehindBreak(c, t + "\n")))
  {
    TagsAreSolid(tag);
    hide NoBreak, IsBreak, SplitLines, ReadLine, Strip;
    NoBreakConcat(tag.Text(), first);
    var line := tag.Text() + first;
    assert tag.Text() + (first + [c] + t) + "\n" == line + [c] + (t + "\n");
    SplitFirstBreak(StrSplitlines, line, c, t + "\n");
    ReadTagged(m, tag, first);
    ReadFirst(m, line, SplitLines(StrSplitlines, BehindBreak(c, t + "\n")));
  }

  lemma BlankBehind(m: Meta, c: char, t: string)
    requires Blank(t)
    ensures ReadFrom(m, SplitLines(StrSplitlines, BehindBreak(c, t + "\n"))) == m
  {
    hide SplitLines, Hides, Ordinary;
    var rest := BehindBreak(c, t + "\n");
    BlankConcat(t, "\n");
    assert Blank(rest);
    BlankHidesNothing(rest);
    LinesAreOrdinary(rest);
    ReadsNothing(SplitLines(StrSplitlines, rest));
    ReadFromIsOver(m, SplitLines(StrSplitlines, rest));
  }

  /** No line behind the boundary gives the whole value back. */
  lemma SolidBehind(m: Meta, tag: Tag, first: string, c: char, t: string)
    requires !Blank(t) && tag.Of(m) == Some(Strip(first))
    ensures tag.Of(ReadFrom(m, SplitLines(StrSplitlines, BehindBreak(c, t + "\n")))) != Some(Strip(first + [c] + t))
  {
    var rest, whole := BehindBreak(c, t + "\n"), first + [c] + t;
    CutIsShorter(first, c, t);
    LastOfTag(m, tag, SplitLines(StrSplitlines, rest));
    StripBlankTail(whole, "\n");
    hide Strip, SplitLines, Blank, ReadFrom;
    forall v | tag.Text() + v in SplitLines(StrSplitlines, rest) ensures |Strip(v)| < |Strip(whole)| {
      var k := |whole + "\n"| - |rest|;
      assert (whole + "\n")[k..] == rest;
      TaggedLineIsShorter(tag, v, whole + "\n", k);
    }
  }

  lemma TaggedLineIsShorter(tag: Tag, v: string, s: string, k: nat)
    requires k <= |s| && tag.Text() + v in SplitLines(StrSplitlines, s[k..])
    ensures |Strip(v)| < |Strip(s)|
  {
    hide Strip, SplitLines;
    var line := tag.Text() + v;
    var j := LineIsPart(s[k..], line);
    var i := k + j;
    assert s == s[..i] + line + s[i + |line|..];
    StripOfPart(s[..i], line, s[i + |line|..]);
    TaggedIsLonger(tag, v);
  }

  /** A field is read back if and only if it fits one line, and then nothing else is read with it. */
  lemma FieldReads(m: Meta, tag: Tag, v: string)
    ensures var read := ReadFrom(m, SplitLines(StrSplitlines, tag.Text() + v + "\n"));
            && (FitsOneLine(v) ==> read == tag.Put(m, Strip(v)))
            && (tag.Of(read) == Some(Strip(v)) ==> FitsOneLine(v))
  {
    hide NoBreak, IsBreak, SplitLines, Strip, ReadFrom, FitsOneLine, Blank;
    var n := LineLength(StrSplitlines, v);
    if n == |v| {
      assert v[..n] == v;
      OneLineFits(v);
      FieldInOneLine(m, tag, v);
    } else {
      var first, c, t := v[..n], v[n], v[n + 1..];
      assert v == first + [c] + t;
      FitsIfBlankBehind(v, n);
      FieldInManyLines(m, tag, first, c, t);
      if Blank(t) {
        BlankBehind(tag.Put(m, Strip(first)), c, t);
        BreakIsSpace(StrSplitlines, c);
        BlankChar(c);
        BlankConcat([c], t);
        StripBlankTail(first, [c] + t);
        assert first + ([c] + t) == v;
      } else {
        SolidBehind(tag.Put(m, Strip(first)), tag, first, c, t);
      }
    }
  }

  lemma BlankChar(c: char)
    requires IsSpace(c)
    ensures Blank([c])
  {}

  // ---------------------------------------------------------------- reading a unit back

  ghost function Expected(spec: Spec): Meta {
    Meta(Some(Strip(spec.kind)), if Given(spec.version) then Some(Strip(spec.version.value)) else None)
  }

  /** What the metadata lines of the unit alone are read as. */
  function Own(spec: Spec): Meta {
    var kind := ReadFrom(NOTHING, SplitLines(StrSplitlines, KIND + spec.kind + "\n"));
    if Given(spec.version) then ReadFrom(kind, SplitLines(StrSplitlines, VERSION + spec.version.value + "\n")) else kind
  }

  lemma OwnIsExpected(spec: Spec)
    ensures Own(spec) == Expected(spec) <==> FitsOneLine(spec.kind) && (Given(spec.version) ==> FitsOneLine(spec.version.value))
  {
    hide ReadFrom, SplitLines, FitsOneLine, Strip;
    FieldReads(NOTHING, KindTag, spec.kind);
    var kind := ReadFrom(NOTHING, SplitLines(StrSplitlines, KIND + spec.kind + "\n"));
    if Given(spec.version) { FieldReads(kind, VersionTag, spec.version.value); }
  }

  /** Every unit: what its other fields hide takes precedence over its own metadata. */
  lemma HiddenLinesWin(spec: Spec)
    requires NamesMatch(spec)
    ensures ReadText(Render(spec)) == Over(Own(spec), Scan(NOTHING, LinesBehind(spec)))
  {
    ScanIsReadText(spec);
    hide ReadText, Render, Scan, PathLine, ManagedLine, Quiet, NameMatches, ReadFrom, SplitLines, Line, ServiceLines, AfterLines;
    QuietPathLine(spec.name);
    QuietManagedLine();
    var first, behind := [PathLine(spec.name), ManagedLine()], LinesBehind(spec);
    var version := if Given(spec.version) then [VERSION + spec.version.value] else [];
    ScansNothing(first);
    ScanConcat(NOTHING, first, MetaLines(spec) + behind);
    assert UnitLines(spec) == first + (MetaLines(spec) + behind);
    assert MetaLines(spec) + behind == [KIND + spec.kind] + (version + behind);
    ScanFirst(NOTHING, KIND + spec.kind, version + behind);
    var kind := ReadFrom(NOTHING, SplitLines(StrSplitlines, KIND + spec.kind + "\n"));
    if Given(spec.version) { ScanFirst(kind, VERSION + spec.version.value, behind); } else { assert version + behind == behind; }
    ScanIsOver(Own(spec), behind);
  }

  lemma {:induction false} ScanConcat(m: Meta, a: seq<string>, b: seq<string>)
    ensures Scan(m, a + b) == Scan(Scan(m, a), b)
    decreases |a|
  {
    hide Scan, ReadFrom, SplitLines;
    if a == [] {
      ScanNothing(m);
      assert a + b == b;
    } else {
      var next := ReadFrom(m, SplitLines(StrSplitlines, a[0] + "\n"));
      ScanFirst(m, a[0], a[1..] + b);
      ScanFirst(m, a[0], a[1..]);
      assert a == [a[0]] + a[1..] && a + b == [a[0]] + (a[1..] + b);
      ScanConcat(next, a[1..], b);
    }
  }

  lemma ScanIsReadText(spec: Spec)
    ensures ReadText(Render(spec)) == Scan(NOTHING, UnitLines(spec))
  {}

  /** If the other fields hide nothing, kind and version are read back, up to outer blanks and with an empty version
      absent, if and only if each of them fits one line. */
  lemma MetadataReadsBack(spec: Spec)
    requires NamesMatch(spec) && !FieldsHide(spec)
    ensures ReadText(Render(spec)) == Expected(spec)
       <==> FitsOneLine(spec.kind) && (Given(spec.version) ==> FitsOneLine(spec.version.value))
  {
    hide ReadText, Render, Scan, FieldsHide, NamesMatch, LinesBehind, Own, Expected, FitsOneLine;
    HiddenLinesWin(spec);
    LinesBehindAreQuiet(spec);
    ScansNothing(LinesBehind(spec));
    OwnIsExpected(spec);
  }

  function With(spec: Spec, kind: string, version: Option<string>): Spec { spec.(kind := kind, version := version) }

  ghost predicate OneLineIfGiven(s: Option<string>) { s.Some? ==> NoBreak(StrSplitlines, s.value) }

  /** A unit reads back whatever its kind and version, as long as they are single lines, if and only if its other
      fields hide nothing. */
  lemma AlwaysReadsBack(spec: Spec)
    requires NamesMatch(spec)
    ensures (forall kind, version | NoBreak(StrSplitlines, kind) && OneLineIfGiven(version) ::
               ReadText(Render(With(spec, kind, version))) == Expected(With(spec, kind, version)))
       <==> !FieldsHide(spec)
  {
    if !FieldsHide(spec) {
      forall kind, version | NoBreak(StrSplitlines, kind) && OneLineIfGiven(version)
        ensures ReadText(Render(With(spec, kind, version))) == Expected(With(spec, kind, version))
      {
        hide ReadText, Render, Expected, FitsOneLine, Hides, NameMatches, NoBreak;
        OneLineFits(kind);
        if version.Some? { OneLineFits(version.value); }
        MetadataReadsBack(With(spec, kind, version));
      }
    } else {
      var kind := OtherKind(spec);
      assert ReadText(Render(With(spec, kind, None))) != Expected(With(spec, kind, None));
    }
  }

  lemma OwnHasNoVersion(spec: Spec)
    requires FitsOneLine(spec.kind) && !Given(spec.version)
    ensures Own(spec).version == None
  {
    hide ReadFrom, SplitLines, FitsOneLine, Strip;
    OwnIsExpected(spec);
  }

  /** A kind that is not read back. */
  lemma OtherKind(spec: Spec) returns (kind: string)
    requires NamesMatch(spec) && FieldsHide(spec)
    ensures NoBreak(StrSplitlines, kind)
    ensures ReadText(Render(With(spec, kind, None))) != Expected(With(spec, kind, None))
  {
    PrintableHasNoBreak("a");
    PrintableHasNoBreak("b");
    StripOne('a');
    StripOne('b');
    hide ReadText, Render, Scan, FieldsHide, Own, Strip, NoBreak, NameMatches, Line;
    var hidden := Scan(NOTHING, LinesBehind(spec));
    LinesBehindAreQuiet(spec);
    ScansNothing(LinesBehind(spec));
    kind := if hidden.kind == Some("a") then "b" else "a";
    var other := With(spec, kind, None);
    assert LinesBehind(other) == LinesBehind(spec);
    HiddenLinesWin(other);
    OneLineFits(kind);
    OwnHasNoVersion(other);
  }

  // ---------------------------------------------------------------- is the guard enough?

  /** With this guard on the fields the renderer checks, every accepted unit reads back. */
  ghost predicate Suffices(rejected: set<char>) {
    forall spec: Spec | Accepted(rejected, spec) :: ReadText(Render(spec)) == Expected(spec)
  }

  /** A kind can forge a version: two specifications that differ in kind and version have the same unit text. */
  lemma KindForgesVersion(spec: Spec, version: string)
    requires version != ""
    ensures Render(spec.(kind := spec.kind + "\n" + (VERSION + version), version := None))
         == Render(spec.(version := Some(version)))
  {
    hide Line, Join, LineIfGiven, EnvLine, EnvLines, PathLine, ManagedLine, Terminated, KIND, VERSION;
    var a := spec.(kind := spec.kind + "\n" + (VERSION + version), version := None);
    var b := spec.(version := Some(version));
    assert AfterLines(a) == AfterLines(b) && ServiceLines(a) == ServiceLines(b);
    var rest := ["", "[Unit]", Line(Description, spec.description)] + AfterLines(a) + ServiceLines(a);
    var head := [PathLine(spec.name), ManagedLine()];
    BrokenLine(head, KIND + spec.kind, VERSION + version, rest);
    assert KIND + a.kind == (KIND + spec.kind) + "\n" + (VERSION + version);
    assert UnitLines(a) == head + [KIND + a.kind] + rest;
    assert UnitLines(b) == head + [KIND + spec.kind, VERSION + version] + rest;
  }

  lemma {:induction false} BrokenLine(before: seq<string>, a: string, b: string, after: seq<string>)
    ensures Terminated(before + [a + "\n" + b] + after) == Terminated(before + [a, b] + after)
  {
    hide Terminated;
    if before == [] {
      var joined := a + "\n" + b;
      TerminatedCons(joined, after);
      TerminatedCons(a, [b] + after);
      TerminatedCons(b, after);
      assert [] + [joined] + after == [joined] + after && [] + [a, b] + after == [a] + ([b] + after);
      assert joined + "\n" + Terminated(after) == a + "\n" + (b + "\n" + Terminated(after));
    } else {
      var first, rest := before[0], before[1..];
      BrokenLine(rest, a, b, after);
      TerminatedCons(first, rest + [a + "\n" + b] + after);
      TerminatedCons(first, rest + [a, b] + after);
      assert before + [a + "\n" + b] + after == [first] + (rest + [a + "\n" + b] + after);
      assert before + [a, b] + after == [first] + (rest + [a, b] + after);
    }
  }

  function Bare(kind: string, version: Option<string>): Spec {
    Spec(MANAGED_PREFIX + "1", "", "", None, None, None, [], "", 0, None, [], "", kind, version)
  }

  lemma BareIsAccepted(rejected: set<char>, kind: string, version: Option<string>)
    ensures Accepted(rejected, Bare(kind, version))
  {
    assert NameMatches(MANAGED_PREFIX + "1");
    hide NameMatches;
  }

  lemma BareReadsBack(kind: string, version: string)
    requires NoBreak(StrSplitlines, kind) && NoBreak(StrSplitlines, version) && version != ""
    ensures ReadText(Render(Bare(kind, Some(version)))) == Meta(Some(Strip(kind)), Some(Strip(version)))
  {
    BareIsAccepted(REJECTED, kind, Some(version));
    NothingHides();
    hide NameMatches, FreeOf, NoBreak, ReadText, Render, Strip, MANAGED_PREFIX, Hides, FitsOneLine;
    OneLineFits(kind);
    OneLineFits(version);
    MetadataReadsBack(Bare(kind, Some(version)));
  }

  /** No guard on the checked fields alone is enough, whatever it rejects: the kind is not one of them. */
  lemma CheckedFieldsAreTooFew(rejected: set<char>)
    ensures !Suffices(rejected)
  {
    PrintableHasNoBreak("a");
    PrintableHasNoBreak("9");
    var forged := Bare("a" + "\n" + (VERSION + "9"), None);
    BareIsAccepted(rejected, forged.kind, None);
    hide Accepted, NoBreak, Strip, ReadText, Render, VERSION, MANAGED_PREFIX;
    BareReadsBack("a", "9");
    KindForgesVersion(Bare("a", None), "9");
    assert Bare("a", None).(kind := "a" + "\n" + (VERSION + "9"), version := None) == forged;
    assert Bare("a", None).(version := Some("9")) == Bare("a", Some("9"));
    assert Expected(forged).version == None;
  }

  /** The guard on every text that goes into the unit. */
  predicate AcceptedEverywhere(rejected: set<char>, spec: Spec) {
    && Accepted(rejected, spec)
    && FreeIfGiven(rejected, spec.workingDirectory) && FreeIfGiven(rejected, spec.user) && FreeIfGiven(rejected, spec.group)
    && FreeOf(rejected, spec.restart) && (forall i | 0 <= i < |spec.after| :: FreeOf(rejected, spec.after[i]))
    && FreeOf(rejected, spec.wantedBy) && FreeOf(rejected, spec.kind) && FreeIfGiven(rejected, spec.version)
  }

  predicate FreeIfGiven(rejected: set<char>, s: Option<string>) { s.Some? ==> FreeOf(rejected, s.value) }

  ghost predicate SufficesEverywhere(rejected: set<char>) {
    forall spec: Spec | AcceptedEverywhere(rejected, spec) :: ReadText(Render(spec)) == Expected(spec)
  }

  lemma FreeOfBreaks(rejected: set<char>, s: string)
    requires (forall c | IsBreak(StrSplitlines, c) :: c in rejected) && FreeOf(rejected, s)
    ensures NoBreak(StrSplitlines, s) && FreeOf(REJECTED, s)
  {
    assert IsBreak(StrSplitlines, '\n') && IsBreak(StrSplitlines, '\r');
    hide IsBreak;
  }

  /** A unit whose description goes on, behind `c`, with a metadata line of its own. */
  function Injected(c: char): Spec {
    Spec(MANAGED_PREFIX + "1", [c] + (KIND + "x"), "", None, None, None, [], "", 0, None, [], "", "y", None)
  }

  lemma InjectedIsAccepted(rejected: set<char>, c: char, kind: string, version: Option<string>)
    requires (forall r | r in rejected :: IsBreak(StrSplitlines, r)) && c !in rejected
    requires NoBreak(StrSplitlines, kind) && OneLineIfGiven(version)
    ensures AcceptedEverywhere(rejected, With(Injected(c), kind, version))
  {
    TagsArePlain();
    PrintableHasNoBreak("x");
    assert NameMatches(MANAGED_PREFIX + "1");
    hide IsBreak, NameMatches;
    var d := [c] + (KIND + "x");
    forall i | 0 <= i < |d| ensures d[i] !in rejected {
      assert i != 0 ==> d[i] == (KIND + "x")[i - 1] && (d[i] in KIND || d[i] in "x");
    }
    assert forall i | 0 <= i < |kind| :: kind[i] in kind;
    assert version.Some? ==> forall i | 0 <= i < |version.value| :: version.value[i] in version.value;
  }

  lemma InjectedHides(c: char)
    requires IsBreak(StrSplitlines, c)
    ensures NamesMatch(Injected(c)) && FieldsHide(Injected(c))
  {
    assert NameMatches(MANAGED_PREFIX + "1");
    HidesCons(c, KIND + "x");
    hide Hides, NameMatches, IsBreak;
  }

  lemma StripOne(c: char)
    requires !IsSpace(c)
    ensures Strip([c]) == [c]
  {}

  /** A guard against line boundaries on every text of the specification is enough if and only if it knows every
      boundary the reader splits at. */
  lemma GuardIsEnough(rejected: set<char>)
    requires forall c | c in rejected :: IsBreak(StrSplitlines, c)
    ensures SufficesEverywhere(rejected) <==> forall c | IsBreak(StrSplitlines, c) :: c in rejected
  {
    hide IsBreak, FreeOf, NameMatches, Strip, ReadText, Render, NoBreak, Accepted, AcceptedEverywhere, FieldsHide, NamesMatch,
         FitsOneLine, Injected, With;
    if forall c | IsBreak(StrSplitlines, c) :: c in rejected {
      forall spec: Spec | AcceptedEverywhere(rejected, spec) ensures ReadText(Render(spec)) == Expected(spec) {
        EveryTextIsOneLine(rejected, spec);
        MetadataReadsBack(spec);
      }
    } else {
      var c :| IsBreak(StrSplitlines, c) && c !in rejected;
      InjectedHides(c);
      AlwaysReadsBack(Injected(c));
      var kind, version :| NoBreak(StrSplitlines, kind) && OneLineIfGiven(version)
        && ReadText(Render(With(Injected(c), kind, version))) != Expected(With(Injected(c), kind, version));
      InjectedIsAccepted(rejected, c, kind, version);
    }
  }

  lemma {:induction false} JoinedHasNoBreak(words: seq<string>)
    requires NoBreaks(StrSplitlines, words)
    ensures NoBreak(StrSplitlines, Join(" ", words))
  {
    hide NoBreak;
    PrintableHasNoBreak(" ");
    PrintableHasNoBreak("");
    if words != [] {
      JoinedHasNoBreak(words[1..]);
      NoBreakConcat(words[0], " ");
      NoBreakConcat(words[0] + " ", Join(" ", words[1..]));
    }
  }

  lemma EveryTextIsOneLine(rejected: set<char>, spec: Spec)
    requires (forall c | IsBreak(StrSplitlines, c) :: c in rejected) && AcceptedEverywhere(rejected, spec)
    ensures NamesMatch(spec) && !FieldsHide(spec)
    ensures FitsOneLine(spec.kind) && (Given(spec.version) ==> FitsOneLine(spec.version.value))
  {
    hide IsBreak, FreeOf, NameMatches, NoBreak, Hides, FitsOneLine;
    forall s: string | FreeOf(rejected, s) ensures NoBreak(StrSplitlines, s) && !Hides(s) && FitsOneLine(s) {
      FreeOfBreaks(rejected, s);
      OneLineHidesNothing(s);
      OneLineFits(s);
    }
    JoinedHasNoBreak(spec.after);
    OneLineHidesNothing(Join(" ", spec.after));
  }

  /** The two characters the code rejects would not be enough even if it looked for them everywhere. */
  lemma GuardOfTheCode()
    ensures !SufficesEverywhere(REJECTED)
  {
    hide SufficesEverywhere;
    GuardIsEnough(REJECTED);
    assert IsBreak(StrSplitlines, '\U{2028}') && '\U{2028}' !in REJECTED;
  }
}
