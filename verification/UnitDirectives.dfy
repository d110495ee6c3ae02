/** What a rendered unit says, read line by line: the directives of each section (agent/app/servicemgr/service.py). */
module UnitDirectives {
  import opened Text
  import opened Wrappers
  import opened SystemdUnit

  /** The values that the lines of a unit file give a key in a section, in order. A line in square brackets begins a
      section, and a directive is a key, an equals sign and the value. */
  function Values(lines: seq<string>, current: string, section: string, key: string): seq<string> {
    if lines == [] then []
    else
      var line, rest := lines[0], lines[1..];
      if line != "" && line[0] == '[' then Values(rest, line, section, key)
      else (if current == section && key + "=" <= line then [line[|key| + 1..]] else []) + Values(rest, current, section, key)
  }

  function Read(text: string, section: string, key: string): seq<string> {
    Values(SplitLines(StrSplitlines, text), "", section, key)
  }

  predicate Header(line: string) { line != "" && line[0] == '[' }

  lemma {:induction false} ValuesConcat(a: seq<string>, b: seq<string>, current: string, section: string, key: string)
    requires forall l | l in a :: !Header(l)
    ensures Values(a + b, current, section, key) == Values(a, current, section, key) + Values(b, current, section, key)
  {
    if a == [] {
      assert a + b == b;
    } else {
      var first, rest := a[0], a[1..];
      assert first in a && a == [first] + rest && a + b == [first] + (rest + b);
      hide Header;
      ValuesConcat(rest, b, current, section, key);
      ValuesCons(first, rest, current, section, key);
      ValuesCons(first, rest + b, current, section, key);
      hide Values;
    }
  }

  lemma ValuesCons(line: string, rest: seq<string>, current: string, section: string, key: string)
    requires !Header(line)
    ensures Values([line] + rest, current, section, key)
         == Values([line], current, section, key) + Values(rest, current, section, key)
  {
    assert ([line] + rest)[1..] == rest && [line][1..] == [];
  }

  lemma ValuesAtHeader(header: string, rest: seq<string>, current: string, section: string, key: string)
    requires Header(header)
    ensures Values([header] + rest, current, section, key) == Values(rest, header, section, key)
  {
    assert ([header] + rest)[1..] == rest;
  }

  /** Outside its section a key has no values. */
  lemma {:induction false} OtherSection(lines: seq<string>, current: string, section: string, key: string)
    requires (forall l | l in lines :: !Header(l)) && current != section
    ensures Values(lines, current, section, key) == []
  {
    if lines != [] {
      assert lines[0] in lines;
      OtherSection(lines[1..], current, section, key);
    }
  }

  // ---------------------------------------------------------------- single lines

  function Name(key: string): bool { '=' !in key && key != "" && key[0] != '#' && key[0] != '[' }

  lemma KeyTable(k: Key)
    ensures Name(KeyText(k))
    ensures |KeyText(k)| == match k
                            case Description => 11
                            case After => 5
                            case Type => 4
                            case User => 4
                            case Group => 5
                            case WorkingDirectory => 16
                            case Environment => 11
                            case ExecStart => 9
                            case Restart => 7
                            case RestartSec => 10
                            case LimitNofile => 11
                            case WantedBy => 8
    ensures KeyText(k)[0] == match k
                             case Description => 'D'
                             case After => 'A'
                             case Type => 'T'
                             case User => 'U'
                             case Group => 'G'
                             case WorkingDirectory => 'W'
                             case Environment => 'E'
                             case ExecStart => 'E'
                             case Restart => 'R'
                             case RestartSec => 'R'
                             case LimitNofile => 'L'
                             case WantedBy => 'W'
  {}

  lemma KeysDiffer(a: Key, b: Key)
    requires KeyText(a) == KeyText(b)
    ensures a == b
  {
    KeyTable(a);
    KeyTable(b);
    hide KeyText;
  }

  /** A directive gives its value to its own key only. */
  lemma DirectiveGives(k: Key, value: string, current: string, section: string, key: string)
    requires Name(key)
    ensures !Header(Line(k, value))
    ensures Values([Line(k, value)], current, section, key)
         == if current == section && key == KeyText(k) then [value] else []
  {
    KeyTable(k);
    hide KeyText;
    var line, text := Line(k, value), KeyText(k);
    assert line == text + "=" + value && line[..|text|] == text && line[|text|] == '=';
    assert line[0] == text[0];
    if key + "=" <= line { SamePrefix(key, text, value); }
    assert key == text ==> line[|key| + 1..] == value;
  }

  lemma SamePrefix(key: string, text: string, value: string)
    requires '=' !in key && '=' !in text && key + "=" <= text + "=" + value
    ensures key == text
  {
    var line := text + "=" + value;
    assert line[|key|] == (key + "=")[|key|] == '=' && line[|text|] == '=';
    assert forall i | 0 <= i < |text| :: line[i] == text[i] && text[i] in text;
    assert forall i | 0 <= i < |key| :: line[i] == (key + "=")[i] == key[i] && key[i] in key;
    assert |key| == |text|;
    assert key == line[..|key|] == text;
  }

  lemma CommentGives(line: string, current: string, section: string, key: string)
    requires Name(key) && (line == "" || line[0] == '#')
    ensures !Header(line) && Values([line], current, section, key) == []
  {}

  // ---------------------------------------------------------------- the expected values

  /** The value, if this is the key. */
  function Gives(key: string, k: Key, values: seq<string>): seq<string> { if key == KeyText(k) then values else [] }

  function IfGiven(value: Option<string>): seq<string> { if value.Some? && value.value != "" then [value.value] else [] }

  function Quoted(env: seq<(string, string)>): (out: seq<string>)
    ensures |out| == |env| && forall i | 0 <= i < |env| :: out[i] == "\"" + env[i].0 + "=" + Escape(env[i].1) + "\""
  {
    seq(|env|, i requires 0 <= i < |env| => "\"" + env[i].0 + "=" + Escape(env[i].1) + "\"")
  }

  lemma IfGivenGives(k: Key, value: Option<string>, current: string, section: string, key: string)
    requires Name(key)
    ensures forall l | l in LineIfGiven(k, value) :: !Header(l)
    ensures Values(LineIfGiven(k, value), current, section, key)
         == if current == section then Gives(key, k, IfGiven(value)) else []
  {
    if value.Some? { DirectiveGives(k, value.value, current, section, key); }
  }

  lemma EnvLineGives(entry: (string, string), current: string, section: string, key: string)
    requires Name(key)
    ensures !Header(EnvLine(entry))
    ensures Values([EnvLine(entry)], current, section, key)
         == if current == section && key == KeyText(Environment) then ["\"" + entry.0 + "=" + Escape(entry.1) + "\""] else []
  {
    hide KeyText, Escape;
    EnvLineIs(entry);
    var value := "\"" + entry.0 + "=" + Escape(entry.1) + "\"";
    DirectiveGives(Environment, value, current, section, key);
  }

  lemma {:induction false} EnvLinesGive(env: seq<(string, string)>, current: string, section: string, key: string)
    requires Name(key)
    ensures forall l | l in EnvLines(env) :: !Header(l)
    ensures Values(EnvLines(env), current, section, key)
         == if current == section then Gives(key, Environment, Quoted(env)) else []
  {
    hide KeyText, Escape, EnvLine, Header;
    if env == [] {
      assert Values([], current, section, key) == [];
    } else {
      hide Values, EnvLines, Quoted;
      var first, rest := env[0], env[1..];
      EnvLineGives(first, current, section, key);
      EnvLinesGive(rest, current, section, key);
      EnvCons(env);
      ValuesCons(EnvLine(first), EnvLines(rest), current, section, key);
    }
  }

  lemma EnvCons(env: seq<(string, string)>)
    requires env != []
    ensures EnvLines(env) == [EnvLine(env[0])] + EnvLines(env[1..])
    ensures Quoted(env) == ["\"" + env[0].0 + "=" + Escape(env[0].1) + "\""] + Quoted(env[1..])
  {
    hide EnvLine, Escape;
  }

  // ---------------------------------------------------------------- the sections

  /** Every text of the unit is a single line. */
  ghost predicate SingleLines(spec: Spec) {
    && NoBreak(StrSplitlines, spec.name) && NoBreak(StrSplitlines, spec.description)
    && NoBreak(StrSplitlines, spec.execStart) && NoBreak(StrSplitlines, spec.restart)
    && NoBreak(StrSplitlines, spec.wantedBy) && NoBreak(StrSplitlines, spec.kind)
    && OneLineIfGiven(spec.version) && OneLineIfGiven(spec.workingDirectory)
    && OneLineIfGiven(spec.user) && OneLineIfGiven(spec.group) && NoBreaks(StrSplitlines, spec.after)
    && forall i | 0 <= i < |spec.environment| ::
         NoBreak(StrSplitlines, spec.environment[i].0) && NoBreak(StrSplitlines, spec.environment[i].1)
  }

  /** The lines between the service header and the install header. */
  function ServiceBody(spec: Spec): seq<string> { ContextLines(spec) + RunningLines(spec) + [""] }

  function ContextLines(spec: Spec): seq<string> {
    [Line(Type, "simple")] + LineIfGiven(User, spec.user) + LineIfGiven(Group, spec.group)
    + LineIfGiven(WorkingDirectory, spec.workingDirectory) + EnvLines(spec.environment)
  }

  function RunningLines(spec: Spec): seq<string> {
    [Line(ExecStart, spec.execStart)] + [Line(Restart, spec.restart)] + [Line(RestartSec, Digits(spec.restartSec))]
    + LimitLine(spec.limitNofile)
  }

  function LimitLine(limit: Option<int>): seq<string> {
    if limit.Some? then [Line(LimitNofile, IntText(limit.value))] else []
  }

  function Head(spec: Spec): seq<string> { [PathLine(spec.name), ManagedLine()] + MetaLines(spec) + [""] }

  function UnitBody(spec: Spec): seq<string> { [Line(Description, spec.description)] + AfterLines(spec) + [""] }

  lemma Sections(spec: Spec)
    ensures UnitLines(spec)
         == Head(spec) + (["[Unit]"] + (UnitBody(spec)
            + (["[Service]"] + (ServiceBody(spec) + (["[Install]"] + [Line(WantedBy, spec.wantedBy)])))))
  {
    hide Line, LineIfGiven, EnvLines, AfterLines, PathLine, ManagedLine, MetaLines, Digits, IntText;
  }

  function ServiceValues(spec: Spec, key: string): seq<string> { Context(spec, key) + Running(spec, key) }

  function Context(spec: Spec, key: string): seq<string> {
    Gives(key, Type, ["simple"]) + Gives(key, User, IfGiven(spec.user)) + Gives(key, Group, IfGiven(spec.group))
    + Gives(key, WorkingDirectory, IfGiven(spec.workingDirectory)) + Gives(key, Environment, Quoted(spec.environment))
  }

  function Running(spec: Spec, key: string): seq<string> {
    Gives(key, ExecStart, [spec.execStart]) + Gives(key, Restart, [spec.restart])
    + Gives(key, RestartSec, [Digits(spec.restartSec)])
    + Gives(key, LimitNofile, if spec.limitNofile.Some? then [IntText(spec.limitNofile.value)] else [])
  }

  lemma LimitGives(limit: Option<int>, current: string, section: string, key: string)
    requires Name(key)
    ensures forall l | l in LimitLine(limit) :: !Header(l)
    ensures Values(LimitLine(limit), current, section, key)
         == if current == section then Gives(key, LimitNofile, if limit.Some? then [IntText(limit.value)] else []) else []
  {
    hide IntText, Line;
    if limit.Some? { DirectiveGives(LimitNofile, IntText(limit.value), current, section, key); }
  }

  /** One more piece of a section. */
  lemma Append(a: seq<string>, b: seq<string>, va: seq<string>, vb: seq<string>, current: string, section: string, key: string)
    requires (forall l | l in a :: !Header(l)) && (forall l | l in b :: !Header(l))
    requires Values(a, current, section, key) == va && Values(b, current, section, key) == vb
    ensures (forall l | l in a + b :: !Header(l)) && Values(a + b, current, section, key) == va + vb
  {
    ValuesConcat(a, b, current, section, key);
  }

  lemma ContextGives(spec: Spec, section: string, key: string)
    requires Name(key)
    ensures forall l | l in ContextLines(spec) :: !Header(l)
    ensures Values(ContextLines(spec), section, section, key) == Context(spec, key)
  {
    DirectiveGives(Type, "simple", section, section, key);
    IfGivenGives(User, spec.user, section, section, key);
    IfGivenGives(Group, spec.group, section, section, key);
    IfGivenGives(WorkingDirectory, spec.workingDirectory, section, section, key);
    EnvLinesGive(spec.environment, section, section, key);
    hide Values, Header, Line, LineIfGiven, EnvLines, KeyText, Quoted, IfGiven;
    var l1, v1 := [Line(Type, "simple")], Gives(key, Type, ["simple"]);
    var l2, v2 := l1 + LineIfGiven(User, spec.user), v1 + Gives(key, User, IfGiven(spec.user));
    var l3, v3 := l2 + LineIfGiven(Group, spec.group), v2 + Gives(key, Group, IfGiven(spec.group));
    var directory := Gives(key, WorkingDirectory, IfGiven(spec.workingDirectory));
    var l4, v4 := l3 + LineIfGiven(WorkingDirectory, spec.workingDirectory), v3 + directory;
    Append(l1, LineIfGiven(User, spec.user), v1, Gives(key, User, IfGiven(spec.user)), section, section, key);
    Append(l2, LineIfGiven(Group, spec.group), v2, Gives(key, Group, IfGiven(spec.group)), section, section, key);
    Append(l3, LineIfGiven(WorkingDirectory, spec.workingDirectory), v3, directory, section, section, key);
    Append(l4, EnvLines(spec.environment), v4, Gives(key, Environment, Quoted(spec.environment)), section, section, key);
  }

  lemma RunningGives(spec: Spec, section: string, key: string)
    requires Name(key)
    ensures forall l | l in RunningLines(spec) :: !Header(l)
    ensures Values(RunningLines(spec), section, section, key) == Running(spec, key)
  {
    var seconds := Digits(spec.restartSec);
    DirectiveGives(ExecStart, spec.execStart, section, section, key);
    DirectiveGives(Restart, spec.restart, section, section, key);
    DirectiveGives(RestartSec, seconds, section, section, key);
    LimitGives(spec.limitNofile, section, section, key);
    hide Values, Header, Line, LimitLine, Digits, IntText, KeyText;
    var l1, v1 := [Line(ExecStart, spec.execStart)], Gives(key, ExecStart, [spec.execStart]);
    var l2, v2 := l1 + [Line(Restart, spec.restart)], v1 + Gives(key, Restart, [spec.restart]);
    var l3, v3 := l2 + [Line(RestartSec, seconds)], v2 + Gives(key, RestartSec, [seconds]);
    var limit := if spec.limitNofile.Some? then [IntText(spec.limitNofile.value)] else [];
    Append(l1, [Line(Restart, spec.restart)], v1, Gives(key, Restart, [spec.restart]), section, section, key);
    Append(l2, [Line(RestartSec, seconds)], v2, Gives(key, RestartSec, [seconds]), section, section, key);
    Append(l3, LimitLine(spec.limitNofile), v3, Gives(key, LimitNofile, limit), section, section, key);
  }

  lemma ServiceBodyGives(spec: Spec, section: string, key: string)
    requires Name(key)
    ensures forall l | l in ServiceBody(spec) :: !Header(l)
    ensures Values(ServiceBody(spec), section, section, key) == ServiceValues(spec, key)
  {
    ContextGives(spec, section, key);
    RunningGives(spec, section, key);
    CommentGives("", section, section, key);
    hide Values, Header, ContextLines, RunningLines, Context, Running;
    Append(ContextLines(spec), RunningLines(spec), Context(spec, key), Running(spec, key), section, section, key);
    Append(ContextLines(spec) + RunningLines(spec), [""], ServiceValues(spec, key), [], section, section, key);
    assert ServiceValues(spec, key) + [] == ServiceValues(spec, key);
  }

  lemma UnitBodyGives(spec: Spec, section: string, key: string)
    requires Name(key)
    ensures forall l | l in UnitBody(spec) :: !Header(l)
    ensures Values(UnitBody(spec), section, section, key)
         == Gives(key, Description, [spec.description]) + Gives(key, After, if spec.after == [] then [] else [Join(" ", spec.after)])
  {
    DirectiveGives(Description, spec.description, section, section, key);
    var joined := Join(" ", spec.after);
    DirectiveGives(After, joined, section, section, key);
    CommentGives("", section, section, key);
    hide Header, Line, KeyText, Join;
    var va := Gives(key, Description, [spec.description]);
    var vb := Gives(key, After, if spec.after == [] then [] else [joined]);
    assert Values(AfterLines(spec), section, section, key) == vb;
    hide Values;
    Append([Line(Description, spec.description)], AfterLines(spec), va, vb, section, section, key);
    Append([Line(Description, spec.description)] + AfterLines(spec), [""], va + vb, [], section, section, key);
  }

  lemma HeadGives(spec: Spec, section: string, key: string)
    requires Name(key) && section != ""
    ensures (forall l | l in Head(spec) :: !Header(l)) && Values(Head(spec), "", section, key) == []
  {
    assert ManagedLine()[0] == '#' && PathLine(spec.name)[0] == '#' && (KIND + spec.kind)[0] == '#';
    assert Given(spec.version) ==> (VERSION + spec.version.value)[0] == '#';
    hide PathLine, ManagedLine, KIND, VERSION;
    OtherSection(Head(spec), "", section, key);
  }

  // ---------------------------------------------------------------- the unit

  const UNIT := "[Unit]"
  const SERVICE := "[Service]"
  const INSTALL := "[Install]"

  /** The values a key has in the three sections, by the keys of the renderer. */
  lemma UnitGives(spec: Spec, section: string, key: string)
    requires Name(key) && section != ""
    ensures Values(UnitLines(spec), "", section, key)
         == if section == UNIT then
              Gives(key, Description, [spec.description]) + Gives(key, After, if spec.after == [] then [] else [Join(" ", spec.after)])
            else if section == SERVICE then ServiceValues(spec, key)
            else if section == INSTALL then Gives(key, WantedBy, [spec.wantedBy])
            else []
  {
    assert Header(UNIT) && Header(SERVICE) && Header(INSTALL) && UNIT != SERVICE && SERVICE != INSTALL && UNIT != INSTALL
      by { HeadersDiffer(); }
    Sections(spec);
    HeadGives(spec, section, key);
    UnitBodyGives(spec, section, key);
    ServiceBodyGives(spec, section, key);
    DirectiveGives(WantedBy, spec.wantedBy, INSTALL, section, key);
    var wanted := [Line(WantedBy, spec.wantedBy)];
    hide Header, Line, KeyText, Values, Head, UnitBody, ServiceBody, UnitLines, ServiceValues, Join;
    var install := ["[Install]"] + wanted;
    var service := ["[Service]"] + (ServiceBody(spec) + install);
    var unit := ["[Unit]"] + (UnitBody(spec) + service);
    ValuesConcat(Head(spec), unit, "", section, key);
    ValuesAtHeader(UNIT, UnitBody(spec) + service, "", section, key);
    ValuesConcat(UnitBody(spec), service, UNIT, section, key);
    ValuesAtHeader(SERVICE, ServiceBody(spec) + install, UNIT, section, key);
    ValuesConcat(ServiceBody(spec), install, SERVICE, section, key);
    ValuesAtHeader(INSTALL, wanted, SERVICE, section, key);
    if section != UNIT { OtherSection(UnitBody(spec), UNIT, section, key); }
    if section != SERVICE { OtherSection(ServiceBody(spec), SERVICE, section, key); }
  }

  lemma HeadersDiffer()
    ensures Header(UNIT) && Header(SERVICE) && Header(INSTALL) && UNIT != SERVICE && SERVICE != INSTALL && UNIT != INSTALL
  {
    assert UNIT[1] == 'U' && SERVICE[1] == 'S' && INSTALL[1] == 'I';
  }

  // ---------------------------------------------------------------- every line is one line

  lemma LinesConcat(a: seq<string>, b: seq<string>)
    ensures NoBreaks(StrSplitlines, a + b) <==> NoBreaks(StrSplitlines, a) && NoBreaks(StrSplitlines, b)
  {
    hide NoBreak;
    assert forall l :: l in a + b <==> l in a || l in b;
  }

  lemma LineIsOne(k: Key, value: string)
    requires NoBreak(StrSplitlines, value)
    ensures NoBreak(StrSplitlines, Line(k, value)) && NoBreaks(StrSplitlines, [Line(k, value)])
  {
    hide NoBreak, KeyText;
    KeyIsPlain(k);
    NoBreakConcat(KeyText(k) + "=", value);
    assert Line(k, value) == (KeyText(k) + "=") + value;
  }

  lemma GivenIsOne(k: Key, value: Option<string>)
    requires OneLineIfGiven(value)
    ensures NoBreaks(StrSplitlines, LineIfGiven(k, value))
  {
    hide NoBreak, Line;
    if value.Some? { LineIsOne(k, value.value); }
  }

  lemma {:induction false} EscapedIsOne(v: string)
    requires NoBreak(StrSplitlines, v)
    ensures NoBreak(StrSplitlines, EscapeOnce(v))
  {
    if v != "" {
      assert v[0] in v && forall c | c in v[1..] :: c in v;
      EscapedIsOne(v[1..]);
      PrintableHasNoBreak("\\");
      hide IsBreak;
    }
  }

  lemma EnvLineIsOne(entry: (string, string))
    requires NoBreak(StrSplitlines, entry.0) && NoBreak(StrSplitlines, entry.1)
    ensures NoBreak(StrSplitlines, EnvLine(entry))
  {
    EscapeIsOnePass(entry.1);
    EscapedIsOne(entry.1);
    PrintableHasNoBreak("\"");
    PrintableHasNoBreak("=");
    hide NoBreak, Escape, EscapeOnce, KeyText, IsBreak;
    var a, b := "\"" + entry.0, "=" + Escape(entry.1);
    NoBreakConcat("\"", entry.0);
    NoBreakConcat("=", Escape(entry.1));
    NoBreakConcat(a, b);
    NoBreakConcat(a + b, "\"");
    LineIsOne(Environment, a + b + "\"");
    EnvLineIs(entry);
    hide EnvLine, Line;
    assert a + b + "\"" == "\"" + entry.0 + "=" + Escape(entry.1) + "\"";
  }

  lemma EnvLineIs(entry: (string, string))
    ensures EnvLine(entry) == Line(Environment, "\"" + entry.0 + "=" + Escape(entry.1) + "\"")
  {
    hide Escape, KeyText;
  }

  lemma HeadIsOne(spec: Spec)
    requires SingleLines(spec)
    ensures NoBreaks(StrSplitlines, Head(spec))
  {
    PrintableHasNoBreak("# /etc/systemd/system/");
    PrintableHasNoBreak(".service");
    PrintableHasNoBreak("");
    TagsArePlain();
    ManagedIsOne();
    hide NoBreak, KIND, VERSION, ManagedLine;
    NoBreakConcat(spec.name, ".service");
    NoBreakConcat("# /etc/systemd/system/", spec.name + ".service");
    assert PathLine(spec.name) == "# /etc/systemd/system/" + (spec.name + ".service");
    NoBreakConcat(KIND, spec.kind);
    if spec.version.Some? { NoBreakConcat(VERSION, spec.version.value); }
    hide PathLine;
    LinesConcat([PathLine(spec.name), ManagedLine()] + MetaLines(spec), [""]);
    LinesConcat([PathLine(spec.name), ManagedLine()], MetaLines(spec));
  }

  lemma ManagedIsOne()
    ensures NoBreak(StrSplitlines, ManagedLine())
  {
    var a, b, c, d := "# Managed by ", "Argus RAG Studio Agent ", "(servicemgr) - ", "DO NOT EDIT BY HAND";
    PrintableHasNoBreak(a);
    PrintableHasNoBreak(b);
    PrintableHasNoBreak(c);
    PrintableHasNoBreak(d);
    hide NoBreak;
    NoBreakConcat(c, d);
    NoBreakConcat(b, c + d);
    NoBreakConcat(a, b + (c + d));
  }

  lemma UnitBodyIsOne(spec: Spec)
    requires SingleLines(spec)
    ensures NoBreaks(StrSplitlines, UnitBody(spec))
  {
    PrintableHasNoBreak("");
    hide NoBreak, Line;
    LineIsOne(Description, spec.description);
    JoinedHasNoBreak(spec.after);
    LineIsOne(After, Join(" ", spec.after));
    LinesConcat([Line(Description, spec.description)] + AfterLines(spec), [""]);
    LinesConcat([Line(Description, spec.description)], AfterLines(spec));
  }

  lemma ContextIsOne(spec: Spec)
    requires SingleLines(spec)
    ensures NoBreaks(StrSplitlines, ContextLines(spec))
  {
    PrintableHasNoBreak("simple");
    hide NoBreak, Line, LineIfGiven, EnvLine;
    LineIsOne(Type, "simple");
    GivenIsOne(User, spec.user);
    GivenIsOne(Group, spec.group);
    GivenIsOne(WorkingDirectory, spec.workingDirectory);
    forall i | 0 <= i < |spec.environment| ensures NoBreak(StrSplitlines, EnvLine(spec.environment[i])) {
      EnvLineIsOne(spec.environment[i]);
    }
    assert NoBreaks(StrSplitlines, EnvLines(spec.environment));
    hide NoBreaks, EnvLines;
    var l1 := [Line(Type, "simple")];
    var l2 := l1 + LineIfGiven(User, spec.user);
    var l3 := l2 + LineIfGiven(Group, spec.group);
    LinesConcat(l1, LineIfGiven(User, spec.user));
    LinesConcat(l2, LineIfGiven(Group, spec.group));
    LinesConcat(l3, LineIfGiven(WorkingDirectory, spec.workingDirectory));
    LinesConcat(l3 + LineIfGiven(WorkingDirectory, spec.workingDirectory), EnvLines(spec.environment));
  }

  lemma RunningIsOne(spec: Spec)
    requires SingleLines(spec)
    ensures NoBreaks(StrSplitlines, RunningLines(spec))
  {
    DigitsArePrintable(spec.restartSec);
    PrintableHasNoBreak(Digits(spec.restartSec));
    hide NoBreak, Line, Digits, IntText;
    LineIsOne(ExecStart, spec.execStart);
    LineIsOne(Restart, spec.restart);
    LineIsOne(RestartSec, Digits(spec.restartSec));
    if spec.limitNofile.Some? {
      IntTextHasNoBreak(spec.limitNofile.value);
      LineIsOne(LimitNofile, IntText(spec.limitNofile.value));
    }
    assert NoBreaks(StrSplitlines, LimitLine(spec.limitNofile));
    hide NoBreaks, LimitLine;
    var l1 := [Line(ExecStart, spec.execStart)];
    var l2 := l1 + [Line(Restart, spec.restart)];
    LinesConcat(l1, [Line(Restart, spec.restart)]);
    LinesConcat(l2, [Line(RestartSec, Digits(spec.restartSec))]);
    LinesConcat(l2 + [Line(RestartSec, Digits(spec.restartSec))], LimitLine(spec.limitNofile));
  }

  lemma ServiceBodyIsOne(spec: Spec)
    requires SingleLines(spec)
    ensures NoBreaks(StrSplitlines, ServiceBody(spec))
  {
    PrintableHasNoBreak("");
    hide NoBreak, ContextLines, RunningLines, SingleLines;
    ContextIsOne(spec);
    RunningIsOne(spec);
    assert NoBreaks(StrSplitlines, [""]);
    hide NoBreaks;
    LinesConcat(ContextLines(spec), RunningLines(spec));
    LinesConcat(ContextLines(spec) + RunningLines(spec), [""]);
  }

  lemma HeadersAreOne()
    ensures NoBreaks(StrSplitlines, ["[Unit]"]) && NoBreaks(StrSplitlines, ["[Service]"]) && NoBreaks(StrSplitlines, ["[Install]"])
  {
    PrintableHasNoBreak("[Unit]");
    PrintableHasNoBreak("[Service]");
    PrintableHasNoBreak("[Install]");
    hide NoBreak;
  }

  lemma OneLineEach(spec: Spec)
    requires SingleLines(spec)
    ensures SplitLines(StrSplitlines, Render(spec)) == UnitLines(spec)
  {
    Sections(spec);
    HeadIsOne(spec);
    UnitBodyIsOne(spec);
    ServiceBodyIsOne(spec);
    HeadersAreOne();
    LineIsOne(WantedBy, spec.wantedBy);
    hide NoBreaks, NoBreak, Line, Head, UnitBody, ServiceBody, UnitLines, SplitLines, Terminated;
    var wanted := [Line(WantedBy, spec.wantedBy)];
    var install := ["[Install]"] + wanted;
    var service := ["[Service]"] + (ServiceBody(spec) + install);
    var unit := ["[Unit]"] + (UnitBody(spec) + service);
    LinesConcat(["[Install]"], wanted);
    LinesConcat(ServiceBody(spec), install);
    LinesConcat(["[Service]"], ServiceBody(spec) + install);
    LinesConcat(UnitBody(spec), service);
    LinesConcat(["[Unit]"], UnitBody(spec) + service);
    LinesConcat(Head(spec), unit);
    SplitTerminated(StrSplitlines, UnitLines(spec));
  }

  // ---------------------------------------------------------------- what is read

  lemma OwnKey(k: Key, j: Key, values: seq<string>)
    ensures Gives(KeyText(k), j, values) == if j == k then values else []
  {
    if KeyText(k) == KeyText(j) { KeysDiffer(k, j); }
  }

  /** The values of one directive. */
  function Asked(spec: Spec, k: Key): seq<string> {
    match k
    case Description => [spec.description]
    case After => if spec.after == [] then [] else [Join(" ", spec.after)]
    case Type => ["simple"]
    case User => IfGiven(spec.user)
    case Group => IfGiven(spec.group)
    case WorkingDirectory => IfGiven(spec.workingDirectory)
    case Environment => Quoted(spec.environment)
    case ExecStart => [spec.execStart]
    case Restart => [spec.restart]
    case RestartSec => [Digits(spec.restartSec)]
    case LimitNofile => if spec.limitNofile.Some? then [IntText(spec.limitNofile.value)] else []
    case WantedBy => [spec.wantedBy]
  }

  function SectionOf(k: Key): string {
    match k
    case Description => UNIT
    case After => UNIT
    case WantedBy => INSTALL
    case _ => SERVICE
  }

  lemma DirectiveReads(spec: Spec, k: Key)
    requires SingleLines(spec)
    ensures Read(Render(spec), SectionOf(k), KeyText(k)) == Asked(spec, k)
  {
    OneLineEach(spec);
    KeyTable(k);
    HeadersDiffer();
    hide Values, Render, SplitLines, KeyText, Digits, IntText, Join, Quoted, IfGiven, Header, SingleLines, UnitLines, Gives;
    UnitGives(spec, SectionOf(k), KeyText(k));
    OwnKey(k, Description, [spec.description]);
    OwnKey(k, After, if spec.after == [] then [] else [Join(" ", spec.after)]);
    OwnKey(k, WantedBy, [spec.wantedBy]);
    ServicePick(spec, k);
  }

  lemma ContextPick(spec: Spec, k: Key)
    ensures Context(spec, KeyText(k))
         == if k in {Type, User, Group, WorkingDirectory, Environment} then Asked(spec, k) else []
  {
    hide KeyText, Quoted, IfGiven, Gives;
    OwnKey(k, Type, ["simple"]);
    OwnKey(k, User, IfGiven(spec.user));
    OwnKey(k, Group, IfGiven(spec.group));
    OwnKey(k, WorkingDirectory, IfGiven(spec.workingDirectory));
    OwnKey(k, Environment, Quoted(spec.environment));
  }

  lemma RunningPick(spec: Spec, k: Key)
    ensures Running(spec, KeyText(k)) == if k in {ExecStart, Restart, RestartSec, LimitNofile} then Asked(spec, k) else []
  {
    hide KeyText, Digits, IntText, Gives;
    OwnKey(k, ExecStart, [spec.execStart]);
    OwnKey(k, Restart, [spec.restart]);
    OwnKey(k, RestartSec, [Digits(spec.restartSec)]);
    OwnKey(k, LimitNofile, if spec.limitNofile.Some? then [IntText(spec.limitNofile.value)] else []);
  }

  lemma ServicePick(spec: Spec, k: Key)
    ensures SectionOf(k) == SERVICE ==> ServiceValues(spec, KeyText(k)) == Asked(spec, k)
  {
    HeadersDiffer();
    ContextPick(spec, k);
    RunningPick(spec, k);
    hide KeyText, Asked, Context, Running, Header;
    assert Asked(spec, k) + [] == Asked(spec, k) && [] + Asked(spec, k) == Asked(spec, k);
  }

  /** A unit whose texts are single lines says exactly what was asked for: every directive stands in its section with its
      value, and a missing one does not stand there. */
  lemma UnitSaysWhatWasAsked(spec: Spec)
    requires SingleLines(spec)
    ensures var unit := Render(spec);
            && Read(unit, "[Unit]", "Description") == [spec.description]
            && Read(unit, "[Unit]", "After") == (if spec.after == [] then [] else [Join(" ", spec.after)])
            && Read(unit, "[Service]", "Type") == ["simple"]
            && Read(unit, "[Service]", "User") == IfGiven(spec.user)
            && Read(unit, "[Service]", "Group") == IfGiven(spec.group)
            && Read(unit, "[Service]", "WorkingDirectory") == IfGiven(spec.workingDirectory)
            && Read(unit, "[Service]", "Environment") == Quoted(spec.environment)
            && Read(unit, "[Service]", "ExecStart") == [spec.execStart]
            && Read(unit, "[Service]", "Restart") == [spec.restart]
            && Read(unit, "[Service]", "RestartSec") == [Digits(spec.restartSec)]
            && Read(unit, "[Service]", "LimitNOFILE")
               == (if spec.limitNofile.Some? then [IntText(spec.limitNofile.value)] else [])
            && Read(unit, "[Install]", "WantedBy") == [spec.wantedBy]
  {
    hide Read, Render, Quoted, IfGiven, Digits, IntText, Join, SingleLines;
    DirectiveReads(spec, Description);
    DirectiveReads(spec, After);
    DirectiveReads(spec, Type);
    DirectiveReads(spec, User);
    DirectiveReads(spec, Group);
    DirectiveReads(spec, WorkingDirectory);
    DirectiveReads(spec, Environment);
    DirectiveReads(spec, ExecStart);
    DirectiveReads(spec, Restart);
    DirectiveReads(spec, RestartSec);
    DirectiveReads(spec, LimitNofile);
    DirectiveReads(spec, WantedBy);
  }

  /** The comments in front: where the file belongs, who manages it, and the metadata. */
  lemma CommentLines(spec: Spec)
    requires SingleLines(spec)
    ensures var lines := SplitLines(StrSplitlines, Render(spec));
            && |lines| > 4
            && lines[0] == "# /etc/systemd/system/" + (spec.name + ".service")
            && lines[1] == "# Managed by " + ("Argus RAG Studio Agent " + ("(servicemgr) - " + "DO NOT EDIT BY HAND"))
            && lines[2] == "# X-Argus-Kind=" + spec.kind
            && lines[3] == if spec.version.Some? && spec.version.value != "" then "# X-Argus-Version=" + spec.version.value else ""
  {
    OneLineEach(spec);
    Sections(spec);
    HeadLines(spec);
    hide Render, SplitLines, Head, UnitBody, ServiceBody, UnitLines, Line, ManagedLine, PathLine, SingleLines;
    var head := Head(spec);
    var rest := ["[Unit]"] + (UnitBody(spec) + (["[Service]"] + (ServiceBody(spec) + (["[Install]"] + [Line(WantedBy, spec.wantedBy)]))));
    assert forall i | 0 <= i < |head| :: (head + rest)[i] == head[i];
  }

  lemma HeadLines(spec: Spec)
    ensures var head := Head(spec);
            && 4 <= |head|
            && head[0] == "# /etc/systemd/system/" + (spec.name + ".service") && head[1] == "# Managed by " + ("Argus RAG Studio Agent " + ("(servicemgr) - " + "DO NOT EDIT BY HAND"))
            && head[2] == "# X-Argus-Kind=" + spec.kind
            && head[3] == if spec.version.Some? && spec.version.value != "" then "# X-Argus-Version=" + spec.version.value else ""
  {
    assert PathLine(spec.name) == "# /etc/systemd/system/" + (spec.name + ".service");
    assert ManagedLine() == "# Managed by " + ("Argus RAG Studio Agent " + ("(servicemgr) - " + "DO NOT EDIT BY HAND"));
    hide ManagedLine, PathLine;
  }

  /** What the reader of an environment directive gets: name, equals sign and value. */
  lemma EnvironmentIsRead(spec: Spec, i: nat)
    requires SingleLines(spec) && i < |spec.environment| && NameMatches(spec.environment[i].0)
    ensures var values := Read(Render(spec), "[Service]", "Environment");
            && |values| == |spec.environment| && values[i] != "" && values[i][0] == '\"'
            && ReadQuoted(values[i][1..]) == Some((spec.environment[i].0 + "=" + spec.environment[i].1, ""))
  {
    var name, value := spec.environment[i].0, spec.environment[i].1;
    UnitSaysWhatWasAsked(spec);
    hide Read, Render, SingleLines, NameMatches, Escape, ReadQuoted;
    QuotedEntry(name, value);
  }

  lemma QuotedEntry(name: string, value: string)
    requires NameMatches(name)
    ensures var v := "\"" + name + "=" + Escape(value) + "\"";
            v[0] == '\"' && ReadQuoted(v[1..]) == Some((name + "=" + value, ""))
  {
    EscapeName(name, value);
    hide NameMatches, Escape, ReadQuoted;
    var text := name + "=" + value;
    QuotedReadsBack(text, "");
    assert ("\"" + name + "=" + Escape(value) + "\"")[1..] == Escape(text) + "\"" + "";
  }

  lemma EscapeName(name: string, value: string)
    requires NameMatches(name)
    ensures Escape(name + "=" + value) == name + "=" + Escape(value)
  {
    EscapeIsOnePass(name + "=" + value);
    EscapeIsOnePass(value);
    var a := name + "=";
    assert forall c | c in a :: c != '\\' && c != '\"' by {
      assert forall i | 0 <= i < |a| :: NameChar(a[i]) || a[i] == '\n' || a[i] == '=';
    }
    hide Escape, NameMatches;
    EscapePlain(a, value);
  }

  lemma {:induction false} EscapePlain(a: string, v: string)
    requires forall c | c in a :: c != '\\' && c != '\"'
    ensures EscapeOnce(a + v) == a + EscapeOnce(v)
  {
    if a == "" {
      assert a + v == v;
    } else {
      assert a[0] in a && (a + v)[1..] == a[1..] + v && a == [a[0]] + a[1..];
      assert forall c | c in a[1..] :: c in a;
      EscapePlain(a[1..], v);
    }
  }
}
