/** Reading and editing /etc/security/limits.conf (agent/app/hostmgr/service.py). */
module Limits {
  import opened Text
  import opened Wrappers

  datatype Limit = Limit(domain: string, kind: string, item: string, value: string)

  /** The entry on a line, if it has one: four words at least, and not a comment. */
  function ParseLine(line: string): Option<Limit> {
    var stripped := Strip(line);
    if stripped == "" || stripped[0] == '#' then None
    else
      var parts := Words(stripped);
      if |parts| < 4 then None else Some(Limit(parts[0], parts[1], parts[2], parts[3]))
  }

  function Collect(ls: seq<Option<Limit>>): seq<Limit> {
    if ls == [] then []
    else Collect(ls[..|ls| - 1]) + match ls[|ls| - 1] case Some(l) => [l] case None => []
  }

  function ParseEach(lines: seq<string>): (ls: seq<Option<Limit>>)
    ensures |ls| == |lines| && forall i | 0 <= i < |lines| :: ls[i] == ParseLine(lines[i])
  {
    seq(|lines|, i requires 0 <= i < |lines| => ParseLine(lines[i]))
  }

  /** `_parse_limits_conf`. */
  function Parse(text: string): seq<Limit> { Collect(ParseEach(SplitLines(StrSplitlines, text))) }

  method ParseLimitsConf(text: string) returns (entries: seq<Limit>)
    ensures entries == Parse(text)
  {
    var lines := SplitLines(StrSplitlines, text);
    ghost var ls := ParseEach(lines);
    entries := [];
    for i := 0 to |lines|
      invariant entries == Collect(ls[..i])
    {
      assert ls[..i + 1][..i] == ls[..i];
      var stripped := Strip(lines[i]);
      if stripped == "" || stripped[0] == '#' { continue; }
      var parts := Words(stripped);
      if |parts| >= 4 { entries := entries + [Limit(parts[0], parts[1], parts[2], parts[3])]; }
    }
    assert ls[..|ls|] == ls;
  }

  // ---------------------------------------------------------------- the editor

  /** What is to hold afterwards for one domain and item. */
  datatype Setting = Setting(domain: string, item: string, soft: string, hard: string) {
    function Value(kind: string): string { if kind == "soft" then soft else hard }

    function Render(kind: string): string { domain + "\t" + (kind + ("\t" + (item + ("\t" + Value(kind))))) }

    predicate Concerns(l: Limit) { l.domain == domain && l.item == item && (l.kind == "soft" || l.kind == "hard") }

    predicate Sets(l: Option<Limit>, kind: string) {
      l.Some? && l.value.domain == domain && l.value.item == item && l.value.kind == kind
    }
  }

  function EditLine(line: string, s: Setting): string {
    var l := ParseLine(line);
    if s.Sets(l, "soft") then s.Render("soft") else if s.Sets(l, "hard") then s.Render("hard") else line
  }

  function EditLines(lines: seq<string>, s: Setting): (out: seq<string>)
    ensures |out| == |lines| && forall i | 0 <= i < |lines| :: out[i] == EditLine(lines[i], s)
  {
    seq(|lines|, i requires 0 <= i < |lines| => EditLine(lines[i], s))
  }

  ghost predicate Found(ls: seq<Option<Limit>>, s: Setting, kind: string) {
    exists i :: 0 <= i < |ls| && s.Sets(ls[i], kind)
  }

  ghost function UpdatedLines(lines: seq<string>, s: Setting): seq<string> {
    var ls := ParseEach(lines);
    EditLines(lines, s)
    + (if Found(ls, s, "soft") then [] else [s.Render("soft")])
    + (if Found(ls, s, "hard") then [] else [s.Render("hard")])
  }

  function WithFinalNewline(content: string): string {
    if content != "" && content[|content| - 1] == '\n' then content else content + "\n"
  }

  ghost function UpdateText(text: string, s: Setting): string {
    WithFinalNewline(Join("\n", UpdatedLines(SplitLines(StrSplitlines, text), s)))
  }

  /** The editing loop over the lines of the file. */
  method EditExisting(lines: seq<string>, s: Setting)
    returns (newLines: seq<string>, updatedSoft: bool, updatedHard: bool)
    ensures newLines == EditLines(lines, s)
    ensures updatedSoft <==> Found(ParseEach(lines), s, "soft")
    ensures updatedHard <==> Found(ParseEach(lines), s, "hard")
  {
    hide ParseLine, EditLine, Setting.Sets;
    ghost var ls := ParseEach(lines);
    newLines, updatedSoft, updatedHard := [], false, false;
    for i := 0 to |lines|
      invariant |newLines| == i && forall j | 0 <= j < i :: newLines[j] == EditLine(lines[j], s)
      invariant updatedSoft <==> exists j :: 0 <= j < i && s.Sets(ls[j], "soft")
      invariant updatedHard <==> exists j :: 0 <= j < i && s.Sets(ls[j], "hard")
    {
      var line, soft, hard := EditOne(lines[i], s);
      newLines := newLines + [line];
      updatedSoft, updatedHard := updatedSoft || soft, updatedHard || hard;
    }
  }

  /** `_update_limits_conf`; without the file nothing is written. */
  method UpdateLimitsConf(file: Option<string>, s: Setting) returns (written: Option<string>)
    ensures written == if file.Some? then Some(UpdateText(file.value, s)) else None
  {
    hide ParseLine, EditLine, Setting.Sets, Found, Setting.Render;
    if file.None? { return None; }
    var newLines, updatedSoft, updatedHard := EditExisting(SplitLines(StrSplitlines, file.value), s);
    if !updatedSoft { newLines := newLines + [s.Render("soft")]; }
    if !updatedHard { newLines := newLines + [s.Render("hard")]; }
    assert newLines == UpdatedLines(SplitLines(StrSplitlines, file.value), s);
    return Some(WithFinalNewline(Join("\n", newLines)));
  }

  /** One pass of the editing loop. */
  method EditOne(line: string, s: Setting) returns (out: string, soft: bool, hard: bool)
    ensures out == EditLine(line, s)
    ensures soft <==> s.Sets(ParseLine(line), "soft")
    ensures hard <==> s.Sets(ParseLine(line), "hard")
  {
    out, soft, hard := line, false, false;
    var stripped := Strip(line);
    if stripped != "" && stripped[0] != '#' {
      var parts := Words(stripped);
      if |parts| >= 4 && parts[0] == s.domain && parts[2] == s.item {
        if parts[1] == "soft" {
          out, soft := s.Render("soft"), true;
        } else if parts[1] == "hard" {
          out, hard := s.Render("hard"), true;
        }
      }
    }
  }

  // ---------------------------------------------------------------- rendered lines

  /** Settings that can be written as words of a line. */
  ghost predicate Canonical(s: Setting) {
    IsToken(s.domain) && s.domain[0] != '#' && IsToken(s.item) && IsToken(s.soft) && IsToken(s.hard)
  }

  ghost predicate TokensOnly(l: Limit) {
    IsToken(l.domain) && l.domain[0] != '#' && IsToken(l.kind) && IsToken(l.item) && IsToken(l.value)
  }

  lemma ParsedAreTokens(line: string)
    ensures ParseLine(line).Some? ==> TokensOnly(ParseLine(line).value)
  {
    hide Strip, Words;
    if ParseLine(line).Some? {
      FirstWord(line);
      var ws := Words(Strip(line));
      assert ws[0] in ws && ws[1] in ws && ws[2] in ws && ws[3] in ws;
      assert ws[0][0] == Strip(line)[0];
    }
  }

  lemma RenderedWords(s: Setting, kind: string)
    requires Canonical(s) && IsToken(kind)
    ensures Words(s.Render(kind)) == [s.domain, kind, s.item, s.Value(kind)]
  {
    hide Words, Setting.Value, IsSpace;
    var v := s.Value(kind);
    assert IsToken(v) by { assert v == s.soft || v == s.hard by { ValueIsOneOfTwo(s, kind); } }
    var tail := s.item + ("\t" + v);
    var mid := kind + ("\t" + tail);
    assert s.Render(kind) == s.domain + ['\t'] + mid && mid == kind + ['\t'] + tail && tail == s.item + ['\t'] + v;
    TabIsSpace();
    WordsOfToken(v);
    WordsCons(s.item, '\t', v);
    WordsCons(kind, '\t', tail);
    WordsCons(s.domain, '\t', mid);
  }

  lemma ValueIsOneOfTwo(s: Setting, kind: string)
    ensures s.Value(kind) == s.soft || s.Value(kind) == s.hard
  {}

  lemma TabIsSpace()
    ensures IsSpace('\t') && !IsBreak(StrSplitlines, '\t')
  {}

  lemma KindsAreTokens()
    ensures IsToken("soft") && IsToken("hard") && "soft" != "hard"
  {
    assert "soft"[0] == 's' && "hard"[0] == 'h';
  }

  lemma RenderedIsOneLine(s: Setting, kind: string)
    requires Canonical(s) && IsToken(kind)
    ensures s.Render(kind) != "" && NoBreak(StrSplitlines, s.Render(kind))
    ensures Strip(s.Render(kind)) == s.Render(kind) && s.Render(kind)[0] != '#'
  {
    var v := s.Value(kind);
    var line := s.Render(kind);
    assert line[|line| - 1] == v[|v| - 1] && line[0] == s.domain[0];
    StripKeepsTrimmed(line);
    TabIsSpace();
    TokenHasNoBreak(StrSplitlines, s.domain);
    TokenHasNoBreak(StrSplitlines, kind);
    TokenHasNoBreak(StrSplitlines, s.item);
    TokenHasNoBreak(StrSplitlines, v);
    hide IsBreak, IsSpace, IsToken;
    assert forall c | c in line :: c in s.domain || c == '\t' || c in kind || c in s.item || c in v;
  }

  lemma RenderParses(s: Setting, kind: string)
    requires Canonical(s) && IsToken(kind)
    ensures ParseLine(s.Render(kind)) == Some(Entry(s, kind))
  {
    RenderedWords(s, kind);
    RenderedIsOneLine(s, kind);
    hide Words, Strip, Setting.Render, IsToken;
  }

  // ---------------------------------------------------------------- editing agrees with parsing

  /** The entry the setting asks for. */
  function Entry(s: Setting, kind: string): Limit { Limit(s.domain, kind, s.item, s.Value(kind)) }

  /** The effect of the edit on one parsed entry and on all of them. */
  function EditEntry(l: Limit, s: Setting): Limit {
    if s.Concerns(l) then l.(value := s.Value(l.kind)) else l
  }

  function EditEntries(ls: seq<Limit>, s: Setting): (out: seq<Limit>)
    ensures |out| == |ls| && forall i | 0 <= i < |ls| :: out[i] == EditEntry(ls[i], s)
  {
    seq(|ls|, i requires 0 <= i < |ls| => EditEntry(ls[i], s))
  }

  ghost predicate Present(ls: seq<Limit>, s: Setting, kind: string) {
    exists l :: l in ls && s.Sets(Some(l), kind)
  }

  ghost function Missing(ls: seq<Limit>, s: Setting): seq<Limit> {
    (if Present(ls, s, "soft") then [] else [Entry(s, "soft")])
    + (if Present(ls, s, "hard") then [] else [Entry(s, "hard")])
  }

  lemma EditedLineParses(line: string, s: Setting)
    requires Canonical(s)
    ensures ParseLine(EditLine(line, s))
         == if ParseLine(line).Some? then Some(EditEntry(ParseLine(line).value, s)) else None
    ensures EditLine(line, s) == "" <==> line == ""
    ensures NoBreak(StrSplitlines, line) ==> NoBreak(StrSplitlines, EditLine(line, s))
  {
    KindsAreTokens();
    RenderParses(s, "soft");
    RenderParses(s, "hard");
    RenderedIsOneLine(s, "soft");
    RenderedIsOneLine(s, "hard");
    assert line == "" ==> ParseLine(line).None?;
    hide ParseLine, Setting.Render, NoBreak, IsToken;
  }

  lemma {:induction false} CollectEdited(lines: seq<string>, s: Setting)
    requires Canonical(s)
    ensures Collect(ParseEach(EditLines(lines, s))) == EditEntries(Collect(ParseEach(lines)), s)
  {
    hide ParseLine, EditLine, EditEntry, Canonical;
    if lines != [] {
      var n := |lines| - 1;
      var init, last := lines[..n], lines[n];
      CollectEdited(init, s);
      EditedLineParses(last, s);
      CollectSnoc(init, last);
      CollectSnoc(EditLines(init, s), EditLine(last, s));
      assert lines == init + [last];
      assert EditLines(lines, s) == EditLines(init, s) + [EditLine(last, s)];
      hide Collect, ParseEach;
    }
  }

  lemma CollectSnoc(lines: seq<string>, line: string)
    ensures Collect(ParseEach(lines + [line]))
         == Collect(ParseEach(lines)) + match ParseLine(line) case Some(v) => [v] case None => []
  {
    hide ParseLine;
    var ls := ParseEach(lines + [line]);
    assert ls[..|lines|] == ParseEach(lines);
  }

  lemma {:induction false} FoundIsPresent(lines: seq<string>, s: Setting, kind: string)
    ensures Found(ParseEach(lines), s, kind) <==> Present(Collect(ParseEach(lines)), s, kind)
  {
    hide ParseLine;
    if lines != [] {
      var n := |lines| - 1;
      var init, last := lines[..n], lines[n];
      FoundIsPresent(init, s, kind);
      CollectSnoc(init, last);
      assert lines == init + [last];
      var ls, before := ParseEach(lines), ParseEach(init);
      assert ls == before + [ParseLine(last)];
      assert Found(ls, s, kind) <==> Found(before, s, kind) || s.Sets(ParseLine(last), kind);
    }
  }

  /** What the lines written parse to. */
  lemma UpdatedLinesParse(lines: seq<string>, s: Setting)
    requires Canonical(s)
    ensures var ls := Collect(ParseEach(lines));
            Collect(ParseEach(UpdatedLines(lines, s))) == EditEntries(ls, s) + Missing(ls, s)
  {
    hide ParseLine, EditLine, EditEntries, Collect, Found, Present, Setting.Render, IsToken, Canonical, Entry;
    CollectEdited(lines, s);
    KindsAreTokens();
    FoundIsPresent(lines, s, "soft");
    FoundIsPresent(lines, s, "hard");
    RenderParses(s, "soft");
    RenderParses(s, "hard");
    var edited := EditLines(lines, s);
    var withSoft := edited + if Found(ParseEach(lines), s, "soft") then [] else [s.Render("soft")];
    CollectSnoc(edited, s.Render("soft"));
    CollectSnoc(withSoft, s.Render("hard"));
    assert edited + [] == edited;
    assert withSoft + [] == withSoft;
  }

  // ---------------------------------------------------------------- the text written

  /** The lines the written text is read back as: a last empty line disappears. */
  function WithoutLastBlank(lines: seq<string>): seq<string> {
    if lines != [] && lines[|lines| - 1] == "" then lines[..|lines| - 1] else lines
  }

  lemma EndsInsideALine(before: string, last: string)
    requires last != "" && NoBreak(StrSplitlines, last)
    ensures WithFinalNewline(before + last) == before + last + "\n"
  {
    LineFeedBreaks();
    hide IsBreak;
    assert last[|last| - 1] in last;
  }

  lemma JoinedWithBlank(init: seq<string>)
    requires init != []
    ensures WithFinalNewline(Join("\n", init + [""])) == Terminated(init)
  {
    hide Join, Terminated;
    JoinIsTerminated(init + [""]);
    JoinIsTerminated(init);
    assert (init + [""])[..|init|] == init;
    assert Terminated(init) + "" == Terminated(init);
  }

  lemma WrittenText(lines: seq<string>)
    requires NoBreaks(StrSplitlines, lines) && exists l :: l in lines && l != ""
    ensures WithFinalNewline(Join("\n", lines)) == Terminated(WithoutLastBlank(lines))
    ensures SplitLines(StrSplitlines, WithFinalNewline(Join("\n", lines))) == WithoutLastBlank(lines)
  {
    hide NoBreak, WithFinalNewline, Join, Terminated, SplitLines;
    if lines[|lines| - 1] == "" {
      assert lines == lines[..|lines| - 1] + [""];
      JoinedWithBlank(lines[..|lines| - 1]);
    } else {
      JoinIsTerminated(lines);
      EndsInsideALine(Terminated(lines[..|lines| - 1]), lines[|lines| - 1]);
    }
    SplitTerminated(StrSplitlines, WithoutLastBlank(lines));
  }

  lemma LineFeedBreaks()
    ensures IsBreak(StrSplitlines, '\n')
  {}

  lemma UpdatedLinesAreLines(lines: seq<string>, s: Setting)
    requires Canonical(s) && NoBreaks(StrSplitlines, lines)
    ensures NoBreaks(StrSplitlines, UpdatedLines(lines, s))
    ensures exists l :: l in UpdatedLines(lines, s) && l != ""
  {
    hide EditLine, ParseLine, Setting.Render, NoBreak, IsToken;
    KindsAreTokens();
    RenderedIsOneLine(s, "soft");
    RenderedIsOneLine(s, "hard");
    var ls, out := ParseEach(lines), UpdatedLines(lines, s);
    forall l | l in out ensures NoBreak(StrSplitlines, l) {
      var i :| 0 <= i < |out| && out[i] == l;
      if i < |lines| { EditedLineParses(lines[i], s); }
    }
    if Found(ls, s, "soft") {
      var i :| 0 <= i < |ls| && s.Sets(ls[i], "soft");
      BlankParsesToNothing();
      EditedLineParses(lines[i], s);
      assert out[i] in out;
    } else {
      assert out[|lines|] in out;
    }
  }

  lemma BlankParsesToNothing()
    ensures ParseLine("") == None
  {}

  lemma {:induction false} BlankAdds(lines: seq<string>)
    ensures Collect(ParseEach(WithoutLastBlank(lines))) == Collect(ParseEach(lines))
  {
    if lines != [] && lines[|lines| - 1] == "" {
      BlankParsesToNothing();
      CollectSnoc(lines[..|lines| - 1], "");
      assert lines == lines[..|lines| - 1] + [""];
    }
  }

  /** Editing agrees with parsing: the written file parses to the old entries with the new values in place,
      followed by the entries that were missing. */
  lemma ParseAfterUpdate(text: string, s: Setting)
    requires Canonical(s)
    ensures Parse(UpdateText(text, s)) == EditEntries(Parse(text), s) + Missing(Parse(text), s)
  {
    hide ParseEach, UpdatedLines, Collect, EditEntries, Missing, Canonical, WithoutLastBlank;
    var lines := SplitLines(StrSplitlines, text);
    UpdatedLinesParse(lines, s);
    UpdatedLinesAreLines(lines, s);
    WrittenText(UpdatedLines(lines, s));
    BlankAdds(UpdatedLines(lines, s));
  }

  function Others(ls: seq<Limit>, s: Setting): seq<Limit> {
    if ls == [] then []
    else (if s.Concerns(ls[0]) then [] else [ls[0]]) + Others(ls[1..], s)
  }

  lemma {:induction false} OthersKept(ls: seq<Limit>, s: Setting, added: seq<Limit>)
    requires forall l | l in added :: s.Concerns(l)
    ensures Others(EditEntries(ls, s) + added, s) == Others(ls, s)
  {
    if ls != [] {
      OthersKept(ls[1..], s, added);
      var es := EditEntries(ls, s);
      assert (es + added)[1..] == EditEntries(ls[1..], s) + added;
      assert (es + added)[0] == EditEntry(ls[0], s);
    } else {
      assert EditEntries(ls, s) + added == added;
      NoOthers(added, s);
    }
  }

  lemma {:induction false} NoOthers(ls: seq<Limit>, s: Setting)
    requires forall l | l in ls :: s.Concerns(l)
    ensures Others(ls, s) == []
  {
    if ls != [] { NoOthers(ls[1..], s); }
  }

  /** After the update every entry for the domain and item carries the new value of its kind, and all other entries keep
      value and order. */
  lemma UpdateIsLocal(text: string, s: Setting)
    requires Canonical(s)
    ensures var after := Parse(UpdateText(text, s));
            && (forall l | l in after && l.domain == s.domain && l.item == s.item ::
                  (l.kind == "soft" ==> l.value == s.soft) && (l.kind == "hard" ==> l.value == s.hard))
            && Others(after, s) == Others(Parse(text), s)
  {
    hide Parse, UpdateText, Present, Canonical, Others;
    ParseAfterUpdate(text, s);
    var ls := Parse(text);
    KindsAreTokens();
    EditedEntriesAreSet(ls, s);
    OthersKept(ls, s, Missing(ls, s));
  }

  lemma EditedEntriesAreSet(ls: seq<Limit>, s: Setting)
    ensures forall l | l in EditEntries(ls, s) && s.Concerns(l) :: l == Entry(s, l.kind)
  {}

  /** Both limits are in force after the update exactly when the setting consists of plain words. */
  lemma SettingTakesEffect(text: string, s: Setting)
    ensures var after := Parse(UpdateText(text, s));
            (Limit(s.domain, "soft", s.item, s.soft) in after && Limit(s.domain, "hard", s.item, s.hard) in after)
            <==> Canonical(s)
  {
    var after := Parse(UpdateText(text, s));
    KindsAreTokens();
    assert Entry(s, "soft").value == s.soft && Entry(s, "hard").value == s.hard;
    if Canonical(s) {
      ParseAfterUpdate(text, s);
      BothPresent(Parse(text), s);
    } else if Entry(s, "soft") in after && Entry(s, "hard") in after {
      CollectedAreTokens(SplitLines(StrSplitlines, UpdateText(text, s)), Entry(s, "soft"));
      CollectedAreTokens(SplitLines(StrSplitlines, UpdateText(text, s)), Entry(s, "hard"));
    }
  }

  /** An entry is four words; a comment is none. */
  lemma FourWords(domain: string, kind: string, item: string, value: string)
    requires IsToken(domain) && IsToken(kind) && IsToken(item) && IsToken(value)
    ensures ParseLine(domain + " " + (kind + " " + (item + " " + value)))
         == if domain[0] == '#' then None else Some(Limit(domain, kind, item, value))
  {
    var c := item + [' '] + value;
    var b := kind + [' '] + c;
    var line := domain + [' '] + b;
    WordsOfFour(domain, kind, item, value);
    EndsOfFour(domain, b, value);
    assert line == domain + " " + (kind + " " + (item + " " + value));
    hide Words, Strip, IsSpace, IsToken;
  }

  lemma WordsOfFour(domain: string, kind: string, item: string, value: string)
    requires IsToken(domain) && IsToken(kind) && IsToken(item) && IsToken(value)
    ensures Words(domain + [' '] + (kind + [' '] + (item + [' '] + value))) == [domain, kind, item, value]
  {
    assert IsSpace(' ');
    hide Words, IsSpace, IsToken;
    WordsOfToken(value);
    WordsCons(item, ' ', value);
    WordsCons(kind, ' ', item + [' '] + value);
    WordsCons(domain, ' ', kind + [' '] + (item + [' '] + value));
  }

  lemma EndsOfFour(domain: string, rest: string, value: string)
    requires IsToken(domain) && IsToken(value) && |value| <= |rest| && rest[|rest| - |value|..] == value
    ensures var line := domain + [' '] + rest; Strip(line) == line && line != "" && line[0] == domain[0]
  {
    var line := domain + [' '] + rest;
    assert rest[|rest| - 1] == rest[|rest| - |value|..][|value| - 1];
    assert line[0] == domain[0] && line[|line| - 1] == rest[|rest| - 1];
    hide IsSpace;
    StripKeepsTrimmed(line);
  }

  lemma {:induction false} CollectedAreTokens(lines: seq<string>, l: Limit)
    requires l in Collect(ParseEach(lines))
    ensures TokensOnly(l)
  {
    hide ParseLine, TokensOnly;
    if lines != [] {
      var n := |lines| - 1;
      CollectSnoc(lines[..n], lines[n]);
      assert lines == lines[..n] + [lines[n]];
      ParsedAreTokens(lines[n]);
      if l in Collect(ParseEach(lines[..n])) { CollectedAreTokens(lines[..n], l); }
    }
  }

  lemma BothPresent(ls: seq<Limit>, s: Setting)
    ensures var after := EditEntries(ls, s) + Missing(ls, s);
            Entry(s, "soft") in after && Entry(s, "hard") in after
  {
    var es := EditEntries(ls, s);
    forall kind | kind == "soft" || kind == "hard"
      ensures Present(ls, s, kind) ==> Entry(s, kind) in es
    {
      if Present(ls, s, kind) {
        var i :| 0 <= i < |ls| && s.Sets(Some(ls[i]), kind);
        assert es[i] == Entry(s, kind);
      }
    }
  }

  // ---------------------------------------------------------------- applying the update twice

  /** The update found both entries, and the file ended in two blank lines. */
  ghost predicate LosesABlankLine(text: string, s: Setting) {
    var lines := SplitLines(StrSplitlines, text);
    && Present(Parse(text), s, "soft") && Present(Parse(text), s, "hard")
    && 2 <= |lines| && lines[|lines| - 1] == "" && lines[|lines| - 2] == ""
  }

  lemma EditOnceMore(line: string, s: Setting)
    requires Canonical(s)
    ensures EditLine(EditLine(line, s), s) == EditLine(line, s)
  {
    KindsAreTokens();
    RenderParses(s, "soft");
    RenderParses(s, "hard");
    hide ParseLine, Setting.Render, IsToken;
  }

  lemma RenderedIsStable(s: Setting, kind: string)
    requires Canonical(s) && IsToken(kind) && (kind == "soft" || kind == "hard")
    ensures EditLine(s.Render(kind), s) == s.Render(kind)
  {
    KindsAreTokens();
    RenderParses(s, kind);
    hide ParseLine, Setting.Render, IsToken;
  }

  /** Once written, the lines are left alone by a further update. */
  lemma UpdatedLinesAreStable(lines: seq<string>, s: Setting)
    requires Canonical(s)
    ensures var out := WithoutLastBlank(UpdatedLines(lines, s)); UpdatedLines(out, s) == out
  {
    hide EditLine, ParseLine, Setting.Render, IsToken, Found, Present, EditEntry, Canonical;
    KindsAreTokens();
    var all := UpdatedLines(lines, s);
    var out := WithoutLastBlank(all);
    forall i | 0 <= i < |out| ensures EditLine(out[i], s) == out[i] {
      if i < |lines| { EditOnceMore(lines[i], s); }
      RenderedIsStable(s, "soft");
      RenderedIsStable(s, "hard");
    }
    assert EditLines(out, s) == out;
    UpdatedLinesParse(lines, s);
    BlankAdds(all);
    PresentAfterwards(Collect(ParseEach(lines)), s);
    FoundIsPresent(out, s, "soft");
    FoundIsPresent(out, s, "hard");
  }

  lemma PresentAfterwards(ls: seq<Limit>, s: Setting)
    ensures var after := EditEntries(ls, s) + Missing(ls, s); Present(after, s, "soft") && Present(after, s, "hard")
  {
    BothPresent(ls, s);
    assert s.Sets(Some(Entry(s, "soft")), "soft") && s.Sets(Some(Entry(s, "hard")), "hard");
  }

  /** Applying the same update again changes nothing, except that a file which already had both entries and ends
      in two blank lines or more loses one more of them each time. */
  lemma UpdateTwice(text: string, s: Setting)
    requires Canonical(s)
    ensures UpdateText(UpdateText(text, s), s) == UpdateText(text, s) <==> !LosesABlankLine(text, s)
  {
    hide ParseEach, UpdatedLines, Collect, Canonical, WithoutLastBlank, WithFinalNewline, Join, Terminated, NoBreaks;
    var lines := SplitLines(StrSplitlines, text);
    var all := UpdatedLines(lines, s);
    var out := WithoutLastBlank(all);
    UpdatedLinesAreLines(lines, s);
    WrittenText(all);
    UpdatedLinesAreStable(lines, s);
    UpdatedLinesAreLines(out, s);
    WrittenText(out);
    TwoBlanks(text, s);
    SameLines(out, WithoutLastBlank(out));
    DropsBlank(out);
  }

  lemma SameLines(a: seq<string>, b: seq<string>)
    requires NoBreaks(StrSplitlines, a) && NoBreaks(StrSplitlines, b)
    ensures Terminated(a) == Terminated(b) <==> a == b
  {
    SplitTerminated(StrSplitlines, a);
    SplitTerminated(StrSplitlines, b);
  }

  lemma DropsBlank(lines: seq<string>)
    ensures WithoutLastBlank(lines) != lines <==> lines != [] && lines[|lines| - 1] == ""
  {}

  lemma BlankLinesStay(lines: seq<string>, s: Setting)
    requires Canonical(s)
    ensures var all, ls := UpdatedLines(lines, s), ParseEach(lines);
            if Found(ls, s, "soft") && Found(ls, s, "hard") then
              |all| == |lines| && forall i | 0 <= i < |lines| :: all[i] == "" <==> lines[i] == ""
            else all != [] && all[|all| - 1] != ""
  {
    hide ParseLine, EditLine, Setting.Render, IsToken, Found, Canonical, NoBreak;
    KindsAreTokens();
    RenderedIsOneLine(s, "soft");
    RenderedIsOneLine(s, "hard");
    forall i | 0 <= i < |lines| ensures EditLine(lines[i], s) == "" <==> lines[i] == "" {
      EditedLineParses(lines[i], s);
    }
  }

  lemma TwoBlanks(text: string, s: Setting)
    requires Canonical(s)
    ensures var out := WithoutLastBlank(UpdatedLines(SplitLines(StrSplitlines, text), s));
            (out != [] && out[|out| - 1] == "") <==> LosesABlankLine(text, s)
  {
    hide ParseEach, Collect, Present, Found, UpdatedLines, Canonical, SplitLines, WithoutLastBlank;
    var lines := SplitLines(StrSplitlines, text);
    FoundIsPresent(lines, s, "soft");
    FoundIsPresent(lines, s, "hard");
    BlankLinesStay(lines, s);
    StillBlank(lines, UpdatedLines(lines, s));
  }

  /** What dropping a final blank line leaves, for lines of the same pattern and for lines that end in text. */
  lemma StillBlank(lines: seq<string>, all: seq<string>)
    ensures var out := WithoutLastBlank(all);
            && (|all| == |lines| && (forall i | 0 <= i < |lines| :: all[i] == "" <==> lines[i] == "") ==>
                  ((out != [] && out[|out| - 1] == "")
                   <==> 2 <= |lines| && lines[|lines| - 1] == "" && lines[|lines| - 2] == ""))
            && (all != [] && all[|all| - 1] != "" ==> out != [] && out[|out| - 1] != "")
  {}

  /** A file that loses a blank line with every update. */
  lemma UpdateTwiceDiffers(s: Setting)
    requires Canonical(s)
    ensures var text := Terminated([s.Render("soft"), s.Render("hard"), "", ""]);
            UpdateText(UpdateText(text, s), s) != UpdateText(text, s)
  {
    var lines := [s.Render("soft"), s.Render("hard"), "", ""];
    RenderedIsOneLine(s, "soft");
    RenderedIsOneLine(s, "hard");
    SplitTerminated(StrSplitlines, lines);
    RenderParses(s, "soft");
    RenderParses(s, "hard");
    hide UpdateText, Terminated, SplitLines, Canonical, ParseLine, Collect, NoBreak, Setting.Render;
    var ls := ParseEach(lines);
    assert s.Sets(ls[0], "soft") && s.Sets(ls[1], "hard");
    FoundIsPresent(lines, s, "soft");
    FoundIsPresent(lines, s, "hard");
    UpdateTwice(Terminated(lines), s);
  }
}
