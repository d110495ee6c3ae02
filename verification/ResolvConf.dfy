/** Reading /etc/resolv.conf and replacing its nameserver lines (agent/app/hostmgr/service.py). */
module ResolvConf {
  import opened Text
  import opened Wrappers

  /** `str.lower`, as far as comparing with the directive names goes: no other character lowers to one of theirs. */
  function Lower(s: string): (r: string)
    ensures |r| == |s|
    ensures forall i | 0 <= i < |s| :: r[i] == LowerChar(s[i])
  {
    seq(|s|, i requires 0 <= i < |s| => LowerChar(s[i]))
  }

  function LowerChar(c: char): char { if 'A' <= c <= 'Z' then c + 32 as char else c }

  const KEYWORD := "nameserver"

  datatype Directive =
    | Nameserver(address: string)
    | Search(domains: seq<string>)
    | Options(words: seq<string>)
    | Nothing

  datatype Info = Info(nameservers: seq<string>, search: seq<string>, options: seq<string>) {
    function Add(d: Directive): Info {
      match d
      case Nameserver(a) => this.(nameservers := nameservers + [a])
      case Search(ws) => this.(search := search + ws)
      case Options(ws) => this.(options := options + ws)
      case Nothing => this
    }
  }

  function Classify(parts: seq<string>): Directive {
    if |parts| < 2 then Nothing
    else
      var directive := Lower(parts[0]);
      if directive == KEYWORD then Nameserver(parts[1])
      else if directive == "search" || directive == "domain" then Search(parts[1..])
      else if directive == "options" then Options(parts[1..])
      else Nothing
  }

  predicate Skipped(stripped: string) { stripped == "" || stripped[0] == '#' || stripped[0] == ';' }

  function ParseLine(line: string): Directive {
    var stripped := Strip(line);
    if Skipped(stripped) then Nothing else Classify(Words(stripped))
  }

  function Gather(lines: seq<string>): Info {
    if lines == [] then Info([], [], []) else Gather(lines[..|lines| - 1]).Add(ParseLine(lines[|lines| - 1]))
  }

  function Read(text: string): Info { Gather(SplitLines(StrSplitlines, text)) }

  /** `get_nameservers`. */
  method GetNameservers(file: Option<string>) returns (info: Info, raw: string)
    ensures info == if file.Some? then Read(file.value) else Info([], [], [])
    ensures raw == if file.Some? then file.value else ""
  {
    hide Lower, Words, Strip;
    info := Info([], [], []);
    if file.None? { return info, ""; }
    raw := file.value;
    var lines := SplitLines(StrSplitlines, raw);
    for i := 0 to |lines|
      invariant info == Gather(lines[..i])
    {
      assert lines[..i + 1][..i] == lines[..i];
      var line := Strip(lines[i]);
      if Skipped(line) { continue; }
      var parts := Words(line);
      if parts == [] { continue; }
      var directive := Lower(parts[0]);
      if directive == KEYWORD && |parts| >= 2 {
        info := info.(nameservers := info.nameservers + [parts[1]]);
      } else if (directive == "search" || directive == "domain") && |parts| >= 2 {
        info := info.(search := info.search + parts[1..]);
      } else if directive == "options" && |parts| >= 2 {
        info := info.(options := info.options + parts[1..]);
      }
    }
    assert lines[..|lines|] == lines;
  }

  // ---------------------------------------------------------------- the editor

  /** The lines the editor removes: the keyword is matched as a prefix, not as a word. */
  predicate Removed(line: string) { KEYWORD <= Lower(Strip(line)) }

  function Preserved(lines: seq<string>): seq<string> {
    if lines == [] then []
    else
      var last := lines[|lines| - 1];
      Preserved(lines[..|lines| - 1]) + if Removed(last) then [] else [last]
  }

  function WithoutBlankTail(lines: seq<string>): seq<string> {
    if lines != [] && Strip(lines[|lines| - 1]) == "" then WithoutBlankTail(lines[..|lines| - 1]) else lines
  }

  function Render(ns: string): string { KEYWORD + (" " + ns) }

  function RenderAll(nameservers: seq<string>): (out: seq<string>)
    ensures |out| == |nameservers| && forall i | 0 <= i < |out| :: out[i] == Render(nameservers[i])
  {
    seq(|nameservers|, i requires 0 <= i < |nameservers| => Render(nameservers[i]))
  }

  /** The preserved lines of the file. */
  function Kept(file: Option<string>): seq<string> {
    if file.Some? then WithoutBlankTail(Preserved(SplitLines(StrSplitlines, file.value))) else []
  }

  function UpdatedLines(file: Option<string>, nameservers: seq<string>): seq<string> {
    Kept(file) + RenderAll(nameservers)
  }

  /** The file written for a nonempty list of nameservers. */
  function UpdateText(file: Option<string>, nameservers: seq<string>): string {
    Terminated(UpdatedLines(file, nameservers))
  }

  /** `update_nameservers`; `None` is the refusal of an empty list. */
  method UpdateNameservers(file: Option<string>, nameservers: seq<string>) returns (written: Option<string>)
    ensures written == if nameservers == [] then None else Some(UpdateText(file, nameservers))
  {
    hide Removed, Render, Strip, Join, Terminated;
    if nameservers == [] { return None; }
    if file.None? {
      JoinIsTerminated(RenderAll(nameservers));
      assert [] + RenderAll(nameservers) == RenderAll(nameservers);
      return Some(Join("\n", RenderAll(nameservers)) + "\n");
    }
    var lines := SplitLines(StrSplitlines, file.value);
    var newLines: seq<string> := [];
    for i := 0 to |lines|
      invariant newLines == Preserved(lines[..i])
    {
      assert lines[..i + 1][..i] == lines[..i];
      if !Removed(lines[i]) { newLines := newLines + [lines[i]]; }
    }
    assert lines[..|lines|] == lines;
    while newLines != [] && Strip(newLines[|newLines| - 1]) == ""
      invariant WithoutBlankTail(newLines) == WithoutBlankTail(Preserved(lines))
    {
      newLines := newLines[..|newLines| - 1];
    }
    ghost var kept := newLines;
    for i := 0 to |nameservers|
      invariant newLines == kept + RenderAll(nameservers[..i])
    {
      newLines := newLines + [Render(nameservers[i])];
      assert RenderAll(nameservers[..i + 1]) == RenderAll(nameservers[..i]) + [Render(nameservers[i])];
    }
    assert nameservers[..|nameservers|] == nameservers;
    JoinIsTerminated(newLines + [""]);
    assert (newLines + [""])[..|newLines|] == newLines;
    assert Terminated(newLines) + "" == Terminated(newLines);
    return Some(Join("\n", newLines + [""]));
  }

  // ---------------------------------------------------------------- what single lines mean

  lemma KeywordLetters()
    ensures |KEYWORD| == 10 && Lower(KEYWORD) == KEYWORD
    ensures forall c | c in KEYWORD :: !IsSpace(c) && !IsBreak(StrSplitlines, c)
    ensures KEYWORD[0] == 'n'
  {}

  lemma LowerPrefix(s: string, n: nat)
    requires n <= |s|
    ensures Lower(s)[..n] == Lower(s[..n])
  {}

  /** A line that is kept names no nameserver, and a line that is removed says nothing else. */
  lemma RemovedIsNameserver(line: string)
    ensures Removed(line) ==> ParseLine(line).Nameserver? || ParseLine(line).Nothing?
    ensures !Removed(line) ==> !ParseLine(line).Nameserver?
  {
    hide Words, Strip, Lower, Classify;
    var t := Strip(line);
    StripIsTrimmed(line);
    if !Skipped(t) {
      FirstWord(line);
      var ws := Words(t);
      if Removed(line) {
        RemovedFirstWord(t);
        ClassifyByKeyword(ws);
      } else {
        var w := ws[0];
        LowerPrefix(t, |w|);
        assert w == t[..|w|];
        ClassifyByKeyword(ws);
      }
    }
  }

  lemma ClassifyByKeyword(ws: seq<string>)
    requires ws != []
    ensures KEYWORD <= Lower(ws[0]) ==> Classify(ws).Nameserver? || Classify(ws).Nothing?
    ensures Lower(ws[0]) != KEYWORD ==> !Classify(ws).Nameserver?
  {
    hide Lower;
    OtherDirectives();
  }

  lemma OtherDirectives()
    ensures !(KEYWORD <= "search") && !(KEYWORD <= "domain") && !(KEYWORD <= "options")
  {}

  lemma RemovedFirstWord(t: string)
    requires KEYWORD <= Lower(t) && Trimmed(t) && Words(t) != [] && Words(t)[0] <= t
    ensures KEYWORD <= Lower(Words(t)[0])
  {
    var w := Words(t)[0];
    KeywordLetters();
    assert LStrip(t) == t;
    assert w == t[..WordLength(t)];
    forall i | 0 <= i < 10 ensures !IsSpace(t[i]) {
      assert Lower(t)[i] == KEYWORD[i] && KEYWORD[i] in KEYWORD;
      LetterIsNotSpace(t[i]);
    }
    LowerPrefix(t, |w|);
  }

  lemma LetterIsNotSpace(c: char)
    requires !IsSpace(LowerChar(c))
    ensures !IsSpace(c)
  {}

  lemma {:induction false} RStripStops(s: string, n: nat)
    requires 0 < n <= |s| && !IsSpace(s[n - 1])
    ensures n <= |RStrip(s)|
  {
    if n < |s| && IsSpace(s[|s| - 1]) { RStripStops(s[..|s| - 1], n); }
  }

  lemma RenderedIsRemoved(ns: string)
    ensures Strip(Render(ns)) != "" && Removed(Render(ns))
  {
    var line := Render(ns);
    KeywordLetters();
    assert line[..10] == KEYWORD && line[9] == KEYWORD[9];
    assert KEYWORD[9] in KEYWORD && KEYWORD[0] in KEYWORD;
    RStripStops(line, 10);
    RStripIsPrefix(line);
    assert LStrip(line) == line;
    var t := Strip(line);
    assert t[..10] == KEYWORD;
    LowerPrefix(t, 10);
  }

  lemma RenderedIsOneLine(ns: string)
    ensures NoBreak(StrSplitlines, ns) ==> NoBreak(StrSplitlines, Render(ns))
  {
    KeywordLetters();
    hide IsBreak;
    assert forall c | c in Render(ns) :: c in KEYWORD || c == ' ' || c in ns;
    BlankIsNoBreak();
  }

  lemma BlankIsNoBreak()
    ensures !IsBreak(StrSplitlines, ' ') && IsSpace(' ')
  {}

  /** Reading back a rendered line gives the address it was rendered from, for a single word. */
  lemma RenderedReadsBack(ns: string)
    requires IsToken(ns)
    ensures ParseLine(Render(ns)) == Nameserver(ns)
  {
    KeywordLetters();
    assert IsToken(KEYWORD) by {
      assert forall i | 0 <= i < |KEYWORD| :: KEYWORD[i] in KEYWORD;
    }
    assert Render(ns) == KEYWORD + [' '] + ns;
    hide Words, Strip, Lower, IsSpace, IsToken, KEYWORD;
    TwoWords(KEYWORD, ns);
    assert ([KEYWORD] + [ns])[1] == ns;
  }

  lemma TwoWords(a: string, b: string)
    requires IsToken(a) && IsToken(b)
    ensures Strip(a + [' '] + b) == a + [' '] + b && Words(a + [' '] + b) == [a] + [b]
  {
    var s := a + [' '] + b;
    BlankIsNoBreak();
    WordsOfToken(b);
    WordsCons(a, ' ', b);
    assert s[0] == a[0] && s[|s| - 1] == b[|b| - 1];
    hide Words, IsSpace;
    StripKeepsTrimmed(s);
  }

  /** A word with a blank behind it is a directive; each goes into its own list. */
  lemma DirectivesAreRead(word: string)
    requires IsToken(word)
    ensures var none := Info([], [], []);
            && Gather(["nameserver " + word]) == none.(nameservers := [word])
            && Gather(["search " + word]) == none.(search := [word])
            && Gather(["domain " + word]) == none.(search := [word])
            && Gather(["options " + word]) == none.(options := [word])
  {
    DirectiveWords();
    hide Gather, IsToken, Lower;
    OneDirective("nameserver", word);
    OneDirective("search", word);
    OneDirective("domain", word);
    OneDirective("options", word);
    assert "nameserver" + " " == "nameserver " && "search" + " " == "search ";
    assert "domain" + " " == "domain " && "options" + " " == "options ";
    assert [] + [word] == [word];
  }

  /** The case of a directive does not matter. */
  lemma UpperCaseDirective(word: string)
    requires IsToken(word)
    ensures Gather(["SEARCH " + word]) == Info([], [word], [])
  {
    assert forall c: char | 'A' <= c <= 'Z' :: !IsSpace(c);
    assert |"SEARCH"| == 6 && |KEYWORD| == 10;
    assert forall i | 0 <= i < 6 :: 'A' <= "SEARCH"[i] <= 'Z';
    assert IsToken("SEARCH");
    assert Lower("SEARCH") == "search";
    var line := "SEARCH " + word;
    assert "SEARCH" + " " == "SEARCH " && line == "SEARCH" + [' '] + word && line[0] == 'S';
    hide Words, Strip, Lower, IsSpace, IsToken, KEYWORD;
    TwoWords("SEARCH", word);
    assert (["SEARCH"] + [word])[1..] == [word];
    GatherSnoc([], line);
    assert [] + [line] == [line] && [] + [word] == [word];
  }

  lemma LetterWord(w: string)
    requires w != "" && forall i | 0 <= i < |w| :: 'a' <= w[i] <= 'z'
    ensures IsToken(w) && Lower(w) == w && w[0] != '#' && w[0] != ';'
  {
    assert forall c: char | 'a' <= c <= 'z' :: !IsSpace(c);
    hide IsSpace;
  }

  lemma DirectiveWords()
    ensures forall w | w in {"nameserver", "search", "domain", "options"} :: IsToken(w) && Lower(w) == w && w[0] != '#' && w[0] != ';'
    ensures "search" != "nameserver" && "domain" != "nameserver" && "options" != "nameserver"
    ensures "options" != "search" && "options" != "domain"
  {
    assert |"nameserver"| == 10 && |"search"| == 6 && |"domain"| == 6 && |"options"| == 7;
    hide IsToken, Lower;
    LetterWord("nameserver");
    LetterWord("search");
    LetterWord("domain");
    LetterWord("options");
  }

  lemma OneDirective(keyword: string, word: string)
    requires IsToken(keyword) && IsToken(word) && keyword[0] != '#' && keyword[0] != ';' && Lower(keyword) == keyword
    ensures Gather([keyword + " " + word])
         == Info([], [], []).Add(if keyword == "nameserver" then Nameserver(word)
                                 else if keyword == "search" || keyword == "domain" then Search([word])
                                 else if keyword == "options" then Options([word])
                                 else Nothing)
  {
    var line := keyword + " " + word;
    assert line == keyword + [' '] + word && line[0] == keyword[0];
    hide Words, Strip, Lower, IsSpace, IsToken;
    TwoWords(keyword, word);
    assert ([keyword] + [word])[1..] == [word];
    GatherSnoc([], line);
    assert [] + [line] == [line];
  }

  /** Comments and blank lines say nothing. */
  lemma CommentsSayNothing(line: string)
    ensures Strip(line) == "" || Strip(line)[0] == '#' || Strip(line)[0] == ';' ==> ParseLine(line) == Nothing
  {}

  // ---------------------------------------------------------------- what lists of lines mean

  lemma GatherSnoc(lines: seq<string>, line: string)
    ensures Gather(lines + [line]) == Gather(lines).Add(ParseLine(line))
  {
    assert (lines + [line])[..|lines|] == lines;
  }

  lemma PreservedSnoc(lines: seq<string>, line: string)
    ensures Preserved(lines + [line]) == if Removed(line) then Preserved(lines) else Preserved(lines) + [line]
  {
    hide Removed;
    assert (lines + [line])[..|lines|] == lines;
    assert Preserved(lines) + [] == Preserved(lines);
  }

  lemma {:induction false} GatherPreserved(lines: seq<string>)
    ensures Gather(Preserved(lines)) == Gather(lines).(nameservers := [])
  {
    if lines != [] {
      hide ParseLine, Removed, Preserved, Gather;
      var init, last := lines[..|lines| - 1], lines[|lines| - 1];
      assert lines == init + [last];
      GatherPreserved(init);
      GatherPreservedSnoc(init, last);
    }
  }

  lemma GatherPreservedSnoc(init: seq<string>, last: string)
    requires Gather(Preserved(init)) == Gather(init).(nameservers := [])
    ensures Gather(Preserved(init + [last])) == Gather(init + [last]).(nameservers := [])
  {
    hide ParseLine, Removed, Preserved, Gather;
    RemovedIsNameserver(last);
    PreservedSnoc(init, last);
    GatherSnoc(init, last);
    if !Removed(last) { GatherSnoc(Preserved(init), last); }
  }

  lemma {:induction false} GatherWithoutBlankTail(lines: seq<string>)
    ensures Gather(WithoutBlankTail(lines)) == Gather(lines)
  {
    if lines != [] && Strip(lines[|lines| - 1]) == "" { GatherWithoutBlankTail(lines[..|lines| - 1]); }
  }

  lemma {:induction false} GatherRendered(lines: seq<string>, nameservers: seq<string>)
    ensures var before, after := Gather(lines), Gather(lines + RenderAll(nameservers));
            && after.search == before.search && after.options == before.options
            && ((forall ns | ns in nameservers :: IsToken(ns)) ==> after.nameservers == before.nameservers + nameservers)
  {
    hide ParseLine, IsToken, Render;
    if nameservers == [] {
      assert lines + RenderAll(nameservers) == lines;
    } else {
      var n := |nameservers| - 1;
      var init, last := nameservers[..n], nameservers[n];
      GatherRendered(lines, init);
      assert nameservers == init + [last];
      assert lines + RenderAll(nameservers) == (lines + RenderAll(init)) + [Render(last)];
      GatherSnoc(lines + RenderAll(init), Render(last));
      RenderedIsRemoved(last);
      RemovedIsNameserver(Render(last));
      if IsToken(last) { RenderedReadsBack(last); }
    }
  }

  // ---------------------------------------------------------------- the main results

  ghost predicate SingleLines(nameservers: seq<string>) {
    forall ns | ns in nameservers :: NoBreak(StrSplitlines, ns)
  }

  lemma {:induction false} PreservedAreLines(lines: seq<string>)
    requires NoBreaks(StrSplitlines, lines)
    ensures NoBreaks(StrSplitlines, Preserved(lines))
  {
    hide NoBreak, Removed;
    if lines != [] { PreservedAreLines(lines[..|lines| - 1]); }
  }

  lemma {:induction false} TailIsPrefix(lines: seq<string>)
    ensures WithoutBlankTail(lines) <= lines
  {
    if lines != [] && Strip(lines[|lines| - 1]) == "" { TailIsPrefix(lines[..|lines| - 1]); }
  }

  /** The written file is read back as the lines it was written from. */
  lemma WrittenLines(file: Option<string>, nameservers: seq<string>)
    requires SingleLines(nameservers)
    ensures SplitLines(StrSplitlines, UpdateText(file, nameservers)) == UpdatedLines(file, nameservers)
  {
    hide NoBreak, Removed, Render, Strip;
    if file.Some? {
      PreservedAreLines(SplitLines(StrSplitlines, file.value));
      TailIsPrefix(Preserved(SplitLines(StrSplitlines, file.value)));
    }
    forall ns | ns in nameservers ensures NoBreak(StrSplitlines, Render(ns)) { RenderedIsOneLine(ns); }
    SplitTerminated(StrSplitlines, UpdatedLines(file, nameservers));
  }

  function ReadFile(file: Option<string>): Info { if file.Some? then Read(file.value) else Info([], [], []) }

  lemma ReadSingleLines(file: Option<string>, nameservers: seq<string>)
    requires SingleLines(nameservers)
    ensures var after := Read(UpdateText(file, nameservers));
            && after.search == ReadFile(file).search && after.options == ReadFile(file).options
            && ((forall ns | ns in nameservers :: IsToken(ns)) ==> after.nameservers == nameservers)
  {
    hide NoBreak, Preserved, WithoutBlankTail, RenderAll, UpdateText, IsToken;
    WrittenLines(file, nameservers);
    if file.Some? {
      var lines := SplitLines(StrSplitlines, file.value);
      GatherPreserved(lines);
      GatherWithoutBlankTail(Preserved(lines));
      GatherRendered(WithoutBlankTail(Preserved(lines)), nameservers);
      assert [] + nameservers == nameservers;
    } else {
      GatherRendered([], nameservers);
      assert [] + nameservers == nameservers;
    }
  }

  lemma TokensRead(file: Option<string>, nameservers: seq<string>)
    requires forall ns | ns in nameservers :: IsToken(ns)
    ensures Read(UpdateText(file, nameservers)) == ReadFile(file).(nameservers := nameservers)
  {
    hide UpdateText, Read, IsToken, NoBreak;
    forall ns | ns in nameservers ensures NoBreak(StrSplitlines, ns) { TokenHasNoBreak(StrSplitlines, ns); }
    ReadSingleLines(file, nameservers);
  }

  // ---------------------------------------------------------------- entries of several lines

  predicate Silent(line: string) { !ParseLine(line).Search? && !ParseLine(line).Options? }

  /** The lines that the next update drops. */
  predicate Vanishes(line: string) { Removed(line) || Strip(line) == "" }

  ghost predicate All(lines: seq<string>, fine: string -> bool) { forall l | l in lines :: fine(l) }

  /** A line of the entry behind its first one is a directive for search domains or options. */
  ghost predicate SaysMore(ns: string) { !All(LinesBehind(ns), Silent) }

  /** A line of the entry behind its first one stays when the next update removes the nameservers. */
  ghost predicate LeavesLine(ns: string) { !All(LinesBehind(ns), Vanishes) }

  function LinesBehind(ns: string): seq<string> {
    var lines := SplitLines(StrSplitlines, ns + "\n");
    if lines == [] then [] else lines[1..]
  }

  lemma AddAppends(a: Info, b: Info, ab: Info, d: Directive)
    requires ab.search == a.search + b.search && ab.options == a.options + b.options
    ensures ab.Add(d).search == a.search + b.Add(d).search && ab.Add(d).options == a.options + b.Add(d).options
  {}

  lemma {:induction false} GatherConcat(a: seq<string>, b: seq<string>)
    ensures Gather(a + b).search == Gather(a).search + Gather(b).search
    ensures Gather(a + b).options == Gather(a).options + Gather(b).options
  {
    hide ParseLine;
    if b == [] {
      assert a + b == a;
    } else {
      hide Gather;
      var init, last := b[..|b| - 1], b[|b| - 1];
      GatherConcat(a, init);
      assert b == init + [last] && a + b == (a + init) + [last];
      GatherSnoc(init, last);
      GatherSnoc(a + init, last);
      AddAppends(Gather(a), Gather(init), Gather(a + init), ParseLine(last));
    }
  }

  lemma DirectiveHasWords(line: string)
    ensures ParseLine(line).Search? ==> ParseLine(line).domains != []
    ensures ParseLine(line).Options? ==> ParseLine(line).words != []
  {
    hide Words, Strip, Lower;
  }

  lemma OneSays(before: Info, line: string)
    ensures var after := before.Add(ParseLine(line));
            && (after.search == [] && after.options == [] <==> before.search == [] && before.options == [] && Silent(line))
            && (All([line], Silent) <==> Silent(line))
  {
    DirectiveHasWords(line);
    assert line in [line];
    hide ParseLine;
  }

  lemma {:induction false} GathersNothing(lines: seq<string>)
    ensures Gather(lines).search == [] && Gather(lines).options == [] <==> All(lines, Silent)
  {
    hide ParseLine, Silent;
    if lines != [] {
      var init, last := lines[..|lines| - 1], lines[|lines| - 1];
      hide All, Gather;
      GathersNothing(init);
      assert lines == init + [last];
      GatherSnoc(init, last);
      AllConcat(init, [last], Silent);
      OneSays(Gather(init), last);
    }
  }

  lemma {:induction false} SplitWritten(a: seq<string>, rest: string)
    requires NoBreaks(StrSplitlines, a)
    ensures SplitLines(StrSplitlines, Terminated(a) + rest) == a + SplitLines(StrSplitlines, rest)
  {
    hide SplitLines;
    if a == [] {
      assert Terminated(a) + rest == rest;
    } else {
      SplitWritten(a[1..], rest);
      SplitFirst(StrSplitlines, a[0], Terminated(a[1..]) + rest);
      assert Terminated(a) + rest == a[0] + "\n" + (Terminated(a[1..]) + rest);
      assert a == [a[0]] + a[1..];
    }
  }

  /** Text in front of the first boundary changes the first line only. */
  lemma SplitBehind(a: string, s: string)
    requires NoBreak(StrSplitlines, a) && s != ""
    ensures var lines := SplitLines(StrSplitlines, s);
            lines != [] && SplitLines(StrSplitlines, a + s) == [a + lines[0]] + lines[1..]
  {
    var n := LineLength(StrSplitlines, s);
    NoBreakConcat(a, s[..n]);
    hide IsBreak, NoBreak, SplitLines;
    if n == |s| {
      assert s[..n] == s;
      SplitOne(StrSplitlines, s);
      SplitOne(StrSplitlines, a + s);
    } else {
      var line, c, t := s[..n], s[n], s[n + 1..];
      assert s == line + [c] + t && a + s == (a + line) + [c] + t;
      SplitFirstBreak(StrSplitlines, line, c, t);
      SplitFirstBreak(StrSplitlines, a + line, c, t);
    }
  }

  lemma NoBreakConcat(a: string, b: string)
    requires NoBreak(StrSplitlines, a) && NoBreak(StrSplitlines, b)
    ensures NoBreak(StrSplitlines, a + b)
  {
    hide IsBreak;
  }

  lemma KeyIsOneLine()
    ensures NoBreak(StrSplitlines, KEYWORD + " ")
  {
    KeywordLetters();
    BlankIsNoBreak();
    hide IsBreak;
    assert forall c | c in KEYWORD + " " :: c in KEYWORD || c == ' ';
  }

  lemma KeyThenEntry(s: string)
    ensures Render(s) == (KEYWORD + " ") + s
  {
    hide KEYWORD;
  }

  /** Of a rendered entry, only the lines behind the first are in question. */
  lemma RenderedIs(ns: string, fine: string -> bool)
    requires forall s :: fine(Render(s))
    ensures All(SplitLines(StrSplitlines, Render(ns) + "\n"), fine) <==> All(LinesBehind(ns), fine)
  {
    KeyIsOneLine();
    hide SplitLines, NoBreak, NoBreaks, IsBreak, KEYWORD, All, Render;
    var lines, key := SplitLines(StrSplitlines, ns + "\n"), KEYWORD + " ";
    KeyThenEntry(ns);
    assert Render(ns) + "\n" == key + (ns + "\n");
    SplitBehind(key, ns + "\n");
    KeyThenEntry(lines[0]);
    OneIs(Render(lines[0]), fine);
    AllConcat([Render(lines[0])], lines[1..], fine);
  }

  lemma OneIs(line: string, fine: string -> bool)
    ensures All([line], fine) <==> fine(line)
  {
    assert line in [line];
  }

  lemma {:induction false} RenderedAre(nameservers: seq<string>, fine: string -> bool)
    requires forall s :: fine(Render(s))
    ensures All(SplitLines(StrSplitlines, Terminated(RenderAll(nameservers))), fine)
       <==> forall ns | ns in nameservers :: All(LinesBehind(ns), fine)
  {
    hide SplitLines, Render, LinesBehind;
    if nameservers == [] {
      NoLines(StrSplitlines);
    } else {
      var first, rest := nameservers[0], nameservers[1..];
      RenderedAre(rest, fine);
      RenderedIs(first, fine);
      assert RenderAll(nameservers) == [Render(first)] + RenderAll(rest) && nameservers == [first] + rest;
      TerminatedCons(Render(first), RenderAll(rest));
      SplitAtFeed(StrSplitlines, Render(first), Terminated(RenderAll(rest)));
      hide Terminated, RenderAll, All;
      AllConcat(SplitLines(StrSplitlines, Render(first) + "\n"),
                SplitLines(StrSplitlines, Terminated(RenderAll(rest))), fine);
    }
  }

  lemma AllConcat(a: seq<string>, b: seq<string>, fine: string -> bool)
    ensures All(a + b, fine) <==> All(a, fine) && All(b, fine)
  {
    assert forall l :: l in a + b <==> l in a || l in b;
  }

  lemma RenderedAreSilent()
    ensures forall s :: Silent(Render(s))
  {
    forall s ensures Silent(Render(s)) {
      RenderedIsRemoved(s);
      RemovedIsNameserver(Render(s));
      hide ParseLine, Render;
    }
  }

  lemma KeptSaysTheSame(file: Option<string>)
    ensures NoBreaks(StrSplitlines, Kept(file))
    ensures Gather(Kept(file)).search == ReadFile(file).search && Gather(Kept(file)).options == ReadFile(file).options
  {
    hide NoBreak, Removed, Strip;
    if file.Some? {
      var lines := SplitLines(StrSplitlines, file.value);
      PreservedAreLines(lines);
      TailIsPrefix(Preserved(lines));
      GatherPreserved(lines);
      GatherWithoutBlankTail(Preserved(lines));
    }
  }

  /** For all nameservers: the update leaves search domains and options alone if and only if no entry says more behind
      a line boundary. */
  lemma SearchSurvives(file: Option<string>, nameservers: seq<string>)
    ensures var after := Read(UpdateText(file, nameservers));
            (after.search == ReadFile(file).search && after.options == ReadFile(file).options)
            <==> (forall ns | ns in nameservers :: !SaysMore(ns))
  {
    var kept, added := Kept(file), Terminated(RenderAll(nameservers));
    KeptSaysTheSame(file);
    RenderedAreSilent();
    hide SplitLines, NoBreaks, Preserved, WithoutBlankTail, RenderAll, Gather, All, Silent, LinesBehind;
    WrittenIs(file, nameservers);
    GatherConcat(kept, SplitLines(StrSplitlines, added));
    GathersNothing(SplitLines(StrSplitlines, added));
    RenderedAre(nameservers, Silent);
  }

  /** The physical lines of the file written, for all nameservers. */
  lemma WrittenIs(file: Option<string>, nameservers: seq<string>)
    ensures SplitLines(StrSplitlines, UpdateText(file, nameservers))
         == Kept(file) + SplitLines(StrSplitlines, Terminated(RenderAll(nameservers)))
  {
    KeptSaysTheSame(file);
    hide SplitLines, NoBreaks, Kept, RenderAll;
    TerminatedConcat(Kept(file), RenderAll(nameservers));
    SplitWritten(Kept(file), Terminated(RenderAll(nameservers)));
  }

  /** An entry that brings a search domain with it, and leaves it behind. */
  lemma EntryWithSearch(address: string, domain: string)
    requires IsToken(address) && IsToken(domain)
    ensures SaysMore(address + "\n" + ("search " + domain)) && LeavesLine(address + "\n" + ("search " + domain))
  {
    TokenHasNoBreak(StrSplitlines, address);
    TokenHasNoBreak(StrSplitlines, domain);
    SearchIsToken();
    TokenHasNoBreak(StrSplitlines, "search");
    BlankIsNoBreak();
    assert NoBreak(StrSplitlines, " ") by { hide IsBreak; }
    assert "search " + domain == "search" + (" " + domain);
    hide IsBreak, NoBreak, IsToken, LinesBehind, ParseLine, Strip, Removed;
    NoBreakConcat(" ", domain);
    NoBreakConcat("search", " " + domain);
    LinesOfEntry(address, "search " + domain);
    SearchLine(domain);
    RemovedIsNameserver("search " + domain);
    assert "search " + domain in LinesBehind(address + "\n" + ("search " + domain));
  }

  lemma SearchIsToken()
    ensures IsToken("search") && Lower("search") == "search" && "search" != KEYWORD
  {
    assert |KEYWORD| == 10 && |"search"| == 6;
    assert forall i | 0 <= i < 6 :: 'a' <= "search"[i] <= 'z';
    assert forall c: char | 'a' <= c <= 'z' :: !IsSpace(c);
    hide IsSpace;
  }

  lemma LinesOfEntry(first: string, second: string)
    requires NoBreak(StrSplitlines, first) && NoBreak(StrSplitlines, second)
    ensures LinesBehind(first + "\n" + second) == [second]
  {
    hide SplitLines, NoBreak, NoBreaks, IsBreak;
    SplitFirst(StrSplitlines, first, second + "\n");
    SplitFirst(StrSplitlines, second, "");
    NoLines(StrSplitlines);
    assert second + "\n" + "" == second + "\n";
    assert (first + "\n" + second) + "\n" == first + "\n" + (second + "\n");
  }

  lemma SearchLine(domain: string)
    requires IsToken(domain)
    ensures ParseLine("search " + domain) == Search([domain]) && Strip("search " + domain) != ""
  {
    SearchIsToken();
    assert "search " + domain == "search" + [' '] + domain;
    hide Words, Strip, Lower, IsSpace, IsToken, KEYWORD;
    TwoWords("search", domain);
    assert (["search"] + [domain])[1..] == [domain];
  }

  lemma {:induction false} GatheredAreTokens(lines: seq<string>)
    ensures forall ns | ns in Gather(lines).nameservers :: IsToken(ns)
  {
    if lines != [] {
      GatheredAreTokens(lines[..|lines| - 1]);
      ParsedIsToken(lines[|lines| - 1]);
      hide ParseLine, IsToken;
    }
  }

  lemma ParsedIsToken(line: string)
    ensures ParseLine(line).Nameserver? ==> IsToken(ParseLine(line).address)
  {
    hide Strip, Lower;
    var ws := Words(Strip(line));
    assert 2 <= |ws| ==> ws[1] in ws;
  }

  /** The reader returns exactly the list that was written just when every entry is one word. */
  lemma NameserversReadBack(file: Option<string>, nameservers: seq<string>)
    ensures Read(UpdateText(file, nameservers)).nameservers == nameservers
       <==> forall ns | ns in nameservers :: IsToken(ns)
  {
    hide UpdateText, Gather;
    GatheredAreTokens(SplitLines(StrSplitlines, UpdateText(file, nameservers)));
    if forall ns | ns in nameservers :: IsToken(ns) {
      TokensRead(file, nameservers);
    }
  }

  /** What is read afterwards is what was read before with the given nameservers, if and only if every entry is one word. */
  lemma ReadAfterUpdate(file: Option<string>, nameservers: seq<string>)
    ensures Read(UpdateText(file, nameservers)) == ReadFile(file).(nameservers := nameservers)
       <==> forall ns | ns in nameservers :: IsToken(ns)
  {
    hide UpdateText, Read, IsToken, ReadFile;
    NameserversReadBack(file, nameservers);
    if forall ns | ns in nameservers :: IsToken(ns) { TokensRead(file, nameservers); }
  }

  lemma {:induction false} PreservedFixed(lines: seq<string>)
    requires forall l | l in lines :: !Removed(l)
    ensures Preserved(lines) == lines
  {
    hide Removed;
    if lines != [] {
      var n := |lines| - 1;
      var init, last := lines[..n], lines[n];
      PreservedFixed(init);
      assert lines == init + [last];
      PreservedSnoc(init, last);
    }
  }

  lemma {:induction false} PreservedKeeps(lines: seq<string>)
    ensures forall l | l in Preserved(lines) :: !Removed(l)
  {
    hide Removed;
    if lines != [] { PreservedKeeps(lines[..|lines| - 1]); }
  }

  lemma {:induction false} PreservedConcat(a: seq<string>, b: seq<string>)
    ensures Preserved(a + b) == Preserved(a) + Preserved(b)
  {
    hide Removed;
    if b == [] {
      assert a + b == a;
    } else {
      hide Preserved;
      var init, last := b[..|b| - 1], b[|b| - 1];
      PreservedConcat(a, init);
      assert b == init + [last] && a + b == (a + init) + [last];
      PreservedSnoc(init, last);
      PreservedSnoc(a + init, last);
      assert (Preserved(a) + Preserved(init)) + [last] == Preserved(a) + (Preserved(init) + [last]);
    }
  }

  lemma {:induction false} TailFixed(lines: seq<string>)
    ensures WithoutBlankTail(WithoutBlankTail(lines)) == WithoutBlankTail(lines)
  {
    if lines != [] && Strip(lines[|lines| - 1]) == "" { TailFixed(lines[..|lines| - 1]); }
  }

  /** Lines at the end are cut off just when all of them are blank. */
  lemma {:induction false} TailOfConcat(kept: seq<string>, added: seq<string>)
    requires WithoutBlankTail(kept) == kept
    ensures kept <= WithoutBlankTail(kept + added)
    ensures WithoutBlankTail(kept + added) == kept <==> forall l | l in added :: Strip(l) == ""
  {
    hide Strip;
    if added == [] {
      assert kept + added == kept;
    } else {
      var init, last := added[..|added| - 1], added[|added| - 1];
      assert added == init + [last] && (kept + added)[..|kept + added| - 1] == kept + init;
      TailOfConcat(kept, init);
    }
  }

  lemma {:induction false} PreservedAreBlank(lines: seq<string>)
    ensures (forall l | l in Preserved(lines) :: Strip(l) == "") <==> All(lines, Vanishes)
  {
    hide Removed, Strip;
    if lines != [] {
      var init, last := lines[..|lines| - 1], lines[|lines| - 1];
      assert lines == init + [last];
      PreservedAreBlank(init);
      PreservedSnoc(init, last);
      AllConcat(init, [last], Vanishes);
      OneIs(last, Vanishes);
      hide Preserved, All;
    }
  }

  lemma KeptIsFixed(file: Option<string>)
    ensures Preserved(Kept(file)) == Kept(file) && WithoutBlankTail(Kept(file)) == Kept(file)
  {
    hide Removed, Strip;
    if file.Some? {
      var lines := SplitLines(StrSplitlines, file.value);
      PreservedKeeps(lines);
      TailIsPrefix(Preserved(lines));
      PreservedFixed(Kept(file));
      TailFixed(Preserved(lines));
    }
  }

  /** What an update finds of the one before it. */
  lemma KeptAfter(file: Option<string>, first: seq<string>)
    ensures var again := Kept(Some(UpdateText(file, first)));
            Kept(file) <= again && (again == Kept(file) <==> forall ns | ns in first :: !LeavesLine(ns))
  {
    RenderedVanish();
    KeptIsFixed(file);
    hide SplitLines, Preserved, WithoutBlankTail, RenderAll, UpdateText, Terminated, Removed, Strip, LinesBehind, All, Vanishes,
         Render;
    var kept, added := Kept(file), SplitLines(StrSplitlines, Terminated(RenderAll(first)));
    WrittenIs(file, first);
    assert Kept(Some(UpdateText(file, first))) == WithoutBlankTail(Preserved(kept + added));
    hide Kept;
    PreservedConcat(kept, added);
    TailOfConcat(kept, Preserved(added));
    PreservedAreBlank(added);
    RenderedAre(first, Vanishes);
  }

  lemma RenderedVanish()
    ensures forall s :: Vanishes(Render(s))
  {
    forall s ensures Vanishes(Render(s)) {
      RenderedIsRemoved(s);
      hide Render, Removed, Strip;
    }
  }

  /** The last update wins, for every file and every second list: it forgets the first one altogether if and only if no
      entry of the first list leaves a line. */
  lemma LastUpdateWins(file: Option<string>, first: seq<string>, second: seq<string>)
    ensures UpdateText(Some(UpdateText(file, first)), second) == UpdateText(file, second)
       <==> forall ns | ns in first :: !LeavesLine(ns)
  {
    hide Kept, RenderAll, LeavesLine, Terminated;
    KeptAfter(file, first);
    var kept, again := Kept(file), Kept(Some(UpdateText(file, first)));
    if again != kept {
      var more := again[|kept|..];
      assert again == kept + more;
      TerminatedConcat(kept, more);
      TerminatedConcat(kept + more, RenderAll(second));
      TerminatedConcat(kept, RenderAll(second));
      SomethingTerminated(more);
      assert |UpdateText(Some(UpdateText(file, first)), second)| > |UpdateText(file, second)|;
    }
  }

  lemma SomethingTerminated(lines: seq<string>)
    requires lines != []
    ensures Terminated(lines) != ""
  {}

  /** Applying the same update twice is applying it once if and only if no entry leaves a line. */
  lemma UpdateTwice(file: Option<string>, nameservers: seq<string>)
    ensures UpdateText(Some(UpdateText(file, nameservers)), nameservers) == UpdateText(file, nameservers)
       <==> forall ns | ns in nameservers :: !LeavesLine(ns)
  {
    hide UpdateText, LeavesLine;
    LastUpdateWins(file, nameservers, nameservers);
  }
}
