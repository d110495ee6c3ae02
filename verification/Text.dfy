/** Python's text primitives, as the configuration editors use them:

    - `strip` and whitespace `split`, over the characters for which `str.isspace` holds;
    - the two ways the code cuts a text into lines: iterating over a file opened in text mode, and
      `str.splitlines`, which knows more line boundaries;
    - `sep.join(parts)`, `s.split(c)`, `part in s`, and `str(n)` of a natural number.

    Each comes with the facts that round trips between writers and readers need: what was joined can be
    split again, and where it cannot. */
module Text {

  /** The characters for which `str.isspace` holds. */
  predicate IsSpace(c: char) {
    || '\t' <= c <= '\r'
    || '\U{1c}' <= c <= ' '
    || c == '\U{85}' || c == '\U{a0}' || c == '\U{1680}'
    || '\U{2000}' <= c <= '\U{200a}'
    || c == '\U{2028}' || c == '\U{2029}' || c == '\U{202f}' || c == '\U{205f}' || c == '\U{3000}'
  }

  /** How a text is cut into lines: by iterating over a file opened in text mode, or by `str.splitlines`. */
  datatype LineMode = FileIteration | StrSplitlines

  predicate IsBreak(mode: LineMode, c: char) {
    || c == '\n' || c == '\r'
    || (mode.StrSplitlines? &&
        (|| c == '\U{0b}' || c == '\U{0c}' || '\U{1c}' <= c <= '\U{1e}'
         || c == '\U{85}' || c == '\U{2028}' || c == '\U{2029}'))
  }

  ghost predicate NoBreak(mode: LineMode, s: string) {
    forall c | c in s :: !IsBreak(mode, c)
  }

  ghost predicate NoBreaks(mode: LineMode, lines: seq<string>) {
    forall l | l in lines :: NoBreak(mode, l)
  }

  // ---------------------------------------------------------------- strip

  function LStrip(s: string): string {
    if s != "" && IsSpace(s[0]) then LStrip(s[1..]) else s
  }

  function RStrip(s: string): string {
    if s != "" && IsSpace(s[|s| - 1]) then RStrip(s[..|s| - 1]) else s
  }

  function Strip(s: string): string { RStrip(LStrip(s)) }

  predicate Trimmed(s: string) {
    s != "" ==> !IsSpace(s[0]) && !IsSpace(s[|s| - 1])
  }

  lemma {:induction false} LStripIsSuffix(s: string)
    ensures |LStrip(s)| <= |s| && LStrip(s) == s[|s| - |LStrip(s)|..]
    ensures LStrip(s) != "" ==> !IsSpace(LStrip(s)[0])
  {
    if s != "" && IsSpace(s[0]) { LStripIsSuffix(s[1..]); }
  }

  lemma {:induction false} RStripIsPrefix(s: string)
    ensures |RStrip(s)| <= |s| && RStrip(s) == s[..|RStrip(s)|]
    ensures RStrip(s) != "" ==> !IsSpace(RStrip(s)[|RStrip(s)| - 1])
  {
    if s != "" && IsSpace(s[|s| - 1]) { RStripIsPrefix(s[..|s| - 1]); }
  }

  lemma StripIsTrimmed(s: string)
    ensures Trimmed(Strip(s))
    ensures forall c | c in Strip(s) :: c in s
  {
    LStripIsSuffix(s);
    RStripIsPrefix(LStrip(s));
  }

  lemma StripKeepsTrimmed(s: string)
    requires Trimmed(s)
    ensures Strip(s) == s
  {}

  ghost predicate Blank(s: string) { forall i | 0 <= i < |s| :: IsSpace(s[i]) }

  lemma CutBlanks(s: string) returns (b: string, c: string)
    ensures s == b + Strip(s) + c && Blank(b) && Blank(c)
  {
    LStripIsSuffix(s);
    LStripTakesBlanks(s);
    RStripIsPrefix(LStrip(s));
    RStripTakesBlanks(LStrip(s));
    b, c := s[..|s| - |LStrip(s)|], LStrip(s)[|Strip(s)|..];
  }

  lemma {:induction false} LStripTakesBlanks(s: string)
    ensures |LStrip(s)| <= |s| && Blank(s[..|s| - |LStrip(s)|])
  {
    LStripIsSuffix(s);
    if s != "" && IsSpace(s[0]) {
      LStripTakesBlanks(s[1..]);
      assert s[..|s| - |LStrip(s)|] == [s[0]] + s[1..][..|s| - 1 - |LStrip(s)|];
    }
  }

  lemma {:induction false} RStripTakesBlanks(s: string)
    ensures |RStrip(s)| <= |s| && Blank(s[|RStrip(s)|..])
  {
    RStripIsPrefix(s);
    var n := |s| - 1;
    if s != "" && IsSpace(s[n]) {
      RStripTakesBlanks(s[..n]);
      assert s[|RStrip(s)|..] == s[..n][|RStrip(s)|..] + [s[n]];
    }
  }

  lemma StripOf(b: string, m: string, c: string)
    requires Blank(b) && Blank(c) && Trimmed(m) && m != ""
    ensures Strip(b + m + c) == m
  {
    LStripOf(b, m + c);
    assert b + m + c == b + (m + c);
    RStripOf(m, c);
  }

  lemma {:induction false} LStripOf(b: string, m: string)
    requires Blank(b) && (m == "" || !IsSpace(m[0]))
    ensures LStrip(b + m) == m
  {
    if b == "" {
      assert b + m == m;
    } else {
      assert (b + m)[1..] == b[1..] + m;
      LStripOf(b[1..], m);
    }
  }

  lemma {:induction false} RStripOf(m: string, c: string)
    requires Blank(c) && m != "" && !IsSpace(m[|m| - 1])
    ensures RStrip(m + c) == m
  {
    if c == "" {
      assert m + c == m;
    } else {
      var n := |c| - 1;
      assert (m + c)[..|m + c| - 1] == m + c[..n];
      RStripOf(m, c[..n]);
    }
  }

  /** Blanks at the end do not matter. */
  lemma StripBlankTail(s: string, w: string)
    requires Blank(w)
    ensures Strip(s + w) == Strip(s)
  {
    var b, c := CutBlanks(s);
    StripIsTrimmed(s);
    hide Strip, Blank, Trimmed;
    var m := Strip(s);
    BlankConcat(c, w);
    BlankConcat(b, c + w);
    assert s + w == b + m + (c + w);
    if m == "" {
      assert s + w == b + (c + w);
      BlankIsNothing(s + w);
    } else {
      StripOf(b, m, c + w);
    }
  }

  lemma BlankConcat(a: string, b: string)
    requires Blank(a) && Blank(b)
    ensures Blank(a + b)
  {}

  lemma BlankIsNothing(s: string)
    requires Blank(s)
    ensures Strip(s) == ""
  {
    LStripOf(s, "");
    assert s + "" == s;
  }

  /** What lies between two characters that are no blanks survives. */
  lemma StripKeepsSpan(s: string, i: nat, j: nat)
    requires i <= j < |s| && !IsSpace(s[i]) && !IsSpace(s[j])
    ensures |Strip(s)| >= j - i + 1
  {
    var b, c := CutBlanks(s);
    hide Strip, IsSpace;
    assert |s| == |b| + |Strip(s)| + |c|;
    assert s[..|b|] == b && s[|s| - |c|..] == c;
  }

  /** A text has at least what any part of it has. */
  lemma StripOfPart(a: string, p: string, b: string)
    ensures |Strip(a + p + b)| >= |Strip(p)|
  {
    var x, y := CutBlanks(p);
    StripIsTrimmed(p);
    var m, s := Strip(p), a + p + b;
    hide Strip, IsSpace;
    if m != "" {
      assert s[|a| + |x|] == p[|x|] == m[0];
      assert s[|a| + |x| + |m| - 1] == p[|x| + |m| - 1] == m[|m| - 1];
      StripKeepsSpan(s, |a| + |x|, |a| + |x| + |m| - 1);
    }
  }

  /** `part in s`. */
  predicate Contains(s: string, part: string) { exists i :: 0 <= i <= |s| && part <= s[i..] }

  lemma ContainsTransitive(a: string, b: string, c: string)
    requires Contains(b, a) && Contains(c, b)
    ensures Contains(c, a)
  {
    var i :| 0 <= i <= |b| && a <= b[i..];
    var j :| 0 <= j <= |c| && b <= c[j..];
    var rest := c[j..][|b|..];
    assert c[j..] == b + rest;
    assert c[i + j..] == c[j..][i..];
    assert (b + rest)[i..] == b[i..] + rest;
    assert a <= c[i + j..];
  }

  // ---------------------------------------------------------------- lines

  /** Index of the first line boundary of `s`, or its length. */
  function LineLength(mode: LineMode, s: string): (n: nat)
    ensures n <= |s|
    ensures n < |s| ==> IsBreak(mode, s[n])
    ensures NoBreak(mode, s[..n])
  {
    if s == "" || IsBreak(mode, s[0]) then 0
    else
      var n := 1 + LineLength(mode, s[1..]);
      assert s[..n] == [s[0]] + s[1..][..n - 1];
      n
  }

  /** The lines of a text; a carriage return followed by a line feed is one boundary. */
  function SplitLines(mode: LineMode, s: string): (lines: seq<string>)
    ensures NoBreaks(mode, lines)
    decreases |s|
  {
    if s == "" then []
    else
      var n := LineLength(mode, s);
      if n == |s| then assert s[..n] == s; [s]
      else
        var skip := if s[n] == '\r' && n + 1 < |s| && s[n + 1] == '\n' then 2 else 1;
        [s[..n]] + SplitLines(mode, s[n + skip..])
  }

  /** Every line followed by a line feed. */
  function Terminated(lines: seq<string>): string {
    if lines == [] then "" else lines[0] + "\n" + Terminated(lines[1..])
  }

  /** `sep.join(parts)`. */
  function Join(sep: string, parts: seq<string>): string {
    if parts == [] then "" else if |parts| == 1 then parts[0] else parts[0] + sep + Join(sep, parts[1..])
  }

  lemma {:induction false} LineLengthAt(mode: LineMode, s: string, n: nat)
    requires n <= |s| && NoBreak(mode, s[..n]) && (n < |s| ==> IsBreak(mode, s[n]))
    ensures LineLength(mode, s) == n
  {}

  lemma SplitFirst(mode: LineMode, line: string, rest: string)
    requires NoBreak(mode, line)
    ensures SplitLines(mode, line + "\n" + rest) == [line] + SplitLines(mode, rest)
  {
    var s := line + "\n" + rest;
    var n := |line|;
    assert s[..n] == line && s[n] == '\n';
    LineLengthAt(mode, s, n);
    assert s[n + 1..] == rest;
  }

  /** A line feed is a boundary wherever it stands, so the lines of a text can be computed piece by piece. */
  lemma {:induction false} SplitAtFeed(mode: LineMode, s: string, rest: string)
    ensures SplitLines(mode, s + "\n" + rest) == SplitLines(mode, s + "\n") + SplitLines(mode, rest)
    decreases |s|
  {
    hide SplitLines, IsBreak, NoBreak;
    var n := LineLength(mode, s);
    if n == |s| {
      assert s[..n] == s;
      SplitFirst(mode, s, rest);
      SplitFirst(mode, s, "");
      NoLines(mode);
      assert s + "\n" + "" == s + "\n";
    } else {
      var t := s[n + 1..];
      assert s == s[..n] + [s[n]] + t;
      assert s + "\n" + rest == s[..n] + [s[n]] + (t + "\n" + rest);
      assert s + "\n" == s[..n] + [s[n]] + (t + "\n");
      SplitFirstBreak(mode, s[..n], s[n], t + "\n" + rest);
      SplitFirstBreak(mode, s[..n], s[n], t + "\n");
      assert (t + "\n" + rest)[0] == (t + "\n")[0];
      if s[n] == '\r' && (t + "\n")[0] == '\n' {
        FeedAfterReturn(mode, t, rest);
        if t != "" { SplitAtFeed(mode, t[1..], rest); }
      } else {
        SplitAtFeed(mode, t, rest);
      }
    }
  }

  lemma NoLines(mode: LineMode)
    ensures SplitLines(mode, "") == []
  {}

  lemma FeedAfterReturn(mode: LineMode, t: string, rest: string)
    requires (t + "\n")[0] == '\n'
    ensures t == "" ==> (t + "\n" + rest)[1..] == rest && (t + "\n")[1..] == "" && SplitLines(mode, "") == []
    ensures t != "" ==> (t + "\n" + rest)[1..] == t[1..] + "\n" + rest && (t + "\n")[1..] == t[1..] + "\n"
  {
    if t != "" {
      assert t == [t[0]] + t[1..];
      assert (t + "\n" + rest)[1..] == t[1..] + "\n" + rest;
    } else {
      assert (t + "\n" + rest)[1..] == rest;
    }
  }

  /** The first boundary ends the first line; a line feed after a carriage return belongs to it. */
  lemma SplitFirstBreak(mode: LineMode, line: string, c: char, rest: string)
    requires NoBreak(mode, line) && IsBreak(mode, c)
    ensures SplitLines(mode, line + [c] + rest)
         == [line] + SplitLines(mode, if c == '\r' && rest != "" && rest[0] == '\n' then rest[1..] else rest)
  {
    var s := line + [c] + rest;
    var n := |line|;
    assert s[..n] == line && s[n] == c;
    LineLengthAt(mode, s, n);
    assert s[n + 1..] == rest;
    assert c == '\r' && rest != "" && rest[0] == '\n' ==> s[n + 2..] == rest[1..];
  }

  lemma SplitOne(mode: LineMode, line: string)
    requires NoBreak(mode, line) && line != ""
    ensures SplitLines(mode, line) == [line]
  {
    assert line[..|line|] == line;
    LineLengthAt(mode, line, |line|);
  }

  lemma TerminatedCons(line: string, lines: seq<string>)
    ensures Terminated([line] + lines) == line + "\n" + Terminated(lines)
  {
    assert ([line] + lines)[1..] == lines;
  }

  lemma {:induction false} TerminatedConcat(a: seq<string>, b: seq<string>)
    ensures Terminated(a + b) == Terminated(a) + Terminated(b)
  {
    if a == [] {
      assert a + b == b;
    } else {
      TerminatedConcat(a[1..], b);
      assert (a + b)[1..] == a[1..] + b;
    }
  }

  /** The lines of a text of lines, which may have boundaries of their own, come piece by piece. */
  lemma {:induction false} SplitTerminatedConcat(mode: LineMode, a: seq<string>, b: seq<string>)
    ensures SplitLines(mode, Terminated(a + b)) == SplitLines(mode, Terminated(a)) + SplitLines(mode, Terminated(b))
  {
    hide SplitLines, NoBreaks, NoBreak;
    NoLines(mode);
    if a == [] {
      assert a + b == b;
    } else {
      hide Terminated;
      var first, rest := a[0], a[1..];
      SplitTerminatedConcat(mode, rest, b);
      SplitTerminatedCons(mode, first, rest);
      SplitTerminatedCons(mode, first, rest + b);
      Regroup(first, rest, a, b);
    }
  }

  lemma Regroup(first: string, rest: seq<string>, a: seq<string>, b: seq<string>)
    requires a != [] && first == a[0] && rest == a[1..]
    ensures a == [first] + rest && a + b == [first] + (rest + b)
  {}

  lemma SplitTerminatedCons(mode: LineMode, line: string, lines: seq<string>)
    ensures SplitLines(mode, Terminated([line] + lines)) == SplitLines(mode, line + "\n") + SplitLines(mode, Terminated(lines))
  {
    hide SplitLines, Terminated, NoBreaks;
    TerminatedCons(line, lines);
    SplitAtFeed(mode, line, Terminated(lines));
  }

  lemma {:induction false} SplitTerminatedThen(mode: LineMode, lines: seq<string>, tail: string)
    requires NoBreaks(mode, lines) && NoBreak(mode, tail)
    ensures SplitLines(mode, Terminated(lines) + tail) == lines + (if tail == "" then [] else [tail])
  {
    if lines == [] {
      assert Terminated(lines) + tail == tail;
      if tail != "" { SplitOne(mode, tail); }
    } else {
      var rest := Terminated(lines[1..]) + tail;
      SplitTerminatedThen(mode, lines[1..], tail);
      SplitFirst(mode, lines[0], rest);
      assert Terminated(lines) + tail == lines[0] + "\n" + rest;
      assert lines == [lines[0]] + lines[1..];
    }
  }

  lemma SplitTerminated(mode: LineMode, lines: seq<string>)
    requires NoBreaks(mode, lines)
    ensures SplitLines(mode, Terminated(lines)) == lines
  {
    assert Terminated(lines) + "" == Terminated(lines);
    SplitTerminatedThen(mode, lines, "");
  }

  lemma {:induction false} JoinIsTerminated(lines: seq<string>)
    requires lines != []
    ensures Join("\n", lines) == Terminated(lines[..|lines| - 1]) + lines[|lines| - 1]
    ensures Join("\n", lines) + "\n" == Terminated(lines)
  {
    var last := lines[|lines| - 1];
    if |lines| == 1 {
      assert lines[..0] == [] && lines == [last] + [];
      TerminatedCons(last, []);
      assert Terminated(lines[..0]) + last == last;
    } else {
      var init := lines[1..][..|lines| - 2];
      JoinIsTerminated(lines[1..]);
      assert lines[..|lines| - 1] == [lines[0]] + init;
      TerminatedCons(lines[0], init);
      assert lines[0] + "\n" + (Terminated(init) + last) == (lines[0] + "\n" + Terminated(init)) + last;
      assert lines == [lines[0]] + lines[1..];
      TerminatedCons(lines[0], lines[1..]);
      assert lines[0] + "\n" + (Join("\n", lines[1..]) + "\n") == (lines[0] + "\n" + Join("\n", lines[1..])) + "\n";
    }
  }

  // ---------------------------------------------------------------- words

  function WordLength(s: string): (n: nat)
    ensures n <= |s|
    ensures n < |s| ==> IsSpace(s[n])
    ensures forall i | 0 <= i < n :: !IsSpace(s[i])
  {
    if s == "" || IsSpace(s[0]) then 0 else 1 + WordLength(s[1..])
  }

  /** A maximal run of non-blank characters: what `str.split()` can produce. */
  predicate IsToken(s: string) {
    s != "" && forall i | 0 <= i < |s| :: !IsSpace(s[i])
  }

  /** `s.split()`. */
  function Words(s: string): (ws: seq<string>)
    ensures forall w | w in ws :: IsToken(w)
    decreases |s|
  {
    var t := LStrip(s);
    LStripIsSuffix(s);
    if t == "" then []
    else
      var n := WordLength(t);
      [t[..n]] + Words(t[n..])
  }

  lemma {:induction false} WordLengthAt(s: string, n: nat)
    requires n <= |s| && (n < |s| ==> IsSpace(s[n])) && forall i | 0 <= i < n :: !IsSpace(s[i])
    ensures WordLength(s) == n
  {}

  lemma WordsOfToken(w: string)
    requires IsToken(w)
    ensures Words(w) == [w]
  {
    WordLengthAt(w, |w|);
    assert w[..|w|] == w && w[|w|..] == "";
  }

  lemma WordsCons(w: string, c: char, rest: string)
    requires IsToken(w) && IsSpace(c)
    ensures Words(w + [c] + rest) == [w] + Words(rest)
  {
    var s := w + [c] + rest;
    assert forall i | 0 <= i < |w| :: s[i] == w[i];
    assert s[|w|] == c;
    WordLengthAt(s, |w|);
    assert s[..|w|] == w && s[|w|..] == [c] + rest;
    assert ([c] + rest)[1..] == rest;
    assert LStrip([c] + rest) == LStrip(rest);
  }

  /** The first word of a text starts at its first non-blank character. */
  lemma FirstWord(s: string)
    requires Strip(s) != ""
    ensures Words(Strip(s)) != [] && Words(Strip(s))[0] <= Strip(s)
  {
    StripIsTrimmed(s);
    var t := Strip(s);
    assert LStrip(t) == t;
  }

  lemma BreakIsSpace(mode: LineMode, c: char)
    requires IsBreak(mode, c)
    ensures IsSpace(c)
  {}

  lemma TokenHasNoBreak(mode: LineMode, w: string)
    requires IsToken(w)
    ensures NoBreak(mode, w)
  {
    forall c | c in w ensures !IsBreak(mode, c) {
      if IsBreak(mode, c) { BreakIsSpace(mode, c); }
    }
  }

  // ---------------------------------------------------------------- numbers and lists

  function Min(a: int, b: int): int { if b < a then b else a }
  function Max(a: int, b: int): int { if b > a then b else a }

  ghost predicate Distinct(s: seq<string>) { forall i, j | 0 <= i < j < |s| :: s[i] != s[j] }

  /** `str(n)`. */
  function Digits(n: nat): (s: string)
    ensures s != "" && forall c | c in s :: '0' <= c <= '9'
  {
    var d := ['0' + (n % 10) as char];
    if n < 10 then d else Digits(n / 10) + d
  }

  /** The number that a decimal text stands for. */
  function NumberOf(s: string): nat
    requires forall i | 0 <= i < |s| :: '0' <= s[i] <= '9'
  {
    if s == "" then 0 else 10 * NumberOf(s[..|s| - 1]) + (s[|s| - 1] - '0') as nat
  }

  /** Reading the digits gives the number, and only zero begins with a zero. */
  lemma {:induction false} DigitsReadBack(n: nat)
    ensures forall i | 0 <= i < |Digits(n)| :: '0' <= Digits(n)[i] <= '9'
    ensures NumberOf(Digits(n)) == n && (Digits(n)[0] == '0' ==> n == 0)
  {
    var d := ['0' + (n % 10) as char];
    if n >= 10 {
      DigitsReadBack(n / 10);
      var s := Digits(n);
      assert s[..|s| - 1] == Digits(n / 10) && s[|s| - 1] == d[0];
    } else {
      assert d[..0] == "";
    }
  }

  lemma {:induction false} DigitsInjective(a: nat, b: nat)
    requires Digits(a) == Digits(b)
    ensures a == b
  {
    var s, t := Digits(a), Digits(b);
    assert s[|s| - 1] == '0' + (a % 10) as char && t[|t| - 1] == '0' + (b % 10) as char;
    assert a % 10 == b % 10;
    if a >= 10 && b >= 10 {
      assert s[..|s| - 1] == Digits(a / 10) && t[..|t| - 1] == Digits(b / 10);
      DigitsInjective(a / 10, b / 10);
    }
  }

  // ---------------------------------------------------------------- lists in one string

  /** `s.split(c)` for a single character. */
  function SplitOn(s: string, c: char): (parts: seq<string>)
    ensures parts != []
  {
    if s == "" then [""]
    else
      var rest := SplitOn(s[1..], c);
      if s[0] == c then [""] + rest else [[s[0]] + rest[0]] + rest[1..]
  }

  lemma {:induction false} SplitHead(word: string, c: char, rest: string)
    requires c !in word
    ensures SplitOn(word + [c] + rest, c) == [word] + SplitOn(rest, c)
    ensures SplitOn(word, c) == [word]
  {
    if word == "" {
      assert "" + [c] + rest == [c] + rest && ([c] + rest)[1..] == rest;
    } else {
      assert forall x | x in word[1..] :: x in word;
      SplitHead(word[1..], c, rest);
      var s := word + [c] + rest;
      assert word[0] in word;
      assert s[0] == word[0] && s[1..] == word[1..] + [c] + rest;
      assert [word[0]] + word[1..] == word;
    }
  }

  lemma {:induction false} PartsAreFree(s: string, c: char)
    ensures forall p | p in SplitOn(s, c) :: c !in p
  {
    if s != "" { PartsAreFree(s[1..], c); }
  }

  /** Splitting undoes joining exactly when no part contains the separator. */
  lemma {:induction false} SplitJoined(parts: seq<string>)
    requires parts != []
    ensures SplitOn(Join(",", parts), ',') == parts <==> forall p | p in parts :: ',' !in p
  {
    hide SplitOn;
    PartsAreFree(Join(",", parts), ',');
    if forall p | p in parts :: ',' !in p {
      SplitHead(parts[0], ',', Join(",", parts[1..]));
      if |parts| > 1 {
        SplitJoined(parts[1..]);
        assert parts == [parts[0]] + parts[1..];
      }
    }
  }
}
