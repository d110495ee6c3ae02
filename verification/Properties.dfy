/** The `.properties` reader and in-place editor of agent/app/core/config_loader.py, over the decoded text of a file.
    A Python dict of updates is a map together with the order in which its keys are iterated. */
module Properties {
  import opened Text
  import opened Wrappers

  type Dict = map<string, string>

  /** Position of the separator: the first `=`, and only if there is none, the first `:`. */
  function SepIndex(line: string): (i: int)
    ensures -1 <= i < |line|
    ensures 0 <= i ==> line[i] == '=' || (line[i] == ':' && '=' !in line)
    ensures '=' in line ==> 0 <= i && line[i] == '=' && '=' !in line[..i]
    ensures '=' !in line && 0 <= i ==> ':' !in line[..i]
    ensures i < 0 ==> '=' !in line && ':' !in line
  {
    var eq := Find(line, '=');
    if 0 <= eq then eq else Find(line, ':')
  }

  function Find(s: string, c: char): (i: int)
    ensures -1 <= i < |s|
    ensures 0 <= i ==> s[i] == c && c !in s[..i]
    ensures i < 0 <==> c !in s
  {
    if s == "" then -1
    else if s[0] == c then 0
    else
      var r := Find(s[1..], c);
      if r < 0 then -1
      else assert s[..r + 1] == [s[0]] + s[1..][..r]; r + 1
  }

  predicate IsComment(line: string) {
    line != "" && (line[0] == '#' || line[0] == '!')
  }

  /** The key and value a raw line defines, if any. */
  function Entry(raw: string): Option<(string, string)> {
    var line := Strip(raw);
    if line == "" || IsComment(line) then None
    else
      var i := SepIndex(line);
      if i < 0 then None else Some((Strip(line[..i]), Strip(line[i + 1..])))
  }

  type Definition = Option<(string, string)>

  function Parse(lines: seq<string>): (ds: seq<Definition>)
    ensures |ds| == |lines|
    ensures forall i | 0 <= i < |lines| :: ds[i] == Entry(lines[i])
  {
    seq(|lines|, i requires 0 <= i < |lines| => Entry(lines[i]))
  }

  function Defined(m: Dict, d: Definition): Dict { if d.None? then m else m[d.value.0 := d.value.1] }

  /** What the reader computes: later definitions of a key win. */
  function Fold(ds: seq<Definition>): Dict {
    if ds == [] then map[]
    else Defined(Fold(ds[..|ds| - 1]), ds[|ds| - 1])
  }

  function LoadText(text: string): Dict { Fold(Parse(SplitLines(FileIteration, text))) }

  method LoadProperties(file: Option<string>) returns (props: Dict)
    ensures file.None? ==> props == map[]
    ensures file.Some? ==> props == LoadText(file.value)
  {
    hide Strip, SepIndex, IsComment, Fold;
    props := map[];
    FoldNothing();
    if file.None? { return; }
    var lines := SplitLines(FileIteration, file.value);
    ghost var ds := Parse(lines);
    for i := 0 to |lines|
      invariant props == Fold(ds[..i])
    {
      assert ds[..i + 1] == ds[..i] + [ds[i]];
      FoldSnoc(ds[..i], ds[i]);
      var line := Strip(lines[i]);
      if line == "" || IsComment(line) { continue; }
      var idx := SepIndex(line);
      if 0 <= idx {
        var key := Strip(line[..idx]);
        var value := Strip(line[idx + 1..]);
        props := props[key := value];
      }
    }
    assert ds[..|ds|] == ds;
  }

  lemma FoldNothing()
    ensures Fold([]) == map[]
  {}

  // ---------------------------------------------------------------- the editor

  function Render(k: string, v: string): string { k + "=" + v }

  function EditLine(raw: string, updates: Dict): string {
    match Entry(raw)
    case Some((k, _)) => if k in updates then Render(k, updates[k]) else raw
    case None => raw
  }

  function EditLines(lines: seq<string>, updates: Dict): (out: seq<string>)
    ensures |out| == |lines|
    ensures forall i | 0 <= i < |lines| :: out[i] == EditLine(lines[i], updates)
  {
    seq(|lines|, i requires 0 <= i < |lines| => EditLine(lines[i], updates))
  }

  /** The updated keys that some line of the file defines. */
  function Found(ds: seq<Definition>, updates: Dict): set<string> {
    set i | 0 <= i < |ds| && ds[i].Some? && ds[i].value.0 in updates :: ds[i].value.0
  }

  function Missing(order: seq<string>, updates: Dict, found: set<string>): seq<string>
    requires forall k | k in order :: k in updates
  {
    if order == [] then []
    else
      var k := order[|order| - 1];
      Missing(order[..|order| - 1], updates, found) + (if k in found then [] else [Render(k, updates[k])])
  }

  ghost predicate IsOrder(order: seq<string>, updates: Dict) {
    && (forall k :: k in order <==> k in updates)
    && forall i, j | 0 <= i < j < |order| :: order[i] != order[j]
  }

  function UpdatedLines(lines: seq<string>, order: seq<string>, updates: Dict): seq<string>
    requires forall k | k in order :: k in updates
  {
    EditLines(lines, updates) + Missing(order, updates, Found(Parse(lines), updates))
  }

  function UpdateText(text: string, order: seq<string>, updates: Dict): string
    requires forall k | k in order :: k in updates
  {
    Join("\n", UpdatedLines(SplitLines(FileIteration, text), order, updates)) + "\n"
  }

  /** One pass of the editing loop: the line to write and the updated key it defines, if any. */
  method EditOne(raw: string, updates: Dict) returns (line: string, key: Option<string>)
    ensures line == EditLine(raw, updates)
    ensures key == if Entry(raw).Some? && Entry(raw).value.0 in updates then Some(Entry(raw).value.0) else None
  {
    line, key := raw, None;
    var stripped := Strip(raw);
    if stripped != "" && !IsComment(stripped) {
      var idx := SepIndex(stripped);
      if 0 <= idx {
        var k := Strip(stripped[..idx]);
        if k in updates {
          line, key := Render(k, updates[k]), Some(k);
        }
      }
    }
  }

  /** The editing loop over the lines of the file. */
  method EditExisting(input: seq<string>, updates: Dict) returns (lines: seq<string>, updatedKeys: set<string>)
    ensures lines == EditLines(input, updates)
    ensures updatedKeys == Found(Parse(input), updates)
  {
    hide Entry;
    ghost var ds := Parse(input);
    lines, updatedKeys := [], {};
    for i := 0 to |input|
      invariant |lines| == i && forall j | 0 <= j < i :: lines[j] == EditLine(input[j], updates)
      invariant forall k | k in updatedKeys :: exists j | 0 <= j < i :: Defines(ds[j], k)
      invariant forall j | 0 <= j < i && ds[j].Some? && ds[j].value.0 in updates :: ds[j].value.0 in updatedKeys
      invariant updatedKeys <= updates.Keys
    {
      var line, key := EditOne(input[i], updates);
      lines := lines + [line];
      if key.Some? {
        assert Defines(ds[i], key.value);
        updatedKeys := updatedKeys + {key.value};
      }
    }
    FoundMembers(ds, updates, updatedKeys);
  }

  ghost predicate Defines(d: Definition, k: string) { d.Some? && d.value.0 == k }

  lemma FoundMembers(ds: seq<Definition>, u: Dict, keys: set<string>)
    requires forall k | k in keys :: k in u && exists j | 0 <= j < |ds| :: Defines(ds[j], k)
    requires forall j | 0 <= j < |ds| && ds[j].Some? && ds[j].value.0 in u :: ds[j].value.0 in keys
    ensures keys == Found(ds, u)
  {}

  /** The loop that appends the keys the file does not define, in dict order. */
  method AppendMissing(edited: seq<string>, order: seq<string>, updates: Dict, updatedKeys: set<string>)
    returns (lines: seq<string>)
    requires IsOrder(order, updates)
    ensures lines == edited + Missing(order, updates, updatedKeys)
  {
    lines := edited;
    for i := 0 to |order|
      invariant lines == edited + Missing(order[..i], updates, updatedKeys)
    {
      MissingStep(order, updates, updatedKeys, i);
      if order[i] !in updatedKeys {
        lines := lines + [Render(order[i], updates[order[i]])];
      }
    }
    assert order[..|order|] == order;
  }

  method UpdateProperties(file: Option<string>, order: seq<string>, updates: Dict) returns (written: Option<string>)
    requires IsOrder(order, updates)
    ensures file.None? ==> written.None?
    ensures file.Some? ==> written == Some(UpdateText(file.value, order, updates))
  {
    if file.None? { return None; }
    var lines, updatedKeys := EditExisting(SplitLines(FileIteration, file.value), updates);
    lines := AppendMissing(lines, order, updates, updatedKeys);
    return Some(Join("\n", lines) + "\n");
  }

  lemma FoundStep(ds: seq<Definition>, u: Dict, i: nat)
    requires i < |ds|
    ensures Found(ds[..i + 1], u)
         == Found(ds[..i], u) + if ds[i].Some? && ds[i].value.0 in u then {ds[i].value.0} else {}
  {
    assert ds[..i + 1][..i] == ds[..i];
  }

  lemma MissingStep(order: seq<string>, u: Dict, found: set<string>, i: nat)
    requires i < |order| && forall k | k in order :: k in u
    ensures Missing(order[..i + 1], u, found)
         == Missing(order[..i], u, found) + if order[i] in found then [] else [Render(order[i], u[order[i]])]
  {
    assert order[..i + 1][..i] == order[..i];
  }

  // ---------------------------------------------------------------- canonical entries

  /** A key and value that can be written on one line and read back unchanged. */
  ghost predicate Canonical(k: string, v: string) {
    && Trimmed(k) && Trimmed(v)
    && '=' !in k && !IsComment(k)
    && NoBreak(FileIteration, k) && NoBreak(FileIteration, v)
  }

  ghost predicate AllCanonical(u: Dict) {
    forall k | k in u :: Canonical(k, u[k])
  }

  /** Whatever the reader extracts from a line is canonical. */
  lemma EntriesAreCanonical(raw: string)
    requires NoBreak(FileIteration, raw)
    ensures Entry(raw).Some? ==> Canonical(Entry(raw).value.0, Entry(raw).value.1)
  {
    var line := Strip(raw);
    StripIsTrimmed(raw);
    if line != "" && !IsComment(line) && 0 <= SepIndex(line) {
      var i := SepIndex(line);
      var k := Strip(line[..i]);
      StripIsTrimmed(line[..i]);
      StripIsTrimmed(line[i + 1..]);
      if i != 0 {
        // the line is trimmed, so its key starts where the line starts
        assert LStrip(line[..i]) == line[..i];
        RStripIsPrefix(line[..i]);
        assert k != "" ==> k[0] == line[0];
      }
    }
  }

  lemma RenderReadsBack(k: string, v: string)
    requires Canonical(k, v)
    ensures Entry(Render(k, v)) == Some((k, v))
  {
    var line := Render(k, v);
    assert line[|k|] == '=';
    assert line[..|k|] == k && line[|k| + 1..] == v;
    assert Trimmed(line);
    StripKeepsTrimmed(line);
    SeparatorOfRendered(k, v);
  }

  /** The first colon separates, if there is no equals sign. */
  lemma ColonLine(k: string, v: string)
    requires Trimmed(k) && Trimmed(v) && '=' !in k && '=' !in v && ':' !in k
    requires k == "" || (k[0] != '#' && k[0] != '!')
    ensures Entry(k + ":" + v) == Some((k, v))
  {
    var line := k + ":" + v;
    assert line[|k|] == ':' && line[..|k|] == k && line[|k| + 1..] == v;
    assert Trimmed(line);
    StripKeepsTrimmed(line);
    assert '=' !in line;
    assert line == k + [':'] + v;
    hide Strip;
    FirstIsAt(k, ':', v, SepIndex(line));
  }

  lemma FirstIsAt(k: string, c: char, v: string, i: nat)
    requires c !in k && i < |k| + 1 + |v| && (k + [c] + v)[i] == c && c !in (k + [c] + v)[..i]
    ensures i == |k|
  {
    var line := k + [c] + v;
    assert forall j | 0 <= j < i :: line[j] == line[..i][j] && line[j] in line[..i];
    assert line[|k|] == c;
    assert forall j | 0 <= j < |k| :: line[j] == k[j] && k[j] in k;
  }

  /** The first equals sign separates, whatever colons stand before it. */
  lemma EqualsLine(k: string, v: string)
    requires Trimmed(k) && Trimmed(v) && '=' !in k && (k == "" || (k[0] != '#' && k[0] != '!'))
    ensures Entry(k + "=" + v) == Some((k, v))
  {
    var line := k + "=" + v;
    assert line[|k|] == '=' && line[..|k|] == k && line[|k| + 1..] == v;
    assert Trimmed(line);
    StripKeepsTrimmed(line);
    FirstIsAt(k, '=', v, SepIndex(line));
  }

  /** Lines that define nothing: blank ones, comments, and those without a separator. */
  lemma SilentLine(raw: string)
    ensures Entry(raw).None? <==>
              || Strip(raw) == "" || Strip(raw)[0] == '#' || Strip(raw)[0] == '!'
              || ('=' !in Strip(raw) && ':' !in Strip(raw))
  {
    var line := Strip(raw);
    var i := SepIndex(line);
    assert 0 <= i ==> line[i] in line;
    hide Strip;
  }

  lemma SeparatorOfRendered(k: string, v: string)
    requires '=' !in k
    ensures SepIndex(Render(k, v)) == |k|
  {
    var line := Render(k, v);
    assert line[|k|] == '=' && line[..|k|] == k;
    assert forall i | 0 <= i < |k| :: line[i] == k[i];
    assert forall n | |k| < n <= |line| :: line[..n][|k|] == '=';
  }

  // ---------------------------------------------------------------- load after update

  lemma {:induction false} LoadedIsCanonical(lines: seq<string>, ds: seq<Definition>)
    requires NoBreaks(FileIteration, lines) && (|ds| <= |lines| && forall i | 0 <= i < |ds| :: ds[i] == Entry(lines[i]))
    ensures AllCanonical(Fold(ds))
  {
    if ds != [] {
      LoadedIsCanonical(lines, ds[..|ds| - 1]);
      EntriesAreCanonical(lines[|ds| - 1]);
    }
  }

  /** The effect of an edit on one definition and on all of them. */
  function EditDefinition(d: Definition, u: Dict): Definition {
    if d.Some? && d.value.0 in u then Some((d.value.0, u[d.value.0])) else d
  }

  function EditDefinitions(ds: seq<Definition>, u: Dict): (out: seq<Definition>)
    ensures |out| == |ds|
    ensures forall i | 0 <= i < |ds| :: out[i] == EditDefinition(ds[i], u)
  {
    seq(|ds|, i requires 0 <= i < |ds| => EditDefinition(ds[i], u))
  }

  lemma EditedEntry(raw: string, u: Dict)
    requires AllCanonical(u)
    ensures Entry(EditLine(raw, u)) == EditDefinition(Entry(raw), u)
  {
    if Entry(raw).Some? && Entry(raw).value.0 in u {
      RenderReadsBack(Entry(raw).value.0, u[Entry(raw).value.0]);
    }
  }

  lemma ParseEdited(lines: seq<string>, u: Dict)
    requires AllCanonical(u)
    ensures Parse(EditLines(lines, u)) == EditDefinitions(Parse(lines), u)
  {
    forall i | 0 <= i < |lines|
      ensures Parse(EditLines(lines, u))[i] == EditDefinition(Parse(lines)[i], u)
    { EditedEntry(lines[i], u); }
  }

  /** The definitions the appended lines carry. */
  function MissingDefinitions(order: seq<string>, u: Dict, found: set<string>): seq<Definition>
    requires forall k | k in order :: k in u
  {
    if order == [] then []
    else
      var k := order[|order| - 1];
      MissingDefinitions(order[..|order| - 1], u, found) + (if k in found then [] else [Some((k, u[k]))])
  }

  lemma {:induction false} ParseMissing(order: seq<string>, u: Dict, found: set<string>)
    requires AllCanonical(u) && forall k | k in order :: k in u
    ensures Parse(Missing(order, u, found)) == MissingDefinitions(order, u, found)
  {
    if order != [] {
      ParseMissing(order[..|order| - 1], u, found);
      RenderReadsBack(order[|order| - 1], u[order[|order| - 1]]);
    }
  }

  function Restricted(u: Dict, keys: set<string>): Dict {
    map k | k in u && k in keys :: u[k]
  }

  lemma {:induction false} FoldEdited(ds: seq<Definition>, u: Dict)
    ensures Fold(EditDefinitions(ds, u)) == Fold(ds) + Restricted(u, Found(ds, u))
  {
    if ds == [] {
      assert Restricted(u, Found(ds, u)) == map[];
    } else {
      hide Fold, Found, Restricted;
      var n := |ds| - 1;
      var init, last := ds[..n], ds[n];
      FoldEdited(init, u);
      EditedSnoc(init, last, u);
      EditedOneMore(Fold(init), u, Found(init, u), last);
      assert ds == init + [last];
      hide EditDefinitions, EditDefinition;
      FoldSnoc(init, last);
      FoldSnoc(EditDefinitions(init, u), EditDefinition(last, u));
    }
  }

  lemma EditedSnoc(ds: seq<Definition>, d: Definition, u: Dict)
    ensures EditDefinitions(ds + [d], u) == EditDefinitions(ds, u) + [EditDefinition(d, u)]
    ensures Found(ds + [d], u) == Found(ds, u) + if d.Some? && d.value.0 in u then {d.value.0} else {}
  {
    hide EditDefinition;
    FoundStep(ds + [d], u, |ds|);
    assert (ds + [d])[..|ds| + 1] == ds + [d] && (ds + [d])[..|ds|] == ds;
  }

  lemma EditedOneMore(m: Dict, u: Dict, found: set<string>, d: Definition)
    ensures var more := found + if d.Some? && d.value.0 in u then {d.value.0} else {};
            Defined(m + Restricted(u, found), EditDefinition(d, u)) == Defined(m, d) + Restricted(u, more)
  {}

  function Additions(order: seq<string>, u: Dict, found: set<string>): Dict
    requires forall k | k in order :: k in u
  {
    map k | k in order && k !in found :: u[k]
  }

  lemma AdditionsStep(order: seq<string>, u: Dict, found: set<string>)
    requires order != [] && forall k | k in order :: k in u
    ensures var n := |order| - 1;
            var rest := Additions(order[..n], u, found);
            Additions(order, u, found) == if order[n] in found then rest else rest[order[n] := u[order[n]]]
  {
    assert order == order[..|order| - 1] + [order[|order| - 1]];
  }

  lemma FoldSnoc(ds: seq<Definition>, d: Definition)
    ensures Fold(ds + [d]) == Defined(Fold(ds), d)
  {
    assert (ds + [d])[..|ds|] == ds;
  }

  lemma {:induction false} FoldMissing(ds: seq<Definition>, order: seq<string>, u: Dict, found: set<string>)
    requires forall k | k in order :: k in u
    ensures Fold(ds + MissingDefinitions(order, u, found))
         == Fold(ds) + Additions(order, u, found)
  {
    if order == [] {
      assert ds + [] == ds;
    } else {
      var n := |order| - 1;
      var k, rest := order[n], MissingDefinitions(order[..n], u, found);
      FoldMissing(ds, order[..n], u, found);
      AdditionsStep(order, u, found);
      if k in found {
        assert rest + [] == rest;
      } else {
        FoldOneMissing(ds, rest, k, u[k], Additions(order[..n], u, found));
      }
    }
  }

  lemma FoldOneMissing(ds: seq<Definition>, rest: seq<Definition>, k: string, v: string, more: Dict)
    requires Fold(ds + rest) == Fold(ds) + more
    ensures Fold(ds + (rest + [Some((k, v))])) == Fold(ds) + more[k := v]
  {
    hide Fold;
    assert ds + (rest + [Some((k, v))]) == (ds + rest) + [Some((k, v))];
    FoldSnoc(ds + rest, Some((k, v)));
  }

  lemma ParseConcat(a: seq<string>, b: seq<string>)
    ensures Parse(a + b) == Parse(a) + Parse(b)
  {}

  lemma ParseUpdated(lines: seq<string>, order: seq<string>, u: Dict)
    requires AllCanonical(u) && IsOrder(order, u)
    ensures Parse(UpdatedLines(lines, order, u))
         == EditDefinitions(Parse(lines), u) + MissingDefinitions(order, u, Found(Parse(lines), u))
  {
    var found := Found(Parse(lines), u);
    ParseEdited(lines, u);
    ParseMissing(order, u, found);
    ParseConcat(EditLines(lines, u), Missing(order, u, found));
  }

  lemma LoadUpdatedLines(lines: seq<string>, order: seq<string>, u: Dict)
    requires AllCanonical(u) && IsOrder(order, u)
    ensures Fold(Parse(UpdatedLines(lines, order, u))) == Fold(Parse(lines)) + u
  {
    var ds := Parse(lines);
    ParseUpdated(lines, order, u);
    FoldEdited(ds, u);
    FoldMissing(EditDefinitions(ds, u), order, u, Found(ds, u));
    Override(Fold(ds), u, order, Found(ds, u));
  }

  lemma Override(m: Dict, u: Dict, order: seq<string>, found: set<string>)
    requires IsOrder(order, u)
    ensures (m + Restricted(u, found)) + Additions(order, u, found) == m + u
  {}

  lemma RenderHasNoBreak(k: string, v: string)
    requires NoBreak(FileIteration, k) && NoBreak(FileIteration, v)
    ensures NoBreak(FileIteration, Render(k, v))
  {}

  lemma {:induction false} MissingLines(order: seq<string>, u: Dict, found: set<string>)
    requires forall k | k in order :: k in u
    requires forall k | k in u :: NoBreak(FileIteration, k) && NoBreak(FileIteration, u[k])
    ensures NoBreaks(FileIteration, Missing(order, u, found))
  {
    if order != [] {
      var n := |order| - 1;
      MissingLines(order[..n], u, found);
      assert order[n] in order;
      RenderHasNoBreak(order[n], u[order[n]]);
      hide NoBreak, Render;
    }
  }

  lemma UpdatedLinesAreLines(lines: seq<string>, order: seq<string>, u: Dict)
    requires NoBreaks(FileIteration, lines) && AllCanonical(u) && IsOrder(order, u)
    ensures NoBreaks(FileIteration, UpdatedLines(lines, order, u))
  {
    MissingLines(order, u, Found(Parse(lines), u));
    forall i | 0 <= i < |lines| ensures NoBreak(FileIteration, EditLines(lines, u)[i]) {
      EntriesAreCanonical(lines[i]);
    }
  }

  /** Reading the lines back: the editor adds a blank line to a file that would otherwise be empty. */
  lemma WrittenLines(text: string, order: seq<string>, u: Dict)
    requires AllCanonical(u) && IsOrder(order, u)
    ensures var lines := UpdatedLines(SplitLines(FileIteration, text), order, u);
            SplitLines(FileIteration, UpdateText(text, order, u)) == if lines == [] then [""] else lines
  {
    var lines := UpdatedLines(SplitLines(FileIteration, text), order, u);
    UpdatedLinesAreLines(SplitLines(FileIteration, text), order, u);
    if lines == [] {
      assert Terminated([""]) == "\n";
      SplitTerminated(FileIteration, [""]);
    } else {
      JoinIsTerminated(lines);
      SplitTerminated(FileIteration, lines);
    }
  }

  /** Reading after editing gives the old properties overridden by the updates exactly when every
      updated key and value is canonical; this holds of every file and every iteration order. */
  lemma LoadAfterUpdate(text: string, order: seq<string>, u: Dict)
    requires IsOrder(order, u)
    ensures LoadText(UpdateText(text, order, u)) == LoadText(text) + u <==> AllCanonical(u)
  {
    if AllCanonical(u) {
      WrittenLines(text, order, u);
      LoadUpdatedLines(SplitLines(FileIteration, text), order, u);
      assert Parse([""]) == [None];
    } else {
      var lines := SplitLines(FileIteration, UpdateText(text, order, u));
      LoadedIsCanonical(lines, Parse(lines));
      var k :| k in u && !Canonical(k, u[k]);
      assert (LoadText(text) + u)[k] == u[k];
    }
  }

  lemma {:induction false} FoundIs(ds: seq<Definition>, u: Dict)
    ensures forall k :: k in Found(ds, u) <==> k in Fold(ds) && k in u
  {
    if ds != [] {
      FoundIs(ds[..|ds| - 1], u);
      assert ds[..|ds|] == ds;
      FoundStep(ds, u, |ds| - 1);
    }
  }

  // ---------------------------------------------------------------- what survives an update

  /** A final carriage return and the line feed behind it are one boundary. */
  function Chop(s: string): string { if s != "" && s[|s| - 1] == '\r' then s[..|s| - 1] else s }

  /** Written as a line, the text is one line of the file. */
  ghost predicate FitsLine(s: string) { NoBreak(FileIteration, Chop(s)) }

  lemma PhysicalLines(s: string)
    ensures var lines := SplitLines(FileIteration, s + "\n");
            && lines != [] && (|lines| == 1 <==> FitsLine(s)) && (FitsLine(s) ==> lines == [Chop(s)])
  {
    var n := LineLength(FileIteration, s);
    hide SplitLines, NoBreaks;
    if n == |s| {
      assert s[..n] == s;
      WithoutBreak(s);
      SplitFirst(FileIteration, s, "");
      NoLines(FileIteration);
      assert s + "\n" + "" == s + "\n";
    } else {
      var a, c, t := s[..n], s[n], s[n + 1..];
      assert s == a + [c] + t;
      BreakInside(a, c, t);
      assert s + "\n" == a + [c] + (t + "\n");
      SplitFirstBreak(FileIteration, a, c, t + "\n");
      var rest := if c == '\r' && (t + "\n")[0] == '\n' then (t + "\n")[1..] else t + "\n";
      NoLines(FileIteration);
      SomeLines(rest);
    }
  }

  lemma WithoutBreak(s: string)
    requires NoBreak(FileIteration, s)
    ensures Chop(s) == s && FitsLine(s)
  {
    assert s != "" ==> s[|s| - 1] in s;
  }

  lemma BreakInside(a: string, c: char, t: string)
    requires NoBreak(FileIteration, a) && IsBreak(FileIteration, c)
    ensures FitsLine(a + [c] + t) <==> c == '\r' && t == ""
    ensures t == "" && c == '\r' ==> Chop(a + [c] + t) == a
  {
    var s := a + [c] + t;
    assert s[|a|] == c && s[..|a|] == a;
    assert t != "" ==> Chop(s)[|a|] == c && Chop(s)[|a|] in Chop(s);
    assert t == "" && c != '\r' ==> Chop(s) == s && s[|a|] in s;
  }

  lemma SomeLines(s: string)
    ensures SplitLines(FileIteration, s) == [] <==> s == ""
  {}

  /** Where the lines written for the i-th element begin in the file. */
  function Place(lines: seq<string>, i: nat): nat
    requires i <= |lines|
  {
    |SplitLines(FileIteration, Terminated(lines[..i]))|
  }

  lemma PlaceStep(lines: seq<string>, i: nat)
    requires i < |lines|
    ensures Place(lines, i + 1) == Place(lines, i) + |SplitLines(FileIteration, lines[i] + "\n")|
  {
    hide SplitLines;
    assert lines[..i + 1] == lines[..i] + [lines[i]];
    SplitTerminatedConcat(FileIteration, lines[..i], [lines[i]]);
    OneTerminated(lines[i]);
  }

  lemma OneTerminated(line: string)
    ensures Terminated([line]) == line + "\n"
  {
    assert [line] == [line] + [];
    TerminatedCons(line, []);
  }

  ghost predicate StandsAt(part: seq<string>, all: seq<string>, from: nat, to: nat) {
    from <= to <= |all| && all[from..to] == part
  }

  lemma StandsBetween(x: seq<string>, y: seq<string>, z: seq<string>)
    ensures StandsAt(y, x + (y + z), |x|, |x| + |y|)
  {}

  lemma StandsInFront(part: seq<string>, all: seq<string>, more: seq<string>, from: nat, to: nat)
    requires StandsAt(part, all, from, to)
    ensures StandsAt(part, all + more, from, to)
  {}

  lemma StandsBehind(x: seq<string>, y: seq<string>)
    ensures StandsAt(y, x + y, |x|, |x + y|)
  {}

  lemma LinesBetween(a: seq<string>, line: string, c: seq<string>)
    ensures var n, part := |SplitLines(FileIteration, Terminated(a))|, SplitLines(FileIteration, line + "\n");
            StandsAt(part, SplitLines(FileIteration, Terminated(a + ([line] + c))), n, n + |part|)
  {
    hide SplitLines, Terminated, NoBreaks, StandsAt;
    SplitTerminatedConcat(FileIteration, a, [line] + c);
    SplitTerminatedCons(FileIteration, line, c);
    StandsBetween(SplitLines(FileIteration, Terminated(a)), SplitLines(FileIteration, line + "\n"),
                  SplitLines(FileIteration, Terminated(c)));
  }

  lemma LinesAtPlace(lines: seq<string>, i: nat)
    requires i < |lines|
    ensures StandsAt(SplitLines(FileIteration, lines[i] + "\n"), SplitLines(FileIteration, Terminated(lines)),
                     Place(lines, i), Place(lines, i + 1))
  {
    hide *;
    PlaceIs(lines, i);
    PlaceStep(lines, i);
    LinesBetween(lines[..i], lines[i], lines[i + 1..]);
    ThreeParts(lines, i);
  }

  lemma PlaceIs(lines: seq<string>, i: nat)
    requires i <= |lines|
    ensures Place(lines, i) == |SplitLines(FileIteration, Terminated(lines[..i]))|
  {}

  lemma ThreeParts(lines: seq<string>, i: nat)
    requires i < |lines|
    ensures lines == lines[..i] + ([lines[i]] + lines[i + 1..])
  {}

  lemma {:induction false} PlaceIsIndex(lines: seq<string>, i: nat)
    requires i <= |lines| && forall l | l in lines :: FitsLine(l)
    ensures Place(lines, i) == i
  {
    hide SplitLines, FitsLine;
    if i == 0 {
      NoLines(FileIteration);
    } else {
      PlaceIsIndex(lines, i - 1);
      hide Place;
      PlaceStep(lines, i - 1);
      PhysicalLines(lines[i - 1]);
    }
  }

  /** What is written: the edited lines, or one blank line if there are none. */
  function Written(lines: seq<string>): seq<string> { if lines == [] then [""] else lines }

  lemma WrittenText(text: string, order: seq<string>, u: Dict)
    requires forall k | k in order :: k in u
    ensures UpdateText(text, order, u) == Terminated(Written(UpdatedLines(SplitLines(FileIteration, text), order, u)))
  {
    var lines := UpdatedLines(SplitLines(FileIteration, text), order, u);
    if lines == [] { OneTerminated(""); } else { JoinIsTerminated(lines); }
  }

  lemma {:induction false} MissingAre(order: seq<string>, u: Dict, found: set<string>)
    requires forall k | k in order :: k in u
    ensures forall l | l in Missing(order, u, found) :: exists k :: k in u && k !in found && l == Render(k, u[k])
    ensures forall k | k in order && k !in found :: Render(k, u[k]) in Missing(order, u, found)
  {
    hide Render;
    if order != [] {
      var n := |order| - 1;
      MissingAre(order[..n], u, found);
      assert order == order[..n] + [order[n]];
    }
  }

  /** What survives, whatever the updates are. Every line of the file has a place in the new one, in the same order: a line
      that defines no updated key stands there verbatim, and an updated one as `key=value`, which may take several
      lines. */
  lemma UntouchedLinesSurvive(text: string, order: seq<string>, u: Dict, i: nat)
    requires IsOrder(order, u) && i < |SplitLines(FileIteration, text)|
    ensures var line := SplitLines(FileIteration, text)[i];
            var edited := EditLines(SplitLines(FileIteration, text), u);
            var after := SplitLines(FileIteration, UpdateText(text, order, u));
            && Place(edited, i) < Place(edited, i + 1)
            && StandsAt(SplitLines(FileIteration, EditLine(line, u) + "\n"), after, Place(edited, i), Place(edited, i + 1))
            && (EditLine(line, u) == line ==> StandsAt([line], after, Place(edited, i), Place(edited, i + 1)))
  {
    var before := SplitLines(FileIteration, text);
    var edited, added := EditLines(before, u), Missing(order, u, Found(Parse(before), u));
    WithoutBreak(before[i]);
    FileIs(text, order, u);
    SomeThere(edited, i);
    hide SplitLines, Terminated, UpdateText, Chop, NoBreak, NoBreaks, FitsLine, EditLine, Place, Missing, Found, Parse, StandsAt;
    LinesAtPlace(edited, i);
    PlaceStep(edited, i);
    PhysicalLines(edited[i]);
    StandsInFront(SplitLines(FileIteration, edited[i] + "\n"), SplitLines(FileIteration, Terminated(edited)),
                  SplitLines(FileIteration, Terminated(added)), Place(edited, i), Place(edited, i + 1));
  }

  lemma SomeThere(lines: seq<string>, i: nat)
    requires i < |lines|
    ensures lines != []
  {}

  /** The new file: the lines of the edited ones and those of the appended ones. */
  lemma FileIs(text: string, order: seq<string>, u: Dict)
    requires forall k | k in order :: k in u
    ensures var before := SplitLines(FileIteration, text);
            var edited, added := EditLines(before, u), Missing(order, u, Found(Parse(before), u));
            edited + added != [] ==>
              SplitLines(FileIteration, UpdateText(text, order, u))
              == SplitLines(FileIteration, Terminated(edited)) + SplitLines(FileIteration, Terminated(added))
  {
    var before := SplitLines(FileIteration, text);
    var edited, added := EditLines(before, u), Missing(order, u, Found(Parse(before), u));
    WrittenText(text, order, u);
    hide SplitLines, Terminated, Missing, Parse, Found, UpdateText, EditLines;
    SplitTerminatedConcat(FileIteration, edited, added);
  }

  /** Behind the lines of the file stands what is appended: the updated keys that the file lacked, and nothing else. If
      every value fits one line, the lines of the file keep their numbers. */
  lemma AppendedLines(text: string, order: seq<string>, u: Dict)
    requires IsOrder(order, u)
    ensures var before := SplitLines(FileIteration, text);
            var after := SplitLines(FileIteration, UpdateText(text, order, u));
            var edited, added := EditLines(before, u), Missing(order, u, Found(Parse(before), u));
            && (edited + added != [] ==> StandsAt(SplitLines(FileIteration, Terminated(added)), after, Place(edited, |before|), |after|))
            && (forall l | l in added :: exists k :: k in u && k !in LoadText(text) && l == Render(k, u[k]))
            && (forall k | k in u && k !in LoadText(text) :: Render(k, u[k]) in added)
            && ((forall k | k in u :: FitsLine(u[k])) ==> forall i | 0 <= i <= |before| :: Place(edited, i) == i)
  {
    var before := SplitLines(FileIteration, text);
    var edited, added := EditLines(before, u), Missing(order, u, Found(Parse(before), u));
    hide *;
    AddedAre(text, order, u);
    FileIs(text, order, u);
    NumbersKept(before, u);
    WholeSeq(edited);
    PlaceIs(edited, |before|);
    StandsBehind(SplitLines(FileIteration, Terminated(edited)), SplitLines(FileIteration, Terminated(added)));
  }

  lemma WholeSeq(s: seq<string>)
    ensures s[..|s|] == s
  {}

  lemma AddedAre(text: string, order: seq<string>, u: Dict)
    requires IsOrder(order, u)
    ensures var added := Missing(order, u, Found(Parse(SplitLines(FileIteration, text)), u));
            && (forall l | l in added :: exists k :: k in u && k !in LoadText(text) && l == Render(k, u[k]))
            && (forall k | k in u && k !in LoadText(text) :: Render(k, u[k]) in added)
  {
    var ds := Parse(SplitLines(FileIteration, text));
    hide SplitLines, Parse, Fold, Found, Missing, Render;
    MissingAre(order, u, Found(ds, u));
    FoundIs(ds, u);
  }

  lemma NumbersKept(before: seq<string>, u: Dict)
    requires NoBreaks(FileIteration, before)
    ensures (forall k | k in u :: FitsLine(u[k])) ==> forall i | 0 <= i <= |before| :: Place(EditLines(before, u), i) == i
  {
    hide FitsLine, Place, NoBreak, EditLine;
    if forall k | k in u :: FitsLine(u[k]) {
      EditedFit(before, u);
      forall i | 0 <= i <= |before| ensures Place(EditLines(before, u), i) == i { PlaceIsIndex(EditLines(before, u), i); }
    }
  }

  lemma RenderFits(k: string, v: string)
    requires NoBreak(FileIteration, k)
    ensures FitsLine(Render(k, v)) <==> FitsLine(v)
    ensures Chop(Render(k, v)) == Render(k, Chop(v))
  {
    var line := Render(k, v);
    assert v != "" ==> line[|line| - 1] == v[|v| - 1];
    assert v == "" ==> line[|line| - 1] == '=';
    hide IsBreak;
    assert !IsBreak(FileIteration, '=') by { SeparatorIsNoBreak(); }
    assert forall c :: c in Render(k, Chop(v)) <==> c in k || c == '=' || c in Chop(v);
  }

  lemma SeparatorIsNoBreak()
    ensures !IsBreak(FileIteration, '=')
  {}

  lemma EditedFit(lines: seq<string>, u: Dict)
    requires NoBreaks(FileIteration, lines) && forall k | k in u :: FitsLine(u[k])
    ensures forall l | l in EditLines(lines, u) :: FitsLine(l)
  {
    hide NoBreak, FitsLine, Chop, Render, Entry;
    forall i | 0 <= i < |lines| ensures FitsLine(EditLines(lines, u)[i]) {
      WithoutBreak(lines[i]);
      EntryKey(lines[i]);
      if Entry(lines[i]).Some? && Entry(lines[i]).value.0 in u {
        RenderFits(Entry(lines[i]).value.0, u[Entry(lines[i]).value.0]);
      }
    }
  }

  // ---------------------------------------------------------------- applying an update twice

  lemma {:induction false} NothingMissing(order: seq<string>, u: Dict, found: set<string>)
    requires forall k | k in order :: k in u && k in found
    ensures Missing(order, u, found) == []
  {
    if order != [] { NothingMissing(order[..|order| - 1], u, found); }
  }

  /** A key that some line can define. */
  ghost predicate Readable(k: string) { Trimmed(k) && '=' !in k && !IsComment(k) && NoBreak(FileIteration, k) }

  /** The key is found again, and the value is one line. */
  ghost predicate Repeatable(u: Dict) { forall k | k in u :: Readable(k) && FitsLine(u[k]) }

  lemma EntryKey(raw: string)
    requires NoBreak(FileIteration, raw)
    ensures Entry(raw).Some? ==> Readable(Entry(raw).value.0)
    ensures Entry(raw).Some? ==> NoBreak(FileIteration, Entry(raw).value.0)
  {
    EntriesAreCanonical(raw);
  }

  /** A line `key=…` defines the key, whatever follows. */
  lemma KeyReadsBack(k: string, v: string)
    requires Readable(k)
    ensures Entry(Render(k, v)).Some? && Entry(Render(k, v)).value.0 == k
  {
    var line := Render(k, v);
    var t := Strip(line);
    assert line[|k|] == '=' && !IsSpace('=');
    assert line[0] == if k == "" then '=' else k[0];
    assert LStrip(line) == line && t == RStrip(line);
    RStripIsPrefix(line);
    RStripTakesBlanks(line);
    hide Strip, RStrip, IsSpace;
    assert forall i | |t| <= i < |line| :: line[i] == line[|t|..][i - |t|];
    assert t[..|k|] == line[..|k|] == k && t[|k|] == '=';
    assert t == k + [t[|k|]] + t[|k| + 1..];
    SeparatorOfRendered(k, t[|k| + 1..]);
    StripKeepsTrimmed(k);
  }

  /** Every updated key is written. */
  lemma RenderedIsWritten(lines: seq<string>, order: seq<string>, u: Dict, k: string)
    requires IsOrder(order, u) && k in u
    ensures Render(k, u[k]) in UpdatedLines(lines, order, u)
  {
    var ds := Parse(lines);
    MissingAre(order, u, Found(ds, u));
    if k in Found(ds, u) {
      var i :| 0 <= i < |ds| && ds[i].Some? && ds[i].value.0 == k;
      hide Entry;
      assert EditLines(lines, u)[i] == Render(k, u[k]);
    }
  }

  lemma RenderRepeats(u: Dict, k: string)
    requires Repeatable(u) && k in u
    ensures var l := Render(k, u[k]); FitsLine(l) && EditLine(Chop(l), u) == l
  {
    hide Entry, Chop, FitsLine, NoBreak, Render;
    RenderFits(k, u[k]);
    KeyReadsBack(k, Chop(u[k]));
  }

  lemma LineRepeats(before: seq<string>, order: seq<string>, u: Dict, l: string)
    requires NoBreaks(FileIteration, before) && IsOrder(order, u) && Repeatable(u) && l in UpdatedLines(before, order, u)
    ensures FitsLine(l) && EditLine(Chop(l), u) == l
  {
    var found := Found(Parse(before), u);
    MissingAre(order, u, found);
    hide Entry, Chop, FitsLine, NoBreak, Render, Found, Missing, Parse, Repeatable;
    if l in EditLines(before, u) {
      var i :| 0 <= i < |before| && EditLine(before[i], u) == l;
      WithoutBreak(before[i]);
      if l != before[i] { RenderRepeats(u, Entry(before[i]).value.0); }
    } else {
      var k :| k in u && l == Render(k, u[k]);
      RenderRepeats(u, k);
    }
  }

  lemma {:induction false} ReadChopped(lines: seq<string>)
    requires forall l | l in lines :: FitsLine(l)
    ensures var read := SplitLines(FileIteration, Terminated(lines));
            |read| == |lines| && forall i | 0 <= i < |lines| :: read[i] == Chop(lines[i])
  {
    hide SplitLines, FitsLine, Chop;
    if lines == [] {
      NoLines(FileIteration);
    } else {
      ReadChopped(lines[1..]);
      CutFirst(lines);
      PhysicalLines(lines[0]);
      hide Terminated;
    }
  }

  lemma CutFirst(lines: seq<string>)
    requires lines != []
    ensures SplitLines(FileIteration, Terminated(lines))
         == SplitLines(FileIteration, lines[0] + "\n") + SplitLines(FileIteration, Terminated(lines[1..]))
  {
    hide SplitLines;
    SplitAtFeed(FileIteration, lines[0], Terminated(lines[1..]));
  }

  lemma ChoppedDefines(k: string, v: string)
    requires Readable(k)
    ensures var d := Entry(Chop(Render(k, v))); d.Some? && d.value.0 == k
  {
    hide Entry, Chop, NoBreak, Render;
    RenderFits(k, v);
    KeyReadsBack(k, Chop(v));
  }

  lemma SomeElement(s: seq<string>)
    ensures s == [] || exists x :: x in s
  {
    if s != [] { assert s[0] in s; }
  }

  lemma NothingUpdated(before: seq<string>, order: seq<string>, u: Dict)
    requires IsOrder(order, u) && UpdatedLines(before, order, u) == []
    ensures UpdatedLines(SplitLines(FileIteration, Terminated([""])), order, u) == [""]
  {
    forall k ensures k !in u { if k in u { RenderedIsWritten(before, order, u, k); } }
    OneTerminated("");
    SplitFirst(FileIteration, "", "");
    NoLines(FileIteration);
    assert "" + "\n" + "" == "\n" == "" + "\n";
    hide SplitLines, Entry;
    SomeElement(order);
    assert EditLines([""], u) == [""];
  }

  /** Repeatable updates: the lines read are the lines written without final carriage returns, and editing puts them back. */
  lemma Repeats(before: seq<string>, order: seq<string>, u: Dict)
    requires NoBreaks(FileIteration, before) && IsOrder(order, u) && Repeatable(u)
    ensures var lines := UpdatedLines(before, order, u);
            Written(UpdatedLines(SplitLines(FileIteration, Terminated(Written(lines))), order, u)) == Written(lines)
  {
    var lines := UpdatedLines(before, order, u);
    var again := SplitLines(FileIteration, Terminated(Written(lines)));
    hide SplitLines, Terminated, Render, Entry, Chop, NoBreak, Readable;
    if lines == [] {
      NothingUpdated(before, order, u);
    } else {
      forall l | l in lines ensures FitsLine(l) && EditLine(Chop(l), u) == l { LineRepeats(before, order, u, l); }
      hide EditLine, FitsLine;
      ReadChopped(lines);
      assert EditLines(again, u) == lines;
      forall k | k in order ensures k in Found(Parse(again), u) {
        RenderedIsWritten(before, order, u, k);
        var i :| 0 <= i < |lines| && lines[i] == Render(k, u[k]);
        ChoppedDefines(k, u[k]);
        assert Parse(again)[i] == Entry(again[i]);
      }
      NothingMissing(order, u, Found(Parse(again), u));
      assert UpdatedLines(again, order, u) == lines;
    }
  }

  lemma {:induction false} AtLeastOneEach(lines: seq<string>)
    ensures var n := |SplitLines(FileIteration, Terminated(lines))|;
            n >= |lines| && ((exists l :: l in lines && !FitsLine(l)) ==> n > |lines|)
  {
    hide SplitLines, FitsLine;
    if lines != [] {
      AtLeastOneEach(lines[1..]);
      CutFirst(lines);
      PhysicalLines(lines[0]);
      assert lines == [lines[0]] + lines[1..];
      hide Terminated;
    }
  }

  /** Without repeatable updates every further one adds lines: a key is appended again, or a value of several lines is
      written into the place of its first one. */
  lemma Grows(text: string, order: seq<string>, u: Dict)
    requires IsOrder(order, u) && !Repeatable(u)
    ensures UpdateText(text, order, u) != text
  {
    WrittenText(text, order, u);
    var lines := SplitLines(FileIteration, text);
    var k :| k in u && !(Readable(k) && FitsLine(u[k]));
    var ds, found := Parse(lines), Found(Parse(lines), u);
    var next := UpdatedLines(lines, order, u);
    MissingAre(order, u, found);
    RenderedIsWritten(lines, order, u, k);
    AtLeastOneEach(next);
    if k in found {
      var i :| 0 <= i < |ds| && ds[i].Some? && ds[i].value.0 == k;
      EntryKey(lines[i]);
      RenderFits(k, u[k]);
    } else {
      assert Render(k, u[k]) in Missing(order, u, found);
    }
    hide SplitLines, Terminated, UpdateText, UpdatedLines, FitsLine;
    assert |SplitLines(FileIteration, Terminated(next))| > |lines|;
  }

  /** Applying an update a second time changes nothing, for every file, if and only if the update is repeatable. */
  lemma UpdateTwice(text: string, order: seq<string>, u: Dict)
    requires IsOrder(order, u)
    ensures UpdateText(UpdateText(text, order, u), order, u) == UpdateText(text, order, u) <==> Repeatable(u)
  {
    var once := UpdateText(text, order, u);
    WrittenText(text, order, u);
    WrittenText(once, order, u);
    hide UpdateText, UpdatedLines, Written, Repeatable;
    if Repeatable(u) {
      Repeats(SplitLines(FileIteration, text), order, u);
    } else {
      Grows(once, order, u);
    }
  }
}
