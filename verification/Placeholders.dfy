/** `${name}` and `${name:default}` substitution of agent/app/core/config_loader.py.

    The pattern is a dollar sign and an opening brace, a nonempty name without `}` or `:`, optionally
    a colon and a default without `}`, and a closing brace. */
module Placeholders {
  import opened Wrappers

  type Props = map<string, string>

  datatype Placeholder = Placeholder(name: string, default: Option<string>)

  /** The text a placeholder is written as. */
  function Spell(p: Placeholder): string { "${" + Body(p) }

  function Body(p: Placeholder): string { p.name + Ending(p.default) }

  function Ending(default: Option<string>): string {
    match default
    case None => "}"
    case Some(d) => ":" + d + "}"
  }

  /** The pattern: which placeholders exist at all. */
  ghost predicate WellFormed(p: Placeholder) {
    && p.name != "" && '}' !in p.name && ':' !in p.name
    && (p.default.Some? ==> '}' !in p.default.value)
  }

  ghost predicate StartsWith(s: string, p: Placeholder) {
    WellFormed(p) && Spell(p) <= s
  }

  function Until(s: string, stop: set<char>): (n: nat)
    ensures n <= |s|
    ensures n < |s| ==> s[n] in stop
    ensures forall i | 0 <= i < n :: s[i] !in stop
  {
    if s == "" || s[0] in stop then 0 else 1 + Until(s[1..], stop)
  }

  /** The match that starts at the first character of `s`, found in one forward pass. */
  function MatchPrefix(s: string): Option<Placeholder> {
    if "${" <= s then MatchBody(s[2..]) else None
  }

  function MatchBody(t: string): Option<Placeholder> {
    var n := Until(t, {'}', ':'});
    if n == 0 || n == |t| then None
    else
      match MatchEnding(t[n..])
      case None => None
      case Some(default) => Some(Placeholder(t[..n], default))
  }

  function MatchEnding(v: string): Option<Option<string>>
    requires v != ""
  {
    if v[0] == '}' then Some(None)
    else
      var d := Until(v[1..], {'}'});
      if d == |v| - 1 then None else Some(Some(v[1..][..d]))
  }

  lemma UntilAt(s: string, stop: set<char>, n: nat)
    requires n <= |s| && (n < |s| ==> s[n] in stop) && forall i | 0 <= i < n :: s[i] !in stop
    ensures Until(s, stop) == n
  {}

  lemma EndingMatchComplete(v: string, d: string)
    requires Ending(Some(d)) <= v && '}' !in d
    ensures MatchEnding(v) == Some(Some(d))
  {
    var u := v[1..];
    var n := |d|;
    assert v[..n + 2] == ":" + d + "}";
    assert forall i | 0 <= i < n :: u[i] == v[i + 1] == d[i];
    assert u[n] == v[n + 1] == '}';
    UntilAt(u, {'}'}, n);
    assert u[..n] == d;
  }

  lemma EndingMatch(v: string, default: Option<string>)
    requires v != "" && v[0] in {'}', ':'}
    ensures MatchEnding(v) == Some(default)
       <==> Ending(default) <= v && (default.Some? ==> '}' !in default.value)
  {
    if default.Some? && Ending(default) <= v && '}' !in default.value {
      EndingMatchComplete(v, default.value);
    }
    var d := Until(v[1..], {'}'});
    if v[0] == ':' && d < |v| - 1 {
      assert v[..d + 2] == ":" + v[1..][..d] + "}";
    }
  }

  lemma BodyMatchComplete(t: string, p: Placeholder)
    requires WellFormed(p) && Body(p) <= t
    ensures MatchBody(t) == Some(p)
  {
    hide MatchEnding;
    var n := |p.name|;
    var v := t[n..];
    assert t[..|Body(p)|] == p.name + Ending(p.default);
    assert forall i | 0 <= i < n :: t[i] == p.name[i];
    assert t[n] == Ending(p.default)[0];
    UntilAt(t, {'}', ':'}, n);
    assert t[..n] == p.name;
    assert v[..|Ending(p.default)|] == Ending(p.default);
    EndingMatch(v, p.default);
  }

  lemma BodyMatchSound(t: string, p: Placeholder)
    requires MatchBody(t) == Some(p)
    ensures WellFormed(p) && Body(p) <= t
  {
    hide MatchEnding;
    var n := Until(t, {'}', ':'});
    var v := t[n..];
    EndingMatch(v, p.default);
    assert t[..|Body(p)|] == p.name + v[..|Ending(p.default)|];
  }

  lemma BodyMatch(t: string, p: Placeholder)
    ensures MatchBody(t) == Some(p) <==> WellFormed(p) && Body(p) <= t
  {
    if MatchBody(t) == Some(p) { BodyMatchSound(t, p); }
    if WellFormed(p) && Body(p) <= t { BodyMatchComplete(t, p); }
  }

  lemma SpellOpens(s: string, p: Placeholder)
    requires Spell(p) <= s
    ensures "${" <= s
  {
    assert s[..2] == Spell(p)[..2] == "${";
  }

  /** The forward pass finds exactly what the pattern can match at a position: there is at most one way
      of splitting the text into name and default, so backtracking never matters. */
  lemma PrefixMatch(s: string, p: Placeholder)
    ensures MatchPrefix(s) == Some(p) <==> StartsWith(s, p)
  {
    if StartsWith(s, p) { SpellOpens(s, p); }
    if "${" <= s {
      BodyMatch(s[2..], p);
      assert s == "${" + s[2..];
      if StartsWith(s, p) {
        assert s[2..][..|Body(p)|] == s[..|Spell(p)|][2..] == Body(p);
      }
      if Body(p) <= s[2..] {
        assert s[..|Spell(p)|] == "${" + s[2..][..|Body(p)|];
      }
    }
  }

  lemma PrefixMatchIsUnique(s: string, p: Placeholder)
    requires StartsWith(s, p)
    ensures MatchPrefix(s) == Some(p)
  { PrefixMatch(s, p); }

  lemma PrefixMatchIsSound(s: string)
    ensures MatchPrefix(s).Some? ==> StartsWith(s, MatchPrefix(s).value)
  { if MatchPrefix(s).Some? { PrefixMatch(s, MatchPrefix(s).value); } }

  lemma SpellIsNonempty(p: Placeholder)
    ensures |Spell(p)| > 0 && Spell(p)[|Spell(p)| - 1] == '}'
  { assert Ending(p.default) != ""; }

  // ---------------------------------------------------------------- all matches of a text

  /** A match and where it starts. */
  datatype Hit = Hit(start: nat, p: Placeholder) {
    function End(): nat { start + |Spell(p)| }
  }

  ghost predicate IsMatch(s: string, h: Hit) {
    && h.End() <= |s|
    && WellFormed(h.p)
    && s[h.start..h.End()] == Spell(h.p)
  }

  /** Matches in order of position, none overlapping another. */
  ghost predicate Ordered(s: string, from: nat, hits: seq<Hit>) {
    && from <= |s|
    && (forall i | 0 <= i < |hits| :: IsMatch(s, hits[i]) && from <= hits[i].start)
    && (forall i, j | 0 <= i < j < |hits| :: hits[i].End() <= hits[j].start)
  }

  /** The leftmost non-overlapping matches from `from` on: in order, and every other match of the
      pattern starts strictly inside one of them. */
  ghost predicate Leftmost(s: string, from: nat, hits: seq<Hit>) {
    && Ordered(s, from, hits)
    && (forall h | IsMatch(s, h) && from <= h.start :: h in hits || Covered(hits, h.start))
  }

  ghost predicate Covered(hits: seq<Hit>, i: nat) {
    exists h | h in hits :: h.start < i < h.End()
  }

  function Scan(s: string, from: nat): seq<Hit>
    requires from <= |s|
    decreases |s| - from
  {
    if from == |s| then []
    else
      PrefixMatchIsSound(s[from..]);
      match MatchPrefix(s[from..])
      case None => Scan(s, from + 1)
      case Some(p) => [Hit(from, p)] + Scan(s, from + |Spell(p)|)
  }

  lemma MatchHere(s: string, h: Hit)
    requires h.start <= |s|
    ensures IsMatch(s, h) <==> MatchPrefix(s[h.start..]) == Some(h.p)
  {
    var t := s[h.start..];
    PrefixMatchIsSound(t);
    if IsMatch(s, h) {
      assert t[..|Spell(h.p)|] == s[h.start..h.End()];
      PrefixMatchIsUnique(t, h.p);
    }
    if MatchPrefix(t) == Some(h.p) {
      assert t[..|Spell(h.p)|] == Spell(h.p);
      assert s[h.start..h.End()] == t[..|Spell(h.p)|];
    }
  }

  /** The scan computes the leftmost non-overlapping matches. */
  lemma {:induction false} ScanIsLeftmost(s: string, from: nat)
    requires from <= |s|
    ensures Leftmost(s, from, Scan(s, from))
    decreases |s| - from
  {
    hide MatchPrefix, Spell, WellFormed;
    if from < |s| {
      PrefixMatchIsSound(s[from..]);
      match MatchPrefix(s[from..])
      case None =>
        ScanIsLeftmost(s, from + 1);
        forall h | IsMatch(s, h) && from <= h.start ensures h.start != from { MatchHere(s, h); }
      case Some(p) =>
        var first := Hit(from, p);
        MatchHere(s, first);
        SpellIsNonempty(p);
        ScanIsLeftmost(s, first.End());
        forall h | IsMatch(s, h) && h.start == from ensures h == first { MatchHere(s, h); }
        LeftmostCons(s, first, Scan(s, first.End()));
    } else {
      forall h | IsMatch(s, h) && from <= h.start ensures false { SpellIsNonempty(h.p); }
    }
  }

  lemma LeftmostCons(s: string, first: Hit, rest: seq<Hit>)
    requires IsMatch(s, first) && Leftmost(s, first.End(), rest)
    requires forall h | IsMatch(s, h) && h.start == first.start :: h == first
    ensures Leftmost(s, first.start, [first] + rest)
  {
    hide Spell, WellFormed;
    var hits := [first] + rest;
    forall i | 0 <= i < |hits| ensures IsMatch(s, hits[i]) && first.start <= hits[i].start {
      if i > 0 { assert hits[i] == rest[i - 1]; }
    }
    forall h | IsMatch(s, h) && first.start <= h.start ensures h in hits || Covered(hits, h.start) {
      assert first in hits && forall c | c in rest :: c in hits;
      if first.End() <= h.start && h !in rest {
        var c :| c in rest && c.start < h.start < c.End();
      }
    }
  }

  /** Being leftmost and non-overlapping determines the matches. */
  lemma {:induction false} LeftmostIsUnique(s: string, from: nat, a: seq<Hit>, b: seq<Hit>)
    requires Leftmost(s, from, a) && Leftmost(s, from, b)
    ensures a == b
    decreases |a|
  {
    hide MatchPrefix, Spell, WellFormed;
    FirstHits(s, from, a, b);
    FirstHits(s, from, b, a);
    if a != [] {
      MatchHere(s, a[0]);
      MatchHere(s, b[0]);
      LeftmostTail(s, from, a);
      LeftmostTail(s, from, b);
      LeftmostIsUnique(s, a[0].End(), a[1..], b[1..]);
      assert a == [a[0]] + a[1..] && b == [b[0]] + b[1..];
    }
  }

  lemma FirstHits(s: string, from: nat, a: seq<Hit>, b: seq<Hit>)
    requires Leftmost(s, from, a) && Leftmost(s, from, b)
    ensures a != [] ==> b != [] && b[0].start <= a[0].start
  {
    hide MatchPrefix, Spell, WellFormed;
    if a != [] {
      assert a[0] in b || Covered(b, a[0].start);
    }
  }

  lemma LeftmostTail(s: string, from: nat, a: seq<Hit>)
    requires Leftmost(s, from, a) && a != []
    ensures Leftmost(s, a[0].End(), a[1..])
  {
    hide MatchPrefix, Spell, WellFormed;
    forall h | IsMatch(s, h) && a[0].End() <= h.start ensures h in a[1..] || Covered(a[1..], h.start) {
      SpellIsNonempty(a[0].p);
      if h !in a {
        var c :| c in a && c.start < h.start < c.End();
        assert c in a[1..];
      }
    }
  }

  // ---------------------------------------------------------------- substitution

  /** What replaces a match: the property, else the default; nothing if neither exists. */
  function Inserted(p: Placeholder, props: Props): Option<string> {
    if p.name in props then Some(props[p.name]) else p.default
  }

  function Replacement(p: Placeholder, props: Props): string {
    match Inserted(p, props)
    case Some(t) => t
    case None => Spell(p)
  }

  /** Substitution as a single pass over the text. */
  function Resolve(s: string, props: Props): string
    decreases |s|
  {
    if s == "" then ""
    else
      PrefixMatchIsSound(s);
      match MatchPrefix(s)
      case None => [s[0]] + Resolve(s[1..], props)
      case Some(p) => Replacement(p, props) + Resolve(s[|Spell(p)|..], props)
  }

  /** One placeholder: a property takes its place whatever the default is, even an empty one; without the property the
      default does; without both the text stays. */
  lemma OneResolves(name: string, default: string, props: Props)
    requires name != "" && '}' !in name && ':' !in name && '}' !in default
    ensures Resolve("${" + name + "}", props) == if name in props then props[name] else "${" + name + "}"
    ensures Resolve("${" + name + ":" + default + "}", props) == if name in props then props[name] else default
  {
    var plain, full := Placeholder(name, None), Placeholder(name, Some(default));
    var a, b := "${" + name + "}", "${" + name + ":" + default + "}";
    SpellIs(name, default);
    assert a == Spell(plain) + "" && b == Spell(full) + "";
    hide Spell, MatchPrefix;
    PrefixMatchIsUnique(a, plain);
    PrefixMatchIsUnique(b, full);
    assert a[|Spell(plain)|..] == "" && b[|Spell(full)|..] == "";
    ResolveStep(a, props);
    ResolveStep(b, props);
    assert Resolve("", props) == "";
    assert Replacement(plain, props) + "" == Replacement(plain, props);
    assert Replacement(full, props) + "" == Replacement(full, props);
  }

  lemma SpellIs(name: string, default: string)
    ensures Spell(Placeholder(name, None)) == "${" + name + "}"
    ensures Spell(Placeholder(name, Some(default))) == "${" + name + ":" + default + "}"
  {
    assert "${" + (name + (":" + default + "}")) == "${" + name + ":" + default + "}";
  }

  /** Substitution as a specification: the text between the given matches, unchanged, with every match
      exchanged for its replacement. */
  ghost function Splice(s: string, from: nat, hits: seq<Hit>, props: Props): string
    requires Ordered(s, from, hits)
    decreases |hits|
  {
    if hits == [] then s[from..]
    else s[from..hits[0].start] + Replacement(hits[0].p, props) + Splice(s, hits[0].End(), hits[1..], props)
  }

  /** The pass yields exactly the text with its leftmost non-overlapping matches exchanged: text outside
      them is kept and no inserted text is looked at again. */
  lemma ResolveIsSplice(s: string, hits: seq<Hit>, props: Props)
    requires Leftmost(s, 0, hits)
    ensures Resolve(s, props) == Splice(s, 0, hits, props)
  {
    ScanIsLeftmost(s, 0);
    LeftmostIsUnique(s, 0, hits, Scan(s, 0));
    ResolveFrom(s, 0, props);
    assert s[0..] == s;
  }

  lemma ResolveStep(s: string, props: Props)
    requires s != ""
    ensures MatchPrefix(s).None? ==> Resolve(s, props) == [s[0]] + Resolve(s[1..], props)
    ensures MatchPrefix(s).Some? ==>
              var p := MatchPrefix(s).value;
              |Spell(p)| <= |s| && Resolve(s, props) == Replacement(p, props) + Resolve(s[|Spell(p)|..], props)
  {
    PrefixMatchIsSound(s);
  }

  lemma SpliceCons(s: string, h: Hit, rest: seq<Hit>, props: Props)
    requires Ordered(s, h.start, [h] + rest)
    ensures Ordered(s, h.End(), rest)
    ensures Splice(s, h.start, [h] + rest, props) == Replacement(h.p, props) + Splice(s, h.End(), rest, props)
  {
    var hits := [h] + rest;
    assert hits[0] == h && hits[1..] == rest;
    assert s[h.start..h.start] + Replacement(h.p, props) == Replacement(h.p, props);
    forall i | 0 <= i < |rest| ensures IsMatch(s, rest[i]) && h.End() <= rest[i].start {
      assert hits[i + 1] == rest[i];
    }
    forall i, j | 0 <= i < j < |rest| ensures rest[i].End() <= rest[j].start {
      assert hits[i + 1] == rest[i] && hits[j + 1] == rest[j];
    }
  }

  lemma {:induction false} ResolveFrom(s: string, from: nat, props: Props)
    requires from <= |s|
    ensures Leftmost(s, from, Scan(s, from))
    ensures Resolve(s[from..], props) == Splice(s, from, Scan(s, from), props)
    decreases |s| - from
  {
    hide MatchPrefix, Spell, WellFormed, Replacement, Resolve, Splice;
    ScanIsLeftmost(s, from);
    var t := s[from..];
    if from == |s| {
      NothingLeft(s, props);
    } else {
      ResolveStep(t, props);
      match MatchPrefix(t)
      case None =>
        ResolveFrom(s, from + 1, props);
        assert t[1..] == s[from + 1..];
        SpliceStep(s, from, Scan(s, from + 1), props);
      case Some(p) =>
        SpellIsNonempty(p);
        var h := Hit(from, p);
        ResolveFrom(s, h.End(), props);
        assert t[|Spell(p)|..] == s[h.End()..];
        SpliceCons(s, h, Scan(s, h.End()), props);
    }
  }

  lemma NothingLeft(s: string, props: Props)
    ensures Resolve(s[|s|..], props) == "" == Splice(s, |s|, [], props)
  {}

  lemma SpliceStep(s: string, from: nat, hits: seq<Hit>, props: Props)
    requires from < |s| && Ordered(s, from + 1, hits)
    ensures Splice(s, from, hits, props) == [s[from]] + Splice(s, from + 1, hits, props)
  {
    hide Spell, WellFormed, Replacement;
    if hits == [] {
      assert s[from..] == [s[from]] + s[from + 1..];
    } else {
      var r := Replacement(hits[0].p, props);
      var tail := Splice(s, hits[0].End(), hits[1..], props);
      assert s[from..hits[0].start] == [s[from]] + s[from + 1..hits[0].start];
      assert ([s[from]] + s[from + 1..hits[0].start]) + r + tail
          == [s[from]] + (s[from + 1..hits[0].start] + r + tail);
    }
  }

  // ---------------------------------------------------------------- a second pass

  /** Text that can follow `${` and begin a name: a terminator here makes the name empty for good. */
  ghost predicate Opens(u: string) { u == "" || u[0] !in {'}', ':'} }

  ghost predicate NoOpening(t: string) {
    forall i | 0 <= i < |t| - 1 && t[i] == '$' && t[i + 1] == '{' :: !Opens(t[i + 2..])
  }

  /** Text that cannot take part in a new placeholder, wherever it is inserted. */
  ghost predicate Inert(t: string) {
    && t != ""
    && (t[0] == '{' ==> !Opens(t[1..]))
    && t[|t| - 1] != '$'
    && NoOpening(t)
  }

  ghost predicate InsertionsInert(s: string, props: Props) {
    forall h | h in Scan(s, 0) && Inserted(h.p, props).Some? :: Inert(Inserted(h.p, props).value)
  }

  /** The same condition along the suffixes the pass visits. */
  ghost predicate AllInert(s: string, props: Props)
    decreases |s|
  {
    s != "" ==>
      (PrefixMatchIsSound(s);
       match MatchPrefix(s)
       case None => AllInert(s[1..], props)
       case Some(p) =>
         && (Inserted(p, props).Some? ==> Inert(Inserted(p, props).value))
         && AllInert(s[|Spell(p)|..], props))
  }

  lemma {:induction false} InertFrom(s: string, from: nat, props: Props)
    requires from <= |s|
    requires forall h | h in Scan(s, from) && Inserted(h.p, props).Some? :: Inert(Inserted(h.p, props).value)
    ensures AllInert(s[from..], props)
    decreases |s| - from
  {
    hide MatchPrefix, Spell, WellFormed;
    if from < |s| {
      var t := s[from..];
      PrefixMatchIsSound(t);
      match MatchPrefix(t)
      case None =>
        InertFrom(s, from + 1, props);
        assert t[1..] == s[from + 1..];
      case Some(p) =>
        assert Hit(from, p) in Scan(s, from);
        InertFrom(s, from + |Spell(p)|, props);
        assert t[|Spell(p)|..] == s[from + |Spell(p)|..];
    }
  }

  lemma {:induction false} NothingToResolve(s: string, props: Props)
    requires '}' !in s
    ensures Resolve(s, props) == s
    decreases |s|
  {
    if s != "" {
      PrefixMatchIsSound(s);
      if MatchPrefix(s).Some? {
        var p := MatchPrefix(s).value;
        SpellIsNonempty(p);
        assert false;
      }
      NothingToResolve(s[1..], props);
    }
  }

  /** Why a dollar sign and a brace do not start a match: the name is empty or nothing closes it. */
  lemma NoBodyMatch(t: string)
    ensures MatchBody(t).None? <==> t == "" || t[0] in {'}', ':'} || '}' !in t
  {
    var n := Until(t, {'}', ':'});
    if 0 < n < |t| {
      assert t == t[..n] + t[n..];
      if t[n] == ':' {
        var u := t[n + 1..];
        assert t[n..][1..] == u;
        assert t == t[..n] + [':'] + u;
        assert '}' in t <==> '}' in u;
        assert '}' in u <==> Until(u, {'}'}) < |u|;
      }
    }
  }

  lemma ResolveNoMatch(s: string, props: Props)
    requires s != "" && MatchPrefix(s).None?
    ensures Resolve(s, props) == [s[0]] + Resolve(s[1..], props)
  {}

  lemma NoMatchInside(t: string, rest: string)
    requires t != "" && t[|t| - 1] != '$' && NoOpening(t)
    ensures MatchPrefix(t + rest).None?
  {
    hide MatchBody;
    var s := t + rest;
    if "${" <= s {
      assert s[0] == t[0] && s[1] == t[1];
      assert s[2..] == t[2..] + rest;
      NoBodyMatch(s[2..]);
    }
  }

  lemma NoOpeningTail(t: string)
    requires t != "" && NoOpening(t)
    ensures NoOpening(t[1..])
  {
    forall i | 0 <= i < |t| - 2 && t[1..][i] == '$' && t[1..][i + 1] == '{' ensures !Opens(t[1..][i + 2..]) {
      assert t[1..][i + 2..] == t[i + 1 + 2..];
    }
  }

  lemma {:induction false} InertPrefix(t: string, rest: string, props: Props)
    requires t != "" ==> t[|t| - 1] != '$'
    requires NoOpening(t)
    ensures Resolve(t + rest, props) == t + Resolve(rest, props)
    decreases |t|
  {
    hide MatchPrefix, Resolve, NoOpening;
    var out := Resolve(rest, props);
    if t == "" {
      assert t + rest == rest && t + out == out;
    } else {
      NoMatchInside(t, rest);
      NoOpeningTail(t);
      ResolveNoMatch(t + rest, props);
      assert (t + rest)[1..] == t[1..] + rest;
      InertPrefix(t[1..], rest, props);
      assert [t[0]] + (t[1..] + out) == t + out;
    }
  }

  /** The output of a pass starts like its input, or with an inserted text. */
  lemma ResolveHead(s: string, props: Props)
    requires AllInert(s, props) && s != ""
    ensures Resolve(s, props) != ""
    ensures s[0] != '{' && Resolve(s, props)[0] == '{' ==>
              |Resolve(s, props)| >= 2 && Resolve(s, props)[1] in {'}', ':'}
    ensures s[0] != '$' ==> Resolve(s, props) == [s[0]] + Resolve(s[1..], props)
  {
    PrefixMatchIsSound(s);
  }

  /** A position that does not match in the input does not match in the output either. */
  lemma StillNoMatch(s: string, props: Props)
    requires AllInert(s, props) && s != "" && MatchPrefix(s).None?
    ensures MatchPrefix([s[0]] + Resolve(s[1..], props)).None?
  {
    hide MatchBody, Spell, WellFormed;
    var t := s[1..];
    var out := [s[0]] + Resolve(t, props);
    if s[0] == '$' && t != "" {
      ResolveHead(t, props);
      assert out[1] == Resolve(t, props)[0];
      assert out[2..] == Resolve(t, props)[1..];
      if t[0] != '{' {
        NoBodyMatch(out[2..]);
      } else {
        var u := s[2..];
        assert t[1..] == u && "${" <= s;
        assert out[2..] == Resolve(u, props);
        NoBodyMatch(u);
        NoBodyMatch(out[2..]);
        if u == "" {
        } else if u[0] in {'}', ':'} {
          ResolveHead(u, props);
        } else {
          NothingToResolve(u, props);
        }
      }
    }
  }

  lemma {:induction false} ResolveTwice(s: string, props: Props)
    requires AllInert(s, props)
    ensures Resolve(Resolve(s, props), props) == Resolve(s, props)
    decreases |s|
  {
    hide MatchPrefix, Spell, WellFormed;
    if s != "" {
      PrefixMatchIsSound(s);
      if MatchPrefix(s).Some? { SpellIsNonempty(MatchPrefix(s).value); }
      match MatchPrefix(s)
      case None =>
        ResolveTwice(s[1..], props);
        StillNoMatch(s, props);
        var out := [s[0]] + Resolve(s[1..], props);
        assert out[1..] == Resolve(s[1..], props);
      case Some(p) =>
        var rest := s[|Spell(p)|..];
        ResolveTwice(rest, props);
        match Inserted(p, props)
        case Some(t) =>
          InertPrefix(t, Resolve(rest, props), props);
        case None =>
          var out := Spell(p) + Resolve(rest, props);
          PrefixMatchIsUnique(out, p);
          assert out[|Spell(p)|..] == Resolve(rest, props);
    }
  }

  /** When every inserted text is inert, resolving the result again changes nothing. */
  lemma SecondPassIsIdentity(s: string, props: Props)
    requires InsertionsInert(s, props)
    ensures Resolve(Resolve(s, props), props) == Resolve(s, props)
  {
    InertFrom(s, 0, props);
    assert s[0..] == s;
    ResolveTwice(s, props);
  }

  // ---------------------------------------------------------------- inertness is exactly what is needed

  /** Every inserted text is `t` or inert. */
  ghost predicate Inserts(s: string, props: Props, t: string) {
    forall h | h in Scan(s, 0) && Inserted(h.p, props).Some? ::
      Inserted(h.p, props).value == t || Inert(Inserted(h.p, props).value)
  }

  ghost predicate SafeToInsert(t: string) {
    forall s, props | Inserts(s, props, t) :: Resolve(Resolve(s, props), props) == Resolve(s, props)
  }

  /** A text with a match somewhere is not a fixed point, given a property for the first name matched. */
  lemma {:induction false} FirstName(s: string, at: nat) returns (name: string)
    requires at <= |s| && MatchPrefix(s[at..]).Some?
    ensures name != "" && '}' !in name && ':' !in name
    ensures forall props: Props | name in props && props[name] == "x" :: Resolve(s, props) != s
    decreases at
  {
    PrefixMatchIsSound(s);
    if MatchPrefix(s).Some? {
      name := MatchPrefix(s).value.name;
      forall props: Props | name in props && props[name] == "x" ensures Resolve(s, props) != s {
        ResolveStep(s, props);
        assert s[0] == '$';
      }
    } else {
      assert s[0..] == s;
      assert s[1..][at - 1..] == s[at..];
      name := FirstName(s[1..], at - 1);
      forall props: Props | name in props && props[name] == "x" ensures Resolve(s, props) != s {
        ResolveNoMatch(s, props);
        assert s == [s[0]] + s[1..];
      }
    }
  }

  lemma {:induction false} NoDollar(s: string, props: Props)
    requires '$' !in s
    ensures Resolve(s, props) == s
  {
    if s != "" {
      assert s[0] in s;
      ResolveNoMatch(s, props);
      NoDollar(s[1..], props);
    }
  }

  /** A text with one placeholder and no other dollar sign, except perhaps one in front. */
  function OnePlaceholder(pre: string, name: string, tail: string): string {
    pre + ("$" + ("{" + name + "}" + tail))
  }

  lemma DollarAt(pre: string, body: string, i: nat)
    requires '$' !in body && i < |pre + ("$" + body)| && (pre + ("$" + body))[i] == '$'
    ensures i <= |pre|
  {}

  lemma OnlyHit(pre: string, name: string, tail: string, h: Hit)
    requires name != "" && '}' !in name && ':' !in name && '$' !in name && '$' !in tail
    requires pre == "" || pre == "$"
    requires IsMatch(OnePlaceholder(pre, name, tail), h)
    ensures h.p.name == name
  {
    var s := OnePlaceholder(pre, name, tail);
    var p := Placeholder(name, None);
    HitStart(pre, name, tail, h);
    assert s[|pre|..] == Spell(p) + tail by { SpellPlain(name, tail); }
    hide Spell, OnePlaceholder, MatchPrefix;
    MatchHere(s, h);
    PrefixMatchIsUnique(s[|pre|..], p);
  }

  lemma SpellPlain(name: string, tail: string)
    ensures "$" + ("{" + name + "}" + tail) == Spell(Placeholder(name, None)) + tail
  {}

  lemma HitStart(pre: string, name: string, tail: string, h: Hit)
    requires '$' !in name && '$' !in tail && (pre == "" || pre == "$")
    requires IsMatch(OnePlaceholder(pre, name, tail), h)
    ensures h.start == |pre|
  {
    var s := OnePlaceholder(pre, name, tail);
    assert s[h.start..h.End()] == Spell(h.p);
    assert s[h.start] == Spell(h.p)[0] == '$' && s[h.start + 1] == Spell(h.p)[1] == '{';
    DollarAt(pre, "{" + name + "}" + tail, h.start);
  }

  lemma NoPrefixMatch(s: string)
    requires |s| >= 2 && s[1] != '{'
    ensures MatchPrefix(s).None?
  {
    assert !("${" <= s);
  }

  lemma OnePlaceholderResolves(pre: string, name: string, tail: string, props: Props)
    requires name != "" && '}' !in name && ':' !in name && '$' !in name && '$' !in tail && name in props
    requires pre == "" || pre == "$"
    ensures Resolve(OnePlaceholder(pre, name, tail), props) == pre + (props[name] + tail)
  {
    hide MatchPrefix, Resolve;
    var p := Placeholder(name, None);
    var u := "$" + ("{" + name + "}" + tail);
    assert u == Spell(p) + tail;
    PrefixMatchIsUnique(u, p);
    ResolveStep(u, props);
    assert u[|Spell(p)|..] == tail;
    NoDollar(tail, props);
    var s := OnePlaceholder(pre, name, tail);
    if pre == "$" {
      assert s[1..] == u && s[1] == '$';
      NoPrefixMatch(s);
      ResolveNoMatch(s, props);
    } else {
      assert s == u && pre + (props[name] + tail) == props[name] + tail;
    }
  }

  /** The one-placeholder text whose output contains a new match when `t` is not inert. */
  function Tail(t: string): string { if t == "" || t[|t| - 1] == '$' then "{b}" else "b}" }

  function Front(t: string): string {
    if t == "" || (t[|t| - 1] != '$' && t[0] == '{' && (|t| == 1 || t[1] !in {'}', ':'})) then "$" else ""
  }

  lemma MatchAfterOpening(u: string)
    requires u != "" && Opens(u) && u[|u| - 1] == '}'
    ensures MatchPrefix("${" + u).Some?
  {
    assert ("${" + u)[2..] == u;
    NoBodyMatch(u);
  }

  lemma OpeningAt(t: string) returns (at: nat)
    requires !NoOpening(t)
    ensures at < |t| - 1 && t[at] == '$' && t[at + 1] == '{' && Opens(t[at + 2..])
  {
    at :| 0 <= at < |t| - 1 && t[at] == '$' && t[at + 1] == '{' && Opens(t[at + 2..]);
  }

  lemma NewMatch(t: string) returns (at: nat)
    requires !Inert(t)
    ensures var out := Front(t) + (t + Tail(t));
            at <= |out| && MatchPrefix(out[at..]).Some?
  {
    hide MatchPrefix, NoOpening;
    if t == "" {
      at := 0;
      MatchAt(t, "$", 0, "b}", "{b}");
    } else if t[|t| - 1] == '$' {
      at := |t| - 1;
      MatchAt(t, "", at, "b}", "{b}");
    } else if t[0] == '{' && Opens(t[1..]) {
      at := 0;
      MatchAt(t, "$", 0, t[1..] + "b}", "b}");
    } else {
      at := OpeningAt(t);
      MatchAt(t, "", at, t[at + 2..] + "b}", "b}");
    }
  }

  lemma MatchAt(t: string, front: string, at: nat, u: string, tail: string)
    requires u != "" && Opens(u) && u[|u| - 1] == '}'
    requires at <= |front + (t + tail)| && (front + (t + tail))[at..] == "${" + u
    ensures MatchPrefix((front + (t + tail))[at..]).Some?
  {
    MatchAfterOpening(u);
  }

  /** Exactly the inert texts are safe to insert: with any other text, some input changes again on a
      second pass although everything else inserted is inert. */
  lemma InertIsExact(t: string)
    ensures SafeToInsert(t) <==> Inert(t)
  {
    if Inert(t) {
      forall s, props | Inserts(s, props, t)
        ensures Resolve(Resolve(s, props), props) == Resolve(s, props)
      { SecondPassIsIdentity(s, props); }
    } else {
      Counterexample(t);
    }
  }

  lemma Counterexample(t: string)
    requires !Inert(t)
    ensures exists s, props :: Inserts(s, props, t) && Resolve(Resolve(s, props), props) != Resolve(s, props)
  {
    hide MatchPrefix, Resolve, Scan, Leftmost, Tail, Front;
    var at := NewMatch(t);
    var out := Front(t) + (t + Tail(t));
    var first := FirstName(out, at);
    var name := if first == "n" then "m" else "n";
    var props: Props := map[name := t, first := "x"];
    var s := OnePlaceholder(Front(t), name, Tail(t));
    FrontAndTail(t);
    OnePlaceholderResolves(Front(t), name, Tail(t), props);
    assert Inserts(s, props, t) by {
      ScanMatches(s);
      forall h | h in Scan(s, 0) ensures h.p.name == name { OnlyHit(Front(t), name, Tail(t), h); }
    }
    assert Resolve(Resolve(s, props), props) != Resolve(s, props);
  }

  lemma FrontAndTail(t: string)
    ensures Front(t) == "" || Front(t) == "$"
    ensures '$' !in Tail(t)
  {}

  lemma ScanMatches(s: string)
    ensures forall h | h in Scan(s, 0) :: IsMatch(s, h)
  { ScanIsLeftmost(s, 0); }
}
