/** Paged listing and prefix deletion of backend/app/annotations/storage.py, and the folder matching of
    `delete_folder` in backend/app/annotations/service.py. */
module Storage {
  import opened Text
  import opened Wrappers

  // ---------------------------------------------------------------- keys

  function LSlash(s: string): string { if s != "" && s[0] == '/' then LSlash(s[1..]) else s }
  function RSlash(s: string): string { if s != "" && s[|s| - 1] == '/' then RSlash(s[..|s| - 1]) else s }

  function NormFolder(folder: Option<string>): string {
    RSlash(LSlash(Strip(if folder.Some? then folder.value else "")))
  }

  function Underscored(s: string): string {
    if s == "" then "" else (if s[0] == '/' then "_" else [s[0]]) + Underscored(s[1..])
  }

  function SafeName(filename: string): string {
    var safe := Strip(Underscored(filename));
    if safe == "" then "image" else safe
  }

  function BuildKey(folder: Option<string>, filename: string): string {
    var f := NormFolder(folder);
    if f != "" then f + "/" + SafeName(filename) else SafeName(filename)
  }

  lemma {:induction false} LSlashFacts(s: string)
    ensures |LSlash(s)| <= |s| && LSlash(s) == s[|s| - |LSlash(s)|..]
    ensures LSlash(s) != "" ==> LSlash(s)[0] != '/'
    ensures (s == "" || s[0] != '/') ==> LSlash(s) == s
  {
    if s != "" && s[0] == '/' { LSlashFacts(s[1..]); }
  }

  lemma {:induction false} RSlashFacts(s: string)
    ensures |RSlash(s)| <= |s| && RSlash(s) == s[..|RSlash(s)|]
    ensures RSlash(s) != "" ==> RSlash(s)[|RSlash(s)| - 1] != '/'
    ensures (s == "" || s[|s| - 1] != '/') ==> RSlash(s) == s
  {
    if s != "" && s[|s| - 1] == '/' { RSlashFacts(s[..|s| - 1]); }
  }

  ghost predicate NoOuterSlash(f: string) { f != "" ==> f[0] != '/' && f[|f| - 1] != '/' }

  lemma NormHasNoOuterSlash(folder: Option<string>)
    ensures NoOuterSlash(NormFolder(folder))
  {
    var s := Strip(if folder.Some? then folder.value else "");
    LSlashFacts(s);
    RSlashFacts(LSlash(s));
  }

  ghost predicate Slashes(s: string) { forall i | 0 <= i < |s| :: s[i] == '/' }

  /** The first or the last character that is no slash. */
  ghost predicate Outermost(s: string, i: nat)
    requires i < |s|
  {
    s[i] != '/' && (Slashes(s[..i]) || Slashes(s[i + 1..]))
  }

  ghost predicate PlainEnds(s: string) { forall i | 0 <= i < |s| && Outermost(s, i) :: !IsSpace(s[i]) }

  /** Normalizing strips blanks before slashes, so a normalized folder can still have outer blanks, and normalizing
      it again, as every key builder does, gives a different folder. It stays the same if and only if in the
      stripped path neither the first nor the last character besides slashes is a blank. */
  lemma NormTwice(path: string)
    ensures var f := NormFolder(Some(path));
            NormFolder(Some(f)) == f <==> PlainEnds(Strip(path))
  {
    var f := NormFolder(Some(path));
    EndsOfNorm(path);
    NormHasNoOuterSlash(Some(path));
    if Trimmed(f) {
      StripKeepsTrimmed(f);
      LSlashFacts(f);
      RSlashFacts(f);
    } else {
      StripShortens(f);
      LSlashFacts(Strip(f));
      RSlashFacts(LSlash(Strip(f)));
    }
  }

  lemma EndsOfNorm(path: string)
    ensures Trimmed(NormFolder(Some(path))) <==> PlainEnds(Strip(path))
  {
    var t, f := Strip(path), NormFolder(Some(path));
    NormHasNoOuterSlash(Some(path));
    var a, c := CutSlashes(t);
    assert f == RSlash(LSlash(t));
    hide NormFolder, Strip, LSlash, RSlash;
    if f != "" {
      assert t[|a|] == f[0] && t[|a| + |f| - 1] == f[|f| - 1];
      assert t[..|a|] == a && t[|a| + |f|..] == c;
      assert Outermost(t, |a|) && Outermost(t, |a| + |f| - 1);
      forall i | 0 <= i < |t| && Outermost(t, i) ensures i == |a| || i == |a| + |f| - 1 {
        assert t[i] != '/';
        assert |a| < i ==> t[..i][|a|] == f[0];
        assert i < |a| + |f| - 1 ==> t[i + 1..][|a| + |f| - 2 - i] == f[|f| - 1];
      }
    }
  }

  lemma CutSlashes(s: string) returns (a: string, c: string)
    ensures s == a + RSlash(LSlash(s)) + c && Slashes(a) && Slashes(c)
  {
    LSlashFacts(s);
    LSlashTakesSlashes(s);
    RSlashFacts(LSlash(s));
    RSlashTakesSlashes(LSlash(s));
    hide LSlash, RSlash, Slashes;
    a, c := s[..|s| - |LSlash(s)|], LSlash(s)[|RSlash(LSlash(s))|..];
  }

  lemma {:induction false} LSlashTakesSlashes(s: string)
    ensures |LSlash(s)| <= |s| && Slashes(s[..|s| - |LSlash(s)|])
  {
    LSlashFacts(s);
    if s != "" && s[0] == '/' {
      LSlashTakesSlashes(s[1..]);
      assert s[..|s| - |LSlash(s)|] == [s[0]] + s[1..][..|s| - 1 - |LSlash(s)|];
    }
  }

  lemma {:induction false} RSlashTakesSlashes(s: string)
    ensures |RSlash(s)| <= |s| && Slashes(s[|RSlash(s)|..])
  {
    RSlashFacts(s);
    var n := |s| - 1;
    if s != "" && s[n] == '/' {
      RSlashTakesSlashes(s[..n]);
      assert s[|RSlash(s)|..] == s[..n][|RSlash(s)|..] + [s[n]];
    }
  }

  lemma StripShortens(f: string)
    requires !Trimmed(f)
    ensures |Strip(f)| < |f|
  {
    LStripIsSuffix(f);
    RStripIsPrefix(LStrip(f));
    StripIsTrimmed(f);
  }

  lemma {:induction false} UnderscoredHasNoSlash(s: string)
    ensures '/' !in Underscored(s)
  {
    if s != "" { UnderscoredHasNoSlash(s[1..]); }
  }

  /** Slashes become underscores, and nothing else changes. */
  lemma {:induction false} UnderscoredIs(s: string)
    ensures |Underscored(s)| == |s| && forall i | 0 <= i < |s| :: Underscored(s)[i] == if s[i] == '/' then '_' else s[i]
  {
    if s != "" {
      UnderscoredIs(s[1..]);
      assert forall i | 0 < i < |s| :: s[i] == s[1..][i - 1];
    }
  }

  /** A file name that is blank is stored as `image`; another one without slashes and outer blanks keeps its name, below
      its folder if there is one. */
  lemma NamesKept(folder: string, filename: string)
    requires NormFolder(Some(folder)) == folder
    ensures Strip(filename) == "" ==> BuildKey(Some(folder), filename) == if folder == "" then "image" else folder + "/image"
    ensures filename != "" && '/' !in filename && Trimmed(filename) ==>
              BuildKey(Some(folder), filename) == if folder == "" then filename else folder + "/" + filename
  {
    hide NormFolder;
    if '/' !in filename { UnderscoredSame(filename); }
    if Strip(filename) == "" {
      BlankHasNoSlash(filename);
      UnderscoredSame(filename);
    }
    if Trimmed(filename) { StripKeepsTrimmed(filename); }
    hide Strip, Underscored;
    assert "/" + "image" == "/image" && folder + "/" + "image" == folder + "/image";
  }

  lemma {:induction false} UnderscoredSame(s: string)
    requires '/' !in s
    ensures Underscored(s) == s
  {
    if s != "" {
      assert s[0] in s && forall c | c in s[1..] :: c in s;
      UnderscoredSame(s[1..]);
    }
  }

  lemma BlankHasNoSlash(s: string)
    requires Strip(s) == ""
    ensures '/' !in s
  {
    var b, c := CutBlanks(s);
    hide Strip;
    assert s == b + c;
  }

  lemma SafeNameFacts(filename: string)
    ensures SafeName(filename) != "" && '/' !in SafeName(filename)
  {
    UnderscoredHasNoSlash(filename);
    StripIsTrimmed(Underscored(filename));
  }

  // ---------------------------------------------------------------- the store

  /** What a listing request selects: a prefix and, with a delimiter, no further slash. */
  predicate Selects(prefix: string, delimiter: bool, key: string) {
    prefix <= key && (delimiter ==> '/' !in key[|prefix|..])
  }

  function Selection(keys: seq<string>, live: set<string>, prefix: string, delimiter: bool): seq<string> {
    if keys == [] then []
    else
      var n := |keys| - 1;
      Selection(keys[..n], live, prefix, delimiter)
      + if keys[n] in live && Selects(prefix, delimiter, keys[n]) then [keys[n]] else []
  }

  lemma {:induction false} SelectionSplit(a: seq<string>, b: seq<string>, live: set<string>, prefix: string, delimiter: bool)
    ensures Selection(a + b, live, prefix, delimiter)
         == Selection(a, live, prefix, delimiter) + Selection(b, live, prefix, delimiter)
  {
    if b == [] {
      assert a + b == a;
    } else {
      var n := |b| - 1;
      SelectionSplit(a, b[..n], live, prefix, delimiter);
      assert (a + b)[..|a + b| - 1] == a + b[..n];
    }
  }

  /** The selection is exactly the live keys that are selected, each once, in listing order. */
  lemma {:induction false} SelectionIs(keys: seq<string>, live: set<string>, prefix: string, delimiter: bool)
    requires Distinct(keys)
    ensures forall k :: k in Selection(keys, live, prefix, delimiter) <==>
              k in keys && k in live && prefix <= k && (delimiter ==> '/' !in k[|prefix|..])
    ensures Distinct(Selection(keys, live, prefix, delimiter))
  {
    if keys != [] {
      var n := |keys| - 1;
      SelectionIs(keys[..n], live, prefix, delimiter);
      assert keys == keys[..n] + [keys[n]];
      assert keys[n] !in keys[..n];
    }
  }

  /** Keys outside a part of the listing do not matter to its selection. */
  lemma {:induction false} SelectionFrame(keys: seq<string>, live: set<string>, other: set<string>, prefix: string, delimiter: bool)
    requires forall k | k in keys :: k in live <==> k in other
    ensures Selection(keys, live, prefix, delimiter) == Selection(keys, other, prefix, delimiter)
  {
    if keys != [] { SelectionFrame(keys[..|keys| - 1], live, other, prefix, delimiter); }
  }

  function Flatten(batches: seq<seq<string>>): seq<string> {
    if batches == [] then [] else Flatten(batches[..|batches| - 1]) + batches[|batches| - 1]
  }

  /** The object store lists its keys in a fixed order. A continuation token names the position where the next page
      begins, and the store may end a page anywhere after that position. */
  class Bucket {
    const order: seq<string>              // every key, in listing order
    var live: set<string>                 // the keys that exist
    ghost var requests: seq<seq<string>>  // every batch delete so far

    constructor (order: seq<string>)
      requires Distinct(order)
      ensures this.order == order && Valid() && live == (set k | k in order) && requests == []
    {
      this.order := order;
      live := set k | k in order;
      requests := [];
    }

    ghost predicate Valid() reads this {
      Distinct(order) && forall k | k in live :: k in order
    }

    /** `list_objects_v2`: one page from the token on, ending wherever the store likes. */
    method ListObjects(prefix: string, delimiter: bool, token: Option<nat>)
      returns (contents: seq<string>, truncated: bool, next: nat)
      requires token.Some? ==> token.value < |order|
      ensures var from := if token.Some? then token.value else 0;
              && from <= next <= |order|
              && contents == Selection(order[from..next], live, prefix, delimiter)
              && (truncated <==> next < |order|)
              && (truncated ==> from < next)
    {
      var from := if token.Some? then token.value else 0;
      next := |order|;
      if from < |order| { next :| from < next <= |order|; }
      contents := Selection(order[from..next], live, prefix, delimiter);
      truncated := next < |order|;
    }

    /** `delete_objects`: the service accepts at most 1000 keys. */
    method DeleteObjects(keys: seq<string>)
      requires 0 < |keys| <= 1000
      modifies this
      ensures live == old(live) - (set k | k in keys) && requests == old(requests) + [keys]
    {
      live := live - (set k | k in keys);
      requests := requests + [keys];
    }

    /** `list_object_keys` (no delimiter) and `list_direct_object_keys` (delimiter "/"): however the store
        cuts its pages, exactly the selected live keys, each once and in listing order. */
    method ListKeys(folder: Option<string>, delimiter: bool) returns (keys: seq<string>)
      requires Valid()
      ensures var p := NormFolder(folder);
              var prefix := if p != "" then p + "/" else "";
              && keys == Selection(order, live, prefix, delimiter)
              && Distinct(keys)
              && forall k :: k in keys <==> k in live && Selects(prefix, delimiter, k)
    {
      var p := NormFolder(folder);
      var prefix := if p != "" then p + "/" else "";
      keys := [];
      var token: Option<nat> := None;
      var more := true;
      ghost var pos := 0;
      assert order[..0] == [];
      while more
        invariant 0 <= pos <= |order|
        invariant more ==> pos == (if token.Some? then token.value else 0) && (token.Some? ==> pos < |order|)
        invariant keys == Selection(order[..pos], live, prefix, delimiter)
        invariant !more ==> pos == |order|
        decreases more, |order| - pos
      {
        var contents, truncated, next := ListObjects(prefix, delimiter, token);
        assert order[..next] == order[..pos] + order[pos..next];
        SelectionSplit(order[..pos], order[pos..next], live, prefix, delimiter);
        keys := keys + contents;
        pos := next;
        if truncated { token := Some(next); } else { more := false; }
      }
      assert order[..|order|] == order;
      SelectionIs(order, live, prefix, delimiter);
    }

    /** One page of deletions, in slices of a thousand. */
    method DeletePage(objs: seq<string>)
      modifies this
      ensures live == old(live) - (set k | k in objs)
      ensures old(requests) <= requests
      ensures Flatten(requests[|old(requests)|..]) == objs
      ensures forall b | b in requests[|old(requests)|..] :: 0 < |b| <= 1000
    {
      var i := 0;
      while i < |objs|
        invariant 0 <= i <= |objs|
        invariant live == old(live) - (set k | k in objs[..i])
        invariant old(requests) <= requests
        invariant Flatten(requests[|old(requests)|..]) == objs[..i]
        invariant forall b | b in requests[|old(requests)|..] :: 0 < |b| <= 1000
      {
        var end := if i + 1000 <= |objs| then i + 1000 else |objs|;
        var batch := objs[i..end];
        ghost var sent := requests[|old(requests)|..];
        DeleteObjects(batch);
        assert objs[..end] == objs[..i] + batch;
        assert requests[|old(requests)|..] == sent + [batch];
        assert (sent + [batch])[..|sent|] == sent;
        i := end;
      }
      assert objs[..|objs|] == objs;
    }

    /** `delete_prefix`: removes exactly the keys under the folder and reports them, each once. */
    method DeletePrefix(path: Option<string>) returns (deleted: seq<string>)
      requires Valid()
      modifies this
      ensures Valid()
      ensures var prefix := NormFolder(path) + "/";
              && live == old(live) - (set k | k in old(live) && prefix <= k)
              && deleted == Selection(order, old(live), prefix, false)
              && Distinct(deleted)
              && forall k :: k in deleted <==> k in old(live) && prefix <= k
    {
      hide NormFolder, Distinct;
      var prefix := NormFolder(path) + "/";
      deleted := [];
      var token: Option<nat> := None;
      var more := true;
      ghost var pos := 0;
      assert order[..0] == [];
      while more
        invariant 0 <= pos <= |order|
        invariant more ==> pos == (if token.Some? then token.value else 0) && (token.Some? ==> pos < |order|)
        invariant deleted == Selection(order[..pos], old(live), prefix, false)
        invariant live == old(live) - (set k | k in deleted)
        invariant !more ==> pos == |order|
        decreases more, |order| - pos
      {
        var contents, truncated, next := ListObjects(prefix, false, token);
        LaterKeysLive(order, pos, old(live), prefix);
        SelectionFrame(order[pos..next], live, old(live), prefix, false);
        assert order[..next] == order[..pos] + order[pos..next];
        SelectionSplit(order[..pos], order[pos..next], old(live), prefix, false);
        deleted := deleted + contents;
        DeletePage(contents);
        pos := next;
        if truncated { token := Some(next); } else { more := false; }
      }
      assert order[..|order|] == order;
      SelectionIs(order, old(live), prefix, false);
    }
  }

  /** Deleting keys listed so far does not touch the rest of the listing. */
  lemma LaterKeysLive(order: seq<string>, pos: nat, live: set<string>, prefix: string)
    requires Distinct(order) && pos <= |order|
    ensures forall k | k in order[pos..] :: k !in Selection(order[..pos], live, prefix, false)
  {
    SelectionIs(order[..pos], live, prefix, false);
    forall k | k in order[pos..] ensures k !in order[..pos] {
      var i :| pos <= i < |order| && order[i] == k;
    }
  }

  // ---------------------------------------------------------------- deleting a folder

  /** SQL LIKE with the default escape character of PostgreSQL. */
  predicate Like(text: string, pattern: string)
    decreases |pattern|, |text|
  {
    if pattern == "" then text == ""
    else if pattern[0] == '%' then Like(text, pattern[1..]) || (text != "" && Like(text[1..], pattern))
    else if pattern[0] == '_' then text != "" && Like(text[1..], pattern[1..])
    else if pattern[0] == '\\' then
      |pattern| > 1 && text != "" && text[0] == pattern[1] && Like(text[1..], pattern[2..])
    else text != "" && text[0] == pattern[0] && Like(text[1..], pattern[1..])
  }

  predicate Special(c: char) { c == '%' || c == '_' || c == '\\' }

  predicate Plain(f: string) { forall c | c in f :: !Special(c) }

  /** The rows `delete_folder` selects, and the subtree it means. */
  predicate Matched(g: string, f: string) { g == f || Like(g, f + "/%") }
  predicate InSubtree(g: string, f: string) { g == f || f + "/" <= g }

  lemma {:induction false} AnythingMatches(t: string)
    ensures Like(t, "%")
  {
    if t != "" { AnythingMatches(t[1..]); }
  }

  lemma {:induction false} PlainLike(g: string, f: string)
    requires Plain(f)
    ensures Like(g, f + "%") <==> f <= g
  {
    if f == "" {
      assert f + "%" == "%";
      AnythingMatches(g);
    } else {
      assert (f + "%")[1..] == f[1..] + "%";
      assert f[0] in f;
      if g != "" {
        PlainLike(g[1..], f[1..]);
        assert f <= g <==> f[0] == g[0] && f[1..] <= g[1..] by {
          assert f == [f[0]] + f[1..] && g == [g[0]] + g[1..];
        }
      }
    }
  }

  /** A text that a pattern matches: each percent sign replaced by `fill`, each underscore by an `x`. */
  function Instance(p: string, fill: string): string {
    if p == "" then ""
    else if p[0] == '%' then fill + Instance(p[1..], fill)
    else if p[0] == '_' then "x" + Instance(p[1..], fill)
    else if p[0] == '\\' then (if |p| > 1 then [p[1]] + Instance(p[2..], fill) else "")
    else [p[0]] + Instance(p[1..], fill)
  }

  lemma {:induction false} InstanceMatches(p: string, t: string)
    ensures Like(Instance(p + "/", "x") + t, p + "/%")
    decreases |p|
  {
    var i := Instance(p + "/", "x");
    if p == "" {
      assert p + "/%" == "/%" && p + "/" == "/";
      assert "/"[1..] == "" && "/%"[1..] == "%";
      assert i == "/" + "" == "/";
      AnythingMatches(t);
      assert (i + t)[1..] == t;
    } else {
      assert (p + "/%")[1..] == p[1..] + "/%" && (p + "/")[1..] == p[1..] + "/";
      if p[0] == '%' {
        InstanceMatches(p[1..], t);
        assert (i + t)[1..] == Instance(p[1..] + "/", "x") + t;
      } else if p[0] == '\\' {
        if |p| == 1 {
          assert p + "/" == "\\/" && p + "/%" == "\\/%";
          assert "\\/"[2..] == "" && "\\/%"[2..] == "%";
          assert i == "/" + "" == "/";
          AnythingMatches(t);
          assert (i + t)[1..] == t;
        } else {
          assert (p + "/%")[2..] == p[2..] + "/%" && (p + "/")[2..] == p[2..] + "/";
          InstanceMatches(p[2..], t);
          assert (i + t)[1..] == Instance(p[2..] + "/", "x") + t;
        }
      } else {
        InstanceMatches(p[1..], t);
        assert (i + t)[1..] == Instance(p[1..] + "/", "x") + t;
      }
    }
  }

  lemma {:induction false} InstanceDiffers(p: string)
    ensures |Instance(p, "x")| <= |p|
    ensures |Instance(p, "x")| == |p| && Instance(p, "x") == p ==> Plain(p)
    decreases |p|
  {
    if p != "" {
      InstanceDiffers(p[1..]);
      if |p| > 1 { InstanceDiffers(p[2..]); }
      assert p == [p[0]] + p[1..];
      if |Instance(p, "x")| == |p| && Instance(p, "x") == p {
        assert Instance(p, "x")[0] == p[0];
        assert Instance(p, "x")[1..] == p[1..];
      }
    }
  }

  /** The rows a folder deletion selects are exactly those of the folder and its subfolders if and only
      if the folder name contains no LIKE wildcard and no escape character. */
  lemma FolderMatchIsExact(f: string)
    ensures (forall g :: Matched(g, f) <==> InSubtree(g, f)) <==> Plain(f)
  {
    if Plain(f) {
      forall g ensures Matched(g, f) <==> InSubtree(g, f) {
        PlainLike(g, f + "/");
        assert (f + "/") + "%" == f + "/%";
      }
    } else {
      var tail := seq(|f| + 2, _ => 'z');
      var g := Instance(f + "/", "x") + tail;
      InstanceMatches(f, tail);
      InstanceDiffers(f + "/");
      assert !Plain(f + "/") by { var c :| c in f && Special(c); assert c in f + "/"; }
      assert |g| > |f|;
      assert Matched(g, f) && !InSubtree(g, f) by {
        if |Instance(f + "/", "x")| <= |f| {
          assert g[|f|] == 'z';
        } else {
          assert g[..|f| + 1] == Instance(f + "/", "x");
        }
      }
    }
  }

  /** The folder whose rows are deleted, unless the path is refused as the root: the route normalizes the path to test
      it, the service normalizes it again, and `delete_prefix` a third time. */
  function DeletedFolder(path: string): Option<string> {
    var norm := NormFolder(Some(path));
    if norm == "" then None else Some(StoredFolder(path))
  }

  /** The folder in the row of an uploaded image: the route normalizes once, and `create_image` again. */
  function StoredFolder(folder: string): string { NormFolder(Some(NormFolder(Some(folder)))) }

  /** The key of its object, which the route builds from the folder it has normalized once. */
  function StoredKey(folder: string, filename: string): string { BuildKey(Some(NormFolder(Some(folder))), filename) }

  lemma StableIs(g: string)
    ensures NormFolder(Some(g)) == g <==> Trimmed(g) && NoOuterSlash(g)
  {
    NormHasNoOuterSlash(Some(g));
    if Trimmed(g) && NoOuterSlash(g) {
      StripKeepsTrimmed(g);
      LSlashFacts(g);
      RSlashFacts(g);
    } else if !Trimmed(g) {
      StripShortens(g);
      LSlashFacts(Strip(g));
      RSlashFacts(LSlash(Strip(g)));
    }
  }

  /** Every folder without outer slashes is stored for some upload, outer blanks or not. */
  lemma StoredAs(g: string) returns (folder: string)
    requires NoOuterSlash(g)
    ensures StoredFolder(folder) == g
  {
    if g == "" {
      folder := "";
      NothingLeft("");
    } else {
      var inner := " " + ("/" + g + "/") + " ";
      folder := "/" + inner + "/";
      hide Strip, LSlash, RSlash;
      StripOf("", folder, "");
      assert "" + folder + "" == folder;
      UnslashOf("/", inner, "/");
      StripOf(" ", "/" + g + "/", " ");
      UnslashOf("/", g, "/");
    }
  }

  lemma KeyInFolder(folder: string, filename: string, p: string)
    ensures p + "/" <= StoredKey(folder, filename) <==> p != "" && InSubtree(StoredFolder(folder), p)
  {
    var g := StoredFolder(folder);
    NormHasNoOuterSlash(Some(NormFolder(Some(folder))));
    hide NormFolder;
    SafeNameFacts(filename);
    var key := StoredKey(folder, filename);
    if g != "" {
      assert key == g + ("/" + SafeName(filename)) && key[0] == g[0];
      if p != "" { SlashAfter(g, SafeName(filename), p); }
    } else if p + "/" <= key {
      PrefixHasSlash(p, key);
    }
  }

  /** The rows deleted for this folder are those whose objects are deleted with it, whatever images were uploaded. */
  ghost predicate RowsMatchObjects(f: string) {
    forall folder, filename ::
      Matched(StoredFolder(folder), f) <==> NormFolder(Some(f)) + "/" <= StoredKey(folder, filename)
  }

  /** The rows and the objects that go with a folder are always those of the same images if and only if the folder is
      not the root, free of wildcards and without outer blanks. */
  lemma RowsAndObjectsAgree(path: string)
    requires DeletedFolder(path).Some?
    ensures var f := DeletedFolder(path).value;
            RowsMatchObjects(f) <==> f != "" && Plain(f) && Trimmed(f)
  {
    var f := DeletedFolder(path).value;
    NormHasNoOuterSlash(Some(NormFolder(Some(path))));
    StableIs(f);
    NothingLeft("");
    assert NormFolder(Some("")) == "";
    hide NormFolder, Strip, Plain, RowsMatchObjects, StoredFolder;
    if f == "" {
      Disagrees(f, "");
    } else if !Trimmed(f) {
      UnstableFolder(f);
    } else if Plain(f) {
      PlainFolder(f);
    } else {
      var g := WildcardWitness(f, f);
      Disagrees(f, g);
    }
  }

  /** The disagreement of one image folder, as the keys see it. */
  lemma Disagrees(f: string, g: string)
    requires NoOuterSlash(g)
    requires !(Matched(g, f) <==> NormFolder(Some(f)) != "" && InSubtree(g, NormFolder(Some(f))))
    ensures !RowsMatchObjects(f)
  {
    hide NormFolder, InSubtree, StoredFolder, StoredKey, Like;
    var folder := StoredAs(g);
    KeyInFolder(folder, "", NormFolder(Some(f)));
  }

  lemma PlainFolder(f: string)
    requires f != "" && Plain(f) && NormFolder(Some(f)) == f
    ensures RowsMatchObjects(f)
  {
    hide NormFolder, StoredKey, StoredFolder, Plain;
    FolderMatchIsExact(f);
    forall folder, filename ensures Matched(StoredFolder(folder), f) <==> f + "/" <= StoredKey(folder, filename) {
      KeyInFolder(folder, filename, f);
    }
  }

  /** A folder with outer blanks is deleted under another prefix than its images have. */
  lemma UnstableFolder(f: string)
    requires NoOuterSlash(f) && !Trimmed(f)
    ensures !RowsMatchObjects(f)
  {
    var p := NormFolder(Some(f));
    NormHasNoOuterSlash(Some(f));
    StableIs(f);
    SpecialsStay(f);
    hide NormFolder, RowsMatchObjects;
    if !(p != "" && p + "/" <= f) {
      Disagrees(f, f);
    } else if Plain(f) {
      var g := Inside(f, p);
      PlainLike(g, f + "/");
      assert (f + "/") + "%" == f + "/%";
      assert f[|p|] == '/' && |f| >= |p| + 2;
      Disagrees(f, g);
    } else {
      var g := WildcardWitness(p, f);
      Disagrees(f, g);
    }
  }

  /** A folder directly inside `p`, other than `f`. */
  lemma Inside(f: string, p: string) returns (g: string)
    requires p != "" && NoOuterSlash(p)
    ensures InSubtree(g, p) && g != f && NoOuterSlash(g) && |g| == |p| + 2 && g[0] == p[0]
  {
    assert (p + "/x")[|p| + 1] == 'x' && (p + "/y")[|p| + 1] == 'y';
    g := if f == p + "/x" then p + "/y" else p + "/x";
  }

  /** Normalizing takes away blanks and slashes only. */
  lemma SpecialsStay(f: string)
    ensures Plain(NormFolder(Some(f))) ==> Plain(f)
  {
    var b, c := CutBlanks(f);
    var x, y := CutSlashes(Strip(f));
    var p := NormFolder(Some(f));
    assert Strip(f) == x + p + y;
    hide Strip, LSlash, RSlash, NormFolder;
    assert f == b + (x + p + y) + c;
    forall i | 0 <= i < |f| && Special(f[i]) ensures f[i] in p {
      assert f[i] in b || f[i] in x || f[i] in p || f[i] in y || f[i] in c;
      NoSpecials(b);
      NoSpecials(c);
      NoSpecials(x);
      NoSpecials(y);
    }
  }

  lemma NoSpecials(s: string)
    requires Blank(s) || Slashes(s)
    ensures forall c | c in s :: !Special(c)
  {
    if Blank(s) { SpecialIsSolid(); }
  }

  lemma SpecialIsSolid()
    ensures forall c | Special(c) :: !IsSpace(c) && c != '/'
  {}

  /** For a folder with wildcards some image folder is matched without being in the subtree, or the other way round. */
  lemma WildcardWitness(p: string, f: string) returns (g: string)
    requires p != "" && NoOuterSlash(p) && !Plain(p) && p <= f && !Special((f + "/")[|p|])
    ensures NoOuterSlash(g) && !(Matched(g, f) <==> InSubtree(g, p))
  {
    var pattern := f + "/";
    if p[0] == '\\' && pattern[1] == '/' {
      g := Inside(f, p);
      assert (f + "/%")[0] == '\\' && (f + "/%")[1] == pattern[1];
    } else {
      g := Instance(pattern, "x") + "z";
      InstanceMatches(f, "z");
      assert g[0] == if p[0] == '%' || p[0] == '_' then 'x' else if p[0] == '\\' then pattern[1] else p[0];
      assert pattern == p + (f[|p|..] + "/");
      InstanceLeaves(p, f[|p|..] + "/", "z");
    }
  }

  /** What a text with wildcards matches need not begin with it. */
  lemma {:induction false} InstanceLeaves(p: string, u: string, t: string)
    requires !Plain(p) && u != "" && !Special(u[0])
    ensures !(p <= Instance(p + u, "x") + t)
  {
    var i := Instance(p + u, "x");
    if p[0] == '\\' {
      var k := Backslashes(p);
      BackslashesThen(p, u);
      BackslashesAt(p, 0);
      RunInstance(p + u);
      assert i[k / 2] != '\\' && p[k / 2] == '\\' by { BackslashesAt(p, k / 2); }
      assert (i + t)[k / 2] == i[k / 2];
    } else if Special(p[0]) {
      assert (i + t)[0] == 'x';
    } else {
      assert (p + u)[1..] == p[1..] + u;
      assert !Plain(p[1..]) by { var c :| c in p && Special(c); assert p == [p[0]] + p[1..]; }
      InstanceLeaves(p[1..], u, t);
      assert (i + t)[1..] == Instance(p[1..] + u, "x") + t;
    }
  }

  function Backslashes(s: string): nat { if s != "" && s[0] == '\\' then 1 + Backslashes(s[1..]) else 0 }

  lemma {:induction false} BackslashesThen(p: string, u: string)
    requires u != "" && u[0] != '\\'
    ensures Backslashes(p + u) == Backslashes(p)
  {
    if p == "" {
      assert p + u == u;
    } else {
      assert (p + u)[1..] == p[1..] + u;
      if p[0] == '\\' { BackslashesThen(p[1..], u); }
    }
  }

  lemma {:induction false} BackslashesAt(p: string, i: nat)
    requires i < Backslashes(p)
    ensures Backslashes(p) <= |p| && p[i] == '\\'
  {
    if i > 0 {
      BackslashesAt(p[1..], i - 1);
    } else if Backslashes(p) > 1 {
      BackslashesAt(p[1..], 0);
    }
  }

  /** A run of backslashes stands for half as many. */
  lemma {:induction false} RunInstance(s: string)
    requires Backslashes(s) < |s|
    ensures var i, k := Instance(s, "x"), Backslashes(s); k / 2 < |i| && i[k / 2] != '\\'
    decreases |s|
  {
    var k := Backslashes(s);
    if k >= 2 {
      assert s[1..][1..] == s[2..];
      RunInstance(s[2..]);
    }
  }

  lemma PrefixHasSlash(f: string, key: string)
    requires f + "/" <= key
    ensures '/' in key
  {
    assert key[|f|] == '/';
  }

  /** A key has the prefix of a folder just when its own folder is in the subtree. */
  lemma SlashAfter(g: string, name: string, f: string)
    requires '/' !in name
    ensures f + "/" <= g + ("/" + name) <==> InSubtree(g, f)
  {
    var key := g + ("/" + name);
    if f + "/" <= key {
      assert key[|f|] == '/' && key[..|f|] == f;
      assert forall i | |g| < i < |key| :: key[i] == name[i - |g| - 1];
      assert |f| <= |g|;
      assert g[..|f|] == f;
    }
  }

  // ---------------------------------------------------------------- the root

  /** The runs of blanks and of slashes of a path. */
  datatype Cut = Cut(b0: string, s1: string, b1: string, s2: string, b2: string, s3: string, b3: string)

  ghost predicate Cuts(c: Cut, path: string) {
    && path == c.b0 + (c.s1 + (c.b1 + c.s2 + c.b2) + c.s3) + c.b3
    && Blank(c.b0) && Blank(c.b1) && Blank(c.b2) && Blank(c.b3)
    && Slashes(c.s1) && Slashes(c.s2) && Slashes(c.s3)
    && c.s1 != "" && c.b1 != "" && c.s3 != "" && (c.s2 == "" <==> c.b2 == "")
  }

  /** A path of blanks and slashes only that begins and ends with a slash, up to outer blanks, and has one or two runs
      of blanks between its slashes. */
  ghost predicate SlipsThrough(path: string) { exists c :: Cuts(c, path) }

  /** The route refuses to delete the root, and yet deletes it if and only if the path slips through: the first
      normalization leaves blanks that the second one takes away. */
  lemma RootDeleted(path: string)
    ensures DeletedFolder(path) == Some("") <==> SlipsThrough(path)
  {
    if SlipsThrough(path) {
      var c :| Cuts(c, path);
      CutDeletesRoot(c, path);
    } else if DeletedFolder(path) == Some("") {
      RootIsCut(path);
    }
  }

  lemma UnslashOf(a: string, m: string, c: string)
    requires Slashes(a) && Slashes(c) && NoOuterSlash(m) && m != ""
    ensures RSlash(LSlash(a + m + c)) == m
  {
    LSlashOf(a, m + c);
    assert a + m + c == a + (m + c);
    RSlashOf(m, c);
  }

  lemma {:induction false} LSlashOf(a: string, m: string)
    requires Slashes(a) && (m == "" || m[0] != '/')
    ensures LSlash(a + m) == m
  {
    if a == "" {
      assert a + m == m;
    } else {
      assert (a + m)[1..] == a[1..] + m;
      LSlashOf(a[1..], m);
    }
  }

  lemma {:induction false} RSlashOf(m: string, c: string)
    requires Slashes(c) && m != "" && m[|m| - 1] != '/'
    ensures RSlash(m + c) == m
  {
    if c == "" {
      assert m + c == m;
    } else {
      var n := |c| - 1;
      assert (m + c)[..|m + c| - 1] == m + c[..n];
      RSlashOf(m, c[..n]);
    }
  }

  /** A text of blanks alone, or of slashes alone, has nothing left. */
  lemma NothingLeft(s: string)
    ensures Blank(s) ==> Strip(s) == ""
    ensures Slashes(s) ==> RSlash(LSlash(s)) == ""
  {
    if Blank(s) { BlankIsNothing(s); }
    if Slashes(s) {
      LSlashOf(s, "");
      assert s + "" == s;
    }
  }

  lemma CutDeletesRoot(c: Cut, path: string)
    requires Cuts(c, path)
    ensures DeletedFolder(path) == Some("")
  {
    hide Strip, LSlash, RSlash;
    var m := c.b1 + c.s2 + c.b2;
    var q := c.s1 + m + c.s3;
    assert q[0] == '/' && q[|q| - 1] == c.s3[|c.s3| - 1];
    StripOf(c.b0, q, c.b3);
    assert m[0] == c.b1[0];
    assert m[|m| - 1] == if c.s2 == "" then c.b1[|c.b1| - 1] else c.b2[|c.b2| - 1];
    UnslashOf(c.s1, m, c.s3);
    assert NormFolder(Some(path)) == m;
    if c.s2 == "" {
      assert m == c.b1;
      NothingLeft(m);
      NothingLeft("");
    } else {
      StripOf(c.b1, c.s2, c.b2);
      NothingLeft(c.s2);
    }
  }

  lemma RootIsCut(path: string)
    requires DeletedFolder(path) == Some("")
    ensures SlipsThrough(path)
  {
    var q, m := Strip(path), NormFolder(Some(path));
    var t := Strip(m);
    StripIsTrimmed(path);
    NormHasNoOuterSlash(Some(path));
    var b0, b3 := CutBlanks(path);
    var s1, s3 := CutSlashes(q);
    var b1, b2 := CutBlanks(m);
    var a, c := CutSlashes(t);
    assert RSlash(LSlash(t)) == "" && RSlash(LSlash(q)) == m;
    hide Strip, LSlash, RSlash, NormFolder;
    assert t == a + c;
    CutOfParts(path, b0, q, b3, s1, m, s3, b1, t, b2);
  }

  lemma Ends(a: string, m: string, c: string)
    requires a + m + c != ""
    ensures var s := a + m + c;
            && (a != "" ==> s[0] == a[0]) && (a == "" && m != "" ==> s[0] == m[0])
            && (c != "" ==> s[|s| - 1] == c[|c| - 1]) && (c == "" && m != "" ==> s[|s| - 1] == m[|m| - 1])
  {}

  lemma CutOfParts(path: string, b0: string, q: string, b3: string, s1: string, m: string, s3: string,
                   b1: string, t: string, b2: string)
    requires path == b0 + q + b3 && q == s1 + m + s3 && m == b1 + t + b2
    requires Blank(b0) && Blank(b1) && Blank(b2) && Blank(b3) && Slashes(s1) && Slashes(t) && Slashes(s3)
    requires Trimmed(q) && NoOuterSlash(m) && m != ""
    ensures SlipsThrough(path)
  {
    Ends(s1, m, s3);
    Ends(b1, t, b2);
    hide Strip, LSlash, RSlash;
    if t == "" {
      assert m == m + "" + "" && Blank(m);
      assert Cuts(Cut(b0, s1, m, "", "", s3, b3), path);
    } else {
      assert Cuts(Cut(b0, s1, b1, t, b2, s3, b3), path);
    }
  }

  /** Such a path is accepted and deletes exactly the rows of the root's images, but no object of any image: every key
      lacks the leading slash that the prefix of the root asks for. */
  lemma RootObjectsRemain(path: string, folder: string, filename: string)
    requires SlipsThrough(path)
    ensures DeletedFolder(path).Some?
    ensures var f, g := DeletedFolder(path).value, StoredFolder(folder);
            && (Matched(g, f) <==> g == "")
            && !(NormFolder(Some(f)) + "/" <= StoredKey(folder, filename))
  {
    RootDeleted(path);
    NormHasNoOuterSlash(Some(NormFolder(Some(folder))));
    NothingLeft("");
    KeyInFolder(folder, filename, "");
    hide Strip, LSlash, RSlash, StoredKey;
    assert ("" + "/%")[0] == '/';
  }

  /** Two slashes with a blank between them slip through. */
  lemma BlankFolder()
    ensures SlipsThrough("/ /")
  {
    assert "/ /" == "/" + " " + "/";
    assert " " == " " + "" + "";
    assert "" + "/ /" + "" == "/ /";
    assert Cuts(Cut("", "/", " ", "", "", "/", ""), "/ /");
  }

  /** Four slashes with blanks between them do not: each of the two normalizations takes one layer, and a blank
      is left. */
  lemma BlankFoldersRemain()
    ensures !SlipsThrough("/ / / /") && DeletedFolder("/ / / /") == Some(" ")
  {
    var path, m, n := "/ / / /", " / / ", "/ /";
    hide Strip, LSlash, RSlash, SlipsThrough;
    assert "" + path + "" == path && path == "/" + m + "/";
    assert m == " " + n + " " && n == "/" + " " + "/";
    StripOf("", path, "");
    UnslashOf("/", m, "/");
    StripOf(" ", n, " ");
    UnslashOf("/", " ", "/");
    RootDeleted(path);
  }

  /** An image uploaded to `/ / / x`: deleting that folder takes its row and leaves its object, which is stored under
      ` / x/`, while the prefix deleted is ` x/`. */
  lemma ObjectStays(filename: string)
    ensures var path := "/ / / x";
            && DeletedFolder(path) == Some(" / x") && Matched(StoredFolder(path), " / x")
            && !(NormFolder(Some(" / x")) + "/" <= StoredKey(path, filename))
  {
    var path, m, n := "/ / / x", " / / x", "/ / x";
    hide Strip, LSlash, RSlash;
    assert "" + path + "" == path && path == "/" + m + "";
    assert m == " " + n + "" && n == "/" + " / x" + "" && " / x" == " " + "/ x" + "" && "/ x" == "/" + " x" + "";
    StripOf("", path, "");
    UnslashOf("/", m, "");
    StripOf(" ", n, "");
    UnslashOf("/", " / x", "");
    StripOf(" ", "/ x", "");
    UnslashOf("/", " x", "");
    KeyInFolder(path, filename, " x");
    assert (" x" + "/")[1] == 'x' && " / x"[1] == '/';
  }
}
