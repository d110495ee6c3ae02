/** Finding the page a text chunk comes from, and the cache of page texts (backend/app/documents/evidence.py). */
module Evidence {
  import opened Text
  import opened Wrappers

  // ---------------------------------------------------------------- normalised texts and their grams

  const GRAM := 5

  /** The characters `_norm` keeps: ASCII letters and digits and Hangul syllables. */
  predicate Kept(c: char) {
    '0' <= c <= '9' || 'A' <= c <= 'Z' || 'a' <= c <= 'z' || '\U{AC00}' <= c <= '\U{D7A3}'
  }

  function Norm(s: string): string {
    if s == "" then "" else (if Kept(s[0]) then [s[0]] else []) + Norm(s[1..])
  }

  function GramAt(cn: string, i: nat): string { if i <= |cn| then cn[i..Min(i + GRAM, |cn|)] else "" }

  /** The 5-grams of a text; a shorter text is its own only gram. */
  function Grams(cn: string): set<string> {
    set i: nat | i < (if |cn| - 4 > 1 then |cn| - 4 else 1) :: GramAt(cn, i)
  }

  /** How many grams occur in a page. */
  function Score(grams: set<string>, page: string): nat { |set g | g in grams && Contains(Norm(page), g)| }

  // ---------------------------------------------------------------- the best page

  /** `best_page`, as a number from one. */
  method BestPage(chunk: string, pages: seq<string>) returns (page: nat)
    ensures Norm(chunk) == "" || pages == [] ==> page == 1
    ensures Norm(chunk) != "" && pages != [] ==> IsBest(Grams(Norm(chunk)), pages, page)
  {
    hide Score, Grams, Norm;
    var cn := Norm(chunk);
    if cn == "" || pages == [] { return 1; }
    var grams := Grams(cn);
    HasGrams(cn);
    var bestI, bestScore: int := 0, -1;
    for i := 0 to |pages|
      invariant i == 0 ==> bestI == 0 && bestScore == -1
      invariant i > 0 ==> 0 <= bestI < i && bestScore == Score(grams, pages[bestI])
      invariant forall j | 0 <= j < i :: Score(grams, pages[j]) <= bestScore
      invariant i > 0 ==> forall j | 0 <= j < bestI :: Score(grams, pages[j]) < bestScore
    {
      var score := Score(grams, pages[i]);
      if score > bestScore { bestI, bestScore := i, score; }
    }
    return bestI + 1;
  }

  /** The first of the pages with the highest score. */
  ghost predicate IsBest(grams: set<string>, pages: seq<string>, page: nat) {
    && 1 <= page <= |pages|
    && (forall j | 0 <= j < |pages| :: Score(grams, pages[j]) <= Score(grams, pages[page - 1]))
    && (forall j | 0 <= j < page - 1 :: Score(grams, pages[j]) < Score(grams, pages[page - 1]))
  }

  lemma HasGrams(cn: string)
    requires cn != ""
    ensures Grams(cn) != {}
  {
    assert GramAt(cn, 0) in Grams(cn);
  }

  /** The grams of a text are its parts of five characters; a shorter text is its own only gram. */
  lemma GramsAreParts(cn: string, g: string)
    ensures g in Grams(cn) <==> if |cn| < 5 then g == cn else |g| == 5 && Contains(cn, g)
  {
    if |cn| < 5 {
      assert GramAt(cn, 0) == cn && GramAt(cn, 0) in Grams(cn);
    } else {
      if g in Grams(cn) {
        var i: nat :| i < |cn| - 4 && g == GramAt(cn, i);
        assert g == cn[i..i + 5] && g <= cn[i..];
      }
      if |g| == 5 && Contains(cn, g) {
        var i :| 0 <= i <= |cn| && g <= cn[i..];
        assert g == GramAt(cn, i) && i < |cn| - 4;
        assert GramAt(cn, i) in Grams(cn);
      }
    }
  }

  /** Normalising keeps ASCII letters, digits and Hangul syllables, in order, and nothing else. */
  lemma NormKeeps(a: string, c: char, b: string)
    ensures Norm(a + [c] + b)
         == if '0' <= c <= '9' || 'A' <= c <= 'Z' || 'a' <= c <= 'z' || '\U{AC00}' <= c <= '\U{D7A3}'
            then Norm(a) + [c] + Norm(b) else Norm(a) + Norm(b)
    ensures Norm("") == ""
  {
    NormConcat(a + [c], b);
    NormConcat(a, [c]);
    assert [c][1..] == "";
    assert Norm([c]) == if Kept(c) then [c] else "";
  }

  lemma {:induction false} NormConcat(a: string, b: string)
    ensures Norm(a + b) == Norm(a) + Norm(b)
  {
    if a == "" {
      assert a + b == b;
    } else {
      hide Norm, Kept;
      var c, rest := a[0], a[1..];
      NormConcat(rest, b);
      NormCons(c, rest);
      NormCons(c, rest + b);
      assert a == [c] + rest && a + b == [c] + (rest + b);
    }
  }

  lemma NormCons(c: char, s: string)
    ensures Norm([c] + s) == (if Kept(c) then [c] else []) + Norm(s)
  {
    assert ([c] + s)[1..] == s;
  }

  lemma BestIsUnique(grams: set<string>, pages: seq<string>, p: nat, q: nat)
    requires IsBest(grams, pages, p) && IsBest(grams, pages, q)
    ensures p == q
  {
    hide Score;
    if p < q { LaterIsNotBest(grams, pages, p, q); }
    if q < p { LaterIsNotBest(grams, pages, q, p); }
  }

  lemma LaterIsNotBest(grams: set<string>, pages: seq<string>, p: nat, q: nat)
    requires IsBest(grams, pages, p) && p < q <= |pages|
    ensures !IsBest(grams, pages, q)
  {
    hide Score;
    assert Score(grams, pages[q - 1]) <= Score(grams, pages[p - 1]);
  }

  lemma GramIsWithin(cn: string, g: string)
    requires cn != "" && g in Grams(cn)
    ensures Contains(cn, g)
  {
    var i: nat :| i < (if |cn| - 4 > 1 then |cn| - 4 else 1) && g == GramAt(cn, i);
    assert g <= cn[i..];
  }

  /** All grams occur exactly in the pages of full score. */
  lemma FullScore(grams: set<string>, page: string)
    ensures Score(grams, page) <= |grams|
    ensures Score(grams, page) == |grams| <==> forall g | g in grams :: Contains(Norm(page), g)
  {
    var found := set g | g in grams && Contains(Norm(page), g);
    assert grams == found + (grams - found);
    assert |grams| == |found| + |grams - found|;
    if |found| == |grams| {
      assert grams - found == {};
    } else {
      assert found != grams;
    }
  }

  /** If some page contains the whole normalised chunk, the page returned contains every gram of it. */
  lemma WholeChunkFound(chunk: string, pages: seq<string>, page: nat, k: nat)
    requires Norm(chunk) != "" && IsBest(Grams(Norm(chunk)), pages, page)
    requires k < |pages| && Contains(Norm(pages[k]), Norm(chunk))
    ensures forall g | g in Grams(Norm(chunk)) :: Contains(Norm(pages[page - 1]), g)
  {
    hide Grams, Norm, Contains, Score;
    var grams := Grams(Norm(chunk));
    forall g | g in grams ensures Contains(Norm(pages[k]), g) {
      GramIsWithin(Norm(chunk), g);
      ContainsTransitive(g, Norm(chunk), Norm(pages[k]));
    }
    FullScore(grams, pages[k]);
    FullScore(grams, pages[page - 1]);
  }

  // ---------------------------------------------------------------- the cache

  const CAPACITY := 64

  datatype Reply = Reply(pageCount: int, texts: seq<string>)

  function Without(order: seq<string>, h: string): (out: seq<string>)
    ensures |out| <= |order| && (forall x :: x in out <==> x in order && x != h)
    ensures h !in order ==> out == order
  {
    if order == [] then []
    else
      var before, last := Without(order[..|order| - 1], h), order[|order| - 1];
      assert order == order[..|order| - 1] + [last];
      if last == h then before else before + [last]
  }

  /** The ordered dict, least recently used key first. */
  datatype State = State(order: seq<string>, replies: map<string, Reply>) {
    ghost predicate Sound() { Distinct(order) && forall h :: h in order <==> h in replies }

    ghost predicate Valid() { Sound() && |order| <= CAPACITY }

    function Touch(h: string): State { this.(order := Without(order, h) + [h]) }

    function Put(h: string, out: Reply): State { Touch(h).(replies := replies[h := out]) }

    function Trim(): State
      decreases |order|
    {
      if |order| > CAPACITY then State(order[1..], replies - {order[0]}).Trim() else this
    }
  }

  const EMPTY := State([], map[])

  class Cache {
    var order: seq<string>
    var replies: map<string, Reply>

    constructor ()
      ensures Value() == EMPTY
    {
      order, replies := [], map[];
    }

    function Value(): State
      reads this
    {
      State(order, replies)
    }

    /** The part of `pages_text` before its first await: a hit is answered, a miss starts a fetch. */
    method Lookup(h: string) returns (answer: Option<Reply>)
      requires Value().Valid()
      modifies this
      ensures Value() == if h in old(replies) then old(Value()).Touch(h) else old(Value())
      ensures answer == if h in old(replies) then Some(old(replies)[h]) else None
    {
      if h !in replies { return None; }
      order := Without(order, h) + [h];
      return Some(replies[h]);
    }

    /** The part after the reply arrived; other requests may have run in between. */
    method Fetched(h: string, out: Reply) returns (answer: Reply)
      modifies this
      ensures Value() == old(Value()).Put(h, out).Trim()
      ensures answer == out
    {
      replies := replies[h := out];
      order := Without(order, h) + [h];
      while |order| > CAPACITY
        invariant Value().Trim() == old(Value()).Put(h, out).Trim()
        decreases |order|
      {
        replies := replies - {order[0]};
        order := order[1..];
      }
      answer := out;
    }
  }

  // ---------------------------------------------------------------- whole runs

  datatype Event = Asked(h: string) | Arrived(h: string, out: Reply)

  function Step(st: State, e: Event): State {
    match e
    case Asked(h) => if h in st.replies then st.Touch(h) else st
    case Arrived(h, out) => st.Put(h, out).Trim()
  }

  function Run(events: seq<Event>): State {
    if events == [] then EMPTY else Step(Run(events[..|events| - 1]), events[|events| - 1])
  }

  /** The hashes used: on every hit and on every arrival. */
  function Uses(events: seq<Event>): seq<string> {
    if events == [] then []
    else
      var before := events[..|events| - 1];
      match events[|events| - 1]
      case Asked(h) => if h in Run(before).replies then Uses(before) + [h] else Uses(before)
      case Arrived(h, _) => Uses(before) + [h]
  }

  /** All hashes ever used, in the order of their last use. */
  function Recency(uses: seq<string>): seq<string> {
    if uses == [] then [] else Without(Recency(uses[..|uses| - 1]), uses[|uses| - 1]) + [uses[|uses| - 1]]
  }

  function LastOnes(s: seq<string>): seq<string> { if |s| <= CAPACITY then s else s[|s| - CAPACITY..] }

  function LatestReply(events: seq<Event>, h: string): Option<Reply> {
    if events == [] then None
    else
      var e := events[|events| - 1];
      if e.Arrived? && e.h == h then Some(e.out) else LatestReply(events[..|events| - 1], h)
  }

  lemma WithoutSnoc(s: seq<string>, x: string, h: string)
    ensures Without(s + [x], h) == if x == h then Without(s, h) else Without(s, h) + [x]
  {
    assert (s + [x])[..|s|] == s;
  }

  lemma WithoutNone(h: string)
    ensures Without([], h) == []
  {}

  lemma {:induction false} WithoutConcat(a: seq<string>, b: seq<string>, h: string)
    ensures Without(a + b, h) == Without(a, h) + Without(b, h)
  {
    hide Without;
    if b == [] {
      WithoutNone(h);
      assert a + b == a;
    } else {
      var init, last := b[..|b| - 1], b[|b| - 1];
      WithoutConcat(a, init, h);
      WithoutSnoc(a + init, last, h);
      WithoutSnoc(init, last, h);
      assert a + b == (a + init) + [last] && b == init + [last];
      Associative(Without(a, h), Without(init, h), last);
    }
  }

  lemma Associative(a: seq<string>, b: seq<string>, x: string)
    ensures (a + b) + [x] == a + (b + [x])
  {}

  lemma {:induction false} WithoutDistinct(s: seq<string>, h: string)
    requires Distinct(s)
    ensures Distinct(Without(s, h)) && |Without(s, h)| == if h in s then |s| - 1 else |s|
  {
    if s != [] {
      var n := |s| - 1;
      WithoutDistinct(s[..n], h);
      assert s == s[..n] + [s[n]];
      assert s[n] !in s[..n];
    }
  }

  lemma {:induction false} RecencyDistinct(uses: seq<string>)
    ensures Distinct(Recency(uses))
  {
    if uses != [] {
      var n := |uses| - 1;
      RecencyDistinct(uses[..n]);
      WithoutDistinct(Recency(uses[..n]), uses[n]);
    }
  }

  lemma LastOnesConcat(a: seq<string>, s: seq<string>)
    requires (a == [] || CAPACITY <= |s|)
    ensures LastOnes(a + s) == LastOnes(s)
  {
    if a == [] {
      assert a + s == s;
    } else {
      assert (a + s)[|a + s| - CAPACITY..] == s[|s| - CAPACITY..];
    }
  }

  /** Keeping only the last ones before moving a key to the end, or after, makes no difference. */
  lemma WindowMoves(full: seq<string>, h: string)
    requires Distinct(full)
    ensures LastOnes(Without(full, h) + [h]) == LastOnes(Without(LastOnes(full), h) + [h])
  {
    hide Without;
    var order := LastOnes(full);
    var pre := full[..|full| - |order|];
    assert full == pre + order;
    WithoutConcat(pre, order, h);
    WithoutDistinct(order, h);
    assert pre != [] ==> |order| == CAPACITY;
    assert h in order ==> h !in pre;
    Associative(Without(pre, h), Without(order, h), h);
    hide Distinct;
    LastOnesConcat(Without(pre, h), Without(order, h) + [h]);
  }

  lemma MovesAreSound(st: State, h: string, out: Reply)
    requires st.Sound()
    ensures st.Put(h, out).Sound()
    ensures h in st.replies ==> st.Touch(h).Sound() && |st.Touch(h).order| == |st.order|
  {
    WithoutDistinct(st.order, h);
    DistinctSnoc(Without(st.order, h), h);
    hide Without, Distinct;
    assert forall x :: x in st.Touch(h).order <==> x in st.order || x == h;
  }

  lemma DistinctSnoc(s: seq<string>, h: string)
    requires Distinct(s) && h !in s
    ensures Distinct(s + [h])
  {}

  lemma {:induction false} TrimKeepsLast(st: State)
    requires st.Sound()
    ensures st.Trim().Sound() && st.Trim().order == LastOnes(st.order)
    ensures forall h | h in st.Trim().replies :: h in st.replies && st.Trim().replies[h] == st.replies[h]
    decreases |st.order|
  {
    if |st.order| > CAPACITY {
      var next := State(st.order[1..], st.replies - {st.order[0]});
      assert st.order == [st.order[0]] + st.order[1..];
      assert st.order[0] !in st.order[1..];
      TrimKeepsLast(next);
      LastOnesConcat([st.order[0]], st.order[1..]);
    }
  }

  lemma LastSixtyFour(s: seq<string>)
    ensures LastOnes(s) == if |s| <= 64 then s else s[|s| - 64..]
  {}

  /** The cache never holds more than 64 replies; it holds the hashes used last, in the order of their last use;
      and what it holds for a hash is the latest reply that arrived for that hash. */
  lemma RunIsLeastRecentlyUsed(events: seq<Event>)
    ensures Run(events).Valid()
    ensures var used := Recency(Uses(events)); Run(events).order == if |used| <= 64 then used else used[|used| - 64..]
    ensures forall h | h in Run(events).replies :: LatestReply(events, h) == Some(Run(events).replies[h])
  {
    hide State.Valid, Recency, Run, Uses;
    RunKeepsLast(events);
    LastSixtyFour(Recency(Uses(events)));
  }

  lemma {:induction false} RunKeepsLast(events: seq<Event>)
    ensures Run(events).Valid()
    ensures Run(events).order == LastOnes(Recency(Uses(events)))
    ensures forall h | h in Run(events).replies :: LatestReply(events, h) == Some(Run(events).replies[h])
  {
    hide State.Valid, Recency, LastOnes, Without, State.Touch, State.Put, State.Trim;
    if events == [] {
      EmptyIsValid();
    } else {
      var n := |events| - 1;
      RunKeepsLast(events[..n]);
      var st, uses := Run(events[..n]), Uses(events[..n]);
      match events[n]
      case Asked(h) =>
        if h in st.replies { HitKeeps(st, uses, h); }
      case Arrived(h, out) => ArrivalKeeps(st, uses, h, out);
    }
  }

  lemma EmptyIsValid()
    ensures EMPTY.Valid() && LastOnes(Recency([])) == []
  {}

  lemma HitKeeps(st: State, uses: seq<string>, h: string)
    requires st.Valid() && st.order == LastOnes(Recency(uses)) && h in st.replies
    ensures st.Touch(h).Valid() && st.Touch(h).order == LastOnes(Recency(uses + [h]))
    ensures st.Touch(h).replies == st.replies
  {
    hide Recency, Without, LastOnes, State.Sound;
    UseOnceMore(uses, h);
    MovesAreSound(st, h, st.replies[h]);
    WithinCapacity(st.Touch(h).order);
  }

  lemma ArrivalKeeps(st: State, uses: seq<string>, h: string, out: Reply)
    requires st.Valid() && st.order == LastOnes(Recency(uses))
    ensures var next := st.Put(h, out).Trim();
            && next.Valid() && next.order == LastOnes(Recency(uses + [h]))
            && h in next.replies && next.replies[h] == out
            && forall x | x in next.replies :: x == h || (x in st.replies && next.replies[x] == st.replies[x])
  {
    hide Recency, Without, LastOnes, State.Sound, State.Trim;
    UseOnceMore(uses, h);
    MovesAreSound(st, h, out);
    var put := st.Put(h, out);
    TrimKeepsLast(put);
    LastIsKept(Without(st.order, h), h);
    WithinCapacity(put.order);
    KeysAgree(put.Trim(), h);
  }

  lemma KeysAgree(st: State, h: string)
    requires st.Sound()
    ensures h in st.order <==> h in st.replies
  {}

  lemma LastIsKept(s: seq<string>, h: string)
    ensures h in LastOnes(s + [h])
  {
    var t := LastOnes(s + [h]);
    assert t[|t| - 1] == h;
  }

  lemma UseOnceMore(uses: seq<string>, h: string)
    ensures LastOnes(Recency(uses + [h])) == LastOnes(Without(LastOnes(Recency(uses)), h) + [h])
  {
    RecencyDistinct(uses);
    WindowMoves(Recency(uses), h);
    assert (uses + [h])[..|uses|] == uses;
  }

  lemma WithinCapacity(s: seq<string>)
    ensures |s| <= CAPACITY ==> LastOnes(s) == s
    ensures |LastOnes(s)| <= CAPACITY
  {}
}
