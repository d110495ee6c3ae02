/** The page window over two sources (backend/app/annotations/service.py).

    The images of a folder have two parts: those the database knows, and the image objects of the store that
    it does not know. A page is cut out of the two without building the whole list.

    The second part is filtered from a listing of the store; the listing and Python's `str.lower` are
    parameters. */
module ListWindow {
  import opened Text
  import opened Wrappers
  import Sorting
  import Storage

  // ---------------------------------------------------------------- one page

  /** What a window shows of a list: the part of it that exists. */
  function Clip<T>(s: seq<T>, lo: int, hi: int): seq<T> {
    var from, to := Max(lo, 0), Min(hi, |s|);
    if from < to then s[from..to] else []
  }

  /** The page of the virtual list; without a page size, all of it. */
  function Page<T>(s: seq<T>, page: int, pageSize: int): seq<T> {
    if pageSize > 0 then Clip(s, (page - 1) * pageSize, page * pageSize) else s
  }

  /** The windowing of `list_images`: a query with offset and limit, then a slice of the objects. */
  method ListImages<T>(db: seq<T>, objects: seq<T>, page: int, pageSize: int) returns (items: seq<T>, total: nat)
    ensures items == Page(db + objects, page, pageSize)
    ensures total == |db + objects|
  {
    var totalDb := |db|;
    total := totalDb + |objects|;
    var winStart := if pageSize > 0 then (page - 1) * pageSize else 0;
    var winEnd := winStart + if pageSize > 0 then pageSize else total;
    WindowEnd(page, pageSize);
    items := [];
    var dbLo, dbHi := Max(winStart, 0), Min(winEnd, totalDb);
    if dbHi > dbLo { items := db[dbLo..dbLo + (dbHi - dbLo)]; }
    var objLo, objHi := Max(winStart - totalDb, 0), Min(winEnd - totalDb, |objects|);
    if objHi > objLo { items := items + objects[objLo..objHi]; }
    hide Clip, Max, Min;
    TwoParts(db, objects, winStart, winEnd);
    ClipIs(db, winStart, winEnd);
    ClipIs(objects, winStart - totalDb, winEnd - totalDb);
    WholeClip(db + objects);
  }

  lemma ClipIs<T>(s: seq<T>, lo: int, hi: int)
    ensures var from, to := Max(lo, 0), Min(hi, |s|);
            0 <= from && to <= |s| && Clip(s, lo, hi) == if to > from then s[from..to] else []
  {}

  lemma WholeClip<T>(s: seq<T>)
    ensures Clip(s, 0, |s|) == s
  {}

  lemma WindowEnd(page: int, pageSize: int)
    ensures (page - 1) * pageSize + pageSize == page * pageSize
  {}

  /** A window over a concatenation is the window over the first part followed by the shifted one over the second. */
  lemma TwoParts<T>(a: seq<T>, b: seq<T>, lo: int, hi: int)
    requires lo <= hi
    ensures Clip(a + b, lo, hi) == Clip(a, lo, hi) + Clip(b, lo - |a|, hi - |a|)
  {
    var all := Clip(a + b, lo, hi);
    var parts := Clip(a, lo, hi) + Clip(b, lo - |a|, hi - |a|);
    assert |all| == |parts|;
    forall i | 0 <= i < |all| ensures all[i] == parts[i] {}
  }

  // ---------------------------------------------------------------- all pages

  function Pages<T>(s: seq<T>, n: nat, pageSize: int): seq<T> {
    if n == 0 then [] else Pages(s, n - 1, pageSize) + Page(s, n, pageSize)
  }

  /** The first n pages, put together, are the beginning of the list. */
  lemma {:induction false} PagesArePrefix<T>(s: seq<T>, n: nat, pageSize: nat)
    requires 0 < pageSize
    ensures Pages(s, n, pageSize) == s[..Min(n * pageSize, |s|)]
  {
    if n != 0 {
      PagesArePrefix(s, n - 1, pageSize);
      var lo, hi := (n - 1) * pageSize, n * pageSize;
      WindowEnd(n, pageSize);
      assert 0 <= lo;
      assert s[..Min(lo, |s|)] + Clip(s, lo, hi) == s[..Min(hi, |s|)];
    }
  }

  /** With enough pages nothing is lost or repeated. */
  lemma AllPages<T>(db: seq<T>, objects: seq<T>, n: nat, pageSize: nat)
    requires 0 < pageSize
    ensures Pages(db + objects, n, pageSize) == db + objects <==> |db + objects| <= n * pageSize
  {
    PagesArePrefix(db + objects, n, pageSize);
    assert |db + objects| <= n * pageSize ==> (db + objects)[..|db + objects|] == db + objects;
  }

  /** The item at position k of the list is on page k / size + 1, and on no other page of all integers. */
  lemma ItemIsOnOnePage<T>(s: seq<T>, k: nat, page: int, pageSize: nat)
    requires 0 < pageSize && k < |s|
    ensures (page - 1) * pageSize <= k < page * pageSize <==> page == k / pageSize + 1
    ensures page == k / pageSize + 1 ==> k % pageSize < |Page(s, page, pageSize)| && Page(s, page, pageSize)[k % pageSize] == s[k]
  {
    var q := k / pageSize;
    DivMod(k, pageSize);
    WindowEnd(page, pageSize);
    WindowEnd(q + 1, pageSize);
    if page <= q {
      Monotone(page, q, pageSize);
    } else if q + 1 < page {
      Monotone(q + 1, page - 1, pageSize);
    } else {
      ClipAt(s, (page - 1) * pageSize, page * pageSize, k);
    }
  }

  lemma DivMod(k: nat, size: nat)
    requires 0 < size
    ensures k == k / size * size + k % size && 0 <= k % size < size && 0 <= k / size * size
  {}

  lemma ClipAt<T>(s: seq<T>, lo: int, hi: int, k: int)
    requires 0 <= lo <= k < hi && k < |s|
    ensures k - lo < |Clip(s, lo, hi)| && Clip(s, lo, hi)[k - lo] == s[k]
  {}

  lemma Monotone(a: int, b: int, c: nat)
    requires a <= b
    ensures a * c <= b * c
  {}

  // ---------------------------------------------------------------- rows created at the same time

  ghost predicate AllDifferent<T>(s: seq<T>) { forall i, j | 0 <= i < j < |s| :: s[i] != s[j] }

  ghost function Elements<T>(s: seq<T>): set<T> { set x | x in s }

  lemma {:induction false} Size<T>(s: seq<T>)
    requires AllDifferent(s)
    ensures |Elements(s)| == |s|
  {
    if s != [] {
      var n := |s| - 1;
      Size(s[..n]);
      assert s == s[..n] + [s[n]];
      assert s[n] !in s[..n];
      assert Elements(s) == Elements(s[..n]) + {s[n]};
    }
  }

  lemma {:induction false} CountOfDifferent<T>(s: seq<T>)
    ensures AllDifferent(s) <==> forall x :: multiset(s)[x] <= 1
  {
    if s != [] {
      var n := |s| - 1;
      CountOfDifferent(s[..n]);
      assert s == s[..n] + [s[n]];
      assert multiset(s)[s[n]] == multiset(s[..n])[s[n]] + 1;
      if AllDifferent(s) {
        assert s[n] !in s[..n];
      } else if AllDifferent(s[..n]) {
        var i :| 0 <= i < n && s[i] == s[n];
        assert s[..n][i] in multiset(s[..n]);
      } else {
        var x :| multiset(s[..n])[x] > 1;
        assert multiset(s)[x] > 1;
      }
    }
  }

  lemma SameElements<T>(a: seq<T>, b: seq<T>)
    requires AllDifferent(a) && multiset(b) == multiset(a)
    ensures AllDifferent(b) && Elements(b) == Elements(a) && |b| == |a|
  {
    CountOfDifferent(a);
    CountOfDifferent(b);
    assert forall x :: x in a <==> x in multiset(a);
    assert forall x :: x in b <==> x in multiset(b);
    assert |multiset(a)| == |a| && |multiset(b)| == |b|;
  }

  /** The orders in which the database may return the rows: it sorts by creation time only. */
  ghost predicate Admissible<T(!new)>(rows: seq<T>, order: seq<T>, leq: (T, T) -> bool) {
    Sorting.Ordered(order, leq) && multiset(order) == multiset(rows)
  }

  /** Between the k-th row and the one before it the creation time changes. */
  ghost predicate CutAt<T>(rows: seq<T>, leq: (T, T) -> bool, k: nat) {
    0 < k < |rows| ==> !leq(rows[k], rows[k - 1])
  }

  /** An ordered list begins with what is not above `p`. */
  lemma {:induction false} Boundary<T(!new)>(s: seq<T>, leq: (T, T) -> bool, p: T) returns (j: nat)
    requires Sorting.IsPreorder(leq) && Sorting.Ordered(s, leq)
    ensures j <= |s| && (forall i | 0 <= i < j :: leq(s[i], p)) && forall i | j <= i < |s| :: !leq(s[i], p)
  {
    if s == [] || leq(s[|s| - 1], p) {
      j := |s|;
      assert forall i | 0 <= i < |s| - 1 :: leq(s[i], s[|s| - 1]);
    } else {
      j := Boundary(s[..|s| - 1], leq, p);
    }
  }

  lemma PrefixIsFixed<T(!new)>(rows: seq<T>, order: seq<T>, leq: (T, T) -> bool, k: nat)
    requires Sorting.IsPreorder(leq) && AllDifferent(rows) && Admissible(rows, rows, leq) && Admissible(rows, order, leq)
    requires k <= |rows| && CutAt(rows, leq, k)
    ensures |order| == |rows| && Elements(order[..k]) == Elements(rows[..k])
  {
    SameElements(rows, order);
    assert rows[..|rows|] == rows && order[..|order|] == order;
    if 0 < k < |rows| {
      var p := rows[k - 1];
      var i := Boundary(rows, leq, p);
      var j := Boundary(order, leq, p);
      assert i == k;
      LowerPart(rows, order, leq, p, i, j);
      Size(rows[..i]);
      Size(order[..j]);
    }
  }

  lemma LowerPart<T(!new)>(a: seq<T>, b: seq<T>, leq: (T, T) -> bool, p: T, i: nat, j: nat)
    requires Elements(a) == Elements(b) && i <= |a| && j <= |b|
    requires (forall n | 0 <= n < i :: leq(a[n], p)) && forall n | i <= n < |a| :: !leq(a[n], p)
    requires (forall n | 0 <= n < j :: leq(b[n], p)) && forall n | j <= n < |b| :: !leq(b[n], p)
    ensures Elements(a[..i]) == Elements(b[..j])
  {
    assert forall x :: x in a[..i] <==> x in Elements(a) && leq(x, p);
    assert forall x :: x in b[..j] <==> x in Elements(b) && leq(x, p);
  }

  /** A window has the same rows in whichever admissible order they come if and only if neither of its ends falls
      between rows created at the same time. */
  lemma WindowIsStable<T(!new)>(rows: seq<T>, leq: (T, T) -> bool, lo: nat, hi: nat)
    requires Sorting.IsPreorder(leq) && AllDifferent(rows) && Sorting.Ordered(rows, leq) && lo < hi && lo < |rows|
    ensures (forall order | Admissible(rows, order, leq) :: Elements(Clip(order, lo, hi)) == Elements(Clip(rows, lo, hi)))
       <==> CutAt(rows, leq, lo) && CutAt(rows, leq, hi)
  {
    hide Elements, Sorting.IsPreorder, Sorting.Ordered, AllDifferent;
    if CutAt(rows, leq, lo) && CutAt(rows, leq, hi) {
      forall order | Admissible(rows, order, leq) ensures Elements(Clip(order, lo, hi)) == Elements(Clip(rows, lo, hi)) {
        var to := Min(hi, |rows|);
        PrefixIsFixed(rows, order, leq, lo);
        PrefixIsFixed(rows, order, leq, to);
        SameElements(rows, order);
        Between(rows, lo, to);
        Between(order, lo, to);
      }
    } else {
      var k := if CutAt(rows, leq, lo) then hi else lo;
      var order := Swapped(rows, k);
      SwapIsAdmissible(rows, leq, k);
      SwapChangesWindow(rows, lo, hi, k);
      assert Admissible(rows, order, leq);
    }
  }

  lemma Between<T>(s: seq<T>, lo: nat, hi: nat)
    requires AllDifferent(s) && lo <= hi <= |s|
    ensures Elements(s[lo..hi]) == Elements(s[..hi]) - Elements(s[..lo])
  {
    assert s[..hi] == s[..lo] + s[lo..hi];
    forall x | x in s[lo..hi] ensures x !in s[..lo] {}
  }

  function Swapped<T>(s: seq<T>, k: nat): seq<T>
    requires 0 < k < |s|
  {
    s[k - 1 := s[k]][k := s[k - 1]]
  }

  lemma SwapIsAdmissible<T(!new)>(rows: seq<T>, leq: (T, T) -> bool, k: nat)
    requires Sorting.IsPreorder(leq) && Sorting.Ordered(rows, leq) && 0 < k < |rows| && leq(rows[k], rows[k - 1])
    ensures Admissible(rows, Swapped(rows, k), leq)
  {
    var order := Swapped(rows, k);
    forall i, j | 0 <= i < j < |order| ensures leq(order[i], order[j]) {}
    assert multiset(order) == multiset(rows);
  }

  lemma SwapChangesWindow<T>(rows: seq<T>, lo: nat, hi: nat, k: nat)
    requires AllDifferent(rows) && 0 < k < |rows| && lo < hi && (k == lo || k == hi)
    ensures Elements(Clip(Swapped(rows, k), lo, hi)) != Elements(Clip(rows, lo, hi))
  {
    var order, x := Swapped(rows, k), if k == lo then rows[lo] else rows[hi - 1];
    var shown := Clip(rows, lo, hi);
    assert x == if k == lo then shown[0] else shown[hi - 1 - lo];
    assert x in Elements(shown);
    forall i | 0 <= i < |Clip(order, lo, hi)| ensures Clip(order, lo, hi)[i] != x {
      assert Clip(order, lo, hi)[i] == order[lo + i];
    }
  }

  // ---------------------------------------------------------------- the object half

  const IMAGE_EXTENSIONS := [".png", ".jpg", ".jpeg", ".webp", ".bmp", ".tif", ".tiff"]
  const THUMBNAIL := "_thumbnail."

  predicate EndsWith(s: string, suffix: string) { |suffix| <= |s| && s[|s| - |suffix|..] == suffix }

  /** What the listing is asked for, with Python's `str.lower` as a parameter. */
  datatype Query = Query(folder: Option<string>, search: Option<string>, lower: string -> string) {
    function Norm(): string { Storage.NormFolder(folder) }

    function Segment(): string { if Norm() == "" then "" else Norm() + "/" }

    /** Object keys of the images the database has in this folder. */
    function Registered(names: set<string>): set<string> { set n | n in names :: Storage.BuildKey(Some(Norm()), n) }

    predicate IsImage(rest: string) {
      var low := lower(rest);
      !Contains(low, THUMBNAIL) && exists e :: e in IMAGE_EXTENSIONS && EndsWith(low, e)
    }

    predicate Found(rest: string) {
      search.Some? && search.value != "" ==> Contains(lower(rest), lower(search.value))
    }

    /** A key that is listed as a read-only item. */
    predicate Shown(key: string, names: set<string>) {
      Segment() <= key &&
      var rest := key[|Segment()|..];
      && rest != "" && '/' !in rest && IsImage(rest) && key !in Registered(names) && Found(rest)
    }
  }

  // ---------------------------------------------------------------- the two searches

  lemma {:induction false} LikeAnywhere(t: string, p: string)
    ensures Storage.Like(t, "%" + p) <==> exists i :: 0 <= i <= |t| && Storage.Like(t[i..], p)
  {
    assert ("%" + p)[1..] == p && t[0..] == t;
    if t != "" {
      LikeAnywhere(t[1..], p);
      assert forall i | 0 < i <= |t| :: t[i..] == t[1..][i - 1..];
      if Storage.Like(t[1..], "%" + p) {
        var i :| 0 <= i <= |t[1..]| && Storage.Like(t[1..][i..], p);
        assert t[i + 1..] == t[1..][i..];
      }
    }
  }

  /** A text that the database finds and that is too short, or too different, to contain what is searched for. */
  lemma {:induction false} FoundInstance(needle: string)
    ensures var t := Storage.Instance(needle + "%", "");
            Storage.Like(t, needle + "%") && |t| <= |needle| && (t == needle ==> Storage.Plain(needle))
    decreases |needle|
  {
    var p := needle + "%";
    if needle == "" {
      assert p == "%" && "%"[1..] == "";
    } else {
      assert p[1..] == needle[1..] + "%" && needle == [needle[0]] + needle[1..];
      if needle[0] == '\\' {
        if |needle| == 1 {
          assert p == "\\%" && p[2..] == "";
        } else {
          assert p[2..] == needle[2..] + "%";
          FoundInstance(needle[2..]);
        }
      } else {
        FoundInstance(needle[1..]);
        var rest := Storage.Instance(needle[1..] + "%", "");
        assert "" + rest == rest && ("x" + rest)[1..] == rest && ([needle[0]] + rest)[1..] == rest;
      }
    }
  }

  /** The database searches with `ilike` between percent signs, the object half for a substring. On lower-cased texts
      both find the same if and only if the search text has no wildcard and no escape character. */
  lemma SearchesAgree(needle: string)
    ensures (forall t :: Storage.Like(t, "%" + needle + "%") <==> Contains(t, needle)) <==> Storage.Plain(needle)
  {
    assert "%" + needle + "%" == "%" + (needle + "%");
    if Storage.Plain(needle) {
      forall t ensures Storage.Like(t, "%" + needle + "%") <==> Contains(t, needle) {
        LikeAnywhere(t, needle + "%");
        forall i | 0 <= i <= |t| ensures Storage.Like(t[i..], needle + "%") <==> needle <= t[i..] {
          Storage.PlainLike(t[i..], needle);
        }
      }
    } else {
      var t := Storage.Instance(needle + "%", "");
      FoundInstance(needle);
      LikeAnywhere(t, needle + "%");
      assert t[0..] == t;
      assert Storage.Like(t, "%" + needle + "%");
      assert !Contains(t, needle);
    }
  }

  /** What is listed, in plain terms: files directly in the folder whose lower-cased name ends like an image and is no
      thumbnail, that no row of the folder is stored under, and that are found. */
  lemma ShownMeans(q: Query, key: string, names: set<string>)
    ensures var folder := Storage.NormFolder(q.folder);
            q.Shown(key, names) <==> exists rest ::
              && key == (if folder == "" then rest else folder + "/" + rest) && rest != "" && '/' !in rest
              && (!exists a, b :: q.lower(rest) == a + "_thumbnail." + b)
              && (exists a :: q.lower(rest) in {a + ".png", a + ".jpg", a + ".jpeg", a + ".webp", a + ".bmp", a + ".tif", a + ".tiff"})
              && (forall n | n in names :: key != Storage.BuildKey(Some(folder), n))
              && q.Found(rest)
  {
    var folder := Storage.NormFolder(q.folder);
    var seg := q.Segment();
    hide Storage.NormFolder, Storage.BuildKey, Query.Found;
    assert folder != "" ==> forall rest :: folder + "/" + rest == seg + rest;
    forall rest: string ensures q.IsImage(rest) <==>
      && (!exists a, b :: q.lower(rest) == a + "_thumbnail." + b)
      && (exists a :: q.lower(rest) in {a + ".png", a + ".jpg", a + ".jpeg", a + ".webp", a + ".bmp", a + ".tif", a + ".tiff"})
    {
      ImageMeans(q.lower(rest));
    }
    hide Query.IsImage;
    if q.Shown(key, names) {
      var rest := key[|seg|..];
      assert key == seg + rest;
    }
  }

  lemma ImageMeans(low: string)
    ensures Contains(low, THUMBNAIL) <==> exists a, b :: low == a + "_thumbnail." + b
    ensures (exists e :: e in IMAGE_EXTENSIONS && EndsWith(low, e)) <==>
              exists a :: low in {a + ".png", a + ".jpg", a + ".jpeg", a + ".webp", a + ".bmp", a + ".tif", a + ".tiff"}
  {
    ContainsMeans(low, "_thumbnail.");
    hide Contains;
    EndingMeans(low);
  }

  lemma ContainsMeans(t: string, part: string)
    ensures Contains(t, part) <==> exists a, b :: t == a + part + b
  {
    if Contains(t, part) {
      var i :| 0 <= i <= |t| && part <= t[i..];
      assert t == t[..i] + part + t[i + |part|..];
    }
    forall a, b | t == a + part + b ensures Contains(t, part) { assert part <= t[|a|..]; }
  }

  lemma EndingMeans(low: string)
    ensures (exists e :: e in IMAGE_EXTENSIONS && EndsWith(low, e)) <==>
              exists a :: low in {a + ".png", a + ".jpg", a + ".jpeg", a + ".webp", a + ".bmp", a + ".tif", a + ".tiff"}
  {
    if e :| e in IMAGE_EXTENSIONS && EndsWith(low, e) {
      var a := low[..|low| - |e|];
      assert low == a + e;
      hide EndsWith;
    }
    if a :| low in {a + ".png", a + ".jpg", a + ".jpeg", a + ".webp", a + ".bmp", a + ".tif", a + ".tiff"} {
      var e := low[|a|..];
      assert low == a + e && e in IMAGE_EXTENSIONS;
      EndsMeans(low, e);
    }
  }

  lemma EndsMeans(low: string, e: string)
    ensures EndsWith(low, e) <==> exists a :: low == a + e
  {
    if EndsWith(low, e) { assert low == low[..|low| - |e|] + e; }
  }

  /** A file is found when its name, both in lower case, contains the search text. */
  lemma FoundMeans(q: Query, rest: string)
    ensures q.Found(rest) <==>
              || q.search.None? || q.search.value == ""
              || exists a, b :: q.lower(rest) == a + q.lower(q.search.value) + b
  {
    if q.search.Some? { ContainsMeans(q.lower(rest), q.lower(q.search.value)); }
  }

  datatype Item = Item(key: string, filename: string)

  /** Python's order on strings. */
  predicate StringLeq(a: string, b: string) {
    a == "" || (b != "" && (a[0] < b[0] || (a[0] == b[0] && StringLeq(a[1..], b[1..]))))
  }

  /** Lexicographic order: a beginning of the other, or smaller at the first difference. */
  lemma {:induction false} StringLeqMeans(a: string, b: string)
    ensures StringLeq(a, b) <==> a <= b || exists i :: 0 <= i < |a| && i < |b| && a[..i] == b[..i] && a[i] < b[i]
  {
    if a != "" && b != "" && a[0] == b[0] {
      var s, t := a[1..], b[1..];
      StringLeqMeans(s, t);
      assert a == [a[0]] + s && b == [a[0]] + t;
      if i :| 0 <= i < |s| && i < |t| && s[..i] == t[..i] && s[i] < t[i] {
        assert a[..i + 1] == [a[0]] + s[..i] && b[..i + 1] == [a[0]] + t[..i];
        assert a[i + 1] < b[i + 1];
      }
      if i :| 0 <= i < |a| && i < |b| && a[..i] == b[..i] && a[i] < b[i] {
        assert s[..i - 1] == a[..i][1..] && t[..i - 1] == b[..i][1..];
        assert s[i - 1] < t[i - 1];
      }
    } else if a != "" && b != "" && a[0] < b[0] {
      assert a[..0] == b[..0];
    } else if a != "" && b != "" {
      assert forall i | 0 < i && i < |a| && i < |b| :: a[..i][0] == a[0] && b[..i][0] == b[0];
    }
  }

  function ByName(): (Item, Item) -> bool { (a: Item, b: Item) => StringLeq(a.filename, b.filename) }

  lemma {:induction false} StringTotal(a: string, b: string)
    ensures StringLeq(a, b) || StringLeq(b, a)
  {
    if a != "" && b != "" { StringTotal(a[1..], b[1..]); }
  }

  lemma {:induction false} StringTransitive(a: string, b: string, c: string)
    requires StringLeq(a, b) && StringLeq(b, c)
    ensures StringLeq(a, c)
  {
    if a != "" && b != "" && c != "" && a[0] == b[0] == c[0] { StringTransitive(a[1..], b[1..], c[1..]); }
  }

  lemma ByNameIsPreorder()
    ensures Sorting.IsPreorder(ByName())
  {
    hide StringLeq;
    forall a: Item, b: Item ensures ByName()(a, b) || ByName()(b, a) { StringTotal(a.filename, b.filename); }
    forall a: Item, b: Item, c: Item | ByName()(a, b) && ByName()(b, c) ensures ByName()(a, c) {
      StringTransitive(a.filename, b.filename, c.filename);
    }
  }

  /** `_folder_object_items`, over the keys listed directly in the folder: exactly the shown keys, by name. */
  method FolderObjectItems(q: Query, keys: seq<string>, names: set<string>) returns (items: seq<Item>)
    requires forall k | k in keys :: q.Segment() <= k
    ensures forall it :: it in items <==> it.key in keys && q.Shown(it.key, names) && it.filename == it.key[|q.Segment()|..]
    ensures Sorting.Ordered(items, ByName())
    ensures AllDifferent(keys) ==> AllDifferent(items)
  {
    hide Storage.NormFolder, Storage.BuildKey, Query.IsImage, Query.Found, Query.Norm, Query.Registered;
    var seg := q.Segment();
    var out: seq<Item> := [];
    for i := 0 to |keys|
      invariant forall it :: it in out <==> it.key in keys[..i] && q.Shown(it.key, names) && it.filename == it.key[|seg|..]
      invariant AllDifferent(keys) ==> AllDifferent(out)
    {
      assert AllDifferent(keys) ==> keys[i] !in keys[..i];
      var key := keys[i];
      assert key in keys && keys[..i + 1] == keys[..i] + [key];
      var rest := key[|seg|..];
      if rest == "" || '/' in rest || !q.IsImage(rest) || key in q.Registered(names) || !q.Found(rest) { continue; }
      out := out + [Item(key, rest)];
    }
    assert keys[..|keys|] == keys;
    hide Query.Shown, ByName, Sorting.IsPreorder;
    ByNameIsPreorder();
    Sorting.SortFacts(out, ByName());
    Sorting.SortMembers(out, ByName());
    items := Sorting.Sort(out, ByName());
    if AllDifferent(out) { SameElements(out, items); }
  }
}
