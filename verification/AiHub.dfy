/** Annotation boxes in the AI-Hub format.

    - export and import (backend/app/annotations/aihub.py)
    - the schema rule for boxes (backend/app/annotations/schemas.py)
    - the clamp before they are saved (backend/app/annotations/router.py) */

module AiHub {
  import opened Wrappers
  import Sorting

  datatype Box = Box(num: int, data: string, x1: int, y1: int, x2: int, y2: int)

  /** An item of the `bbox` list; missing keys are absent, missing coordinate lists empty. */
  datatype Entry = Entry(data: Option<string>, id: Option<int>, xs: seq<int>, ys: seq<int>)

  datatype Json = Str(s: string) | Num(n: int)
  type Block = map<string, Json>
  datatype Meta = Meta(annotation: Block, dataset: Block, images: Block)
  datatype Document = Document(meta: Meta, bbox: seq<Entry>)
  datatype Imported = Imported(meta: Meta, boxes: seq<Box>, width: int, height: int)

  // ---------------------------------------------------------------- one box

  function MinOf(s: seq<int>): (m: int)
    requires s != []
    ensures m in s && forall v | v in s :: m <= v
  {
    assert s == [s[0]] + s[1..];
    if |s| == 1 then s[0] else var r := MinOf(s[1..]); if r < s[0] then r else s[0]
  }

  function MaxOf(s: seq<int>): (m: int)
    requires s != []
    ensures m in s && forall v | v in s :: v <= m
  {
    assert s == [s[0]] + s[1..];
    if |s| == 1 then s[0] else var r := MaxOf(s[1..]); if r > s[0] then r else s[0]
  }

  function ToEntry(b: Box): Entry { Entry(Some(b.data), Some(b.num), [b.x1, b.x1, b.x2, b.x2], [b.y1, b.y2, b.y1, b.y2]) }

  /** The points of an entry are the four corners of its box, column by column. */
  lemma CornersOfEntry(b: Box)
    ensures var e := ToEntry(b);
            && |e.xs| == |e.ys| == 4
            && (e.xs[0], e.ys[0]) == (b.x1, b.y1) && (e.xs[1], e.ys[1]) == (b.x1, b.y2)
            && (e.xs[2], e.ys[2]) == (b.x2, b.y1) && (e.xs[3], e.ys[3]) == (b.x2, b.y2)
            && e.data == Some(b.data) && e.id == Some(b.num)
  {}

  predicate HasCoordinates(e: Entry) { e.xs != [] && e.ys != [] }

  function FromEntry(e: Entry): Box
    requires HasCoordinates(e)
  {
    Box(if e.id.Some? then e.id.value else 0, if e.data.Some? then e.data.value else "",
        MinOf(e.xs), MinOf(e.ys), MaxOf(e.xs), MaxOf(e.ys))
  }

  predicate Normal(b: Box) { b.x1 <= b.x2 && b.y1 <= b.y2 }

  lemma BoxRoundTrip(b: Box)
    ensures HasCoordinates(ToEntry(b))
    ensures var r := FromEntry(ToEntry(b)); Normal(r) && (r == b <==> Normal(b))
    ensures var r := FromEntry(ToEntry(b));
            r.num == b.num && r.data == b.data && {r.x1, r.x2} == {b.x1, b.x2} && {r.y1, r.y2} == {b.y1, b.y2}
  {
    FourCorners(b.x1, b.x1, b.x2, b.x2);
    FourCorners(b.y1, b.y2, b.y1, b.y2);
    hide MinOf, MaxOf;
  }

  lemma FourCorners(a: int, b: int, c: int, d: int)
    ensures var lo := MinOf([a, b, c, d]); lo <= a && lo <= b && lo <= c && lo <= d && (lo == a || lo == b || lo == c || lo == d)
    ensures var hi := MaxOf([a, b, c, d]); a <= hi && b <= hi && c <= hi && d <= hi && (hi == a || hi == b || hi == c || hi == d)
  {
    var s := [a, b, c, d];
    assert s[0] in s && s[1] in s && s[2] in s && s[3] in s;
    assert MinOf(s) in s && MaxOf(s) in s;
  }

  // ---------------------------------------------------------------- export

  predicate BySeq(a: Box, b: Box) { a.num <= b.num }

  function BySeqOrder(): (Box, Box) -> bool { (a, b) => BySeq(a, b) }

  function SortBySeq(boxes: seq<Box>): seq<Box> { Sorting.Sort(boxes, BySeqOrder()) }

  function Entries(boxes: seq<Box>): (out: seq<Entry>)
    ensures |out| == |boxes| && forall i | 0 <= i < |boxes| :: out[i] == ToEntry(boxes[i])
  {
    seq(|boxes|, i requires 0 <= i < |boxes| => ToEntry(boxes[i]))
  }

  /** Python's truth value of an optional JSON value. */
  predicate Truthy(b: Block, key: string) {
    key in b && match b[key] case Str(s) => s != "" case Num(n) => n != 0
  }

  function ExportMeta(meta: Meta, stem: string, datasetId: string, fileType: string, width: int, height: int): Meta {
    var named := if "identifier" in meta.images then meta.images else meta.images["identifier" := Str(stem)];
    Meta(meta.annotation,
         if Truthy(meta.dataset, "identifier") then meta.dataset else meta.dataset["identifier" := Str(datasetId)],
         named["width" := Num(width)]["height" := Num(height)]["type" := Str(fileType)])
  }

  function Export(meta: Meta, stem: string, datasetId: string, fileType: string, width: int, height: int, boxes: seq<Box>)
    : Document
  {
    Document(ExportMeta(meta, stem, datasetId, fileType, width, height), Entries(SortBySeq(boxes)))
  }

  /** `build_export`, given the parts of the file name and the identifier guessed from them. */
  method BuildExport(meta: Meta, stem: string, datasetId: string, fileType: string, width: int, height: int, boxes: seq<Box>)
    returns (doc: Document)
    ensures doc == Export(meta, stem, datasetId, fileType, width, height, boxes)
  {
    var images := meta.images;
    if "identifier" !in images { images := images["identifier" := Str(stem)]; }
    images := images["width" := Num(width)];
    images := images["height" := Num(height)];
    images := images["type" := Str(fileType)];
    var dataset := meta.dataset;
    if !Truthy(dataset, "identifier") { dataset := dataset["identifier" := Str(datasetId)]; }
    doc := Document(Meta(meta.annotation, dataset, images), Entries(SortBySeq(boxes)));
  }

  // ---------------------------------------------------------------- import

  predicate Importable(doc: Document) { forall e | e in doc.bbox :: HasCoordinates(e) }

  function FromEntries(bbox: seq<Entry>): (out: seq<Box>)
    requires forall e | e in bbox :: HasCoordinates(e)
    ensures |out| == |bbox| && forall i | 0 <= i < |bbox| :: out[i] == FromEntry(bbox[i])
  {
    seq(|bbox|, i requires 0 <= i < |bbox| => FromEntry(bbox[i]))
  }

  predicate Numbered(boxes: seq<Box>) {
    && (forall i | 0 <= i < |boxes| :: 0 < boxes[i].num)
    && DistinctNums(boxes)
  }

  predicate DistinctNums(boxes: seq<Box>) { forall i, j | 0 <= i < j < |boxes| :: boxes[i].num != boxes[j].num }

  function Renumber(boxes: seq<Box>): (out: seq<Box>)
    ensures |out| == |boxes| && forall i | 0 <= i < |boxes| :: out[i] == boxes[i].(num := i + 1)
  {
    seq(|boxes|, i requires 0 <= i < |boxes| => boxes[i].(num := i + 1))
  }

  function Size(b: Block, key: string): int { if key in b && b[key].Num? then b[key].n else 0 }

  function Import(doc: Document): Imported
    requires Importable(doc)
  {
    var raw := FromEntries(doc.bbox);
    Imported(doc.meta, if Numbered(raw) then raw else Renumber(raw), Size(doc.meta.images, "width"), Size(doc.meta.images, "height"))
  }

  /** `parse_import`; `None` is the `ValueError` for a box without coordinates. */
  method ParseImport(doc: Document) returns (result: Option<Imported>)
    ensures result == if Importable(doc) then Some(Import(doc)) else None
  {
    var raw: seq<Box> := [];
    for i := 0 to |doc.bbox|
      invariant |raw| == i && forall j | 0 <= j < i :: HasCoordinates(doc.bbox[j]) && raw[j] == FromEntry(doc.bbox[j])
    {
      if !HasCoordinates(doc.bbox[i]) {
        assert doc.bbox[i] in doc.bbox;
        return None;
      }
      raw := raw + [FromEntry(doc.bbox[i])];
    }
    assert raw == FromEntries(doc.bbox);
    raw := Renumbered(raw);
    return Some(Imported(doc.meta, raw, Size(doc.meta.images, "width"), Size(doc.meta.images, "height")));
  }

  /** The ids are kept if they are all positive and different, and otherwise assigned anew. */
  method Renumbered(boxes: seq<Box>) returns (out: seq<Box>)
    ensures out == if Numbered(boxes) then boxes else Renumber(boxes)
  {
    out := boxes;
    CountingDuplicates(boxes);
    if (exists i :: 0 <= i < |boxes| && boxes[i].num <= 0) || |Nums(boxes)| != |boxes| {
      for i := 0 to |boxes|
        invariant |out| == |boxes|
        invariant forall j | 0 <= j < |boxes| :: out[j] == if j < i then boxes[j].(num := j + 1) else boxes[j]
      {
        out := out[i := out[i].(num := i + 1)];
      }
      assert out == Renumber(boxes);
    }
  }

  /** The set of ids. */
  function Nums(boxes: seq<Box>): (nums: set<int>)
    ensures forall k :: k in nums <==> exists i :: 0 <= i < |boxes| && boxes[i].num == k
  {
    set i | 0 <= i < |boxes| :: boxes[i].num
  }

  /** Comparing the number of different ids with the number of boxes detects duplicates. */
  lemma {:induction false} CountingDuplicates(boxes: seq<Box>)
    ensures |Nums(boxes)| == |boxes| <==> DistinctNums(boxes)
    ensures |Nums(boxes)| <= |boxes|
  {
    if boxes != [] {
      var n := |boxes| - 1;
      var init, last := boxes[..n], boxes[n];
      CountingDuplicates(init);
      NumsSnoc(init, last);
      assert boxes == init + [last];
      DistinctSnoc(init, last);
      hide Nums, DistinctNums;
      assert last.num in Nums(init) <==> exists i :: 0 <= i < n && init[i].num == last.num;
    }
  }

  lemma DistinctSnoc(boxes: seq<Box>, b: Box)
    ensures DistinctNums(boxes + [b]) <==> DistinctNums(boxes) && !exists i :: 0 <= i < |boxes| && boxes[i].num == b.num
  {
    var all := boxes + [b];
    assert forall i | 0 <= i < |boxes| :: all[i] == boxes[i];
    if DistinctNums(all) {
      assert forall i | 0 <= i < |boxes| :: all[i].num != all[|boxes|].num;
    }
  }

  lemma NumsSnoc(boxes: seq<Box>, b: Box)
    ensures Nums(boxes + [b]) == Nums(boxes) + {b.num}
  {
    var all := boxes + [b];
    forall k ensures k in Nums(all) <==> k in Nums(boxes) || k == b.num {
      if k in Nums(boxes) {
        var i :| 0 <= i < |boxes| && boxes[i].num == k;
        assert all[i].num == k;
      }
      if k == b.num { assert all[|boxes|].num == k; }
    }
  }

  // ---------------------------------------------------------------- what imports look like

  lemma ImportNumbers(doc: Document)
    requires Importable(doc)
    ensures Numbered(Import(doc).boxes)
  {}

  /** Every import numbers the boxes with different positive ids, keeps their order, number and text, and gives each
      the corners of the smallest upright rectangle around its points. */
  lemma ImportIsProper(doc: Document)
    requires Importable(doc)
    ensures var boxes := Import(doc).boxes;
            && |boxes| == |doc.bbox| && Numbered(boxes)
            && forall i | 0 <= i < |boxes| ::
                 var b, e := boxes[i], doc.bbox[i];
                 && Normal(b) && (e.data.Some? ==> b.data == e.data.value)
                 && (forall x | x in e.xs :: b.x1 <= x <= b.x2) && b.x1 in e.xs && b.x2 in e.xs
                 && (forall y | y in e.ys :: b.y1 <= y <= b.y2) && b.y1 in e.ys && b.y2 in e.ys
  {
    ImportNumbers(doc);
    var boxes := Import(doc).boxes;
    forall i | 0 <= i < |boxes|
      ensures var r := FromEntry(doc.bbox[i]); boxes[i] == r.(num := boxes[i].num) && r.x1 <= r.x2 && r.y1 <= r.y2
    {
      var e := doc.bbox[i];
      assert e in doc.bbox;
      assert MinOf(e.xs) in e.xs && MinOf(e.ys) in e.ys;
    }
  }

  // ---------------------------------------------------------------- round trips

  lemma BySeqIsPreorder()
    ensures Sorting.IsPreorder(BySeqOrder())
  {}

  lemma SortedAreTheSame(boxes: seq<Box>)
    ensures |SortBySeq(boxes)| == |boxes| && multiset(SortBySeq(boxes)) == multiset(boxes)
    ensures forall b :: b in SortBySeq(boxes) <==> b in boxes
    ensures Sorting.Ordered(SortBySeq(boxes), BySeqOrder())
  {
    hide BySeqOrder, Sorting.IsPreorder;
    BySeqIsPreorder();
    Sorting.SortFacts(boxes, BySeqOrder());
    Sorting.SortMembers(boxes, BySeqOrder());
  }

  ghost predicate AllNormal(boxes: seq<Box>) { forall b | b in boxes :: Normal(b) }

  /** Whether ids are positive and different does not depend on the order. */
  lemma NumberedByMembers(a: seq<Box>, b: seq<Box>)
    requires multiset(a) == multiset(b)
    ensures Numbered(a) ==> Numbered(b)
  {
    if Numbered(a) {
      forall i | 0 <= i < |b| ensures 0 < b[i].num {
        assert b[i] in multiset(b);
        assert b[i] in a;
      }
      forall i, j | 0 <= i < j < |b| ensures b[i].num != b[j].num {
        if b[i].num == b[j].num { TwiceInB(a, b, i, j); }
      }
    }
  }

  lemma TwiceInB(a: seq<Box>, b: seq<Box>, i: nat, j: nat)
    requires multiset(a) == multiset(b) && DistinctNums(a) && i < j < |b|
    ensures b[i].num != b[j].num
  {
    assert b[i] in multiset(b) && b[j] in multiset(b);
    assert b[i] in a && b[j] in a;
    if b[i] == b[j] {
      AtMostOnce(a, b[i]);
      AtLeastTwice(b, i, j);
    }
  }

  lemma {:induction false} AtMostOnce(a: seq<Box>, x: Box)
    requires DistinctNums(a)
    ensures multiset(a)[x] <= 1
  {
    if a != [] {
      var n := |a| - 1;
      AtMostOnce(a[..n], x);
      assert a == a[..n] + [a[n]];
      if x == a[n] { assert x !in a[..n]; assert x !in multiset(a[..n]); }
    }
  }

  lemma AtLeastTwice(b: seq<Box>, i: nat, j: nat)
    requires i < j < |b| && b[i] == b[j]
    ensures multiset(b)[b[i]] >= 2
  {
    assert b == b[..j] + b[j..];
    assert b[..j][i] == b[i] && b[j..][0] == b[i];
    assert b[i] in multiset(b[..j]) && b[i] in multiset(b[j..]);
  }

  lemma ExportedIsImportable(meta: Meta, stem: string, datasetId: string, fileType: string, width: int, height: int, boxes: seq<Box>)
    ensures Importable(Export(meta, stem, datasetId, fileType, width, height, boxes))
  {
    var sorted := SortBySeq(boxes);
    hide SortBySeq;
    forall e | e in Entries(sorted) ensures HasCoordinates(e) {
      var i :| 0 <= i < |sorted| && Entries(sorted)[i] == e;
    }
  }

  /** Importing an export gives back the boxes in the order of their ids exactly when every box is normalised and
      the ids are positive and different; it always gives back the size. */
  lemma ImportOfExport(meta: Meta, stem: string, datasetId: string, fileType: string, width: int, height: int, boxes: seq<Box>)
    ensures var doc := Export(meta, stem, datasetId, fileType, width, height, boxes);
            && Importable(doc)
            && Import(doc).width == width && Import(doc).height == height
            && Import(doc).meta.annotation == meta.annotation
            && (Import(doc).boxes == SortBySeq(boxes) <==> AllNormal(boxes) && Numbered(boxes))
  {
    ExportedIsImportable(meta, stem, datasetId, fileType, width, height, boxes);
    var doc := Export(meta, stem, datasetId, fileType, width, height, boxes);
    assert doc.meta == ExportMeta(meta, stem, datasetId, fileType, width, height);
    SizesSurvive(meta, stem, datasetId, fileType, width, height);
    BoxesComeBack(doc, boxes);
  }

  lemma SizesSurvive(meta: Meta, stem: string, datasetId: string, fileType: string, width: int, height: int)
    ensures var m := ExportMeta(meta, stem, datasetId, fileType, width, height);
            Size(m.images, "width") == width && Size(m.images, "height") == height && m.annotation == meta.annotation
  {
    assert |"width"| == 5 && |"height"| == 6 && |"type"| == 4;
  }

  lemma BoxesComeBack(doc: Document, boxes: seq<Box>)
    requires doc.bbox == Entries(SortBySeq(boxes)) && Importable(doc)
    ensures Import(doc).boxes == SortBySeq(boxes) <==> AllNormal(boxes) && Numbered(boxes)
  {
    SortedAreTheSame(boxes);
    var sorted := SortBySeq(boxes);
    hide SortBySeq;
    NumberedByMembers(boxes, sorted);
    NumberedByMembers(sorted, boxes);
    ImportNumbers(doc);
    forall i | 0 <= i < |sorted|
      ensures var r := FromEntry(doc.bbox[i]); r.num == sorted[i].num && Normal(r) && (r == sorted[i] <==> Normal(sorted[i]))
      ensures sorted[i] in boxes
    {
      BoxRoundTrip(sorted[i]);
      assert sorted[i] in sorted;
    }
    hide FromEntry, ToEntry;
    var raw := FromEntries(doc.bbox);
    if AllNormal(boxes) && Numbered(boxes) {
      assert raw == sorted;
    } else if Import(doc).boxes == sorted {
      ImportsAreNormal(doc);
    }
  }

  lemma ImportsAreNormal(doc: Document)
    requires Importable(doc)
    ensures AllNormal(Import(doc).boxes)
  {
    ImportIsProper(doc);
  }

  /** Whatever document was imported: exporting the result and importing it again gives the same boxes in the order
      of their ids, and from then on nothing changes any more. */
  lemma FurtherRoundTrips(doc: Document, meta: Meta, stem: string, datasetId: string, fileType: string, width: int, height: int)
    requires Importable(doc)
    ensures var first := Import(doc).boxes;
            var again := Export(meta, stem, datasetId, fileType, width, height, first);
            Importable(again) &&
            var second := Import(again).boxes;
            second == SortBySeq(first) && SortBySeq(second) == second
  {
    var first := Import(doc).boxes;
    ImportNumbers(doc);
    ImportsAreNormal(doc);
    ImportOfExport(meta, stem, datasetId, fileType, width, height, first);
    SortedAreTheSame(first);
    BySeqIsPreorder();
    Sorting.SortKeepsOrdered(SortBySeq(first), BySeqOrder());
  }

  // ---------------------------------------------------------------- what is saved

  /** The schema rule for incoming boxes: corners are swapped into order. */
  /** Which ids an import gives: those of the document if every box has one, all are positive and no two are the same,
      and otherwise one to n in order. */
  lemma ImportedIds(doc: Document)
    requires Importable(doc)
    ensures var boxes := Import(doc).boxes;
            var fine := (forall i | 0 <= i < |doc.bbox| :: doc.bbox[i].id.Some? && doc.bbox[i].id.value > 0)
                        && forall i, j | 0 <= i < j < |doc.bbox| :: doc.bbox[i].id != doc.bbox[j].id;
            && |boxes| == |doc.bbox|
            && forall i | 0 <= i < |boxes| :: boxes[i].num == if fine && doc.bbox[i].id.Some? then doc.bbox[i].id.value else i + 1
  {
    RawIds(doc.bbox);
    hide Numbered, Size, MinOf, MaxOf;
  }

  lemma RawIds(bbox: seq<Entry>)
    requires forall e | e in bbox :: HasCoordinates(e)
    ensures var fine := (forall i | 0 <= i < |bbox| :: bbox[i].id.Some? && bbox[i].id.value > 0)
                        && forall i, j | 0 <= i < j < |bbox| :: bbox[i].id != bbox[j].id;
            fine <==> Numbered(FromEntries(bbox))
    ensures forall i | 0 <= i < |bbox| && bbox[i].id.Some? :: FromEntries(bbox)[i].num == bbox[i].id.value
  {
    hide MinOf, MaxOf;
    var raw := FromEntries(bbox);
    forall i | 0 <= i < |raw| ensures raw[i].num == if bbox[i].id.Some? then bbox[i].id.value else 0 {}
    hide FromEntries, FromEntry;
  }

  /** The boxes of an export stand in the order of their numbers. */
  lemma ExportIsInOrder(meta: Meta, stem: string, datasetId: string, fileType: string, width: int, height: int, boxes: seq<Box>)
    ensures var doc := Export(meta, stem, datasetId, fileType, width, height, boxes);
            && |doc.bbox| == |boxes|
            && (forall e | e in doc.bbox :: e.id.Some?)
            && forall i, j | 0 <= i < j < |doc.bbox| :: doc.bbox[i].id.value <= doc.bbox[j].id.value
  {
    assert Sorting.IsPreorder(BySeqOrder());
    Sorting.SortFacts(boxes, BySeqOrder());
    assert |multiset(SortBySeq(boxes))| == |multiset(boxes)|;
  }

  /** What an export fills in: an identifier of the dataset only if there is none or an empty one, the identifier of the
      image only if there is none; size and type always. All else is as it was. */
  lemma BlocksAreFilled(meta: Meta, stem: string, datasetId: string, fileType: string, width: int, height: int)
    ensures var out := ExportMeta(meta, stem, datasetId, fileType, width, height);
            && out.annotation == meta.annotation
            && out.dataset == (if "identifier" !in meta.dataset || meta.dataset["identifier"] in {Str(""), Num(0)}
                               then meta.dataset["identifier" := Str(datasetId)] else meta.dataset)
            && out.images.Keys == meta.images.Keys + {"identifier", "width", "height", "type"}
            && out.images["width"] == Num(width) && out.images["height"] == Num(height) && out.images["type"] == Str(fileType)
            && out.images["identifier"] == (if "identifier" in meta.images then meta.images["identifier"] else Str(stem))
            && forall k | k in meta.images && k !in {"width", "height", "type"} :: out.images[k] == meta.images[k]
  {
    assert |"identifier"| == 10 && |"width"| == 5 && |"height"| == 6 && |"type"| == 4;
  }

  function Normalize(b: Box): Box {
    var h := if b.x1 > b.x2 then b.(x1 := b.x2, x2 := b.x1) else b;
    if h.y1 > h.y2 then h.(y1 := h.y2, y2 := h.y1) else h
  }

  function ClampTo(v: int, limit: int): int {
    var low := if limit < v then limit else v;
    if low > 0 then low else 0
  }

  function Clamp(b: Box, width: int, height: int): Box {
    b.(x1 := ClampTo(b.x1, width), x2 := ClampTo(b.x2, width), y1 := ClampTo(b.y1, height), y2 := ClampTo(b.y2, height))
  }

  function Saved(boxes: seq<Box>, width: int, height: int): (out: seq<Box>)
    ensures |out| == |boxes| && forall i | 0 <= i < |boxes| :: out[i] == Clamp(Normalize(boxes[i]), width, height)
  {
    seq(|boxes|, i requires 0 <= i < |boxes| => Clamp(Normalize(boxes[i]), width, height))
  }

  /** `update_boxes`: refused for duplicate ids, and otherwise every box is clamped in place. */
  method UpdateBoxes(boxes: array<Box>, width: int, height: int) returns (ok: bool)
    modifies boxes
    ensures ok <==> DistinctNums(old(boxes[..]))
    ensures if ok then forall i | 0 <= i < boxes.Length :: boxes[i] == Clamp(old(boxes[i]), width, height)
            else boxes[..] == old(boxes[..])
  {
    CountingDuplicates(boxes[..]);
    hide Nums, DistinctNums, Clamp;
    if |Nums(boxes[..])| != boxes.Length { return false; }
    for i := 0 to boxes.Length
      invariant forall j | 0 <= j < boxes.Length ::
                  boxes[j] == if j < i then Clamp(old(boxes[j]), width, height) else old(boxes[j])
    {
      boxes[i] := Clamp(boxes[i], width, height);
    }
    return true;
  }

  predicate Inside(b: Box, width: int, height: int) { 0 <= b.x1 <= b.x2 <= width && 0 <= b.y1 <= b.y2 <= height }

  /** A saved box is normalised and inside the image, and one that was so already is saved unchanged. */
  lemma SavedIsInside(b: Box, width: nat, height: nat)
    ensures Inside(Clamp(Normalize(b), width, height), width, height)
    ensures Inside(b, width, height) <==> Clamp(Normalize(b), width, height) == b
  {}

  /** What was saved survives an export and an import, up to the order of the ids. */
  lemma SavedSurvives(boxes: seq<Box>, meta: Meta, stem: string, datasetId: string, fileType: string, width: nat, height: nat)
    requires Numbered(boxes)
    ensures var saved := Saved(boxes, width, height);
            var doc := Export(meta, stem, datasetId, fileType, width, height, saved);
            Importable(doc) && Import(doc).boxes == SortBySeq(saved)
  {
    SavedIsNormal(boxes, width, height);
    hide *;
    ImportOfExport(meta, stem, datasetId, fileType, width, height, Saved(boxes, width, height));
  }

  lemma SavedIsNormal(boxes: seq<Box>, width: nat, height: nat)
    ensures AllNormal(Saved(boxes, width, height)) && (Numbered(boxes) ==> Numbered(Saved(boxes, width, height)))
  {
    var saved := Saved(boxes, width, height);
    forall i | 0 <= i < |boxes| ensures saved[i].num == boxes[i].num && Normal(saved[i]) {
      SavedIsInside(boxes[i], width, height);
    }
    hide Normal, Clamp, Normalize;
  }
}
