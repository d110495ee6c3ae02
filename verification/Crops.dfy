/** Cutting an image into crops (backend/app/annotations/crops.py) and bringing the crop folder of the
    object store in line with them (`export_image_crops` in backend/app/annotations/router.py). */
module Crops {
  import opened Text
  import opened Wrappers
  import Storage

  // ---------------------------------------------------------------- geometry

  const PAD := 3
  const MIN_SIZE := 8
  const MIN_TEXT_LEN := 1

  datatype Box = Box(num: nat, data: string, x1: int, y1: int, x2: int, y2: int)
  datatype Rect = Rect(x0: int, y0: int, x1: int, y1: int)
  datatype Crop = Crop(filename: string, text: string, rect: Rect)

  /** The part of a box that lies in the image. */
  function Clipped(b: Box, width: nat, height: nat): Rect {
    Rect(Max(0, Min(b.x1, b.x2)), Max(0, Min(b.y1, b.y2)),
         Min(width, Max(b.x1, b.x2)), Min(height, Max(b.y1, b.y2)))
  }

  predicate Covers(outer: Rect, inner: Rect) {
    outer.x0 <= inner.x0 && outer.y0 <= inner.y0 && inner.x1 <= outer.x1 && inner.y1 <= outer.y1
  }

  predicate Wide(r: Rect) { r.x1 - r.x0 >= 8 && r.y1 - r.y0 >= 8 }

  function CropName(stem: string, num: nat): string { stem + "_" + Digits(num) + ".png" }

  /** The rectangles that lie in the image and exceed the box by no more than three pixels. */
  predicate Allowed(r: Rect, b: Box, width: nat, height: nat) {
    && Covers(Rect(0, 0, width, height), r)
    && Covers(Rect(Min(b.x1, b.x2) - 3, Min(b.y1, b.y2) - 3, Max(b.x1, b.x2) + 3, Max(b.y1, b.y2) + 3), r)
  }

  /** What a crop must be to come from a box: the box has text; the rectangle is the largest allowed one, has the
      minimum size and covers the clipped box. */
  ghost predicate IsCropOf(c: Crop, b: Box, stem: string, width: nat, height: nat) {
    && c.filename == CropName(stem, b.num)
    && c.text == Strip(b.data) && c.text != ""
    && Wide(c.rect) && Allowed(c.rect, b, width, height)
    && Covers(c.rect, Clipped(b, width, height))
    && forall r | Allowed(r, b, width, height) :: Covers(c.rect, r)
  }

  /** A box is skipped only without text, or when no allowed rectangle has the minimum size. */
  ghost predicate MaySkip(b: Box, width: nat, height: nat) {
    Strip(b.data) == "" || forall r | Allowed(r, b, width, height) :: !Wide(r)
  }

  /** `picked[i]` is the box the i-th crop was cut from; of the first n boxes, those not picked may be skipped. */
  ghost predicate Accounts(crops: seq<Crop>, picked: seq<nat>, boxes: seq<Box>, n: nat, stem: string, width: nat, height: nat)
    requires n <= |boxes|
  {
    && |picked| == |crops|
    && (forall i | 0 <= i < |picked| :: picked[i] < n && IsCropOf(crops[i], boxes[picked[i]], stem, width, height))
    && (forall i, j | 0 <= i < j < |picked| :: picked[i] < picked[j])
    && forall k | 0 <= k < n && k !in picked :: MaySkip(boxes[k], width, height)
  }

  method RenderCrops(width: nat, height: nat, boxes: seq<Box>, stem: string)
    returns (out: seq<Crop>, skipped: nat, ghost picked: seq<nat>)
    ensures |out| + skipped == |boxes|
    ensures Accounts(out, picked, boxes, |boxes|, stem, width, height)
  {
    out, skipped, picked := [], 0, [];
    for k := 0 to |boxes|
      invariant |out| + skipped == k
      invariant Accounts(out, picked, boxes, k, stem, width, height)
    {
      var crop := RenderOne(width, height, boxes[k], stem);
      if crop.None? {
        skipped := skipped + 1;
      } else {
        ghost var before := picked;
        out, picked := out + [crop.value], picked + [k];
        assert forall i :: i in picked <==> i in before || i == k;
      }
    }
  }

  /** One pass of the rendering loop. */
  method RenderOne(width: nat, height: nat, b: Box, stem: string) returns (crop: Option<Crop>)
    ensures crop.None? ==> MaySkip(b, width, height)
    ensures crop.Some? ==> IsCropOf(crop.value, b, stem, width, height)
  {
    var text := Strip(b.data);
    if |text| < MIN_TEXT_LEN { return None; }
    var x0 := Max(0, Min(b.x1, b.x2) - PAD);
    var y0 := Max(0, Min(b.y1, b.y2) - PAD);
    var x1 := Min(width, Max(b.x1, b.x2) + PAD);
    var y1 := Min(height, Max(b.y1, b.y2) + PAD);
    if x1 - x0 < MIN_SIZE || y1 - y0 < MIN_SIZE { return None; }
    return Some(Crop(CropName(stem, b.num), text, Rect(x0, y0, x1, y1)));
  }

  // ---------------------------------------------------------------- names

  /** `is_crop_filename`: the pattern is anchored by `$`, which also accepts a final line feed. */
  ghost predicate IsCropFilename(name: string, stem: string, isDigit: char -> bool) {
    exists ds: string :: IsCropWith(name, stem, ds, isDigit)
  }

  ghost predicate IsCropWith(name: string, stem: string, ds: string, isDigit: char -> bool) {
    && ds != "" && (forall c | c in ds :: isDigit(c))
    && (name == stem + "_" + ds + ".png" || name == stem + "_" + ds + ".png" + "\n")
  }

  /** `\d`: the decimal digits of Unicode, of which the ASCII ones are all that matters here. */
  ghost predicate DigitClass(isDigit: char -> bool) {
    forall c | '0' <= c <= '9' :: isDigit(c)
  }

  lemma CropNameIsCrop(stem: string, num: nat, isDigit: char -> bool)
    requires DigitClass(isDigit)
    ensures IsCropFilename(CropName(stem, num), stem, isDigit)
  {
    assert IsCropWith(CropName(stem, num), stem, Digits(num), isDigit);
  }

  lemma {:induction false} UnderscoredKeeps(s: string)
    ensures Storage.Underscored(s) == s <==> '/' !in s
  {
    if s != "" {
      UnderscoredKeeps(s[1..]);
      assert s == [s[0]] + s[1..];
    }
  }

  /** A crop is stored under its own name exactly when the stem has no slash and no leading blank. */
  lemma CropKeepsItsName(stem: string, num: nat)
    ensures Storage.SafeName(CropName(stem, num)) == CropName(stem, num)
       <==> '/' !in stem && (stem != "" ==> !IsSpace(stem[0]))
  {
    var name := CropName(stem, num);
    assert '/' in name <==> '/' in stem by {
      assert '/' !in "_" + Digits(num) + ".png";
      assert name == stem + ("_" + Digits(num) + ".png");
    }
    UnderscoredKeeps(name);
    Storage.UnderscoredHasNoSlash(name);
    assert name[|name| - 1] == 'g' && name[0] == if stem != "" then stem[0] else '_';
    if '/' !in name {
      StripIsTrimmed(name);
      if Trimmed(name) { StripKeepsTrimmed(name); }
    } else {
      StripIsTrimmed(Storage.Underscored(name));
    }
  }

  /** The last component of a key. */
  function Base(key: string): string
  {
    if key == "" then "" else if '/' in key then Base(key[1..]) else key
  }

  lemma {:induction false} BaseOf(folder: string, name: string)
    requires '/' !in name
    ensures Base(folder + ("/" + name)) == name
  {
    var key := folder + ("/" + name);
    assert key[|folder|] == '/';
    if folder == "" {
      assert key[1..] == name;
    } else {
      assert key[1..] == folder[1..] + ("/" + name);
      BaseOf(folder[1..], name);
    }
  }

  // ---------------------------------------------------------------- bringing the folder in line

  const MANIFEST_NAME := "aihub_crops.jsonl"
  const SFT_NAME := "aihub_crops_sft.jsonl"

  type Objects = map<string, string>

  /** A rendered crop as it is stored: its file name and its image data. */
  datatype Upload = Upload(filename: string, data: string)

  function CropFolder(imgFolder: Option<string>, stem: string): Option<string> {
    var f := Storage.NormFolder(imgFolder);
    Some(if f != "" then f + "/" + stem else stem)
  }

  function Put(o: Objects, folder: Option<string>, name: string, data: string): Objects {
    o[Storage.BuildKey(folder, name) := data]
  }

  function PutAll(o: Objects, folder: Option<string>, crops: seq<Upload>): Objects {
    if crops == [] then o
    else Put(PutAll(o, folder, crops[..|crops| - 1]), folder, crops[|crops| - 1].filename, crops[|crops| - 1].data)
  }

  function Names(crops: seq<Upload>): set<string> { set c | c in crops :: c.filename }

  /** Crops of this stem that are not among the ones just rendered. */
  ghost predicate Orphan(key: string, prefix: string, stem: string, names: set<string>, isDigit: char -> bool) {
    prefix <= key && IsCropFilename(Base(key), stem, isDigit) && Base(key) !in names
  }

  lemma NothingToPut(objects: Objects, folder: Option<string>)
    ensures PutAll(objects, folder, []) == objects && Names([]) == {}
  {}

  lemma PutAllSnoc(objects: Objects, folder: Option<string>, crops: seq<Upload>, c: Upload)
    ensures PutAll(objects, folder, crops + [c]) == Put(PutAll(objects, folder, crops), folder, c.filename, c.data)
  {
    assert (crops + [c])[..|crops|] == crops;
  }

  lemma NamesSnoc(crops: seq<Upload>, c: Upload)
    ensures Names(crops + [c]) == Names(crops) + {c.filename}
  {
    assert c in crops + [c];
  }

  class Store {
    var objects: Objects

    method PutObject(folder: Option<string>, name: string, data: string)
      modifies this
      ensures objects == Put(old(objects), folder, name, data)
    {
      objects := objects[Storage.BuildKey(folder, name) := data];
    }

    /** The listing of the store, as `Storage.Bucket.ListKeys` establishes it. */
    method ListKeys(prefix: string) returns (keys: seq<string>)
      ensures forall k :: k in keys <==> k in objects && prefix <= k
    {
      keys := [];
      var rest := objects.Keys;
      while rest != {}
        invariant rest <= objects.Keys
        invariant forall k :: k in keys <==> k in objects && k !in rest && prefix <= k
        decreases rest
      {
        var k :| k in rest;
        rest := rest - {k};
        if prefix <= k { keys := keys + [k]; }
      }
    }

    method UploadAll(folder: Option<string>, crops: seq<Upload>) returns (newNames: set<string>)
      modifies this
      ensures objects == PutAll(old(objects), folder, crops) && newNames == Names(crops)
    {
      hide Storage.BuildKey, Put, PutAll, Names;
      NothingToPut(objects, folder);
      newNames := {};
      for i := 0 to |crops|
        invariant objects == PutAll(old(objects), folder, crops[..i])
        invariant newNames == Names(crops[..i])
      {
        assert crops[..i + 1] == crops[..i] + [crops[i]];
        PutAllSnoc(old(objects), folder, crops[..i], crops[i]);
        NamesSnoc(crops[..i], crops[i]);
        PutObject(folder, crops[i].filename, crops[i].data);
        newNames := newNames + {crops[i].filename};
      }
      assert crops[..|crops|] == crops;
    }

    method RemoveOrphans(prefix: string, stem: string, newNames: set<string>, isDigit: char -> bool, isCrop: string -> bool)
      requires forall name :: isCrop(name) <==> IsCropFilename(name, stem, isDigit)
      modifies this
      ensures forall k :: k in objects <==> k in old(objects) && !Orphan(k, prefix, stem, newNames, isDigit)
      ensures forall k | k in objects :: objects[k] == old(objects)[k]
    {
      hide IsCropFilename, Base;
      var keys := ListKeys(prefix);
      for i := 0 to |keys|
        invariant forall k :: k in objects <==> k in old(objects) && !(k in keys[..i] && Orphan(k, prefix, stem, newNames, isDigit))
        invariant forall k | k in objects :: objects[k] == old(objects)[k]
      {
        assert keys[..i + 1] == keys[..i] + [keys[i]];
        var base := Base(keys[i]);
        if isCrop(base) && base !in newNames {
          objects := objects - {keys[i]};
        }
      }
      assert keys[..|keys|] == keys;
    }

    /** `export_image_crops` after rendering. `isCrop` decides the file name pattern. */
    method ExportCrops(imgFolder: Option<string>, stem: string, crops: seq<Upload>, manifest: string, sft: string,
                       isDigit: char -> bool, isCrop: string -> bool)
      requires forall name :: isCrop(name) <==> IsCropFilename(name, stem, isDigit)
      modifies this
      ensures Exported(old(objects), objects, imgFolder, stem, crops, manifest, sft, isDigit)
    {
      hide IsCropFilename, Orphan, Storage.NormFolder, Storage.BuildKey, PutAll, CropFolder;
      var folder := CropFolder(imgFolder, stem);
      var newNames := UploadAll(folder, crops);
      PutObject(folder, MANIFEST_NAME, manifest);
      PutObject(folder, SFT_NAME, sft);
      RemoveOrphans(Storage.NormFolder(folder) + "/", stem, newNames, isDigit, isCrop);
    }
  }

  /** What the store holds after the export of `crops` into what it held before. */
  ghost predicate Exported(before: Objects, after: Objects, imgFolder: Option<string>, stem: string, crops: seq<Upload>,
                           manifest: string, sft: string, isDigit: char -> bool) {
    var folder := CropFolder(imgFolder, stem);
    var prefix := Storage.NormFolder(folder) + "/";
    var written := Written(before, folder, crops, manifest, sft);
    && (forall k :: k in after <==> k in written && !Orphan(k, prefix, stem, Names(crops), isDigit))
    && (forall k | k in after :: after[k] == written[k])
  }

  /** The orphans under the prefix are gone, and nothing else. */
  ghost predicate Cleaned(written: Objects, after: Objects, prefix: string, stem: string, names: set<string>, isDigit: char -> bool) {
    && (forall k :: k in after <==> k in written && !Orphan(k, prefix, stem, names, isDigit))
    && (forall k | k in after :: after[k] == written[k])
  }

  /** The stem has no slash and does not begin with a blank. */
  ghost predicate GoodStem(stem: string) { stem != "" && '/' !in stem && !IsSpace(stem[0]) }

  ghost predicate CropsNamed(crops: seq<Upload>, stem: string) {
    forall c | c in crops :: exists num :: c.filename == CropName(stem, num)
  }

  ghost predicate DistinctNames(crops: seq<Upload>) {
    forall i, j | 0 <= i < j < |crops| :: crops[i].filename != crops[j].filename
  }

  // ---------------------------------------------------------------- where things are stored

  lemma {:induction false} SolidLeft(s: string, c: char)
    requires c in s && !IsSpace(c) && c != '/'
    ensures c in LStrip(s) && c in Storage.LSlash(s)
  {
    assert s == [s[0]] + s[1..];
    if c in s[1..] { SolidLeft(s[1..], c); }
  }

  lemma {:induction false} SolidRight(s: string, c: char)
    requires c in s && !IsSpace(c) && c != '/'
    ensures c in RStrip(s) && c in Storage.RSlash(s)
  {
    assert s == s[..|s| - 1] + [s[|s| - 1]];
    if c in s[..|s| - 1] { SolidRight(s[..|s| - 1], c); }
  }

  lemma CropFolderIsNonempty(imgFolder: Option<string>, stem: string)
    requires GoodStem(stem)
    ensures Storage.NormFolder(CropFolder(imgFolder, stem)) != ""
  {
    var c := stem[0];
    var s := CropFolder(imgFolder, stem).value;
    assert c in stem && c in s;
    SolidLeft(s, c);
    SolidRight(LStrip(s), c);
    SolidLeft(Strip(s), c);
    SolidRight(Storage.LSlash(Strip(s)), c);
  }

  lemma PlainNameIsSafe(name: string)
    requires name != "" && '/' !in name && Trimmed(name)
    ensures Storage.SafeName(name) == name
  {
    UnderscoredKeeps(name);
    StripKeepsTrimmed(name);
  }

  /** The key of a file in the crop folder. */
  function KeyIn(folder: Option<string>, name: string): string { Storage.NormFolder(folder) + "/" + name }

  lemma BuildsKeyIn(folder: Option<string>, name: string)
    requires Storage.NormFolder(folder) != "" && Storage.SafeName(name) == name
    ensures Storage.BuildKey(folder, name) == KeyIn(folder, name)
  {
    hide Storage.NormFolder, Storage.SafeName;
  }

  ghost predicate CropKeysOk(folder: Option<string>, crops: seq<Upload>) {
    forall i | 0 <= i < |crops| ::
      '/' !in crops[i].filename && Storage.BuildKey(folder, crops[i].filename) == KeyIn(folder, crops[i].filename)
  }

  /** Crops are stored directly in the crop folder, which is not the root, under their own names. */
  ghost predicate KeysOk(folder: Option<string>, crops: seq<Upload>) {
    Storage.NormFolder(folder) != "" && CropKeysOk(folder, crops)
  }

  /** So are the manifests. */
  lemma ManifestKeys(folder: Option<string>)
    requires Storage.NormFolder(folder) != ""
    ensures Storage.BuildKey(folder, MANIFEST_NAME) == KeyIn(folder, MANIFEST_NAME)
    ensures Storage.BuildKey(folder, SFT_NAME) == KeyIn(folder, SFT_NAME)
  {
    hide Storage.NormFolder, Storage.SafeName, Storage.BuildKey, KeyIn;
    PlainNameIsSafe(MANIFEST_NAME);
    PlainNameIsSafe(SFT_NAME);
    BuildsKeyIn(folder, MANIFEST_NAME);
    BuildsKeyIn(folder, SFT_NAME);
  }

  lemma CropKeys(imgFolder: Option<string>, stem: string, crops: seq<Upload>)
    requires GoodStem(stem) && CropsNamed(crops, stem)
    ensures KeysOk(CropFolder(imgFolder, stem), crops)
  {
    hide Storage.NormFolder, Storage.SafeName, Storage.BuildKey, KeyIn, CropFolder, CropKeysOk;
    var folder := CropFolder(imgFolder, stem);
    CropFolderIsNonempty(imgFolder, stem);
    UploadKeys(folder, stem, crops);
  }

  lemma UploadKeys(folder: Option<string>, stem: string, crops: seq<Upload>)
    requires GoodStem(stem) && CropsNamed(crops, stem) && Storage.NormFolder(folder) != ""
    ensures CropKeysOk(folder, crops)
  {
    hide Storage.NormFolder, Storage.SafeName, Storage.BuildKey, KeyIn, CropName, GoodStem;
    forall i | 0 <= i < |crops|
      ensures '/' !in crops[i].filename && Storage.BuildKey(folder, crops[i].filename) == KeyIn(folder, crops[i].filename)
    {
      CropNameIsSafe(stem, crops[i]);
      BuildsKeyIn(folder, crops[i].filename);
    }
  }

  lemma CropNameIsSafe(stem: string, c: Upload)
    requires (GoodStem(stem) && exists num :: c.filename == CropName(stem, num))
    ensures Storage.SafeName(c.filename) == c.filename && '/' !in c.filename
  {
    hide Storage.SafeName, CropName;
    var num :| c.filename == CropName(stem, num);
    CropKeepsItsName(stem, num);
    Storage.SafeNameFacts(c.filename);
  }

  ghost predicate IsUpload(p: string, crops: seq<Upload>, k: string) {
    exists i :: 0 <= i < |crops| && k == p + crops[i].filename
  }

  /** The uploads are in the store under the prefix, and everything else is as before. */
  ghost predicate Uploaded(before: Objects, all: Objects, p: string, crops: seq<Upload>) {
    && (forall k :: k in all <==> k in before || IsUpload(p, crops, k))
    && (forall k | k in before && !IsUpload(p, crops, k) :: all[k] == before[k])
    && (forall i | 0 <= i < |crops| :: p + crops[i].filename in all && all[p + crops[i].filename] == crops[i].data)
  }

  lemma PutAllUnder(o: Objects, folder: Option<string>, crops: seq<Upload>, c: Upload)
    requires KeysOk(folder, crops + [c])
    ensures KeysOk(folder, crops)
    ensures PutAll(o, folder, crops + [c]) == PutAll(o, folder, crops)[Storage.NormFolder(folder) + "/" + c.filename := c.data]
  {
    hide Storage.NormFolder, Storage.BuildKey;
    var all := crops + [c];
    assert all[|crops|] == c;
    PutAllSnoc(o, folder, crops, c);
    forall i | 0 <= i < |crops| ensures crops[i] == all[i] {}
  }

  lemma DistinctInit(crops: seq<Upload>, c: Upload)
    requires DistinctNames(crops + [c])
    ensures DistinctNames(crops) && forall i | 0 <= i < |crops| :: crops[i].filename != c.filename
  {
    var all := crops + [c];
    forall i | 0 <= i < |crops| ensures crops[i] == all[i] && all[i].filename != all[|crops|].filename {}
  }

  lemma {:induction false} PutAllUploads(o: Objects, folder: Option<string>, crops: seq<Upload>)
    requires KeysOk(folder, crops) && DistinctNames(crops)
    ensures Uploaded(o, PutAll(o, folder, crops), Storage.NormFolder(folder) + "/", crops)
  {
    hide Storage.NormFolder, Uploaded, KeysOk, DistinctNames;
    var p := Storage.NormFolder(folder) + "/";
    if crops == [] {
      NothingUploaded(o, p);
    } else {
      var init, c := crops[..|crops| - 1], crops[|crops| - 1];
      assert crops == init + [c];
      hide PutAll;
      PutAllUnder(o, folder, init, c);
      DistinctInit(init, c);
      PutAllUploads(o, folder, init);
      UploadOneMore(o, PutAll(o, folder, init), p, init, c);
    }
  }

  lemma NothingUploaded(o: Objects, p: string)
    ensures Uploaded(o, o, p, [])
  {}

  lemma UploadOneMore(before: Objects, all: Objects, p: string, crops: seq<Upload>, c: Upload)
    requires Uploaded(before, all, p, crops) && forall i | 0 <= i < |crops| :: crops[i].filename != c.filename
    ensures Uploaded(before, all[p + c.filename := c.data], p, crops + [c])
  {
    forall k ensures IsUpload(p, crops + [c], k) <==> IsUpload(p, crops, k) || k == p + c.filename {
      if IsUpload(p, crops, k) {
        var i :| 0 <= i < |crops| && k == p + crops[i].filename;
        assert k == p + (crops + [c])[i].filename;
      }
      if k == p + c.filename { assert k == p + (crops + [c])[|crops|].filename; }
    }
    forall i | 0 <= i < |crops| ensures p + crops[i].filename != p + c.filename {
      SameEnd(p, crops[i].filename, c.filename);
    }
    hide IsUpload;
  }

  function Written(o: Objects, folder: Option<string>, crops: seq<Upload>, manifest: string, sft: string): Objects {
    Put(Put(PutAll(o, folder, crops), folder, MANIFEST_NAME, manifest), folder, SFT_NAME, sft)
  }

  lemma SameEnd(p: string, a: string, b: string)
    ensures p + a == p + b ==> a == b
  {
    assert (p + a)[|p|..] == a && (p + b)[|p|..] == b;
  }

  /** What the store holds before the orphans are removed, in terms of names under a prefix. */
  ghost predicate IsWritten(before: Objects, written: Objects, p: string, crops: seq<Upload>, manifest: string, sft: string) {
    exists all :: Uploaded(before, all, p, crops) && written == all[p + MANIFEST_NAME := manifest][p + SFT_NAME := sft]
  }

  lemma WrittenKeys(before: Objects, folder: Option<string>, crops: seq<Upload>, manifest: string, sft: string)
    requires KeysOk(folder, crops) && DistinctNames(crops)
    ensures IsWritten(before, Written(before, folder, crops, manifest, sft), Storage.NormFolder(folder) + "/", crops, manifest, sft)
  {
    ManifestKeys(folder);
    hide Storage.NormFolder, Storage.BuildKey, PutAll, MANIFEST_NAME, SFT_NAME, Uploaded;
    PutAllUploads(before, folder, crops);
  }

  lemma ManifestNamesDiffer()
    ensures MANIFEST_NAME != SFT_NAME && '/' !in MANIFEST_NAME && '/' !in SFT_NAME
  {}

  lemma BaseUnder(f: string, name: string)
    requires '/' !in name
    ensures Base(f + "/" + name) == name && f + "/" <= f + "/" + name
  {
    BaseOf(f, name);
    assert f + "/" + name == f + ("/" + name);
  }

  /** A crop file name is present in the folder afterwards just when it was uploaded. */
  lemma NameInLine(before: Objects, written: Objects, after: Objects, f: string, stem: string, crops: seq<Upload>,
                   manifest: string, sft: string, isDigit: char -> bool, name: string)
    requires IsWritten(before, written, f + "/", crops, manifest, sft)
    requires Cleaned(written, after, f + "/", stem, Names(crops), isDigit)
    requires '/' !in name && IsCropFilename(name, stem, isDigit)
    ensures f + "/" + name in after <==> name in Names(crops)
  {
    hide IsCropFilename, Base, MANIFEST_NAME, SFT_NAME;
    BaseUnder(f, name);
    ManifestsAreNoCrops(stem, isDigit);
    SameEnd(f + "/", name, MANIFEST_NAME);
    SameEnd(f + "/", name, SFT_NAME);
    var all :| Uploaded(before, all, f + "/", crops) && written == all[f + "/" + MANIFEST_NAME := manifest][f + "/" + SFT_NAME := sft];
    if name in Names(crops) {
      var i :| 0 <= i < |crops| && crops[i].filename == name;
      assert IsUpload(f + "/", crops, f + "/" + name);
    }
  }

  lemma UploadKept(before: Objects, written: Objects, after: Objects, f: string, stem: string, crops: seq<Upload>,
                   manifest: string, sft: string, isDigit: char -> bool, i: nat)
    requires IsWritten(before, written, f + "/", crops, manifest, sft)
    requires Cleaned(written, after, f + "/", stem, Names(crops), isDigit)
    requires i < |crops| && '/' !in crops[i].filename && IsCropFilename(crops[i].filename, stem, isDigit)
    ensures f + "/" + crops[i].filename in after && after[f + "/" + crops[i].filename] == crops[i].data
  {
    hide IsCropFilename, Base, MANIFEST_NAME, SFT_NAME;
    BaseUnder(f, crops[i].filename);
    ManifestsAreNoCrops(stem, isDigit);
    SameEnd(f + "/", crops[i].filename, MANIFEST_NAME);
    SameEnd(f + "/", crops[i].filename, SFT_NAME);
    assert crops[i].filename in Names(crops);
  }

  lemma ManifestsKept(before: Objects, written: Objects, after: Objects, f: string, stem: string, crops: seq<Upload>,
                      manifest: string, sft: string, isDigit: char -> bool)
    requires IsWritten(before, written, f + "/", crops, manifest, sft)
    requires Cleaned(written, after, f + "/", stem, Names(crops), isDigit)
    ensures f + "/" + MANIFEST_NAME in after && after[f + "/" + MANIFEST_NAME] == manifest
    ensures f + "/" + SFT_NAME in after && after[f + "/" + SFT_NAME] == sft
  {
    ManifestNamesDiffer();
    hide IsCropFilename, Base, MANIFEST_NAME, SFT_NAME;
    BaseUnder(f, MANIFEST_NAME);
    BaseUnder(f, SFT_NAME);
    ManifestsAreNoCrops(stem, isDigit);
    SameEnd(f + "/", MANIFEST_NAME, SFT_NAME);
  }

  ghost predicate InSubfolder(k: string, prefix: string) { prefix <= k && '/' in k[|prefix|..] }

  /** Outside the folder; in it, but neither crop of the stem nor manifest; in a subfolder, but no crop of the stem, or
      one named like a crop just rendered. */
  ghost predicate NotConcerned(k: string, prefix: string, stem: string, names: set<string>, isDigit: char -> bool) {
    || !(prefix <= k)
    || (!InSubfolder(k, prefix) && !IsCropFilename(Base(k), stem, isDigit) && Base(k) !in {MANIFEST_NAME, SFT_NAME})
    || (InSubfolder(k, prefix) && (!IsCropFilename(Base(k), stem, isDigit) || Base(k) in names))
  }

  lemma OtherKept(before: Objects, written: Objects, after: Objects, f: string, stem: string, crops: seq<Upload>,
                  manifest: string, sft: string, isDigit: char -> bool, k: string)
    requires IsWritten(before, written, f + "/", crops, manifest, sft)
    requires Cleaned(written, after, f + "/", stem, Names(crops), isDigit)
    requires forall i | 0 <= i < |crops| :: '/' !in crops[i].filename && IsCropFilename(crops[i].filename, stem, isDigit)
    requires NotConcerned(k, f + "/", stem, Names(crops), isDigit)
    ensures (k in before <==> k in after) && (k in before ==> after[k] == before[k])
  {
    ManifestNamesDiffer();
    hide IsCropFilename, Base, MANIFEST_NAME, SFT_NAME, InSubfolder;
    UnderIsDirect(f, MANIFEST_NAME);
    UnderIsDirect(f, SFT_NAME);
    if IsUpload(f + "/", crops, k) {
      var i :| 0 <= i < |crops| && k == f + "/" + crops[i].filename;
      UnderIsDirect(f, crops[i].filename);
    }
  }

  lemma UnderIsDirect(f: string, name: string)
    requires '/' !in name
    ensures Base(f + "/" + name) == name && !InSubfolder(f + "/" + name, f + "/")
  {
    BaseUnder(f, name);
    assert (f + "/" + name)[|f + "/"|..] == name;
  }

  /** The clean-up lists the folder with its subfolders. */
  lemma SubfoldersSwept(before: Objects, written: Objects, after: Objects, f: string, stem: string, crops: seq<Upload>,
                        manifest: string, sft: string, isDigit: char -> bool, k: string)
    requires IsWritten(before, written, f + "/", crops, manifest, sft)
    requires Cleaned(written, after, f + "/", stem, Names(crops), isDigit)
    requires InSubfolder(k, f + "/") && IsCropFilename(Base(k), stem, isDigit) && Base(k) !in Names(crops)
    ensures k !in after
  {
    hide IsCropFilename, Base;
  }

  lemma ExportedIsCleaned(before: Objects, after: Objects, imgFolder: Option<string>, stem: string, crops: seq<Upload>,
                          manifest: string, sft: string, isDigit: char -> bool)
    requires Exported(before, after, imgFolder, stem, crops, manifest, sft, isDigit)
    ensures var folder := CropFolder(imgFolder, stem);
            Cleaned(Written(before, folder, crops, manifest, sft), after, Storage.NormFolder(folder) + "/", stem, Names(crops), isDigit)
  {
    hide Written, Storage.NormFolder, CropFolder, Orphan;
  }

  /** After an export into any store, the objects directly in the crop folder that are named like a crop
      of this stem are exactly the crops just rendered, each with its own image; the manifests are the new
      ones; crops of the stem in subfolders go, unless they are named like one just rendered; all else is as before. */
  lemma FolderInLine(before: Objects, after: Objects, imgFolder: Option<string>, stem: string, crops: seq<Upload>,
                     manifest: string, sft: string, isDigit: char -> bool)
    requires Exported(before, after, imgFolder, stem, crops, manifest, sft, isDigit)
    requires GoodStem(stem) && CropsNamed(crops, stem) && DistinctNames(crops) && DigitClass(isDigit)
    ensures var folder := CropFolder(imgFolder, stem);
            var prefix := Storage.NormFolder(folder) + "/";
            && (forall name | '/' !in name && IsCropFilename(name, stem, isDigit) ::
                  KeyIn(folder, name) in after <==> name in Names(crops))
            && (forall i | 0 <= i < |crops| ::
                  KeyIn(folder, crops[i].filename) in after && after[KeyIn(folder, crops[i].filename)] == crops[i].data)
            && KeyIn(folder, "aihub_crops.jsonl") in after && after[KeyIn(folder, "aihub_crops.jsonl")] == manifest
            && KeyIn(folder, "aihub_crops_sft.jsonl") in after && after[KeyIn(folder, "aihub_crops_sft.jsonl")] == sft
            && (forall k | InSubfolder(k, prefix) && IsCropFilename(Base(k), stem, isDigit) && Base(k) !in Names(crops) ::
                  k !in after)
            && (forall k | NotConcerned(k, prefix, stem, Names(crops), isDigit) ::
                  (k in before <==> k in after) && (k in before ==> after[k] == before[k]))
  {
    hide Exported, Written, Storage.NormFolder, CropFolder, NotConcerned, IsCropFilename;
    var folder := CropFolder(imgFolder, stem);
    var written := Written(before, folder, crops, manifest, sft);
    var f := Storage.NormFolder(folder);
    CropKeys(imgFolder, stem, crops);
    UploadsAreCrops(stem, crops, isDigit);
    forall i | 0 <= i < |crops| ensures '/' !in crops[i].filename {}
    assert forall name :: KeyIn(folder, name) == f + "/" + name;
    assert MANIFEST_NAME == "aihub_crops.jsonl" && SFT_NAME == "aihub_crops_sft.jsonl";
    hide *;
    ExportedIsCleaned(before, after, imgFolder, stem, crops, manifest, sft, isDigit);
    WrittenKeys(before, folder, crops, manifest, sft);
    forall name | '/' !in name && IsCropFilename(name, stem, isDigit)
      ensures KeyIn(folder, name) in after <==> name in Names(crops)
    { NameInLine(before, written, after, f, stem, crops, manifest, sft, isDigit, name); }
    forall i | 0 <= i < |crops|
      ensures KeyIn(folder, crops[i].filename) in after && after[KeyIn(folder, crops[i].filename)] == crops[i].data
    { UploadKept(before, written, after, f, stem, crops, manifest, sft, isDigit, i); }
    ManifestsKept(before, written, after, f, stem, crops, manifest, sft, isDigit);
    forall k | InSubfolder(k, f + "/") && IsCropFilename(Base(k), stem, isDigit) && Base(k) !in Names(crops)
      ensures k !in after
    { SubfoldersSwept(before, written, after, f, stem, crops, manifest, sft, isDigit, k); }
    forall k | NotConcerned(k, f + "/", stem, Names(crops), isDigit)
      ensures (k in before <==> k in after) && (k in before ==> after[k] == before[k])
    { OtherKept(before, written, after, f, stem, crops, manifest, sft, isDigit, k); }
  }

  lemma UploadsAreCrops(stem: string, crops: seq<Upload>, isDigit: char -> bool)
    requires CropsNamed(crops, stem) && DigitClass(isDigit)
    ensures forall i | 0 <= i < |crops| :: IsCropFilename(crops[i].filename, stem, isDigit)
  {
    hide IsCropFilename, CropName;
    forall i | 0 <= i < |crops| ensures IsCropFilename(crops[i].filename, stem, isDigit) {
      var num :| crops[i].filename == CropName(stem, num);
      CropNameIsCrop(stem, num, isDigit);
    }
  }

  lemma ManifestsAreNoCrops(stem: string, isDigit: char -> bool)
    ensures !IsCropFilename(MANIFEST_NAME, stem, isDigit) && !IsCropFilename(SFT_NAME, stem, isDigit)
  {
    forall ds: string ensures !IsCropWith(MANIFEST_NAME, stem, ds, isDigit) && !IsCropWith(SFT_NAME, stem, ds, isDigit) {
      var a := stem + "_" + ds + ".png";
      assert a[|a| - 1] == 'g' && (a + "\n")[|a|] == '\n';
    }
  }

  /** Crops rendered from boxes with different ids have different crop names of the stem: what the store needs. */
  lemma RenderedNames(crops: seq<Crop>, picked: seq<nat>, boxes: seq<Box>, stem: string, width: nat, height: nat,
                      uploads: seq<Upload>)
    requires Accounts(crops, picked, boxes, |boxes|, stem, width, height)
    requires forall i, j | 0 <= i < j < |boxes| :: boxes[i].num != boxes[j].num
    requires |uploads| == |crops| && forall i | 0 <= i < |crops| :: uploads[i].filename == crops[i].filename
    ensures CropsNamed(uploads, stem) && DistinctNames(uploads)
  {
    hide CropName, Wide, Allowed, Covers, Clipped;
    forall i | 0 <= i < |crops| ensures uploads[i].filename == CropName(stem, boxes[picked[i]].num) {
      assert IsCropOf(crops[i], boxes[picked[i]], stem, width, height);
    }
    hide IsCropOf, Accounts;
    forall i, j | 0 <= i < j < |uploads| ensures uploads[i].filename != uploads[j].filename {
      DifferentCropNames(stem, boxes[picked[i]].num, boxes[picked[j]].num);
    }
  }

  lemma DifferentCropNames(stem: string, a: nat, b: nat)
    requires a != b
    ensures CropName(stem, a) != CropName(stem, b)
  {
    if CropName(stem, a) == CropName(stem, b) {
      var n, m := CropName(stem, a), CropName(stem, b);
      assert n[|stem| + 1..|n| - 4] == Digits(a) && m[|stem| + 1..|m| - 4] == Digits(b);
      DigitsInjective(a, b);
    }
  }
}
