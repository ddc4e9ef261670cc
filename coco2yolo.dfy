/** The COCO-to-YOLO label converter: box conversion, per-image label files for the
    train/val/test splits, and the dataset manifest `data.yaml`. */
module Coco2Yolo {
  import opened Wrappers
  import opened PyText
  import opened Dicts
  import opened Sorting

  // ---------------------------------------------------------------------------
  // Boxes

  /** A COCO box: top-left corner, width and height, in pixels. */
  datatype CocoBox = CocoBox(x: real, y: real, w: real, h: real)

  /** A YOLO box: centre, width and height, as fractions of the image width and height. */
  datatype YoloBox = YoloBox(x: real, y: real, w: real, h: real)

  /** `convert_coco_to_yolo((width, height), box)`. Multiplying the result back by the image
      size gives the box's width, height and centre in pixels. */
  function ConvertBox(width: real, height: real, box: CocoBox): (r: YoloBox)
    requires width != 0.0 && height != 0.0
    ensures r.w * width == box.w && r.h * height == box.h
    ensures r.x * width == box.x + box.w / 2.0 && r.y * height == box.y + box.h / 2.0
    ensures r.x - r.w / 2.0 == box.x / width && r.y - r.h / 2.0 == box.y / height
  {
    var dw := 1.0 / width;
    var dh := 1.0 / height;
    YoloBox((box.x + box.w / 2.0) * dw, (box.y + box.h / 2.0) * dh, box.w * dw, box.h * dh)
  }

  /** The pixel box a YOLO box stands for in an image of the given size. */
  function ToCoco(width: real, height: real, b: YoloBox): CocoBox
  {
    CocoBox((b.x - b.w / 2.0) * width, (b.y - b.h / 2.0) * height, b.w * width, b.h * height)
  }

  /** Converting to YOLO and back gives the original COCO box. */
  lemma CocoRoundTrip(width: real, height: real, box: CocoBox)
    requires width != 0.0 && height != 0.0
    ensures ToCoco(width, height, ConvertBox(width, height, box)) == box
  {
    var r := ConvertBox(width, height, box);
    assert (r.x - r.w / 2.0) * width == box.x;
    assert (r.y - r.h / 2.0) * height == box.y;
  }

  /** Every YOLO box is the conversion of its pixel box. */
  lemma YoloRoundTrip(width: real, height: real, b: YoloBox)
    requires width != 0.0 && height != 0.0
    ensures ConvertBox(width, height, ToCoco(width, height, b)) == b
  {
    var c := ToCoco(width, height, b);
    var r := ConvertBox(width, height, c);
    assert r.w * width == b.w * width;
    assert r.h * height == b.h * height;
    assert r.x * width == b.x * width;
    assert r.y * height == b.y * height;
  }

  /** No clamping: the normalised box lies within [0, 1] exactly when the pixel box lies
      within the image, and a box that leaves the image leaves the unit square. */
  lemma InsideImageIff(width: real, height: real, box: CocoBox)
    requires width > 0.0 && height > 0.0
    ensures var r := ConvertBox(width, height, box);
      && ((0.0 <= box.x && box.x + box.w <= width) <==> (0.0 <= r.x - r.w / 2.0 && r.x + r.w / 2.0 <= 1.0))
      && ((0.0 <= box.y && box.y + box.h <= height) <==> (0.0 <= r.y - r.h / 2.0 && r.y + r.h / 2.0 <= 1.0))
  {
    var r := ConvertBox(width, height, box);
    assert (r.x + r.w / 2.0) * width == box.x + box.w;
    assert (r.y + r.h / 2.0) * height == box.y + box.h;
    assert (r.x - r.w / 2.0) * width == box.x;
    assert (r.y - r.h / 2.0) * height == box.y;
  }

  /** A box of non-negative size inside the image has its centre and its size in [0, 1]. */
  lemma UnitRange(width: real, height: real, box: CocoBox)
    requires width > 0.0 && height > 0.0
    requires 0.0 <= box.x && 0.0 <= box.w && box.x + box.w <= width
    requires 0.0 <= box.y && 0.0 <= box.h && box.y + box.h <= height
    ensures var r := ConvertBox(width, height, box);
      && 0.0 <= r.x <= 1.0 && 0.0 <= r.w <= 1.0 && 0.0 <= r.y <= 1.0 && 0.0 <= r.h <= 1.0
  {
    var r := ConvertBox(width, height, box);
    assert 0.0 <= r.x * width <= width;
    assert 0.0 <= r.w * width <= width;
    assert 0.0 <= r.y * height <= height;
    assert 0.0 <= r.h * height <= height;
  }

  /** The worked example: a 30x40 box at (10, 20) in a 100x200 image. */
  lemma ConvertExample()
    ensures ConvertBox(100.0, 200.0, CocoBox(10.0, 20.0, 30.0, 40.0)) == YoloBox(0.25, 0.2, 0.3, 0.2)
  {
  }

  // ---------------------------------------------------------------------------
  // File names

  /** Python's `s.rfind(c)`, with `None` for -1. */
  function LastIndex(s: string, c: char): (r: Option<nat>)
    ensures r.None? <==> c !in s
    ensures r.Some? ==> r.value < |s| && s[r.value] == c && c !in s[r.value + 1..]
  {
    if s == [] then None
    else if s[|s| - 1] == c then Some(|s| - 1)
    else
      var r := LastIndex(s[..|s| - 1], c);
      assert s == s[..|s| - 1] + [s[|s| - 1]];
      if r.Some? then
        assert s[r.value + 1..] == s[..|s| - 1][r.value + 1..] + [s[|s| - 1]];
        r
      else r
  }

  /** The last component of a path among the '/'-separated fields, skipping the empty and
      "." components that `pathlib` drops; "" when there is none. */
  function LastComponent(parts: seq<string>): string
  {
    if parts == [] then ""
    else if parts[|parts| - 1] !in {"", "."} then parts[|parts| - 1]
    else LastComponent(parts[..|parts| - 1])
  }

  /** `PurePath(p).name`. */
  function Name(p: string): (r: string)
    ensures '/' !in r && r != "."
  {
    var parts := SplitOn(p, '/');
    NameFrom(parts);
    LastComponent(parts)
  }

  lemma {:induction false} NameFrom(parts: seq<string>)
    requires forall i :: 0 <= i < |parts| ==> '/' !in parts[i]
    ensures '/' !in LastComponent(parts) && LastComponent(parts) != "."
  {
    if parts != [] && parts[|parts| - 1] in {"", "."} {
      NameFrom(parts[..|parts| - 1]);
    }
  }

  /** `PurePath(p).stem`: the name without its last suffix; a leading dot or a trailing dot
      does not start a suffix. */
  function Stem(p: string): string
  {
    var name := Name(p);
    match LastIndex(name, '.')
    case Some(i) => if 0 < i < |name| - 1 then name[..i] else name
    case None => name
  }

  /** The stem is a prefix of the name, so it holds no '/'. */
  lemma StemOfPath(p: string)
    ensures Stem(p) <= Name(p) && '/' !in Stem(p)
  {
  }

  /** The stem of "dir/base.ext" is "base". */
  lemma StemDropsExtension(dir: string, base: string, ext: string)
    requires base != [] && ext != []
    requires '/' !in base && '/' !in ext && '.' !in ext
    ensures Stem(dir + "/" + base + "." + ext) == base
  {
    var name := base + "." + ext;
    assert '/' !in name;
    var p := dir + "/" + base + "." + ext;
    assert p == dir + "/" + name;
    NameAfterSlash(dir, name);
    StemOfName(p, base, ext);
  }

  /** A bare file name, such as COCO's usual `000000397133.jpg`, is its own name. */
  lemma NameOfBareName(p: string)
    requires '/' !in p && p != "" && p != "."
    ensures Name(p) == p
  {
    SplitWithoutSeparator(p, '/');
  }

  /** The stem of a bare file name "base.ext" is "base". */
  lemma BareStem(base: string, ext: string)
    requires base != [] && ext != []
    requires '/' !in base && '/' !in ext && '.' !in ext
    ensures Stem(base + "." + ext) == base
  {
    var name := base + "." + ext;
    assert name[|base|] == '.';
    NameOfBareName(name);
    StemOfName(name, base, ext);
  }

  /** The name of "dir/name" is "name". */
  lemma NameAfterSlash(dir: string, name: string)
    requires '/' !in name && name != "" && name != "."
    ensures Name(dir + "/" + name) == name
  {
    var p := dir + "/" + name;
    assert p == dir + ['/'] + name;
    SplitLastField(dir, '/', name);
    SplitWithoutSeparator(name, '/');
  }

  /** Only the last dot of a name "base.ext" starts its suffix. */
  lemma StemOfName(p: string, base: string, ext: string)
    requires base != [] && ext != [] && '.' !in ext
    requires Name(p) == base + "." + ext
    ensures Stem(p) == base
  {
    var name := base + "." + ext;
    var li := LastIndex(name, '.');
    assert name[|base|] == '.';
    assert name[|base| + 1..] == ext;
    assert li.Some? && li.value == |base|;
    assert name[..|base|] == base;
  }

  // ---------------------------------------------------------------------------
  // COCO records and label files

  datatype Image = Image(id: int, fileName: string, width: int, height: int)
  datatype Annotation = Annotation(imageId: int, categoryId: int, bbox: CocoBox)
  datatype Category = Category(id: int, name: string)

  /** The parsed content of one `labels/<split>/coco.json`. */
  datatype Coco = Coco(images: seq<Image>, annotations: seq<Annotation>, categories: seq<Category>)

  datatype Split = Train | Val | Test

  /** The splits in the order they are processed. */
  const Splits: seq<Split> := [Train, Val, Test]

  /** The label file `labels/<split>/<stem>.txt`. */
  datatype LabelFile = LabelFile(split: Split, stem: string)

  /** One line of a label file: the zero-based class index and the converted box. */
  datatype LabelLine = LabelLine(classIndex: int, box: YoloBox)

  /** The label files on disk and their lines. */
  type LabelFiles = map<LabelFile, seq<LabelLine>>

  /** The exceptions that abort the conversion: the `KeyError` of an annotation whose image
      is not listed, and the `ZeroDivisionError` of an image of width or height 0. */
  datatype Failure = MissingImage(imageId: int) | ZeroSize(imageId: int)

  /** The label files after a run, and the exception that ended it early, if any. */
  datatype Run = Run(files: LabelFiles, failure: Option<Failure>)

  /** `{img['id']: img for img in images}`: a repeated id keeps its last image. */
  function ImageIndex(images: seq<Image>): (index: map<int, Image>)
    ensures forall i :: 0 <= i < |images| ==> images[i].id in index
    ensures forall id :: id in index ==> exists i :: 0 <= i < |images| && images[i].id == id
  {
    var pairs := seq(|images|, i requires 0 <= i < |images| => (images[i].id, images[i]));
    var d := FromPairs(pairs);
    assert forall i :: 0 <= i < |images| ==> pairs[i].0 == images[i].id;
    d.items
  }

  /** The image an id names is the last image listed with that id. */
  lemma ImageIndexLastWins(images: seq<Image>, i: nat)
    requires i < |images|
    requires forall j :: i < j < |images| ==> images[j].id != images[i].id
    ensures ImageIndex(images)[images[i].id] == images[i]
  {
    var pairs := seq(|images|, i requires 0 <= i < |images| => (images[i].id, images[i]));
    LastValueWins(pairs, i);
  }

  /** The contents of a label file; a missing file reads as empty. */
  function Lines(files: LabelFiles, f: LabelFile): seq<LabelLine>
  {
    if f in files then files[f] else []
  }

  /** The annotation's image is listed and has a non-zero width and height. */
  predicate Convertible(index: map<int, Image>, ann: Annotation)
  {
    ann.imageId in index && index[ann.imageId].width != 0 && index[ann.imageId].height != 0
  }

  /** One pass of the annotation loop: the label file and the line it appends, or the
      exception it raises. */
  function Convert(split: Split, index: map<int, Image>, ann: Annotation): (r: Result<(LabelFile, LabelLine), Failure>)
    ensures r.Success? <==> Convertible(index, ann)
    ensures r.Failure? ==> r.error == if ann.imageId !in index then MissingImage(ann.imageId) else ZeroSize(ann.imageId)
  {
    if ann.imageId !in index then Failure(MissingImage(ann.imageId))
    else
      var img := index[ann.imageId];
      if img.width == 0 || img.height == 0 then Failure(ZeroSize(ann.imageId))
      else
        var box := ConvertBox(img.width as real, img.height as real, ann.bbox);
        Success((LabelFile(split, Stem(img.fileName)), LabelLine(ann.categoryId - 1, box)))
  }

  /** The annotation loop of one split over `anns`, appending to `files`; it stops at the
      first exception, keeping the lines already appended. */
  function RunAnnotations(split: Split, index: map<int, Image>, anns: seq<Annotation>, files: LabelFiles): Run
    decreases |anns|
  {
    if anns == [] then Run(files, None)
    else
      var before := RunAnnotations(split, index, anns[..|anns| - 1], files);
      if before.failure.Some? then before
      else
        match Convert(split, index, anns[|anns| - 1])
        case Failure(e) => Run(before.files, Some(e))
        case Success((f, line)) => Run(before.files[f := Lines(before.files, f) + [line]], None)
  }

  /** The lines the annotations `anns` of one split write to `f`, in annotation order. */
  function Destined(split: Split, index: map<int, Image>, anns: seq<Annotation>, f: LabelFile): seq<LabelLine>
    decreases |anns|
  {
    if anns == [] then []
    else
      var tail := match Convert(split, index, anns[|anns| - 1])
        case Success((g, line)) => if g == f then [line] else []
        case Failure(_) => [];
      Destined(split, index, anns[..|anns| - 1], f) + tail
  }

  /** An annotation that converts adds exactly one line, `category_id - 1` and its converted
      box, at the end of the lines of its image's label file, and none to any other file. */
  lemma AnnotationAddsOneLine(split: Split, index: map<int, Image>, anns: seq<Annotation>, i: nat, f: LabelFile)
    requires i < |anns| && Convertible(index, anns[i])
    ensures var ann, img := anns[i], index[anns[i].imageId];
      var line := LabelLine(ann.categoryId - 1, ConvertBox(img.width as real, img.height as real, ann.bbox));
      Destined(split, index, anns[..i + 1], f)
        == Destined(split, index, anns[..i], f) + (if f == LabelFile(split, Stem(img.fileName)) then [line] else [])
  {
    assert anns[..i + 1][..i] == anns[..i];
  }

  /** The label file is named after the image's stem alone: two images of one split with the
      same stem, whatever their directory or extension, share one label file. */
  lemma SameStemSameFile(split: Split, index: map<int, Image>, a: Annotation, b: Annotation)
    requires Convertible(index, a) && Convertible(index, b)
    requires Stem(index[a.imageId].fileName) == Stem(index[b.imageId].fileName)
    ensures Convert(split, index, a).value.0 == Convert(split, index, b).value.0
  {
  }

  /** Images `dir1/base.ext1` and `dir2/base.ext2` (say `x/a.jpg` and `y/a.png`) have the same
      stem, so their lines go to the same label file `base.txt`. */
  lemma StemCollision(dir1: string, dir2: string, base: string, ext1: string, ext2: string)
    requires base != [] && ext1 != [] && ext2 != [] && '/' !in base
    requires '/' !in ext1 && '.' !in ext1 && '/' !in ext2 && '.' !in ext2
    ensures Stem(dir1 + "/" + base + "." + ext1) == Stem(dir2 + "/" + base + "." + ext2) == base
  {
    StemDropsExtension(dir1, base, ext1);
    StemDropsExtension(dir2, base, ext2);
  }

  /** The run of a split fails exactly when one of its annotations cannot be converted. */
  lemma {:induction false} AnnotationsSucceedIff(split: Split, index: map<int, Image>, anns: seq<Annotation>, files: LabelFiles)
    ensures RunAnnotations(split, index, anns, files).failure.None?
        <==> forall i :: 0 <= i < |anns| ==> Convertible(index, anns[i])
    decreases |anns|
  {
    if anns != [] {
      var prefix := anns[..|anns| - 1];
      AnnotationsSucceedIff(split, index, prefix, files);
      assert forall i :: 0 <= i < |prefix| ==> prefix[i] == anns[i];
    }
  }

  /** When every annotation converts, each label file gains exactly the lines destined to it,
      after its old content; no other file is created. */
  lemma {:induction false} AnnotationsAppend(split: Split, index: map<int, Image>, anns: seq<Annotation>, files: LabelFiles, f: LabelFile)
    requires forall i :: 0 <= i < |anns| ==> Convertible(index, anns[i])
    ensures var r := RunAnnotations(split, index, anns, files);
      && r.failure.None?
      && Lines(r.files, f) == Lines(files, f) + Destined(split, index, anns, f)
      && (f in r.files <==> f in files || Destined(split, index, anns, f) != [])
    decreases |anns|
  {
    if anns == [] {
      assert Lines(files, f) + [] == Lines(files, f);
    } else {
      var prefix := anns[..|anns| - 1];
      assert forall i :: 0 <= i < |prefix| ==> Convertible(index, prefix[i]) by {
        forall i | 0 <= i < |prefix| ensures Convertible(index, prefix[i]) {
          assert prefix[i] == anns[i];
        }
      }
      AnnotationsAppend(split, index, prefix, files, f);
      var before := RunAnnotations(split, index, prefix, files);
      var d := Destined(split, index, prefix, f);
      LastAnnotation(split, index, anns, files, f);
      var c := Convert(split, index, anns[|anns| - 1]).value;
      AppendLine(before.files, c.0, c.1, f);
      var tail := if c.0 == f then [c.1] else [];
      Associative(Lines(files, f), d, tail);
    }
  }

  /** The last annotation, once the ones before it converted, appends its line. */
  lemma LastAnnotation(split: Split, index: map<int, Image>, anns: seq<Annotation>, files: LabelFiles, f: LabelFile)
    requires anns != [] && Convertible(index, anns[|anns| - 1])
    requires RunAnnotations(split, index, anns[..|anns| - 1], files).failure.None?
    ensures var c := Convert(split, index, anns[|anns| - 1]).value;
      var before := RunAnnotations(split, index, anns[..|anns| - 1], files);
      && RunAnnotations(split, index, anns, files) == Run(before.files[c.0 := Lines(before.files, c.0) + [c.1]], None)
      && Destined(split, index, anns, f) == Destined(split, index, anns[..|anns| - 1], f) + (if c.0 == f then [c.1] else [])
  {
  }

  /** Appending a line to `g` adds it to `g` alone and creates no file but `g`. */
  lemma AppendLine(files: LabelFiles, g: LabelFile, line: LabelLine, f: LabelFile)
    ensures var after := files[g := Lines(files, g) + [line]];
      && Lines(after, f) == Lines(files, f) + (if g == f then [line] else [])
      && (f in after <==> f in files || g == f)
  {
  }

  /** The run stops at the first annotation that cannot be converted, with the label files
      as the annotations before it left them. */
  lemma {:induction false} StopsAtFirstFailure(split: Split, index: map<int, Image>, anns: seq<Annotation>, files: LabelFiles, k: nat)
    requires k < |anns|
    requires forall i :: 0 <= i < k ==> Convertible(index, anns[i])
    requires !Convertible(index, anns[k])
    ensures RunAnnotations(split, index, anns, files)
         == Run(RunAnnotations(split, index, anns[..k], files).files, Some(Convert(split, index, anns[k]).error))
    decreases |anns|
  {
    var prefix := anns[..|anns| - 1];
    assert forall i :: 0 <= i < |prefix| ==> prefix[i] == anns[i];
    if k == |anns| - 1 {
      AnnotationsSucceedIff(split, index, prefix, files);
    } else {
      StopsAtFirstFailure(split, index, prefix, files, k);
      assert prefix[..k] == anns[..k];
    }
  }

  /** A run that failed on a prefix of the annotations has failed on all of them. */
  lemma {:induction false} FailureIsFinal(split: Split, index: map<int, Image>, anns: seq<Annotation>, files: LabelFiles, n: nat)
    requires n <= |anns|
    requires RunAnnotations(split, index, anns[..n], files).failure.Some?
    ensures RunAnnotations(split, index, anns, files) == RunAnnotations(split, index, anns[..n], files)
    decreases |anns| - n
  {
    if n < |anns| {
      assert anns[..n + 1][..n] == anns[..n];
      FailureIsFinal(split, index, anns, files, n + 1);
    } else {
      assert anns[..n] == anns;
    }
  }

  // ---------------------------------------------------------------------------
  // process_annotations

  /** The splits whose `coco.json` exists, with their parsed content. */
  type Dataset = map<Split, Coco>

  /** One iteration of the split loop: a split without `coco.json` is skipped. */
  function RunSplit(dataset: Dataset, split: Split, files: LabelFiles): Run
  {
    if split !in dataset then Run(files, None)
    else
      var data := dataset[split];
      RunAnnotations(split, ImageIndex(data.images), data.annotations, files)
  }

  /** The split loop over `splits`, stopping at the first exception. */
  function RunSplits(dataset: Dataset, splits: seq<Split>, files: LabelFiles): Run
    decreases |splits|
  {
    if splits == [] then Run(files, None)
    else
      var before := RunSplits(dataset, splits[..|splits| - 1], files);
      if before.failure.Some? then before
      else RunSplit(dataset, splits[|splits| - 1], before.files)
  }

  /** Every annotation of the split converts (or the split has no `coco.json`). */
  predicate SplitOk(dataset: Dataset, split: Split)
  {
    split in dataset ==>
      var data := dataset[split];
      forall i :: 0 <= i < |data.annotations| ==> Convertible(ImageIndex(data.images), data.annotations[i])
  }

  /** Every split converts. */
  predicate AllSplitsOk(dataset: Dataset)
  {
    SplitOk(dataset, Train) && SplitOk(dataset, Val) && SplitOk(dataset, Test)
  }

  /** The lines the whole dataset writes to label file `f`. */
  function DatasetLines(dataset: Dataset, f: LabelFile): seq<LabelLine>
  {
    if f.split !in dataset then []
    else
      var data := dataset[f.split];
      Destined(f.split, ImageIndex(data.images), data.annotations, f)
  }

  /** The annotations of one split only write to that split's directory. */
  lemma {:induction false} DestinedToOwnSplit(split: Split, index: map<int, Image>, anns: seq<Annotation>, f: LabelFile)
    requires f.split != split
    ensures Destined(split, index, anns, f) == []
    decreases |anns|
  {
    if anns != [] {
      DestinedToOwnSplit(split, index, anns[..|anns| - 1], f);
    }
  }

  /** One split's run fails exactly when it holds an annotation that cannot be converted. */
  lemma SplitSucceedsIff(dataset: Dataset, split: Split, files: LabelFiles)
    ensures RunSplit(dataset, split, files).failure.None? <==> SplitOk(dataset, split)
  {
    if split in dataset {
      var data := dataset[split];
      AnnotationsSucceedIff(split, ImageIndex(data.images), data.annotations, files);
    }
  }

  /** A split that converts appends its own lines to the label files of its directory. */
  lemma SplitAppends(dataset: Dataset, split: Split, files: LabelFiles, f: LabelFile)
    requires SplitOk(dataset, split)
    ensures var r := RunSplit(dataset, split, files);
      var added := if f.split == split then DatasetLines(dataset, f) else [];
      && r.failure.None?
      && Lines(r.files, f) == Lines(files, f) + added
      && (f in r.files <==> f in files || added != [])
  {
    if split in dataset {
      var data := dataset[split];
      var index := ImageIndex(data.images);
      AnnotationsAppend(split, index, data.annotations, files, f);
      if f.split != split {
        DestinedToOwnSplit(split, index, data.annotations, f);
      }
    } else {
      assert Lines(files, f) + [] == Lines(files, f);
    }
  }

  /** `process_annotations(dataset_path)` on label files `files`: the label files afterwards,
      and the exception that stopped it, if any. */
  function ProcessAnnotationsSpec(dataset: Dataset, files: LabelFiles): Run
  {
    RunSplits(dataset, Splits, files)
  }

  /** The conversion runs train, then val, then test, and stops at the first exception. */
  lemma SplitsInOrder(dataset: Dataset, files: LabelFiles)
    ensures var train := RunSplit(dataset, Train, files);
      var val := RunSplit(dataset, Val, train.files);
      ProcessAnnotationsSpec(dataset, files)
        == if train.failure.Some? then train
           else if val.failure.Some? then val
           else RunSplit(dataset, Test, val.files)
  {
    var train := RunSplit(dataset, Train, files);
    var val := RunSplit(dataset, Val, train.files);
    assert [Train][..0] == [];
    assert RunSplits(dataset, [Train], files) == train;
    assert [Train, Val][..1] == [Train];
    var two := RunSplits(dataset, [Train, Val], files);
    assert two == if train.failure.Some? then train else val;
    assert Splits[..2] == [Train, Val];
  }

  /** A successful conversion appends to every label file the lines of its split's
      annotations, after what the file already held; images without annotations get no file,
      and a split without `coco.json` adds nothing. */
  lemma ConversionAppends(dataset: Dataset, files: LabelFiles, f: LabelFile)
    requires AllSplitsOk(dataset)
    ensures var r := ProcessAnnotationsSpec(dataset, files);
      && r.failure.None?
      && Lines(r.files, f) == Lines(files, f) + DatasetLines(dataset, f)
      && (f in r.files <==> f in files || DatasetLines(dataset, f) != [])
  {
    var r := ProcessAnnotationsSpec(dataset, files);
    var lines := DatasetLines(dataset, f);
    SplitsInOrder(dataset, files);
    var train := RunSplit(dataset, Train, files);
    SplitAppends(dataset, Train, files, f);
    var val := RunSplit(dataset, Val, train.files);
    SplitAppends(dataset, Val, train.files, f);
    var test := RunSplit(dataset, Test, val.files);
    SplitAppends(dataset, Test, val.files, f);
    assert r == test;
    var added1 := if f.split == Train then lines else [];
    var added2 := if f.split == Val then lines else [];
    var added3 := if f.split == Test then lines else [];
    assert Lines(r.files, f) == Lines(files, f) + added1 + added2 + added3;
    assert (f in r.files) == (f in files || added1 != [] || added2 != [] || added3 != []);
    OneSplitAdds(Lines(files, f), lines, f.split);
  }

  /** Of the three splits, exactly the label file's own split adds its lines. */
  lemma OneSplitAdds(before: seq<LabelLine>, lines: seq<LabelLine>, split: Split)
    ensures before + (if split == Train then lines else []) + (if split == Val then lines else [])
      + (if split == Test then lines else []) == before + lines
    ensures ((if split == Train then lines else []) != [] || (if split == Val then lines else []) != []
      || (if split == Test then lines else []) != []) <==> lines != []
  {
    if split == Train {
      assert before + lines + [] + [] == before + lines;
    } else if split == Val {
      assert before + [] + lines + [] == before + lines;
    } else {
      assert before + [] + [] + lines == before + lines;
    }
  }

  /** Label files are opened for appending, so converting twice writes every line twice. */
  lemma RerunDuplicatesLines(dataset: Dataset, files: LabelFiles, f: LabelFile)
    requires AllSplitsOk(dataset)
    ensures var once := ProcessAnnotationsSpec(dataset, files).files;
      var twice := ProcessAnnotationsSpec(dataset, once);
      twice.failure.None? && Lines(twice.files, f) == Lines(files, f) + DatasetLines(dataset, f) + DatasetLines(dataset, f)
  {
    ConversionAppends(dataset, files, f);
    ConversionAppends(dataset, ProcessAnnotationsSpec(dataset, files).files, f);
  }

  /** The conversion fails exactly when some split holds an annotation that cannot be converted. */
  lemma ConversionSucceedsIff(dataset: Dataset, files: LabelFiles)
    ensures ProcessAnnotationsSpec(dataset, files).failure.None? <==> AllSplitsOk(dataset)
  {
    SplitsInOrder(dataset, files);
    var train := RunSplit(dataset, Train, files);
    var val := RunSplit(dataset, Val, train.files);
    SplitSucceedsIff(dataset, Train, files);
    SplitSucceedsIff(dataset, Val, train.files);
    SplitSucceedsIff(dataset, Test, val.files);
  }

  /** A failure in the train split ends the conversion there: val and test are not touched. */
  lemma TrainFailureStops(dataset: Dataset, files: LabelFiles)
    requires !SplitOk(dataset, Train)
    ensures ProcessAnnotationsSpec(dataset, files) == RunSplit(dataset, Train, files)
    ensures ProcessAnnotationsSpec(dataset, files).failure.Some?
  {
    SplitsInOrder(dataset, files);
    SplitSucceedsIff(dataset, Train, files);
  }

  /** A split loop that failed on a prefix of the splits has failed on all of them. */
  lemma {:induction false} SplitFailureIsFinal(dataset: Dataset, splits: seq<Split>, files: LabelFiles, n: nat)
    requires n <= |splits|
    requires RunSplits(dataset, splits[..n], files).failure.Some?
    ensures RunSplits(dataset, splits, files) == RunSplits(dataset, splits[..n], files)
    decreases |splits| - n
  {
    if n < |splits| {
      assert splits[..n + 1][..n] == splits[..n];
      SplitFailureIsFinal(dataset, splits, files, n + 1);
    } else {
      assert splits[..n] == splits;
    }
  }

  /** One more pass of the annotation loop, after a prefix that raised nothing. */
  lemma AnnotationStep(split: Split, index: map<int, Image>, anns: seq<Annotation>, files0: LabelFiles, i: nat, files: LabelFiles)
    requires i < |anns|
    requires RunAnnotations(split, index, anns[..i], files0) == Run(files, None)
    ensures RunAnnotations(split, index, anns[..i + 1], files0)
         == match Convert(split, index, anns[i])
            case Failure(e) => Run(files, Some(e))
            case Success((f, line)) => Run(files[f := Lines(files, f) + [line]], None)
  {
    assert anns[..i + 1][..i] == anns[..i];
  }

  /** The body of the split loop of `process_annotations` for a split whose `coco.json`
      holds `data`: index the images by id, then append one line per annotation to the label
      file of its image, stopping at the first exception. */
  method ConvertSplit(split: Split, data: Coco, files0: LabelFiles) returns (files: LabelFiles, failure: Option<Failure>)
    ensures Run(files, failure) == RunAnnotations(split, ImageIndex(data.images), data.annotations, files0)
  {
    var index := ImageIndex(data.images);
    var anns := data.annotations;
    files, failure := files0, None;
    var i := 0;
    while i < |anns|
      invariant 0 <= i <= |anns|
      invariant RunAnnotations(split, index, anns[..i], files0) == Run(files, None)
    {
      AnnotationStep(split, index, anns, files0, i, files);
      match Convert(split, index, anns[i])
      case Failure(e) =>
        failure := Some(e);
        FailureIsFinal(split, index, anns, files0, i + 1);
        return;
      case Success((f, line)) =>
        // the label file is opened in append mode
        files := files[f := Lines(files, f) + [line]];
      i := i + 1;
    }
    assert anns[..i] == anns;
  }

  /** `process_annotations`: the splits train, val and test in turn; a split without
      `coco.json` is skipped. */
  method ProcessAnnotations(dataset: Dataset, files0: LabelFiles) returns (files: LabelFiles, failure: Option<Failure>)
    ensures Run(files, failure) == ProcessAnnotationsSpec(dataset, files0)
  {
    files, failure := files0, None;
    var s := 0;
    while s < |Splits|
      invariant 0 <= s <= |Splits|
      invariant failure.None?
      invariant Run(files, None) == RunSplits(dataset, Splits[..s], files0)
    {
      var split := Splits[s];
      ghost var before := files;
      assert Splits[..s + 1][..s] == Splits[..s];
      assert RunSplits(dataset, Splits[..s + 1], files0) == RunSplit(dataset, split, before);
      if split in dataset {
        files, failure := ConvertSplit(split, dataset[split], files);
        if failure.Some? {
          SplitFailureIsFinal(dataset, Splits, files0, s + 1);
          return;
        }
      }
      s := s + 1;
    }
    assert Splits[..s] == Splits;
  }

  // ---------------------------------------------------------------------------
  // create_yaml_file

  /** The key/value pairs of the class-table comprehension, one per category. */
  function ClassPairs(categories: seq<Category>): (pairs: seq<(int, string)>)
    ensures |pairs| == |categories|
    ensures forall i :: 0 <= i < |categories| ==> pairs[i] == (categories[i].id - 1, categories[i].name)
  {
    seq(|categories|, i requires 0 <= i < |categories| => (categories[i].id - 1, categories[i].name))
  }

  /** `{category['id'] - 1: category['name'] for category in categories}`: the zero-based
      class index of every category, with its name. */
  function ClassTable(categories: seq<Category>): (table: map<int, string>)
    ensures forall i :: 0 <= i < |categories| ==> categories[i].id - 1 in table
    ensures forall k :: k in table ==> exists i :: 0 <= i < |categories| && categories[i].id - 1 == k
  {
    var pairs := ClassPairs(categories);
    assert forall i :: 0 <= i < |categories| ==> pairs[i].0 == categories[i].id - 1;
    FromPairs(pairs).items
  }

  /** A repeated category id keeps the name of its last category. */
  lemma ClassTableLastWins(categories: seq<Category>, i: nat)
    requires i < |categories|
    requires forall j :: i < j < |categories| ==> categories[j].id != categories[i].id
    ensures ClassTable(categories)[categories[i].id - 1] == categories[i].name
  {
    var pairs := ClassPairs(categories);
    assert pairs[i] == (categories[i].id - 1, categories[i].name);
    assert forall j :: i < j < |pairs| ==> pairs[j].0 != pairs[i].0 by {
      forall j | i < j < |pairs| ensures pairs[j].0 != pairs[i].0 {
        assert pairs[j].0 == categories[j].id - 1;
      }
    }
    LastValueWins(pairs, i);
  }

  /** Every class name in the table is the name of a category with that index. */
  lemma ClassNameFromCategory(categories: seq<Category>, k: int)
    requires k in ClassTable(categories)
    ensures exists i :: 0 <= i < |categories| && categories[i].id - 1 == k && categories[i].name == ClassTable(categories)[k]
  {
    var pairs := ClassPairs(categories);
    var table := FromPairs(pairs).items;
    assert ClassTable(categories) == table;
    ValueFromPair(pairs, k);
    var i :| 0 <= i < |pairs| && pairs[i] == (k, table[k]);
    assert categories[i].id - 1 == k && categories[i].name == table[k];
  }

  /** `sorted(table.items())`: the index/name pairs of the class table by ascending index (the
      indices are distinct, so the names never decide the order). */
  function SortedItems(table: map<int, string>): (items: seq<(int, string)>)
    ensures |items| == |table|
    ensures forall i :: 0 <= i < |items| ==> items[i].0 in table && table[items[i].0] == items[i].1
    ensures forall k :: k in table ==> exists i :: 0 <= i < |items| && items[i].0 == k
    ensures forall i, j :: 0 <= i < j < |items| ==> items[i].0 < items[j].0
  {
    var keys := SortedKeys(table.Keys);
    ItemsOfKeys(table, keys);
    ItemsOf(table, keys)
  }

  /** The entries of `table` at `keys`, in that order. */
  function ItemsOf(table: map<int, string>, keys: seq<int>): (items: seq<(int, string)>)
    requires forall i :: 0 <= i < |keys| ==> keys[i] in table
    ensures |items| == |keys|
    ensures forall i :: 0 <= i < |keys| ==> items[i] == (keys[i], table[keys[i]])
  {
    seq(|keys|, i requires 0 <= i < |keys| => (keys[i], table[keys[i]]))
  }

  lemma ItemsOfKeys(table: map<int, string>, keys: seq<int>)
    requires |keys| == |table.Keys|
    requires forall i :: 0 <= i < |keys| ==> keys[i] in table
    requires forall k :: k in table ==> k in keys
    requires Ascending(keys)
    ensures var items := ItemsOf(table, keys);
      && |items| == |table|
      && (forall i :: 0 <= i < |items| ==> items[i].0 in table && table[items[i].0] == items[i].1)
      && (forall k :: k in table ==> exists i :: 0 <= i < |items| && items[i].0 == k)
      && (forall i, j :: 0 <= i < j < |items| ==> items[i].0 < items[j].0)
  {
    var items := ItemsOf(table, keys);
    forall k | k in table ensures exists i :: 0 <= i < |items| && items[i].0 == k {
      var i :| 0 <= i < |keys| && keys[i] == k;
      assert items[i].0 == k;
    }
    forall i, j | 0 <= i < j < |items| ensures items[i].0 < items[j].0 {
      assert items[i].0 == keys[i] && items[j].0 == keys[j];
    }
  }

  /** One line of the `names:` section: `f"  {id}: {name}"`. */
  function ClassEntry(item: (int, string)): (line: string)
    ensures "  " <= line
    ensures |item.1| <= |line| && line[|line| - |item.1|..] == item.1
  {
    "  " + IntToString(item.0) + ": " + item.1
  }

  /** The lines of the `names:` section, by ascending class index. */
  function ClassEntries(table: map<int, string>): seq<string>
  {
    var items := SortedItems(table);
    seq(|items|, i requires 0 <= i < |items| => ClassEntry(items[i]))
  }

  /** One class line per table entry, and every entry has its line. */
  lemma EveryClassListed(table: map<int, string>)
    ensures var entries := ClassEntries(table);
      && |entries| == |table|
      && forall k :: k in table ==> exists i :: 0 <= i < |entries| && entries[i] == ClassEntry((k, table[k]))
  {
    var items := SortedItems(table);
    var entries := ClassEntries(table);
    forall k | k in table ensures exists i :: 0 <= i < |entries| && entries[i] == ClassEntry((k, table[k])) {
      var i :| 0 <= i < |items| && items[i].0 == k;
      assert entries[i] == ClassEntry(items[i]);
    }
  }

  /** The fixed lines of `data.yaml`, up to the `names:` key: the dataset root, the train
      and val image directories, an empty test entry and the classes comment. */
  function HeadLines(root: string): seq<string>
  {
    [ "path: " + root + "  # dataset" + " root dir",
      "train: " + "images/train" + "  # train images" + " (relative to 'path')",
      "val: " + "images/val" + "  # val images" + " (relative to 'path')",
      "test:" + "  # test images" + " (optional)",
      "",
      "# Classes",
      "names:" ]
  }

  /** The head of the template, its fixed lines joined. */
  function Head(root: string): string
  {
    Join("\n", HeadLines(root))
  }

  /** The `names:` lines after the head: one line per class. */
  function Body(entries: seq<string>): string
  {
    "\n" + Join("\n", entries)
  }

  /** What follows the head in the template: the class lines and the indentation before the
      closing quotes. */
  function Tail(entries: seq<string>): string
  {
    Body(entries) + "\n    "
  }

  /** The template of `create_yaml_file` filled in, before `strip()`. */
  function YamlContent(root: string, entries: seq<string>): string
  {
    Head(root) + Tail(entries)
  }

  /** `create_yaml_file(dataset_path)`: the text written to `data.yaml`, with `root` for
      `dataset_path.absolute()`; nothing is written without a train `coco.json`. */
  function CreateYamlFile(dataset: Dataset, root: string): (r: Option<string>)
    ensures r.None? <==> Train !in dataset
  {
    if Train !in dataset then None
    else Some(Strip(YamlContent(root, ClassEntries(ClassTable(dataset[Train].categories)))))
  }

  /** The head starts with the `path: ` key and ends with the `names:` key. */
  lemma HeadEnds(root: string)
    ensures var head := Head(root);
      && |head| >= 6 && head[..6] == "path: " && head[|head| - 6..] == "names:"
      && head[0] == 'p' && head[|head| - 1] == ':'
  {
    var lines := HeadLines(root);
    var head := Head(root);
    assert head == lines[0] + "\n" + Join("\n", lines[1..]);
    assert lines[0][..6] == "path: ";
    assert head[..6] == lines[0][..6];
    JoinEndsWithLast(lines);
    assert head[|head| - 6..] == "names:";
    assert head[|head| - 1] == "names:"[5];
  }

  /** `strip()` leaves the head alone and only trims white space after the last entry. */
  lemma YamlLayout(root: string, entries: seq<string>)
    ensures Strip(YamlContent(root, entries)) == Head(root) + RStrip(Body(entries))
  {
    HeadEnds(root);
    StripAfterHead(Head(root), entries);
  }

  lemma StripAfterHead(head: string, entries: seq<string>)
    requires head != [] && head[0] == 'p' && head[|head| - 1] == ':'
    ensures Strip(head + Tail(entries)) == head + RStrip(Body(entries))
  {
    var content := head + Tail(entries);
    assert content[0] == 'p';
    assert LStrip(content) == content;
    RStripAfter(head, Tail(entries));
    RStripSpaces(Body(entries), "\n    ");
  }

  /** With at least one class, and a last class name that does not end in white space, the
      written file is the head followed by one line per class. */
  lemma YamlExact(root: string, entries: seq<string>)
    requires entries != []
    requires var last := entries[|entries| - 1]; last != [] && !IsSpace(last[|last| - 1])
    ensures Strip(YamlContent(root, entries)) == Head(root) + Body(entries)
  {
    YamlLayout(root, entries);
    BodyKept(entries);
  }

  /** The class lines end with the last class line, so `rstrip` keeps them whole when that
      line ends in a non-space character. */
  lemma BodyKept(entries: seq<string>)
    requires entries != []
    requires var last := entries[|entries| - 1]; last != [] && !IsSpace(last[|last| - 1])
    ensures RStrip(Body(entries)) == Body(entries)
  {
    var j := Join("\n", entries);
    JoinEndsWithLast(entries);
    var body := Body(entries);
    assert body[|body| - 1] == j[|j| - 1];
  }

  /** `sep.join(parts)` ends with the last part. */
  lemma {:induction false} JoinEndsWithLast(parts: seq<string>)
    requires parts != []
    ensures var j := Join("\n", parts); var last := parts[|parts| - 1];
      |last| <= |j| && j[|j| - |last|..] == last
    decreases |parts|
  {
    if |parts| > 1 {
      JoinEndsWithLast(parts[1..]);
      var j := Join("\n", parts[1..]);
      assert Join("\n", parts) == parts[0] + "\n" + j;
    }
  }

  /** Without classes the file stops at the `names:` key. */
  lemma YamlWithoutClasses(root: string)
    ensures Strip(YamlContent(root, [])) == Head(root)
  {
    YamlLayout(root, []);
    EmptyBodyStripped();
    assert Head(root) + [] == Head(root);
  }

  lemma EmptyBodyStripped()
    ensures RStrip(Body([])) == []
  {
    assert Body([]) == "\n";
    assert IsSpace('\n');
    assert RStrip("\n") == RStrip([]);
  }

  /** Splitting the written file into lines gives the fixed lines, then one line per class:
      the `path`, `train`, `val` and `test` keys always come first, with `images/train`,
      `images/val` and an empty test entry. */
  lemma YamlLines(root: string, entries: seq<string>)
    requires '\n' !in root
    requires KeptLines(entries)
    ensures SplitOn(Strip(YamlContent(root, entries)), '\n') == HeadLines(root) + entries
  {
    HeadLinesAreLines(root);
    if entries == [] {
      HeadOnlyLines(root);
    } else {
      YamlExact(root, entries);
      LinesThenEntries(HeadLines(root), entries);
    }
  }

  /** Without classes, the written file's lines are the fixed lines. */
  lemma HeadOnlyLines(root: string)
    requires '\n' !in root
    ensures SplitOn(Strip(YamlContent(root, [])), '\n') == HeadLines(root) + []
  {
    YamlWithoutClasses(root);
    HeadSplit(root);
    assert HeadLines(root) + [] == HeadLines(root);
  }

  /** Splitting the head into lines gives back the fixed lines. */
  lemma HeadSplit(root: string)
    requires '\n' !in root
    ensures SplitOn(Head(root), '\n') == HeadLines(root)
  {
    HeadLinesAreLines(root);
    SplitJoin(HeadLines(root), '\n');
  }

  /** Lines joined, then the class lines: splitting gives back both lists. */
  lemma LinesThenEntries(lines: seq<string>, entries: seq<string>)
    requires lines != [] && entries != []
    requires forall i :: 0 <= i < |lines| ==> '\n' !in lines[i]
    requires forall i :: 0 <= i < |entries| ==> '\n' !in entries[i]
    ensures SplitOn(Join("\n", lines) + Body(entries), '\n') == lines + entries
  {
    JoinThenBody(lines, entries);
    BothLines(lines, entries);
    SplitJoin(lines + entries, '\n');
  }

  lemma JoinThenBody(lines: seq<string>, entries: seq<string>)
    requires lines != [] && entries != []
    ensures Join("\n", lines) + Body(entries) == Join("\n", lines + entries)
  {
    JoinAppend("\n", lines, entries);
    var a, b := Join("\n", lines), Join("\n", entries);
    assert a + Body(entries) == a + "\n" + b;
  }

  lemma BothLines(lines: seq<string>, entries: seq<string>)
    requires forall i :: 0 <= i < |lines| ==> '\n' !in lines[i]
    requires forall i :: 0 <= i < |entries| ==> '\n' !in entries[i]
    ensures forall i :: 0 <= i < |lines + entries| ==> '\n' !in (lines + entries)[i]
  {
    var all := lines + entries;
    forall i | 0 <= i < |all| ensures '\n' !in all[i] {
      if i < |lines| {
        assert all[i] == lines[i];
      } else {
        assert all[i] == entries[i - |lines|];
      }
    }
  }

  /** The fixed lines hold no line break (when the root path holds none). */
  lemma HeadLinesAreLines(root: string)
    requires '\n' !in root
    ensures forall i :: 0 <= i < |HeadLines(root)| ==> '\n' !in HeadLines(root)[i]
  {
    NoBreakInPath(root);
    NoBreakInTrainVal();
    NoBreakInTest();
  }

  lemma NoBreakInPath(root: string)
    requires '\n' !in root
    ensures '\n' !in HeadLines(root)[0]
  {
    assert '\n' !in "path: " && '\n' !in "  # dataset" && '\n' !in " root dir";
  }

  lemma NoBreakInTrainVal()
    ensures '\n' !in "train: " + "images/train" + "  # train images" + " (relative to 'path')"
    ensures '\n' !in "val: " + "images/val" + "  # val images" + " (relative to 'path')"
  {
    assert '\n' !in " (relative to 'path')";
  }

  lemma NoBreakInTest()
    ensures '\n' !in "test:" + "  # test images" + " (optional)"
    ensures '\n' !in "# Classes" && '\n' !in "names:"
  {
  }

  /** The class names as `data.yaml` needs them to stay on their own lines: no line break,
      and no trailing white space for `strip()` to remove. */
  predicate PlainName(name: string)
  {
    name != [] && '\n' !in name && !IsSpace(name[|name| - 1])
  }

  predicate PlainNames(table: map<int, string>)
  {
    forall k :: k in table ==> PlainName(table[k])
  }

  /** Lines that `strip()` leaves whole when they end the file: none holds a line break, and
      the last one ends in a non-space character. */
  predicate KeptLines(entries: seq<string>)
  {
    && (forall i :: 0 <= i < |entries| ==> '\n' !in entries[i])
    && (entries == [] || var last := entries[|entries| - 1]; last != [] && !IsSpace(last[|last| - 1]))
  }

  /** `create_yaml_file` writes `data.yaml` exactly when the train `coco.json` exists; split into
      lines, the file holds the fixed lines, then one line `  <index>: <name>` per class by
      ascending index. */
  lemma YamlFileLines(dataset: Dataset, root: string)
    requires Train in dataset && '\n' !in root
    requires forall i :: 0 <= i < |dataset[Train].categories| ==> PlainName(dataset[Train].categories[i].name)
    ensures var table := ClassTable(dataset[Train].categories);
      var r := CreateYamlFile(dataset, root);
      r.Some? && SplitOn(r.value, '\n') == HeadLines(root) + ClassEntries(table)
  {
    var categories := dataset[Train].categories;
    var entries := ClassEntries(ClassTable(categories));
    CategoryLines(categories);
    YamlLines(root, entries);
  }

  /** Plainly named categories give class lines that `data.yaml` keeps as they are. */
  lemma CategoryLines(categories: seq<Category>)
    requires forall i :: 0 <= i < |categories| ==> PlainName(categories[i].name)
    ensures KeptLines(ClassEntries(ClassTable(categories)))
  {
    PlainTable(categories);
    EntriesAreLines(ClassTable(categories));
  }

  /** Plainly named categories give a table of plain names. */
  lemma PlainTable(categories: seq<Category>)
    requires forall i :: 0 <= i < |categories| ==> PlainName(categories[i].name)
    ensures PlainNames(ClassTable(categories))
  {
    forall k | k in ClassTable(categories) ensures PlainName(ClassTable(categories)[k]) {
      ClassNameFromCategory(categories, k);
    }
  }

  /** Plain class names give class lines that `data.yaml` keeps as they are. */
  lemma EntriesAreLines(table: map<int, string>)
    requires PlainNames(table)
    ensures KeptLines(ClassEntries(table))
  {
    var items := SortedItems(table);
    var entries := ClassEntries(table);
    assert |entries| == |items|;
    forall i | 0 <= i < |entries| ensures '\n' !in entries[i] {
      assert entries[i] == ClassEntry(items[i]);
      EntryIsLine(items[i]);
    }
    if entries != [] {
      assert entries[|entries| - 1] == ClassEntry(items[|items| - 1]);
      EntryIsLine(items[|items| - 1]);
    }
  }

  /** The entry of a plainly named class is one line that ends with the name. */
  lemma EntryIsLine(item: (int, string))
    requires PlainName(item.1)
    ensures var e := ClassEntry(item); '\n' !in e && e != [] && e[|e| - 1] == item.1[|item.1| - 1]
  {
    IntToStringChars(item.0, '\n');
    assert '\n' !in "  " && '\n' !in ": ";
  }
}
