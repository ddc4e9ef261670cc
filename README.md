# COCO-to-YOLO conversion and the Jetson detector's label helpers, in Dafny

This project models two parts of an object-detection workshop. It proves what each one promises.

**The COCO-to-YOLO converter** (`coco2yolo.py`) has three parts:
- `convert_coco_to_yolo` turns a pixel box into a box normalised by the image size.
- `process_annotations` walks the train, val and test splits. For every annotation it appends one line to the label file of the annotation's image.
- `create_yaml_file` renders the dataset manifest `data.yaml` from the class table of the train split.

**The detector helpers** (`detector_infer_jetson.py`) are:
- `load_config_file`: reads the label-file path from the inference configuration.
- `load_label_file`: numbers the labels.
- The counting core of `process_frame`: a zero counter per class id, one increment per detected object, then the overlay text `Frame Number=<n> Number of Objects=<m> <label>_count=<v> ...`.

Modules:
- `Wrappers`: `Option` and `Result`.
- `PyText`: the Python `str` builtins the two programs use: `strip`, `split`, `join`, substring `in` and `str(int)`.
- `Dicts`: a Python dict built by a comprehension. Keys keep their first insertion position, and a repeated key takes the value of its last pair.
- `Sorting`: `sorted` on distinct integers.
- `Coco2Yolo`: the converter.
- `Detector`: the detector helpers.

How the state is represented:
- The label files on disk are a value `map<LabelFile, seq<LabelLine>>`. `ProcessAnnotations` and `ConvertSplit` take it in and hand the new map back, with a `while` loop over the splits and another over the annotations.
- The counting loop (`CountObjects`) and the `+=` loop that builds the overlay text (`DisplayText`) are methods proved against the functions `Counted` and `Overlay`.
- Configuration and label files are given as their lines.
- A split's `coco.json` is given as already-parsed records. A split whose `coco.json` does not exist is absent from the `Dataset` map.
- Exceptions that abort a run are modelled as values:
  - the converter's `KeyError` for an unlisted image id becomes `MissingImage`;
  - its `ZeroDivisionError` for an image of width or height 0 becomes `ZeroSize`;
  - the detector's `ValueError` becomes `LabelPathNotFound`;
  - its `KeyError` for an unknown class id becomes `UnknownClass`.

Four behaviours of the code worth knowing:
- **Label files are appended to, not created fresh.** Pre-existing lines stay, and converting twice writes every line twice (`RerunDuplicatesLines`).
- **Normalised values are not clamped to [0, 1].** A box that leaves the image leaves the unit square (`InsideImageIff`).
- **Splits run in order, and an error stops the run.** Train, val and test run in that order. An exception in one split ends the whole run, so the later splits are never processed (`SplitsInOrder`, `TrainFailureStops`).
- **A label file is named after the image's stem alone.** Two images of one split with the same stem share one label file and both append to it. Examples are `a.jpg` and `a.png`, or `x/a.jpg` and `y/a.jpg` (`SameStemSameFile`, `StemCollision`).

## Model

| member | source | states |
|---|---|---|
| Coco2Yolo.ConvertBox | coco2yolo.py:11-23 | the normalised width and height times the image size give the pixel width and height; the normalised centre times the size gives the pixel centre; `x - w/2` and `y - h/2` recover the top-left corner divided by the size |
| Coco2Yolo.CocoRoundTrip | coco2yolo.py:17-22 | converting a pixel box to YOLO and back gives the original box |
| Coco2Yolo.YoloRoundTrip | coco2yolo.py:17-22 | every YOLO box is the conversion of the pixel box it stands for, so the conversion is a bijection for a non-zero size |
| Coco2Yolo.InsideImageIff | coco2yolo.py:17-23 | no clamping: the normalised box lies in [0, 1] on an axis exactly when the pixel box lies within the image on that axis |
| Coco2Yolo.UnitRange | coco2yolo.py:17-23 | a box of non-negative size inside the image has centre, width and height in [0, 1] |
| Coco2Yolo.ConvertExample | coco2yolo.py:11-23 | a 30x40 box at (10, 20) in a 100x200 image becomes (0.25, 0.2, 0.3, 0.2) |
| Coco2Yolo.LastIndex | coco2yolo.py:50 | the position of the last occurrence of a character, or none exactly when it does not occur (the suffix search behind `Path.stem`) |
| Coco2Yolo.Name | coco2yolo.py:46 | `Path(file_name).name` holds no '/' and is never "." |
| Coco2Yolo.StemDropsExtension | coco2yolo.py:50 | the stem of `dir/base.ext` is `base`, so the label file of `dir/base.ext` is `base.txt` |
| Coco2Yolo.NameAfterSlash | coco2yolo.py:46 | the name of `dir/name` is `name` |
| Coco2Yolo.StemOfName | coco2yolo.py:50 | only the last dot of a name starts its suffix |
| Coco2Yolo.Stem | coco2yolo.py:50 | `Path(file_name).stem`: the name without its last suffix, where a leading or a trailing dot starts no suffix (its properties are the lemmas around it) |
| Coco2Yolo.StemOfPath | coco2yolo.py:50 | the stem is a prefix of the name and holds no '/' |
| Coco2Yolo.NameOfBareName | coco2yolo.py:46 | a bare file name such as `000000397133.jpg` is its own name |
| Coco2Yolo.BareStem | coco2yolo.py:50 | the stem of a bare `base.ext` is `base` |
| Coco2Yolo.SameStemSameFile | coco2yolo.py:50 | two convertible annotations of one split whose images have the same stem write to the same label file |
| Coco2Yolo.StemCollision | coco2yolo.py:50 | `dir1/base.ext1` and `dir2/base.ext2` both have the stem `base`, so their lines share `base.txt` |
| Coco2Yolo.ImageIndex | coco2yolo.py:39 | the id-to-image map holds exactly the ids of the listed images |
| Coco2Yolo.ImageIndexLastWins | coco2yolo.py:39 | an id listed twice maps to its last image |
| Coco2Yolo.Convert | coco2yolo.py:43-50 | one annotation converts exactly when its image is listed with non-zero width and height; otherwise it raises the `KeyError` of the missing image or the division by zero |
| Coco2Yolo.AnnotationAddsOneLine | coco2yolo.py:42-52 | a convertible annotation adds exactly one line, `category_id - 1` with its converted box, at the end of its image's label file and to no other file |
| Coco2Yolo.RunAnnotations | coco2yolo.py:42-52 | the annotation loop of one split as a fold: each annotation appends its line to its label file, and the first exception stops the loop with the lines appended so far (the reference the loop method is proved against) |
| Coco2Yolo.AnnotationsSucceedIff | coco2yolo.py:42-52 | the annotation loop of a split raises nothing exactly when every annotation converts |
| Coco2Yolo.AnnotationsAppend | coco2yolo.py:42-52 | when every annotation converts, each label file keeps its old lines and gains the lines destined to it in annotation order, and no file is created except one that gains lines |
| Coco2Yolo.StopsAtFirstFailure | coco2yolo.py:42-52 | the loop stops at the first annotation that does not convert, with that exception, and keeps the lines the annotations before it appended |
| Coco2Yolo.FailureIsFinal | coco2yolo.py:42-52 | once the annotation loop has raised, further annotations change nothing |
| Coco2Yolo.DestinedToOwnSplit | coco2yolo.py:50 | a split's annotations write only to label files in that split's directory |
| Coco2Yolo.SplitSucceedsIff | coco2yolo.py:29-52 | one split's pass raises nothing exactly when its `coco.json` is missing or all its annotations convert |
| Coco2Yolo.SplitAppends | coco2yolo.py:29-52 | a split that converts appends its own lines to the label files of its own directory, and a missing `coco.json` adds nothing |
| Coco2Yolo.RunSplits | coco2yolo.py:29-52 | the split loop as a fold: a split without `coco.json` is skipped, and the first exception stops the loop |
| Coco2Yolo.SplitsInOrder | coco2yolo.py:29-33 | the conversion runs train, then val, then test, and stops at the first split that raises |
| Coco2Yolo.ConversionAppends | coco2yolo.py:25-53 | a successful conversion appends to every label file the lines of its split's annotations after its old content; images without annotations get no file |
| Coco2Yolo.RerunDuplicatesLines | coco2yolo.py:51-52 | because files are opened for appending, converting twice writes every line twice |
| Coco2Yolo.ConversionSucceedsIff | coco2yolo.py:25-53 | the conversion raises nothing exactly when every split converts |
| Coco2Yolo.TrainFailureStops | coco2yolo.py:29-52 | an exception in the train split ends the conversion, and val and test are not touched |
| Coco2Yolo.SplitFailureIsFinal | coco2yolo.py:29-52 | once the split loop has raised, later splits change nothing |
| Coco2Yolo.ConvertSplit | coco2yolo.py:39-52 | the annotation loop, run step by step over the label files, ends in the label files and the exception that the fold `RunAnnotations` defines |
| Coco2Yolo.ProcessAnnotations | coco2yolo.py:25-53 | the split loop over train, val and test, skipping a missing `coco.json`, ends as the fold `ProcessAnnotationsSpec` over the three splits defines |
| Coco2Yolo.ClassTable | coco2yolo.py:66 | the class table holds exactly the zero-based indices of the categories |
| Coco2Yolo.ClassTableLastWins | coco2yolo.py:66 | a duplicate category id keeps the name of its last category |
| Coco2Yolo.ClassNameFromCategory | coco2yolo.py:66 | every name in the class table is the name of a category with that index |
| Coco2Yolo.SortedItems | coco2yolo.py:69 | the sorted items are exactly the table's entries, by strictly ascending index |
| Coco2Yolo.ClassEntry | coco2yolo.py:70 | the class line `  <index>: <name>` starts with two spaces and ends with the name |
| Coco2Yolo.ClassEntries | coco2yolo.py:69-70 | the class lines, one per item of the sorted class table (their properties are EveryClassListed and EntriesAreLines) |
| Coco2Yolo.EveryClassListed | coco2yolo.py:69-70 | there is one class line per table entry, and every entry has its line |
| Coco2Yolo.HeadLines | coco2yolo.py:72-78 | the fixed lines of the template: the `path`, `train: images/train`, `val: images/val` and empty `test` keys, a blank line, the `# Classes` comment and `names:` (its properties are HeadEnds and YamlFileLines) |
| Coco2Yolo.YamlContent | coco2yolo.py:72-80 | the filled-in template before `strip()`: the fixed lines, the class lines and the closing indentation |
| Coco2Yolo.CreateYamlFile | coco2yolo.py:55-85 | nothing is written exactly when the train `coco.json` is missing |
| Coco2Yolo.HeadEnds | coco2yolo.py:72-78 | the fixed part of the manifest starts with `path: ` and ends with `names:` |
| Coco2Yolo.YamlLayout | coco2yolo.py:72-84 | `strip()` leaves the fixed part alone and right-strips the class part, so it can also cut trailing white space off the last class name |
| Coco2Yolo.YamlExact | coco2yolo.py:70-84 | with at least one class whose line ends in a non-space character, the file is the fixed part followed by one line per class |
| Coco2Yolo.YamlWithoutClasses | coco2yolo.py:70-84 | without classes the file stops at the `names:` key |
| Coco2Yolo.YamlLines | coco2yolo.py:72-84 | when the root path holds no line break and the class lines hold none and the last ends in a non-space character, the written text split into lines is the fixed lines, then the class lines |
| Coco2Yolo.YamlFileLines | coco2yolo.py:55-85 | with plainly named categories, the written file's lines are the `path`, `train: images/train`, `val: images/val` and empty `test` lines, the `names:` key, then `  <index>: <name>` by ascending index |
| Coco2Yolo.CategoryLines | coco2yolo.py:66-70 | plainly named categories give class lines that the final `strip()` keeps whole |
| Coco2Yolo.EntryIsLine | coco2yolo.py:70 | a class line `  <index>: <name>` is one line ending with the name |
| Detector.ValueOf | detector_infer_jetson.py:63 | `line.split('=')[1]` holds no '=' and is shorter than the line |
| Detector.LoadConfigFile | detector_infer_jetson.py:59-64 | the lookup fails with `ValueError` exactly when no line contains `labelfile-path=` |
| Detector.ConfigFirstMatch | detector_infer_jetson.py:61-63 | the first line containing the key decides the result: the stripped text between its first and second '=' |
| Detector.LaterLinesIgnored | detector_infer_jetson.py:61-63 | once a line with the key is found, lines after it never change the result |
| Detector.FirstKeyLine | detector_infer_jetson.py:61-63 | a successful lookup has a first line that contains the key |
| Detector.KeyLineValue | detector_infer_jetson.py:62-63 | on a line `<pre>labelfile-path=<value>` followed by nothing or another '=', the result is `<value>` stripped |
| Detector.LoadLabelFile | detector_infer_jetson.py:76-78 | the label map holds exactly the lines' texts, each mapped to the number of a line holding it, and has no more keys than lines |
| Detector.LabelLineNumber | detector_infer_jetson.py:78 | a label on no later line maps to its own line number |
| Detector.LabelIsLastLine | detector_infer_jetson.py:78 | a repeated label maps to its last line |
| Detector.DistinctLabelsInOrder | detector_infer_jetson.py:78 | labels on distinct lines are listed in line order |
| Detector.InitialCounter | detector_infer_jetson.py:92 | the counter holds a zero for exactly the label numbers |
| Detector.CountObjects | detector_infer_jetson.py:97-106 | the loop succeeds exactly when every detected class id is in the counter; it fails with the first unknown id; on success each count rises by the number of objects of that class, and the entries and their order are unchanged |
| Detector.CountsSum | detector_infer_jetson.py:97-102 | the counts after the loop sum to the counts before plus the number of objects |
| Detector.TotalAddCounts | detector_infer_jetson.py:102 | adding the occurrences of listed ids adds their number to the sum of the counts |
| Detector.TotalIncrement | detector_infer_jetson.py:102 | one increment of a listed class adds one to the sum |
| Detector.FrameCounts | detector_infer_jetson.py:92-102 | after a frame of known classes, the counter holds exactly the label numbers, each with the number of its objects, and the counts sum to the number of objects |
| Detector.LabelOf | detector_infer_jetson.py:115 | the label shown for an id has that number and is the first such label in label order |
| Detector.FirstWithValue | detector_infer_jetson.py:115 | the position of the first label whose number is the id: it has that number and no earlier label does |
| Detector.LabelOfLoaded | detector_infer_jetson.py:78-115 | with labels read from a label file, the label shown for number `id` is line `id` |
| Detector.CounterOfDistinctLabels | detector_infer_jetson.py:78-92 | with distinct label lines, the counter lists the ids `0 .. n-1` in order |
| Detector.Header | detector_infer_jetson.py:112 | the header text `Frame Number=<n> Number of Objects=<m>` (its words are stated by HeaderWords) |
| Detector.Overlay | detector_infer_jetson.py:112-116 | the header, then ` <label>_count=<v>` per counter entry in counter order (the reference DisplayText is proved against; its words are stated by OverlayFields) |
| Detector.DisplayText | detector_infer_jetson.py:112-116 | the `+=` loop builds the header followed by ` <label>_count=<v>` for each counter entry, in counter order |
| Detector.CountedFits | detector_infer_jetson.py:92-115 | every entry of the counted counter has a label to show |
| Detector.ProcessFrame | detector_infer_jetson.py:92-116 | the frame succeeds exactly when every class id is a label number, fails with the first unknown id, and on success returns the counts and the overlay text of them |
| Detector.HeaderWords | detector_infer_jetson.py:112 | the header is the five words `Frame`, `Number=<n>`, `Number`, `of`, `Objects=<m>` joined by spaces |
| Detector.OverlayFields | detector_infer_jetson.py:112-116 | with labels free of spaces, splitting the overlay on spaces gives the five header words, then one `<label>_count=<v>` per counter entry, in order |
| PyText.LStrip | detector_infer_jetson.py:63 | `lstrip()` drops exactly the leading white space: a suffix of the text, all white space before it, starting with a non-space character |
| PyText.RStrip | coco2yolo.py:84 | `rstrip()` drops exactly the trailing white space: a prefix of the text, all white space after it, ending with a non-space character |
| PyText.Strip | detector_infer_jetson.py:63 | `strip()` returns the slice of the text between a run of leading and a run of trailing white space, and that slice starts and ends with a non-space character |
| PyText.Join | coco2yolo.py:70 | `sep.join(parts)` (its properties are JoinSplit, SplitJoin and JoinAppend) |
| PyText.JoinAppend | coco2yolo.py:70 | joining two non-empty lists is joining each and putting the separator between |
| PyText.Contains | detector_infer_jetson.py:62 | `sub in s`: `sub` starts at some position of `s` (its properties are ContainsAt and ContainsChar) |
| PyText.ContainsChar | detector_infer_jetson.py:62 | a text that contains `sub` contains every character of `sub` |
| PyText.NatToString | detector_infer_jetson.py:112 | `str(n)` for a natural number: decimal digits without a leading zero that denote `n` |
| PyText.SplitOn | detector_infer_jetson.py:63 | `split('=')` gives at least one field, a single field exactly when the separator is absent, and no field holds the separator |
| PyText.JoinSplit | detector_infer_jetson.py:63 | joining the fields of `split` with the separator gives back the text |
| PyText.SplitJoin | coco2yolo.py:70 | splitting a join of separator-free parts gives back the parts |
| PyText.SecondField | detector_infer_jetson.py:63 | `split(c)[1]` is the text between the first and the second separator |
| PyText.ContainsAt | detector_infer_jetson.py:62 | a text contains every text that occurs in it |
| PyText.IntToString | detector_infer_jetson.py:112 | `str(i)` is a minus sign for negatives, then decimal digits that denote the magnitude |
| PyText.IntToStringInjective | detector_infer_jetson.py:116 | distinct integers are printed differently |
| Dicts.FromPairs | detector_infer_jetson.py:78 | a dict comprehension lists each key once, lists exactly the mapped keys, maps exactly the keys of the pairs, and has no more keys than pairs |
| Dicts.LastValueWins | detector_infer_jetson.py:78 | a key takes the value of its last pair |
| Dicts.ValueFromPair | detector_infer_jetson.py:78 | every value comes from a pair with its key |
| Dicts.FirstInsertionOrder | detector_infer_jetson.py:92 | keys are listed in the order of their first pair |
| Dicts.DistinctKeysInOrder | detector_infer_jetson.py:92 | without repeated keys, the dict lists the keys in pair order |
| Sorting.SortedKeys | coco2yolo.py:69 | `sorted` yields exactly the elements of the set, each once, in strictly ascending order |
| Sorting.SortedKeysUnique | coco2yolo.py:69 | any strictly ascending listing of exactly the set's elements is the sorted one |

## Left out

- File and JSON I/O, `Path.exists`, logging and argparse are not modelled. A split's `coco.json` is given as parsed records, and a missing one is absent from the `Dataset` map. The configuration and label files are given as their lines (`readlines()` and `read().splitlines()`).
- `dataset_path.absolute()` is the parameter `root` of `CreateYamlFile`. Label files are identified by their split and stem rather than by a path string.
- ConvertBox: computes on reals, not Python floats, so rounding is not modelled.
- Coco2Yolo.LabelLine: a label line is kept as the class index and the box. The `str()` formatting of floats in the written line is not modelled.
- Name: follows `pathlib` for '/'-separated paths, dropping empty and "." components. Other normalisation, such as Windows separators, is not modelled.
- YamlFileLines: requires category names without line breaks and without trailing white space. Otherwise the final `strip()` can trim the last name, or a name can span lines.
- The DeepStream pipeline, the pyds metadata casts and the `StopIteration` handling are not modelled. The object linked list is given as the sequence of its class ids.
- ProcessFrame: `num_rects` is taken as given, so the model does not relate it to the number of class ids, which DeepStream does not promise either.
- The display-meta pool, fonts, colours and offsets are not modelled; they are vendor calls with float parameters. `datetime.now()` and the environment-variable globals are not modelled either.
- The train/val/test splitter is not part of this model.
