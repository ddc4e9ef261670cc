/** The label, configuration and counting helpers of the Jetson detector: reading the
    label-file path from the inference configuration, numbering the labels, and counting the
    detected objects of a frame per class for the on-screen text. */
module Detector {
  import opened Wrappers
  import opened PyText
  import opened Dicts

  // ---------------------------------------------------------------------------
  // load_config_file

  /** The name of the configuration setting that holds the label file path. */
  const LabelSetting: string := "labelfile-path"

  /** What a configuration line must contain to be the label-file line. */
  const LabelKey: string := LabelSetting + "="

  /** The `ValueError` raised when no line names the label file. */
  datatype ConfigError = LabelPathNotFound

  /** A line holding the key holds a '='. */
  lemma KeyHasSeparator(line: string)
    requires Contains(line, LabelKey)
    ensures '=' in line
  {
    ContainsChar(line, LabelKey, |LabelSetting|);
  }

  /** `line.split('=')[1]`: the text between the first and the second '='. */
  function ValueOf(line: string): (value: string)
    requires '=' in line
    ensures '=' !in value && |value| < |line|
  {
    JoinSplit(line, '=');
    ValueShorter(SplitOn(line, '='));
    SplitOn(line, '=')[1]
  }

  /** The second of at least two fields is shorter than the fields joined. */
  lemma ValueShorter(parts: seq<string>)
    requires |parts| >= 2
    ensures |parts[1]| < |Join("=", parts)|
  {
    var rest := Join("=", parts[1..]);
    assert Join("=", parts) == parts[0] + "=" + rest;
    if |parts| > 2 {
      assert rest == parts[1] + "=" + Join("=", parts[2..]);
    }
  }

  /** `load_config_file` on the lines of the configuration file: the stripped value of the
      first line that contains `labelfile-path=`, or `ValueError` when there is none. */
  function LoadConfigFile(lines: seq<string>): (r: Result<string, ConfigError>)
    ensures r.Failure? <==> forall i :: 0 <= i < |lines| ==> !Contains(lines[i], LabelKey)
  {
    if lines == [] then Failure(LabelPathNotFound)
    else if Contains(lines[0], LabelKey) then
      KeyHasSeparator(lines[0]);
      Success(Strip(ValueOf(lines[0])))
    else
      var r := LoadConfigFile(lines[1..]);
      assert forall i :: 1 <= i < |lines| ==> lines[i] == lines[1..][i - 1];
      r
  }

  /** The first line with the key decides the result. */
  lemma {:induction false} ConfigFirstMatch(lines: seq<string>, i: nat)
    requires i < |lines| && Contains(lines[i], LabelKey)
    requires forall j :: 0 <= j < i ==> !Contains(lines[j], LabelKey)
    ensures '=' in lines[i]
    ensures LoadConfigFile(lines) == Success(Strip(ValueOf(lines[i])))
    decreases i
  {
    KeyHasSeparator(lines[i]);
    if i > 0 {
      ConfigFirstMatch(lines[1..], i - 1);
    }
  }

  /** Once a line with the key is found, the lines after it are never looked at. */
  lemma LaterLinesIgnored(lines: seq<string>, extra: seq<string>)
    requires LoadConfigFile(lines).Success?
    ensures LoadConfigFile(lines + extra) == LoadConfigFile(lines)
  {
    var i := FirstKeyLine(lines);
    ConfigFirstMatch(lines, i);
    var all := lines + extra;
    assert forall j :: 0 <= j <= i ==> all[j] == lines[j];
    ConfigFirstMatch(all, i);
  }

  /** A successful scan has a first line with the key. */
  lemma {:induction false} FirstKeyLine(lines: seq<string>) returns (i: nat)
    requires LoadConfigFile(lines).Success?
    ensures i < |lines| && Contains(lines[i], LabelKey)
    ensures forall j :: 0 <= j < i ==> !Contains(lines[j], LabelKey)
    decreases |lines|
  {
    assert lines != [];
    ConfigHead(lines);
    if Contains(lines[0], LabelKey) {
      i := 0;
    } else {
      var k := FirstKeyLine(lines[1..]);
      i := k + 1;
      assert forall j :: 1 <= j <= i ==> lines[j] == lines[1..][j - 1];
    }
  }

  /** One step of the scan. */
  lemma ConfigHead(lines: seq<string>)
    requires lines != []
    ensures !Contains(lines[0], LabelKey) ==> LoadConfigFile(lines) == LoadConfigFile(lines[1..])
    ensures Contains(lines[0], LabelKey) ==> '=' in lines[0] && LoadConfigFile(lines) == Success(Strip(ValueOf(lines[0])))
  {
    if Contains(lines[0], LabelKey) {
      KeyHasSeparator(lines[0]);
    }
  }

  /** On a line `<pre>labelfile-path=<value>` followed by nothing or by another '=', with no
      '=' in `<pre>` or `<value>`, the result is `<value>` stripped. */
  lemma KeyLineValue(pre: string, value: string, rest: string)
    requires '=' !in pre && '=' !in value
    requires rest == [] || rest[0] == '='
    ensures var line := pre + LabelKey + value + rest;
      LoadConfigFile([line]) == Success(Strip(value))
  {
    var line := pre + LabelKey + value + rest;
    ContainsAt(pre, LabelKey, value + rest);
    assert line == pre + LabelKey + (value + rest);
    var head := pre + LabelSetting;
    assert '=' !in LabelSetting;
    assert line == head + ['='] + value + rest;
    SecondField(line, head, value, rest, '=');
  }

  // ---------------------------------------------------------------------------
  // load_label_file

  /** The `(line, i)` pairs of `enumerate(lines)`, label first. */
  function LabelPairs(lines: seq<string>): (pairs: seq<(string, int)>)
    ensures |pairs| == |lines| && forall i :: 0 <= i < |lines| ==> pairs[i] == (lines[i], i)
  {
    seq(|lines|, i requires 0 <= i < |lines| => (lines[i], i))
  }

  /** `load_label_file` on the lines of the label file: every label mapped to the number of
      a line that holds it. */
  function LoadLabelFile(lines: seq<string>): (labels: Dict<string, int>)
    ensures WellFormed(labels)
    ensures forall s :: s in labels.items <==> s in lines
    ensures forall s :: s in labels.items ==> 0 <= labels.items[s] < |lines| && lines[labels.items[s]] == s
    ensures |labels.keys| <= |lines|
  {
    LabelFacts(lines);
    FromPairs(LabelPairs(lines))
  }

  lemma LabelFacts(lines: seq<string>)
    ensures var labels := FromPairs(LabelPairs(lines));
      && (forall s :: s in labels.items <==> s in lines)
      && (forall s :: s in labels.items ==> 0 <= labels.items[s] < |lines| && lines[labels.items[s]] == s)
  {
    var pairs := LabelPairs(lines);
    var labels := FromPairs(pairs);
    forall s | s in lines ensures s in labels.items {
      var i :| 0 <= i < |lines| && lines[i] == s;
      assert pairs[i].0 == s;
    }
    forall s | s in labels.items ensures 0 <= labels.items[s] < |lines| && lines[labels.items[s]] == s {
      ValueFromPair(pairs, s);
    }
  }

  /** A label that occurs on no later line maps to its own line number. */
  lemma LabelLineNumber(lines: seq<string>, i: nat)
    requires i < |lines|
    requires forall j :: i < j < |lines| ==> lines[j] != lines[i]
    ensures LoadLabelFile(lines).items[lines[i]] == i
  {
    LastValueWins(LabelPairs(lines), i);
  }

  /** A repeated label maps to its last line: no later line holds it. */
  lemma LabelIsLastLine(lines: seq<string>, s: string)
    requires s in lines
    ensures forall j :: LoadLabelFile(lines).items[s] < j < |lines| ==> lines[j] != s
  {
    var j :| 0 <= j < |lines| && lines[j] == s;
    var i := LastOccurrence(lines, j);
    LabelLineNumber(lines, i);
  }

  /** The last line that holds the text of line `j`. */
  lemma {:induction false} LastOccurrence(lines: seq<string>, j: nat) returns (i: nat)
    requires j < |lines|
    ensures j <= i < |lines| && lines[i] == lines[j]
    ensures forall k :: i < k < |lines| ==> lines[k] != lines[j]
    decreases |lines| - j
  {
    if k :| j < k < |lines| && lines[k] == lines[j] {
      i := LastOccurrence(lines, k);
    } else {
      i := j;
    }
  }

  /** Labels on distinct lines are listed in line order. */
  lemma DistinctLabelsInOrder(lines: seq<string>)
    requires forall i, j :: 0 <= i < j < |lines| ==> lines[i] != lines[j]
    ensures LoadLabelFile(lines).keys == lines
  {
    DistinctKeysInOrder(LabelPairs(lines));
  }

  // ---------------------------------------------------------------------------
  // process_frame: the object counter

  /** The `KeyError` raised for a detected object whose class id is no label's number. */
  datatype FrameError = UnknownClass(classId: int)

  /** The `(id, 0)` pairs of `{id: 0 for _, id in object_classes.items()}`. */
  function ZeroPairs(labels: Dict<string, int>): (pairs: seq<(int, int)>)
    requires WellFormed(labels)
    ensures |pairs| == |labels.keys|
    ensures forall i :: 0 <= i < |pairs| ==> pairs[i] == (labels.items[labels.keys[i]], 0)
  {
    seq(|labels.keys|, i requires 0 <= i < |labels.keys| => (labels.items[labels.keys[i]], 0))
  }

  /** The counter `process_frame` starts from: a zero for every class id of the labels. */
  function InitialCounter(labels: Dict<string, int>): (counter: Dict<int, int>)
    requires WellFormed(labels)
    ensures WellFormed(counter)
    ensures forall id :: id in counter.items <==> id in labels.items.Values
    ensures forall id :: id in counter.items ==> counter.items[id] == 0
  {
    CounterFacts(labels);
    FromPairs(ZeroPairs(labels))
  }

  lemma CounterFacts(labels: Dict<string, int>)
    requires WellFormed(labels)
    ensures var counter := FromPairs(ZeroPairs(labels));
      && (forall id :: id in counter.items <==> id in labels.items.Values)
      && (forall id :: id in counter.items ==> counter.items[id] == 0)
  {
    var pairs := ZeroPairs(labels);
    var counter := FromPairs(pairs);
    forall id | id in labels.items.Values ensures id in counter.items {
      var s :| s in labels.items && labels.items[s] == id;
      var i :| 0 <= i < |labels.keys| && labels.keys[i] == s;
      assert pairs[i].0 == id;
    }
    forall id | id in counter.items ensures id in labels.items.Values && counter.items[id] == 0 {
      ValueFromPair(pairs, id);
    }
  }

  /** The sum of the counts of `keys`. */
  function Total(keys: seq<int>, counts: map<int, int>): int
    requires forall i :: 0 <= i < |keys| ==> keys[i] in counts
  {
    if keys == [] then 0 else counts[keys[0]] + Total(keys[1..], counts)
  }

  /** Counts that are all zero sum to zero. */
  lemma {:induction false} TotalZero(keys: seq<int>, counts: map<int, int>)
    requires forall i :: 0 <= i < |keys| ==> keys[i] in counts && counts[keys[i]] == 0
    ensures Total(keys, counts) == 0
  {
    if keys != [] {
      TotalZero(keys[1..], counts);
    }
  }

  /** Counting one more object of a listed class adds one to the sum. */
  lemma {:induction false} TotalIncrement(keys: seq<int>, counts: map<int, int>, id: int)
    requires forall i, j :: 0 <= i < j < |keys| ==> keys[i] != keys[j]
    requires forall i :: 0 <= i < |keys| ==> keys[i] in counts
    requires id in keys
    ensures Total(keys, counts[id := counts[id] + 1]) == Total(keys, counts) + 1
  {
    var tail := keys[1..];
    if keys[0] == id {
      forall i | 0 <= i < |tail| ensures tail[i] != id {
        assert tail[i] == keys[i + 1];
      }
      TotalOthers(tail, counts, counts[id := counts[id] + 1]);
    } else {
      assert id in tail;
      TotalIncrement(tail, counts, id);
    }
  }

  /** The sum reads only the counts of `keys`. */
  lemma {:induction false} TotalOthers(keys: seq<int>, a: map<int, int>, b: map<int, int>)
    requires forall i :: 0 <= i < |keys| ==> keys[i] in a && keys[i] in b && a[keys[i]] == b[keys[i]]
    ensures Total(keys, a) == Total(keys, b)
  {
    if keys != [] {
      TotalOthers(keys[1..], a, b);
    }
  }

  /** Object `i` is the first whose class id is not among `known`. */
  predicate FirstUnknown(known: set<int>, classIds: seq<int>, i: int)
  {
    0 <= i < |classIds| && classIds[i] !in known && forall j :: 0 <= j < i ==> classIds[j] in known
  }

  /** `counter` is `start` after counting the objects `classIds`: the same entries in the same
      order, each count raised by the number of objects of its class. */
  predicate Counted(start: Dict<int, int>, classIds: seq<int>, counter: Dict<int, int>)
  {
    && counter.keys == start.keys
    && counter.items.Keys == start.items.Keys
    && forall id :: id in start.items ==> counter.items[id] == start.items[id] + multiset(classIds)[id]
  }

  /** Counting object `i`, of a known class, after the ones before it. */
  lemma CountOne(start: Dict<int, int>, classIds: seq<int>, i: nat, counter: Dict<int, int>)
    requires i < |classIds| && classIds[i] in counter.items
    requires Counted(start, classIds[..i], counter)
    ensures var id := classIds[i];
      Counted(start, classIds[..i + 1], Dict(counter.keys, counter.items[id := counter.items[id] + 1]))
  {
    assert classIds[..i + 1] == classIds[..i] + [classIds[i]];
  }

  /** The invariant of the counting loop after `i` objects. */
  predicate Counting(counter: Dict<int, int>, classIds: seq<int>, i: int, items: map<int, int>)
  {
    && 0 <= i <= |classIds|
    && (forall j :: 0 <= j < i ==> classIds[j] in counter.items)
    && Counted(counter, classIds[..i], Dict(counter.keys, items))
  }

  /** The counting loop of `process_frame`: adds one to the count of each detected object's
      class id, in detection order, and fails on the first id the counter does not hold. */
  method CountObjects(counter: Dict<int, int>, classIds: seq<int>) returns (r: Result<Dict<int, int>, FrameError>)
    ensures r.Success? <==> forall i :: 0 <= i < |classIds| ==> classIds[i] in counter.items
    ensures r.Failure? ==> exists i :: FirstUnknown(counter.items.Keys, classIds, i) && r.error == UnknownClass(classIds[i])
    ensures r.Success? ==> Counted(counter, classIds, r.value)
  {
    var items := counter.items;
    var i := 0;
    assert classIds[..0] == [];
    while i < |classIds|
      invariant Counting(counter, classIds, i, items)
    {
      var id := classIds[i];
      if id !in items {
        assert FirstUnknown(counter.items.Keys, classIds, i);
        return Failure(UnknownClass(id));
      }
      CountOne(counter, classIds, i, Dict(counter.keys, items));
      items := items[id := items[id] + 1];
      i := i + 1;
    }
    assert classIds[..i] == classIds;
    return Success(Dict(counter.keys, items));
  }

  /** The counts of `base` raised by the number of occurrences in `ids`. */
  function AddCounts(base: map<int, int>, ids: seq<int>): (counts: map<int, int>)
    ensures counts.Keys == base.Keys
  {
    map k | k in base :: base[k] + multiset(ids)[k]
  }

  /** Adding the occurrences of ids that are all listed adds their number to the sum. */
  lemma {:induction false} TotalAddCounts(keys: seq<int>, base: map<int, int>, ids: seq<int>)
    requires forall i, j :: 0 <= i < j < |keys| ==> keys[i] != keys[j]
    requires forall i :: 0 <= i < |keys| ==> keys[i] in base
    requires forall i :: 0 <= i < |ids| ==> ids[i] in keys
    ensures Total(keys, AddCounts(base, ids)) == Total(keys, base) + |ids|
    decreases |ids|
  {
    if ids == [] {
      assert AddCounts(base, ids) == base;
    } else {
      var prefix := ids[..|ids| - 1];
      var id := ids[|ids| - 1];
      TotalAddCounts(keys, base, prefix);
      AddOne(base, ids);
      TotalIncrement(keys, AddCounts(base, prefix), id);
    }
  }

  /** The last id raises one count by one. */
  lemma AddOne(base: map<int, int>, ids: seq<int>)
    requires ids != [] && ids[|ids| - 1] in base
    ensures var prefix, id := ids[..|ids| - 1], ids[|ids| - 1];
      AddCounts(base, ids) == AddCounts(base, prefix)[id := AddCounts(base, prefix)[id] + 1]
  {
    var prefix, id := ids[..|ids| - 1], ids[|ids| - 1];
    assert ids == prefix + [id];
    assert multiset(ids) == multiset(prefix) + multiset{id};
  }

  /** The counts after counting sum to the counts before plus the number of objects. */
  lemma CountsSum(start: Dict<int, int>, classIds: seq<int>, counter: Dict<int, int>)
    requires WellFormed(start) && Counted(start, classIds, counter)
    requires forall i :: 0 <= i < |classIds| ==> classIds[i] in start.items
    ensures Total(counter.keys, counter.items) == Total(start.keys, start.items) + |classIds|
  {
    assert counter.items == AddCounts(start.items, classIds);
    TotalAddCounts(start.keys, start.items, classIds);
  }

  // ---------------------------------------------------------------------------
  // process_frame: the overlay text

  /** A number held by some label is the number of some listed label. */
  lemma ValueListed(labels: Dict<string, int>, id: int)
    requires WellFormed(labels) && id in labels.items.Values
    ensures exists j :: 0 <= j < |labels.keys| && labels.items[labels.keys[j]] == id
  {
    var s :| s in labels.items && labels.items[s] == id;
    var j :| 0 <= j < |labels.keys| && labels.keys[j] == s;
  }

  /** The position of the first key whose value is `id`. */
  function FirstWithValue(keys: seq<string>, items: map<string, int>, id: int): (i: nat)
    requires forall j :: 0 <= j < |keys| ==> keys[j] in items
    requires exists j :: 0 <= j < |keys| && items[keys[j]] == id
    ensures i < |keys| && items[keys[i]] == id
    ensures forall j :: 0 <= j < i ==> items[keys[j]] != id
    decreases |keys|
  {
    if items[keys[0]] == id then 0
    else
      var tail := keys[1..];
      assert exists j :: 0 <= j < |tail| && items[tail[j]] == id by {
        var j :| 0 <= j < |keys| && items[keys[j]] == id;
        assert tail[j - 1] == keys[j];
      }
      1 + FirstWithValue(tail, items, id)
  }

  /** `labels.keys[i]` is the first label, in label order, whose number is `id`. */
  predicate FirstLabelWith(labels: Dict<string, int>, id: int, i: int)
    requires WellFormed(labels)
  {
    0 <= i < |labels.keys| && labels.items[labels.keys[i]] == id
    && forall j :: 0 <= j < i ==> labels.items[labels.keys[j]] != id
  }

  /** `[cls for cls in object_classes.keys() if object_classes[cls] == k][0]`: the first
      label, in label order, whose number is `id`. */
  function LabelOf(labels: Dict<string, int>, id: int): (name: string)
    requires WellFormed(labels) && id in labels.items.Values
    ensures name in labels.items && labels.items[name] == id
    ensures exists i :: FirstLabelWith(labels, id, i) && labels.keys[i] == name
  {
    ValueListed(labels, id);
    labels.keys[FirstWithValue(labels.keys, labels.items, id)]
  }

  /** The counter's class ids are all label numbers, so each has a label to show. */
  predicate CounterFits(labels: Dict<string, int>, counter: Dict<int, int>)
  {
    WellFormed(labels) && WellFormed(counter) && forall id :: id in counter.items ==> id in labels.items.Values
  }

  /** The text `<name>_count=<count>` of one counter entry. */
  function CountField(name: string, count: int): string
  {
    name + "_count=" + IntToString(count)
  }

  /** The count field of the counter entry for class `id`. */
  function Entry(labels: Dict<string, int>, counter: Dict<int, int>, id: int): string
    requires CounterFits(labels, counter) && id in counter.items
  {
    CountField(LabelOf(labels, id), counter.items[id])
  }

  /** The count fields of the counter entries, in counter order. */
  function CountFields(labels: Dict<string, int>, counter: Dict<int, int>): seq<string>
    requires CounterFits(labels, counter)
  {
    seq(|counter.keys|, i requires 0 <= i < |counter.keys| => Entry(labels, counter, counter.keys[i]))
  }

  /** Each of `words` after a space: ` <w0> <w1> ...`. */
  function Spaced(words: seq<string>): string
  {
    if words == [] then [] else Spaced(words[..|words| - 1]) + (" " + words[|words| - 1])
  }

  /** The words before the counts. */
  function HeaderFields(frameNumber: int, numRects: int): seq<string>
  {
    ["Frame", "Number=" + IntToString(frameNumber), "Number", "of", "Objects=" + IntToString(numRects)]
  }

  /** `Frame Number=<n> Number of Objects=<m>`. */
  function Header(frameNumber: int, numRects: int): string
  {
    "Frame Number=" + IntToString(frameNumber) + " Number of Objects=" + IntToString(numRects)
  }

  /** The overlay text `process_frame` shows: the header, then one count field per counter
      entry, in counter order. */
  function Overlay(labels: Dict<string, int>, counter: Dict<int, int>, frameNumber: int, numRects: int): string
    requires CounterFits(labels, counter)
  {
    Header(frameNumber, numRects) + Spaced(CountFields(labels, counter))
  }

  /** The `+=` loop that composes the overlay text. */
  method DisplayText(labels: Dict<string, int>, counter: Dict<int, int>, frameNumber: int, numRects: int)
    returns (text: string)
    requires CounterFits(labels, counter)
    ensures text == Overlay(labels, counter, frameNumber, numRects)
  {
    ghost var fields := CountFields(labels, counter);
    text := "Frame Number=" + IntToString(frameNumber) + " Number of Objects=" + IntToString(numRects);
    var i := 0;
    while i < |counter.keys|
      invariant 0 <= i <= |counter.keys|
      invariant text == Header(frameNumber, numRects) + Spaced(fields[..i])
    {
      var k := counter.keys[i];
      var v := counter.items[k];
      var name := LabelOf(labels, k);
      var entry := " " + name + "_count=" + IntToString(v);
      EntryIsField(name, v);
      SpacedStep(fields, i);
      Associative(Header(frameNumber, numRects), Spaced(fields[..i]), entry);
      text := text + entry;
      i := i + 1;
    }
    assert fields[..i] == fields;
  }

  lemma SpacedStep(words: seq<string>, i: nat)
    requires i < |words|
    ensures Spaced(words[..i + 1]) == Spaced(words[..i]) + (" " + words[i])
  {
    assert words[..i + 1][..i] == words[..i];
  }

  lemma EntryIsField(name: string, count: int)
    ensures " " + name + "_count=" + IntToString(count) == " " + CountField(name, count)
  {
    var a, b, c := name, "_count=", IntToString(count);
    assert " " + a + b + c == " " + (a + b + c);
  }

  /** A counter with the keys of the initial one still has a label for every entry. */
  lemma CountedFits(labels: Dict<string, int>, classIds: seq<int>, counter: Dict<int, int>)
    requires WellFormed(labels)
    requires Counted(InitialCounter(labels), classIds, counter)
    ensures CounterFits(labels, counter)
  {
    var counter0 := InitialCounter(labels);
    forall id | id in counter.items ensures id in labels.items.Values {
      assert id in counter0.items;
    }
  }

  /** The whole of `process_frame` that is modelled: count the detected objects from a zero
      counter per label number, then compose the overlay text. */
  method ProcessFrame(labels: Dict<string, int>, frameNumber: int, numRects: int, classIds: seq<int>)
    returns (r: Result<(Dict<int, int>, string), FrameError>)
    requires WellFormed(labels)
    ensures var known := InitialCounter(labels).items.Keys;
      r.Success? <==> forall i :: 0 <= i < |classIds| ==> classIds[i] in known
    ensures r.Failure? ==> var known := InitialCounter(labels).items.Keys;
      exists i :: FirstUnknown(known, classIds, i) && r.error == UnknownClass(classIds[i])
    ensures r.Success? ==> var counter := r.value.0;
      && Counted(InitialCounter(labels), classIds, counter)
      && CounterFits(labels, counter)
      && r.value.1 == Overlay(labels, counter, frameNumber, numRects)
  {
    var counter0 := InitialCounter(labels);
    var counted := CountObjects(counter0, classIds);
    if counted.Failure? {
      return Failure(counted.error);
    }
    var counter := counted.value;
    CountedFits(labels, classIds, counter);
    var text := DisplayText(labels, counter, frameNumber, numRects);
    return Success((counter, text));
  }

  // ---------------------------------------------------------------------------
  // What the labels, the counter and the overlay promise together

  /** After a frame whose objects all have known classes, the counter holds exactly the label
      numbers, each with the number of objects of that class, and the counts sum to the
      number of objects. */
  lemma FrameCounts(labels: Dict<string, int>, classIds: seq<int>, counter: Dict<int, int>)
    requires WellFormed(labels)
    requires forall i :: 0 <= i < |classIds| ==> classIds[i] in InitialCounter(labels).items
    requires Counted(InitialCounter(labels), classIds, counter)
    ensures forall id :: id in counter.items <==> id in labels.items.Values
    ensures forall id :: id in counter.items ==> counter.items[id] == multiset(classIds)[id]
    ensures Total(counter.keys, counter.items) == |classIds|
  {
    var start := InitialCounter(labels);
    TotalZero(start.keys, start.items);
    CountsSum(start, classIds, counter);
    ZeroStart(start, classIds, counter);
  }

  /** From zero counts, the counts are the numbers of occurrences. */
  lemma ZeroStart(start: Dict<int, int>, classIds: seq<int>, counter: Dict<int, int>)
    requires forall id :: id in start.items ==> start.items[id] == 0
    requires Counted(start, classIds, counter)
    ensures forall id :: id in counter.items ==> counter.items[id] == multiset(classIds)[id]
  {
  }

  /** With labels read from a label file, the label shown for number `id` is line `id`. */
  lemma LabelOfLoaded(lines: seq<string>, id: int)
    requires id in LoadLabelFile(lines).items.Values
    ensures 0 <= id < |lines| && LabelOf(LoadLabelFile(lines), id) == lines[id]
  {
    var labels := LoadLabelFile(lines);
    var name := LabelOf(labels, id);
    assert name in labels.items && labels.items[name] == id;
  }

  /** With a label file of distinct lines, the counter holds the ids `0 .. n-1` in order. */
  lemma CounterOfDistinctLabels(lines: seq<string>)
    requires forall i, j :: 0 <= i < j < |lines| ==> lines[i] != lines[j]
    ensures InitialCounter(LoadLabelFile(lines)).keys == seq(|lines|, i => i)
  {
    var pairs := ZeroPairs(LoadLabelFile(lines));
    NumbersInLineOrder(lines);
    DistinctKeysInOrder(pairs);
    assert PairKeys(pairs) == seq(|lines|, i => i);
  }

  /** With distinct lines, the zero pairs of the counter name the line numbers in order. */
  lemma NumbersInLineOrder(lines: seq<string>)
    requires forall i, j :: 0 <= i < j < |lines| ==> lines[i] != lines[j]
    ensures var pairs := ZeroPairs(LoadLabelFile(lines));
      |pairs| == |lines| && forall i :: 0 <= i < |pairs| ==> pairs[i].0 == i
  {
    var labels := LoadLabelFile(lines);
    DistinctLabelsInOrder(lines);
    forall i | 0 <= i < |lines| ensures labels.items[labels.keys[i]] == i {
      LabelLineNumber(lines, i);
    }
  }

  /** The header is its five words joined by spaces. */
  lemma HeaderWords(frameNumber: int, numRects: int)
    ensures Header(frameNumber, numRects) == Join(" ", HeaderFields(frameNumber, numRects))
  {
    var n, m := IntToString(frameNumber), IntToString(numRects);
    var words := HeaderFields(frameNumber, numRects);
    assert Join(" ", words[4..]) == "Objects=" + m;
    assert Join(" ", words[3..]) == "of" + " " + ("Objects=" + m);
    assert Join(" ", words[2..]) == "Number" + " " + ("of" + " " + ("Objects=" + m));
    assert Join(" ", words[1..]) == "Number=" + n + " " + ("Number" + " " + ("of" + " " + ("Objects=" + m)));
    assert Join(" ", words) == "Frame" + " " + ("Number=" + n + " " + ("Number" + " " + ("of" + " " + ("Objects=" + m))));
    HeaderPieces(n, m);
  }

  lemma HeaderPieces(n: string, m: string)
    ensures "Frame Number=" + n + " Number of Objects=" + m
      == "Frame" + " " + ("Number=" + n + " " + ("Number" + " " + ("of" + " " + ("Objects=" + m))))
  {
    assert "Frame Number=" == "Frame" + " " + "Number=";
    assert " Number of Objects=" == " " + "Number" + " " + "of" + " " + "Objects=";
    Regroup("Frame", "Number=", "Number", "of", "Objects=", n, m, " ");
  }

  lemma Regroup(a: string, b: string, c: string, d: string, e: string, n: string, m: string, sp: string)
    ensures (a + sp + b) + n + (sp + c + sp + d + sp + e) + m
      == a + sp + (b + n + sp + (c + sp + (d + sp + (e + m))))
  {
  }

  /** Words after a space continue the words joined before them. */
  lemma {:induction false} SpacedJoin(head: seq<string>, words: seq<string>)
    requires head != []
    ensures Join(" ", head + words) == Join(" ", head) + Spaced(words)
    decreases |words|
  {
    if words == [] {
      assert head + [] == head;
    } else {
      var before := words[..|words| - 1];
      var last := words[|words| - 1];
      assert words == before + [last];
      SpacedJoin(head, before);
      JoinField(head, before, last, Spaced(before));
    }
  }

  /** One more word joined after the words `head + before`. */
  lemma JoinField(head: seq<string>, before: seq<string>, field: string, text: string)
    requires head != [] && Join(" ", head + before) == Join(" ", head) + text
    ensures Join(" ", head + (before + [field])) == Join(" ", head) + (text + (" " + field))
  {
    JoinAppend(" ", head + before, [field]);
    assert head + (before + [field]) == head + before + [field];
    Associative(Join(" ", head), text, " " + field);
  }

  /** No word holds a space. */
  predicate NoSpaces(words: seq<string>)
  {
    forall i :: 0 <= i < |words| ==> ' ' !in words[i]
  }

  /** A label, number or literal word of the overlay holds no space. */
  lemma FieldsWithoutSpaces(labels: Dict<string, int>, counter: Dict<int, int>, frameNumber: int, numRects: int)
    requires CounterFits(labels, counter)
    requires forall s :: s in labels.items ==> ' ' !in s
    ensures NoSpaces(HeaderFields(frameNumber, numRects) + CountFields(labels, counter))
  {
    HeaderWithoutSpaces(frameNumber, numRects);
    CountFieldsWithoutSpaces(labels, counter);
    WordsWithoutSpaces(HeaderFields(frameNumber, numRects), CountFields(labels, counter));
  }

  lemma WordsWithoutSpaces(a: seq<string>, b: seq<string>)
    requires NoSpaces(a) && NoSpaces(b)
    ensures NoSpaces(a + b)
  {
    forall i | |a| <= i < |a + b| ensures ' ' !in (a + b)[i] {
      assert (a + b)[i] == b[i - |a|];
    }
  }

  lemma CountFieldsWithoutSpaces(labels: Dict<string, int>, counter: Dict<int, int>)
    requires CounterFits(labels, counter)
    requires forall s :: s in labels.items ==> ' ' !in s
    ensures NoSpaces(CountFields(labels, counter))
  {
    var counts := CountFields(labels, counter);
    forall i | 0 <= i < |counts| ensures ' ' !in counts[i] {
      var k := counter.keys[i];
      IntToStringChars(counter.items[k], ' ');
    }
  }

  lemma HeaderWithoutSpaces(frameNumber: int, numRects: int)
    ensures NoSpaces(HeaderFields(frameNumber, numRects))
  {
    var n, m := IntToString(frameNumber), IntToString(numRects);
    IntToStringChars(frameNumber, ' ');
    IntToStringChars(numRects, ' ');
    assert ' ' !in "Number=" && ' ' !in "Objects=";
    assert ' ' !in "Number=" + n && ' ' !in "Objects=" + m;
    assert ' ' !in "Frame" && ' ' !in "Number" && ' ' !in "of";
  }

  /** With labels free of spaces, splitting the overlay on spaces gives back its words: the
      five header words and one `<name>_count=<count>` field per counter entry, in order. */
  lemma OverlayFields(labels: Dict<string, int>, counter: Dict<int, int>, frameNumber: int, numRects: int)
    requires CounterFits(labels, counter)
    requires forall s :: s in labels.items ==> ' ' !in s
    ensures SplitOn(Overlay(labels, counter, frameNumber, numRects), ' ')
      == HeaderFields(frameNumber, numRects) + CountFields(labels, counter)
  {
    var head := HeaderFields(frameNumber, numRects);
    var fields := head + CountFields(labels, counter);
    HeaderWords(frameNumber, numRects);
    SpacedJoin(head, CountFields(labels, counter));
    FieldsWithoutSpaces(labels, counter, frameNumber, numRects);
    SplitJoin(fields, ' ');
  }
}
