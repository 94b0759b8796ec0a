/**
 * The per-type data file (FileManager.java): a text of records separated by a
 * blank line, each record one `key TAB value` line per field.  `Parse` is the
 * reading loop of `loadFile`, `Serialise` the writing loop of `writeFile`, and
 * `RoundTrip` states when reading what was written gives the records back.
 */
module FlatFile {
  import opened Options
  import opened Text
  import opened Seqs

  /**
   * One record's fields in insertion order, as the entities' LinkedHashMaps hold
   * them.  `Put` keeps at most one entry per key.
   */
  type FieldMap = seq<(string, string)>

  predicate UniqueKeys(m: FieldMap) {
    forall i, j :: 0 <= i < j < |m| ==> m[i].0 != m[j].0
  }

  predicate HasKey(m: FieldMap, key: string) {
    exists i :: 0 <= i < |m| && m[i].0 == key
  }

  /** `HashMap.get`: the value stored under `key`, if any. */
  function Get(m: FieldMap, key: string): (r: Option<string>)
    ensures r.Some? ==> HasKey(m, key)
  {
    if |m| == 0 then None
    else if m[0].0 == key then Some(m[0].1)
    else
      var r := Get(m[1..], key);
      assert r.Some? ==> HasKey(m, key) by {
        if r.Some? {
          var i :| 0 <= i < |m[1..]| && m[1..][i].0 == key;
          assert m[i + 1].0 == key;
        }
      }
      r
  }

  /** `HashMap.put`: overwrite the value of an existing key, or add the key at the end. */
  function Put(m: FieldMap, key: string, value: string): (r: FieldMap)
    ensures |m| <= |r| <= |m| + 1
  {
    if |m| == 0 then [(key, value)]
    else if m[0].0 == key then [(key, value)] + m[1..]
    else [m[0]] + Put(m[1..], key, value)
  }

  /** A present key is found with the value of its entry, and a missing key is not found. */
  lemma {:induction false} GetFinds(m: FieldMap, key: string)
    ensures Get(m, key).Some? <==> HasKey(m, key)
    ensures forall i :: 0 <= i < |m| && m[i].0 == key && (forall j :: 0 <= j < i ==> m[j].0 != key) ==>
      Get(m, key) == Some(m[i].1)
    decreases |m|
  {
    if |m| > 0 && m[0].0 != key {
      GetFinds(m[1..], key);
      if HasKey(m, key) {
        var i :| 0 <= i < |m| && m[i].0 == key;
        assert m[1..][i - 1].0 == key;
      }
      forall i | 0 <= i < |m| && m[i].0 == key && (forall j :: 0 <= j < i ==> m[j].0 != key)
        ensures Get(m, key) == Some(m[i].1)
      {
        assert m[1..][i - 1] == m[i];
      }
    }
  }

  /** Putting a key the map lacks appends the entry. */
  lemma {:induction false} PutFresh(m: FieldMap, key: string, value: string)
    requires !HasKey(m, key)
    ensures Put(m, key, value) == m + [(key, value)]
    decreases |m|
  {
    if |m| > 0 {
      HasKeyTail(m, key);
      PutFresh(m[1..], key, value);
      assert m == [m[0]] + m[1..];
    }
  }

  lemma HasKeyTail(m: FieldMap, key: string)
    requires |m| > 0
    ensures HasKey(m[1..], key) ==> HasKey(m, key)
  {
    if HasKey(m[1..], key) {
      var i :| 0 <= i < |m[1..]| && m[1..][i].0 == key;
      assert m[i + 1].0 == key;
    }
  }

  /** Putting a key the map holds overwrites its entry in place and keeps the other entries. */
  lemma {:induction false} PutExisting(m: FieldMap, key: string, value: string, i: nat)
    requires i < |m| && m[i].0 == key
    requires forall j :: 0 <= j < i ==> m[j].0 != key
    ensures Put(m, key, value) == m[i := (key, value)]
    decreases i
  {
    if i > 0 {
      PutExisting(m[1..], key, value, i - 1);
      assert [m[0]] + m[1..][i - 1 := (key, value)] == m[i := (key, value)];
    }
  }

  /** After a put, the key reads back as the value put. */
  lemma PutGet(m: FieldMap, key: string, value: string)
    ensures Get(Put(m, key, value), key) == Some(value)
  {
    if HasKey(m, key) {
      var i := FirstKeyIndex(m, key);
      PutExisting(m, key, value, i);
      GetFinds(Put(m, key, value), key);
      assert Put(m, key, value)[i] == (key, value);
    } else {
      PutFresh(m, key, value);
      var r := Put(m, key, value);
      GetFinds(r, key);
      assert r[|m|] == (key, value);
    }
  }

  /** The position of the first entry with `key`. */
  function FirstKeyIndex(m: FieldMap, key: string): (i: nat)
    requires HasKey(m, key)
    ensures i < |m| && m[i].0 == key
    ensures forall j :: 0 <= j < i ==> m[j].0 != key
    decreases |m|
  {
    if m[0].0 == key then 0
    else
      assert HasKey(m[1..], key) by {
        var i :| 0 <= i < |m| && m[i].0 == key;
        assert m[1..][i - 1].0 == key;
      }
      1 + FirstKeyIndex(m[1..], key)
  }

  /** The map a `toHashMap` builds: each key put once, in order, with its value. */
  function Zip(keys: seq<string>, values: seq<string>): (m: FieldMap)
    requires |keys| == |values|
    ensures |m| == |keys|
    ensures forall i :: 0 <= i < |m| ==> m[i] == (keys[i], values[i])
  {
    seq(|keys|, i requires 0 <= i < |keys| => (keys[i], values[i]))
  }

  /** Looking up a key of a zipped map finds the value at the key's first position. */
  lemma GetZipAt(keys: seq<string>, values: seq<string>, key: string, i: nat)
    requires |keys| == |values| && i < |keys| && keys[i] == key
    requires forall j :: 0 <= j < i ==> keys[j] != key
    ensures Get(Zip(keys, values), key) == Some(values[i])
  {
    GetFinds(Zip(keys, values), key);
  }

  /** Distinct keys give a map with unique keys. */
  lemma ZipUnique(keys: seq<string>, values: seq<string>)
    requires |keys| == |values|
    requires forall i, j :: 0 <= i < j < |keys| ==> keys[i] != keys[j]
    ensures UniqueKeys(Zip(keys, values))
  {
  }

  /** Every key of a zipped map with distinct keys finds its own value. */
  lemma ZipLookups(keys: seq<string>, values: seq<string>)
    requires |keys| == |values|
    requires forall i, j :: 0 <= i < j < |keys| ==> keys[i] != keys[j]
    ensures forall i :: 0 <= i < |keys| ==> Get(Zip(keys, values), keys[i]) == Some(values[i])
  {
    forall i | 0 <= i < |keys| ensures Get(Zip(keys, values), keys[i]) == Some(values[i]) {
      GetZipAt(keys, values, keys[i], i);
    }
  }

  // ---------------------------------------------------------------------------
  // Reading (loadFile)
  // ---------------------------------------------------------------------------

  /** What the environment holds under a data file name. */
  datatype FileState = Missing | Unreadable | Present(text: string)

  /** Position of the first line separator, or |s| when there is none. */
  function BreakIndex(s: string): (k: nat)
    ensures k <= |s|
    ensures k < |s| ==> IsBreak(s[k])
  {
    if |s| == 0 then 0
    else if IsBreak(s[0]) then 0
    else 1 + BreakIndex(s[1..])
  }

  /** The pieces between line separators; "\r\n" counts as one separator. */
  function Split(s: string): (p: seq<string>)
    ensures |p| > 0
    decreases |s|
  {
    var k := BreakIndex(s);
    if k == |s| then [s]
    else
      var width := if s[k] == '\r' && k + 1 < |s| && s[k + 1] == '\n' then 2 else 1;
      [s[..k]] + Split(s[k + width..])
  }

  /**
   * The lines `Scanner.nextLine` returns one after the other: the pieces between
   * separators, without the empty piece after a final separator.
   */
  function Lines(s: string): seq<string> {
    if |s| == 0 then []
    else
      var p := Split(s);
      if IsBreak(s[|s| - 1]) then p[..|p| - 1] else p
  }

  /** The entry a non-blank line contributes: the trimmed line split at its first tab. */
  function LineEntry(line: string): (string, string) {
    SplitAtTab(Trim(line))
  }

  /**
   * The loop of `loadFile` from line `lines[0]` on, `current` being the record
   * collected so far: a zero-length line closes the current record (even an
   * empty one); after the last line the current record is kept only if it has a key.
   */
  function Collect(lines: seq<string>, current: FieldMap): seq<FieldMap>
    decreases |lines|
  {
    if |lines| == 0 then
      if |current| != 0 then [current] else []
    else if |lines[0]| == 0 then
      [current] + Collect(lines[1..], [])
    else
      var entry := LineEntry(lines[0]);
      Collect(lines[1..], Put(current, entry.0, entry.1))
  }

  function Parse(text: string): seq<FieldMap> {
    Collect(Lines(text), [])
  }

  /**
   * `loadFile`: a missing file is created empty and yields no records; a file
   * that cannot be read yields null (None); otherwise its records.
   */
  function LoadFile(file: FileState): (r: (Option<seq<FieldMap>>, FileState))
    ensures file.Missing? ==> r == (Some([]), Present(""))
    ensures file.Unreadable? ==> r.0 == None && r.1 == file
    ensures file.Present? ==> r == (Some(Parse(file.text)), file)
  {
    match file
    case Missing => (Some([]), Present(""))
    case Unreadable => (None, Unreadable)
    case Present(text) => (Some(Parse(text)), file)
  }

  /** The reading loop written as `loadFile` writes it. */
  method ParseLoop(lines: seq<string>) returns (data: seq<FieldMap>)
    ensures data == Collect(lines, [])
  {
    data := [];
    var current: FieldMap := [];
    var i := 0;
    while i < |lines|
      invariant 0 <= i <= |lines|
      invariant data + Collect(lines[i..], current) == Collect(lines, [])
    {
      var line := lines[i];
      assert lines[i..][1..] == lines[i + 1..];
      if |line| == 0 {
        data := data + [current];
        current := [];
      } else {
        var entry := LineEntry(line);
        current := Put(current, entry.0, entry.1);
      }
      i := i + 1;
    }
    if |current| != 0 {
      data := data + [current];
    }
  }

  // ---------------------------------------------------------------------------
  // Writing (writeFile)
  // ---------------------------------------------------------------------------

  function EntryLine(entry: (string, string)): string {
    entry.0 + "\t" + entry.1
  }

  /** Every field as `key TAB value NEWLINE`, in map order. */
  function EntryLines(m: FieldMap): string
    decreases |m|
  {
    if |m| == 0 then "" else EntryLine(m[0]) + "\n" + EntryLines(m[1..])
  }

  /** One record as `writeFile` prints it: its field lines, trimmed. */
  function RecordText(m: FieldMap): string {
    Trim(EntryLines(m))
  }

  /** The records' texts joined by a blank line, with no trailing newline. */
  function Serialise(data: seq<FieldMap>): string
    decreases |data|
  {
    if |data| == 0 then ""
    else if |data| == 1 then RecordText(data[0])
    else RecordText(data[0]) + "\n\n" + Serialise(data[1..])
  }

  lemma {:induction false} SerialiseSnoc(data: seq<FieldMap>, m: FieldMap)
    requires |data| > 0
    ensures Serialise(data + [m]) == Serialise(data) + "\n\n" + RecordText(m)
    decreases |data|
  {
    if |data| > 1 {
      assert (data + [m])[1..] == data[1..] + [m];
      SerialiseSnoc(data[1..], m);
    } else {
      assert (data + [m])[1..] == [m];
    }
  }

  /** The writing loop written as `writeFile` writes it: "\n\n" before every record but the first. */
  method WriteLoop(data: seq<FieldMap>) returns (text: string)
    ensures text == Serialise(data)
    ensures |data| == 0 ==> text == ""
  {
    text := "";
    var i := 0;
    while i < |data|
      invariant 0 <= i <= |data|
      invariant text == Serialise(data[..i])
    {
      if i > 0 {
        text := text + "\n\n";
      }
      text := text + RecordText(data[i]);
      if i > 0 {
        SerialiseSnoc(data[..i], data[i]);
      }
      assert data[..i + 1] == data[..i] + [data[i]];
      i := i + 1;
    }
    assert data[..i] == data;
  }

  // ---------------------------------------------------------------------------
  // Round trip
  // ---------------------------------------------------------------------------

  /** A key survives the file: visible first character, no tab, no line separator. */
  predicate SafeKey(key: string) {
    |key| > 0 && !IsSpace(key[0]) && NoTabs(key) && NoBreaks(key)
  }

  /**
   * An entry survives the file when its key is safe, its value has no line
   * separator, and the line `key TAB value` ends in a visible character once
   * the tab of an empty value is trimmed away.
   */
  predicate SafeEntry(e: (string, string)) {
    && SafeKey(e.0)
    && NoBreaks(e.1)
    && (|e.1| > 0 ==> !IsSpace(e.1[|e.1| - 1]))
    && (|e.1| == 0 ==> !IsSpace(e.0[|e.0| - 1]))
  }

  predicate SafeRecord(m: FieldMap) {
    && |m| > 0
    && UniqueKeys(m)
    && (forall i :: 0 <= i < |m| ==> SafeEntry(m[i]))
  }

  /** The last line of a record as it stands in the file, after the record's text is trimmed. */
  function LastLine(e: (string, string)): string {
    if |e.1| > 0 then EntryLine(e) else e.0
  }

  /** The lines a record occupies in the file. */
  function RecordLines(m: FieldMap): (lines: seq<string>)
    requires |m| > 0
    ensures |lines| == |m|
    decreases |m|
  {
    if |m| == 1 then [LastLine(m[0])]
    else [EntryLine(m[0])] + RecordLines(m[1..])
  }

  function Join(lines: seq<string>, sep: string): string
    decreases |lines|
  {
    if |lines| == 0 then ""
    else if |lines| == 1 then lines[0]
    else lines[0] + sep + Join(lines[1..], sep)
  }

  /** All lines of the written file: the records' lines with one empty line between records. */
  function FileLines(data: seq<FieldMap>): seq<string>
    requires forall i :: 0 <= i < |data| ==> |data[i]| > 0
    decreases |data|
  {
    if |data| == 0 then []
    else if |data| == 1 then RecordLines(data[0])
    else RecordLines(data[0]) + [""] + FileLines(data[1..])
  }

  /** A safe entry's line starts with the key's first character and has no separator. */
  lemma EntryLineShape(e: (string, string))
    requires SafeEntry(e)
    ensures |EntryLine(e)| > 0 && EntryLine(e)[0] == e.0[0]
    ensures NoBreaks(EntryLine(e))
  {
    var line := EntryLine(e);
    forall i | 0 <= i < |line|
      ensures !IsBreak(line[i])
    {
      if i < |e.0| {
        assert line[i] == e.0[i];
      } else if i > |e.0| {
        assert line[i] == e.1[i - |e.0| - 1];
      }
    }
  }

  /** A safe entry's last line has the same shape. */
  lemma LastLineShape(e: (string, string))
    requires SafeEntry(e)
    ensures |LastLine(e)| > 0 && LastLine(e)[0] == e.0[0]
    ensures NoBreaks(LastLine(e))
  {
    EntryLineShape(e);
  }

  /** Trimming a safe entry's line at the end gives its last line. */
  lemma TrimEndEntryLine(e: (string, string))
    requires SafeEntry(e)
    ensures TrimEnd(EntryLine(e)) == LastLine(e)
  {
    if |e.1| == 0 {
      assert EntryLine(e) == e.0 + ['\t'];
      TrimEndAppendSpace(e.0, ['\t']);
    }
  }

  /** Reading a safe entry's line gives the entry back. */
  lemma ReadEntryLine(e: (string, string))
    requires SafeEntry(e)
    ensures LineEntry(EntryLine(e)) == e
  {
    var line := EntryLine(e);
    if |e.1| > 0 {
      TrimVisible(line);
      SplitAtTabOfPair(e.0, e.1);
    } else {
      TrimEndEntryLine(e);
      TrimVisible(e.0);
      SplitAtTabNoTab(e.0);
    }
  }

  /** Reading a safe entry's last line gives the entry back. */
  lemma ReadLastLine(e: (string, string))
    requires SafeEntry(e)
    ensures LineEntry(LastLine(e)) == e
  {
    if |e.1| > 0 {
      ReadEntryLine(e);
    } else {
      TrimVisible(e.0);
      SplitAtTabNoTab(e.0);
    }
  }

  /** Every line of a safe record is non-empty and separator-free, and the first starts visibly. */
  lemma {:induction false} RecordLinesShape(m: FieldMap)
    requires |m| > 0
    requires forall i :: 0 <= i < |m| ==> SafeEntry(m[i])
    ensures forall i :: 0 <= i < |m| ==> |RecordLines(m)[i]| > 0 && NoBreaks(RecordLines(m)[i])
    ensures |RecordLines(m)[0]| > 0 && !IsSpace(RecordLines(m)[0][0])
    decreases |m|
  {
    var lines := RecordLines(m);
    if |m| == 1 {
      LastLineShape(m[0]);
    } else {
      EntryLineShape(m[0]);
      RecordLinesShape(m[1..]);
      forall i | 1 <= i < |m|
        ensures |lines[i]| > 0 && NoBreaks(lines[i])
      {
        assert lines[i] == RecordLines(m[1..])[i - 1];
      }
    }
  }

  /** Every line of a safe record reads back as its entry. */
  lemma {:induction false} RecordLinesRead(m: FieldMap)
    requires |m| > 0
    requires forall i :: 0 <= i < |m| ==> SafeEntry(m[i])
    ensures forall i :: 0 <= i < |m| ==> LineEntry(RecordLines(m)[i]) == m[i]
    decreases |m|
  {
    var lines := RecordLines(m);
    if |m| == 1 {
      ReadLastLine(m[0]);
    } else {
      ReadEntryLine(m[0]);
      RecordLinesRead(m[1..]);
      forall i | 1 <= i < |m|
        ensures LineEntry(lines[i]) == m[i]
      {
        assert lines[i] == RecordLines(m[1..])[i - 1];
      }
    }
  }

  /** The first character of a safe record's field lines is its first key's first character. */
  lemma EntryLinesFirst(m: FieldMap)
    requires |m| > 0 && SafeEntry(m[0])
    ensures |EntryLines(m)| > 0 && EntryLines(m)[0] == m[0].0[0]
  {
    EntryLineShape(m[0]);
    assert EntryLines(m) == EntryLine(m[0]) + ("\n" + EntryLines(m[1..]));
  }

  /** The end-trimmed field lines of a safe record are its file lines joined by newlines. */
  lemma {:induction false} EntryLinesTrimmed(m: FieldMap)
    requires |m| > 0
    requires forall i :: 0 <= i < |m| ==> SafeEntry(m[i])
    ensures TrimEnd(EntryLines(m)) == Join(RecordLines(m), "\n")
    decreases |m|
  {
    var line := EntryLine(m[0]);
    if |m| == 1 {
      assert EntryLines(m) == line + "\n";
      TrimEndAppendSpace(line, "\n");
      TrimEndEntryLine(m[0]);
    } else {
      var rest := EntryLines(m[1..]);
      EntryLinesFirst(m[1..]);
      assert EntryLines(m) == (line + "\n") + rest;
      TrimEndKeepsPrefix(line + "\n", rest);
      EntryLinesTrimmed(m[1..]);
    }
  }

  /** A safe record's text is its file lines joined by newlines. */
  lemma RecordTextLines(m: FieldMap)
    requires |m| > 0
    requires forall i :: 0 <= i < |m| ==> SafeEntry(m[i])
    ensures RecordText(m) == Join(RecordLines(m), "\n")
  {
    EntryLinesTrimmed(m);
    RecordLinesShape(m);
    JoinFirst(RecordLines(m), "\n");
  }

  lemma {:induction false} JoinFirst(lines: seq<string>, sep: string)
    requires |lines| > 0 && |lines[0]| > 0
    ensures |Join(lines, sep)| > 0 && Join(lines, sep)[0] == lines[0][0]
    decreases |lines|
  {
  }

  lemma {:induction false} JoinLast(lines: seq<string>, sep: string)
    requires |lines| > 0 && |lines[|lines| - 1]| > 0
    ensures var j := Join(lines, sep); var l := lines[|lines| - 1];
      |j| > 0 && j[|j| - 1] == l[|l| - 1]
    decreases |lines|
  {
    if |lines| > 1 {
      JoinLast(lines[1..], sep);
    }
  }

  /** The first separator after a separator-free prefix is found right after it. */
  lemma {:induction false} BreakIndexAfter(a: string, c: char, b: string)
    requires NoBreaks(a) && IsBreak(c)
    ensures BreakIndex(a + [c] + b) == |a|
    decreases |a|
  {
    if |a| > 0 {
      assert (a + [c] + b)[1..] == a[1..] + [c] + b;
      BreakIndexAfter(a[1..], c, b);
    }
  }

  lemma {:induction false} BreakIndexNone(a: string)
    requires NoBreaks(a)
    ensures BreakIndex(a) == |a|
    decreases |a|
  {
    if |a| > 0 {
      BreakIndexNone(a[1..]);
    }
  }

  lemma SplitNoBreak(a: string)
    requires NoBreaks(a)
    ensures Split(a) == [a]
  {
    BreakIndexNone(a);
  }

  lemma SplitNewline(a: string, b: string)
    requires NoBreaks(a)
    ensures Split(a + "\n" + b) == [a] + Split(b)
  {
    var s := a + "\n" + b;
    assert s == a + ['\n'] + b;
    BreakIndexAfter(a, '\n', b);
    assert s[..|a|] == a;
    assert s[|a| + 1..] == b;
  }

  /** Splitting joined lines gives the separator-free lines back, then the pieces of the last one. */
  lemma {:induction false} SplitJoinLast(lines: seq<string>, last: string)
    requires forall i :: 0 <= i < |lines| ==> NoBreaks(lines[i])
    ensures Split(Join(lines + [last], "\n")) == lines + Split(last)
    decreases |lines|
  {
    if |lines| == 0 {
      assert lines + [last] == [last];
    } else {
      var more := lines[1..] + [last];
      var inner := Join(more, "\n");
      assert Join(lines + [last], "\n") == lines[0] + "\n" + inner by {
        assert (lines + [last])[1..] == more;
      }
      assert Split(inner) == lines[1..] + Split(last) by {
        SplitJoinLast(lines[1..], last);
      }
      assert Split(Join(lines + [last], "\n")) == [lines[0]] + Split(inner) by {
        SplitNewline(lines[0], inner);
      }
      ConsAppend(lines, Split(Join(lines + [last], "\n")), Split(inner), Split(last));
    }
  }

  /** Appending a newline and a text to joined lines joins one more line. */
  lemma {:induction false} JoinSnoc(lines: seq<string>, last: string)
    requires |lines| > 0
    ensures Join(lines, "\n") + "\n" + last == Join(lines + [last], "\n")
    decreases |lines|
  {
    if |lines| > 1 {
      assert (lines + [last])[1..] == lines[1..] + [last];
      JoinSnoc(lines[1..], last);
    }
  }

  lemma SplitJoin(lines: seq<string>)
    requires |lines| > 0
    requires forall i :: 0 <= i < |lines| ==> NoBreaks(lines[i])
    ensures Split(Join(lines, "\n")) == lines
  {
    var n := |lines| - 1;
    var front, l := lines[..n], lines[n];
    FrontLast(lines);
    assert Split(Join(lines, "\n")) == front + Split(l) by {
      SplitJoinLast(front, l);
    }
    assert Split(l) == [l] by {
      SplitNoBreak(l);
    }
  }

  /** A safe record's text splits into its file lines and ends in a visible character. */
  lemma SplitRecordText(m: FieldMap)
    requires |m| > 0
    requires forall i :: 0 <= i < |m| ==> SafeEntry(m[i])
    ensures Split(RecordText(m)) == RecordLines(m)
    ensures var t := RecordText(m); |t| > 0 && !IsBreak(t[|t| - 1])
  {
    RecordTextLines(m);
    RecordLinesShape(m);
    var lines := RecordLines(m);
    SplitJoin(lines);
    JoinLast(lines, "\n");
  }

  /** A safe record's text followed by a blank line and more text. */
  lemma SplitRecordTextThen(m: FieldMap, rest: string)
    requires |m| > 0
    requires forall i :: 0 <= i < |m| ==> SafeEntry(m[i])
    ensures Split(RecordText(m) + "\n\n" + rest) == RecordLines(m) + [""] + Split(rest)
  {
    RecordTextLines(m);
    RecordLinesShape(m);
    var lines := RecordLines(m);
    var blank := "" + "\n" + rest;
    assert RecordText(m) + "\n\n" + rest == Join(lines, "\n") + "\n" + blank;
    JoinSnoc(lines, blank);
    SplitJoinLast(lines, blank);
    SplitNewline("", rest);
  }

  /** The written text splits into exactly the file lines, and does not end in a separator. */
  lemma {:induction false} SplitSerialised(data: seq<FieldMap>)
    requires |data| > 0
    requires forall i :: 0 <= i < |data| ==> |data[i]| > 0
    requires forall i :: 0 <= i < |data| ==> forall j :: 0 <= j < |data[i]| ==> SafeEntry(data[i][j])
    ensures Split(Serialise(data)) == FileLines(data)
    ensures var t := Serialise(data); |t| > 0 && !IsBreak(t[|t| - 1])
    decreases |data|
  {
    if |data| == 1 {
      SplitRecordText(data[0]);
    } else {
      var rest := Serialise(data[1..]);
      SplitSerialised(data[1..]);
      SplitRecordTextThen(data[0], rest);
      var t := Serialise(data);
      assert t[|t| - 1] == rest[|rest| - 1];
    }
  }

  /** One step of the reading loop on a non-empty line. */
  lemma CollectStep(line: string, rest: seq<string>, current: FieldMap)
    requires |line| > 0
    ensures Collect([line] + rest, current) ==
      Collect(rest, Put(current, LineEntry(line).0, LineEntry(line).1))
  {
    assert ([line] + rest)[1..] == rest;
  }

  /** Reading a record's lines appends its entries to the record being collected. */
  lemma {:induction false} CollectLines(lines: seq<string>, m: FieldMap, tail: seq<string>, current: FieldMap)
    requires |lines| == |m|
    requires forall i :: 0 <= i < |lines| ==> |lines[i]| > 0 && LineEntry(lines[i]) == m[i]
    requires forall i, j :: 0 <= i < |current| + |m| && 0 <= j < |current| + |m| && i != j ==>
      (current + m)[i].0 != (current + m)[j].0
    ensures Collect(lines + tail, current) == Collect(tail, current + m)
    decreases |lines|
  {
    if |lines| == 0 {
      assert lines + tail == tail;
      assert current + m == current;
    } else {
      var next := current + [m[0]];
      assert Put(current, m[0].0, m[0].1) == next by {
        forall i | 0 <= i < |current|
          ensures current[i].0 != m[0].0
        {
          assert (current + m)[i] == current[i];
          assert (current + m)[|current|] == m[0];
        }
        PutFresh(current, m[0].0, m[0].1);
      }
      assert Collect(lines + tail, current) == Collect(lines[1..] + tail, next) by {
        assert lines + tail == [lines[0]] + (lines[1..] + tail);
        CollectStep(lines[0], lines[1..] + tail, current);
      }
      assert next + m[1..] == current + m;
      CollectLines(lines[1..], m[1..], tail, next);
    }
  }

  /** Reading a safe record's lines from an empty record collects exactly that record. */
  lemma CollectRecord(m: FieldMap, tail: seq<string>)
    requires |m| > 0 && UniqueKeys(m)
    requires forall i :: 0 <= i < |m| ==> SafeEntry(m[i])
    ensures Collect(RecordLines(m) + tail, []) == Collect(tail, m)
  {
    RecordLinesShape(m);
    RecordLinesRead(m);
    AppendEmpty(m);
    CollectLines(RecordLines(m), m, tail, []);
  }

  lemma {:induction false} CollectFileLines(data: seq<FieldMap>)
    requires forall i :: 0 <= i < |data| ==> |data[i]| > 0 && UniqueKeys(data[i])
    requires forall i :: 0 <= i < |data| ==> forall j :: 0 <= j < |data[i]| ==> SafeEntry(data[i][j])
    ensures Collect(FileLines(data), []) == data
    decreases |data|
  {
    if |data| > 0 {
      var m := data[0];
      var lines := RecordLines(m);
      if |data| == 1 {
        assert Collect(lines, []) == Collect([], m) by {
          AppendEmpty(lines);
          CollectRecord(m, []);
        }
      } else {
        var rest := FileLines(data[1..]);
        var tail := [""] + rest;
        assert Collect(FileLines(data), []) == Collect(tail, m) by {
          assert FileLines(data) == lines + tail;
          CollectRecord(m, tail);
        }
        assert Collect(tail, m) == [m] + Collect(rest, []) by {
          ConsTail("", rest);
        }
        assert Collect(rest, []) == data[1..] by {
          CollectFileLines(data[1..]);
        }
        HeadTail(data);
      }
    }
  }

  /**
   * Reading back what `writeFile` wrote gives the same records, in the same
   * order, with the same entries, when every record is safe.
   */
  lemma RoundTrip(data: seq<FieldMap>)
    requires forall i :: 0 <= i < |data| ==> SafeRecord(data[i])
    ensures Parse(Serialise(data)) == data
  {
    if |data| > 0 {
      forall i | 0 <= i < |data|
        ensures |data[i]| > 0 && UniqueKeys(data[i])
        ensures forall j :: 0 <= j < |data[i]| ==> SafeEntry(data[i][j])
      {
        assert SafeRecord(data[i]);
      }
      var text := Serialise(data);
      SplitSerialised(data);
      assert Lines(text) == FileLines(data);
      CollectFileLines(data);
    }
  }
}
