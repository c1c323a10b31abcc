/**
 * `process_folder` (al_syft.py): the candidate files of a client folder are
 * filtered, each is processed, the tables of the complete ones are gathered
 * key by key, and the report is laid out as rows of cells.
 *
 * The files' contents are an input: `Files` maps each path to the rows
 * `csv.reader` would produce; writing the report is left to the caller.
 */
module Folder {
  import opened Wrappers
  import opened Text
  import opened Dicts
  import opened Averages
  import opened Scan
  import opened Discovery

  /** What the files hold, as rows; a path without an entry cannot be opened. */
  type Files = map<string, seq<Row>>

  /** `process_file(path)`, where `open` fails on a path the folder does not hold. */
  function ReadScan(files: Files, path: string): ScanResult
  {
    if path in files then ParseScan(files[path]) else Crash(Unreadable)
  }

  /** A file that `process_file` read to the end: `Path(file).name` and its table. */
  datatype Processed = Processed(name: string, table: Dict<Key, real>)

  /**
   * The file loop: the complete files in order, or the first exception, which
   * ends `process_folder` before anything is written.
   */
  function ScanAll(files: Files, paths: seq<string>): (r: Result<seq<Processed>, ScanError>)
    ensures r.Success? ==> forall i :: 0 <= i < |r.value| ==> Valid(r.value[i].table)
    decreases |paths|
  {
    if paths == [] then Success([])
    else
      var last := paths[|paths| - 1];
      match ScanAll(files, paths[..|paths| - 1])
      case Failure(e) => Failure(e)
      case Success(done) =>
        match ReadScan(files, last)
        case Crash(e) => Failure(e)
        case Incomplete => Success(done)
        case Parsed(t) => Success(done + [Processed(Basename(last), t)])
  }

  /** The files whose reading completes, named and paired with their tables, in order. */
  function Completed(files: Files, paths: seq<string>): seq<Processed>
    decreases |paths|
  {
    if paths == [] then []
    else
      var last := paths[|paths| - 1];
      Completed(files, paths[..|paths| - 1]) +
        if ReadScan(files, last).Parsed? then [Processed(Basename(last), ReadScan(files, last).table)] else []
  }

  /** The loop succeeds exactly when no file raises. */
  lemma {:induction false} ScanAllSucceeds(files: Files, paths: seq<string>)
    ensures ScanAll(files, paths).Success? <==> forall i :: 0 <= i < |paths| ==> !ReadScan(files, paths[i]).Crash?
    decreases |paths|
  {
    if paths != [] {
      var n := |paths| - 1;
      var init := paths[..n];
      ScanAllSucceeds(files, init);
      assert forall i :: 0 <= i < n ==> init[i] == paths[i];
      var ok := ScanAll(files, init).Success? && !ReadScan(files, paths[n]).Crash?;
      assert ScanAll(files, paths).Success? <==> ok;
    }
  }

  /** When it succeeds, the loop keeps the complete files and skips the incomplete ones. */
  lemma {:induction false} ScanAllCompleted(files: Files, paths: seq<string>)
    ensures ScanAll(files, paths).Success? ==> ScanAll(files, paths).value == Completed(files, paths)
    decreases |paths|
  {
    if paths != [] {
      ScanAllCompleted(files, paths[..|paths| - 1]);
    }
  }

  /** When it fails, the exception is the one the first raising file gives. */
  lemma {:induction false} ScanAllFirstFailure(files: Files, paths: seq<string>)
    ensures ScanAll(files, paths).Failure? ==>
              exists i :: 0 <= i < |paths| && ReadScan(files, paths[i]) == Crash(ScanAll(files, paths).error) &&
                forall j :: 0 <= j < i ==> !ReadScan(files, paths[j]).Crash?
    decreases |paths|
  {
    if paths != [] {
      var n := |paths| - 1;
      var init := paths[..n];
      ScanAllFirstFailure(files, init);
      assert forall i :: 0 <= i < n ==> init[i] == paths[i];
      if ScanAll(files, init).Failure? {
        var i :| 0 <= i < n && ReadScan(files, init[i]) == Crash(ScanAll(files, init).error) &&
                forall j :: 0 <= j < i ==> !ReadScan(files, init[j]).Crash?;
        assert ReadScan(files, paths[i]).Crash?;
      } else if ReadScan(files, paths[n]).Crash? {
        ScanAllSucceeds(files, init);
      }
    }
  }

  /** Once a file has raised, the files after it change nothing. */
  lemma {:induction false} ScanAllStopsAtFailure(files: Files, paths: seq<string>, i: nat)
    requires i <= |paths| && ScanAll(files, paths[..i]).Failure?
    ensures ScanAll(files, paths) == ScanAll(files, paths[..i])
    decreases |paths| - i
  {
    if i < |paths| {
      assert paths[..i + 1][..i] == paths[..i];
      ScanAllStopsAtFailure(files, paths, i + 1);
    } else {
      assert paths[..i] == paths;
    }
  }

  // ---------------------------------------------------------------------
  // Aggregation into `data`

  /** The list gathered for `k` so far; `[]` when `k` has none. */
  function Listed(d: Dict<Key, seq<real>>, k: Key): seq<real>
  {
    if k in d.vals then d.vals[k] else []
  }

  /** `data[key] = [value]` for a new key, `data[key].append(value)` otherwise. */
  function Append(d: Dict<Key, seq<real>>, k: Key, v: real): (r: Dict<Key, seq<real>>)
    requires Valid(d)
    ensures Valid(r)
  {
    if k !in d.vals then Put(d, k, [v]) else Put(d, k, d.vals[k] + [v])
  }

  /** Only `k`'s list grows, by `v` at its end; a new key goes to the end of the order. */
  lemma AppendSpec(d: Dict<Key, seq<real>>, k: Key, v: real)
    requires Valid(d)
    ensures forall x :: Listed(Append(d, k, v), x) == Listed(d, x) + if x == k then [v] else []
    ensures Append(d, k, v).keys == if k in d.vals then d.keys else d.keys + [k]
  {
  }

  /** The inner loop over one table's items, in the table's order. */
  function AddKeys(d: Dict<Key, seq<real>>, keys: seq<Key>, vals: map<Key, real>): (r: Dict<Key, seq<real>>)
    requires Valid(d) && forall k :: k in keys ==> k in vals
    ensures Valid(r)
    decreases |keys|
  {
    if keys == [] then d
    else
      var n := |keys| - 1;
      Append(AddKeys(d, keys[..n], vals), keys[n], vals[keys[n]])
  }

  /** Adding a table's items appends each one's value to its key's list. */
  lemma {:induction false} AddKeysListed(d: Dict<Key, seq<real>>, keys: seq<Key>, vals: map<Key, real>)
    requires Valid(d) && Distinct(keys) && forall k :: k in keys ==> k in vals
    ensures forall k :: Listed(AddKeys(d, keys, vals), k) == Listed(d, k) + if k in keys then [vals[k]] else []
    decreases |keys|
  {
    if keys != [] {
      var n := |keys| - 1;
      var init, last := keys[..n], keys[n];
      assert Distinct(init) by { assert forall i :: 0 <= i < n ==> init[i] == keys[i]; }
      AddKeysListed(d, init, vals);
      assert last !in init;
      var prior := AddKeys(d, init, vals);
      var r := AddKeys(d, keys, vals);
      assert r == Append(prior, last, vals[last]);
      AppendSpec(prior, last, vals[last]);
      forall k
        ensures Listed(r, k) == Listed(d, k) + if k in keys then [vals[k]] else []
      {
        assert k in keys <==> k in init || k == last;
        assert Listed(r, k) == Listed(prior, k) + if k == last then [vals[last]] else [];
      }
    }
  }

  /** One more key keeps `data`'s order the first-appearance order. */
  lemma AppendOrder(d: Dict<Key, seq<real>>, ks: seq<Key>, k: Key, v: real)
    requires Valid(d) && d.keys == Dedup(ks)
    ensures Append(d, k, v).keys == Dedup(ks + [k])
  {
    DedupSnoc(ks, k);
    AppendSpec(d, k, v);
  }

  /** New keys are listed after the old ones, in the order the table first gives them. */
  lemma {:induction false} AddKeysOrder(d: Dict<Key, seq<real>>, keys: seq<Key>, vals: map<Key, real>)
    requires Valid(d) && forall k :: k in keys ==> k in vals
    ensures AddKeys(d, keys, vals).keys == Dedup(d.keys + keys)
    decreases |keys|
  {
    if keys == [] {
      assert d.keys + keys == d.keys;
      DedupDistinct(d.keys);
    } else {
      var n := |keys| - 1;
      var init, last := keys[..n], keys[n];
      AddKeysOrder(d, init, vals);
      AppendOrder(AddKeys(d, init, vals), d.keys + init, last, vals[last]);
      SplitLast(d.keys, keys);
    }
  }

  /** Both of the above, for a table's own distinct keys. */
  lemma AddKeysSpec(d: Dict<Key, seq<real>>, keys: seq<Key>, vals: map<Key, real>)
    requires Valid(d) && Distinct(keys) && forall k :: k in keys ==> k in vals
    ensures forall k :: Listed(AddKeys(d, keys, vals), k) == Listed(d, k) + if k in keys then [vals[k]] else []
    ensures AddKeys(d, keys, vals).keys == Dedup(d.keys + keys)
  {
    AddKeysListed(d, keys, vals);
    AddKeysOrder(d, keys, vals);
  }

  /** No list of `data` is ever empty: each starts with the value that created it. */
  lemma {:induction false} AddKeysNonEmpty(d: Dict<Key, seq<real>>, keys: seq<Key>, vals: map<Key, real>)
    requires Valid(d) && forall k :: k in keys ==> k in vals
    requires forall k :: k in d.vals ==> |d.vals[k]| > 0
    ensures forall k :: k in AddKeys(d, keys, vals).vals ==> |AddKeys(d, keys, vals).vals[k]| > 0
    decreases |keys|
  {
    if keys != [] {
      var n := |keys| - 1;
      AddKeysNonEmpty(d, keys[..n], vals);
    }
  }

  /** `data` after the given files: each file's items appended key by key. */
  function Aggregate(done: seq<Processed>): (r: Dict<Key, seq<real>>)
    requires forall i :: 0 <= i < |done| ==> Valid(done[i].table)
    ensures Valid(r)
    ensures forall k :: k in r.vals ==> |r.vals[k]| > 0
    decreases |done|
  {
    if done == [] then Empty()
    else
      var t := done[|done| - 1].table;
      assert Valid(t);
      var prior := Aggregate(done[..|done| - 1]);
      AddKeysNonEmpty(prior, t.keys, t.vals);
      AddKeys(prior, t.keys, t.vals)
  }

  /** Every value the files give for `k`, one per file that has `k`, in file order. */
  function Collect(done: seq<Processed>, k: Key): seq<real>
    decreases |done|
  {
    if done == [] then []
    else
      var t := done[|done| - 1].table;
      Collect(done[..|done| - 1], k) + if k in t.vals then [t.vals[k]] else []
  }

  /** Every file's keys, file after file, each in its table's order. */
  function AllKeys(done: seq<Processed>): seq<Key>
    decreases |done|
  {
    if done == [] then [] else AllKeys(done[..|done| - 1]) + done[|done| - 1].table.keys
  }

  /**
   * `data` lists each key at its first appearance across the files, and holds
   * for it the values of the files that have it, in file order.
   */
  lemma {:induction false} AggregateCollects(done: seq<Processed>)
    requires forall i :: 0 <= i < |done| ==> Valid(done[i].table)
    ensures forall k :: Listed(Aggregate(done), k) == Collect(done, k)
    ensures Aggregate(done).keys == Dedup(AllKeys(done))
    decreases |done|
  {
    if done != [] {
      var n := |done| - 1;
      var t := done[n].table;
      AggregateCollects(done[..n]);
      assert Valid(t);
      AddKeysSpec(Aggregate(done[..n]), t.keys, t.vals);
      DedupAfterDedup(AllKeys(done[..n]), t.keys);
    }
  }

  /** Each file adds at most one value per key. */
  lemma {:induction false} CollectBound(done: seq<Processed>, k: Key)
    ensures |Collect(done, k)| <= |done|
    ensures Collect(done, k) != [] <==> exists i :: 0 <= i < |done| && k in done[i].table.vals
    decreases |done|
  {
    if done != [] {
      var n := |done| - 1;
      CollectBound(done[..n], k);
      assert forall i :: 0 <= i < n ==> done[..n][i] == done[i];
    }
  }

  /** What one more file adds to `k`'s values. */
  lemma CollectSnoc(done: seq<Processed>, p: Processed, k: Key)
    ensures Collect(done + [p], k) == Collect(done, k) + if k in p.table.vals then [p.table.vals[k]] else []
  {
    var more := done + [p];
    assert more[..|more| - 1] == done && more[|more| - 1] == p;
  }

  /** The values of two runs of files are those of the first run, then those of the second. */
  lemma {:induction false} CollectAppend(a: seq<Processed>, b: seq<Processed>, k: Key)
    ensures Collect(a + b, k) == Collect(a, k) + Collect(b, k)
    decreases |b|
  {
    if b == [] {
      assert a + b == a;
    } else {
      var n := |b| - 1;
      var init, x := b[..n], b[n];
      assert b == init + [x];
      assert a + b == (a + init) + [x];
      CollectAppend(a, init, k);
      CollectSnoc(a + init, x, k);
      CollectSnoc(init, x, k);
    }
  }

  /** Taking the last element off one sequence and an equal element off a permutation of it leaves permutations. */
  lemma RemoveMatching<T>(a: seq<T>, b: seq<T>, j: int)
    requires multiset(a) == multiset(b) && |a| > 0 && 0 <= j < |b| && b[j] == a[|a| - 1]
    ensures multiset(a[..|a| - 1]) == multiset(b[..j] + b[j + 1..])
  {
    var n, x := |a| - 1, a[|a| - 1];
    assert a == a[..n] + [x];
    assert b == b[..j] + [x] + b[j + 1..];
    assert multiset(a[..n]) == multiset(a) - multiset{x};
    assert multiset(b[..j] + b[j + 1..]) == multiset(b) - multiset{x};
  }

  /** Processing the same files in another order gathers the same values for each key, in another order. */
  lemma {:induction false} CollectReorder(a: seq<Processed>, b: seq<Processed>, k: Key)
    requires multiset(a) == multiset(b)
    ensures multiset(Collect(a, k)) == multiset(Collect(b, k))
    decreases |a|
  {
    if a == [] {
      assert |b| == |multiset(b)| == 0;
    } else {
      var n := |a| - 1;
      var x := a[n];
      assert a == a[..n] + [x];
      assert x in multiset(b) by {
        assert x in multiset(a);
      }
      var j :| 0 <= j < |b| && b[j] == x;
      var left, right := b[..j], b[j + 1..];
      var rest := left + right;
      assert b == left + [x] + right;
      RemoveMatching(a, b, j);
      CollectReorder(a[..n], rest, k);
      CollectSnoc(a[..n], x, k);
      CollectSnoc(left, x, k);
      CollectAppend(left + [x], right, k);
      CollectAppend(left, right, k);
    }
  }

  /**
   * The order of the files does not change any key's average: each key gathers
   * the same values whatever order the files are processed in.
   */
  lemma ReorderKeepsAverage(a: seq<Processed>, b: seq<Processed>, k: Key)
    requires multiset(a) == multiset(b)
    requires Collect(a, k) != []
    ensures Collect(b, k) != [] && Mean(Collect(a, k)) == Mean(Collect(b, k))
  {
    CollectReorder(a, b, k);
    MeanPermutation(Collect(a, k), Collect(b, k));
  }

  // ---------------------------------------------------------------------
  // The report

  /** A cell of the written CSV. */
  datatype Cell = IntCell(i: int) | RealCell(r: real) | TextCell(s: string)

  /** `["Reagent", "Product", "Average Intensity", *successfully_processed]` */
  function Header(names: seq<string>): seq<Cell>
  {
    [TextCell("Reagent"), TextCell("Product"), TextCell("Average Intensity")] +
      seq(|names|, i requires 0 <= i < |names| => TextCell(names[i]))
  }

  /** `[reagent, product, average, *values]` with `average = sum(values) / len(values)`. */
  function Line(k: Key, values: seq<real>): seq<Cell>
    requires |values| > 0
  {
    [IntCell(k.reagent), IntCell(k.product), RealCell(Mean(values))] +
      seq(|values|, i requires 0 <= i < |values| => RealCell(values[i]))
  }

  /** One line per key of `data`, in its order. */
  function Lines(data: Dict<Key, seq<real>>): (rows: seq<seq<Cell>>)
    requires Valid(data) && forall k :: k in data.vals ==> |data.vals[k]| > 0
    ensures |rows| == |data.keys|
  {
    seq(|data.keys|, i requires 0 <= i < |data.keys| => Line(data.keys[i], data.vals[data.keys[i]]))
  }

  function Names(done: seq<Processed>): seq<string>
  {
    seq(|done|, i requires 0 <= i < |done| => done[i].name)
  }

  /** The rows `process_folder` writes for the complete files. */
  function Report(done: seq<Processed>): seq<seq<Cell>>
    requires forall i :: 0 <= i < |done| ==> Valid(done[i].table)
  {
    [Header(Names(done))] + Lines(Aggregate(done))
  }

  /**
   * Below the header, one row per key found in any complete file, in order of
   * first appearance; the row holds the key, the mean of the values gathered
   * for it and those values in file order, never more values than files.
   */
  lemma ReportRows(done: seq<Processed>, i: nat)
    requires forall j :: 0 <= j < |done| ==> Valid(done[j].table)
    requires i < |Dedup(AllKeys(done))|
    ensures var k, rows := Dedup(AllKeys(done))[i], Report(done);
      |rows| == 1 + |Dedup(AllKeys(done))| &&
      0 < |Collect(done, k)| <= |done| &&
      rows[1 + i] == Line(k, Collect(done, k))
  {
    var data := Aggregate(done);
    AggregateCollects(done);
    var k := data.keys[i];
    assert k in data.vals;
    CollectBound(done, k);
    assert data.vals[k] == Collect(done, k) by { assert Listed(data, k) == data.vals[k]; }
    assert Report(done)[1 + i] == Lines(data)[i];
  }

  /**
   * The report always has its header, and one row per key found in any file;
   * it is the header alone exactly when no complete file has any key.
   */
  lemma ReportShape(done: seq<Processed>)
    requires forall j :: 0 <= j < |done| ==> Valid(done[j].table)
    ensures |Report(done)| == 1 + |Dedup(AllKeys(done))|
    ensures Report(done)[0] == Header(Names(done))
    ensures |Report(done)| == 1 <==> AllKeys(done) == []
  {
    AggregateCollects(done);
    if AllKeys(done) != [] {
      assert AllKeys(done)[0] in Dedup(AllKeys(done));
    }
  }

  /** With a key absent from the first of two files, its values are the second file's alone. */
  lemma TwoFilesCollect(p1: Processed, p2: Processed, k: Key)
    requires k !in p1.table.vals && k in p2.table.vals
    ensures Collect([p1, p2], k) == [p2.table.vals[k]]
  {
    assert [p1] == [] + [p1] && [p1, p2] == [p1] + [p2];
    CollectSnoc([], p1, k);
    CollectSnoc([p1], p2, k);
  }

  /** A key of the second of two files is a key of the report. */
  lemma TwoFilesKey(p1: Processed, p2: Processed, k: Key)
    requires Valid(p2.table) && k in p2.table.vals
    ensures k in Dedup(AllKeys([p1, p2]))
  {
    var done := [p1, p2];
    assert done[..1] == [p1];
    assert AllKeys(done) == AllKeys([p1]) + p2.table.keys;
  }

  /** The row of a key with one value: the key, the value as its average, then the value. */
  lemma LineSingle(k: Key, v: real)
    ensures Line(k, [v]) == [IntCell(k.reagent), IntCell(k.product), RealCell(v), RealCell(v)]
  {
    assert Sum([v]) == v by {
      assert [v][..0] == [];
    }
  }

  /**
   * A row lists only the values of the files that have its key, so a value can
   * sit under another file's column: with a key absent from the first of two
   * files, the second file's value is written under the first file's name.
   */
  lemma ColumnShift(n1: string, n2: string, t1: Dict<Key, real>, t2: Dict<Key, real>, k: Key)
    requires Valid(t1) && Valid(t2) && k !in t1.vals && k in t2.vals
    ensures var rows := Report([Processed(n1, t1), Processed(n2, t2)]);
      rows[0][3] == TextCell(n1) &&
      exists i :: 1 <= i < |rows| &&
        rows[i] == [IntCell(k.reagent), IntCell(k.product), RealCell(t2.vals[k]), RealCell(t2.vals[k])]
  {
    var p1, p2 := Processed(n1, t1), Processed(n2, t2);
    var done := [p1, p2];
    TwoFilesCollect(p1, p2, k);
    TwoFilesKey(p1, p2, k);
    LineSingle(k, t2.vals[k]);
    var keys := Dedup(AllKeys(done));
    var i :| 0 <= i < |keys| && keys[i] == k;
    ReportRows(done, i);
    ReportShape(done);
    assert Names(done) == [n1, n2];
    assert Report(done)[1 + i] == Line(k, [t2.vals[k]]);
  }

  /** The report a client folder yields, or the exception that stops it. */
  function FolderReport(clientPath: string, entries: seq<Entry>, files: Files): Result<seq<seq<Cell>>, ScanError>
  {
    var paths := KeepMatching(Candidates(clientPath, entries));
    match ScanAll(files, paths)
    case Failure(e) => Failure(e)
    case Success(done) => Success(Report(done))
  }

  /** One item of a processed file: a new key starts its list, a known one extends it. */
  method AddItem(data0: Dict<Key, seq<real>>, key: Key, value: real) returns (data: Dict<Key, seq<real>>)
    requires Valid(data0)
    ensures data == Append(data0, key, value)
  {
    if key !in data0.vals {
      data := Put(data0, key, [value]);
    } else {
      data := Put(data0, key, data0.vals[key] + [value]);
    }
  }

  /** The inner loop of `process_folder`: one processed file's items added to `data`. */
  method AddTable(data0: Dict<Key, seq<real>>, t: Dict<Key, real>) returns (data: Dict<Key, seq<real>>)
    requires Valid(data0) && Valid(t)
    ensures data == AddKeys(data0, t.keys, t.vals)
  {
    data := data0;
    var j := 0;
    while j < |t.keys|
      invariant 0 <= j <= |t.keys|
      invariant data == AddKeys(data0, t.keys[..j], t.vals)
    {
      var key := t.keys[j];
      ghost var upto := t.keys[..j + 1];
      assert upto[..j] == t.keys[..j] && upto[j] == key;
      data := AddItem(data, key, t.vals[key]);
      j := j + 1;
    }
    assert t.keys[..j] == t.keys;
  }

  /** The writing loop of `process_folder`: the header, then one row per key of `data`. */
  method WriteRows(data: Dict<Key, seq<real>>, names: seq<string>) returns (rows: seq<seq<Cell>>)
    requires Valid(data) && forall k :: k in data.vals ==> |data.vals[k]| > 0
    ensures rows == [Header(names)] + Lines(data)
  {
    rows := [Header(names)];
    var k := 0;
    while k < |data.keys|
      invariant 0 <= k <= |data.keys|
      invariant rows == [Header(names)] + Lines(data)[..k]
    {
      var key := data.keys[k];
      var values := data.vals[key];
      var average := Sum(values) / |values| as real;
      rows := rows + [[IntCell(key.reagent), IntCell(key.product), RealCell(average)] +
                      seq(|values|, v requires 0 <= v < |values| => RealCell(values[v]))];
      assert Lines(data)[..k + 1] == Lines(data)[..k] + [Lines(data)[k]];
      k := k + 1;
    }
    assert Lines(data)[..k] == Lines(data);
  }

  /** One more file: the loop goes on, skips it, or stops with its exception. */
  lemma ScanAllNext(files: Files, paths: seq<string>, i: nat, done: seq<Processed>)
    requires i < |paths| && ScanAll(files, paths[..i]) == Success(done)
    ensures ReadScan(files, paths[i]).Crash? ==> ScanAll(files, paths[..i + 1]) == Failure(ReadScan(files, paths[i]).error)
    ensures ReadScan(files, paths[i]).Incomplete? ==> ScanAll(files, paths[..i + 1]) == Success(done)
    ensures ReadScan(files, paths[i]).Parsed? ==>
              ScanAll(files, paths[..i + 1]) == Success(done + [Processed(Basename(paths[i]), ReadScan(files, paths[i]).table)])
  {
    var upto := paths[..i + 1];
    assert upto[..|upto| - 1] == paths[..i] && upto[|upto| - 1] == paths[i];
  }

  /** The report's state after one more complete file. */
  lemma ReportNext(done: seq<Processed>, p: Processed)
    requires forall j :: 0 <= j < |done| ==> Valid(done[j].table)
    requires Valid(p.table)
    ensures Names(done + [p]) == Names(done) + [p.name]
    ensures Aggregate(done + [p]) == AddKeys(Aggregate(done), p.table.keys, p.table.vals)
  {
    var more := done + [p];
    assert more[..|more| - 1] == done;
  }

  /** `process_file(file)` for one listed path; a path the folder lacks raises. */
  method ReadFile(files: Files, file: string) returns (processed: ScanResult)
    ensures processed == ReadScan(files, file)
  {
    if file in files {
      processed := ProcessFile(files[file]);
    } else {
      processed := Crash(Unreadable);
    }
  }

  /** `process_folder`, loop by loop, returning the rows instead of writing them. */
  method ProcessFolder(clientPath: string, entries: seq<Entry>, files: Files) returns (r: Result<seq<seq<Cell>>, ScanError>)
    ensures r == FolderReport(clientPath, entries, files)
  {
    var candidates := CollectCandidates(clientPath, entries);
    var paths := KeepMatching(candidates);
    var data := Empty<Key, seq<real>>();
    var names: seq<string> := [];
    ghost var done: seq<Processed> := [];
    var i := 0;
    while i < |paths|
      invariant 0 <= i <= |paths|
      invariant ScanAll(files, paths[..i]) == Success(done)
      invariant data == Aggregate(done) && names == Names(done)
    {
      var file := paths[i];
      var processed := ReadFile(files, file);
      ScanAllNext(files, paths, i, done);
      if processed.Crash? {
        ScanAllStopsAtFailure(files, paths, i + 1);
        return Failure(processed.error);
      }
      if processed.Parsed? {
        var t := processed.table;
        var p := Processed(Basename(file), t);
        assert Valid(t) by { assert ScanAll(files, paths[..i + 1]).value[|done|] == p; }
        ReportNext(done, p);
        done := done + [p];
        names := names + [Basename(file)];
        data := AddTable(data, t);
      }
      i := i + 1;
    }
    assert paths[..i] == paths;
    var rows := WriteRows(data, names);
    r := Success(rows);
  }
}
