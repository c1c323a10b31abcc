/**
 * `process_file` (al_syft.py): one instrument export, given as its CSV rows,
 * reduced to one averaged intensity per (reagent, product) pair.
 *
 * The export's data block sits in rows [266, 1424). A row whose first cell is
 * empty marks the file incomplete (Python returns `None`). The first row of the
 * block locates the first `:` cell; every row is cut there and read as
 * `reagent, product, intensity...`. A dict comprehension keyed by
 * `(reagent, product)` keeps the LAST row of each key. A fixed denylist is
 * deleted, and every remaining key's readings are replaced by their mean.
 * Where Python raises, the model returns `Crash` with the reason.
 */
module Scan {
  import opened Wrappers
  import opened Text
  import opened Dicts
  import opened Averages

  /** A (reagent, product) pair: one measured channel. */
  datatype Key = Key(reagent: int, product: int)

  /** One CSV row as `csv.reader` yields it. */
  type Row = seq<string>

  /** One data row read as numbers: its key and its intensity readings. */
  type Reading = (Key, seq<real>)

  /** Why `process_file` raises instead of returning. */
  datatype ScanError =
    | EmptyRow        // `row[0]` of a blank CSV line inside the window (IndexError)
    | EmptyWindow     // `data[0]` when the window holds no row (IndexError)
    | NoSentinel      // `data[0].index(':')` finds no ':' cell (ValueError)
    | ShortRow        // a cut row has fewer than two cells to unpack (ValueError)
    | BadInteger      // `int()` rejects a reagent or product cell (ValueError)
    | BadDecimal      // `float()` rejects an intensity cell (ValueError)
    | NoIntensities   // a surviving key has no reading to average (ZeroDivisionError)
    | Unreadable      // `open()` fails on the path (OSError)

  /** `None` (incomplete file), an exception, or the per-key averages. */
  datatype ScanResult = Incomplete | Crash(error: ScanError) | Parsed(table: Dict<Key, real>)

  /** The data block of the instrument's export template: rows [266, 1424). */
  const WindowStart: nat := 266
  const WindowEnd: nat := 1424

  function Min(a: int, b: int): int
  {
    if a <= b then a else b
  }

  /** `data[266:1424]`, with Python's clamping of slice bounds to the list. */
  function Window(data: seq<Row>): (w: seq<Row>)
    ensures |w| == if |data| <= WindowStart then 0 else Min(|data|, WindowEnd) - WindowStart
    ensures forall i :: 0 <= i < |w| ==> w[i] == data[WindowStart + i]
  {
    if |data| <= WindowStart then [] else data[WindowStart..Min(|data|, WindowEnd)]
  }

  // ---------------------------------------------------------------------
  // The completeness scan

  datatype Screening = Complete | Blank | Unindexable

  /** The scan over the window stops here: the row has no first cell, or it is empty. */
  predicate Stops(row: Row)
  {
    row == [] || row[0] == ""
  }

  /** `for row in data: if row[0] == '': return None`, up to the first row that stops it. */
  function Screen(w: seq<Row>): Screening
    decreases |w|
  {
    if w == [] then Complete
    else if w[0] == [] then Unindexable
    else if w[0][0] == "" then Blank
    else Screen(w[1..])
  }

  /**
   * The scan passes exactly when no row stops it; otherwise the first row that
   * stops it decides: an empty first cell gives `None`, a blank line raises.
   */
  lemma {:induction false} ScreenFirstStop(w: seq<Row>)
    ensures Screen(w) == Complete <==> forall i :: 0 <= i < |w| ==> !Stops(w[i])
    ensures forall i :: 0 <= i < |w| && Stops(w[i]) && (forall j :: 0 <= j < i ==> !Stops(w[j])) ==>
              Screen(w) == (if w[i] == [] then Unindexable else Blank)
    ensures Screen(w) == Unindexable ==> exists i :: 0 <= i < |w| && w[i] == []
    decreases |w|
  {
    if w != [] && !Stops(w[0]) {
      ScreenFirstStop(w[1..]);
      if Screen(w) == Unindexable {
        var i :| 0 <= i < |w[1..]| && w[1..][i] == [];
        assert w[i + 1] == [];
      }
      forall i | 0 <= i < |w| && Stops(w[i]) && (forall j :: 0 <= j < i ==> !Stops(w[j]))
        ensures Screen(w) == (if w[i] == [] then Unindexable else Blank)
      {
        assert i != 0;
        assert w[1..][i - 1] == w[i];
        assert forall j :: 0 <= j < i - 1 ==> !Stops(w[1..][j]) by {
          forall j | 0 <= j < i - 1 ensures !Stops(w[1..][j]) {
            assert w[1..][j] == w[j + 1];
          }
        }
      }
      if forall i :: 0 <= i < |w| ==> !Stops(w[i]) {
        forall i | 0 <= i < |w| - 1 ensures !Stops(w[1..][i]) {
          assert w[1..][i] == w[i + 1];
        }
      }
      if forall i :: 0 <= i < |w[1..]| ==> !Stops(w[1..][i]) {
        forall i | 0 <= i < |w| ensures !Stops(w[i]) {
          if i > 0 {
            assert w[i] == w[1..][i - 1];
          }
        }
      }
    }
  }

  // ---------------------------------------------------------------------
  // Cutting at the sentinel and reading numbers

  /** `row[:n]` */
  function Truncate(row: Row, n: nat): (r: Row)
    ensures |r| == Min(n, |row|) && r == row[..|r|]
  {
    if n <= |row| then row[..n] else row
  }

  /** `[row[:n] for row in data]` */
  function CutRows(w: seq<Row>, n: nat): (rows: seq<Row>)
    ensures |rows| == |w|
    ensures forall i :: 0 <= i < |w| ==> rows[i] == Truncate(w[i], n)
  {
    seq(|w|, i requires 0 <= i < |w| => Truncate(w[i], n))
  }

  /** `list(map(float, cells))`: every cell must read as a decimal. */
  function ParseCells(cells: seq<string>): (r: Option<seq<real>>)
    ensures r.Some? <==> forall i :: 0 <= i < |cells| ==> ParseDecimal(cells[i]).Some?
    ensures r.Some? ==> (|r.value| == |cells| &&
              forall i :: 0 <= i < |cells| ==> ParseDecimal(cells[i]) == Some(r.value[i]))
    decreases |cells|
  {
    if cells == [] then Some([])
    else
      match ParseDecimal(cells[0])
      case None => None
      case Some(x) =>
        match ParseCells(cells[1..])
        case None =>
          assert exists i :: 0 <= i < |cells[1..]| && ParseDecimal(cells[1..][i]).None?;
          None
        case Some(xs) =>
          assert forall i :: 0 < i < |cells| ==> cells[i] == cells[1..][i - 1];
          Some([x] + xs)
  }

  /** `reagent, product, *intensities = row`, then `int(reagent), int(product)` and the readings. */
  function ParseRow(row: Row): (r: Result<Reading, ScanError>)
    ensures r.Success? ==> |r.value.1| + 2 == |row|
  {
    if |row| < 2 then Failure(ShortRow)
    else
      match (ParseInt(row[0]), ParseInt(row[1]))
      case (Some(reagent), Some(product)) =>
        (match ParseCells(row[2..])
         case None => Failure(BadDecimal)
         case Some(xs) => Success((Key(reagent, product), xs)))
      case _ => Failure(BadInteger)
  }

  /** The rows of the comprehension read in order; the first row Python cannot read raises. */
  function ParseRows(rows: seq<Row>): (r: Result<seq<Reading>, ScanError>)
    ensures r.Success? ==> (|r.value| == |rows| &&
              forall i :: 0 <= i < |rows| ==> ParseRow(rows[i]) == Success(r.value[i]))
    ensures r.Failure? ==>
              exists i :: 0 <= i < |rows| && ParseRow(rows[i]) == Failure(r.error) &&
                          (forall j :: 0 <= j < i ==> ParseRow(rows[j]).Success?)
    decreases |rows|
  {
    if rows == [] then Success([])
    else
      match ParseRow(rows[0])
      case Failure(e) => Failure(e)
      case Success(p) =>
        match ParseRows(rows[1..])
        case Failure(e) =>
          assert forall i :: 0 < i < |rows| ==> rows[i] == rows[1..][i - 1];
          Failure(e)
        case Success(ps) =>
          assert forall i :: 0 < i < |rows| ==> rows[i] == rows[1..][i - 1];
          Success([p] + ps)
  }

  // ---------------------------------------------------------------------
  // The denylist

  /** The combinations known to be noisy, as the source lists them: reagent -> products. */
  const DenyTable: seq<(int, seq<int>)> := [(19, [19, 37]), (30, [30]), (32, [32])]

  /** The keys `(reagent, p)` for the products `p` of one denylist entry. */
  function EntryKeys(reagent: int, products: seq<int>): set<Key>
    decreases |products|
  {
    if products == [] then {}
    else EntryKeys(reagent, products[..|products| - 1]) + {Key(reagent, products[|products| - 1])}
  }

  /** The keys of the first entries of a denylist table. */
  function TableKeys(table: seq<(int, seq<int>)>): set<Key>
    decreases |table|
  {
    if table == [] then {}
    else
      var last := table[|table| - 1];
      TableKeys(table[..|table| - 1]) + EntryKeys(last.0, last.1)
  }

  /** The denylist as keys. */
  const DeniedKeys: set<Key> := TableKeys(DenyTable)

  /** The denylist is exactly the four combinations (19, 19), (19, 37), (30, 30) and (32, 32). */
  lemma DeniedKeysListed()
    ensures DeniedKeys == {Key(19, 19), Key(19, 37), Key(30, 30), Key(32, 32)}
  {
    assert DenyTable[..2][..1] == DenyTable[..1];
    assert DenyTable[..1][..0] == [];
    assert [19, 37][..1] == [19];
    assert [19][..0] == [];
    assert [30][..0] == [];
    assert [32][..0] == [];
    assert DenyTable[..3] == DenyTable;
    assert DenyTable[..3][..2] == DenyTable[..2];
    calc {
      DeniedKeys;
      TableKeys(DenyTable[..2]) + EntryKeys(32, [32]);
      TableKeys(DenyTable[..1]) + EntryKeys(30, [30]) + EntryKeys(32, [32]);
      EntryKeys(19, [19, 37]) + EntryKeys(30, [30]) + EntryKeys(32, [32]);
    }
  }

  /** Deleting the denylist: denied keys leave, every other key keeps its value and its place. */
  function Deny<V>(d: Dict<Key, V>): (r: Dict<Key, V>)
    requires Valid(d)
    ensures Valid(r)
    ensures forall k :: k in r.vals <==> k in d.vals && k !in DeniedKeys
    ensures forall k :: k in r.vals ==> r.vals[k] == d.vals[k]
    ensures r.keys == FilterOut(d.keys, DeniedKeys)
  {
    Without(d, DeniedKeys)
  }

  /** Filtering twice is filtering once. */
  lemma DenyIdempotent<V>(d: Dict<Key, V>)
    requires Valid(d)
    ensures Deny(Deny(d)) == Deny(d)
  {
    WithoutTwice(d, DeniedKeys, DeniedKeys);
    assert DeniedKeys + DeniedKeys == DeniedKeys;
  }

  /** Denied keys that are absent are no-ops: a dict without any of them is left as it was. */
  lemma DenyAbsent<V>(d: Dict<Key, V>)
    requires Valid(d)
    requires forall k :: k in DeniedKeys ==> k !in d.vals
    ensures Deny(d) == d
  {
    WithoutAbsent(d, DeniedKeys);
  }

  // ---------------------------------------------------------------------
  // Averaging

  /** `data[key] = sum(data[key]) / len(data[key])` for every key; an empty list raises. */
  function Means(d: Dict<Key, seq<real>>): (r: Result<Dict<Key, real>, ScanError>)
    requires Valid(d)
    ensures r.Failure? <==> exists k :: k in d.vals && |d.vals[k]| == 0
    ensures r.Failure? ==> r.error == NoIntensities
    ensures r.Success? ==> Valid(r.value) && r.value.keys == d.keys
    ensures r.Success? ==> forall k :: k in r.value.vals <==> k in d.vals
    ensures r.Success? ==> forall k :: k in d.vals ==> |d.vals[k]| > 0 && r.value.vals[k] == Mean(d.vals[k])
  {
    if exists k :: k in d.vals && |d.vals[k]| == 0 then Failure(NoIntensities)
    else Success(Dict(d.keys, map k | k in d.vals :: Mean(d.vals[k])))
  }

  // ---------------------------------------------------------------------
  // process_file

  /** The dict the comprehension builds, then the denylist, then the means. */
  function Reduce(readings: seq<Reading>): Result<Dict<Key, real>, ScanError>
  {
    Means(Deny(FromPairs(readings)))
  }

  /**
   * `data[0].index(':')`, the cut of every row there, and the comprehension's reads:
   * the sentinel column comes from the FIRST window row and applies to all of them.
   */
  function ReadWindow(w: seq<Row>): (r: Result<seq<Reading>, ScanError>)
    ensures |w| == 0 ==> r == Failure(EmptyWindow)
    ensures |w| > 0 && ":" !in w[0] ==> r == Failure(NoSentinel)
    ensures r.Success? ==>
              |w| > 0 && ":" in w[0] && |r.value| == |w| &&
              var cut := IndexOf(w[0], ":").value;
              w[0][cut] == ":" && ":" !in w[0][..cut] &&
              forall i :: 0 <= i < |w| ==> ParseRow(Truncate(w[i], cut)) == Success(r.value[i])
    ensures |w| > 0 && ":" in w[0] && r.Failure? ==>
              var cut := IndexOf(w[0], ":").value;
              exists i :: 0 <= i < |w| && ParseRow(Truncate(w[i], cut)) == Failure(r.error) &&
                          forall j :: 0 <= j < i ==> ParseRow(Truncate(w[j], cut)).Success?
  {
    if |w| == 0 then Failure(EmptyWindow)
    else
      match IndexOf(w[0], ":")
      case None => Failure(NoSentinel)
      case Some(cut) => ParseRows(CutRows(w, cut))
  }

  /** What `process_file` returns or raises for a file with these rows. */
  function ParseScan(data: seq<Row>): ScanResult
  {
    var w := Window(data);
    match Screen(w)
    case Unindexable => Crash(EmptyRow)
    case Blank => Incomplete
    case Complete =>
      match ReadWindow(w)
      case Failure(e) => Crash(e)
      case Success(readings) =>
        match Reduce(readings)
        case Failure(e) => Crash(e)
        case Success(t) => Parsed(t)
  }

  /**
   * When every window row has a first cell (as `csv.reader` rows do unless the
   * line is blank), the file is reported incomplete exactly when some window
   * row's first cell is empty; there is then no partial result.
   */
  lemma IncompleteFile(data: seq<Row>)
    requires forall i :: WindowStart <= i < Min(|data|, WindowEnd) ==> data[i] != []
    ensures ParseScan(data) == Incomplete <==>
              exists i :: WindowStart <= i < Min(|data|, WindowEnd) && data[i][0] == ""
  {
    var w := Window(data);
    ScreenFirstStop(w);
    assert forall i :: 0 <= i < |w| ==> w[i] != [] && w[i] == data[WindowStart + i];
    if exists i :: WindowStart <= i < Min(|data|, WindowEnd) && data[i][0] == "" {
      var i :| WindowStart <= i < Min(|data|, WindowEnd) && data[i][0] == "";
      assert Stops(w[i - WindowStart]);
    }
    if Screen(w) == Blank {
      var i :| 0 <= i < |w| && Stops(w[i]);
      assert data[WindowStart + i][0] == "";
    }
  }

  /**
   * Rows outside [266, 1424) never influence the result: two files that agree
   * inside the window, and have as many rows there, give the same outcome.
   */
  lemma OutsideWindowIgnored(a: seq<Row>, b: seq<Row>)
    requires Min(|a|, WindowEnd) == Min(|b|, WindowEnd) || (|a| <= WindowStart && |b| <= WindowStart)
    requires forall i :: WindowStart <= i < Min(|a|, WindowEnd) ==> a[i] == b[i]
    ensures ParseScan(a) == ParseScan(b)
  {
    if |a| > WindowStart {
      assert Window(a) == Window(b);
    }
  }

  /**
   * The table reduced from the rows read: its keys are the rows' keys minus the
   * denylist, in first-occurrence order, and each key holds the mean of the
   * readings of the LAST row with that key. The reduction raises exactly when
   * such a surviving last row has no reading.
   */
  lemma ReduceContents(ps: seq<Reading>)
    ensures Reduce(ps).Failure? <==>
              exists i :: 0 <= i < |ps| && LastOfKey(ps, i) && ps[i].0 !in DeniedKeys && |ps[i].1| == 0
    ensures Reduce(ps).Success? ==>
              var t := Reduce(ps).value;
              Valid(t) && t.keys == FilterOut(Dedup(Firsts(ps)), DeniedKeys) &&
              (forall k :: k in t.vals <==> k in Firsts(ps) && k !in DeniedKeys) &&
              forall i :: 0 <= i < |ps| && LastOfKey(ps, i) && ps[i].0 !in DeniedKeys ==>
                |ps[i].1| > 0 && t.vals[ps[i].0] == Mean(ps[i].1)
  {
    FromPairsOrder(ps);
    FromPairsLastWins(ps);
    var d := Deny(FromPairs(ps));
    forall k | k in d.vals ensures exists i :: 0 <= i < |ps| && LastOfKey(ps, i) && ps[i].0 == k {
      LastOccurrence(ps, k);
    }
  }

  /**
   * A parsed file had a complete window, and its table is the reduction of the
   * rows read at the first row's sentinel (see `ReadWindow` and `ReduceContents`).
   */
  lemma ParsedFile(data: seq<Row>, t: Dict<Key, real>)
    requires ParseScan(data) == Parsed(t)
    ensures forall i :: 0 <= i < |Window(data)| ==> Window(data)[i] != [] && Window(data)[i][0] != ""
    ensures ReadWindow(Window(data)).Success? && Reduce(ReadWindow(Window(data)).value) == Success(t)
  {
    ScreenFirstStop(Window(data));
  }

  /**
   * The converse of `ParsedFile`: a file whose window is complete, has a
   * sentinel in its first row and has every cut row readable is read; it then
   * parses exactly when every surviving last row has a reading, and otherwise
   * raises ZeroDivisionError.
   */
  lemma CompleteFile(data: seq<Row>)
    requires forall i :: 0 <= i < |Window(data)| ==> !Stops(Window(data)[i])
    requires |Window(data)| > 0 && ":" in Window(data)[0]
    requires forall i :: 0 <= i < |Window(data)| ==>
               ParseRow(Truncate(Window(data)[i], IndexOf(Window(data)[0], ":").value)).Success?
    ensures ReadWindow(Window(data)).Success?
    ensures var ps := ReadWindow(Window(data)).value;
      ParseScan(data).Parsed? <==>
        forall i :: 0 <= i < |ps| && LastOfKey(ps, i) && ps[i].0 !in DeniedKeys ==> |ps[i].1| > 0
    ensures !ParseScan(data).Parsed? ==> ParseScan(data) == Crash(NoIntensities)
  {
    var w := Window(data);
    ScreenFirstStop(w);
    ReduceContents(ReadWindow(w).value);
    if Reduce(ReadWindow(w).value).Failure? {
      assert Means(Deny(FromPairs(ReadWindow(w).value))).Failure?;
    }
  }

  /**
   * A file whose only data row puts the sentinel right after the product has
   * no reading for that key. If the key is denied (the (19, 37) scenario) it is
   * deleted before averaging and the file parses to an empty table; any other
   * key makes the average divide by zero.
   */
  lemma SingleRowWithoutReadings(header: seq<Row>, row: Row, k: Key)
    requires |header| == WindowStart
    requires |row| >= 3 && row[2] == ":" && row[0] != "" && ":" !in row[..2]
    requires ParseRow(row[..2]) == Success((k, []))
    ensures ParseScan(header + [row]) ==
              if k in DeniedKeys then Parsed(Dict([], map[])) else Crash(NoIntensities)
  {
    var data := header + [row];
    assert Window(data) == [row];
    assert Screen([row]) == Complete by {
      assert [row][1..] == [];
    }
    assert IndexOf(row, ":") == Some(2);
    assert Truncate(row, 2) == row[..2];
    var ps := [(k, [])];
    assert ParseRows([row[..2]]) == Success(ps) by {
      assert [row[..2]][1..] == [];
      assert ParseRows([row[..2]][1..]) == Success([]);
      assert [ps[0]] + [] == ps;
    }
    assert CutRows([row], 2) == [row[..2]];
    assert ReadWindow([row]) == Success(ps);
    ReduceWithoutReadings(k);
  }

  /** No keys, nothing to average and nothing raised. */
  lemma MeansOfNothing()
    ensures Means(Dict([], map[])) == Success(Dict([], map[]))
  {
  }

  lemma ReduceWithoutReadings(k: Key)
    ensures Reduce([(k, [])]) == if k in DeniedKeys then Success(Dict([], map[])) else Failure(NoIntensities)
  {
    var ps: seq<Reading> := [(k, [])];
    assert FromPairs(ps) == Dict([k], map[k := []]) by {
      assert ps[..0] == [];
    }
    var reduced := Deny(FromPairs(ps));
    assert reduced == Without(Dict([k], map[k := []]), DeniedKeys);
    if k in DeniedKeys {
      assert reduced.vals == map[];
      assert reduced.keys == [] by {
        assert [k][1..] == [];
        assert FilterOut([k], DeniedKeys) == FilterOut([], DeniedKeys);
      }
      assert reduced == Dict([], map[]);
      MeansOfNothing();
    } else {
      assert k in reduced.vals && |reduced.vals[k]| == 0;
    }
  }

  /** Every key of a list of pairs has a last pair. */
  lemma {:induction false} LastOccurrence<V>(ps: seq<(Key, V)>, k: Key)
    requires k in Firsts(ps)
    ensures exists i :: 0 <= i < |ps| && LastOfKey(ps, i) && ps[i].0 == k
    decreases |ps|
  {
    var n := |ps| - 1;
    if ps[n].0 == k {
      assert LastOfKey(ps, n);
    } else {
      assert Firsts(ps) == Firsts(ps[..n]) + [ps[n].0];
      LastOccurrence(ps[..n], k);
      var i :| 0 <= i < n && LastOfKey(ps[..n], i) && ps[..n][i].0 == k;
      assert LastOfKey(ps, i);
    }
  }

  /** The completeness loop of `process_file`, returning at the first row that stops it. */
  method ScreenWindow(w: seq<Row>) returns (s: Screening)
    ensures s == Screen(w)
  {
    var i := 0;
    while i < |w|
      invariant 0 <= i <= |w|
      invariant Screen(w) == Screen(w[i..])
    {
      assert w[i..][1..] == w[i + 1..];
      if w[i] == [] {
        return Unindexable;
      }
      if w[i][0] == "" {
        return Blank;
      }
      i := i + 1;
    }
    return Complete;
  }

  /** One more product of a denylist entry adds its key. */
  lemma EntryKeysNext(reagent: int, products: seq<int>, u: nat)
    requires u < |products|
    ensures EntryKeys(reagent, products[..u + 1]) == EntryKeys(reagent, products[..u]) + {Key(reagent, products[u])}
  {
    assert products[..u + 1][..u] == products[..u];
  }

  /** One more denylist entry adds its keys. */
  lemma TableKeysNext(table: seq<(int, seq<int>)>, t: nat)
    requires t < |table|
    ensures TableKeys(table[..t + 1]) == TableKeys(table[..t]) + EntryKeys(table[t].0, table[t].1)
  {
    assert table[..t + 1][..t] == table[..t];
  }

  /** The inner denylist loop: `if (reagent, product) in data: del data[(reagent, product)]` for each product. */
  method DeleteEntry(d0: Dict<Key, seq<real>>, reagent: int, products: seq<int>) returns (d: Dict<Key, seq<real>>)
    requires Valid(d0)
    ensures Valid(d) && d == Without(d0, EntryKeys(reagent, products))
  {
    d := d0;
    WithoutAbsent(d0, {});
    var u := 0;
    while u < |products|
      invariant 0 <= u <= |products|
      invariant Valid(d) && d == Without(d0, EntryKeys(reagent, products[..u]))
    {
      var k := Key(reagent, products[u]);
      EntryKeysNext(reagent, products, u);
      WithoutTwice(d0, EntryKeys(reagent, products[..u]), {k});
      if k in d.vals {
        d := Without(d, {k});
      } else {
        WithoutAbsent(d, {k});
      }
      u := u + 1;
    }
    assert products[..u] == products;
  }

  /** The denylist loop, entry by entry. */
  method DeleteDenied(d0: Dict<Key, seq<real>>) returns (d: Dict<Key, seq<real>>)
    requires Valid(d0)
    ensures d == Deny(d0)
  {
    d := d0;
    WithoutAbsent(d0, {});
    var t := 0;
    while t < |DenyTable|
      invariant 0 <= t <= |DenyTable|
      invariant Valid(d) && d == Without(d0, TableKeys(DenyTable[..t]))
    {
      var reagent := DenyTable[t].0;
      var products := DenyTable[t].1;
      TableKeysNext(DenyTable, t);
      WithoutTwice(d0, TableKeys(DenyTable[..t]), EntryKeys(reagent, products));
      d := DeleteEntry(d, reagent, products);
      t := t + 1;
    }
    assert DenyTable[..t] == DenyTable;
  }

  /** The averaging loop: each key's readings replaced by their mean, in key order; an empty list raises. */
  method AverageReadings(d: Dict<Key, seq<real>>) returns (r: Result<Dict<Key, real>, ScanError>)
    requires Valid(d)
    ensures r == Means(d)
  {
    var means: map<Key, real> := map[];
    var m := 0;
    while m < |d.keys|
      invariant 0 <= m <= |d.keys|
      invariant forall k :: k in means <==> k in d.keys[..m]
      invariant forall k :: k in means ==> k in d.vals && |d.vals[k]| > 0 && means[k] == Mean(d.vals[k])
    {
      var k := d.keys[m];
      if |d.vals[k]| == 0 {
        return Failure(NoIntensities);
      }
      means := means[k := Mean(d.vals[k])];
      assert d.keys[..m + 1] == d.keys[..m] + [k];
      m := m + 1;
    }
    assert d.keys[..m] == d.keys;
    assert means == map k | k in d.vals :: Mean(d.vals[k]);
    r := Success(Dict(d.keys, means));
  }

  /** `process_file`, step by step as the source runs it, on the rows `csv.reader` produced. */
  method ProcessFile(data: seq<Row>) returns (res: ScanResult)
    ensures res == ParseScan(data)
  {
    var w := Window(data);
    var screening := ScreenWindow(w);
    if screening == Unindexable {
      return Crash(EmptyRow);
    } else if screening == Blank {
      return Incomplete;
    }
    if |w| == 0 {
      return Crash(EmptyWindow);
    }
    var sentinel := IndexOf(w[0], ":");  // data[0].index(':')
    if sentinel.None? {
      return Crash(NoSentinel);
    }
    var parsed := ParseRows(CutRows(w, sentinel.value));
    if parsed.Failure? {
      return Crash(parsed.error);
    }
    var d := FromPairs(parsed.value);
    d := DeleteDenied(d);
    var averaged := AverageReadings(d);
    if averaged.Failure? {
      return Crash(averaged.error);
    }
    res := Parsed(averaged.value);
  }
}
