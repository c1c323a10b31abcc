/**
 * Which files the pipeline reads (al_syft.py): the scan directories of a client
 * folder and the `filter_files` test used by `process_folder`, the 30-minute
 * file-name search of `findMassScansFileNames`, and the `AL-` client test.
 *
 * Directory listings are inputs: an `Entry` is what `os.listdir` names, with
 * `os.path.isfile`/`os.path.isdir` already decided and, for a directory, the
 * names listed inside it.
 */
module Discovery {
  import opened Wrappers
  import opened Text

  datatype Entry = File(name: string) | Directory(name: string, listing: seq<string>)

  // ---------------------------------------------------------------------
  // Regular-expression building blocks (Python `re` without flags)

  /** No line break in `s[a..b]`: the span a `.*` can cover. */
  predicate NoBreak(s: string, a: int, b: int)
    requires 0 <= a <= b <= |s|
  {
    forall k :: a <= k < b ==> s[k] != '\n'
  }

  /** The text before the first line break. */
  function FirstLine(s: string): (r: string)
    ensures |r| <= |s| && r == s[..|r|] && '\n' !in r
    ensures |r| < |s| ==> s[|r|] == '\n'
    decreases |s|
  {
    if s == [] || s[0] == '\n' then []
    else
      var rest := FirstLine(s[1..]);
      assert [s[0]] + rest == s[..|rest| + 1];
      [s[0]] + rest
  }

  // ---------------------------------------------------------------------
  // The scan-directory test of process_folder

  /** `re.match(lead + '.*' + word + '.*', name)`: `name` starts with `lead` and `word` follows on the same line. */
  predicate LeadThenWord(name: string, lead: char, word: string)
  {
    |name| > 0 && name[0] == lead && Contains(FirstLine(name[1..]), word)
  }

  /** The directory test: `re.match(r'0.*baseline.*', item.lower()) or re.match(r'2.*mass.*', item.lower())`. */
  predicate IsScanDirectory(item: string)
    ensures IsScanDirectory(item) ==> |item| > 0 && (item[0] == '0' || item[0] == '2')
  {
    var l := Lower(item);
    LeadThenWord(l, '0', "baseline") || LeadThenWord(l, '2', "mass")
  }

  /** An occurrence in the first line, after the lead, is one on the lead's line. */
  lemma FirstLineOccurrence(name: string, word: string, j: int)
    requires |name| > 0 && OccursAt(FirstLine(name[1..]), word, j)
    ensures OccursAt(name, word, j + 1) && NoBreak(name, 1, j + 1)
  {
    var t := name[1..];
    var f := FirstLine(t);
    forall k | 0 <= k < |word| ensures name[j + 1 + k] == word[k] {
      assert f[j..j + |word|][k] == word[k];
      assert f[j + k] == t[j + k];
    }
    assert name[j + 1..j + 1 + |word|] == word;
    forall k | 1 <= k < j + 1 ensures name[k] != '\n' {
      assert f[k - 1] == t[k - 1];
    }
  }

  /** A prefix without line breaks lies inside the first line. */
  lemma FirstLineCovers(t: string, m: int)
    requires 0 <= m <= |t| && forall k :: 0 <= k < m ==> t[k] != '\n'
    ensures m <= |FirstLine(t)|
  {
  }

  /** An occurrence on the lead's line lies inside the first line after the lead. */
  lemma OccurrenceInFirstLine(name: string, word: string, i: int)
    requires '\n' !in word
    requires 1 <= i && OccursAt(name, word, i) && NoBreak(name, 1, i)
    ensures OccursAt(FirstLine(name[1..]), word, i - 1)
  {
    var t := name[1..];
    var f := FirstLine(t);
    var j := i - 1;
    forall k | 0 <= k < j + |word| ensures t[k] != '\n' {
      if j <= k {
        assert t[k] == name[i..i + |word|][k - j];
      }
    }
    FirstLineCovers(t, j + |word|);
    forall k | 0 <= k < |word| ensures f[j + k] == word[k] {
      assert name[i..i + |word|][k] == word[k];
      assert f[j + k] == t[j + k];
    }
    assert f[j..j + |word|] == word;
  }

  /**
   * `LeadThenWord` is the anchored match: the lead character first, then an
   * occurrence of the word with no line break between them (what `.*` spans).
   */
  lemma LeadThenWordMatches(name: string, lead: char, word: string)
    requires '\n' !in word
    ensures LeadThenWord(name, lead, word) <==>
              |name| > 0 && name[0] == lead &&
              exists i :: 1 <= i && OccursAt(name, word, i) && NoBreak(name, 1, i)
  {
    if |name| > 0 && name[0] == lead {
      var f := FirstLine(name[1..]);
      ContainsAt(f, word);
      if Contains(f, word) {
        var j :| OccursAt(f, word, j);
        FirstLineOccurrence(name, word, j);
      }
      if exists i :: 1 <= i && OccursAt(name, word, i) && NoBreak(name, 1, i) {
        var i :| 1 <= i && OccursAt(name, word, i) && NoBreak(name, 1, i);
        OccurrenceInFirstLine(name, word, i);
      }
    }
  }

  // ---------------------------------------------------------------------
  // filter_files

  /** The markers `filter_files` looks for, in the source's order. */
  const Markers: seq<string> := ["baseline", " 0min", " 0 min", "neg3", "neg7", "neg 3", "neg 7", " -3 ", " -7 "]

  /** `filter_files(fileName)`: a `.csv` suffix (case-sensitive) and a marker anywhere in the lower-cased path. */
  predicate FilterFiles(fileName: string)
  {
    EndsWith(fileName, ".csv") &&
    exists i :: 0 <= i < |Markers| && Contains(Lower(fileName), Lower(Markers[i]))
  }

  lemma LowerAppend(a: string, b: string)
    ensures Lower(a + b) == Lower(a) + Lower(b)
  {
  }

  /**
   * `filter_files` sees the joined path, not the file name: every `.csv` file
   * listed in a directory whose path mentions "baseline" (in any case) is kept.
   */
  lemma CsvUnderBaselineKept(dir: string, name: string)
    requires EndsWith(name, ".csv") && !StartsWith(name, "/")
    requires Contains(Lower(dir), "baseline")
    ensures FilterFiles(JoinPath(dir, name))
  {
    JoinKeepsSuffix(dir, name, ".csv");
    JoinKeepsMention(dir, name, "baseline");
    BaselineIsMarker();
  }

  /** Joining a relative name keeps the name's suffix. */
  lemma JoinKeepsSuffix(dir: string, name: string, suffix: string)
    requires EndsWith(name, suffix) && !StartsWith(name, "/")
    ensures EndsWith(JoinPath(dir, name), suffix)
  {
    var p := JoinPath(dir, name);
    JoinPathSpec(dir, name);
    assert p[|p| - |name|..] == name;
    assert p[|p| - |suffix|..] == name[|name| - |suffix|..];
  }

  /** Joining a relative name keeps what the lower-cased directory mentions. */
  lemma JoinKeepsMention(dir: string, name: string, word: string)
    requires !StartsWith(name, "/") && Contains(Lower(dir), word)
    ensures Contains(Lower(JoinPath(dir, name)), word)
  {
    var p := JoinPath(dir, name);
    JoinPathSpec(dir, name);
    var rest := p[|dir|..];
    assert p == dir + rest;
    LowerAppend(dir, rest);
    ContainsInPrefix(Lower(dir), Lower(rest), word);
  }

  lemma BaselineIsMarker()
    ensures Lower(Markers[0]) == "baseline"
  {
  }

  /** `list(filter(keep, paths))` */
  function KeepBy(paths: seq<string>, keep: string -> bool): (r: seq<string>)
    ensures |r| <= |paths|
    decreases |paths|
  {
    if paths == [] then []
    else
      var last := paths[|paths| - 1];
      KeepBy(paths[..|paths| - 1], keep) + if keep(last) then [last] else []
  }

  /** The kept paths are exactly the given ones that `keep` accepts. */
  lemma {:induction false} KeepByMembers(paths: seq<string>, keep: string -> bool)
    ensures forall p :: p in KeepBy(paths, keep) <==> p in paths && keep(p)
    decreases |paths|
  {
    if paths != [] {
      var init := paths[..|paths| - 1];
      KeepByMembers(init, keep);
      assert forall p :: p in paths <==> p in init || p == paths[|paths| - 1];
    }
  }

  /** `list(filter(filter_files, paths))` */
  function KeepMatching(paths: seq<string>): (r: seq<string>)
    ensures forall p :: p in r <==> p in paths && FilterFiles(p)
    ensures |r| <= |paths|
  {
    KeepByMembers(paths, FilterFiles);
    KeepBy(paths, FilterFiles)
  }

  /** One more path is kept at the end exactly when `keep` accepts it. */
  lemma KeepBySnoc(paths: seq<string>, p: string, keep: string -> bool)
    ensures KeepBy(paths + [p], keep) == KeepBy(paths, keep) + if keep(p) then [p] else []
  {
    var q := paths + [p];
    assert q[..|q| - 1] == paths && q[|q| - 1] == p;
  }

  lemma {:induction false} KeepByAppend(a: seq<string>, b: seq<string>, keep: string -> bool)
    ensures KeepBy(a + b, keep) == KeepBy(a, keep) + KeepBy(b, keep)
    decreases |b|
  {
    if b == [] {
      assert a + b == a;
    } else {
      var n := |b| - 1;
      var init, x := b[..n], b[n];
      assert b == init + [x];
      assert a + b == (a + init) + [x];
      KeepByAppend(a, init, keep);
      KeepBySnoc(a + init, x, keep);
      KeepBySnoc(init, x, keep);
    }
  }

  /** One path is kept exactly when it passes `filter_files`. */
  lemma KeepMatchingSingle(p: string)
    ensures KeepMatching([p]) == if FilterFiles(p) then [p] else []
  {
    KeepBySnoc([], p, FilterFiles);
    assert [] + [p] == [p];
  }

  /**
   * Filtering keeps order and repetitions: filtering a concatenation is
   * concatenating the filtered parts.
   */
  lemma KeepMatchingAppend(a: seq<string>, b: seq<string>)
    ensures KeepMatching(a + b) == KeepMatching(a) + KeepMatching(b)
  {
    KeepByAppend(a, b, FilterFiles);
  }

  // ---------------------------------------------------------------------
  // The candidate files of process_folder

  /** `[os.path.join(dir, f) for f in names]` */
  function JoinAll(dir: string, names: seq<string>): (r: seq<string>)
    ensures |r| == |names| && forall j :: 0 <= j < |names| ==> r[j] == JoinPath(dir, names[j])
  {
    seq(|names|, j requires 0 <= j < |names| => JoinPath(dir, names[j]))
  }

  /** What one listed item contributes: the paths inside it when `isScan` accepts its name. */
  function EntryFiles(clientPath: string, e: Entry, isScan: string -> bool): seq<string>
  {
    match e
    case File(_) => []
    case Directory(name, listing) =>
      if isScan(name) then JoinAll(JoinPath(clientPath, name), listing) else []
  }

  /** The items' contributions, in listing order. */
  function CandidatesBy(clientPath: string, entries: seq<Entry>, isScan: string -> bool): seq<string>
    decreases |entries|
  {
    if entries == [] then []
    else CandidatesBy(clientPath, entries[..|entries| - 1], isScan) + EntryFiles(clientPath, entries[|entries| - 1], isScan)
  }

  /** `files_to_process` before filtering. */
  function Candidates(clientPath: string, entries: seq<Entry>): seq<string>
  {
    CandidatesBy(clientPath, entries, IsScanDirectory)
  }

  /** `p` is the `j`-th name listed in the `e`-th item, a directory `isScan` accepts, joined to its path. */
  predicate InScanDirectory(clientPath: string, entries: seq<Entry>, isScan: string -> bool, e: int, j: int, p: string)
  {
    0 <= e < |entries| && entries[e].Directory? && isScan(entries[e].name) &&
    0 <= j < |entries[e].listing| && p == JoinPath(JoinPath(clientPath, entries[e].name), entries[e].listing[j])
  }

  /** A candidate is a path inside an accepted directory of the client folder, and each such path is one. */
  lemma {:induction false} CandidatesByFrom(clientPath: string, entries: seq<Entry>, isScan: string -> bool, p: string)
    ensures p in CandidatesBy(clientPath, entries, isScan) <==> exists e, j :: InScanDirectory(clientPath, entries, isScan, e, j, p)
    decreases |entries|
  {
    if entries != [] {
      var n := |entries| - 1;
      var init := entries[..n];
      CandidatesByFrom(clientPath, init, isScan, p);
      var last := EntryFiles(clientPath, entries[n], isScan);
      assert CandidatesBy(clientPath, entries, isScan) == CandidatesBy(clientPath, init, isScan) + last;
      if p in CandidatesBy(clientPath, init, isScan) {
        var e, j :| InScanDirectory(clientPath, init, isScan, e, j, p);
        assert init[e] == entries[e];
        assert InScanDirectory(clientPath, entries, isScan, e, j, p);
      } else if p in last {
        var j :| 0 <= j < |last| && last[j] == p;
        assert InScanDirectory(clientPath, entries, isScan, n, j, p);
      }
      if exists e, j :: InScanDirectory(clientPath, entries, isScan, e, j, p) {
        var e, j :| InScanDirectory(clientPath, entries, isScan, e, j, p);
        if e == n {
          assert last[j] == p;
        } else {
          assert init[e] == entries[e];
          assert InScanDirectory(clientPath, init, isScan, e, j, p);
        }
      }
    }
  }

  /**
   * A candidate is a path inside a scan directory of the client folder
   * (`0…baseline…` or `2…mass…`), and each such path is one.
   */
  lemma CandidatesFrom(clientPath: string, entries: seq<Entry>, p: string)
    ensures p in Candidates(clientPath, entries) <==> exists e, j :: InScanDirectory(clientPath, entries, IsScanDirectory, e, j, p)
  {
    CandidatesByFrom(clientPath, entries, IsScanDirectory, p);
  }

  /** The directory loop of `process_folder`: `files_to_process.extend(...)` for each scan directory. */
  method CollectCandidates(clientPath: string, entries: seq<Entry>) returns (files: seq<string>)
    ensures files == Candidates(clientPath, entries)
  {
    files := [];
    var i := 0;
    while i < |entries|
      invariant 0 <= i <= |entries|
      invariant files == CandidatesBy(clientPath, entries[..i], IsScanDirectory)
    {
      assert entries[..i + 1][..i] == entries[..i];
      var item := entries[i];
      if item.File? {
        i := i + 1;
        continue;
      }
      if IsScanDirectory(item.name) {
        var dir := JoinPath(clientPath, item.name);
        files := files + JoinAll(dir, item.listing);
      }
      i := i + 1;
    }
    assert entries[..i] == entries;
  }

  // ---------------------------------------------------------------------
  // The 30-minute file-name search of findMassScansFileNames

  const ScanPrefix: string := "2-Mass-Scan-pos-neg"

  /** The length of the run of ASCII digits starting at `k`. */
  function DigitRun(s: string, k: nat): (n: nat)
    requires k <= |s|
    ensures k + n <= |s|
    decreases |s| - k
  {
    if k < |s| && IsDigit(s[k]) then 1 + DigitRun(s, k + 1) else 0
  }

  /** The run is all digits and ends the string or stops before a non-digit. */
  lemma {:induction false} DigitRunSpec(s: string, k: nat)
    requires k <= |s|
    ensures forall t :: k <= t < k + DigitRun(s, k) ==> IsDigit(s[t])
    ensures k + DigitRun(s, k) == |s| || !IsDigit(s[k + DigitRun(s, k)])
    decreases |s| - k
  {
    if k < |s| && IsDigit(s[k]) {
      DigitRunSpec(s, k + 1);
    }
  }

  lemma DigitRunDigits(s: string, k: nat)
    requires k <= |s|
    ensures AllDigits(s[k..k + DigitRun(s, k)])
  {
    DigitRunSpec(s, k);
    var run := s[k..k + DigitRun(s, k)];
    forall t | 0 <= t < |run| ensures IsDigit(run[t]) {
      assert run[t] == s[k + t];
    }
  }

  /** `.csv` at position `k`. */
  predicate CsvAt(s: string, k: int)
  {
    0 <= k && k + 4 <= |s| && s[k] == '.' && s[k + 1] == 'c' && s[k + 2] == 's' && s[k + 3] == 'v'
  }

  /** `.*\.csv$` from position `m`: `$` matches at the end or before a final line break. */
  predicate CsvTail(s: string, m: nat)
    requires m <= |s|
  {
    (m + 4 <= |s| && CsvAt(s, |s| - 4) && NoBreak(s, m, |s|)) ||
    (m + 5 <= |s| && CsvAt(s, |s| - 5) && s[|s| - 1] == '\n' && NoBreak(s, m, |s| - 1))
  }

  /** ` ([0-9]+)min.*\.csv$` with the space at `j`; the digits are the whole run, since `m` follows them. */
  predicate GroupAt(s: string, j: int)
  {
    0 <= j < |s| && s[j] == ' ' &&
    var n := DigitRun(s, j + 1);
    n > 0 && j + n + 4 <= |s| && s[j + n + 1] == 'm' && s[j + n + 2] == 'i' && s[j + n + 3] == 'n' &&
    CsvTail(s, j + n + 4)
  }

  /** The number the group captures. */
  function Captured(s: string, j: int): nat
    requires GroupAt(s, j)
  {
    DigitRunDigits(s, j + 1);
    DigitsValue(s[j + 1..j + 1 + DigitRun(s, j + 1)])
  }

  /** `2-Mass-Scan-pos-neg` starts at position `i`. */
  predicate PrefixAt(s: string, i: int)
  {
    0 <= i && i + |ScanPrefix| <= |s| && s[i..i + |ScanPrefix|] == ScanPrefix
  }

  /** The whole pattern matches from position `i` with the group's space at `j`. */
  predicate MatchAt(s: string, i: int, j: int)
  {
    PrefixAt(s, i) && i + |ScanPrefix| <= j < |s| &&
    NoBreak(s, i + |ScanPrefix|, j) && GroupAt(s, j)
  }

  /** The greedy `.*`: the LAST group position in [lo, hi) reachable from `lo` on one line. */
  function LastGroup(s: string, lo: nat, hi: nat): (r: Option<nat>)
    requires lo <= hi <= |s|
    ensures r.Some? ==> lo <= r.value < hi && GroupAt(s, r.value)
    decreases hi - lo
  {
    if hi == lo then None
    else if GroupAt(s, hi - 1) && NoBreak(s, lo, hi - 1) then Some(hi - 1)
    else LastGroup(s, lo, hi - 1)
  }

  /** `LastGroup` finds a reachable group, and none beyond it; `None` when there is none. */
  lemma {:induction false} LastGroupSpec(s: string, lo: nat, hi: nat)
    requires lo <= hi <= |s|
    ensures var r := LastGroup(s, lo, hi);
      (r.Some? ==> NoBreak(s, lo, r.value) && forall j :: r.value < j < hi ==> !(GroupAt(s, j) && NoBreak(s, lo, j))) &&
      (r.None? ==> forall j :: lo <= j < hi ==> !(GroupAt(s, j) && NoBreak(s, lo, j)))
    decreases hi - lo
  {
    if hi != lo && !(GroupAt(s, hi - 1) && NoBreak(s, lo, hi - 1)) {
      LastGroupSpec(s, lo, hi - 1);
    }
  }

  /** `re.search`: the leftmost start from `i` on that matches, with its greedy group. */
  function SearchFrom(s: string, i: nat): (r: Option<(nat, nat)>)
    requires i <= |s|
    ensures r.Some? ==> GroupAt(s, r.value.1)
    decreases |s| - i
  {
    if i + |ScanPrefix| > |s| then None
    else if PrefixAt(s, i) && LastGroup(s, i + |ScanPrefix|, |s|).Some? then
      Some((i, LastGroup(s, i + |ScanPrefix|, |s|).value))
    else SearchFrom(s, i + 1)
  }

  /** The matches that start at `i` are those `SearchFrom` looks for there, and `LastGroup` picks the last. */
  lemma MatchesAt(s: string, i: nat)
    requires i + |ScanPrefix| <= |s|
    ensures var g := LastGroup(s, i + |ScanPrefix|, |s|);
      ((exists b :: MatchAt(s, i, b)) <==> PrefixAt(s, i) && g.Some?) &&
      (PrefixAt(s, i) && g.Some? ==>
        MatchAt(s, i, g.value) && forall b :: g.value < b ==> !MatchAt(s, i, b))
  {
    var lo := i + |ScanPrefix|;
    var g := LastGroup(s, lo, |s|);
    LastGroupSpec(s, lo, |s|);
    if exists b :: MatchAt(s, i, b) {
      var b :| MatchAt(s, i, b);
      assert lo <= b < |s| && GroupAt(s, b) && NoBreak(s, lo, b);
    }
    if PrefixAt(s, i) && g.Some? {
      assert MatchAt(s, i, g.value);
      forall b | g.value < b ensures !MatchAt(s, i, b) {
        if b < |s| {
          assert !(GroupAt(s, b) && NoBreak(s, lo, b));
        }
      }
    }
  }

  /**
   * `SearchFrom` is the leftmost match from `i` on, with the largest group
   * position for that start; `None` exactly when nothing matches from `i` on.
   */
  lemma {:induction false} SearchFromSpec(s: string, i: nat)
    requires i <= |s|
    ensures var r := SearchFrom(s, i);
      (r.Some? ==> i <= r.value.0 && MatchAt(s, r.value.0, r.value.1)) &&
      (r.Some? ==> forall a, b :: i <= a < r.value.0 ==> !MatchAt(s, a, b)) &&
      (r.Some? ==> forall b :: r.value.1 < b ==> !MatchAt(s, r.value.0, b)) &&
      (r.None? ==> forall a, b :: i <= a ==> !MatchAt(s, a, b))
    decreases |s| - i
  {
    if i + |ScanPrefix| <= |s| {
      MatchesAt(s, i);
      if !(PrefixAt(s, i) && LastGroup(s, i + |ScanPrefix|, |s|).Some?) {
        var r := SearchFrom(s, i + 1);
        SearchFromSpec(s, i + 1);
        assert SearchFrom(s, i) == r;
        assert forall b :: !MatchAt(s, i, b);
        if r.Some? {
          forall a, b | i <= a < r.value.0 ensures !MatchAt(s, a, b) {
            if a > i {
              assert i + 1 <= a < r.value.0;
            }
          }
        } else {
          forall a, b | i <= a ensures !MatchAt(s, a, b) {
            if a > i {
              assert i + 1 <= a;
            }
          }
        }
      }
    } else {
      forall a, b | i <= a ensures !MatchAt(s, a, b) {
        assert !PrefixAt(s, a);
      }
    }
  }

  /**
   * `re.search(r"2-Mass-Scan-pos-neg.* ([0-9]+)min.*\.csv$", fileName)` and
   * `int(res.group(1))`; `None` when the search finds nothing.
   */
  function MinutesOf(fileName: string): Option<nat>
  {
    match SearchFrom(fileName, 0)
    case None => None
    case Some((i, j)) => Some(Captured(fileName, j))
  }

  /**
   * `MinutesOf` follows the search's semantics: it finds something exactly when
   * the pattern matches somewhere, and then reports the number after the LAST
   * ` <digits>min` on the line of the leftmost match.
   */
  lemma MinutesOfMatches(fileName: string)
    ensures MinutesOf(fileName).Some? <==> exists i, j :: MatchAt(fileName, i, j)
    ensures MinutesOf(fileName).Some? ==>
              exists i, j :: MatchAt(fileName, i, j) && MinutesOf(fileName).value == Captured(fileName, j) &&
                (forall a, b :: a < i ==> !MatchAt(fileName, a, b)) &&
                (forall b :: j < b ==> !MatchAt(fileName, i, b))
  {
    SearchFromSpec(fileName, 0);
    if SearchFrom(fileName, 0).Some? {
      var i, j := SearchFrom(fileName, 0).value.0, SearchFrom(fileName, 0).value.1;
      assert MatchAt(fileName, i, j);
    }
  }

  /**
   * A match at the very start whose group is followed by no other space is
   * what the search reports.
   */
  lemma MinutesOfFirstMatch(s: string, j: int)
    requires MatchAt(s, 0, j)
    requires forall b :: j < b < |s| ==> s[b] != ' '
    ensures MinutesOf(s) == Some(Captured(s, j))
  {
    SearchFromSpec(s, 0);
    var r := SearchFrom(s, 0);
    assert r.Some?;
    assert r.value.0 == 0;
  }

  /** A run of `n` digits that ends the string or is followed by a non-digit is what `DigitRun` measures. */
  lemma {:induction false} DigitRunExact(s: string, k: nat, n: nat)
    requires k + n <= |s| && forall t :: k <= t < k + n ==> IsDigit(s[t])
    requires k + n == |s| || !IsDigit(s[k + n])
    ensures DigitRun(s, k) == n
    decreases n
  {
    if n > 0 {
      assert IsDigit(s[k]);
      DigitRunExact(s, k + 1, n - 1);
    }
  }

  /** `2-Mass-Scan-pos-neg<tag> <digits>min<stamp>.csv` */
  function ScanName(tag: string, digits: string, stamp: string): string
  {
    ScanPrefix + tag + " " + digits + "min" + stamp + ".csv"
  }

  /** `s` is laid out as `ScanName(tag, digits, stamp)`: where each part sits, the group's space at `|ScanPrefix| + |tag|`. */
  predicate Laid(s: string, tag: string, digits: string, stamp: string)
  {
    var j, n := |ScanPrefix| + |tag|, |digits|;
    |s| == j + n + 4 + |stamp| + 4 &&
    s[..|ScanPrefix|] == ScanPrefix &&
    (forall k :: 0 <= k < |tag| ==> s[|ScanPrefix| + k] == tag[k]) &&
    s[j] == ' ' &&
    s[j + 1..j + 1 + n] == digits &&
    s[j + n + 1] == 'm' && s[j + n + 2] == 'i' && s[j + n + 3] == 'n' &&
    (forall k :: 0 <= k < |stamp| ==> s[j + n + 4 + k] == stamp[k]) &&
    s[|s| - 4] == '.' && s[|s| - 3] == 'c' && s[|s| - 2] == 's' && s[|s| - 1] == 'v'
  }

  lemma ScanNameLaid(tag: string, digits: string, stamp: string)
    ensures Laid(ScanName(tag, digits, stamp), tag, digits, stamp)
  {
  }

  /**
   * The shape of a mass-scan name at character level: the prefix at the start,
   * one line, the group's space at `j` followed by `n` digits and `min`, no
   * space after that, and `.csv` at the end.
   */
  predicate ScanShape(s: string, j: int, n: int)
  {
    |ScanPrefix| <= j && 0 < n && j + n + 8 <= |s| && PrefixAt(s, 0) &&
    (forall k :: 0 <= k < |s| ==> s[k] != '\n') &&
    s[j] == ' ' && (forall t :: j + 1 <= t <= j + n ==> IsDigit(s[t])) &&
    s[j + n + 1] == 'm' && s[j + n + 2] == 'i' && s[j + n + 3] == 'n' &&
    (forall k :: j + n + 4 <= k < |s| ==> s[k] != ' ') &&
    CsvAt(s, |s| - 4)
  }

  /** After the digits of a name of that shape there is no space, and the digits stop before `m`. */
  lemma ShapeNoSpaceAfter(s: string, j: int, n: int)
    requires ScanShape(s, j, n)
    ensures forall b :: j < b < |s| ==> s[b] != ' '
  {
    forall b | j < b < |s| ensures s[b] != ' ' {
      if b <= j + n {
        assert IsDigit(s[b]);
      }
    }
  }

  /** The group of a name of that shape sits at `j`, its digits being the `n` after the space. */
  lemma ShapeGroup(s: string, j: int, n: int)
    requires ScanShape(s, j, n)
    ensures GroupAt(s, j) && DigitRun(s, j + 1) == n
  {
    var m := j + n + 4;
    assert s[j + n + 1] == 'm' && !IsDigit(s[j + n + 1]);
    DigitRunExact(s, j + 1, n);
    assert NoBreak(s, m, |s|);
    assert CsvTail(s, m);
  }

  /** A name of that shape matches at its start, with the group at `j` and no space after it. */
  lemma ShapeMatches(s: string, j: int, n: int)
    requires ScanShape(s, j, n)
    ensures MatchAt(s, 0, j) && Captured(s, j) == DigitsValue(s[j + 1..j + 1 + n])
    ensures forall b :: j < b < |s| ==> s[b] != ' '
  {
    ShapeGroup(s, j, n);
    ShapeNoSpaceAfter(s, j, n);
    assert NoBreak(s, |ScanPrefix|, j);
  }

  /** A name laid out that way has the shape, with the digits where they were put. */
  lemma LaidShape(s: string, tag: string, digits: string, stamp: string)
    requires Laid(s, tag, digits, stamp)
    requires forall k :: 0 <= k < |tag| ==> tag[k] != '\n'
    requires |digits| > 0 && AllDigits(digits)
    requires forall k :: 0 <= k < |stamp| ==> stamp[k] != ' ' && stamp[k] != '\n'
    ensures ScanShape(s, |ScanPrefix| + |tag|, |digits|)
  {
    var j, n := |ScanPrefix| + |tag|, |digits|;
    var m := j + n + 4;
    assert PrefixAt(s, 0) by { assert s[0..|ScanPrefix|] == s[..|ScanPrefix|]; }
    forall k | 0 <= k < |s| ensures s[k] != '\n' {
      if |ScanPrefix| <= k < j {
        assert s[k] == tag[k - |ScanPrefix|];
      } else if j < k <= j + n {
        assert s[k] == s[j + 1..j + 1 + n][k - j - 1];
      } else if m <= k < m + |stamp| {
        assert s[k] == stamp[k - m];
      } else if k < |ScanPrefix| {
        assert s[k] == s[..|ScanPrefix|][k];
      }
    }
    forall t | j + 1 <= t <= j + n ensures IsDigit(s[t]) {
      assert s[t] == s[j + 1..j + 1 + n][t - j - 1];
    }
    forall k | m <= k < |s| ensures s[k] != ' ' {
      if k < m + |stamp| {
        assert s[k] == stamp[k - m];
      }
    }
  }

  /**
   * A file named `2-Mass-Scan-pos-neg<tag> <digits>min<stamp>.csv` gives the
   * minutes `<digits>`, whatever the tag holds, provided the stamp holds no
   * space (which could start a later group) and the name no line break.
   */
  lemma MinutesOfScanName(s: string, tag: string, digits: string, stamp: string)
    requires Laid(s, tag, digits, stamp)
    requires forall k :: 0 <= k < |tag| ==> tag[k] != '\n'
    requires |digits| > 0 && AllDigits(digits)
    requires forall k :: 0 <= k < |stamp| ==> stamp[k] != ' ' && stamp[k] != '\n'
    ensures MinutesOf(s) == Some(DigitsValue(digits))
  {
    var j := |ScanPrefix| + |tag|;
    LaidShape(s, tag, digits, stamp);
    ShapeMatches(s, j, |digits|);
    MinutesOfFirstMatch(s, j);
  }

  /** The 30-minute mass scan named in the repository's own test. */
  const ExampleScan: string := ScanName("-AL-07", "30", "-20181219-163117")

  /** The file of the repository's own test names the 30-minute scan. */
  lemma ThirtyMinuteExample()
    ensures MinutesOf(ExampleScan) == Some(30)
  {
    var tag, digits, stamp := "-AL-07", "30", "-20181219-163117";
    assert forall k :: 0 <= k < |tag| ==> tag[k] != '\n';
    assert forall k :: 0 <= k < |stamp| ==> stamp[k] != ' ' && stamp[k] != '\n';
    assert AllDigits(digits);
    assert DigitsValue(digits) == 30 by {
      assert digits[..1] == "3";
      assert "3"[..0] == "";
    }
    ScanNameLaid(tag, digits, stamp);
    MinutesOfScanName(ExampleScan, tag, digits, stamp);
  }

  /** The file test of `findMassScansFileNames`: the name's minutes are 30. */
  predicate IsThirtyMinuteScan(fileName: string)
  {
    MinutesOf(fileName) == Some(30)
  }

  // The traversal below takes the file test as a parameter `keep`, so that its
  // proofs do not depend on the regular expression; `MassScanFiles` fixes it.

  /** `(os.path.join(dir, name), 30)` for each listed name that `keep` accepts, in listing order. */
  function PickScans(dir: string, names: seq<string>, keep: string -> bool): seq<(string, nat)>
    decreases |names|
  {
    if names == [] then []
    else
      var last := names[|names| - 1];
      PickScans(dir, names[..|names| - 1], keep) + if keep(last) then [(JoinPath(dir, last), 30)] else []
  }

  /** What one listed item contributes: the picked files of a directory, nothing for a file. */
  function EntryScans(clientPath: string, e: Entry, keep: string -> bool): seq<(string, nat)>
  {
    match e
    case File(_) => []
    case Directory(name, listing) => PickScans(JoinPath(clientPath, name), listing, keep)
  }

  /** The picked files of every directory of the client folder, in listing order. */
  function ScansOf(clientPath: string, entries: seq<Entry>, keep: string -> bool): seq<(string, nat)>
    decreases |entries|
  {
    if entries == [] then []
    else ScansOf(clientPath, entries[..|entries| - 1], keep) + EntryScans(clientPath, entries[|entries| - 1], keep)
  }

  /**
   * What `findMassScansFileNames` returns. For each directory of the client
   * folder, `listing` holds what `os.listdir(os.path.join(subDir, subDir))`
   * names; the returned path joins the file name to `subDir` itself.
   */
  function MassScanFiles(clientPath: string, entries: seq<Entry>): seq<(string, nat)>
  {
    ScansOf(clientPath, entries, IsThirtyMinuteScan)
  }

  /** One more listed name: picked when `keep` accepts it. */
  lemma PickScansNext(dir: string, names: seq<string>, f: nat, keep: string -> bool)
    requires f < |names|
    ensures PickScans(dir, names[..f + 1], keep) ==
              PickScans(dir, names[..f], keep) + if keep(names[f]) then [(JoinPath(dir, names[f]), 30)] else []
  {
    assert names[..f + 1][..f] == names[..f];
  }

  /** The loop's prefix, once it covers the whole listing. */
  lemma PickScansWhole(dir: string, names: seq<string>, keep: string -> bool)
    ensures PickScans(dir, names[..|names|], keep) == PickScans(dir, names, keep)
  {
    assert names[..|names|] == names;
  }

  /** The inner loop of `findMassScansFileNames`: one directory's 30-minute scans, in listing order. */
  method DirectoryMassScans(subDir: string, names: seq<string>) returns (picked: seq<(string, nat)>)
    ensures picked == PickScans(subDir, names, IsThirtyMinuteScan)
  {
    picked := [];
    var f := 0;
    while f < |names|
      invariant 0 <= f <= |names|
      invariant picked == PickScans(subDir, names[..f], IsThirtyMinuteScan)
    {
      PickScansNext(subDir, names, f, IsThirtyMinuteScan);
      var res := MinutesOf(names[f]);
      assert IsThirtyMinuteScan(names[f]) <==> res == Some(30);
      if res.Some? && res.value == 30 {
        picked := picked + [(JoinPath(subDir, names[f]), res.value)];
      }
      f := f + 1;
    }
    PickScansWhole(subDir, names, IsThirtyMinuteScan);
  }

  /** `findMassScansFileNames`: the outer loop over the client folder's directories. */
  method FindMassScans(clientPath: string, entries: seq<Entry>) returns (scans: seq<(string, nat)>)
    ensures scans == MassScanFiles(clientPath, entries)
  {
    scans := [];
    var d := 0;
    while d < |entries|
      invariant 0 <= d <= |entries|
      invariant scans == ScansOf(clientPath, entries[..d], IsThirtyMinuteScan)
    {
      assert entries[..d + 1][..d] == entries[..d];
      if entries[d].Directory? {
        var subDir := JoinPath(clientPath, entries[d].name);
        var picked := DirectoryMassScans(subDir, entries[d].listing);
        scans := scans + picked;
      }
      d := d + 1;
    }
    assert entries[..d] == entries;
  }

  /**
   * `os.path.join(subDir, subDir)` of an absolute `subDir` is `subDir` itself:
   * under an absolute client path the loop lists each subdirectory's own files.
   */
  lemma SelfJoinAbsolute(clientPath: string, name: string)
    requires StartsWith(clientPath, "/") && !StartsWith(name, "/")
    ensures var subDir := JoinPath(clientPath, name); JoinPath(subDir, subDir) == subDir
  {
    var subDir := JoinPath(clientPath, name);
    JoinPathSpec(clientPath, name);
    assert subDir[..1] == subDir[..|clientPath|][..1] == clientPath[..1];
    JoinPathSpec(subDir, subDir);
  }

  /** The client folder of the repository's own test. */
  const ExampleClient: string := "/Users/school/Downloads/Chem-H Metabolite data and Mass Scans/AL-07"

  /** A directory listing one name that `keep` accepts contributes that one file. */
  lemma ScansOfSingle(clientPath: string, name: string, file: string, keep: string -> bool)
    requires keep(file)
    ensures ScansOf(clientPath, [Directory(name, [file])], keep) == [(JoinPath(JoinPath(clientPath, name), file), 30)]
  {
    var entries := [Directory(name, [file])];
    var dir := JoinPath(clientPath, name);
    assert entries[..0] == [];
    assert [file][..0] == [];
    assert PickScans(dir, [file], keep) == PickScans(dir, [], keep) + [(JoinPath(dir, file), 30)];
    assert EntryScans(clientPath, entries[0], keep) == PickScans(dir, [file], keep);
    assert ScansOf(clientPath, entries, keep) == ScansOf(clientPath, [], keep) + EntryScans(clientPath, entries[0], keep);
  }

  /** A relative name under a directory under a client folder, none of them ending in `/`: one `/` between each. */
  lemma JoinTwice(client: string, name: string, file: string)
    requires |client| > 0 && client[|client| - 1] != '/'
    requires |name| > 0 && name[0] != '/' && name[|name| - 1] != '/'
    requires |file| > 0 && file[0] != '/'
    ensures JoinPath(JoinPath(client, name), file) == client + "/" + name + "/" + file
  {
    JoinPathSpec(client, name);
    var dir := JoinPath(client, name);
    assert dir == client + "/" + name;
    assert dir[|dir| - 1] == name[|name| - 1];
    JoinPathSpec(dir, file);
  }

  /**
   * The repository's test scenario: a client folder whose mass-scan directory
   * lists the 30-minute scan yields that one file, joined to the directory, with 30.
   */
  lemma MassScansExample()
    ensures MassScanFiles(ExampleClient, [Directory("2-AL-7 Mass Scans", [ExampleScan])]) ==
              [(ExampleClient + "/" + "2-AL-7 Mass Scans" + "/" + ExampleScan, 30)]
  {
    ThirtyMinuteExample();
    ScansOfSingle(ExampleClient, "2-AL-7 Mass Scans", ExampleScan, IsThirtyMinuteScan);
    assert ExampleScan[0] == '2';
    JoinTwice(ExampleClient, "2-AL-7 Mass Scans", ExampleScan);
  }

  /** `path` is the `j`-th name of `names` joined to `dir`, and `keep` accepts that name. */
  predicate PickedIn(dir: string, names: seq<string>, keep: string -> bool, j: int, path: string)
  {
    0 <= j < |names| && keep(names[j]) && path == JoinPath(dir, names[j])
  }

  /** `path` is a picked file of the `e`-th item, a directory of the client folder. */
  predicate PickedAt(clientPath: string, entries: seq<Entry>, keep: string -> bool, e: int, j: int, path: string)
  {
    0 <= e < |entries| && entries[e].Directory? &&
    PickedIn(JoinPath(clientPath, entries[e].name), entries[e].listing, keep, j, path)
  }

  /**
   * Every pair reports 30 minutes, and the pairs are exactly the listed files
   * whose name matches with 30 minutes, each joined to its directory's path.
   */
  lemma MassScansAreThirty(clientPath: string, entries: seq<Entry>, p: (string, nat))
    ensures p in MassScanFiles(clientPath, entries) <==>
              p.1 == 30 && exists e, j :: PickedAt(clientPath, entries, IsThirtyMinuteScan, e, j, p.0)
  {
    ScansOfFrom(clientPath, entries, IsThirtyMinuteScan, p);
  }

  lemma {:induction false} ScansOfFrom(clientPath: string, entries: seq<Entry>, keep: string -> bool, p: (string, nat))
    ensures p in ScansOf(clientPath, entries, keep) <==>
              p.1 == 30 && exists e, j :: PickedAt(clientPath, entries, keep, e, j, p.0)
    decreases |entries|
  {
    if entries != [] {
      var n := |entries| - 1;
      var init := entries[..n];
      ScansOfFrom(clientPath, init, keep, p);
      LastEntryScans(clientPath, entries, keep, p);
      PickedAtPrefix(clientPath, entries, init, keep, p.0);
    }
  }

  lemma LastEntryScans(clientPath: string, entries: seq<Entry>, keep: string -> bool, p: (string, nat))
    requires entries != []
    ensures p in EntryScans(clientPath, entries[|entries| - 1], keep) <==>
              p.1 == 30 && exists e, j :: e == |entries| - 1 && PickedAt(clientPath, entries, keep, e, j, p.0)
  {
    var n := |entries| - 1;
    var last := entries[n];
    if last.Directory? {
      var dir := JoinPath(clientPath, last.name);
      PickScansFrom(dir, last.listing, keep, p);
      if exists j :: PickedIn(dir, last.listing, keep, j, p.0) {
        var j :| PickedIn(dir, last.listing, keep, j, p.0);
        assert PickedAt(clientPath, entries, keep, n, j, p.0);
      }
    }
  }

  lemma PickedAtPrefix(clientPath: string, entries: seq<Entry>, init: seq<Entry>, keep: string -> bool, path: string)
    requires entries != [] && init == entries[..|entries| - 1]
    ensures (exists e, j :: PickedAt(clientPath, entries, keep, e, j, path)) <==>
              (exists e, j :: PickedAt(clientPath, init, keep, e, j, path)) ||
              (exists e, j :: e == |entries| - 1 && PickedAt(clientPath, entries, keep, e, j, path))
  {
    var n := |entries| - 1;
    if exists e, j :: PickedAt(clientPath, init, keep, e, j, path) {
      var e, j :| PickedAt(clientPath, init, keep, e, j, path);
      assert init[e] == entries[e];
      assert PickedAt(clientPath, entries, keep, e, j, path);
    }
    if exists e, j :: PickedAt(clientPath, entries, keep, e, j, path) {
      var e, j :| PickedAt(clientPath, entries, keep, e, j, path);
      if e < n {
        assert init[e] == entries[e];
        assert PickedAt(clientPath, init, keep, e, j, path);
      }
    }
  }

  lemma {:induction false} PickScansFrom(dir: string, names: seq<string>, keep: string -> bool, p: (string, nat))
    ensures p in PickScans(dir, names, keep) <==>
              p.1 == 30 && exists j :: PickedIn(dir, names, keep, j, p.0)
    decreases |names|
  {
    if names != [] {
      var n := |names| - 1;
      var init := names[..n];
      var tail := if keep(names[n]) then [(JoinPath(dir, names[n]), 30)] else [];
      PickScansFrom(dir, init, keep, p);
      assert PickScans(dir, names, keep) == PickScans(dir, init, keep) + tail;
      if p in tail {
        assert PickedIn(dir, names, keep, n, p.0);
      }
      if exists j :: PickedIn(dir, init, keep, j, p.0) {
        var j :| PickedIn(dir, init, keep, j, p.0);
        assert PickedIn(dir, names, keep, j, p.0);
      }
      if p.1 == 30 && exists j :: PickedIn(dir, names, keep, j, p.0) {
        var j :| PickedIn(dir, names, keep, j, p.0);
        if j < n {
          assert PickedIn(dir, init, keep, j, p.0);
        } else {
          assert p == (JoinPath(dir, names[n]), 30);
          assert p in tail;
        }
      }
    }
  }

  // ---------------------------------------------------------------------
  // Client folders

  /** `re.match(r'AL-\d*', f)`: `AL-` followed by a (possibly empty) run of digits at the start. */
  predicate IsClientFolder(f: string)
  {
    exists n :: 0 <= n <= |f| && DigitsFrom(f, 3, n) && f[..3] == "AL-"
  }

  /** `s[k..k + n]` is a run of digits. */
  predicate DigitsFrom(s: string, k: nat, n: nat)
  {
    k + n <= |s| && AllDigits(s[k..k + n])
  }

  /** The digit run may be empty, so the test is exactly the `AL-` prefix. */
  lemma ClientFolderIsPrefix(f: string)
    ensures IsClientFolder(f) <==> StartsWith(f, "AL-")
  {
    if StartsWith(f, "AL-") {
      assert DigitsFrom(f, 3, 0);
    }
  }
}
