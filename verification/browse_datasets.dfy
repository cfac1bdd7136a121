/**
  The "Browse Stata Datasets" command: a recursive scan of a few root directories for
  `.dta` files, de-duplication by path, sorting by name, the search filter, grouping
  by parent directory, and the unit chosen for a file size.

  The filesystem is an immutable tree. Each entry records what `statSync` reports on
  it; a directory records whether `readdirSync` succeeds on it and, if so, its listing.
 */
module BrowseDatasets {
  import opened Options
  import opened Text
  import opened Paths
  import Seqs

  /** One entry of a directory listing. */
  datatype Entry =
    | File(name: string, sizeBytes: nat)
    | Directory(name: string, listable: bool, children: seq<Entry>)
    | Special(name: string)       // exists but is neither a regular file nor a directory
    | Unstatable(name: string)    // `statSync` throws on it

  /** A scan root: its path, and the entry found there (`None` when `existsSync` is false). */
  datatype Root = Root(path: string, entry: Option<Entry>)

  /** A discovered dataset. The formatted size and modification date are not modelled. */
  datatype Dataset = Dataset(name: string, path: string, sizeBytes: nat, directory: string)

  // ---------------------------------------------------------------- size unit

  const SizeUnits: seq<string> := ["B", "KB", "MB", "GB"]

  function Pow(b: nat, e: nat): nat
    decreases e
  {
    if e == 0 then 1 else b * Pow(b, e - 1)
  }

  lemma {:induction false} PowMonotonic(b: nat, e1: nat, e2: nat)
    requires 1 <= b && e1 <= e2
    ensures Pow(b, e1) <= Pow(b, e2)
    decreases e2
  {
    if e1 < e2 {
      PowMonotonic(b, e1, e2 - 1);
      assert Pow(b, e2 - 1) <= b * Pow(b, e2 - 1);
    }
  }

  /**
    `Math.floor(Math.log(bytes) / Math.log(1024))` computed exactly: the exponent of the
    largest power of 1024 that does not exceed `bytes`.
   */
  function UnitIndex(bytes: nat): (i: nat)
    ensures 0 < bytes ==> Pow(1024, i) <= bytes < Pow(1024, i + 1)
    decreases bytes
  {
    if bytes < 1024 then 0
    else
      var i := 1 + UnitIndex(bytes / 1024);
      assert Pow(1024, i) == 1024 * Pow(1024, i - 1);
      assert Pow(1024, i + 1) == 1024 * Pow(1024, i);
      i
  }

  /** No larger exponent qualifies: the scaled value `bytes / 1024^i` is below 1024. */
  lemma {:induction false} UnitIndexIsLargest(bytes: nat, j: nat)
    requires 0 < bytes && Pow(1024, j) <= bytes
    ensures j <= UnitIndex(bytes)
    decreases j
  {
    if j > 0 {
      var p, q := Pow(1024, j - 1), bytes / 1024;
      PowMonotonic(1024, 0, j - 1);
      assert 1024 * p <= bytes;
      assert bytes == 1024 * q + bytes % 1024;
      assert p <= q;
      UnitIndexIsLargest(q, j - 1);
    }
  }

  /** A size below `1024^k` gets an exponent below `k`. */
  lemma {:induction false} UnitIndexBelow(bytes: nat, k: nat)
    requires 0 < bytes < Pow(1024, k)
    ensures UnitIndex(bytes) < k
    decreases k
  {
    if 1024 <= bytes {
      var q := bytes / 1024;
      assert bytes == 1024 * q + bytes % 1024;
      assert 0 < k;
      assert q < Pow(1024, k - 1);
      UnitIndexBelow(q, k - 1);
    }
  }

  /**
    The unit `formatFileSize` prints, as written: `"B"` for zero bytes, otherwise
    `sizes[i]`, which is `undefined` (here `None`) once `i` passes the end of the table.
   */
  function UnitAsWritten(bytes: nat): (u: Option<string>)
    ensures bytes == 0 ==> u == Some("B")
    ensures 0 < bytes ==> (u.Some? <==> UnitIndex(bytes) < 4)
    ensures 0 < bytes && UnitIndex(bytes) < 4 ==> u == Some(SizeUnits[UnitIndex(bytes)])
  {
    if bytes == 0 then Some("B")
    else
      var i := UnitIndex(bytes);
      if i < |SizeUnits| then Some(SizeUnits[i]) else None
  }

  /** A file of one tebibyte gets the label `undefined` from the code as written. */
  lemma UnitAsWrittenUndefinedAtOneTebibyte()
    ensures UnitAsWritten(1099511627776) == None
  {
    assert Pow(1024, 4) == 1099511627776;
    UnitIndexIsLargest(1099511627776, 4);
  }

  /**
    The unit the size is displayed in, with the table's last unit used for every size
    beyond it: always one of B/KB/MB/GB, and the same as the code's label wherever that
    label is defined.
   */
  function DisplayUnit(bytes: nat): (u: string)
    ensures u in SizeUnits
    ensures bytes < Pow(1024, 4) ==> UnitAsWritten(bytes) == Some(u)
    ensures bytes >= Pow(1024, 4) ==> u == "GB"
  {
    if bytes == 0 then "B"
    else if bytes >= Pow(1024, 4) then
      UnitIndexIsLargest(bytes, 4);
      "GB"
    else
      UnitIndexBelow(bytes, 4);
      SizeUnits[UnitIndex(bytes)]
  }

  /** Larger files never get a smaller unit exponent. */
  lemma {:induction false} UnitIndexMonotonic(b1: nat, b2: nat)
    requires 0 < b1 <= b2
    ensures UnitIndex(b1) <= UnitIndex(b2)
  {
    PowMonotonic(1024, 0, UnitIndex(b1));
    UnitIndexIsLargest(b2, UnitIndex(b1));
  }

  // ---------------------------------------------------------------- scanning

  /** `extname(name).toLowerCase() === ".dta"` */
  predicate IsDatasetName(name: string) {
    Lower(ExtName(name)) == ".dta"
  }

  /**
    The extension test is a case-insensitive suffix test on names longer than the bare
    extension: a file named just `.dta` is not a dataset.
   */
  lemma DatasetNameIffSuffix(name: string)
    ensures IsDatasetName(name) <==> |name| >= 5 && Lower(name[|name| - 4..]) == ".dta"
  {
    var k := LastIndexOf(name, '.');
    if IsDatasetName(name) {
      assert |ExtName(name)| == 4;
      assert ExtName(name) == name[k..];
    }
    if |name| >= 5 && Lower(name[|name| - 4..]) == ".dta" {
      var t := name[|name| - 4..];
      assert LowerChar(t[0]) == '.' && LowerChar(t[1]) == 'd' && LowerChar(t[2]) == 't' && LowerChar(t[3]) == 'a';
      assert name[|name| - 4] == '.';
      assert k == |name| - 4;
      assert name != "..";
    }
  }

  /** The datasets found in one listed entry of the directory `dirPath`. */
  function ScanEntry(dirPath: string, e: Entry): seq<Dataset>
    decreases e
  {
    match e
    case File(name, size) =>
      if IsDatasetName(name) then [Dataset(name, JoinPath(dirPath, name), size, BaseName(dirPath))] else []
    case Directory(name, listable, children) =>
      if IsHidden(name) || !listable then [] else ScanEntries(JoinPath(dirPath, name), children)
    case Special(_) => []
    case Unstatable(_) => []
  }

  /** The datasets found in the listing `entries` of the directory `dirPath`, in listing order. */
  function ScanEntries(dirPath: string, entries: seq<Entry>): seq<Dataset>
    decreases entries
  {
    if entries == [] then [] else ScanEntry(dirPath, entries[0]) + ScanEntries(dirPath, entries[1..])
  }

  /**
    `scanDirectory(dirPath)`: nothing for a path that does not exist or cannot be
    listed, otherwise the datasets of its listing.
   */
  function ScanDirectory(dirPath: string, at: Option<Entry>): (r: seq<Dataset>)
    ensures at.None? ==> r == []
    ensures at.Some? && !(at.value.Directory? && at.value.listable) ==> r == []
    ensures at.Some? && at.value.Directory? && at.value.listable ==> r == ScanEntries(dirPath, at.value.children)
  {
    match at
    case None => []
    case Some(e) => if e.Directory? && e.listable then ScanEntries(dirPath, e.children) else []
  }

  /** Scanning a listing made of two parts scans the parts one after the other. */
  lemma {:induction false} ScanEntriesConcat(dirPath: string, a: seq<Entry>, b: seq<Entry>)
    ensures ScanEntries(dirPath, a + b) == ScanEntries(dirPath, a) + ScanEntries(dirPath, b)
    decreases |a|
  {
    if a == [] {
      assert a + b == b;
    } else {
      assert (a + b)[0] == a[0];
      assert (a + b)[1..] == a[1..] + b;
      ScanEntriesConcat(dirPath, a[1..], b);
    }
  }

  lemma ScanSingleton(dirPath: string, e: Entry)
    ensures ScanEntries(dirPath, [e]) == ScanEntry(dirPath, e)
  {
    assert [e][1..] == [];
  }

  /** An entry that is skipped: it cannot be stat'ed, is neither file nor directory,
      is a hidden or unlistable directory, or is a file without the `.dta` extension. */
  predicate Skipped(e: Entry) {
    match e
    case File(name, _) => !IsDatasetName(name)
    case Directory(name, listable, _) => IsHidden(name) || !listable
    case Special(_) => true
    case Unstatable(_) => true
  }

  /** A skipped entry contributes nothing, and scanning continues with its siblings. */
  lemma ScanSkipsEntry(dirPath: string, before: seq<Entry>, e: Entry, after: seq<Entry>)
    requires Skipped(e)
    ensures ScanEntries(dirPath, before + [e] + after) == ScanEntries(dirPath, before) + ScanEntries(dirPath, after)
  {
    SkippedScansNothing(dirPath, e);
    ScanSingleton(dirPath, e);
    ScanEntriesConcat(dirPath, before + [e], after);
    ScanEntriesConcat(dirPath, before, [e]);
  }

  lemma SkippedScansNothing(dirPath: string, e: Entry)
    requires Skipped(e)
    ensures ScanEntry(dirPath, e) == []
  {
    match e
    case File(_, _) =>
    case Directory(_, _, _) =>
    case Special(_) =>
    case Unstatable(_) =>
  }

  /** A dataset file yields exactly its record, between the records of its siblings. */
  lemma ScanFindsFile(dirPath: string, before: seq<Entry>, name: string, size: nat, after: seq<Entry>)
    requires IsDatasetName(name)
    ensures ScanEntries(dirPath, before + [File(name, size)] + after)
         == ScanEntries(dirPath, before)
            + [Dataset(name, JoinPath(dirPath, name), size, BaseName(dirPath))]
            + ScanEntries(dirPath, after)
  {
    var e := File(name, size);
    ScanEntriesConcat(dirPath, before + [e], after);
    ScanEntriesConcat(dirPath, before, [e]);
    ScanSingleton(dirPath, e);
  }

  /**
    A visible, listable subdirectory is scanned recursively under its joined path, and
    its records come after those of the entries listed before it.
   */
  lemma ScanDescends(dirPath: string, before: seq<Entry>, name: string, children: seq<Entry>, after: seq<Entry>)
    requires !IsHidden(name)
    ensures ScanEntries(dirPath, before + [Directory(name, true, children)] + after)
         == ScanEntries(dirPath, before)
            + ScanEntries(JoinPath(dirPath, name), children)
            + ScanEntries(dirPath, after)
  {
    var e := Directory(name, true, children);
    ScanEntriesConcat(dirPath, before + [e], after);
    ScanEntriesConcat(dirPath, before, [e]);
    ScanSingleton(dirPath, e);
  }

  /** Every name in the tree is one a directory listing can return. */
  predicate ValidEntry(e: Entry)
    decreases e
  {
    ValidName(e.name) && (e.Directory? ==> ValidEntries(e.children))
  }

  predicate ValidEntries(entries: seq<Entry>)
    decreases entries
  {
    forall i :: 0 <= i < |entries| ==> ValidEntry(entries[i])
  }

  /**
    A record found under `root`: a `.dta` name, a path that is its directory joined with
    that name, the directory's base name as `directory`, and a directory that is `root`
    or lies beneath it without passing through a hidden directory.
   */
  ghost predicate FoundUnder(root: string, d: Dataset) {
    var dir := DirName(d.path);
    && IsDatasetName(d.name)
    && ValidName(d.name)
    && IsNormalDir(dir)
    && d.path == JoinPath(dir, d.name)
    && d.directory == BaseName(dir)
    && Beneath(root, dir)
  }

  lemma {:induction false} ScanEntryFoundUnder(dirPath: string, e: Entry)
    requires IsNormalDir(dirPath) && ValidEntry(e)
    ensures forall d :: d in ScanEntry(dirPath, e) ==> FoundUnder(dirPath, d)
    decreases e
  {
    match e
    case File(name, size) =>
      if IsDatasetName(name) {
        JoinPathSplits(dirPath, name);
      }
    case Directory(name, listable, children) =>
      if !IsHidden(name) && listable {
        var sub := JoinPath(dirPath, name);
        JoinPathSplits(dirPath, name);
        ScanEntriesFoundUnder(sub, children);
        forall d | d in ScanEntries(sub, children)
          ensures FoundUnder(dirPath, d)
        {
          BeneathStep(dirPath, name, DirName(d.path));
        }
      }
    case Special(_) =>
    case Unstatable(_) =>
  }

  /**
    Every record the scan of a directory returns is a `.dta` file found under it, with
    its name, joined path and parent directory's base name, and never beneath a hidden
    directory.
   */
  lemma {:induction false} ScanEntriesFoundUnder(dirPath: string, entries: seq<Entry>)
    requires IsNormalDir(dirPath) && ValidEntries(entries)
    ensures forall d :: d in ScanEntries(dirPath, entries) ==> FoundUnder(dirPath, d)
    decreases entries
  {
    if entries != [] {
      ScanEntryFoundUnder(dirPath, entries[0]);
      ScanEntriesFoundUnder(dirPath, entries[1..]);
    }
  }

  /**
    Every record the scan of a root returns lies beneath that root, outside hidden
    directories, and describes a `.dta` file by its name, path and parent directory.
   */
  lemma ScanDirectoryFoundUnder(dirPath: string, at: Option<Entry>)
    requires IsNormalDir(dirPath)
    requires at.Some? && at.value.Directory? ==> ValidEntries(at.value.children)
    ensures forall d :: d in ScanDirectory(dirPath, at) ==> FoundUnder(dirPath, d)
  {
    if at.Some? && at.value.Directory? && at.value.listable {
      ScanEntriesFoundUnder(dirPath, at.value.children);
    }
  }

  /** The records of every root, root after root, before de-duplication. */
  function ScanRoots(roots: seq<Root>): seq<Dataset>
    decreases |roots|
  {
    if roots == [] then [] else ScanDirectory(roots[0].path, roots[0].entry) + ScanRoots(roots[1..])
  }

  // ---------------------------------------------------------------- de-duplication and sorting

  function PathOf(d: Dataset): string {
    d.path
  }

  /** `le(a, b)` when `a.localeCompare(b) <= 0`; a locale collation is a total preorder. */
  ghost predicate TotalPreorder(le: (string, string) -> bool) {
    && (forall a, b :: le(a, b) || le(b, a))
    && (forall a, b, c :: le(a, b) && le(b, c) ==> le(a, c))
  }

  ghost predicate SortedByName(s: seq<Dataset>, le: (string, string) -> bool) {
    forall i, j :: 0 <= i < j < |s| ==> le(s[i].name, s[j].name)
  }

  /** Inserts `x` before the first record whose name it does not follow. */
  function InsertByName(x: Dataset, s: seq<Dataset>, le: (string, string) -> bool): (r: seq<Dataset>)
    ensures multiset(r) == multiset(s) + multiset{x}
    decreases |s|
  {
    if s == [] then [x]
    else if le(x.name, s[0].name) then [x] + s
    else
      assert s == [s[0]] + s[1..];
      [s[0]] + InsertByName(x, s[1..], le)
  }

  /** `datasets.sort((a, b) => a.name.localeCompare(b.name))`, as a stable insertion sort. */
  function SortByName(s: seq<Dataset>, le: (string, string) -> bool): (r: seq<Dataset>)
    ensures multiset(r) == multiset(s)
    decreases |s|
  {
    if s == [] then []
    else
      assert s == [s[0]] + s[1..];
      InsertByName(s[0], SortByName(s[1..], le), le)
  }

  lemma {:induction false} InsertByNameSorted(x: Dataset, s: seq<Dataset>, le: (string, string) -> bool)
    requires TotalPreorder(le) && SortedByName(s, le)
    ensures SortedByName(InsertByName(x, s, le), le)
    decreases |s|
  {
    if s != [] && !le(x.name, s[0].name) {
      var t := InsertByName(x, s[1..], le);
      InsertByNameSorted(x, s[1..], le);
      forall y | y in t
        ensures le(s[0].name, y.name)
      {
        assert y in multiset(t);
        if y != x {
          assert y in s[1..];
        }
      }
    }
  }

  /** The sorted list is ordered by name under the collation. */
  lemma {:induction false} SortByNameSorted(s: seq<Dataset>, le: (string, string) -> bool)
    requires TotalPreorder(le)
    ensures SortedByName(SortByName(s, le), le)
    decreases |s|
  {
    if s != [] {
      SortByNameSorted(s[1..], le);
      InsertByNameSorted(s[0], SortByName(s[1..], le), le);
    }
  }

  lemma {:induction false} InsertByNameDistinctPaths(x: Dataset, s: seq<Dataset>, le: (string, string) -> bool)
    requires Seqs.DistinctKeys(s, PathOf)
    requires forall y :: y in s ==> y.path != x.path
    ensures Seqs.DistinctKeys(InsertByName(x, s, le), PathOf)
    decreases |s|
  {
    if s != [] && !le(x.name, s[0].name) {
      InsertByNameDistinctPaths(x, s[1..], le);
      var t := InsertByName(x, s[1..], le);
      forall y | y in t
        ensures y.path != s[0].path
      {
        assert y in multiset(t);
      }
    }
  }

  /** Sorting moves records but never makes two of them share a path. */
  lemma {:induction false} SortByNameDistinctPaths(s: seq<Dataset>, le: (string, string) -> bool)
    requires Seqs.DistinctKeys(s, PathOf)
    ensures Seqs.DistinctKeys(SortByName(s, le), PathOf)
    decreases |s|
  {
    if s != [] {
      SortByNameDistinctPaths(s[1..], le);
      var t := SortByName(s[1..], le);
      forall y | y in t
        ensures y.path != s[0].path
      {
        assert y in multiset(t);
        var j :| 0 <= j < |s[1..]| && s[1..][j] == y;
        assert s[j + 1] == y;
      }
      InsertByNameDistinctPaths(s[0], t, le);
    }
  }

  /** The records whose names compare equal to `key` under the collation. */
  function SameNameAs(key: string, le: (string, string) -> bool): Dataset -> bool {
    (d: Dataset) => le(d.name, key) && le(key, d.name)
  }

  /**
    Inserting `x` puts it ahead of every record that compares equal to it and behind
    none that comes after it: among the records equal to `key`, `x` comes first.
   */
  lemma {:induction false} InsertByNameStable(x: Dataset, s: seq<Dataset>, le: (string, string) -> bool, key: string)
    requires TotalPreorder(le)
    ensures Seqs.Filter(InsertByName(x, s, le), SameNameAs(key, le))
         == (if SameNameAs(key, le)(x) then [x] else []) + Seqs.Filter(s, SameNameAs(key, le))
    decreases |s|
  {
    if s == [] {
      assert [x][1..] == [];
    } else if le(x.name, s[0].name) {
      assert ([x] + s)[1..] == s;
    } else {
      InsertByNameStable(x, s[1..], le, key);
      NotBothSameName(x, s[0], key, le);
      InsertByNameStableStep(x, s, le, SameNameAs(key, le));
    }
  }

  /** The step of the insertion past a record that `x` does not precede. */
  lemma InsertByNameStableStep(x: Dataset, s: seq<Dataset>, le: (string, string) -> bool, p: Dataset -> bool)
    requires s != [] && !le(x.name, s[0].name) && !(p(x) && p(s[0]))
    requires Seqs.Filter(InsertByName(x, s[1..], le), p) == (if p(x) then [x] else []) + Seqs.Filter(s[1..], p)
    ensures Seqs.Filter(InsertByName(x, s, le), p) == (if p(x) then [x] else []) + Seqs.Filter(s, p)
  {
    InsertByNamePast(x, s, le);
    assert s == [s[0]] + s[1..];
    Seqs.FilterPastFront(x, s[0], InsertByName(x, s[1..], le), s[1..], p);
  }

  /** `x` goes past a first record that it does not precede. */
  lemma InsertByNamePast(x: Dataset, s: seq<Dataset>, le: (string, string) -> bool)
    requires s != [] && !le(x.name, s[0].name)
    ensures InsertByName(x, s, le) == [s[0]] + InsertByName(x, s[1..], le)
  {
  }

  /** A record that sorts strictly after another cannot compare equal to the same key. */
  lemma NotBothSameName(x: Dataset, y: Dataset, key: string, le: (string, string) -> bool)
    requires TotalPreorder(le) && !le(x.name, y.name)
    ensures !(SameNameAs(key, le)(x) && SameNameAs(key, le)(y))
  {
  }

  /**
    The sort is stable, as `Array.prototype.sort` is: records whose names compare equal
    keep the order they had before sorting.
   */
  lemma {:induction false} SortByNameStable(s: seq<Dataset>, le: (string, string) -> bool, key: string)
    requires TotalPreorder(le)
    ensures Seqs.Filter(SortByName(s, le), SameNameAs(key, le)) == Seqs.Filter(s, SameNameAs(key, le))
    decreases |s|
  {
    if s != [] {
      SortByNameStable(s[1..], le, key);
      InsertByNameStable(s[0], SortByName(s[1..], le), le, key);
    }
  }

  /** `findDatasets`: every root scanned in turn, duplicates by path removed, sorted by name. */
  function FindDatasets(roots: seq<Root>, le: (string, string) -> bool): seq<Dataset> {
    SortByName(Seqs.DistinctBy(ScanRoots(roots), PathOf), le)
  }

  /** Reordering records keeps the set of paths they cover. */
  lemma PermutationSameKeys(r: seq<Dataset>, u: seq<Dataset>, all: seq<Dataset>)
    requires multiset(r) == multiset(u) && Seqs.SameKeys(u, all, PathOf)
    ensures Seqs.SameKeys(r, all, PathOf)
  {
    forall p
      ensures Seqs.HasKey(r, PathOf, p) <==> Seqs.HasKey(u, PathOf, p)
    {
      if Seqs.HasKey(r, PathOf, p) {
        var i :| 0 <= i < |r| && PathOf(r[i]) == p;
        assert r[i] in multiset(u);
        var j :| 0 <= j < |u| && u[j] == r[i];
        assert PathOf(u[j]) == p;
      }
      if Seqs.HasKey(u, PathOf, p) {
        var j :| 0 <= j < |u| && PathOf(u[j]) == p;
        assert u[j] in multiset(r);
        var i :| 0 <= i < |r| && r[i] == u[j];
        assert PathOf(r[i]) == p;
      }
    }
  }

  /** Reordering records keeps each of them the first scanned with its path. */
  lemma PermutationKeepsFirsts(r: seq<Dataset>, u: seq<Dataset>, all: seq<Dataset>)
    requires multiset(r) == multiset(u) && Seqs.KeepsFirsts(u, all, PathOf)
    ensures Seqs.KeepsFirsts(r, all, PathOf)
  {
    forall i | 0 <= i < |r|
      ensures 0 <= Seqs.FindIndex(all, PathOf, PathOf(r[i])) && r[i] == all[Seqs.FindIndex(all, PathOf, PathOf(r[i]))]
    {
      assert r[i] in multiset(u);
      var j :| 0 <= j < |u| && u[j] == r[i];
    }
  }

  /**
    The datasets shown: no two share a path, the set of paths is that of all scanned
    records, each is the first record scanned with its path, they are a permutation of
    the de-duplicated records, and they are ordered by name.
   */
  lemma FindDatasetsProps(roots: seq<Root>, le: (string, string) -> bool)
    requires TotalPreorder(le)
    ensures Seqs.DistinctKeys(FindDatasets(roots, le), PathOf)
    ensures Seqs.SameKeys(FindDatasets(roots, le), ScanRoots(roots), PathOf)
    ensures Seqs.KeepsFirsts(FindDatasets(roots, le), ScanRoots(roots), PathOf)
    ensures multiset(FindDatasets(roots, le)) == multiset(Seqs.DistinctBy(ScanRoots(roots), PathOf))
    ensures SortedByName(FindDatasets(roots, le), le)
    ensures forall key :: Seqs.Filter(FindDatasets(roots, le), SameNameAs(key, le))
                          == Seqs.Filter(Seqs.DistinctBy(ScanRoots(roots), PathOf), SameNameAs(key, le))
  {
    var all := ScanRoots(roots);
    var u := Seqs.DistinctBy(all, PathOf);
    var r := FindDatasets(roots, le);
    Seqs.DistinctByProps(all, PathOf);
    SortByNameDistinctPaths(u, le);
    SortByNameSorted(u, le);
    PermutationSameKeys(r, u, all);
    PermutationKeepsFirsts(r, u, all);
    forall key
      ensures Seqs.Filter(r, SameNameAs(key, le)) == Seqs.Filter(u, SameNameAs(key, le))
    {
      SortByNameStable(u, le, key);
    }
  }

  // ---------------------------------------------------------------- search and grouping

  /** The search test: the lower-cased name or directory contains the lower-cased search text. */
  predicate MatchesSearch(d: Dataset, search: string) {
    Contains(Lower(d.name), Lower(search)) || Contains(Lower(d.directory), Lower(search))
  }

  function SearchTest(search: string): Dataset -> bool {
    d => MatchesSearch(d, search)
  }

  /**
    `filteredDatasets`: exactly the datasets matching the search, in their original
    order; an empty search keeps every dataset.
   */
  function FilterDatasets(datasets: seq<Dataset>, search: string): (r: seq<Dataset>)
    ensures forall d :: d in r <==> d in datasets && MatchesSearch(d, search)
    ensures forall d :: multiset(r)[d] == if MatchesSearch(d, search) then multiset(datasets)[d] else 0
    ensures Seqs.Subsequence(r, datasets)
    ensures search == "" ==> r == datasets
  {
    Seqs.FilterIsSubsequence(datasets, SearchTest(search));
    Seqs.FilterCounts(datasets, SearchTest(search));
    Seqs.FilterMembers(datasets, SearchTest(search));
    if search == "" then
      Seqs.FilterKeepsAll(datasets, SearchTest(search));
      Seqs.Filter(datasets, SearchTest(search))
    else
      Seqs.Filter(datasets, SearchTest(search))
  }

  /** Searching again with the same text changes nothing. */
  lemma FilterDatasetsIdempotent(datasets: seq<Dataset>, search: string)
    ensures FilterDatasets(FilterDatasets(datasets, search), search) == FilterDatasets(datasets, search)
  {
    Seqs.FilterIdempotent(datasets, SearchTest(search));
  }

  /** The grouping key: `dirname(dataset.path)`. */
  function DirectoryKey(d: Dataset): string {
    DirName(d.path)
  }

  /**
    `groupedDatasets`: the `reduce` that appends each dataset to the array of its
    directory, creating the array on the directory's first dataset.
   */
  function GroupByDirectory(s: seq<Dataset>): seq<Seqs.Group<string, Dataset>>
    decreases |s|
  {
    if s == [] then []
    else Seqs.AddToGroup(GroupByDirectory(s[..|s| - 1]), DirectoryKey(s[|s| - 1]), s[|s| - 1])
  }

  /** The reduction computes the reference grouping by directory. */
  lemma {:induction false} GroupByDirectoryIsGroupBy(s: seq<Dataset>)
    ensures GroupByDirectory(s) == Seqs.GroupBy(s, DirectoryKey)
    decreases |s|
  {
    if s != [] {
      var s', x := s[..|s| - 1], s[|s| - 1];
      assert s == s' + [x];
      GroupByDirectoryIsGroupBy(s');
      Seqs.GroupBySnoc(s', x, DirectoryKey);
    }
  }

  /**
    Each section is keyed by a distinct directory, is non-empty, holds exactly the
    datasets whose path has that directory in their original order, and the sections
    together are a permutation of the datasets.
   */
  lemma GroupByDirectoryProps(s: seq<Dataset>)
    ensures forall i, j :: 0 <= i < j < |GroupByDirectory(s)| ==> GroupByDirectory(s)[i].key != GroupByDirectory(s)[j].key
    ensures forall i :: 0 <= i < |GroupByDirectory(s)| ==> GroupByDirectory(s)[i].members != []
    ensures forall i, d :: 0 <= i < |GroupByDirectory(s)| ==>
              (d in GroupByDirectory(s)[i].members <==> d in s && DirName(d.path) == GroupByDirectory(s)[i].key)
    ensures forall i :: 0 <= i < |GroupByDirectory(s)| ==> Seqs.Subsequence(GroupByDirectory(s)[i].members, s)
    ensures multiset(Seqs.Flatten(GroupByDirectory(s))) == multiset(s)
  {
    GroupByDirectoryIsGroupBy(s);
    Seqs.GroupByProps(s, DirectoryKey);
    Seqs.GroupByPermutation(s, DirectoryKey);
  }
}
