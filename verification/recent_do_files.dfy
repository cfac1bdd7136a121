/**
  The "Recent Stata Do Files" list: the recent-document paths Stata keeps in its
  preferences, narrowed to `.do` files that still exist, and the existence guards on
  the actions of each list item.

  Converting and parsing the preferences file is an oracle result (`PlistRead`), and
  `fs.existsSync` is the predicate `present`.
 */
module RecentDoFiles {
  import opened Options
  import opened Text
  import opened Paths
  import Seqs

  /** The outcome of converting and parsing the preferences file. */
  datatype PlistRead =
    | ReadFailed                                        // conversion, reading or parsing threw
    | Parsed(recentPaths: Option<seq<string>>)          // the `NSRecentDocumentPaths` key, if present

  predicate IsListedDoFile(file: string, present: string -> bool) {
    EndsWith(file, ".do") && present(file)
  }

  function ListedTest(present: string -> bool): string -> bool {
    file => IsListedDoFile(file, present)
  }

  /** `parsed.NSRecentDocumentPaths || []` */
  function RecentPaths(read: PlistRead): (paths: seq<string>)
    ensures read.ReadFailed? || read.recentPaths.None? ==> paths == []
    ensures read.Parsed? && read.recentPaths.Some? ==> paths == read.recentPaths.value
  {
    match read
    case ReadFailed => []
    case Parsed(recent) => recent.ValueOr([])
  }

  /**
    The files listed: exactly the recent paths that end in `.do` and exist, each as often
    as it is recorded and in the recorded order; nothing when the preferences cannot be read
    or have no recent paths.
   */
  function RecentDoFiles(read: PlistRead, present: string -> bool): (files: seq<string>)
    ensures read.ReadFailed? ==> files == []
    ensures read.Parsed? && read.recentPaths.None? ==> files == []
    ensures forall f :: f in files <==> f in RecentPaths(read) && EndsWith(f, ".do") && present(f)
    ensures forall f :: multiset(files)[f] == if EndsWith(f, ".do") && present(f) then multiset(RecentPaths(read))[f] else 0
    ensures Seqs.Subsequence(files, RecentPaths(read))
  {
    var paths := RecentPaths(read);
    Seqs.FilterIsSubsequence(paths, ListedTest(present));
    Seqs.FilterCounts(paths, ListedTest(present));
    Seqs.FilterMembers(paths, ListedTest(present));
    Seqs.Filter(paths, ListedTest(present))
  }

  /** When every recent path is an existing `.do` file, all of them are listed as recorded. */
  lemma RecentDoFilesKeepsAll(paths: seq<string>, present: string -> bool)
    requires forall f :: f in paths ==> EndsWith(f, ".do") && present(f)
    ensures RecentDoFiles(Parsed(Some(paths)), present) == paths
  {
    Seqs.FilterKeepsAll(paths, ListedTest(present));
  }

  /** Listing is stable: filtering the listed files again under the same `present` changes nothing. */
  lemma RecentDoFilesIdempotent(read: PlistRead, present: string -> bool)
    ensures RecentDoFiles(Parsed(Some(RecentDoFiles(read, present))), present) == RecentDoFiles(read, present)
  {
    Seqs.FilterIdempotent(RecentPaths(read), ListedTest(present));
  }

  /** The accessory text of a list item. */
  function Availability(file: string, present: string -> bool): (text: string)
    ensures text == "Available" <==> present(file)
    ensures text == "Missing" <==> !present(file)
  {
    if present(file) then "Available" else "Missing"
  }

  /** The toast an action shows. */
  datatype Notice =
    | FileNotFound              // "File not found", "This file no longer exists"
    | Opening(name: string)     // "Opening in Stata", with the file's base name
    | OpenFailed                // "Failed to open file"
    | Revealed(file: string)    // no toast: the file is shown in Finder

  /**
    "Open in Stata": a file that no longer exists is reported and not opened; otherwise
    the `open` oracle decides between opening it and a failure toast.
   */
  function OpenInStata(file: string, present: string -> bool, opens: bool): (n: Notice)
    ensures !present(file) ==> n == FileNotFound
    ensures present(file) && opens ==> n == Opening(BaseName(file))
    ensures present(file) && !opens ==> n == OpenFailed
  {
    if !present(file) then FileNotFound
    else if opens then Opening(BaseName(file))
    else OpenFailed
  }

  /** "Show in Finder": a missing file is reported instead of revealed. */
  function ShowInFinder(file: string, present: string -> bool): (n: Notice)
    ensures n == FileNotFound <==> !present(file)
    ensures n.Revealed? <==> present(file)
    ensures n.Revealed? ==> n.file == file
  {
    if present(file) then Revealed(file) else FileNotFound
  }

  /**
    While the filesystem is as it was when the list was built, no listed file is
    reported missing by either action, and each is shown as available.
   */
  lemma ListedFilesAreFound(read: PlistRead, present: string -> bool, file: string, opens: bool)
    requires file in RecentDoFiles(read, present)
    ensures OpenInStata(file, present, opens) != FileNotFound
    ensures ShowInFinder(file, present) == Revealed(file)
    ensures Availability(file, present) == "Available"
  {
  }
}
