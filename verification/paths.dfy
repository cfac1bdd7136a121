/**
  The part of Node's POSIX `path` module the commands use. `path.join` in full is
  `NodeJoin`, with the segment resolution of `path.normalize`; `JoinPath` is the plain
  join it reduces to for a normalised absolute directory and an entry name as
  `readdirSync` returns it (non-empty, without a separator, neither `.` nor `..`).
 */
module Paths {
  import opened Text

  /** Index of the last occurrence of `c` in `s`, or -1 when `c` does not occur. */
  function LastIndexOf(s: string, c: char): (i: int)
    ensures -1 <= i < |s|
    ensures 0 <= i ==> s[i] == c
    ensures forall j :: i < j < |s| ==> s[j] != c
    decreases |s|
  {
    if s == [] then -1
    else if s[|s| - 1] == c then |s| - 1
    else LastIndexOf(s[..|s| - 1], c)
  }

  /** A name as a directory listing returns it. */
  predicate ValidName(name: string) {
    name != "" && '/' !in name
  }

  /** A directory path without a trailing separator (other than the root `/` itself). */
  predicate IsNormalDir(dir: string) {
    dir != "" && (dir == "/" || dir[|dir| - 1] != '/')
  }

  /** `path.join(dir, name)` for a normalised `dir` and a plain `name`. */
  function JoinPath(dir: string, name: string): string {
    if dir == "" then name
    else if dir[|dir| - 1] == '/' then dir + name
    else dir + "/" + name
  }

  /**
    `p` without the separators it ends with, except that its first character is kept:
    Node's `dirname` and `basename` look past trailing separators.
   */
  function TrimTrailingSeparators(p: string): (r: string)
    ensures |r| <= |p| && r == p[..|r|]
    ensures |r| <= 1 || r[|r| - 1] != '/'
    ensures p != "" ==> r != ""
    ensures forall j :: |r| <= j < |p| ==> p[j] == '/'
    decreases |p|
  {
    if |p| > 1 && p[|p| - 1] == '/' then TrimTrailingSeparators(p[..|p| - 1]) else p
  }

  /**
    `path.dirname(p)`: everything before the last separator that precedes the last
    segment, trailing separators ignored; `/` when only the root precedes it, `.` when
    nothing does, and `//` for a path that starts with two separators and has that one
    segment after them.
   */
  function DirName(p: string): string {
    if p == "" then "."
    else
      var q := TrimTrailingSeparators(p);
      var i := LastIndexOf(q, '/');
      if i < 1 then (if p[0] == '/' then "/" else ".")
      else if i == 1 && p[0] == '/' then "//"
      else q[..i]
  }

  /** `path.basename(p)`: the last segment, trailing separators ignored; "" for the root. */
  function BaseName(p: string): string {
    var q := TrimTrailingSeparators(p);
    q[LastIndexOf(q, '/') + 1..]
  }

  /** Trailing separators do not change what `dirname` and `basename` give. */
  lemma TrailingSeparatorIgnored(p: string)
    requires p != ""
    ensures DirName(p + "/") == DirName(p)
    ensures BaseName(p + "/") == BaseName(p)
  {
    assert (p + "/")[..|p|] == p;
    assert TrimTrailingSeparators(p + "/") == TrimTrailingSeparators(p);
  }

  /** A name as a directory listing returns it is its own `basename`. */
  lemma BaseNameOfName(name: string)
    requires ValidName(name)
    ensures BaseName(name) == name
  {
    assert name[|name| - 1] in name;
    assert TrimTrailingSeparators(name) == name;
  }

  /** `dirname` and `basename` on the root, a trailing separator and a doubled root. */
  lemma DirNameBaseNameCases()
    ensures DirName("/a/b/") == "/a" && BaseName("/a/b/") == "b"
    ensures DirName("/") == "/" && BaseName("/") == ""
    ensures DirName("//a") == "//" && DirName("a") == "." && DirName("") == "."
  {
    TrailingSeparatorIgnored("/a/b");
    assert LastIndexOf("/a/b", '/') == 2;
    assert "/a/b"[..2] == "/a";
    assert LastIndexOf("//a", '/') == 1;
  }

  /**
    `path.extname(name)` for a plain name: the suffix from the last `.`, except that a
    dot in the first position does not start an extension and `..` has none.
   */
  function ExtName(name: string): string {
    var k := LastIndexOf(name, '.');
    if k <= 0 || name == ".." then "" else name[k..]
  }

  /** A dot file or dot directory, as `item.startsWith(".")` decides. */
  predicate IsHidden(name: string) {
    StartsWith(name, ".")
  }

  /** Joining a plain name onto a normalised directory is undone by `DirName` and `BaseName`. */
  lemma JoinPathSplits(dir: string, name: string)
    requires IsNormalDir(dir) && ValidName(name)
    ensures DirName(JoinPath(dir, name)) == dir
    ensures BaseName(JoinPath(dir, name)) == name
    ensures IsNormalDir(JoinPath(dir, name))
  {
    var p := JoinPath(dir, name);
    var k := if dir == "/" then 0 else |dir|;
    assert p == p[..k + 1] + name;
    assert p[|p| - 1] == name[|name| - 1] && name[|name| - 1] in name;
    assert TrimTrailingSeparators(p) == p;
    assert k == 1 ==> p[0] == dir[0] && dir[0] != '/';
    assert p[k] == '/';
    forall j | k < j < |p|
      ensures p[j] != '/'
    {
      assert p[j] == name[j - k - 1];
    }
    assert LastIndexOf(p, '/') == k;
  }

  /** What `JoinPath` puts before an entry name: the directory and one separator. */
  function DirPrefix(dir: string): string {
    if dir == "/" then dir else dir + "/"
  }

  /** No `/`-separated segment of the relative path `rel` starts with a dot. */
  predicate NoHiddenSegment(rel: string) {
    (rel == "" || rel[0] != '.')
    && forall i :: 0 <= i < |rel| - 1 && rel[i] == '/' ==> rel[i + 1] != '.'
  }

  /**
    `dir` is `root` itself or lies below it without passing through a directory whose
    name starts with a dot.
   */
  predicate Beneath(root: string, dir: string) {
    dir == root
    || (StartsWith(dir, DirPrefix(root)) && NoHiddenSegment(dir[|DirPrefix(root)|..]))
  }

  /** Going down into a non-hidden subdirectory stays beneath the starting directory. */
  lemma BeneathStep(root: string, name: string, dir: string)
    requires IsNormalDir(root) && ValidName(name) && !IsHidden(name)
    requires Beneath(JoinPath(root, name), dir)
    ensures Beneath(root, dir)
  {
    var p := DirPrefix(root);
    var c := JoinPath(root, name);
    assert c == p + name;
    assert name[0] != '.';
    if dir == c {
      assert dir[|p|..] == name;
    } else {
      assert c != "/" && c[|c| - 1] != '/' by {
        assert c[|c| - 1] == name[|name| - 1];
        assert name[|name| - 1] in name;
      }
      var q := DirPrefix(c);
      assert q == p + name + "/";
      var rel' := dir[|q|..];
      var rel := dir[|p|..];
      assert dir[..|q|] == q;
      assert rel == name + "/" + rel' by {
        assert dir == q + rel';
      }
      assert dir[..|p|] == p;
      forall i | 0 <= i < |rel| - 1 && rel[i] == '/'
        ensures rel[i + 1] != '.'
      {
        if i > |name| {
          assert rel[i] == rel'[i - |name| - 1];
          assert rel[i + 1] == rel'[i - |name|];
        }
      }
    }
  }

  // ---------------------------------------------------------------- path.join and path.normalize

  /** `p.split("/")`: the segments between separators, empty ones included. */
  function Segments(p: string): (segs: seq<string>)
    ensures segs != []
    decreases |p|
  {
    var i := LastIndexOf(p, '/');
    if i < 0 then [p] else Segments(p[..i]) + [p[i + 1..]]
  }

  /** A segment that names an entry: not empty, and neither `.` nor `..`. */
  predicate PlainSegment(seg: string) {
    seg != "" && seg != "." && seg != ".."
  }

  /**
    One step of the segment resolution in `path.normalize`: empty and `.` segments are
    skipped, `..` drops the last kept segment (or is kept itself in a relative path that
    has nothing left to drop), and any other segment is kept.
   */
  function ResolveStep(kept: seq<string>, seg: string, allowAboveRoot: bool): seq<string> {
    if seg == "" || seg == "." then kept
    else if seg == ".." then
      if kept != [] && kept[|kept| - 1] != ".." then kept[..|kept| - 1]
      else if allowAboveRoot then kept + [".."]
      else kept
    else kept + [seg]
  }

  /** The segments `path.normalize` keeps, left to right. */
  function Resolve(segs: seq<string>, allowAboveRoot: bool): (kept: seq<string>)
    ensures !allowAboveRoot ==> forall i :: 0 <= i < |kept| ==> PlainSegment(kept[i])
    decreases |segs|
  {
    if segs == [] then []
    else ResolveStep(Resolve(segs[..|segs| - 1], allowAboveRoot), segs[|segs| - 1], allowAboveRoot)
  }

  /**
    `path.normalize(p)`: the kept segments joined by `/`, behind a `/` when `p` is
    absolute and followed by one when `p` ends in a separator; `.` for nothing left.
   */
  function Normalize(p: string): (r: string)
    ensures r != ""
  {
    if p == "" then "."
    else
      var absolute := p[0] == '/';
      Assemble(absolute, p[|p| - 1] == '/', Join(Resolve(Segments(p), !absolute), "/"))
  }

  /** The normalised path around the joined kept segments `body`. */
  function Assemble(absolute: bool, trailing: bool, body: string): (r: string)
    ensures r != ""
  {
    if body == "" then (if absolute then "/" else if trailing then "./" else ".")
    else (if absolute then "/" else "") + body + (if trailing then "/" else "")
  }

  /** `path.join(dir, name)`: the non-empty arguments joined by `/`, then normalised. */
  function NodeJoin(dir: string, name: string): string {
    var joined := if dir == "" then name else if name == "" then dir else dir + "/" + name;
    if joined == "" then "." else Normalize(joined)
  }

  /** The segment after the last separator. */
  function LastSegment(p: string): string {
    p[LastIndexOf(p, '/') + 1..]
  }

  /** Appending a separator and a name without one adds exactly that name as a segment. */
  lemma SegmentsSnoc(dir: string, name: string)
    requires '/' !in name
    ensures Segments(dir + "/" + name) == Segments(dir) + [name]
    ensures LastSegment(dir + "/" + name) == name
  {
    var p := dir + "/" + name;
    assert p[|dir|] == '/';
    forall j | |dir| < j < |p|
      ensures p[j] != '/'
    {
      assert p[j] == name[j - |dir| - 1];
    }
    assert LastIndexOf(p, '/') == |dir|;
    assert p[..|dir|] == dir;
    assert p[|dir| + 1..] == name;
  }

  /** The segments of `p` end with its last segment. */
  lemma SegmentsLast(p: string)
    ensures Segments(p)[|Segments(p)| - 1] == LastSegment(p)
  {
  }

  /** A path whose last segment is not empty does not end in a separator. */
  lemma LastSegmentNotTrailing(p: string)
    requires LastSegment(p) != ""
    ensures p != "" && p[|p| - 1] != '/'
  {
    var seg := LastSegment(p);
    assert p[|p| - 1] == seg[|seg| - 1];
  }

  /** When the last segment is plain, the joined kept segments end with it. */
  lemma ResolvedEndsWith(segs: seq<string>, allowAboveRoot: bool)
    requires segs != [] && PlainSegment(segs[|segs| - 1])
    ensures var seg, body := segs[|segs| - 1], Join(Resolve(segs, allowAboveRoot), "/");
            body != "" && EndsWith(body, seg)
  {
    var seg := segs[|segs| - 1];
    var init := Resolve(segs[..|segs| - 1], allowAboveRoot);
    var body := Join(Resolve(segs, allowAboveRoot), "/");
    if init == [] {
      assert body == seg;
    } else {
      JoinSnoc(init, seg, "/");
      assert body[|body| - |seg|..] == seg;
    }
  }

  /** How `Normalize` assembles a path that does not end in a separator and keeps a segment. */
  lemma NormalizeShape(p: string, kept: seq<string>)
    requires p != "" && p[|p| - 1] != '/'
    requires Resolve(Segments(p), p[0] != '/') == kept && Join(kept, "/") != ""
    ensures Normalize(p) == (if p[0] == '/' then "/" else "") + Join(kept, "/")
  {
  }

  /**
    A plain last segment survives normalisation at the end: the normalised path ends
    with it.
   */
  lemma NormalizeEndsWithLastSegment(p: string)
    requires PlainSegment(LastSegment(p))
    ensures EndsWith(Normalize(p), LastSegment(p))
  {
    var seg := LastSegment(p);
    LastSegmentNotTrailing(p);
    SegmentsLast(p);
    var kept := Resolve(Segments(p), p[0] != '/');
    ResolvedEndsWith(Segments(p), p[0] != '/');
    NormalizeShape(p, kept);
    EndsWithPrepend(if p[0] == '/' then "/" else "", Join(kept, "/"), seg);
  }

  // ---------------------------------------------------------------- normalised absolute paths

  /** Names that can stand as segments of a normalised path: plain, without a separator. */
  predicate PlainNames(names: seq<string>) {
    forall k :: 0 <= k < |names| ==> '/' !in names[k] && PlainSegment(names[k])
  }

  /** `/` followed by `names` joined by `/`: the root itself when there are none. */
  function AbsolutePath(names: seq<string>): string {
    "/" + Join(names, "/")
  }

  /** The segments of the root followed by one separator-free name. */
  lemma SegmentsOfRootName(x: string)
    requires '/' !in x
    ensures Segments(AbsolutePath([x])) == ["", x]
  {
    assert Segments("") == [""];
    SegmentsSnoc("", x);
    assert AbsolutePath([x]) == "" + "/" + x;
  }

  /** The segments of an absolute path built from separator-free names are those names. */
  lemma {:induction false} SegmentsOfAbsolute(names: seq<string>)
    requires names != [] && forall k :: 0 <= k < |names| ==> '/' !in names[k]
    ensures Segments(AbsolutePath(names)) == [""] + names
    decreases |names|
  {
    var init, x := names[..|names| - 1], names[|names| - 1];
    assert names == init + [x];
    if init == [] {
      SegmentsOfRootName(x);
    } else {
      SegmentsOfAbsolute(init);
      AbsolutePathSnoc(init, x);
      SegmentsSnoc(AbsolutePath(init), x);
      assert [""] + init + [x] == [""] + names;
    }
  }

  /** Behind the root's empty segment, plain segments are all kept. */
  lemma {:induction false} ResolveAbsolutePlain(names: seq<string>)
    requires forall k :: 0 <= k < |names| ==> PlainSegment(names[k])
    ensures Resolve([""] + names, false) == names
    decreases |names|
  {
    if names == [] {
      assert [""] + names == [""];
    } else {
      var init := names[..|names| - 1];
      ResolveAbsolutePlain(init);
      assert ([""] + names)[..|names|] == [""] + init;
    }
  }

  /** A join ends with its last part. */
  lemma JoinEndsWithLast(parts: seq<string>, sep: string)
    requires parts != []
    ensures EndsWith(Join(parts, sep), parts[|parts| - 1])
  {
    var init, x := parts[..|parts| - 1], parts[|parts| - 1];
    assert parts == init + [x];
    if init != [] {
      JoinSnoc(init, x, sep);
      var j := Join(parts, sep);
      assert j[|j| - |x|..] == x;
    }
  }

  /** The last character of a path of plain names is not a separator. */
  lemma AbsoluteJoinNotTrailing(names: seq<string>)
    requires names != [] && names[|names| - 1] != "" && '/' !in names[|names| - 1]
    ensures var p := "/" + Join(names, "/"); p[|p| - 1] != '/'
  {
    var p := "/" + Join(names, "/");
    var x := names[|names| - 1];
    JoinEndsWithLast(names, "/");
    assert p[|p| - 1] == x[|x| - 1];
    assert x[|x| - 1] in x;
  }

  /** The kept segments of the root alone, and of the root followed by one name. */
  lemma RootSegments(name: string)
    requires '/' !in name && PlainSegment(name)
    ensures Resolve(Segments("/"), false) == []
    ensures Resolve(Segments("/" + "/" + name), false) == [name]
  {
    assert Segments("") == [""];
    SegmentsSnoc("", "");
    assert "" + "/" + "" == "/";
    assert Segments("/") == ["", ""];
    SegmentsSnoc("/", name);
    var segs := ["", "", name];
    assert Segments("/" + "/" + name) == segs;
    assert Resolve(segs[..1], false) == [];
    assert segs[..2][..1] == segs[..1];
    assert Resolve(segs[..2], false) == [];
  }

  /** An absolute path of plain names is already normalised: `path.normalize` leaves it as it is. */
  lemma NormalizeAbsolute(names: seq<string>)
    requires PlainNames(names)
    ensures Normalize(AbsolutePath(names)) == AbsolutePath(names)
  {
    if names == [] {
      RootSegments("a");
      assert AbsolutePath(names) == "/";
    } else {
      SegmentsOfAbsolute(names);
      ResolveAbsolutePlain(names);
      JoinNonEmpty(names, "/");
      AbsoluteJoinNotTrailing(names);
      NormalizeShape(AbsolutePath(names), names);
    }
  }

  /**
    The plain join of a normalised absolute directory and a plain entry name is the
    directory's path extended by the name, so a scan that starts from such a directory
    keeps every path it joins in that form.
   */
  lemma JoinPathStaysNormal(names: seq<string>, name: string)
    requires PlainNames(names) && '/' !in name && PlainSegment(name)
    ensures JoinPath(AbsolutePath(names), name) == AbsolutePath(names + [name])
    ensures PlainNames(names + [name])
  {
    if names == [] {
      assert names + [name] == [name];
    } else {
      AbsoluteJoinNotTrailing(names);
      JoinSnoc(names, name, "/");
    }
  }

  /** `path.join` of two non-empty parts normalises them joined by one separator. */
  lemma NodeJoinNonEmpty(dir: string, name: string)
    requires dir != "" && name != ""
    ensures NodeJoin(dir, name) == Normalize(dir + "/" + name)
  {
  }

  /** Joined onto the root, a plain name loses the doubled separator. */
  lemma NormalizeRootJoin(name: string)
    requires '/' !in name && PlainSegment(name)
    ensures Normalize("/" + "/" + name) == "/" + name
  {
    RootSegments(name);
    var p := "/" + "/" + name;
    assert p[|p| - 1] == name[|name| - 1];
    assert name[|name| - 1] in name;
    assert Join([name], "/") == name;
    NormalizeShape(p, [name]);
  }

  /** Below the root, the directory, a separator and the name are the extended path. */
  lemma AbsolutePathSnoc(names: seq<string>, name: string)
    requires names != []
    ensures AbsolutePath(names) + "/" + name == AbsolutePath(names + [name])
  {
    JoinSnoc(names, name, "/");
  }

  /**
    For a normalised absolute directory and a plain entry name, `path.join` is the plain
    join: the directory, one separator, the name.
   */
  lemma NodeJoinPlain(names: seq<string>, name: string)
    requires PlainNames(names) && '/' !in name && PlainSegment(name)
    ensures NodeJoin(AbsolutePath(names), name) == JoinPath(AbsolutePath(names), name)
  {
    JoinPathStaysNormal(names, name);
    var dir := AbsolutePath(names);
    NodeJoinNonEmpty(dir, name);
    if names == [] {
      assert dir == "/";
      NormalizeRootJoin(name);
    } else {
      AbsolutePathSnoc(names, name);
      NormalizeAbsolute(names + [name]);
    }
  }
}
