/**
  The "Create Do File" form: the file name gets a `.do` suffix, the form is validated,
  the content comes from the selected template or from the editable text area, and an
  existing file is never overwritten.

  The filesystem is a map from path to contents; `existsSync(p)` is `p in fs`. How
  `writeFileSync` ends is an oracle argument (`Files.WriteResult`).
 */
module CreateDoFile {
  import opened Options
  import opened Text
  import opened Paths
  import opened Files
  import Seqs

  datatype Template = Template(name: string, description: string, content: string)

  function NameOf(t: Template): string {
    t.name
  }

  /** `templates.find((t) => t.name === name)`: the first template with that name. */
  function FindTemplate(templates: seq<Template>, name: string): (r: Option<Template>)
    ensures r.None? <==> forall i :: 0 <= i < |templates| ==> templates[i].name != name
    ensures r.Some? ==> exists i :: 0 <= i < |templates| && templates[i] == r.value
    ensures r.Some? ==> r.value.name == name
    ensures forall i :: 0 <= i < |templates| && templates[i].name == name ==>
              r.Some? && (r.value == templates[i] || exists j :: 0 <= j < i && templates[j] == r.value)
  {
    var i := Seqs.FindIndex(templates, NameOf, name);
    if i < 0 then None else Some(templates[i])
  }

  /** `handleTemplateChange`: the text area is loaded with the template's content, or cleared. */
  function ContentOnTemplateChange(templates: seq<Template>, name: string): (c: string)
    ensures (exists t :: t in templates && t.name == name) ==> c == FindTemplate(templates, name).value.content
    ensures (forall t :: t in templates ==> t.name != name) ==> c == ""
  {
    match FindTemplate(templates, name)
    case Some(t) => t.content
    case None => ""
  }

  /** `template ? template.content : customContent` */
  function ChosenContent(templates: seq<Template>, selected: string, customContent: string): (c: string)
    ensures (exists t :: t in templates && t.name == selected) ==> c == FindTemplate(templates, selected).value.content
    ensures (forall t :: t in templates ==> t.name != selected) ==> c == customContent
  {
    match FindTemplate(templates, selected)
    case Some(t) => t.content
    case None => customContent
  }

  /**
    Choosing a template and submitting without editing writes exactly what the text
    area shows: the template's content, or nothing for an unknown name.
   */
  lemma ChosenContentMatchesPreview(templates: seq<Template>, name: string)
    ensures ChosenContent(templates, name, ContentOnTemplateChange(templates, name)) == ContentOnTemplateChange(templates, name)
  {
  }

  /**
    Once a known template is selected, edits made in the text area do not reach the
    file: the written content is the template's, whatever the text area holds.
   */
  lemma EditsIgnoredForKnownTemplate(templates: seq<Template>, name: string, edited1: string, edited2: string)
    requires exists t :: t in templates && t.name == name
    ensures ChosenContent(templates, name, edited1) == ChosenContent(templates, name, edited2)
  {
  }

  /** `fileName.endsWith(".do") ? fileName : fileName + ".do"` */
  function NormalizeDoName(fileName: string): (r: string)
  {
    if EndsWith(fileName, ".do") then fileName else fileName + ".do"
  }

  /**
    The normalised name ends in `.do`; a name already ending in `.do` is kept, any other
    gets exactly `.do` appended.
   */
  lemma NormalizeDoNameProps(fileName: string)
    ensures EndsWith(NormalizeDoName(fileName), ".do")
    ensures EndsWith(fileName, ".do") ==> NormalizeDoName(fileName) == fileName
    ensures !EndsWith(fileName, ".do") ==> NormalizeDoName(fileName) == fileName + ".do"
    ensures StartsWith(NormalizeDoName(fileName), fileName)
  {
    var r := NormalizeDoName(fileName);
    if !EndsWith(fileName, ".do") {
      assert r[|r| - 3..] == ".do";
      assert r[..|fileName|] == fileName;
    }
  }

  /** Normalising twice is normalising once. */
  lemma NormalizeDoNameIdempotent(fileName: string)
    ensures NormalizeDoName(NormalizeDoName(fileName)) == NormalizeDoName(fileName)
  {
    NormalizeDoNameProps(fileName);
  }

  /** The suffix test is case-sensitive: `analysis.DO` becomes `analysis.DO.do`. */
  lemma NormalizeDoNameCaseSensitive()
    ensures NormalizeDoName("analysis.DO") == "analysis.DO.do"
  {
    assert "analysis.DO"[8..] == ".DO";
  }

  /** How a submission ends; each failure is reported with the title shown in its toast. */
  datatype Outcome =
    | MissingName
    | NoLocation
    | AlreadyExists(fileName: string)
    | WriteFailed
    | Created(path: string)
  {
    function Title(): string {
      match this
      case MissingName => "Please enter a file name"
      case NoLocation => "No location selected"
      case AlreadyExists(_) => "File already exists"
      case WriteFailed => "Failed to create do file"
      case Created(_) => "Do file created successfully"
    }
  }

  datatype Submission = Submission(outcome: Outcome, fs: map<string, string>)

  /** `values.projectPath[0]`, with a missing first element or `""` meaning no location. */
  function SelectedLocation(projectPath: seq<string>): (r: Option<string>)
    ensures r.Some? <==> |projectPath| > 0 && projectPath[0] != ""
    ensures r.Some? ==> r.value == projectPath[0]
  {
    if |projectPath| > 0 && projectPath[0] != "" then Some(projectPath[0]) else None
  }

  /**
    `join(selectedPath, fileNameWithExt)`: the path a submission checks and writes. The
    typed name may hold separators, `.` and `..`, which `path.join` resolves.
   */
  function TargetPath(fileName: string, location: string): string {
    NodeJoin(location, NormalizeDoName(fileName))
  }

  /** The segment after the last separator of a name ending in `.do` is a plain name ending in `.do`. */
  lemma LastSegmentOfDoName(s: string)
    requires EndsWith(s, ".do")
    ensures PlainSegment(LastSegment(s)) && EndsWith(LastSegment(s), ".do")
  {
    var i := LastIndexOf(s, '/');
    assert s[|s| - 3..] == ".do";
    assert s[|s| - 3] == '.' && s[|s| - 2] == 'd' && s[|s| - 1] == 'o';
    assert i < |s| - 3;
    var seg := LastSegment(s);
    assert seg[|seg| - 3..] == s[|s| - 3..];
  }

  /** Whatever the typed name, the path written to ends in `.do`. */
  lemma TargetPathEndsInDo(fileName: string, location: string)
    ensures EndsWith(TargetPath(fileName, location), ".do")
  {
    var name := NormalizeDoName(fileName);
    NormalizeDoNameProps(fileName);
    var joined := if location == "" then name else location + "/" + name;
    if location != "" {
      assert joined[|joined| - 3..] == name[|name| - 3..];
    }
    LastSegmentOfDoName(joined);
    NormalizeEndsWithLastSegment(joined);
    EndsWithTransitive(TargetPath(fileName, location), LastSegment(joined), ".do");
  }

  /**
    The typed name is resolved against the location as `path.join` does: `../a` typed
    at `/u/p` names `/u/a.do`, next to the chosen folder rather than inside it.
   */
  lemma TargetPathClimbs()
    ensures TargetPath("../a", "/u/p") == "/u/a.do"
  {
    var p := "/u/p" + "/" + "../a.do";
    assert NormalizeDoName("../a") == "../a.do";
    ClimbSegments();
    ClimbResolve();
    assert Join(["u", "a.do"], "/") == "u/a.do";
    assert p[0] == '/' && p[|p| - 1] == 'o';
  }

  lemma ClimbSegments()
    ensures Segments("/u/p" + "/" + "../a.do") == ["", "u", "p", "..", "a.do"]
  {
    assert Segments("") == [""];
    SegmentsSnoc("", "u");
    SegmentsSnoc("/u", "p");
    SegmentsSnoc("/u/p", "..");
    SegmentsSnoc("/u/p/..", "a.do");
    assert "" + "/" + "u" == "/u";
    assert "/u" + "/" + "p" == "/u/p";
    assert "/u/p" + "/" + ".." == "/u/p/..";
    assert "/u/p/.." + "/" + "a.do" == "/u/p" + "/" + "../a.do";
  }

  lemma ClimbResolve()
    ensures Resolve(["", "u", "p", "..", "a.do"], false) == ["u", "a.do"]
  {
    var segs := ["", "u", "p", "..", "a.do"];
    assert segs[..0] == [];
    assert Resolve(segs[..1], false) == [];
    assert segs[..2][..1] == segs[..1];
    assert Resolve(segs[..2], false) == ["u"];
    assert segs[..3][..2] == segs[..2];
    assert Resolve(segs[..3], false) == ["u", "p"];
    assert segs[..4][..3] == segs[..3];
    assert Resolve(segs[..4], false) == ["u"];
    assert segs[..4] == segs[..|segs| - 1];
  }

  /**
    `createDoFile`: validates the name and the location, refuses an existing path, and
    otherwise writes the chosen content to the joined path. A write that fails after
    opening the file leaves what it wrote there.
   */
  function Submit(fs: map<string, string>, templates: seq<Template>, customContent: string,
                  fileName: string, projectPath: seq<string>, selected: string, write: WriteResult): (r: Submission)
    ensures fileName == "" ==> r.outcome == MissingName
    ensures fileName != "" && SelectedLocation(projectPath).None? ==> r.outcome == NoLocation
    ensures r.outcome.AlreadyExists? ==> r.outcome.fileName == NormalizeDoName(fileName)
    ensures !r.outcome.Created? && !r.outcome.WriteFailed? ==> r.fs == fs
    ensures r.outcome.Created? || r.outcome.WriteFailed? <==>
              fileName != "" && SelectedLocation(projectPath).Some?
              && TargetPath(fileName, SelectedLocation(projectPath).value) !in fs
    ensures r.outcome.Created? <==> (r.outcome.Created? || r.outcome.WriteFailed?) && write.Written?
    ensures r.outcome.Created? ==>
              && r.outcome.path == TargetPath(fileName, projectPath[0])
              && r.outcome.path !in fs
              && r.fs == fs[r.outcome.path := ChosenContent(templates, selected, customContent)]
    ensures r.outcome.WriteFailed? ==>
              var path := TargetPath(fileName, projectPath[0]);
              && (write.NotOpened? ==> r.fs == fs)
              && (write.FailedAfter? ==> path in r.fs && StartsWith(ChosenContent(templates, selected, customContent), r.fs[path]))
              && forall p :: p != path ==> (p in r.fs <==> p in fs) && (p in r.fs ==> r.fs[p] == fs[p])
  {
    if fileName == "" then Submission(MissingName, fs)
    else match SelectedLocation(projectPath)
      case None => Submission(NoLocation, fs)
      case Some(dir) =>
        var content := ChosenContent(templates, selected, customContent);
        var name := NormalizeDoName(fileName);
        var path := NodeJoin(dir, name);
        if path in fs then Submission(AlreadyExists(name), fs)
        else if write.Written? then Submission(Created(path), fs[path := content])
        else Submission(WriteFailed, AfterWrite(fs, path, content, write))
  }

  /**
    An existing target, after `path.join` resolved the typed name, is reported as such
    with its toast title, and the filesystem is left as it was.
   */
  lemma SubmitRefusesExisting(fs: map<string, string>, templates: seq<Template>, customContent: string,
                              fileName: string, dir: string, rest: seq<string>, selected: string, write: WriteResult)
    requires fileName != "" && dir != ""
    requires TargetPath(fileName, dir) in fs
    ensures var r := Submit(fs, templates, customContent, fileName, [dir] + rest, selected, write);
            r == Submission(AlreadyExists(NormalizeDoName(fileName)), fs)
            && r.outcome.Title() == "File already exists"
  {
  }

  /**
    The existence guard sees the resolved path: with `/u/a.do` present, the name `../a`
    at `/u/p` is refused and nothing is written.
   */
  lemma SubmitRefusesClimbingOntoExisting(fs: map<string, string>, templates: seq<Template>, customContent: string,
                                          selected: string, write: WriteResult)
    requires "/u/a.do" in fs
    ensures Submit(fs, templates, customContent, "../a", ["/u/p"], selected, write)
         == Submission(AlreadyExists("../a.do"), fs)
  {
    TargetPathClimbs();
    assert NormalizeDoName("../a") == "../a.do";
    SubmitRefusesExisting(fs, templates, customContent, "../a", "/u/p", [], selected, write);
    assert ["/u/p"] + [] == ["/u/p"];
  }

  /**
    A submission changes at most the target path: no existing file is touched, and a
    creation adds exactly one path, ending in `.do`.
   */
  lemma SubmitFrame(fs: map<string, string>, templates: seq<Template>, customContent: string,
                    fileName: string, projectPath: seq<string>, selected: string, write: WriteResult)
    ensures var r := Submit(fs, templates, customContent, fileName, projectPath, selected, write);
            && (forall p :: p in fs ==> p in r.fs && r.fs[p] == fs[p])
            && r.fs.Keys <= fs.Keys + {TargetPath(fileName, if |projectPath| > 0 then projectPath[0] else "")}
            && (r.outcome.Created? ==> r.fs.Keys == fs.Keys + {r.outcome.path} && |r.fs.Keys| == |fs.Keys| + 1)
            && (r.outcome.Created? ==> EndsWith(r.outcome.path, ".do"))
  {
    var r := Submit(fs, templates, customContent, fileName, projectPath, selected, write);
    if r.outcome.Created? {
      TargetPathEndsInDo(fileName, projectPath[0]);
      assert r.fs.Keys == fs.Keys + {r.outcome.path};
    }
  }

  /** Submitting the same form a second time never overwrites the file the first created. */
  lemma SubmitTwice(fs: map<string, string>, templates: seq<Template>, customContent: string,
                    fileName: string, projectPath: seq<string>, selected: string, write1: WriteResult, write2: WriteResult)
    ensures var r1 := Submit(fs, templates, customContent, fileName, projectPath, selected, write1);
            var r2 := Submit(r1.fs, templates, customContent, fileName, projectPath, selected, write2);
            r1.outcome.Created? ==> r2 == Submission(AlreadyExists(NormalizeDoName(fileName)), r1.fs)
  {
  }

  /**
    A write that fails after opening leaves a file behind, so submitting the same form
    again is refused as "File already exists" instead of retrying the write.
   */
  lemma SubmitAfterPartialWrite(fs: map<string, string>, templates: seq<Template>, customContent: string,
                                fileName: string, projectPath: seq<string>, selected: string, count: nat, write2: WriteResult)
    ensures var r1 := Submit(fs, templates, customContent, fileName, projectPath, selected, FailedAfter(count));
            var r2 := Submit(r1.fs, templates, customContent, fileName, projectPath, selected, write2);
            r1.outcome.WriteFailed? ==> r2 == Submission(AlreadyExists(NormalizeDoName(fileName)), r1.fs)
  {
  }
}
