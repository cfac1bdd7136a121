/**
  The "Stata Help" command: the category drop-down built from the reference table, the
  commands listed for the selected category, the list sections shown, and the text of
  a command's detail page with its fall-backs for missing fields.

  The reference table is a parameter; its contents are not part of the model.
 */
module StataHelp {
  import opened Options
  import opened Text
  import Seqs

  datatype Reference = Reference(
    name: string,
    syntax: string,
    description: string,
    category: string,
    examples: Option<seq<string>>,
    tips: Option<seq<string>>,
    onlineHelp: Option<string>)

  const AllCategories: string := "All"

  function CategoryOf(r: Reference): string {
    r.category
  }

  // ---------------------------------------------------------------- categories and filtering

  /** `["All", ...Array.from(new Set(refs.map(cmd => cmd.category)))]` */
  function Categories(refs: seq<Reference>): seq<string> {
    [AllCategories] + Seqs.Distinct(Seqs.Keys(refs, CategoryOf))
  }

  /**
    The drop-down starts with "All"; after it each category of the table appears exactly
    once, nothing else appears, and categories come in the order they first occur in the
    table.
   */
  lemma CategoriesProps(refs: seq<Reference>)
    ensures Categories(refs)[0] == AllCategories
    ensures forall i, j :: 1 <= i < j < |Categories(refs)| ==> Categories(refs)[i] != Categories(refs)[j]
    ensures forall c :: c in Categories(refs)[1..] <==> exists r :: r in refs && r.category == c
    ensures forall i, j :: 1 <= i < j < |Categories(refs)| ==>
              Seqs.FindIndex(refs, CategoryOf, Categories(refs)[i]) < Seqs.FindIndex(refs, CategoryOf, Categories(refs)[j])
  {
    var ks := Seqs.Keys(refs, CategoryOf);
    var d := Seqs.Distinct(ks);
    var cs := Categories(refs);
    Seqs.DistinctProps(ks);
    assert cs[1..] == d;
    forall i, j | 1 <= i < j < |cs|
      ensures cs[i] != cs[j]
    {
      assert cs[i] == d[i - 1] && cs[j] == d[j - 1];
    }
    forall c
      ensures c in d <==> exists r :: r in refs && r.category == c
    {
      if c in ks {
        var w :| 0 <= w < |ks| && ks[w] == c;
        assert refs[w] in refs && refs[w].category == c;
      }
      if exists r :: r in refs && r.category == c {
        var r :| r in refs && r.category == c;
        var w :| 0 <= w < |refs| && refs[w] == r;
        assert ks[w] == c;
      }
    }
    forall i, j | 1 <= i < j < |cs|
      ensures Seqs.FindIndex(refs, CategoryOf, cs[i]) < Seqs.FindIndex(refs, CategoryOf, cs[j])
    {
      assert cs[i] == d[i - 1] && cs[j] == d[j - 1];
      FindIndexOfKeys(refs, cs[i]);
      FindIndexOfKeys(refs, cs[j]);
    }
  }

  /** Searching the list of categories is searching the table by category. */
  lemma {:induction false} FindIndexOfKeys(refs: seq<Reference>, c: string)
    ensures Seqs.FindIndex(Seqs.Keys(refs, CategoryOf), Seqs.Id, c) == Seqs.FindIndex(refs, CategoryOf, c)
    decreases |refs|
  {
    if refs != [] {
      var ks := Seqs.Keys(refs, CategoryOf);
      FindIndexOfKeys(refs[1..], c);
      assert ks[1..] == Seqs.Keys(refs[1..], CategoryOf);
    }
  }

  function CategoryIs(c: string): Reference -> bool {
    Seqs.KeyIs(CategoryOf, c)
  }

  lemma CategoryIsMeans(c: string)
    ensures forall x :: CategoryIs(c)(x) <==> x.category == c
  {
    forall x
      ensures CategoryIs(c)(x) <==> x.category == c
    {
      assert Seqs.KeyIs(CategoryOf, c)(x) == (CategoryOf(x) == c);
    }
  }

  /**
    `filteredCommands`: the whole table for "All", otherwise exactly the references of
    the selected category, in table order.
   */
  function FilteredCommands(refs: seq<Reference>, selected: string): (r: seq<Reference>)
    ensures selected == AllCategories ==> r == refs
    ensures selected != AllCategories ==> forall x :: x in r <==> x in refs && x.category == selected
    ensures selected != AllCategories ==>
              forall x :: multiset(r)[x] == if x.category == selected then multiset(refs)[x] else 0
    ensures Seqs.Subsequence(r, refs)
  {
    if selected == AllCategories then
      Seqs.SubsequenceReflexive(refs);
      refs
    else
      Seqs.FilterIsSubsequence(refs, CategoryIs(selected));
      Seqs.FilterCounts(refs, CategoryIs(selected));
      CategoryIsMeans(selected);
      Seqs.Filter(refs, CategoryIs(selected))
  }

  /** The section test: every section for "All", otherwise only the selected one. */
  predicate SectionShown(selected: string, category: string) {
    selected == AllCategories || selected == category
  }

  function ShownTest(selected: string): string -> bool {
    c => SectionShown(selected, c)
  }

  /**
    The list sections: one per category after "All" that the selection shows, each
    holding the references of that category in table order.
   */
  function Sections(refs: seq<Reference>, selected: string): seq<Seqs.Group<string, Reference>> {
    var shown := Seqs.Filter(Categories(refs)[1..], ShownTest(selected));
    seq(|shown|, i requires 0 <= i < |shown| => Seqs.Group(shown[i], Seqs.Filter(refs, CategoryIs(shown[i]))))
  }

  /**
    With "All" selected the sections are the grouping of the table by category: one
    non-empty section per category, each with exactly that category's references in
    table order, and together they list every reference exactly once.
   */
  lemma SectionsForAll(refs: seq<Reference>)
    ensures Sections(refs, AllCategories) == Seqs.GroupBy(refs, CategoryOf)
    ensures forall i :: 0 <= i < |Sections(refs, AllCategories)| ==> Sections(refs, AllCategories)[i].members != []
    ensures forall i, x :: 0 <= i < |Sections(refs, AllCategories)| ==>
              (x in Sections(refs, AllCategories)[i].members <==> x in refs && x.category == Sections(refs, AllCategories)[i].key)
    ensures forall i, j :: 0 <= i < j < |Sections(refs, AllCategories)| ==>
              Sections(refs, AllCategories)[i].key != Sections(refs, AllCategories)[j].key
    ensures multiset(Seqs.Flatten(Sections(refs, AllCategories))) == multiset(refs)
  {
    var cats := Categories(refs)[1..];
    assert cats == Seqs.Distinct(Seqs.Keys(refs, CategoryOf));
    Seqs.FilterKeepsAll(cats, ShownTest(AllCategories));
    Seqs.GroupByProps(refs, CategoryOf);
    Seqs.GroupByPermutation(refs, CategoryOf);
  }

  /** Filtering a list without repetitions for one value leaves that value once, if present. */
  lemma {:induction false} FilterShownOne(cats: seq<string>, c: string)
    requires c != AllCategories
    requires forall i, j :: 0 <= i < j < |cats| ==> cats[i] != cats[j]
    ensures Seqs.Filter(cats, ShownTest(c)) == if c in cats then [c] else []
    decreases |cats|
  {
    if cats != [] {
      FilterShownOne(cats[1..], c);
      if cats[0] == c {
        assert c !in cats[1..];
      }
    }
  }

  /**
    With a category other than "All" selected there is exactly one section, that
    category's, holding the filtered commands, when the table has the category; and no
    section otherwise.
   */
  lemma SectionsForCategory(refs: seq<Reference>, c: string)
    requires c != AllCategories
    ensures (exists r :: r in refs && r.category == c) ==>
              Sections(refs, c) == [Seqs.Group(c, FilteredCommands(refs, c))]
    ensures (forall r :: r in refs ==> r.category != c) ==> Sections(refs, c) == []
  {
    CategoriesProps(refs);
    var cats := Categories(refs)[1..];
    forall i, j | 0 <= i < j < |cats|
      ensures cats[i] != cats[j]
    {
      assert cats[i] == Categories(refs)[i + 1] && cats[j] == Categories(refs)[j + 1];
    }
    FilterShownOne(cats, c);
  }

  // ---------------------------------------------------------------- the detail page

  const NoExamples: string := "No examples available."
  const TipsHeading: string := "## Tips & Notes"
  const DocsHeading: string := "## Official Documentation"

  /** The tip bullet exactly as the source text spells it: the UTF-8 bytes of U+2022 read as Windows-1252. */
  const Bullet: string := "\U{E2}\U{20AC}\U{A2}"

  function Fence(example: string): string {
    "```stata\n" + example + "\n```"
  }

  function Fences(examples: seq<string>): (r: seq<string>)
    ensures |r| == |examples| && forall i :: 0 <= i < |examples| ==> r[i] == Fence(examples[i])
  {
    seq(|examples|, i requires 0 <= i < |examples| => Fence(examples[i]))
  }

  function Bullets(tips: seq<string>): (r: seq<string>)
    ensures |r| == |tips| && forall i :: 0 <= i < |tips| ==> r[i] == Bullet + " " + tips[i]
  {
    seq(|tips|, i requires 0 <= i < |tips| => Bullet + " " + tips[i])
  }

  /** `examples?.map(fence).join("\n\n") || "No examples available."` */
  function ExamplesBlock(examples: Option<seq<string>>): string {
    match examples
    case None => NoExamples
    case Some(es) =>
      var joined := Join(Fences(es), "\n\n");
      if joined != "" then joined else NoExamples
  }

  /** `tips ? heading + bullets : ""`; an empty array is truthy, so it keeps the heading. */
  function TipsBlock(tips: Option<seq<string>>): string {
    match tips
    case None => ""
    case Some(ts) => TipsHeading + "\n\n" + Join(Bullets(ts), "\n")
  }

  /** `onlineHelp ? heading + link : ""`; an empty string is falsy. */
  function DocsBlock(onlineHelp: Option<string>): string {
    match onlineHelp
    case None => ""
    case Some(url) =>
      if url != "" then DocsHeading + "\n\n[View complete Stata documentation](" + url + ")" else ""
  }

  lemma {:induction false} JoinStartsWithFirst(parts: seq<string>, sep: string)
    requires parts != []
    ensures StartsWith(Join(parts, sep), parts[0])
  {
    if |parts| > 1 {
      assert Join(parts, sep) == parts[0] + (sep + Join(parts[1..], sep));
      assert Join(parts, sep)[..|parts[0]|] == parts[0];
    }
  }

  /**
    The examples block falls back to "No examples available." exactly when the
    examples are missing or empty; otherwise it starts with the first example's fence.
   */
  lemma ExamplesBlockFallback(examples: Option<seq<string>>)
    ensures ExamplesBlock(examples) == NoExamples <==> examples.None? || examples.value == []
    ensures examples.Some? && examples.value != [] ==> StartsWith(ExamplesBlock(examples), Fence(examples.value[0]))
  {
    if examples.Some? && examples.value != [] {
      var fs := Fences(examples.value);
      JoinStartsWithFirst(fs, "\n\n");
      var b := ExamplesBlock(examples);
      assert b[..|Fence(examples.value[0])|] == Fence(examples.value[0]);
      assert b[0] == '`';
    }
  }

  /** The tips block is present exactly when tips are, and then opens with its heading. */
  lemma TipsBlockPresence(tips: Option<seq<string>>)
    ensures TipsBlock(tips) != "" <==> tips.Some?
    ensures tips.Some? ==> StartsWith(TipsBlock(tips), TipsHeading)
  {
    if tips.Some? {
      var b := TipsBlock(tips);
      assert b[..|TipsHeading|] == TipsHeading;
    }
  }

  /** The documentation block is present exactly when a non-empty link is, and then opens with its heading. */
  lemma DocsBlockPresence(onlineHelp: Option<string>)
    ensures DocsBlock(onlineHelp) != "" <==> onlineHelp.Some? && onlineHelp.value != ""
    ensures onlineHelp.Some? && onlineHelp.value != "" ==> StartsWith(DocsBlock(onlineHelp), DocsHeading)
  {
    if onlineHelp.Some? && onlineHelp.value != "" {
      var b := DocsBlock(onlineHelp);
      assert b[..|DocsHeading|] == DocsHeading;
    }
  }

  /** The title, syntax and description lines and the examples heading of the detail page. */
  function DetailHead(r: Reference): string {
    "\n# " + r.name + "\n\n**Syntax:** `" + r.syntax + "`\n\n**Description:** " + r.description
    + "\n\n## Examples\n\n"
  }

  /** The detail page's markdown before `trim()`. */
  function RawDetail(r: Reference): string {
    DetailHead(r) + ExamplesBlock(r.examples) + "\n\n" + TipsBlock(r.tips) + "\n\n" + DocsBlock(r.onlineHelp) + "\n  "
  }

  /** `CommandDetail`'s markdown. */
  function DetailMarkdown(r: Reference): string {
    Trim(RawDetail(r))
  }

  /** Without examples, the detail page shows "No examples available.". */
  lemma DetailShowsNoExamples(r: Reference)
    requires r.examples.None? || r.examples.value == []
    ensures Contains(DetailMarkdown(r), NoExamples)
  {
    ExamplesBlockFallback(r.examples);
    var pre, piece := DetailHead(r), ExamplesBlock(r.examples);
    var post := "\n\n" + TipsBlock(r.tips) + "\n\n" + DocsBlock(r.onlineHelp) + "\n  ";
    assert RawDetail(r) == pre + piece + post;
    assert !IsSpace(NoExamples[0]) && !IsSpace(NoExamples[|NoExamples| - 1]);
    TrimKeepsInner(pre, piece, post, NoExamples);
  }

  /** With tips given, even an empty list of them, the detail page shows the tips heading. */
  lemma DetailShowsTips(r: Reference)
    requires r.tips.Some?
    ensures Contains(DetailMarkdown(r), TipsHeading)
  {
    TipsBlockPresence(r.tips);
    var pre, piece := DetailHead(r) + ExamplesBlock(r.examples) + "\n\n", TipsBlock(r.tips);
    var post := "\n\n" + DocsBlock(r.onlineHelp) + "\n  ";
    assert RawDetail(r) == pre + piece + post;
    assert !IsSpace(TipsHeading[0]) && !IsSpace(TipsHeading[|TipsHeading| - 1]);
    TrimKeepsInner(pre, piece, post, TipsHeading);
  }

  /** With a non-empty documentation link, the detail page shows the documentation heading. */
  lemma DetailShowsDocs(r: Reference)
    requires r.onlineHelp.Some? && r.onlineHelp.value != ""
    ensures Contains(DetailMarkdown(r), DocsHeading)
  {
    DocsBlockPresence(r.onlineHelp);
    var pre := DetailHead(r) + ExamplesBlock(r.examples) + "\n\n" + TipsBlock(r.tips) + "\n\n";
    var piece, post := DocsBlock(r.onlineHelp), "\n  ";
    assert RawDetail(r) == pre + piece + post;
    assert !IsSpace(DocsHeading[0]) && !IsSpace(DocsHeading[|DocsHeading| - 1]);
    TrimKeepsInner(pre, piece, post, DocsHeading);
  }

  /**
    "Copy First Example" as written: offered whenever `examples` is present, copying
    `examples[0]`, which is `undefined` (here `None`) for an empty array.
   */
  function FirstExampleActionAsWritten(examples: Option<seq<string>>): (a: Option<Option<string>>)
    ensures a.Some? <==> examples.Some?
    ensures a.Some? && examples.value != [] ==> a.value == Some(examples.value[0])
  {
    match examples
    case None => None
    case Some(es) => Some(if es != [] then Some(es[0]) else None)
  }

  /** A reference with an empty examples array gets a copy action with nothing to copy. */
  lemma FirstExampleActionAsWrittenCopiesUndefined()
    ensures FirstExampleActionAsWritten(Some([])) == Some(None)
  {
  }

  /**
    "Copy First Example", offered only when there is a first example to copy: exactly
    when the detail page shows examples rather than the fall-back text.
   */
  function FirstExampleAction(examples: Option<seq<string>>): (a: Option<string>)
    ensures a.Some? <==> examples.Some? && examples.value != []
    ensures a.Some? ==> a.value == examples.value[0]
    ensures a.Some? <==> ExamplesBlock(examples) != NoExamples
    ensures a.Some? ==> FirstExampleActionAsWritten(examples) == Some(a)
  {
    ExamplesBlockFallback(examples);
    if examples.Some? && examples.value != [] then Some(examples.value[0]) else None
  }
}
