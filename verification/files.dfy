/**
  The filesystem as the commands see it: a map from path to contents, where
  `existsSync(p)` is `p in fs`, and the effect of `writeFileSync` under its default
  `"w"` flag, which creates or truncates the file when it opens it and only then writes.
 */
module Files {
  import opened Text

  /** How a `writeFileSync(path, content)` call ends. */
  datatype WriteResult =
    | Written                 // the whole content was written
    | NotOpened               // opening the file threw: nothing was created or truncated
    | FailedAfter(count: nat) // the file was opened, then writing threw after `count` characters

  /**
    The filesystem after a write attempt: the target holds the content when the write
    succeeds, is untouched when it could not be opened, and holds the part written before
    the failure otherwise; no other path changes.
   */
  function AfterWrite(fs: map<string, string>, path: string, content: string, w: WriteResult): (r: map<string, string>)
    ensures w.Written? ==> r == fs[path := content]
    ensures w.NotOpened? ==> r == fs
    ensures w.FailedAfter? ==> path in r && StartsWith(content, r[path]) && |r[path]| <= w.count
    ensures forall p :: p != path ==> (p in r <==> p in fs) && (p in r ==> r[p] == fs[p])
  {
    match w
    case Written => fs[path := content]
    case NotOpened => fs
    case FailedAfter(count) =>
      var n := if count < |content| then count else |content|;
      fs[path := content[..n]]
  }
}
