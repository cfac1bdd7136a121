/**
  String helpers with the meaning that the JavaScript string methods used by the
  commands give them. Strings are sequences of characters; only ASCII letters are
  case-mapped (see `LowerChar`).
 */
module Text {

  /** `s.startsWith(prefix)` */
  predicate StartsWith(s: string, prefix: string) {
    |prefix| <= |s| && s[..|prefix|] == prefix
  }

  /** `s.endsWith(suffix)` */
  predicate EndsWith(s: string, suffix: string) {
    |suffix| <= |s| && s[|s| - |suffix|..] == suffix
  }

  /** Text put in front does not change how a string ends. */
  lemma EndsWithPrepend(pre: string, s: string, suffix: string)
    requires EndsWith(s, suffix)
    ensures EndsWith(pre + s, suffix)
  {
    assert (pre + s)[|pre + s| - |suffix|..] == s[|s| - |suffix|..];
  }

  /** A suffix of a suffix is a suffix. */
  lemma EndsWithTransitive(a: string, b: string, c: string)
    requires EndsWith(a, b) && EndsWith(b, c)
    ensures EndsWith(a, c)
  {
    assert a[|a| - |c|..] == b[|b| - |c|..];
  }

  /** `s.includes(t)`: some occurrence of `t` starts at some position of `s`. */
  predicate Contains(s: string, t: string)
    decreases |s|
  {
    StartsWith(s, t) || (s != [] && Contains(s[1..], t))
  }

  /** `t` occurs in `s` starting at position `i`. */
  predicate OccursAt(s: string, t: string, i: int) {
    0 <= i <= |s| - |t| && s[i..i + |t|] == t
  }

  /** `Contains` agrees with the positional reading of "t occurs somewhere in s". */
  lemma {:induction false} ContainsIffOccurs(s: string, t: string)
    ensures Contains(s, t) <==> exists i :: OccursAt(s, t, i)
    decreases |s|
  {
    if StartsWith(s, t) {
      assert OccursAt(s, t, 0);
    }
    if s != [] {
      ContainsIffOccurs(s[1..], t);
      if Contains(s[1..], t) {
        var i :| OccursAt(s[1..], t, i);
        assert OccursAt(s, t, i + 1);
      }
      if exists i :: OccursAt(s, t, i) {
        var i :| OccursAt(s, t, i);
        if i > 0 {
          assert OccursAt(s[1..], t, i - 1);
        }
      }
    } else {
      if exists i :: OccursAt(s, t, i) {
        var i :| OccursAt(s, t, i);
        assert t == [];
      }
    }
  }

  /** Lower-casing of one character: ASCII upper-case letters map to lower case. */
  function LowerChar(c: char): char {
    if 'A' <= c <= 'Z' then (c as int + 32) as char else c
  }

  /** `s.toLowerCase()`, character by character. */
  function Lower(s: string): (r: string)
    ensures |r| == |s|
    ensures forall i :: 0 <= i < |s| ==> r[i] == LowerChar(s[i])
  {
    seq(|s|, i requires 0 <= i < |s| => LowerChar(s[i]))
  }

  /** `parts.join(sep)` */
  function Join(parts: seq<string>, sep: string): string
    decreases |parts|
  {
    if |parts| == 0 then ""
    else if |parts| == 1 then parts[0]
    else parts[0] + sep + Join(parts[1..], sep)
  }

  /** Joining one more part puts the separator and the part at the end. */
  lemma {:induction false} JoinSnoc(parts: seq<string>, x: string, sep: string)
    requires parts != []
    ensures Join(parts + [x], sep) == Join(parts, sep) + sep + x
    decreases |parts|
  {
    if |parts| == 1 {
      assert parts + [x] == [parts[0], x];
      assert [parts[0], x][1..] == [x];
    } else {
      assert (parts + [x])[0] == parts[0];
      assert (parts + [x])[1..] == parts[1..] + [x];
      JoinSnoc(parts[1..], x, sep);
    }
  }

  /** A join whose first part is not empty is not empty. */
  lemma {:induction false} JoinNonEmpty(parts: seq<string>, sep: string)
    requires parts != [] && parts[0] != ""
    ensures Join(parts, sep) != ""
  {
    if |parts| > 1 {
      assert Join(parts, sep)[..|parts[0]|] == parts[0];
    }
  }

  /**
    The characters `String.prototype.trim` removes: the ECMAScript WhiteSpace and
    LineTerminator code points.
   */
  predicate IsSpace(c: char) {
    c in {' ', '\t', '\n', '\r', '\U{B}', '\U{C}', '\U{A0}', '\U{1680}', '\U{2028}',
          '\U{2029}', '\U{202F}', '\U{205F}', '\U{3000}', '\U{FEFF}'}
    || '\U{2000}' <= c <= '\U{200A}'
  }

  /** `s` without its leading white space. */
  function TrimStart(s: string): (r: string)
    ensures |r| <= |s| && r == s[|s| - |r|..]
    ensures r == [] || !IsSpace(r[0])
    decreases |s|
  {
    if s != [] && IsSpace(s[0]) then TrimStart(s[1..]) else s
  }

  /** `s` without its trailing white space. */
  function TrimEnd(s: string): (r: string)
    ensures |r| <= |s| && r == s[..|r|]
    ensures r == [] || !IsSpace(r[|r| - 1])
    decreases |s|
  {
    if s != [] && IsSpace(s[|s| - 1]) then TrimEnd(s[..|s| - 1]) else s
  }

  /** `s.trim()` */
  function Trim(s: string): string {
    TrimEnd(TrimStart(s))
  }

  /** Trimming the start keeps an occurrence of a text that starts with a non-space. */
  lemma TrimStartKeepsOccurrence(s: string, t: string, i: int)
    requires OccursAt(s, t, i) && t != [] && !IsSpace(t[0])
    ensures OccursAt(TrimStart(s), t, i - (|s| - |TrimStart(s)|))
  {
    var u := TrimStart(s);
    var a := |s| - |u|;
    assert s[i..i + |t|][0] == s[i];
    TrimStartStopsAt(s, i);
    SliceOfSuffix(s, a, i, |t|);
  }

  lemma SliceOfSuffix(s: string, a: int, i: int, n: int)
    requires 0 <= a <= i && 0 <= n && i + n <= |s|
    ensures s[a..][i - a..i - a + n] == s[i..i + n]
  {
  }

  /** Trimming the start removes nothing at or after a non-space character. */
  lemma {:induction false} TrimStartStopsAt(s: string, k: int)
    requires 0 <= k < |s| && !IsSpace(s[k])
    ensures |s| - |TrimStart(s)| <= k
    decreases |s|
  {
    if IsSpace(s[0]) {
      assert s[1..][k - 1] == s[k];
      TrimStartStopsAt(s[1..], k - 1);
    }
  }

  /** Trimming the end keeps an occurrence of a text that ends with a non-space. */
  lemma TrimEndKeepsOccurrence(s: string, t: string, i: int)
    requires OccursAt(s, t, i) && t != [] && !IsSpace(t[|t| - 1])
    ensures OccursAt(TrimEnd(s), t, i)
  {
    var v := TrimEnd(s);
    assert s[i..i + |t|][|t| - 1] == s[i + |t| - 1];
    TrimEndStopsAt(s, i + |t| - 1);
    assert v[i..i + |t|] == s[i..i + |t|];
  }

  /** Trimming the end removes nothing at or before a non-space character. */
  lemma {:induction false} TrimEndStopsAt(s: string, k: int)
    requires 0 <= k < |s| && !IsSpace(s[k])
    ensures k < |TrimEnd(s)|
    decreases |s|
  {
    if IsSpace(s[|s| - 1]) {
      var p := s[..|s| - 1];
      assert p[k] == s[k];
      TrimEndStopsAt(p, k);
    }
  }

  /** An occurrence of a text that starts and ends with a non-space survives trimming. */
  lemma TrimKeepsOccurrence(s: string, t: string, i: int)
    requires OccursAt(s, t, i) && t != [] && !IsSpace(t[0]) && !IsSpace(t[|t| - 1])
    ensures Contains(Trim(s), t)
  {
    TrimStartKeepsOccurrence(s, t, i);
    var j := i - (|s| - |TrimStart(s)|);
    TrimEndKeepsOccurrence(TrimStart(s), t, j);
    ContainsIffOccurs(Trim(s), t);
  }

  /** A piece that starts with `t` keeps `t` visible however the text around it is trimmed. */
  lemma TrimKeepsInner(pre: string, piece: string, post: string, t: string)
    requires StartsWith(piece, t) && t != [] && !IsSpace(t[0]) && !IsSpace(t[|t| - 1])
    ensures Contains(Trim(pre + piece + post), t)
  {
    assert OccursAt(piece, t, 0);
    OccursPrepend(pre, piece, t, 0);
    OccursAppend(pre + piece, post, t, |pre|);
    TrimKeepsOccurrence(pre + piece + post, t, |pre|);
  }

  /** An occurrence stays where it is when text is appended. */
  lemma OccursAppend(a: string, b: string, t: string, i: int)
    requires OccursAt(a, t, i)
    ensures OccursAt(a + b, t, i)
  {
    assert (a + b)[i..i + |t|] == a[i..i + |t|];
  }

  /** An occurrence moves right by the length of text prepended. */
  lemma OccursPrepend(a: string, b: string, t: string, i: int)
    requires OccursAt(b, t, i)
    ensures OccursAt(a + b, t, |a| + i)
  {
    assert (a + b)[|a| + i..|a| + i + |t|] == b[i..i + |t|];
  }
}
