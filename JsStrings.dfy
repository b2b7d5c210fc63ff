/**
  The few JavaScript string built-ins the release script relies on, stated over
  `string` (a sequence of Unicode characters): `indexOf`, `replace` with a string
  pattern (first occurrence only, with the `$` patterns of the replacement string),
  `trim`, and `Array.prototype.join`.
 */
module JsStrings {

  import opened Wrappers

  /** `pat` occurs in `s` starting at index `i`. */
  predicate OccursAt(s: string, pat: string, i: nat) {
    i + |pat| <= |s| && s[i..i + |pat|] == pat
  }

  /** `pat` occurs nowhere in `s`. */
  ghost predicate Absent(s: string, pat: string) {
    forall j: nat :: !OccursAt(s, pat, j)
  }

  /** `i` is the first index at which `pat` occurs in `s`. */
  ghost predicate FirstOccurrence(s: string, pat: string, i: nat) {
    OccursAt(s, pat, i) && forall j: nat :: j < i ==> !OccursAt(s, pat, j)
  }

  /** Each character of an occurrence is the pattern's character at the same offset. */
  lemma OccurrenceChar(s: string, pat: string, i: nat, k: nat)
    requires OccursAt(s, pat, i) && k < |pat|
    ensures s[i + k] == pat[k]
  {
    assert s[i..i + |pat|][k] == s[i + k];
  }

  /** An occurrence inside a prefix of `s` is an occurrence in `s`. */
  lemma OccursInPrefix(s: string, n: nat, pat: string, j: nat)
    requires n <= |s| && OccursAt(s[..n], pat, j)
    ensures OccursAt(s, pat, j)
  {
    assert s[..n][j..j + |pat|] == s[j..j + |pat|];
  }

  /** An occurrence that ends within the first `n` characters is an occurrence in `s[..n]`. */
  lemma OccursWithinPrefix(s: string, n: nat, pat: string, j: nat)
    ensures OccursAt(s, pat, j) && j + |pat| <= n <= |s| ==> OccursAt(s[..n], pat, j)
  {
    if j + |pat| <= n <= |s| {
      assert s[..n][j..j + |pat|] == s[j..j + |pat|];
    }
  }

  /** `s.indexOf(pat, from)`, with `None` for JavaScript's -1. */
  function IndexOfFrom(s: string, pat: string, from: nat): (r: Option<nat>)
    decreases |s| - from
    ensures r.Some? ==> from <= r.value && OccursAt(s, pat, r.value)
    ensures r.Some? ==> forall j: nat :: from <= j < r.value ==> !OccursAt(s, pat, j)
    ensures r.None? ==> forall j: nat :: from <= j ==> !OccursAt(s, pat, j)
  {
    if OccursAt(s, pat, from) then Some(from)
    else if |s| <= from + |pat| then None
    else IndexOfFrom(s, pat, from + 1)
  }

  /** `s.indexOf(pat)`. */
  function IndexOf(s: string, pat: string): (r: Option<nat>)
    ensures r.Some? ==> FirstOccurrence(s, pat, r.value)
    ensures r.None? <==> Absent(s, pat)
  {
    IndexOfFrom(s, pat, 0)
  }

  /** The first occurrence is unique, so it is what `IndexOf` finds. */
  lemma IndexOfFindsFirst(s: string, pat: string, i: nat)
    requires FirstOccurrence(s, pat, i)
    ensures IndexOf(s, pat) == Some(i)
  {
  }

  /**
    The replacement text of `replace` for a match of `matched` that has `before`
    in front of it and `after` behind it (ECMAScript GetSubstitution with no
    capture groups): `$$` gives `$`, `$&` the match, `` $` `` the text before it,
    `$'` the text after it; every other `$` stands for itself. A replacement
    string without `$` is therefore inserted verbatim.
   */
  function Substitute(template: string, matched: string, before: string, after: string): (r: string)
    decreases |template|
    ensures '$' !in template ==> r == template
  {
    if template == [] then []
    else if template[0] == '$' && 2 <= |template| then
      var rest := Substitute(template[2..], matched, before, after);
      match template[1]
      case '$' => "$" + rest
      case '&' => matched + rest
      case '`' => before + rest
      case '\'' => after + rest
      case _ => "$" + Substitute(template[1..], matched, before, after)
    else [template[0]] + Substitute(template[1..], matched, before, after)
  }

  /** `s.replace(pat, template)` for a string `pat`: only the first occurrence is replaced. */
  function ReplaceFirst(s: string, pat: string, template: string): (r: string)
    ensures Absent(s, pat) ==> r == s
    ensures forall i: nat :: FirstOccurrence(s, pat, i) ==>
      r == s[..i] + Substitute(template, pat, s[..i], s[i + |pat|..]) + s[i + |pat|..]
  {
    match IndexOf(s, pat)
    case None => s
    case Some(i) =>
      assert forall k: nat :: FirstOccurrence(s, pat, k) ==> k == i by {
        forall k: nat | FirstOccurrence(s, pat, k) ensures k == i {
          IndexOfFindsFirst(s, pat, k);
        }
      }
      s[..i] + Substitute(template, pat, s[..i], s[i + |pat|..]) + s[i + |pat|..]
  }

  /** The line terminators of ECMAScript: LF, CR, LINE SEPARATOR, PARAGRAPH SEPARATOR. */
  predicate IsLineTerminator(c: char) {
    c == '\n' || c == '\r' || c == '\U{2028}' || c == '\U{2029}'
  }

  /**
    The characters `trim` removes: ECMAScript WhiteSpace (TAB, VT, FF, ZWNBSP and
    the space separators of Unicode category Zs) and the line terminators.
   */
  predicate IsWhiteSpace(c: char) {
    || c == '\t' || c == '\U{000B}' || c == '\U{000C}' || c == '\U{FEFF}'
    || c == ' ' || c == '\U{00A0}' || c == '\U{1680}'
    || ('\U{2000}' <= c <= '\U{200A}')
    || c == '\U{202F}' || c == '\U{205F}' || c == '\U{3000}'
    || IsLineTerminator(c)
  }

  /** `s` with its leading white space removed. */
  function TrimStart(s: string): (r: string)
    ensures |r| <= |s| && r == s[|s| - |r|..]
    ensures forall k :: 0 <= k < |s| - |r| ==> IsWhiteSpace(s[k])
    ensures r == [] || !IsWhiteSpace(r[0])
  {
    if s != [] && IsWhiteSpace(s[0]) then TrimStart(s[1..]) else s
  }

  /** `s` with its trailing white space removed. */
  function TrimEnd(s: string): (r: string)
    ensures r <= s
    ensures forall k :: |r| <= k < |s| ==> IsWhiteSpace(s[k])
    ensures r == [] || !IsWhiteSpace(r[|r| - 1])
  {
    if s != [] && IsWhiteSpace(s[|s| - 1]) then TrimEnd(s[..|s| - 1]) else s
  }

  /**
    `s.trim()`: `s` with its leading and trailing white space removed. What is left
    is empty exactly when every character of `s` is white space, and otherwise it
    neither starts nor ends with white space.
   */
  function Trim(s: string): (r: string)
    ensures |r| <= |s|
    ensures r == [] <==> forall k :: 0 <= k < |s| ==> IsWhiteSpace(s[k])
    ensures r == [] || (!IsWhiteSpace(r[0]) && !IsWhiteSpace(r[|r| - 1]))
  {
    TrimEnd(TrimStart(s))
  }

  /**
    `parts.join(sep)`: the parts in order with `sep` between neighbours, so the
    result starts with the first part and ends with the last.
   */
  function Join(parts: seq<string>, sep: string): (r: string)
    decreases |parts|
    ensures parts == [] ==> r == []
    ensures parts != [] ==> parts[0] <= r
    ensures parts != [] ==> |parts[|parts| - 1]| <= |r| && r[|r| - |parts[|parts| - 1]|..] == parts[|parts| - 1]
  {
    if parts == [] then []
    else if |parts| == 1 then parts[0]
    else parts[0] + sep + Join(parts[1..], sep)
  }

  /** Joining two parts puts the separator between them. */
  lemma JoinTwo(b: string, c: string, sep: string)
    ensures Join([b, c], sep) == b + sep + c
  {
    assert [b, c][1..] == [c];
  }

  /** Joining three parts puts the separator between each neighbouring pair. */
  lemma {:induction false} JoinThree(a: string, b: string, c: string, sep: string)
    ensures Join([a, b, c], sep) == a + sep + b + sep + c
  {
    JoinTwo(b, c, sep);
    assert [a, b, c][1..] == [b, c];
  }
}
