/**
  The body of the release pull request: a free-form preamble, the changelog
  marker line, and the rendered changelog with its version heading dropped and
  its compare link pointed at the new version's branch, joined by newlines.
 */
module ReleaseNotes {

  import opened Wrappers
  import opened JsStrings

  /** The heading that separates the preamble from the generated changelog. */
  const ChangelogMarker: string := "## \U{1F449} Changelog"

  /** What the first line of a rendered changelog starts with when it is a version heading. */
  const VersionHeadingStart: string := "## v"

  /** The end of the compare link the renderer emits. */
  const CompareBase: string := "...main"

  /**
    The preamble used when there is no pull request yet or its preamble is empty: a
    quoted announcement of the version and bump type; it is never empty.
   */
  function Placeholder(newVersion: string, bumpType: string): (r: string)
    ensures "> " <= r && r != []
  {
    "> " + newVersion + " is the next " + bumpType + " release.\n>\n> **Timetable**: to be announced."
  }

  /** The marker starts with `##` and has no other `#`, so two occurrences never overlap. */
  lemma MarkerOccurrencesDisjoint(s: string, p: nat, q: nat)
    ensures p < q && OccursAt(s, ChangelogMarker, p) && OccursAt(s, ChangelogMarker, q)
      ==> p + |ChangelogMarker| <= q
  {
    if p < q < p + |ChangelogMarker| && OccursAt(s, ChangelogMarker, p) && OccursAt(s, ChangelogMarker, q) {
      OccurrenceChar(s, ChangelogMarker, q, 0);
      OccurrenceChar(s, ChangelogMarker, p, q - p);
      OccurrenceChar(s, ChangelogMarker, q, 1);
      OccurrenceChar(s, ChangelogMarker, p, q - p + 1);
    }
  }

  /** The marker has no line break, so a preamble without it gains none by a trailing newline. */
  lemma AbsentAfterNewline(p: string)
    requires Absent(p, ChangelogMarker)
    ensures Absent(p + "\n", ChangelogMarker)
  {
    var m := ChangelogMarker;
    var s := p + "\n";
    forall j: nat | OccursAt(s, m, j) ensures false {
      if j + |m| <= |p| {
        assert p[j..j + |m|] == s[j..j + |m|];
        assert OccursAt(p, m, j);
      } else {
        OccurrenceChar(s, m, j, |p| - j);
      }
    }
  }

  /**
    The body with everything from its first marker to its end removed: the longest
    prefix of `body` that contains no marker and is followed by a marker or by nothing.
   */
  function StripChangelog(body: string): (r: string)
    ensures r <= body
    ensures Absent(r, ChangelogMarker)
    ensures r == body || OccursAt(body, ChangelogMarker, |r|)
  {
    match IndexOf(body, ChangelogMarker)
    case None => body
    case Some(i) =>
      assert Absent(body[..i], ChangelogMarker) by {
        forall j: nat | OccursAt(body[..i], ChangelogMarker, j) ensures false {
          OccursInPrefix(body, i, ChangelogMarker, j);
        }
      }
      body[..i]
  }

  /** Whatever follows the first marker is cut, and what precedes it is kept exactly. */
  lemma StripChangelogKeepsBefore(before: string, after: string)
    requires Absent(before, ChangelogMarker)
    ensures StripChangelog(before + ChangelogMarker + after) == before
  {
    var m := ChangelogMarker;
    var body := before + m + after;
    var r := StripChangelog(body);
    assert body[|before|..|before| + |m|] == m;
    assert OccursAt(body, m, |before|);
    assert body[..|before|] == before;
    MarkerOccurrencesDisjoint(body, |r|, |before|);
    MarkerOccurrencesDisjoint(body, |before|, |r|);
    OccursWithinPrefix(body, |before|, m, |r|);
    OccursWithinPrefix(body, |r|, m, |before|);
    assert r == body[..|before|] == before;
  }

  /** A body without the marker is kept whole. */
  lemma StripChangelogWithoutMarker(body: string)
    requires Absent(body, ChangelogMarker)
    ensures StripChangelog(body) == body
  {
  }

  /**
    The stripped body of the current pull request, or the placeholder when there is
    no pull request or the stripped body is the empty string (which is falsy).
   */
  function Preamble(currentBody: Option<string>, newVersion: string, bumpType: string): (r: string)
    ensures r != []
    ensures currentBody.None? ==> r == Placeholder(newVersion, bumpType)
    ensures r == Placeholder(newVersion, bumpType)
      || (currentBody.Some? && r == StripChangelog(currentBody.value))
    ensures currentBody.Some? && StripChangelog(currentBody.value) != [] ==>
      r == StripChangelog(currentBody.value)
    ensures currentBody.Some? && StripChangelog(currentBody.value) == [] ==>
      r == Placeholder(newVersion, bumpType)
    ensures currentBody.Some? && Absent(currentBody.value, ChangelogMarker) && currentBody.value != [] ==>
      r == currentBody.value
  {
    match currentBody
    case None => Placeholder(newVersion, bumpType)
    case Some(body) =>
      var stripped := StripChangelog(body);
      if stripped == [] then Placeholder(newVersion, bumpType) else stripped
  }

  /** The text in front of the first marker of an existing body becomes the preamble. */
  lemma PreambleKeepsExistingText(before: string, after: string, newVersion: string, bumpType: string)
    requires Absent(before, ChangelogMarker) && before != []
    ensures Preamble(Some(before + ChangelogMarker + after), newVersion, bumpType) == before
  {
    StripChangelogKeepsBefore(before, after);
  }

  /** With no pull request, or nothing in front of the marker, the placeholder is used. */
  lemma PreambleFallsBack(currentBody: Option<string>, after: string, newVersion: string, bumpType: string)
    requires currentBody == None || currentBody == Some(ChangelogMarker + after) || currentBody == Some([])
    ensures Preamble(currentBody, newVersion, bumpType)
      == "> " + newVersion + " is the next " + bumpType + " release.\n>\n> **Timetable**: to be announced."
  {
    if currentBody == Some(ChangelogMarker + after) {
      StripChangelogKeepsBefore([], after);
    }
  }

  /** `s.indexOf` of the first line terminator at or after `from`. */
  function LineTerminatorFrom(s: string, from: nat): (r: Option<nat>)
    decreases |s| - from
    ensures r.Some? ==> from <= r.value < |s| && IsLineTerminator(s[r.value])
    ensures r.Some? ==> forall k :: from <= k < r.value ==> !IsLineTerminator(s[k])
    ensures r.None? ==> forall k :: from <= k < |s| ==> !IsLineTerminator(s[k])
  {
    if |s| <= from then None
    else if IsLineTerminator(s[from]) then Some(from)
    else LineTerminatorFrom(s, from + 1)
  }

  /**
    The regular expression `/^## v.*?\n/` matches `s[..j + 1]`: `s` starts with
    `## v`, `s[j]` is a line feed, and no line terminator comes between (`.` does
    not match one).
   */
  ghost predicate HeadingLineEndsAt(s: string, j: nat) {
    VersionHeadingStart <= s && |VersionHeadingStart| <= j < |s| && s[j] == '\n'
    && forall k :: |VersionHeadingStart| <= k < j ==> !IsLineTerminator(s[k])
  }

  /** The changelog without its leading version-heading line, when `HeadingLineEndsAt` finds one. */
  function DropVersionHeading(s: string): (r: string)
    ensures forall j: nat :: HeadingLineEndsAt(s, j) ==> r == s[j + 1..]
    ensures (forall j: nat :: !HeadingLineEndsAt(s, j)) ==> r == s
  {
    if VersionHeadingStart <= s then
      match LineTerminatorFrom(s, |VersionHeadingStart|)
      case Some(j) =>
        if s[j] == '\n' then
          assert HeadingLineEndsAt(s, j);
          s[j + 1..]
        else s
      case None => s
    else s
  }

  /**
    A heading line ended by a carriage return is not dropped: `.` does not match
    the `\r`, so the line never reaches a line feed.
   */
  lemma CarriageReturnHeadingKept(x: string, rest: string)
    requires forall k :: 0 <= k < |x| ==> !IsLineTerminator(x[k])
    ensures DropVersionHeading("## v" + x + "\r\n" + rest) == "## v" + x + "\r\n" + rest
  {
    var s := "## v" + x + "\r\n" + rest;
    var p := |VersionHeadingStart| + |x|;
    assert s[..|VersionHeadingStart|] == VersionHeadingStart;
    forall k | |VersionHeadingStart| <= k < p ensures !IsLineTerminator(s[k]) {
      assert s[k] == x[k - |VersionHeadingStart|];
    }
    assert s[p] == '\r';
    assert LineTerminatorFrom(s, |VersionHeadingStart|) == Some(p);
  }

  /**
    The first `...main` of `text` replaced, as a string pattern, by `...v` and the
    new version. Only that occurrence is rewritten (for a version without `$`, to
    exactly `...v` and the version); the text around it is untouched, and text
    without `...main` is returned unchanged.
   */
  function CompareLinkRewrite(text: string, newVersion: string): (r: string)
    ensures Absent(text, CompareBase) ==> r == text
    ensures '$' !in newVersion ==> forall i: nat :: FirstOccurrence(text, CompareBase, i) ==>
      r == text[..i] + "...v" + newVersion + text[i + |CompareBase|..]
  {
    ReplaceFirst(text, CompareBase, "...v" + newVersion)
  }

  /**
    The changelog with its version heading dropped and its compare link rewritten;
    a changelog with neither a heading line nor `...main` comes through unchanged,
    and one with a heading line but no `...main` after it loses just that line.
    Otherwise the first `...main` of what is left becomes `...v` and the version.
   */
  function ChangelogSection(changelog: string, newVersion: string): (r: string)
    ensures (forall j: nat :: !HeadingLineEndsAt(changelog, j)) && Absent(changelog, CompareBase)
      ==> r == changelog
    ensures forall j: nat ::
      (HeadingLineEndsAt(changelog, j) && Absent(changelog[j + 1..], CompareBase) ==> r == changelog[j + 1..])
    ensures '$' !in newVersion ==> forall j: nat, i: nat
      {:trigger HeadingLineEndsAt(changelog, j), FirstOccurrence(changelog[j + 1..], CompareBase, i)} ::
      (HeadingLineEndsAt(changelog, j) && FirstOccurrence(changelog[j + 1..], CompareBase, i) ==>
        r == changelog[j + 1..][..i] + "...v" + newVersion + changelog[j + 1..][i + |CompareBase|..])
    ensures '$' !in newVersion && (forall j: nat :: !HeadingLineEndsAt(changelog, j)) ==>
      forall i: nat :: FirstOccurrence(changelog, CompareBase, i) ==>
        r == changelog[..i] + "...v" + newVersion + changelog[i + |CompareBase|..]
  {
    CompareLinkRewrite(DropVersionHeading(changelog), newVersion)
  }

  /** The preamble, the marker line and the changelog section, joined with line feeds. */
  function ComposeBody(preamble: string, section: string): (r: string)
    ensures r == preamble + "\n" + ChangelogMarker + "\n" + section
  {
    JoinThree(preamble, ChangelogMarker, section, "\n");
    Join([preamble, ChangelogMarker, section], "\n")
  }

  /**
    Stripping a composed body gives back its preamble with one more line feed: the
    text in front of the marker survives an update, growing by a newline each time.
   */
  lemma RestripAddsNewline(preamble: string, section: string)
    requires Absent(preamble, ChangelogMarker)
    ensures StripChangelog(ComposeBody(preamble, section)) == preamble + "\n"
  {
    AbsentAfterNewline(preamble);
    assert ComposeBody(preamble, section) == (preamble + "\n") + ChangelogMarker + ("\n" + section);
    StripChangelogKeepsBefore(preamble + "\n", "\n" + section);
  }

  /**
    The release notes for the current pull request's body (if any): the preamble,
    the marker and the changelog section, joined by line feeds. Cutting them at the
    marker again gives back the preamble with one more line feed, so long as the
    preamble has no marker of its own.
   */
  function ReleaseNotesText(currentBody: Option<string>, newVersion: string, bumpType: string, changelog: string): (r: string)
    ensures r == Preamble(currentBody, newVersion, bumpType) + "\n" + ChangelogMarker + "\n"
      + ChangelogSection(changelog, newVersion)
    ensures Absent(Preamble(currentBody, newVersion, bumpType), ChangelogMarker) ==>
      StripChangelog(r) == Preamble(currentBody, newVersion, bumpType) + "\n"
  {
    var preamble := Preamble(currentBody, newVersion, bumpType);
    var section := ChangelogSection(changelog, newVersion);
    assert Absent(preamble, ChangelogMarker) ==> StripChangelog(ComposeBody(preamble, section)) == preamble + "\n" by {
      if Absent(preamble, ChangelogMarker) {
        RestripAddsNewline(preamble, section);
      }
    }
    ComposeBody(preamble, section)
  }

  /** Updating a pull request whose body the script composed keeps that preamble plus a newline. */
  lemma UpdatedPreambleGrows(preamble: string, section: string, newVersion: string, bumpType: string)
    requires Absent(preamble, ChangelogMarker)
    ensures Preamble(Some(ComposeBody(preamble, section)), newVersion, bumpType) == preamble + "\n"
  {
    RestripAddsNewline(preamble, section);
  }
}
