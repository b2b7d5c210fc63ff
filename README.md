# Release bookkeeping of `pr-version`, modelled in Dafny

The repository's one script, `scripts/update-changelog.ts`, prepares a release. It does five things:

- It filters the parsed commits since the last release.
- It has the version bumped and a changelog rendered.
- It pushes a `v<version>` branch unless that branch already exists.
- It builds release notes.
- It opens a draft pull request carrying those notes, or patches the body of the pull request that is already open.

Most of the script calls git, the GitHub REST API and the `changelogen` and `semver` libraries. This project models the pure decisions the script makes between those calls:

- **Commit filter** (`CommitFilter`). A commit is kept when `config.types[type]` is truthy and it is not a non-breaking `chore(deps)` commit. Array order is kept.
- **Release notes** (`ReleaseNotes`). This covers the preamble, the changelog section and the newline join:
  - The preamble is the existing pull-request body cut at the first `## 👉 Changelog`. The placeholder is used when there is no pull request or nothing is left after the cut.
  - The changelog section is the rendered changelog with a leading `## v…` line dropped and its first `...main` rewritten to `...v<newVersion>`.
- **JavaScript string built-ins** (`JsStrings`). These are the built-ins the above relies on:
  - `indexOf`
  - `replace` with a string pattern, which changes the first occurrence only and honours the `$` patterns of the replacement string
  - `trim`, with ECMAScript's exact white-space set
  - `join`
- **Remote decision** (`PullRequestSync`). The branch exists iff the trimmed `ls-remote` output is non-empty. Exactly one write is chosen: a draft `CreatePR` with fixed fields, or a `PatchPR` of the current pull request's body.

Strings are `seq<char>` of Unicode characters. `newVersion`, `bumpType` and the rendered changelog are opaque input strings. `bumpType` is the text its template interpolation produces.

The model follows these details of the code, which are easy to misread:

- A type is recognised when its entry in the type table is *truthy*, not merely present. An entry `false` disables a type. A name every plain object inherits from `Object.prototype` (`constructor`, `toString`, …) reads as truthy even when it is not configured.
- The placeholder preamble is also used when a pull request exists but nothing precedes its changelog marker. The `||` treats the empty string as false.
- Only the *first* `...main` is rewritten.
- The heading line is dropped only when the changelog starts with `## v` and its first line ends in a line feed. `.` does not match `\r`, U+2028 or U+2029, so a heading line ending in `\r\n` stays.
- Each update adds one line feed to the preamble. The join puts `\n` after the preamble, and the next run keeps everything in front of the marker, that `\n` included.

## Model

| member | source | states |
|---|---|---|
| CommitFilter.Recognised | scripts/update-changelog.ts:12 | a configured type is recognised iff its entry is not `false`; an unconfigured type is recognised iff it is a name inherited from `Object.prototype` |
| CommitFilter.Keep | scripts/update-changelog.ts:12 | a non-breaking `chore(deps)` commit is rejected; every other commit is kept iff its type is recognised |
| CommitFilter.FilterCommits | scripts/update-changelog.ts:11-13 | a commit is in the result iff it is in the input, its type is truthy in the type table, and it is not a non-breaking `chore(deps)` commit; the result is never longer than the input |
| CommitFilter.FilterKeepsOrder | scripts/update-changelog.ts:11-13 | the result is the input's kept commits at strictly increasing positions, and a position is picked exactly when its commit passes the callback (an order-preserving subsequence, with nothing kept dropped) |
| CommitFilter.BreakingDependencyChoreKept | scripts/update-changelog.ts:12 | in any commit list, a breaking `chore(deps)` commit of an enabled type survives the filter |
| CommitFilter.DependencyChoreDropped | scripts/update-changelog.ts:12 | in any commit list, a non-breaking `chore(deps)` commit is dropped whatever the type table holds |
| CommitFilter.UnknownTypeDropped | scripts/update-changelog.ts:12 | in any commit list, a commit whose type is neither configured nor inherited is dropped |
| JsStrings.IndexOf | scripts/update-changelog.ts:38 | the index found is the first occurrence of the pattern, and none is found iff the pattern occurs nowhere |
| JsStrings.ReplaceFirst | scripts/update-changelog.ts:40 | text without the pattern is unchanged; otherwise only the first occurrence is replaced by the expanded replacement, with the text around it kept |
| JsStrings.Substitute | scripts/update-changelog.ts:40 | a replacement string without `$` is inserted verbatim |
| JsStrings.TrimStart | scripts/update-changelog.ts:22 | the result is a suffix of the input; everything removed is white space and the result does not start with white space |
| JsStrings.TrimEnd | scripts/update-changelog.ts:22 | the result is a prefix of the input; everything removed is white space and the result does not end with white space |
| JsStrings.Trim | scripts/update-changelog.ts:22 | `trim` gives the empty string iff every character is ECMAScript white space or a line terminator; a non-empty result neither starts nor ends with white space and is no longer than the input |
| JsStrings.Join | scripts/update-changelog.ts:37-41 | joining no parts gives the empty string; otherwise the result starts with the first part and ends with the last |
| JsStrings.JoinThree | scripts/update-changelog.ts:37-41 | joining three parts puts the separator between each neighbouring pair |
| ReleaseNotes.StripChangelog | scripts/update-changelog.ts:38 | the result is a prefix of the body without the marker, and is followed in the body by the marker unless it is the whole body |
| ReleaseNotes.StripChangelogKeepsBefore | scripts/update-changelog.ts:38 | for a body `before + marker + after` with no marker in `before`, the result is exactly `before` |
| ReleaseNotes.StripChangelogWithoutMarker | scripts/update-changelog.ts:38 | a body without the marker is kept whole |
| ReleaseNotes.MarkerOccurrencesDisjoint | scripts/update-changelog.ts:38-39 | two occurrences of the marker never overlap |
| ReleaseNotes.Placeholder | scripts/update-changelog.ts:38 | the placeholder preamble is a non-empty `> ` quote |
| ReleaseNotes.Preamble | scripts/update-changelog.ts:38 | the preamble is never empty; with no pull request, or a current body whose cut at the first marker is empty, it is the placeholder; otherwise it is that non-empty cut, so a non-empty body without a marker is kept whole |
| ReleaseNotes.PreambleKeepsExistingText | scripts/update-changelog.ts:38 | a non-empty text in front of the first marker of the current body becomes the preamble |
| ReleaseNotes.PreambleFallsBack | scripts/update-changelog.ts:38 | with no pull request, an empty body, or a body that starts with the marker, the preamble is `"> " + newVersion + " is the next " + bumpType + " release.\n>\n> **Timetable**: to be announced."` |
| ReleaseNotes.DropVersionHeading | scripts/update-changelog.ts:40 | when the changelog starts with `## v` and its first line terminator is a line feed at `j`, the result is the text after `j`; otherwise the changelog is unchanged |
| ReleaseNotes.CarriageReturnHeadingKept | scripts/update-changelog.ts:40 | a changelog `## v` + x + `\r\n` + rest, for any heading text x without a line terminator, is kept whole: its heading line is not dropped |
| ReleaseNotes.CompareLinkRewrite | scripts/update-changelog.ts:40 | text without `...main` is unchanged; for a version without `$`, only the first `...main` becomes `...v<newVersion>`, the text around it unchanged |
| ReleaseNotes.ChangelogSection | scripts/update-changelog.ts:40 | a changelog with no heading line and no `...main` is unchanged; with a heading line ending at a line feed, the section is the text after that line; in either case, for a version without `$`, the first `...main` of what remains is replaced by `...v<newVersion>` and nothing else changes |
| ReleaseNotes.ComposeBody | scripts/update-changelog.ts:37-41 | the joined notes are preamble, line feed, marker, line feed, section |
| ReleaseNotes.RestripAddsNewline | scripts/update-changelog.ts:37-41 | stripping composed notes whose preamble has no marker gives back the preamble plus one line feed |
| ReleaseNotes.ReleaseNotesText | scripts/update-changelog.ts:37-41 | the notes are preamble, marker and changelog section joined by line feeds; when the preamble has no marker, cutting the notes at their marker gives back the preamble plus one line feed |
| ReleaseNotes.UpdatedPreambleGrows | scripts/update-changelog.ts:37-41 | the preamble built from such notes is that preamble plus one line feed |
| PullRequestSync.BranchExists | scripts/update-changelog.ts:22 | the branch counts as existing iff the `ls-remote` output has a character that is not white space |
| PullRequestSync.CurrentPR | scripts/update-changelog.ts:35 | the current pull request is absent iff none is listed, and otherwise is the first listed |
| PullRequestSync.ChooseWrite | scripts/update-changelog.ts:44-69 | a create is chosen iff there is no current pull request; a create has title and head `v<newVersion>`, base `main` and draft set; a patch targets the current pull request's number; both carry the release notes as body |
| PullRequestSync.Reconcile | scripts/update-changelog.ts:35-69 | a create is sent iff no pull request is listed, as a draft from `v<newVersion>` into `main` titled `v<newVersion>` carrying the notes built without a current body; otherwise the first listed pull request is patched with the notes built from its body |
| PullRequestSync.FirstRunCreatesDraft | scripts/update-changelog.ts:37-57 | with no listed pull request, the write is a draft create whose body is placeholder, marker and changelog section joined by line feeds |
| PullRequestSync.LaterRunPatchesKeepingPreamble | scripts/update-changelog.ts:37-69 | with a listed pull request whose body has a non-empty marker-free text before its first marker, the write patches that pull request, keeping that text and replacing everything from the marker on |
| PullRequestSync.RerunGrowsPreamble | scripts/update-changelog.ts:37-69 | re-running on a pull request whose body the script composed with preamble `p` patches it with preamble `p + "\n"` |

## Left out

- The git subprocess steps are not modelled: `ls-remote`, the global `git config` identity, `checkout -b`, `npm version`, `commit` and `push` (lines 22-31). They are process I/O; only the predicate on the trimmed `ls-remote` output is modelled. Decoding the subprocess output bytes as text is not modelled either.
- The HTTP calls are not modelled: the `$fetch` requests, their URLs and the `GITHUB_TOKEN` header (lines 35, 45-69). They are network I/O. The model returns the chosen write as an `Action` value, and the listed pull requests are an input.
- The `changelogen` calls are not modelled: `loadChangelogConfig`, `getGitDiff`, `parseCommits`, `determineSemverChange` and `generateMarkDown` (lines 8-19). Their code is not part of this model. Their results become inputs: the commit sequence, the type table, the bump type text and the rendered changelog.
- `semver.inc` and the `'patch'` default passed to it (line 18) are not modelled. `newVersion` is an input string.
- The crash when an open pull request has a `null` body, and the top-level `catch` with `process.exit(1)` (lines 72-75), are runtime and process behaviour.
- Two concurrent runs for the same version are not modelled. That race spans processes.
- JavaScript strings are UTF-16 code units; the model uses Unicode characters. The two regular expressions have no `u` flag and the marker's emoji is matched literally, so both agree on well-formed text. Lone surrogates are not represented.
- ReleaseNotes.ChangelogSection: where the changelog contains `...main`, the resulting text is stated only for a `newVersion` without `$`, for the same reason as `CompareLinkRewrite` below.
- ReleaseNotes.CompareLinkRewrite: its exact-text conclusion is stated only for a `newVersion` without `$`. `ReplaceFirst` itself models the `$$`, `$&`, `` $` `` and `$'` patterns for every input. Semantic version strings never contain `$`.
- JsStrings.Substitute: its contract states only that a replacement without `$` is inserted verbatim. The body expands `$$`, `$&`, `` $` `` and `$'` as ECMAScript's GetSubstitution does, but no lemma characterises those patterns, because the script's only replacement string is `...v` plus a version.
