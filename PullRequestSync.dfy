/**
  What the release script decides about the remote: whether the release branch
  already exists (from the output of `git ls-remote`), and which single write it
  sends to the pull-request API — creating a draft pull request, or patching the
  body of the one that is already open.
 */
module PullRequestSync {

  import opened Wrappers
  import opened JsStrings
  import opened ReleaseNotes

  /** The fields the script reads from an open pull request. */
  datatype PullRequest = PullRequest(number: nat, body: string)

  /** The one write request the script sends, with its JSON payload. */
  datatype Action =
    | CreatePR(title: string, head: string, base: string, body: string, draft: bool)
    | PatchPR(number: nat, body: string)

  /** The release branch, and the head of its pull request: `v<newVersion>`. */
  function BranchName(newVersion: string): string {
    "v" + newVersion
  }

  /**
    The remote has the release branch: the `ls-remote` output is not empty once
    trimmed, that is, it has a character that is not white space.
   */
  predicate BranchExists(lsRemoteOutput: string): (b: bool)
    ensures b <==> exists k :: 0 <= k < |lsRemoteOutput| && !IsWhiteSpace(lsRemoteOutput[k])
  {
    |Trim(lsRemoteOutput)| > 0
  }

  /** The current pull request: the first one the API lists for the release branch, if any. */
  function CurrentPR(listed: seq<PullRequest>): (r: Option<PullRequest>)
    ensures r.None? <==> listed == []
    ensures r.Some? ==> r.value == listed[0]
  {
    if listed == [] then None else Some(listed[0])
  }

  /**
    The write the script sends: with no current pull request a draft is created
    from the release branch into `main`; otherwise only the body of the current
    pull request is patched. Either way the body carried is `notes`.
   */
  function ChooseWrite(current: Option<PullRequest>, newVersion: string, notes: string): (a: Action)
    ensures a.CreatePR? <==> current.None?
    ensures a.body == notes
    ensures a.CreatePR? ==>
      a.title == BranchName(newVersion) && a.head == BranchName(newVersion) && a.base == "main" && a.draft
    ensures a.PatchPR? ==> a.number == current.value.number
  {
    match current
    case None => CreatePR(BranchName(newVersion), BranchName(newVersion), "main", notes, true)
    case Some(pr) => PatchPR(pr.number, notes)
  }

  /** The body of the listed pull request the notes are built from, if any. */
  function CurrentBody(listed: seq<PullRequest>): Option<string> {
    match CurrentPR(listed)
    case None => None
    case Some(pr) => Some(pr.body)
  }

  /**
    From the pull requests listed for the release branch to the one write request:
    the release notes built from the first listed pull request, sent by `ChooseWrite`.
   */
  function Reconcile(listed: seq<PullRequest>, newVersion: string, bumpType: string, changelog: string): (a: Action)
    ensures a.CreatePR? <==> listed == []
    ensures a.CreatePR? ==>
      a.title == BranchName(newVersion) && a.head == BranchName(newVersion) && a.base == "main" && a.draft
      && a.body == ReleaseNotesText(None, newVersion, bumpType, changelog)
    ensures a.PatchPR? ==>
      a.number == listed[0].number && a.body == ReleaseNotesText(Some(listed[0].body), newVersion, bumpType, changelog)
  {
    ChooseWrite(CurrentPR(listed), newVersion, ReleaseNotesText(CurrentBody(listed), newVersion, bumpType, changelog))
  }

  /** The first run for a version opens a draft pull request whose notes start with the placeholder. */
  lemma FirstRunCreatesDraft(newVersion: string, bumpType: string, changelog: string)
    ensures Reconcile([], newVersion, bumpType, changelog) == CreatePR(
      "v" + newVersion, "v" + newVersion, "main",
      "> " + newVersion + " is the next " + bumpType + " release.\n>\n> **Timetable**: to be announced."
        + "\n" + ChangelogMarker + "\n" + ChangelogSection(changelog, newVersion),
      true)
  {
  }

  /**
    A later run patches the first listed pull request, keeping the text its body
    has in front of the first marker and replacing everything from the marker on.
   */
  lemma LaterRunPatchesKeepingPreamble(
    listed: seq<PullRequest>, before: string, after: string,
    newVersion: string, bumpType: string, changelog: string)
    requires listed != [] && listed[0].body == before + ChangelogMarker + after
    requires Absent(before, ChangelogMarker) && before != []
    ensures Reconcile(listed, newVersion, bumpType, changelog) == PatchPR(
      listed[0].number,
      before + "\n" + ChangelogMarker + "\n" + ChangelogSection(changelog, newVersion))
  {
    PreambleKeepsExistingText(before, after, newVersion, bumpType);
  }

  /**
    Running again on a pull request whose body the script wrote with preamble `p`
    patches it with preamble `p + "\n"`: the preamble survives and gains a line feed.
   */
  lemma RerunGrowsPreamble(
    number: nat, p: string, oldSection: string, rest: seq<PullRequest>,
    newVersion: string, bumpType: string, changelog: string)
    requires Absent(p, ChangelogMarker)
    ensures Reconcile([PullRequest(number, ComposeBody(p, oldSection))] + rest, newVersion, bumpType, changelog)
      == PatchPR(number, p + "\n" + "\n" + ChangelogMarker + "\n" + ChangelogSection(changelog, newVersion))
  {
    UpdatedPreambleGrows(p, oldSection, newVersion, bumpType);
  }
}
