/**
  The filter the release script applies to the parsed commits before deciding the
  version bump and rendering the changelog: keep a commit when its type is enabled
  in the changelog configuration's type table, unless it is a non-breaking
  `chore(deps)` commit.
 */
module CommitFilter {

  import opened Wrappers

  /** A parsed conventional commit, reduced to the fields the filter reads. */
  datatype Commit = Commit(commitType: string, scope: Option<string>, isBreaking: bool)

  /**
    A value of the configuration's type table: either a section description
    (an object, always truthy) or a plain boolean flag (`false` disables a type).
   */
  datatype TypeEntry = Section(title: string) | Flag(enabled: bool)

  type TypeTable = map<string, TypeEntry>

  /**
    Names that every plain JavaScript object inherits from `Object.prototype`;
    looking one of them up on the type table yields a function or an object,
    which is truthy.
   */
  const InheritedKeys: set<string> := {
    "constructor", "hasOwnProperty", "isPrototypeOf", "propertyIsEnumerable",
    "toLocaleString", "toString", "valueOf", "__proto__",
    "__defineGetter__", "__defineSetter__", "__lookupGetter__", "__lookupSetter__"
  }

  /** JavaScript truthiness of a type-table entry. */
  predicate Truthy(e: TypeEntry) {
    match e
    case Section(_) => true
    case Flag(b) => b
  }

  /**
    `config.types[t]` is truthy: an own entry decides, and is truthy unless it is
    `false`; a name that is not an own entry is truthy only when it is inherited.
   */
  predicate Recognised(types: TypeTable, t: string): (b: bool)
    ensures t in types ==> (b <==> types[t] != Flag(false))
    ensures t !in types ==> (b <==> t in InheritedKeys)
  {
    if t in types then Truthy(types[t]) else t in InheritedKeys
  }

  /** A non-breaking commit `chore(deps): ...`. */
  predicate IsDependencyChore(c: Commit) {
    c.commitType == "chore" && c.scope == Some("deps") && !c.isBreaking
  }

  /**
    The callback of the filter: a non-breaking `chore(deps)` commit is always
    rejected, and every other commit is kept exactly when its type is recognised.
   */
  predicate Keep(types: TypeTable, c: Commit): (b: bool)
    ensures IsDependencyChore(c) ==> !b
    ensures c.isBreaking || c.commitType != "chore" || c.scope != Some("deps") ==>
      (b <==> Recognised(types, c.commitType))
  {
    Recognised(types, c.commitType) && !IsDependencyChore(c)
  }

  /** The commits that pass `Keep`, in their original order. */
  function FilterCommits(types: TypeTable, commits: seq<Commit>): (kept: seq<Commit>)
    ensures |kept| <= |commits|
    ensures forall c :: c in kept <==> c in commits && Keep(types, c)
  {
    if commits == [] then []
    else
      var rest := FilterCommits(types, commits[1..]);
      assert forall c :: c in commits <==> c == commits[0] || c in commits[1..];
      if Keep(types, commits[0]) then [commits[0]] + rest else rest
  }

  /** `dst[k]` is the commit of `src` at position `idx[k]`, for every `k`. */
  ghost predicate PicksFrom(src: seq<Commit>, dst: seq<Commit>, idx: seq<nat>) {
    |idx| == |dst| && forall k :: 0 <= k < |idx| ==> idx[k] < |src| && src[idx[k]] == dst[k]
  }

  ghost predicate StrictlyIncreasing(idx: seq<nat>) {
    forall k, l :: 0 <= k < l < |idx| ==> idx[k] < idx[l]
  }

  /** Every index of `tail`, plus one. */
  function Shift(tail: seq<nat>): seq<nat> {
    seq(|tail|, k requires 0 <= k < |tail| => tail[k] + 1)
  }

  lemma ShiftMembership(tail: seq<nat>, i: nat)
    ensures i in Shift(tail) <==> 1 <= i && i - 1 in tail
  {
    var r := Shift(tail);
    if i in r {
      var k :| 0 <= k < |r| && r[k] == i;
      assert tail[k] == i - 1;
    }
    if 1 <= i && i - 1 in tail {
      var k :| 0 <= k < |tail| && tail[k] == i - 1;
      assert r[k] == i;
    }
  }

  /** Positions into the tail of `src` become positions into `src` once shifted. */
  lemma ShiftPicks(src: seq<Commit>, dst: seq<Commit>, tail: seq<nat>)
    requires src != [] && PicksFrom(src[1..], dst, tail) && StrictlyIncreasing(tail)
    ensures PicksFrom(src, dst, Shift(tail)) && StrictlyIncreasing(Shift(tail))
  {
    var r := Shift(tail);
    forall k | 0 <= k < |r| ensures r[k] < |src| && src[r[k]] == dst[k] {
      assert src[r[k]] == src[1..][tail[k]];
    }
    forall k, l | 0 <= k < l < |r| ensures r[k] < r[l] {
      assert tail[k] < tail[l];
    }
  }

  /** Position 0 in front of positive positions picks the first commit in front. */
  lemma PrependFirstPick(src: seq<Commit>, dst: seq<Commit>, idx: seq<nat>)
    requires src != [] && PicksFrom(src, dst, idx) && StrictlyIncreasing(idx)
    requires forall k :: 0 <= k < |idx| ==> 0 < idx[k]
    ensures PicksFrom(src, [src[0]] + dst, [0] + idx) && StrictlyIncreasing([0] + idx)
  {
    var idx' := [0] + idx;
    var dst' := [src[0]] + dst;
    forall k | 0 < k < |idx'| ensures idx'[k] < |src| && src[idx'[k]] == dst'[k] {
      assert idx'[k] == idx[k - 1] && dst'[k] == dst[k - 1];
    }
    forall k, l | 0 <= k < l < |idx'| ensures idx'[k] < idx'[l] {
      assert idx'[l] == idx[l - 1];
      if 0 < k {
        assert idx'[k] == idx[k - 1];
      }
    }
  }

  /**
    The filter keeps the commits in their original order: the kept commits sit at
    strictly increasing positions `idx` of the input, and a position of the input
    is among them exactly when its commit passes the callback.
   */
  lemma {:induction false} FilterKeepsOrder(types: TypeTable, commits: seq<Commit>) returns (idx: seq<nat>)
    ensures PicksFrom(commits, FilterCommits(types, commits), idx)
    ensures StrictlyIncreasing(idx)
    ensures forall i: nat :: i < |commits| ==> (Keep(types, commits[i]) <==> i in idx)
  {
    if commits == [] {
      return [];
    }
    var rest := FilterCommits(types, commits[1..]);
    var tail := FilterKeepsOrder(types, commits[1..]);
    var shifted := Shift(tail);
    ShiftPicks(commits, rest, tail);
    if Keep(types, commits[0]) {
      PrependFirstPick(commits, rest, shifted);
      idx := [0] + shifted;
    } else {
      idx := shifted;
    }
    forall i: nat | i < |commits|
      ensures Keep(types, commits[i]) <==> i in idx
    {
      ShiftMembership(tail, i);
      if 1 <= i {
        assert commits[i] == commits[1..][i - 1];
      }
    }
  }

  /** A breaking `chore(deps)` commit of an enabled type survives the filter. */
  lemma BreakingDependencyChoreKept(types: TypeTable, commits: seq<Commit>, c: Commit)
    requires c in commits && c.commitType == "chore" && c.scope == Some("deps") && c.isBreaking
    requires Recognised(types, "chore")
    ensures c in FilterCommits(types, commits)
  {
  }

  /** A non-breaking `chore(deps)` commit never survives, whatever the type table says. */
  lemma DependencyChoreDropped(types: TypeTable, commits: seq<Commit>, c: Commit)
    requires IsDependencyChore(c)
    ensures c !in FilterCommits(types, commits)
  {
  }

  /** A commit whose type is neither configured nor inherited never survives. */
  lemma UnknownTypeDropped(types: TypeTable, commits: seq<Commit>, c: Commit)
    requires c.commitType !in types && c.commitType !in InheritedKeys
    ensures c !in FilterCommits(types, commits)
  {
  }
}
