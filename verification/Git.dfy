/** The pure part of `Git`: the argument checks and target of `rewind`, the
    registry of stashes made on this object, and `getLastCommitMessage`.

    A commit log is a sequence of commits, newest first, as JGit's log
    command lists them. Running the reset, creating the stash and reading
    the log are JGit's work; here their inputs and results are values. */
module Git {

  import opened Wrappers

  /** A `RevCommit`: its SHA-1 name and its full message. */
  datatype Commit = Commit(name: string, fullMessage: string)

  /** `ResetCommand.ResetType` */
  datatype ResetType = SOFT | MIXED | HARD | MERGE | KEEP

  /** The reset `rewind` asks JGit to perform. */
  datatype Reset = Reset(ref: string, mode: ResetType)

  // ---------------------------------------------------------------------------
  // rewind

  /** `rewind(steps, mode)` over the commits of `getAllCommits()`: a
      negative count throws `IllegalArgumentException`, a count that is not
      less than the number of commits throws `IndexOutOfBoundsException`;
      otherwise HEAD is reset to the commit `steps` places behind the newest
      one, with the given mode or `MIXED` when there is none. */
  function Rewind(steps: int, commits: seq<Commit>, mode: Option<ResetType>): (r: Result<Reset>)
    ensures r == Err(IllegalArgument) <==> steps < 0
    ensures r == Err(IndexOutOfBounds) <==> 0 <= steps && |commits| <= steps
    ensures r.Ok? <==> 0 <= steps < |commits|
    ensures r.Ok? ==> r.value.ref == commits[steps].name
    ensures r.Ok? && mode.Some? ==> r.value.mode == mode.value
    ensures r.Ok? && mode.None? ==> r.value.mode == MIXED
  {
    if steps < 0 then Err(IllegalArgument)
    else if steps >= |commits| then Err(IndexOutOfBounds)
    else Ok(Reset(commits[steps].name, mode.GetOr(MIXED)))
  }

  /** The log of a branch with linear history after its HEAD is reset
      `steps` commits back: the commits from the target on. */
  function LogAfterReset(commits: seq<Commit>, steps: nat): (log: seq<Commit>)
    requires steps < |commits|
    ensures |log| == |commits| - steps
    ensures log[0] == commits[steps]
  {
    commits[steps..]
  }

  /** Rewinding `0` steps resets to the newest commit, the current HEAD. */
  lemma RewindZeroIsHead(commits: seq<Commit>, mode: Option<ResetType>)
    requires |commits| > 0
    ensures Rewind(0, commits, mode).Ok?
    ensures Rewind(0, commits, mode).value.ref == commits[0].name
  {
  }

  /** Rewinds compose on a linear history: rewinding `a` steps and then
      `b` steps from the new HEAD targets the commit that rewinding `a + b`
      steps at once targets, and fails in the same way when there are too
      few commits. */
  lemma RewindComposes(a: nat, b: nat, commits: seq<Commit>, mode: Option<ResetType>)
    requires a < |commits|
    ensures Rewind(b, LogAfterReset(commits, a), mode) == Rewind(a + b, commits, mode)
  {
  }

  // ---------------------------------------------------------------------------
  // getLastCommitMessage

  /** `getLastCommitMessage()`: the full message of the first commit of the
      log, or `""` when the log is empty. */
  function LastCommitMessage(log: seq<Commit>): (message: string)
    ensures |log| > 0 ==> message == log[0].fullMessage
    ensures |log| == 0 ==> message == ""
  {
    if |log| > 0 then log[0].fullMessage else ""
  }

  /** After a successful rewind, the last commit message is the message of
      the commit the reset targeted. */
  lemma LastMessageAfterRewind(steps: int, commits: seq<Commit>, mode: Option<ResetType>)
    requires Rewind(steps, commits, mode).Ok?
    ensures exists c :: c in commits && c.name == Rewind(steps, commits, mode).value.ref
                       && LastCommitMessage(LogAfterReset(commits, steps)) == c.fullMessage
  {
    assert commits[steps] in commits;
  }

  // ---------------------------------------------------------------------------
  // The stash registry

  /** `stashMap`: each stash made through this object and the branch it was
      made on. */
  type Registry = map<Commit, string>

  /** `registerStash(stash, branch)`: records the stash under its branch,
      replacing an earlier entry for the same stash, and returns the stash.
      The map is a `Hashtable`, which refuses `null` keys and values: a
      `null` stash (what `stashCreate` gives when there is nothing to stash)
      or a `null` branch throws `NullPointerException` and records
      nothing. */
  function RegisterStash(registry: Registry, stash: Option<Commit>, branch: Option<string>): (r: Result<(Registry, Commit)>)
    ensures r.Err? <==> stash.None? || branch.None?
    ensures r.Err? ==> r.error == NullPointer
    ensures r.Ok? ==> r.value.1 == stash.value
    ensures r.Ok? ==> stash.value in r.value.0 && r.value.0[stash.value] == branch.value
    ensures r.Ok? ==> forall s :: s != stash.value ==> (s in r.value.0 <==> s in registry)
    ensures r.Ok? ==> forall s :: s in registry && s != stash.value ==> r.value.0[s] == registry[s]
  {
    if stash.None? || branch.None? then Err(NullPointer)
    else Ok((registry[stash.value := branch.value], stash.value))
  }

  /** `unregisterStash(stash)`: removes the stash's entry and nothing else.
      For a stash that was never registered, a warning is logged (the second
      component) and the registry is unchanged. */
  function UnregisterStash(registry: Registry, stash: Commit): (r: (Registry, bool))
    ensures r.1 <==> stash !in registry
    ensures stash !in r.0
    ensures forall s :: s != stash ==> (s in r.0 <==> s in registry)
    ensures forall s :: s in r.0 ==> r.0[s] == registry[s]
    ensures stash !in registry ==> r.0 == registry
  {
    (registry - {stash}, stash !in registry)
  }

  /** Registering a stash and then unregistering it leaves the registry as
      it was, less any earlier entry for that stash, without a warning;
      unregistering it a second time warns. */
  lemma RegisterThenUnregister(registry: Registry, stash: Commit, branch: string)
    ensures var registered := RegisterStash(registry, Some(stash), Some(branch));
            && registered.Ok?
            && UnregisterStash(registered.value.0, stash) == (registry - {stash}, false)
            && UnregisterStash(UnregisterStash(registered.value.0, stash).0, stash).1
    ensures stash !in registry ==>
              UnregisterStash(RegisterStash(registry, Some(stash), Some(branch)).value.0, stash).0 == registry
  {
    var registered := registry[stash := branch];
    assert registered - {stash} == registry - {stash};
    if stash !in registry {
      assert registry - {stash} == registry;
    }
  }
}
