/** What a changelog child decides and stores, told by the predecessor's row and by what git answers;
    and which commits a stored changelog lists when the log of git is the walk over the commit graph. */
module ChangelogMeaning {
  import opened Common
  import opened SubmoduleChangelogs
  import opened ChangelogPhase
  import Walk = ChangelogWalk

  // ---------- the decision of a child ----------

  /** The child's own repository; without one, the predecessor's, or else the first registered one. */
  predicate RepositoryOf(child: Child, previous: CommitInfo, repo: string) {
    if child.repository != "" || child.gitRepositories == [] then repo == child.repository
    else if previous.repository != "" then repo == previous.repository
    else repo == child.gitRepositories[0]
  }

  /** The main changelog: the log from the predecessor's commit to the child's, if both are in one repository;
      a log that fails leaves it empty. */
  ghost predicate MainTells(git: Git, child: Child, previous: CommitInfo, repo: string, commits: seq<CommitSummary>) {
    if repo == "" || repo != previous.repository then commits == []
    else
      exists path :: git.resolve(repo) == Some(path) &&
        match git.log(path, Sha(previous), child.commitSha)
        case Some(cs) => Tells(commits, cs, repo)
        case None => commits == []
  }

  ghost predicate SubmodulesTell(git: Git, child: Child, previous: CommitInfo, repo: string,
                                 submodules: Option<map<string, Changelog>>) {
    match submodules
    case Some(m) => IsTree(git, repo, child.commitSha, previous.submodules, m, 3)
    case None => forall m :: !IsTree(git, repo, child.commitSha, previous.submodules, m, 3)
  }

  predicate HasCommit(previous: Option<CommitInfo>) {
    previous.Some? && previous.value.sha != None && previous.value.sha != Some("")
  }

  ghost predicate IsDecision(git: Git, child: Child, previous: Option<CommitInfo>, d: Decision) {
    match d
    case Skip => !HasCommit(previous)
    case Wait => HasCommit(previous) && previous.value.enrichedAt == ""
    case Fail =>
      && HasCommit(previous) && previous.value.enrichedAt != "" && previous.value.repository != ""
      && RepositoryOf(child, previous.value, previous.value.repository)
      && git.resolve(previous.value.repository) == None
    case Store(c) =>
      && HasCommit(previous) && previous.value.enrichedAt != ""
      && previous.value.sha == Some(c.previousVersion)
      && exists repo :: RepositoryOf(child, previous.value, repo)
                        && MainTells(git, child, previous.value, repo, c.commits)
                        && SubmodulesTell(git, child, previous.value, repo, c.submodules)
  }

  lemma RepositoryIs(child: Child, previous: CommitInfo, repo: string)
    ensures RepositoryOf(child, previous, repo) <==> CurrentRepo(child, previous) == repo
  {
  }

  lemma MainCommitsTell(git: Git, child: Child, previous: CommitInfo)
    ensures
      var repo := CurrentRepo(child, previous);
      match MainCommits(git, child, previous)
      case Some(commits) => MainTells(git, child, previous, repo, commits)
      case None => repo == previous.repository != "" && git.resolve(repo) == None
  {
    var repo := CurrentRepo(child, previous);
    if repo != "" && repo == previous.repository && git.resolve(repo).Some? {
      var log := git.log(git.resolve(repo).value, Sha(previous), child.commitSha);
      if log.Some? { assert Tells(Summaries(log.value, repo), log.value, repo); }
    }
  }

  lemma MainTellsOnce(git: Git, child: Child, previous: CommitInfo, repo: string,
                      some: seq<CommitSummary>, other: seq<CommitSummary>)
    requires MainTells(git, child, previous, repo, some) && MainTells(git, child, previous, repo, other)
    ensures some == other
  {
    if repo != "" && repo == previous.repository {
      var log := git.log(git.resolve(repo).value, Sha(previous), child.commitSha);
      if log.Some? { TellsUnique(some, other, log.value, repo); }
    }
  }

  lemma SubmodulesTellIff(git: Git, child: Child, previous: CommitInfo, repo: string,
                          submodules: Option<map<string, Changelog>>)
    ensures SubmodulesTell(git, child, previous, repo, submodules) <==>
            Compute(git, repo, child.commitSha, previous.submodules, 0) == submodules
  {
    ComputeIsTree(git, repo, child.commitSha, previous.submodules);
  }

  lemma DecisionMade(git: Git, child: Child, previous: Option<CommitInfo>)
    ensures IsDecision(git, child, previous, DecideFrom(git, child, previous))
  {
    var d := DecideFrom(git, child, previous);
    if HasCommit(previous) && previous.value.enrichedAt != "" {
      var repo := CurrentRepo(child, previous.value);
      RepositoryIs(child, previous.value, repo);
      MainCommitsTell(git, child, previous.value);
      if d.Store? { SubmodulesTellIff(git, child, previous.value, repo, d.changelog.submodules); }
    }
  }

  /** A child decides exactly what the predecessor and git determine: it skips without a predecessor's commit, waits for
      one that is not enriched, fails if their common repository is not cached, and otherwise stores. */
  lemma DecisionIff(git: Git, child: Child, previous: Option<CommitInfo>, d: Decision)
    ensures DecideFrom(git, child, previous) == d <==> IsDecision(git, child, previous, d)
  {
    DecisionMade(git, child, previous);
    var e := DecideFrom(git, child, previous);
    if IsDecision(git, child, previous, d) && HasCommit(previous) && previous.value.enrichedAt != "" {
      var info := previous.value;
      forall repo | RepositoryOf(child, info, repo) ensures repo == CurrentRepo(child, info) {
        RepositoryIs(child, info, repo);
      }
      var repo := CurrentRepo(child, info);
      if d.Store? && e.Store? {
        MainTellsOnce(git, child, info, repo, d.changelog.commits, e.changelog.commits);
        SubmodulesTellIff(git, child, info, repo, d.changelog.submodules);
        SubmodulesTellIff(git, child, info, repo, e.changelog.submodules);
      }
    }
  }

  /** The predecessor of a position is the row with a commit at the nearest lower one; unordered rows do not count. */
  lemma PreviousIff(t: Table, artifactID: int, sortOrder: int, id: int)
    requires DistinctPositions(t)
    ensures Previous(t, artifactID, sortOrder) == Some(id) <==>
      && HasSha(t, id) && t[id].artifactID == artifactID && 0 < t[id].sortOrder < sortOrder
      && forall other :: HasSha(t, other) && t[other].artifactID == artifactID ==>
           !(t[id].sortOrder < t[other].sortOrder < sortOrder)
  {
    forall other ensures IsCandidate(t, artifactID, sortOrder, other) <==>
      HasSha(t, other) && t[other].artifactID == artifactID && 0 < t[other].sortOrder < sortOrder {}
    if HasSha(t, id) && t[id].artifactID == artifactID && 0 < t[id].sortOrder < sortOrder
       && forall other :: HasSha(t, other) && t[other].artifactID == artifactID ==>
            !(t[id].sortOrder < t[other].sortOrder < sortOrder)
    {
      assert IsPrevious(t, artifactID, sortOrder, id);
      PreviousUnique(t, artifactID, sortOrder, id, Previous(t, artifactID, sortOrder).value);
    }
  }

  /** What a child decides from the table. */
  lemma DecideIff(git: Git, t: Table, child: Child, d: Decision)
    ensures
      var p := Previous(t, child.artifactID, child.sortOrder);
      Decide(git, t, child) == d <==> IsDecision(git, child, if p.Some? then t[p.value].commit else None, d)
  {
    var p := Previous(t, child.artifactID, child.sortOrder);
    DecisionIff(git, child, if p.Some? then t[p.value].commit else None, d);
  }

  // ---------- which commits are listed ----------

  /** The log of git is the capped walk over a commit graph for each clone; commit names the nodes. */
  ghost predicate LogWalks(git: Git, graph: string -> Walk.Graph, commit: string -> Walk.Hash) {
    forall path, from, to, cs: seq<Commit> :: git.log(path, from, to) == Some(cs) ==>
      WalkedFrom(graph(path), commit, from, to, cs)
  }

  ghost predicate WalkedFrom(g: Walk.Graph, commit: string -> Walk.Hash, from: string, to: string, cs: seq<Commit>) {
    exists fromLog: seq<Walk.Hash>, toLog: seq<Walk.Hash> ::
      && Walk.IsLog(g, commit(from), fromLog) && Walk.IsLog(g, commit(to), toLog)
      && Lists(commit, cs, Walk.Cut(Walk.Collected(fromLog, toLog)).commits)
  }

  predicate Lists(commit: string -> Walk.Hash, cs: seq<Commit>, hashes: seq<Walk.Hash>) {
    |cs| == |hashes| && forall k :: 0 <= k < |cs| ==> commit(cs[k].sha) == hashes[k]
  }

  /** Every listed commit is reachable from the newer commit and not from the older one. */
  ghost predicate OnlyNew(g: Walk.Graph, commit: string -> Walk.Hash, from: string, to: string,
                          summaries: seq<CommitSummary>) {
    forall k :: 0 <= k < |summaries| ==>
      commit(summaries[k].commit.sha) in Walk.Reach(g, commit(to)) - Walk.Reach(g, commit(from))
  }

  lemma ToldCommitsNew(g: Walk.Graph, commit: string -> Walk.Hash, from: string, to: string, cs: seq<Commit>,
                       summaries: seq<CommitSummary>, url: string)
    requires WalkedFrom(g, commit, from, to, cs) && Tells(summaries, cs, url)
    requires |Walk.Reach(g, commit(from))| <= 100_000 && |Walk.Reach(g, commit(to))| <= 100_000
    ensures OnlyNew(g, commit, from, to, summaries)
  {
    var fromLog: seq<Walk.Hash>, toLog: seq<Walk.Hash> :|
      Walk.IsLog(g, commit(from), fromLog) && Walk.IsLog(g, commit(to), toLog)
      && Lists(commit, cs, Walk.Cut(Walk.Collected(fromLog, toLog)).commits);
    Walk.ExactWithinLimit(g, commit(from), commit(to), fromLog, toLog);
    var all, hashes := Walk.Collected(fromLog, toLog), Walk.Cut(Walk.Collected(fromLog, toLog)).commits;
    forall k | 0 <= k < |summaries|
      ensures commit(summaries[k].commit.sha) in Walk.Reach(g, commit(to)) - Walk.Reach(g, commit(from))
    {
      assert hashes[k] == all[k] && all[k] in Elems(all);
      assert summaries[k].commit == cs[k];
    }
  }

  /** A stored main changelog lists only commits that the version has and its predecessor has not. */
  lemma MainCommitsNew(git: Git, graph: string -> Walk.Graph, commit: string -> Walk.Hash, child: Child,
                       previous: CommitInfo, path: string)
    requires LogWalks(git, graph, commit) && DecideFrom(git, child, Some(previous)).Store?
    requires previous.repository != "" && RepositoryOf(child, previous, previous.repository)
    requires git.resolve(previous.repository) == Some(path)
    requires |Walk.Reach(graph(path), commit(Sha(previous)))| <= 100_000
    requires |Walk.Reach(graph(path), commit(child.commitSha))| <= 100_000
    ensures OnlyNew(graph(path), commit, Sha(previous), child.commitSha,
                    DecideFrom(git, child, Some(previous)).changelog.commits)
  {
    var repo, d := previous.repository, DecideFrom(git, child, Some(previous));
    DecisionIff(git, child, Some(previous), d);
    RepositoryIs(child, previous, repo);
    assert forall r :: RepositoryOf(child, previous, r) ==> r == repo;
    assert MainTells(git, child, previous, repo, d.changelog.commits);
    var log := git.log(path, Sha(previous), child.commitSha);
    if log.Some? {
      assert WalkedFrom(graph(path), commit, Sha(previous), child.commitSha, log.value);
      ToldCommitsNew(graph(path), commit, Sha(previous), child.commitSha, log.value, d.changelog.commits, repo);
    }
  }

  /** So does the changelog of a submodule, from its earlier pin to the last one it moved to. */
  lemma SubmoduleCommitsNew(git: Git, graph: string -> Walk.Graph, commit: string -> Walk.Hash, repo: string,
                            sha: string, previous: seq<Pin>, pins: seq<Pin>, url: string, path: string)
    returns (i: nat)
    requires LogWalks(git, graph, commit) && PinnedAt(git, repo, sha, pins)
    requires Compute(git, repo, sha, previous, 0).Some? && url in Compute(git, repo, sha, previous, 0).value
    requires git.resolve(url) == Some(path)
    requires forall s :: |Walk.Reach(graph(path), commit(s))| <= 100_000
    ensures LastMoved(git, previous, pins, i) && pins[i].url == url
    ensures
      var entry := Compute(git, repo, sha, previous, 0).value[url];
      LastPin(previous, url, entry.previousVersion)
      && OnlyNew(graph(path), commit, entry.previousVersion, pins[i].sha, entry.commits)
  {
    var entry := Compute(git, repo, sha, previous, 0).value[url];
    PinsOfIs(git, repo, sha, pins);
    CollectYieldsEntry(git, previous, pins, 0, url);
    i :| IsEntry(git, previous, pins, i, url, entry, MAX_DEPTH);
    var cs :| Moved(git, previous, pins[i], entry.previousVersion, cs) && Tells(entry.commits, cs, url);
    assert WalkedFrom(graph(path), commit, entry.previousVersion, pins[i].sha, cs);
    ToldCommitsNew(graph(path), commit, entry.previousVersion, pins[i].sha, cs, entry.commits, url);
  }
}
