/** The changelog between two commits: GoGitReader.ComputeChangelog over an abstract commit graph.
    repo.Log is an oracle: it fails, or it enumerates the commits reachable from its root, each once. */
module ChangelogWalk {
  import opened Common

  type Hash = nat

  /** Parents of every commit of a repository. */
  type Graph = map<Hash, set<Hash>>

  const SAFETY_LIMIT: nat := 100_000
  const MAX_COMMITS: nat := 500

  // ---------- reachability ----------

  ghost predicate IsPath(g: Graph, p: seq<Hash>) {
    && p != [] && (forall i :: 0 <= i < |p| ==> p[i] in g)
    && forall i :: 0 <= i < |p| - 1 ==> p[i + 1] in g[p[i]]
  }

  ghost predicate Connects(g: Graph, p: seq<Hash>, a: Hash, b: Hash) {
    IsPath(g, p) && p[0] == a && p[|p| - 1] == b
  }

  ghost predicate Reaches(g: Graph, a: Hash, b: Hash) {
    exists p :: Connects(g, p, a, b)
  }

  /** A commit together with all its ancestors. */
  ghost function Reach(g: Graph, a: Hash): set<Hash> {
    set b | b in g && Reaches(g, a, b)
  }

  lemma ReachSelf(g: Graph, a: Hash)
    requires a in g
    ensures a in Reach(g, a)
  {
    assert Connects(g, [a], a, a);
  }

  lemma ReachTransitive(g: Graph, a: Hash, b: Hash)
    requires b in Reach(g, a)
    ensures Reach(g, b) <= Reach(g, a)
  {
    forall c | c in Reach(g, b) ensures c in Reach(g, a) {
      var p :| Connects(g, p, a, b);
      var q :| Connects(g, q, b, c);
      var r := p + q[1..];
      forall i | 0 <= i < |r| - 1 ensures r[i + 1] in g[r[i]] {
        if i < |p| - 1 {
          assert p[i + 1] in g[p[i]];
        } else {
          assert r[i + 1] == q[i - |p| + 2] && r[i] == q[i - |p| + 1];
        }
      }
      assert r[|r| - 1] == c;
      assert Connects(g, r, a, c);
    }
  }

  /** Nothing outside a set that holds the root and all parents of its members is reached. */
  lemma {:induction false} PathStaysInside(g: Graph, inside: set<Hash>, p: seq<Hash>)
    requires IsPath(g, p) && p[0] in inside
    requires forall c :: c in inside && c in g ==> g[c] <= inside
    ensures p[|p| - 1] in inside
  {
    if |p| > 1 {
      assert p[1] in g[p[0]];
      PathStaysInside(g, inside, p[1..]);
    }
  }

  lemma ReachInside(g: Graph, inside: set<Hash>, root: Hash)
    requires root in inside && forall c :: c in inside && c in g ==> g[c] <= inside
    ensures Reach(g, root) <= inside
  {
    forall c | c in Reach(g, root) ensures c in inside {
      var p :| Connects(g, p, root, c);
      PathStaysInside(g, inside, p);
    }
  }

  // ---------- the walk ----------

  /** What repo.Log promises. */
  ghost predicate IsLog(g: Graph, root: Hash, log: seq<Hash>) {
    Distinct(log) && Elems(log) == Reach(g, root)
  }

  function Excluding(log: seq<Hash>, excluded: set<Hash>): seq<Hash> {
    if log == [] then [] else (if log[0] in excluded then [] else [log[0]]) + Excluding(log[1..], excluded)
  }

  function Capped(log: seq<Hash>): seq<Hash> {
    log[..Min(SAFETY_LIMIT, |log|)]
  }

  /** The commits the walk collects before the result is cut. */
  function Collected(fromLog: seq<Hash>, toLog: seq<Hash>): seq<Hash> {
    Excluding(Capped(toLog), Elems(Capped(fromLog)))
  }

  datatype Changelog = Changelog(commits: seq<Hash>, truncated: bool)

  function Cut(commits: seq<Hash>): Changelog {
    if |commits| > MAX_COMMITS then Changelog(commits[..MAX_COMMITS], true) else Changelog(commits, false)
  }

  lemma {:induction false} ExcludingSplit(a: seq<Hash>, b: seq<Hash>, excluded: set<Hash>)
    ensures Excluding(a + b, excluded) == Excluding(a, excluded) + Excluding(b, excluded)
  {
    if a == [] {
      assert [] + b == b;
    } else {
      assert (a + b)[0] == a[0] && (a + b)[1..] == a[1..] + b;
      ExcludingSplit(a[1..], b, excluded);
    }
  }

  method BuildExcludeSet(log: seq<Hash>) returns (excludeSet: set<Hash>)
    requires Distinct(log)
    ensures excludeSet == Elems(Capped(log))
  {
    excludeSet := {};
    var i := 0;
    while i < |log|
      invariant 0 <= i <= |log| && i < SAFETY_LIMIT
      invariant excludeSet == Elems(log[..i]) && |excludeSet| == i
    {
      assert log[..i + 1] == log[..i] + [log[i]];
      assert log[i] !in log[..i];
      excludeSet := excludeSet + {log[i]};
      i := i + 1;
      if |excludeSet| >= SAFETY_LIMIT { break; }
    }
    assert log[..i] == Capped(log);
  }

  method ComputeChangelog(fromLog: Option<seq<Hash>>, toLog: Option<seq<Hash>>) returns (r: Result<Changelog>)
    requires fromLog.Some? ==> Distinct(fromLog.value)
    ensures r.Ok? <==> fromLog.Some? && toLog.Some?
    ensures r.Ok? ==> r.value == Cut(Collected(fromLog.value, toLog.value))
  {
    if fromLog.None? { return Err("building exclusion set"); }
    var excludeSet := BuildExcludeSet(fromLog.value);
    if toLog.None? { return Err("walking changelog"); }
    var log := toLog.value;
    var result: seq<Hash> := [];
    var visited, i := 0, 0;
    while i < |log|
      invariant 0 <= i <= |log| && i <= SAFETY_LIMIT && visited == i
      invariant result == Excluding(log[..i], excludeSet) && |result| <= MAX_COMMITS
    {
      visited := visited + 1;
      if visited > SAFETY_LIMIT { break; }
      var c := log[i];
      CollectOne(log, i, excludeSet);
      i := i + 1;
      if c in excludeSet { continue; }
      result := result + [c];
      if |result| > MAX_COMMITS { break; }
    }
    var seen := Capped(log);
    assert seen[..i] == log[..i] && seen == seen[..i] + seen[i..];
    ExcludingSplit(seen[..i], seen[i..], excludeSet);
    if |result| > MAX_COMMITS {
      return Ok(Changelog(result[..MAX_COMMITS], true));
    }
    assert seen[i..] == [];
    return Ok(Changelog(result, false));
  }

  lemma CollectOne(log: seq<Hash>, i: nat, excluded: set<Hash>)
    requires i < |log|
    ensures Excluding(log[..i + 1], excluded) ==
            Excluding(log[..i], excluded) + (if log[i] in excluded then [] else [log[i]])
  {
    assert log[..i + 1] == log[..i] + [log[i]];
    ExcludingSplit(log[..i], [log[i]], excluded);
    assert [log[i]][1..] == [];
  }

  // ---------- what the changelog means ----------

  lemma {:induction false} ExcludingMembers(log: seq<Hash>, excluded: set<Hash>)
    ensures forall c :: c in Excluding(log, excluded) <==> c in log && c !in excluded
    ensures Distinct(log) ==> Distinct(Excluding(log, excluded))
  {
    if log != [] {
      ExcludingMembers(log[1..], excluded);
      if Distinct(log) {
        assert forall i :: 0 <= i < |log[1..]| ==> log[1..][i] == log[i + 1];
      }
    }
  }

  predicate KeepsOrder(some: seq<Hash>, log: seq<Hash>) {
    forall i, j, x, y ::
      0 <= i < j < |some| && 0 <= x < |log| && 0 <= y < |log| && some[i] == log[x] && some[j] == log[y] ==> x < y
  }

  /** What is left of a walk keeps its order. */
  lemma {:induction false} InWalkOrder(log: seq<Hash>, excluded: set<Hash>, i: nat, j: nat, x: nat, y: nat)
    requires Distinct(log) && i < j < |Excluding(log, excluded)| && x < |log| && y < |log|
    requires Excluding(log, excluded)[i] == log[x] && Excluding(log, excluded)[j] == log[y]
    ensures x < y
  {
    var rest := log[1..];
    var k := if log[0] in excluded then 0 else 1;
    assert forall n :: k <= n < |Excluding(log, excluded)| ==>
      Excluding(log, excluded)[n] == Excluding(rest, excluded)[n - k];
    assert forall n :: 0 <= n < |rest| ==> rest[n] == log[n + 1];
    ExcludingMembers(rest, excluded);
    assert Excluding(log, excluded)[j] == Excluding(rest, excluded)[j - k];
    assert Excluding(rest, excluded)[j - k] in rest;
    if i >= k {
      assert Excluding(rest, excluded)[i - k] in rest;
      InWalkOrder(rest, excluded, i - k, j - k, x - 1, y - 1);
    }
  }

  lemma CollectedMembers(fromLog: seq<Hash>, toLog: seq<Hash>)
    requires Distinct(toLog)
    ensures Distinct(Collected(fromLog, toLog))
    ensures Elems(Collected(fromLog, toLog)) == Elems(Capped(toLog)) - Elems(Capped(fromLog))
    ensures |Collected(fromLog, toLog)| == |Elems(Capped(toLog)) - Elems(Capped(fromLog))|
  {
    ExcludingMembers(Capped(toLog), Elems(Capped(fromLog)));
    DistinctSize(Collected(fromLog, toLog));
  }

  /** Within the safety limit the collected commits are those reachable from the new commit and not from the old one,
      each once; the changelog holds the first 500 of them in walk order, and truncated says whether there are more. */
  lemma ExactWithinLimit(g: Graph, old_: Hash, new_: Hash, fromLog: seq<Hash>, toLog: seq<Hash>)
    requires IsLog(g, old_, fromLog) && IsLog(g, new_, toLog)
    requires |Reach(g, old_)| <= 100_000 && |Reach(g, new_)| <= 100_000
    ensures
      var all := Collected(fromLog, toLog);
      var log := Cut(all);
      && Distinct(all) && Elems(all) == Reach(g, new_) - Reach(g, old_)
      && (log.truncated <==> |Reach(g, new_) - Reach(g, old_)| > 500)
      && (if log.truncated then |log.commits| == 500 && log.commits <= all else log.commits == all)
      && KeepsOrder(all, toLog)
  {
    assert Capped(toLog) == toLog by { DistinctSize(toLog); }
    var all := Collected(fromLog, toLog);
    forall i, j, x, y | 0 <= i < j < |all| && 0 <= x < |toLog| && 0 <= y < |toLog|
                        && all[i] == toLog[x] && all[j] == toLog[y]
      ensures x < y
    {
      InWalkOrder(toLog, Elems(Capped(fromLog)), i, j, x, y);
    }
    DistinctSize(fromLog);
    DistinctSize(toLog);
    assert Capped(fromLog) == fromLog && Capped(toLog) == toLog;
    CollectedMembers(fromLog, toLog);
  }

  /** Nothing new hides behind the walk limit, and nothing walked hides behind the limit of the exclusion set. */
  predicate NothingBeyondLimits(fromLog: seq<Hash>, toLog: seq<Hash>) {
    && Elems(toLog[|Capped(toLog)|..]) <= Elems(fromLog)
    && Elems(fromLog[|Capped(fromLog)|..]) !! Elems(Capped(toLog))
  }

  lemma CollectedExactIff(g: Graph, old_: Hash, new_: Hash, fromLog: seq<Hash>, toLog: seq<Hash>)
    requires IsLog(g, old_, fromLog) && IsLog(g, new_, toLog)
    ensures Elems(Collected(fromLog, toLog)) == Reach(g, new_) - Reach(g, old_) <==> NothingBeyondLimits(fromLog, toLog)
  {
    CollectedMembers(fromLog, toLog);
    SplitElems(fromLog, |Capped(fromLog)|);
    SplitElems(toLog, |Capped(toLog)|);
    SetSplit(Elems(Capped(fromLog)), Elems(fromLog[|Capped(fromLog)|..]), Elems(Capped(toLog)),
      Elems(toLog[|Capped(toLog)|..]));
  }

  /** An untruncated changelog is complete and free of old commits exactly when nothing relevant lies beyond the
      limits. */
  lemma UntruncatedCompleteIff(g: Graph, old_: Hash, new_: Hash, fromLog: seq<Hash>, toLog: seq<Hash>)
    requires IsLog(g, old_, fromLog) && IsLog(g, new_, toLog)
    requires !Cut(Collected(fromLog, toLog)).truncated
    ensures Elems(Cut(Collected(fromLog, toLog)).commits) == Reach(g, new_) - Reach(g, old_)
       <==> NothingBeyondLimits(fromLog, toLog)
  {
    CollectedExactIff(g, old_, new_, fromLog, toLog);
  }

  lemma SetSplit<T>(f: set<T>, f': set<T>, t: set<T>, t': set<T>)
    requires f !! f' && t !! t'
    ensures t - f == (t + t') - (f + f') <==> t' <= f + f' && f' !! t
  {
    if t - f == (t + t') - (f + f') {
      forall x | x in t' ensures x in f + f' {
        assert x !in t - f;
      }
    }
  }

  lemma SplitElems(log: seq<Hash>, k: nat)
    requires Distinct(log) && k <= |log|
    ensures Elems(log) == Elems(log[..k]) + Elems(log[k..])
    ensures Elems(log[..k]) !! Elems(log[k..])
  {
    assert log == log[..k] + log[k..];
  }

  // ---------- beyond the limit ----------

  /** old is the newest commit of a line of 100000; new merges old with an ancient side branch. */
  function MergedHistory(): Graph {
    map c: Hash | 0 <= c < SAFETY_LIMIT + 2 && IsCommit(c) ::
      if c < SAFETY_LIMIT - 1 then {c + 1}
      else if c == SAFETY_LIMIT then {0, SAFETY_LIMIT + 1}
      else {}
  }

  predicate IsCommit(c: Hash) {
    c < SAFETY_LIMIT + 2
  }

  function Line(): seq<Hash> {
    seq(SAFETY_LIMIT, i => i)
  }

  lemma LineReached(c: Hash)
    requires c < SAFETY_LIMIT
    ensures c in Reach(MergedHistory(), 0)
  {
    var p := seq(c + 1, i requires 0 <= i <= c => i);
    assert forall i :: 0 <= i <= c ==> IsCommit(p[i]);
    assert Connects(MergedHistory(), p, 0, c);
  }

  lemma LineIsLog()
    ensures IsLog(MergedHistory(), 0, Line())
  {
    var g, line := MergedHistory(), Elems(Line());
    LineMembers();
    ReachInside(g, line, 0);
    forall c | c in line ensures c in Reach(g, 0) { LineReached(c); }
  }

  /** The walk meets the new commit, then the line, and the side branch last. */
  function MergedLog(): seq<Hash> {
    [SAFETY_LIMIT] + Line() + [SAFETY_LIMIT + 1]
  }

  lemma MergedIsLog()
    ensures IsLog(MergedHistory(), SAFETY_LIMIT, MergedLog())
  {
    var g, log := MergedHistory(), MergedLog();
    forall c: Hash ensures c in log <==> c in g {
      assert c in g <==> IsCommit(c);
      if c in g {
        assert log[if c == SAFETY_LIMIT then 0 else if c < SAFETY_LIMIT then c + 1 else c] == c;
      }
    }
    assert IsCommit(0) && IsCommit(SAFETY_LIMIT) && IsCommit(SAFETY_LIMIT + 1);
    forall c | c in g ensures c in Reach(g, SAFETY_LIMIT) {
      assert Connects(g, [SAFETY_LIMIT, 0], SAFETY_LIMIT, 0);
      ReachTransitive(g, SAFETY_LIMIT, 0);
      if c < SAFETY_LIMIT {
        LineReached(c);
      } else if c == SAFETY_LIMIT {
        ReachSelf(g, c);
      } else {
        assert Connects(g, [SAFETY_LIMIT, c], SAFETY_LIMIT, c);
      }
    }
    assert Elems(log) == Reach(g, SAFETY_LIMIT);
  }

  lemma LineMembers()
    ensures forall c: Hash :: c in Elems(Line()) <==> c < SAFETY_LIMIT
  {
    forall c: Hash ensures c in Elems(Line()) <==> c < SAFETY_LIMIT {
      if c < SAFETY_LIMIT { assert Line()[c] == c; }
    }
  }

  lemma SeenOfMerged()
    ensures |Capped(MergedLog())| == SAFETY_LIMIT && Capped(MergedLog())[0] == SAFETY_LIMIT
    ensures forall i :: 1 <= i < SAFETY_LIMIT ==> Capped(MergedLog())[i] == i - 1
  {
  }

  lemma MergedDifference()
    ensures Elems(Capped(MergedLog())) - Elems(Capped(Line())) == {SAFETY_LIMIT}
  {
    SeenOfMerged();
    LineMembers();
    assert Capped(Line()) == Line();
    var seen, line := Capped(MergedLog()), Elems(Line());
    assert seen[0] in Elems(seen) && SAFETY_LIMIT !in line;
    forall c | c in Elems(seen) && c !in line ensures c == SAFETY_LIMIT {
      var i :| 0 <= i < |seen| && seen[i] == c;
    }
  }

  lemma MergedCollected()
    ensures Elems(Collected(Line(), MergedLog())) == {SAFETY_LIMIT} && Distinct(Collected(Line(), MergedLog()))
  {
    MergedIsLog();
    MergedDifference();
    CollectedMembers(Line(), MergedLog());
  }

  /** Beyond the limit truncated = false does not mean complete: the side branch is missing. */
  lemma IncompleteBeyondLimit()
    ensures IsLog(MergedHistory(), 0, Line()) && IsLog(MergedHistory(), SAFETY_LIMIT, MergedLog())
    ensures
      var log := Cut(Collected(Line(), MergedLog()));
      && !log.truncated && SAFETY_LIMIT + 1 !in log.commits
      && SAFETY_LIMIT + 1 in Reach(MergedHistory(), SAFETY_LIMIT) - Reach(MergedHistory(), 0)
  {
    LineIsLog();
    MergedIsLog();
    MergedCollected();
    DistinctSize(Collected(Line(), MergedLog()));
    assert SAFETY_LIMIT + 1 !in Elems(Collected(Line(), MergedLog()));
    assert MergedLog()[SAFETY_LIMIT + 1] in Elems(MergedLog());
    assert SAFETY_LIMIT + 1 !in Elems(Line());
  }

  // ---------- telescoping along a chain of versions ----------

  /** What repo.Log says of each version of a chain. */
  ghost predicate ChainLogs(g: Graph, chain: seq<Hash>, logs: seq<seq<Hash>>) {
    |logs| == |chain| > 1 && forall i :: 0 <= i < |chain| ==> IsLog(g, chain[i], logs[i])
  }

  /** The changelog of version i + 1 against version i. */
  function Neighbour(logs: seq<seq<Hash>>, i: nat): Changelog
    requires i + 1 < |logs|
  {
    Cut(Collected(logs[i], logs[i + 1]))
  }

  /** The walk limits hide nothing between neighbours. */
  predicate LimitsSuffice(logs: seq<seq<Hash>>, i: nat)
    requires i + 1 < |logs|
  {
    NothingBeyondLimits(logs[i], logs[i + 1])
  }

  /** What version i + 1 adds to version i. */
  ghost function Delta(g: Graph, chain: seq<Hash>, i: nat): set<Hash>
    requires i + 1 < |chain|
  {
    Reach(g, chain[i + 1]) - Reach(g, chain[i])
  }

  /** A neighbour's changelog lists what the version adds, each commit once, and all of it exactly if it is not
      truncated. */
  lemma NeighbourLists(g: Graph, chain: seq<Hash>, logs: seq<seq<Hash>>, i: nat)
    requires ChainLogs(g, chain, logs) && i + 1 < |chain| && LimitsSuffice(logs, i)
    ensures Distinct(Neighbour(logs, i).commits) && Elems(Neighbour(logs, i).commits) <= Delta(g, chain, i)
    ensures Elems(Neighbour(logs, i).commits) == Delta(g, chain, i) <==> !Neighbour(logs, i).truncated
  {
    var all, listed := Collected(logs[i], logs[i + 1]), Neighbour(logs, i).commits;
    CollectedExactIff(g, chain[i], chain[i + 1], logs[i], logs[i + 1]);
    CollectedMembers(logs[i], logs[i + 1]);
    assert listed == all[..|listed|];
    DistinctSize(all);
    DistinctSize(listed);
  }

  lemma {:induction false} SomeDelta(g: Graph, chain: seq<Hash>, c: Hash) returns (i: nat)
    requires |chain| > 1 && c in Reach(g, chain[|chain| - 1]) - Reach(g, chain[0])
    ensures i + 1 < |chain| && c in Delta(g, chain, i)
  {
    if c !in Reach(g, chain[|chain| - 2]) {
      i := |chain| - 2;
    } else {
      i := SomeDelta(g, chain[..|chain| - 1], c);
    }
  }

  /** Whatever the last version has and the first has not is listed in some neighbour's changelog,
      unless that changelog says that it is truncated or a walk limit hid something from it. */
  lemma ChangelogsCover(g: Graph, chain: seq<Hash>, logs: seq<seq<Hash>>, c: Hash) returns (i: nat)
    requires ChainLogs(g, chain, logs) && c in Reach(g, chain[|chain| - 1]) - Reach(g, chain[0])
    ensures i + 1 < |chain|
    ensures c in Neighbour(logs, i).commits || Neighbour(logs, i).truncated || !LimitsSuffice(logs, i)
  {
    i := SomeDelta(g, chain, c);
    if LimitsSuffice(logs, i) {
      NeighbourLists(g, chain, logs, i);
      assert Neighbour(logs, i).truncated || c in Elems(Neighbour(logs, i).commits);
    }
  }

  ghost predicate AncestorChain(g: Graph, chain: seq<Hash>) {
    forall i :: 0 <= i < |chain| - 1 ==> chain[i] in Reach(g, chain[i + 1])
  }

  lemma {:induction false} AncestorsGrow(g: Graph, chain: seq<Hash>, i: nat, j: nat)
    requires AncestorChain(g, chain) && i <= j < |chain|
    ensures Reach(g, chain[i]) <= Reach(g, chain[j])
    decreases j - i
  {
    if i < j {
      ReachTransitive(g, chain[i + 1], chain[i]);
      AncestorsGrow(g, chain, i + 1, j);
    }
  }

  lemma DeltasDisjoint(g: Graph, chain: seq<Hash>, i: nat, j: nat)
    requires AncestorChain(g, chain) && i < j && j + 1 < |chain|
    ensures Delta(g, chain, i) !! Delta(g, chain, j)
  {
    AncestorsGrow(g, chain, i + 1, j);
  }

  lemma DeltaAdded(g: Graph, chain: seq<Hash>, i: nat)
    requires AncestorChain(g, chain) && i + 1 < |chain|
    ensures Delta(g, chain, i) <= Reach(g, chain[|chain| - 1]) - Reach(g, chain[0])
  {
    AncestorsGrow(g, chain, 0, i);
    AncestorsGrow(g, chain, i + 1, |chain| - 1);
  }

  /** The commits that some neighbour's changelog lists. */
  function Listed(logs: seq<seq<Hash>>): set<Hash> {
    if |logs| < 2 then {} else Listed(logs[..|logs| - 1]) + Elems(Neighbour(logs, |logs| - 2).commits)
  }

  lemma {:induction false} ListedIs(logs: seq<seq<Hash>>, c: Hash)
    ensures c in Listed(logs) <==> exists i :: 0 <= i < |logs| - 1 && c in Neighbour(logs, i).commits
  {
    if |logs| >= 2 {
      var init := logs[..|logs| - 1];
      ListedIs(init, c);
      assert forall i :: 0 <= i < |init| - 1 ==> Neighbour(init, i) == Neighbour(logs, i);
      if c in Neighbour(logs, |logs| - 2).commits {
        assert c in Elems(Neighbour(logs, |logs| - 2).commits);
      }
    }
  }

  /** A truncated changelog leaves out a commit that no other neighbour's changelog lists. */
  lemma TruncatedLosesCommit(g: Graph, chain: seq<Hash>, logs: seq<seq<Hash>>, i: nat) returns (c: Hash)
    requires AncestorChain(g, chain) && ChainLogs(g, chain, logs)
    requires forall k :: 0 <= k < |chain| - 1 ==> LimitsSuffice(logs, k)
    requires i + 1 < |chain| && Neighbour(logs, i).truncated
    ensures c in Reach(g, chain[|chain| - 1]) - Reach(g, chain[0]) && c !in Listed(logs)
  {
    NeighbourLists(g, chain, logs, i);
    assert exists d :: d in Delta(g, chain, i) && d !in Elems(Neighbour(logs, i).commits);
    c :| c in Delta(g, chain, i) && c !in Elems(Neighbour(logs, i).commits);
    DeltaAdded(g, chain, i);
    ListedIs(logs, c);
    if k :| 0 <= k < |logs| - 1 && c in Neighbour(logs, k).commits {
      NeighbourLists(g, chain, logs, k);
      assert c in Elems(Neighbour(logs, k).commits);
      DeltasDisjoint(g, chain, if i < k then i else k, if i < k then k else i);
    }
  }

  /** On an ancestor chain whose walks the limits do not disturb, neighbours' changelogs are disjoint and list only
      what the last version adds to the first; together they list all of it if and only if none is truncated. */
  lemma ChangelogsPartition(g: Graph, chain: seq<Hash>, logs: seq<seq<Hash>>)
    requires AncestorChain(g, chain) && ChainLogs(g, chain, logs)
    requires forall i :: 0 <= i < |chain| - 1 ==> LimitsSuffice(logs, i)
    ensures forall i, j :: 0 <= i < j < |chain| - 1 ==>
      Elems(Neighbour(logs, i).commits) !! Elems(Neighbour(logs, j).commits)
    ensures Listed(logs) <= Reach(g, chain[|chain| - 1]) - Reach(g, chain[0])
    ensures Listed(logs) == Reach(g, chain[|chain| - 1]) - Reach(g, chain[0])
       <==> forall i :: 0 <= i < |chain| - 1 ==> !Neighbour(logs, i).truncated
  {
    var added := Reach(g, chain[|chain| - 1]) - Reach(g, chain[0]);
    forall i, j | 0 <= i < j < |chain| - 1
      ensures Elems(Neighbour(logs, i).commits) !! Elems(Neighbour(logs, j).commits) {
      NeighbourLists(g, chain, logs, i);
      NeighbourLists(g, chain, logs, j);
      DeltasDisjoint(g, chain, i, j);
    }
    forall c | c in Listed(logs) ensures c in added {
      ListedIs(logs, c);
      var i :| 0 <= i < |logs| - 1 && c in Neighbour(logs, i).commits;
      NeighbourLists(g, chain, logs, i);
      assert c in Elems(Neighbour(logs, i).commits);
      DeltaAdded(g, chain, i);
    }
    if i :| 0 <= i < |chain| - 1 && Neighbour(logs, i).truncated {
      var c := TruncatedLosesCommit(g, chain, logs, i);
    } else {
      forall c | c in added ensures c in Listed(logs) {
        var i := ChangelogsCover(g, chain, logs, c);
        ListedIs(logs, c);
      }
    }
  }
}
