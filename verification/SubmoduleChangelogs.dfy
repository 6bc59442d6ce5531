/** Recursive submodule changelogs (computeSubmoduleChangelogsWithDepth) over an arbitrary git oracle. */
module SubmoduleChangelogs {
  import opened Common

  const MAX_DEPTH: nat := 3

  /** A submodule pinned to a commit. */
  datatype Pin = Pin(url: string, sha: string)

  datatype Commit = Commit(sha: string, message: string, authorName: string, authorEmail: string, commitDate: string)

  datatype CommitSummary = CommitSummary(commit: Commit, url: string)

  /** submodules is None where the source leaves the map nil. */
  datatype Changelog = Changelog(
    previousVersion: string, commits: seq<CommitSummary>, submodules: Option<map<string, Changelog>>)

  /** The git cache: where a repository is, what a commit pins, and the log between two commits. None is an error. */
  datatype Git = Git(
    resolve: string -> Option<string>,
    submodulesAt: (string, string) -> Option<seq<Pin>>,
    log: (string, string, string) -> Option<seq<Commit>>)

  // ---------- commit links ----------

  function TrimSlashes(s: string): string {
    if s != "" && s[|s| - 1] == '/' then TrimSlashes(s[..|s| - 1]) else s
  }

  function CommitURL(repo: string, sha: string): string {
    var base := TrimSlashes(repo);
    var stem := if |base| >= 4 && base[|base| - 4..] == ".git" then base[..|base| - 4] else base;
    stem + "/commit/" + sha
  }

  function Summaries(commits: seq<Commit>, repo: string): (s: seq<CommitSummary>)
    ensures |s| == |commits|
    ensures forall i :: 0 <= i < |s| ==> s[i].commit == commits[i]
  {
    seq(|commits|, i requires 0 <= i < |commits| => CommitSummary(commits[i], CommitURL(repo, commits[i].sha)))
  }

  // ---------- specification ----------

  /** The last pin of a repository counts. */
  function PinnedSHAs(pins: seq<Pin>): map<string, string> {
    if pins == [] then map[]
    else PinnedSHAs(pins[..|pins| - 1])[pins[|pins| - 1].url := pins[|pins| - 1].sha]
  }

  function OrEmpty(pins: Option<seq<Pin>>): seq<Pin> {
    match pins case Some(p) => p case None => []
  }

  /** The log of a submodule that is pinned before and after, moved, and has new commits. */
  function MovedLog(git: Git, previous: map<string, string>, pin: Pin): Option<seq<Commit>> {
    if pin.url !in previous || previous[pin.url] == pin.sha then None
    else
      match git.resolve(pin.url)
      case None => None
      case Some(path) =>
        match git.log(path, previous[pin.url], pin.sha)
        case None => None
        case Some(commits) => if commits == [] then None else Some(commits)
  }

  /** What the submodule itself pins at a commit. */
  function PinsOf(git: Git, url: string, sha: string): seq<Pin> {
    match git.resolve(url)
    case None => []
    case Some(path) => OrEmpty(git.submodulesAt(path, sha))
  }

  function Nested(git: Git, previous: map<string, string>, pin: Pin, depth: nat): Option<map<string, Changelog>>
    requires depth < MAX_DEPTH && pin.url in previous
    decreases MAX_DEPTH - depth, 0
  {
    var was := PinsOf(git, pin.url, previous[pin.url]);
    if PinsOf(git, pin.url, pin.sha) == [] || was == [] then None
    else Compute(git, pin.url, pin.sha, was, depth + 1)
  }

  function Collect(git: Git, previous: map<string, string>, pins: seq<Pin>, depth: nat): map<string, Changelog>
    requires depth < MAX_DEPTH
    decreases MAX_DEPTH - depth, 1, |pins|
  {
    if pins == [] then map[]
    else
      var pin := pins[|pins| - 1];
      var result := Collect(git, previous, pins[..|pins| - 1], depth);
      match MovedLog(git, previous, pin)
      case None => result
      case Some(commits) =>
        result[pin.url := Changelog(previous[pin.url], Summaries(commits, pin.url), Nested(git, previous, pin, depth))]
  }

  function Compute(git: Git, repo: string, sha: string, previous: seq<Pin>, depth: nat): Option<map<string, Changelog>>
    decreases if depth >= MAX_DEPTH then 0 else MAX_DEPTH - depth, 2
  {
    if depth >= MAX_DEPTH || previous == [] then None
    else
      match git.resolve(repo)
      case None => None
      case Some(path) =>
        match git.submodulesAt(path, sha)
        case None => None
        case Some(pins) =>
          var result := Collect(git, PinnedSHAs(previous), pins, depth);
          if result == map[] then None else Some(result)
  }

  // ---------- the recursion as the source runs it ----------

  method BuildPinnedSHAs(pins: seq<Pin>) returns (m: map<string, string>)
    ensures m == PinnedSHAs(pins)
  {
    m := map[];
    for i := 0 to |pins|
      invariant m == PinnedSHAs(pins[..i])
    {
      assert pins[..i + 1][..i] == pins[..i];
      m := m[pins[i].url := pins[i].sha];
    }
    assert pins[..|pins|] == pins;
  }

  method ComputeSubmoduleChangelogs(git: Git, repo: string, sha: string, previous: seq<Pin>, depth: nat)
    returns (r: Option<map<string, Changelog>>)
    ensures r == Compute(git, repo, sha, previous, depth)
    decreases if depth >= MAX_DEPTH then 0 else MAX_DEPTH - depth, 2
  {
    if depth >= MAX_DEPTH { return None; }
    if previous == [] { return None; }
    var prevSHAs := BuildPinnedSHAs(previous);
    var clone := git.resolve(repo);
    if clone.None? { return None; }
    var current := git.submodulesAt(clone.value, sha);
    if current.None? { return None; }
    var pins := current.value;
    var result: map<string, Changelog> := map[];
    for i := 0 to |pins|
      invariant result == Collect(git, prevSHAs, pins[..i], depth)
    {
      var pin := pins[i];
      assert pins[..i + 1][..i] == pins[..i];
      if pin.url !in prevSHAs || prevSHAs[pin.url] == pin.sha { continue; }
      var subClone := git.resolve(pin.url);
      if subClone.None? { continue; }
      var commits := git.log(subClone.value, prevSHAs[pin.url], pin.sha);
      if commits.None? { continue; }
      if |commits.value| > 0 {
        var nested := ComputeNested(git, subClone.value, prevSHAs, pin, depth);
        result := result[pin.url := Changelog(prevSHAs[pin.url], Summaries(commits.value, pin.url), nested)];
      }
    }
    assert pins[..|pins|] == pins;
    if result == map[] { return None; }
    return Some(result);
  }

  method ComputeNested(git: Git, path: string, prevSHAs: map<string, string>, pin: Pin, depth: nat)
    returns (nested: Option<map<string, Changelog>>)
    requires depth < MAX_DEPTH && pin.url in prevSHAs && git.resolve(pin.url) == Some(path)
    ensures nested == Nested(git, prevSHAs, pin, depth)
    decreases MAX_DEPTH - depth, 1
  {
    nested := None;
    var pins := OrEmpty(git.submodulesAt(path, pin.sha));
    if |pins| > 0 {
      var was := OrEmpty(git.submodulesAt(path, prevSHAs[pin.url]));
      if |was| > 0 {
        nested := ComputeSubmoduleChangelogs(git, pin.url, pin.sha, was, depth + 1);
      }
    }
  }

  // ---------- what the tree is, told by the oracle ----------

  /** The last pin of url is at this sha. */
  ghost predicate LastPin(pins: seq<Pin>, url: string, sha: string) {
    exists i :: LastPinAt(pins, i, url, sha)
  }

  predicate LastPinAt(pins: seq<Pin>, i: nat, url: string, sha: string) {
    i < |pins| && pins[i] == Pin(url, sha) && forall j :: i < j < |pins| ==> pins[j].url != url
  }

  /** A submodule was at commit was, is pinned to another one, and its log from there to here is this, not empty. */
  ghost predicate Moved(git: Git, previous: seq<Pin>, pin: Pin, was: string, commits: seq<Commit>) {
    && LastPin(previous, pin.url, was) && was != pin.sha && commits != []
    && exists path :: git.resolve(pin.url) == Some(path) && git.log(path, was, pin.sha) == Some(commits)
  }

  ghost predicate Moves(git: Git, previous: seq<Pin>, pin: Pin) {
    exists was, commits :: Moved(git, previous, pin, was, commits)
  }

  /** A commit of a repository pins these submodules. */
  ghost predicate PinnedAt(git: Git, repo: string, sha: string, pins: seq<Pin>) {
    exists path :: git.resolve(repo) == Some(path) && git.submodulesAt(path, sha) == Some(pins)
  }

  ghost predicate Listed(git: Git, previous: seq<Pin>, pins: seq<Pin>, url: string) {
    exists pin :: pin in pins && pin.url == url && Moves(git, previous, pin)
  }

  /** Pin i is the last one of its repository that moved. */
  ghost predicate LastMoved(git: Git, previous: seq<Pin>, pins: seq<Pin>, i: nat) {
    && i < |pins| && Moves(git, previous, pins[i])
    && forall j :: i < j < |pins| && pins[j].url == pins[i].url ==> !Moves(git, previous, pins[j])
  }

  /** The commits of a log in order, each with its link. */
  predicate Tells(summaries: seq<CommitSummary>, commits: seq<Commit>, url: string) {
    && |summaries| == |commits|
    && forall k :: 0 <= k < |commits| ==>
         summaries[k].commit == commits[k] && summaries[k].url == CommitURL(url, commits[k].sha)
  }

  /** m tells, for a commit of repo and the pins of an earlier one, exactly the submodules that moved: where each was,
      the log of its last move, and in turn the tree below it, within the height. */
  ghost predicate IsTree(git: Git, repo: string, sha: string, previous: seq<Pin>, m: map<string, Changelog>,
                         height: nat)
    decreases height, 2
  {
    height > 0 && m != map[]
    && exists pins: seq<Pin> :: PinnedAt(git, repo, sha, pins) && TellsMoves(git, previous, pins, m, height)
  }

  ghost predicate TellsMoves(git: Git, previous: seq<Pin>, pins: seq<Pin>, m: map<string, Changelog>, height: nat)
    requires height > 0
    decreases height, 1, 1
  {
    && (forall url :: url in m <==> Listed(git, previous, pins, url))
    && forall url :: url in m ==> HasEntry(git, previous, pins, url, m[url], height)
  }

  ghost predicate HasEntry(git: Git, previous: seq<Pin>, pins: seq<Pin>, url: string, c: Changelog, height: nat)
    requires height > 0
    decreases height, 1, 0
  {
    exists i: nat :: IsEntry(git, previous, pins, i, url, c, height)
  }

  ghost predicate IsEntry(git: Git, previous: seq<Pin>, pins: seq<Pin>, i: nat, url: string, c: Changelog, height: nat)
    requires height > 0
    decreases height, 0
  {
    && LastMoved(git, previous, pins, i) && pins[i].url == url
    && (exists commits :: Moved(git, previous, pins[i], c.previousVersion, commits) && Tells(c.commits, commits, url))
    && match c.submodules
       case Some(below) =>
         exists was: seq<Pin> :: PinnedAt(git, url, c.previousVersion, was)
                                 && IsTree(git, url, pins[i].sha, was, below, height - 1)
       case None => height == 1 || NothingListed(git, url, pins[i].sha, c.previousVersion)
  }

  /** Between two commits of a repository no submodule moved, or one of them pins none. */
  ghost predicate NothingListed(git: Git, url: string, sha: string, previousSha: string) {
    forall was, pins, u :: PinnedAt(git, url, previousSha, was) && PinnedAt(git, url, sha, pins) ==>
      !Listed(git, was, pins, u)
  }

  // ---------- the parts ----------

  lemma {:induction false} PinnedIsLast(pins: seq<Pin>, url: string)
    ensures url in PinnedSHAs(pins) ==> LastPin(pins, url, PinnedSHAs(pins)[url])
    ensures url !in PinnedSHAs(pins) ==> forall i :: 0 <= i < |pins| ==> pins[i].url != url
  {
    if pins != [] {
      var init, last := pins[..|pins| - 1], pins[|pins| - 1];
      PinnedIsLast(init, url);
      if last.url == url {
        assert LastPinAt(pins, |pins| - 1, url, last.sha);
      } else if url in PinnedSHAs(init) {
        var i :| LastPinAt(init, i, url, PinnedSHAs(init)[url]);
        assert LastPinAt(pins, i, url, PinnedSHAs(init)[url]);
      }
    }
  }

  lemma LastPinUnique(pins: seq<Pin>, url: string, a: string, b: string)
    requires LastPin(pins, url, a) && LastPin(pins, url, b)
    ensures a == b
  {
  }

  lemma PinnedIff(pins: seq<Pin>, url: string, sha: string)
    ensures LastPin(pins, url, sha) <==> url in PinnedSHAs(pins) && PinnedSHAs(pins)[url] == sha
  {
    PinnedIsLast(pins, url);
    if LastPin(pins, url, sha) && url in PinnedSHAs(pins) {
      LastPinUnique(pins, url, sha, PinnedSHAs(pins)[url]);
    }
  }

  lemma PinnedIsPin(pins: seq<Pin>, url: string)
    requires url in PinnedSHAs(pins)
    ensures Pin(url, PinnedSHAs(pins)[url]) in pins
  {
    PinnedIsLast(pins, url);
  }

  lemma MovedLogIff(git: Git, previous: seq<Pin>, pin: Pin, was: string, commits: seq<Commit>)
    ensures Moved(git, previous, pin, was, commits) <==>
            MovedLog(git, PinnedSHAs(previous), pin) == Some(commits) && PinnedSHAs(previous)[pin.url] == was
  {
    PinnedIff(previous, pin.url, was);
  }

  lemma MovesIff(git: Git, previous: seq<Pin>, pin: Pin)
    ensures Moves(git, previous, pin) <==> MovedLog(git, PinnedSHAs(previous), pin).Some?
  {
    var log := MovedLog(git, PinnedSHAs(previous), pin);
    if log.Some? {
      MovedLogIff(git, previous, pin, PinnedSHAs(previous)[pin.url], log.value);
    }
    if was, commits :| Moved(git, previous, pin, was, commits) {
      MovedLogIff(git, previous, pin, was, commits);
    }
  }

  lemma {:induction false} CollectListed(git: Git, previous: seq<Pin>, pins: seq<Pin>, depth: nat, url: string)
    requires depth < MAX_DEPTH
    ensures url in Collect(git, PinnedSHAs(previous), pins, depth) <==> Listed(git, previous, pins, url)
    decreases |pins|
  {
    if pins != [] {
      var init, last := pins[..|pins| - 1], pins[|pins| - 1];
      CollectListed(git, previous, init, depth, url);
      MovesIff(git, previous, last);
      assert forall p :: p in pins <==> p in init || p == last;
    }
  }

  lemma {:induction false} CollectEntry(git: Git, previous: seq<Pin>, pins: seq<Pin>, depth: nat, url: string)
    returns (i: nat)
    requires depth < MAX_DEPTH && url in Collect(git, PinnedSHAs(previous), pins, depth)
    ensures LastMoved(git, previous, pins, i) && pins[i].url == url
    ensures MovedLog(git, PinnedSHAs(previous), pins[i]).Some?
    ensures Collect(git, PinnedSHAs(previous), pins, depth)[url] ==
            Changelog(PinnedSHAs(previous)[url],
                      Summaries(MovedLog(git, PinnedSHAs(previous), pins[i]).value, url),
                      Nested(git, PinnedSHAs(previous), pins[i], depth))
    decreases |pins|
  {
    var init, last := pins[..|pins| - 1], pins[|pins| - 1];
    MovesIff(git, previous, last);
    if last.url == url && MovedLog(git, PinnedSHAs(previous), last).Some? {
      i := |pins| - 1;
    } else {
      i := CollectEntry(git, previous, init, depth, url);
      assert init[i] == pins[i];
      forall j | i < j < |pins| && pins[j].url == pins[i].url ensures !Moves(git, previous, pins[j]) {
        if j < |init| { assert init[j] == pins[j]; }
      }
    }
  }

  lemma PinsOfIs(git: Git, url: string, sha: string, pins: seq<Pin>)
    ensures PinnedAt(git, url, sha, pins) ==> PinsOf(git, url, sha) == pins
    ensures PinsOf(git, url, sha) != [] ==> PinnedAt(git, url, sha, PinsOf(git, url, sha))
  {
  }

  lemma NothingComputed(git: Git, url: string, sha: string, previousSha: string, depth: nat)
    requires depth < MAX_DEPTH
    requires PinsOf(git, url, sha) == [] || Compute(git, url, sha, PinsOf(git, url, previousSha), depth).None?
    ensures NothingListed(git, url, sha, previousSha)
  {
    forall was, pins, u | PinnedAt(git, url, previousSha, was) && PinnedAt(git, url, sha, pins)
      ensures !Listed(git, was, pins, u)
    {
      PinsOfIs(git, url, sha, pins);
      PinsOfIs(git, url, previousSha, was);
      CollectListed(git, was, pins, depth, u);
      if was == [] { NoneMoved(git, pins, u); }
    }
  }

  lemma NoneMoved(git: Git, pins: seq<Pin>, u: string)
    ensures !Listed(git, [], pins, u)
  {
  }

  // ---------- the computed tree ----------

  /** What an entry says about its submodule, and what hangs below it. */
  lemma EntryIs(git: Git, previous: seq<Pin>, pins: seq<Pin>, i: nat, c: Changelog, depth: nat)
    requires depth < MAX_DEPTH && i < |pins| && MovedLog(git, PinnedSHAs(previous), pins[i]).Some?
    requires c == Changelog(PinnedSHAs(previous)[pins[i].url],
                            Summaries(MovedLog(git, PinnedSHAs(previous), pins[i]).value, pins[i].url),
                            Nested(git, PinnedSHAs(previous), pins[i], depth))
    ensures exists commits :: Moved(git, previous, pins[i], c.previousVersion, commits)
                              && Tells(c.commits, commits, pins[i].url)
    ensures c.submodules.None? && depth + 1 < MAX_DEPTH ==>
              NothingListed(git, pins[i].url, pins[i].sha, c.previousVersion)
    ensures c.submodules.Some? ==>
      var was := PinsOf(git, pins[i].url, c.previousVersion);
      && PinnedAt(git, pins[i].url, c.previousVersion, was)
      && c.submodules == Compute(git, pins[i].url, pins[i].sha, was, depth + 1)
  {
    var commits := MovedLog(git, PinnedSHAs(previous), pins[i]).value;
    MovedLogIff(git, previous, pins[i], c.previousVersion, commits);
    assert Tells(Summaries(commits, pins[i].url), commits, pins[i].url);
    if c.submodules.None? && depth + 1 < MAX_DEPTH {
      if PinsOf(git, pins[i].url, c.previousVersion) == [] {
        assert Compute(git, pins[i].url, pins[i].sha, [], depth + 1).None?;
      }
      NothingComputed(git, pins[i].url, pins[i].sha, c.previousVersion, depth + 1);
    }
  }

  /** For every git oracle, cyclic submodule graphs included: the recursion ends within the depth left,
      and whatever it returns is the tree. */
  lemma {:induction false} ComputeYieldsTree(git: Git, repo: string, sha: string, previous: seq<Pin>, depth: nat)
    ensures depth >= MAX_DEPTH ==> Compute(git, repo, sha, previous, depth).None?
    ensures Compute(git, repo, sha, previous, depth).Some? ==>
      IsTree(git, repo, sha, previous, Compute(git, repo, sha, previous, depth).value, MAX_DEPTH - depth)
    decreases if depth >= MAX_DEPTH then 0 else MAX_DEPTH - depth, 1
  {
    var r := Compute(git, repo, sha, previous, depth);
    if r.Some? {
      var pins := PinsOf(git, repo, sha);
      assert r.value == Collect(git, PinnedSHAs(previous), pins, depth);
      forall url ensures url in r.value <==> Listed(git, previous, pins, url) {
        CollectListed(git, previous, pins, depth, url);
      }
      forall url | url in r.value ensures HasEntry(git, previous, pins, url, r.value[url], MAX_DEPTH - depth) {
        CollectYieldsEntry(git, previous, pins, depth, url);
      }
      assert PinnedAt(git, repo, sha, pins) && TellsMoves(git, previous, pins, r.value, MAX_DEPTH - depth);
    }
  }

  lemma {:induction false} CollectYieldsEntry(git: Git, previous: seq<Pin>, pins: seq<Pin>, depth: nat, url: string)
    requires depth < MAX_DEPTH && url in Collect(git, PinnedSHAs(previous), pins, depth)
    ensures HasEntry(git, previous, pins, url, Collect(git, PinnedSHAs(previous), pins, depth)[url], MAX_DEPTH - depth)
    decreases MAX_DEPTH - depth, 0
  {
    var c := Collect(git, PinnedSHAs(previous), pins, depth)[url];
    var i := CollectEntry(git, previous, pins, depth, url);
    EntryIs(git, previous, pins, i, c, depth);
    ComputeYieldsTree(git, url, pins[i].sha, PinsOf(git, url, c.previousVersion), depth + 1);
    assert IsEntry(git, previous, pins, i, url, c, MAX_DEPTH - depth);
  }

  // ---------- there is only one tree ----------

  lemma MovedUnique(git: Git, previous: seq<Pin>, pin: Pin, a: string, b: string, cs: seq<Commit>, ds: seq<Commit>)
    requires Moved(git, previous, pin, a, cs) && Moved(git, previous, pin, b, ds)
    ensures a == b && cs == ds
  {
    LastPinUnique(previous, pin.url, a, b);
  }

  lemma LastMovedUnique(git: Git, previous: seq<Pin>, pins: seq<Pin>, i: nat, j: nat)
    requires LastMoved(git, previous, pins, i) && LastMoved(git, previous, pins, j) && pins[i].url == pins[j].url
    ensures i == j
  {
  }

  lemma PinnedAtUnique(git: Git, repo: string, sha: string, pins: seq<Pin>, pins': seq<Pin>)
    requires PinnedAt(git, repo, sha, pins) && PinnedAt(git, repo, sha, pins')
    ensures pins == pins'
  {
  }

  lemma TellsUnique(summaries: seq<CommitSummary>, others: seq<CommitSummary>, commits: seq<Commit>, url: string)
    requires Tells(summaries, commits, url) && Tells(others, commits, url)
    ensures summaries == others
  {
    forall k | 0 <= k < |commits| ensures summaries[k] == others[k] {
      assert summaries[k].commit == others[k].commit;
    }
  }

  /** A tree has something to list. */
  lemma TreeLists(git: Git, url: string, sha: string, previousSha: string, was: seq<Pin>, m: map<string, Changelog>,
                  height: nat)
    requires PinnedAt(git, url, previousSha, was) && IsTree(git, url, sha, was, m, height)
    ensures !NothingListed(git, url, sha, previousSha)
  {
    var pins: seq<Pin> :| PinnedAt(git, url, sha, pins) && TellsMoves(git, was, pins, m, height);
    var u :| u in m;
    assert Listed(git, was, pins, u);
  }

  lemma {:induction false} TreeUnique(git: Git, repo: string, sha: string, previous: seq<Pin>,
                                      m: map<string, Changelog>, m': map<string, Changelog>, height: nat)
    requires IsTree(git, repo, sha, previous, m, height) && IsTree(git, repo, sha, previous, m', height)
    ensures m == m'
    decreases height, 1
  {
    var pins: seq<Pin> :| PinnedAt(git, repo, sha, pins) && TellsMoves(git, previous, pins, m, height);
    var pins': seq<Pin> :| PinnedAt(git, repo, sha, pins') && TellsMoves(git, previous, pins', m', height);
    PinnedAtUnique(git, repo, sha, pins, pins');
    assert forall url :: url in m <==> url in m';
    forall url | url in m ensures m[url] == m'[url] {
      HasEntryUnique(git, previous, pins, url, m[url], m'[url], height);
    }
  }

  lemma {:induction false} HasEntryUnique(git: Git, previous: seq<Pin>, pins: seq<Pin>, url: string,
                                          c: Changelog, d: Changelog, height: nat)
    requires height > 0
    requires HasEntry(git, previous, pins, url, c, height) && HasEntry(git, previous, pins, url, d, height)
    ensures c == d
    decreases height, 0, 1
  {
    var i: nat :| IsEntry(git, previous, pins, i, url, c, height);
    var j: nat :| IsEntry(git, previous, pins, j, url, d, height);
    LastMovedUnique(git, previous, pins, i, j);
    EntryUnique(git, previous, pins, i, url, c, d, height);
  }

  lemma {:induction false} EntryUnique(git: Git, previous: seq<Pin>, pins: seq<Pin>, i: nat, url: string,
                                       c: Changelog, d: Changelog, height: nat)
    requires height > 0
    requires IsEntry(git, previous, pins, i, url, c, height) && IsEntry(git, previous, pins, i, url, d, height)
    ensures c == d
    decreases height, 0, 0
  {
    var cs :| Moved(git, previous, pins[i], c.previousVersion, cs) && Tells(c.commits, cs, url);
    var ds :| Moved(git, previous, pins[i], d.previousVersion, ds) && Tells(d.commits, ds, url);
    MovedUnique(git, previous, pins[i], c.previousVersion, d.previousVersion, cs, ds);
    TellsUnique(c.commits, d.commits, cs, url);
    if c.submodules.Some? {
      BelowListed(git, previous, pins, i, url, c, height);
    }
    if d.submodules.Some? {
      BelowListed(git, previous, pins, i, url, d, height);
    }
    if c.submodules.Some? && d.submodules.Some? {
      var was: seq<Pin> :| PinnedAt(git, url, c.previousVersion, was)
                           && IsTree(git, url, pins[i].sha, was, c.submodules.value, height - 1);
      var was': seq<Pin> :| PinnedAt(git, url, d.previousVersion, was')
                            && IsTree(git, url, pins[i].sha, was', d.submodules.value, height - 1);
      PinnedAtUnique(git, url, c.previousVersion, was, was');
      TreeUnique(git, url, pins[i].sha, was, c.submodules.value, d.submodules.value, height - 1);
    }
  }

  lemma BelowListed(git: Git, previous: seq<Pin>, pins: seq<Pin>, i: nat, url: string, c: Changelog, height: nat)
    requires height > 0 && IsEntry(git, previous, pins, i, url, c, height) && c.submodules.Some?
    ensures height > 1 && !NothingListed(git, url, pins[i].sha, c.previousVersion)
  {
    var was: seq<Pin> :| PinnedAt(git, url, c.previousVersion, was)
                         && IsTree(git, url, pins[i].sha, was, c.submodules.value, height - 1);
    TreeLists(git, url, pins[i].sha, c.previousVersion, was, c.submodules.value, height - 1);
  }

  /** A tree is computed wherever there is one. */
  lemma TreeComputed(git: Git, repo: string, sha: string, previous: seq<Pin>, m: map<string, Changelog>, depth: nat)
    requires depth < MAX_DEPTH && IsTree(git, repo, sha, previous, m, MAX_DEPTH - depth)
    ensures Compute(git, repo, sha, previous, depth) == Some(m)
  {
    var pins: seq<Pin> :| PinnedAt(git, repo, sha, pins) && TellsMoves(git, previous, pins, m, MAX_DEPTH - depth);
    var url :| url in m;
    CollectListed(git, previous, pins, depth, url);
    if previous == [] { NoneMoved(git, pins, url); }
    assert Compute(git, repo, sha, previous, depth).Some?;
    ComputeYieldsTree(git, repo, sha, previous, depth);
    TreeUnique(git, repo, sha, previous, m, Compute(git, repo, sha, previous, depth).value, MAX_DEPTH - depth);
  }

  /** Whatever git answers, the changelogs computed for a version are the tree of its submodules' moves, of height three
      at most, and nothing is computed exactly if there is no such tree. */
  lemma ComputeIsTree(git: Git, repo: string, sha: string, previous: seq<Pin>)
    ensures forall m :: Compute(git, repo, sha, previous, 0) == Some(m) <==> IsTree(git, repo, sha, previous, m, 3)
    ensures Compute(git, repo, sha, previous, 0).None? <==> forall m :: !IsTree(git, repo, sha, previous, m, 3)
  {
    ComputeYieldsTree(git, repo, sha, previous, 0);
    forall m | IsTree(git, repo, sha, previous, m, 3) ensures Compute(git, repo, sha, previous, 0) == Some(m) {
      TreeComputed(git, repo, sha, previous, m, 0);
    }
  }

  // ---------- links ----------

  /** A repository URL is linked without trailing slashes and without .git. */
  lemma CommitURLForms(base: string, sha: string)
    requires base != "" && base[|base| - 1] != '/' && !(|base| >= 4 && base[|base| - 4..] == ".git")
    ensures CommitURL(base, sha) == CommitURL(base + "/", sha) == base + "/commit/" + sha
    ensures CommitURL(base + ".git", sha) == CommitURL(base + ".git/", sha) == base + "/commit/" + sha
  {
    assert (base + "/")[..|base|] == base;
    var dotted := base + ".git";
    assert dotted[|dotted| - 1] == 't' && (base + ".git/")[..|dotted|] == dotted;
    assert dotted[|dotted| - 4..] == ".git" && dotted[..|dotted| - 4] == base;
  }
}
