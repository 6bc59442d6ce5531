/** Phase 2 of commit enrichment: one child per version reads its predecessor, computes a changelog,
    and stores it into its own row. Children run concurrently, in any order, and may be repeated. */
module ChangelogPhase {
  import opened Common
  import opened SubmoduleChangelogs

  /** commit_body; sha is None where the document has no such key, and details stands for the fields
      that no changelog child reads or writes. */
  datatype CommitInfo = CommitInfo(
    sha: Option<string>, repository: string, enrichedAt: string, submodules: seq<Pin>,
    changelog: Option<Changelog>, changelogStatus: string, details: string)

  const EMPTY_INFO: CommitInfo := CommitInfo(None, "", "", [], None, "", "")

  /** The sha as the source reads it. */
  function Sha(info: CommitInfo): string {
    match info.sha case None => "" case Some(s) => s
  }

  datatype Row = Row(artifactID: int, sortOrder: int, commit: Option<CommitInfo>)

  type Table = map<int, Row>

  datatype Child = Child(
    versionID: int, artifactID: int, sortOrder: int, commitSha: string, repository: string,
      gitRepositories: seq<string>)

  // ---------- the predecessor ----------

  predicate IsCandidate(t: Table, artifactID: int, sortOrder: int, id: int) {
    && id in t && t[id].artifactID == artifactID && 0 < t[id].sortOrder < sortOrder
    && t[id].commit.Some? && t[id].commit.value.sha.Some?
  }

  /** ORDER BY sort_order DESC LIMIT 1. */
  predicate IsPrevious(t: Table, artifactID: int, sortOrder: int, id: int) {
    && IsCandidate(t, artifactID, sortOrder, id)
    && forall other :: other in t && IsCandidate(t, artifactID, sortOrder, other) ==>
      t[other].sortOrder <= t[id].sortOrder
  }

  /** Positions are unique, as an ordering run leaves them. */
  predicate DistinctPositions(t: Table) {
    forall a, b :: a in t && b in t && a != b && t[a].artifactID == t[b].artifactID && t[a].sortOrder > 0 ==>
      t[a].sortOrder != t[b].sortOrder
  }

  ghost function Previous(t: Table, artifactID: int, sortOrder: int): (id: Option<int>)
    ensures id.Some? ==> IsPrevious(t, artifactID, sortOrder, id.value)
    ensures id.None? ==> forall other :: !IsPrevious(t, artifactID, sortOrder, other)
  {
    if exists id :: IsPrevious(t, artifactID, sortOrder, id) then
      var id :| IsPrevious(t, artifactID, sortOrder, id);
      Some(id)
    else None
  }

  // ---------- what a child decides from its predecessor ----------

  /** Skip: no usable predecessor. Wait: the predecessor is not enriched. Fail: the repository is not cached. */
  datatype Decision = Skip | Wait | Fail | Store(changelog: Changelog)

  function CurrentRepo(child: Child, previous: CommitInfo): string {
    if child.repository == "" && |child.gitRepositories| > 0
    then (if previous.repository != "" then previous.repository else child.gitRepositories[0])
    else child.repository
  }

  function MainCommits(git: Git, child: Child, previous: CommitInfo): Option<seq<CommitSummary>> {
    var repo := CurrentRepo(child, previous);
    if previous.repository == "" || repo == "" || previous.repository != repo then Some([])
    else
      match git.resolve(repo)
      case None => None
      case Some(path) =>
        match git.log(path, Sha(previous), child.commitSha)
        case None => Some([])
        case Some(commits) => Some(Summaries(commits, repo))
  }

  function DecideFrom(git: Git, child: Child, previous: Option<CommitInfo>): Decision {
    if previous.None? || Sha(previous.value) == "" then Skip
    else if previous.value.enrichedAt == "" then Wait
    else
      match MainCommits(git, child, previous.value)
      case None => Fail
      case Some(commits) =>
        Store(Changelog(Sha(previous.value), commits,
                        Compute(git, CurrentRepo(child, previous.value), child.commitSha, previous.value.submodules,
                          0)))
  }

  method ComputeVersionChangelog(git: Git, child: Child, previous: Option<CommitInfo>) returns (d: Decision)
    ensures d == DecideFrom(git, child, previous)
  {
    if previous.None? || Sha(previous.value) == "" { return Skip; }
    var info := previous.value;
    if info.enrichedAt == "" { return Wait; }
    var currentRepo := child.repository;
    if currentRepo == "" && |child.gitRepositories| > 0 {
      if info.repository != "" { currentRepo := info.repository; } else { currentRepo := child.gitRepositories[0]; }
    }
    var sameRepo := info.repository != "" && currentRepo != "" && info.repository == currentRepo;
    var mainCommits: seq<CommitSummary> := [];
    if sameRepo {
      var clone := git.resolve(currentRepo);
      if clone.None? { return Fail; }
      var commits := git.log(clone.value, Sha(info), child.commitSha);
      if commits.Some? { mainCommits := Summaries(commits.value, currentRepo); }
    }
    var submodules := ComputeSubmoduleChangelogs(git, currentRepo, child.commitSha, info.submodules, 0);
    return Store(Changelog(Sha(info), mainCommits, submodules));
  }

  // ---------- the two writes ----------

  /** A read-modify-write always writes a sha. */
  function WithChangelog(info: CommitInfo, changelog: Changelog): CommitInfo {
    info.(sha := Some(Sha(info)), changelog := Some(changelog),
          changelogStatus := if info.changelogStatus == "pending_predecessor" then "" else info.changelogStatus)
  }

  function StoreChangelog(t: Table, id: int, changelog: Changelog): Table {
    if id !in t then t
    else
      var info := match t[id].commit case Some(i) => i case None => EMPTY_INFO;
      t[id := t[id].(commit := Some(WithChangelog(info, changelog)))]
  }

  /** What a child leaves in its row that waited in vain; it counts as enriched. */
  function Marked(child: Child, now: string): CommitInfo {
    CommitInfo(Some(child.commitSha), child.repository, now, [], None, "pending_predecessor", "")
  }

  /** markPendingPredecessor replaces the whole commit_body. */
  function MarkPending(t: Table, child: Child, now: string): Table {
    if child.versionID !in t then t
    else t[child.versionID := t[child.versionID].(commit := Some(Marked(child, now)))]
  }

  class VersionStore {
    var rows: Table

    constructor (initial: Table)
      ensures rows == initial
    {
      rows := initial;
    }

    /** Read-modify-write in one transaction; a missing row is an error and changes nothing. */
    method StoreVersionChangelog(id: int, changelog: Changelog) returns (ok: bool)
      modifies this
      ensures ok == (id in rows)
      ensures rows == StoreChangelog(old(rows), id, changelog)
    {
      ok := id in rows;
      if !ok { return; }
      var info := EMPTY_INFO;
      if rows[id].commit.Some? { info := rows[id].commit.value; }
      info := info.(changelog := Some(changelog));
      if info.changelogStatus == "pending_predecessor" { info := info.(changelogStatus := ""); }
      info := info.(sha := Some(Sha(info)));
      rows := rows[id := rows[id].(commit := Some(info))];
    }

    /** Replaces the commit body of one row, and nothing else. */
    method StoreEnrichedCommit(id: int, info: CommitInfo)
      modifies this
      ensures rows.Keys == old(rows).Keys
      ensures forall other :: other in rows && other != id ==> rows[other] == old(rows)[other]
      ensures id in rows ==> rows[id] == old(rows)[id].(commit := Some(info))
    {
      if id in rows { rows := rows[id := rows[id].(commit := Some(info))]; }
    }

    method MarkPendingPredecessor(child: Child, now: string)
      modifies this
      ensures rows == MarkPending(old(rows), child, now)
      ensures rows.Keys == old(rows).Keys
      ensures forall id :: id in rows && id != child.versionID ==> rows[id] == old(rows)[id]
      ensures child.versionID in rows ==>
        var row := rows[child.versionID];
        && row.artifactID == old(rows)[child.versionID].artifactID
        && row.sortOrder == old(rows)[child.versionID].sortOrder && row.commit.Some?
        && row.commit.value.sha == Some(child.commitSha) && row.commit.value.repository == child.repository
        && row.commit.value.enrichedAt == now && row.commit.value.changelogStatus == "pending_predecessor"
        && row.commit.value.submodules == [] && row.commit.value.changelog == None
    {
      var pending := CommitInfo(Some(child.commitSha), child.repository, now, [], None, "pending_predecessor", "");
      StoreEnrichedCommit(child.versionID, pending);
    }
  }

  // ---------- interleavings ----------

  /** held: the changelogs computed and not yet stored; stored: the children that have stored at least once;
      ended: those of which an attempt has come to an end, well or badly; gaveUp: those that are finished for good. */
  datatype World = World(table: Table, held: map<nat, Changelog>, stored: set<nat>, ended: set<nat>, gaveUp: set<nat>)

  function Begin(t: Table): World {
    World(t, map[], {}, {}, {})
  }

  datatype Label =
    | Read(child: nat)                 // an attempt of the child reads its predecessor and computes
    | Write(child: nat)                // and stores
    | GiveUp(child: nat, now: string)  // it waited for the predecessor in vain

  ghost function Decide(git: Git, t: Table, child: Child): Decision {
    match Previous(t, child.artifactID, child.sortOrder)
    case None => DecideFrom(git, child, None)
    case Some(id) => DecideFrom(git, child, t[id].commit)
  }

  ghost function Step(git: Git, children: seq<Child>, w: World, l: Label): Option<World> {
    if l.child >= |children| || l.child in w.gaveUp then None
    else
      var child := children[l.child];
      match l
      case Read(i) =>
        (match Decide(git, w.table, child)
         case Store(c) => Some(w.(held := w.held[i := c]))
         case Wait => Some(w)
         case _ => Some(w.(ended := w.ended + {i})))
      case Write(i) =>
        if i in w.held
        then Some(w.(table := StoreChangelog(w.table, child.versionID, w.held[i]), held := w.held - {i},
                     stored := w.stored + {i}, ended := w.ended + {i}))
        else None
      case GiveUp(i, now) =>
        if now != "" && Decide(git, w.table, child).Wait?
        then Some(w.(table := MarkPending(w.table, child, now), held := w.held - {i},
                     ended := w.ended + {i}, gaveUp := w.gaveUp + {i}))
        else None
  }

  ghost function Execute(git: Git, children: seq<Child>, w: World, schedule: seq<Label>): Option<World>
    decreases schedule
  {
    if schedule == [] then Some(w)
    else
      match Step(git, children, w, schedule[0])
      case None => None
      case Some(w') => Execute(git, children, w', schedule[1..])
  }

  // ---------- confluence ----------

  /** Each child has a row of its own with a sha, which enrichment fetched it by. */
  ghost predicate OwnRows(children: seq<Child>, t: Table) {
    && (forall i, j :: 0 <= i < j < |children| ==> children[i].versionID != children[j].versionID)
    && (forall i :: 0 <= i < |children| ==> HasSha(t, children[i].versionID))
  }

  predicate HasSha(t: Table, id: int) {
    id in t && t[id].commit.Some? && t[id].commit.value.sha.Some?
  }

  ghost predicate NoneWaits(git: Git, children: seq<Child>, t: Table) {
    forall i :: 0 <= i < |children| ==> !Decide(git, t, children[i]).Wait?
  }

  /** What enrichment has settled before phase 2 starts. */
  ghost predicate Settled(git: Git, children: seq<Child>, t: Table) {
    DistinctPositions(t) && OwnRows(children, t) && NoneWaits(git, children, t)
  }

  /** The part of the table that changelog children read. */
  function Core(info: CommitInfo): CommitInfo {
    info.(changelog := None, changelogStatus := "")
  }

  ghost predicate SameCore(t: Table, t': Table) {
    && SamePositions(t, t')
    && forall id :: id in t && t[id].commit.Some? ==> Core(t[id].commit.value) == Core(t'[id].commit.value)
  }

  /** The part of the table that the predecessor query filters and orders by. */
  ghost predicate SamePositions(t: Table, t': Table) {
    && t.Keys == t'.Keys
    && forall id :: id in t ==>
         && t[id].artifactID == t'[id].artifactID && t[id].sortOrder == t'[id].sortOrder
         && (t[id].commit.Some? <==> t'[id].commit.Some?)
         && (t[id].commit.Some? ==> (t[id].commit.value.sha.Some? <==> t'[id].commit.value.sha.Some?))
  }

  lemma PreviousUnique(t: Table, artifactID: int, sortOrder: int, a: int, b: int)
    requires DistinctPositions(t) && IsPrevious(t, artifactID, sortOrder, a) && IsPrevious(t, artifactID, sortOrder, b)
    ensures a == b
  {
  }

  lemma SamePrevious(t: Table, t': Table, artifactID: int, sortOrder: int)
    requires SamePositions(t, t') && DistinctPositions(t)
    ensures Previous(t, artifactID, sortOrder) == Previous(t', artifactID, sortOrder)
  {
    forall id ensures IsPrevious(t, artifactID, sortOrder, id) <==> IsPrevious(t', artifactID, sortOrder, id) {
      forall other | other in t
        ensures IsCandidate(t, artifactID, sortOrder, other) <==> IsCandidate(t', artifactID, sortOrder, other) {}
    }
    var p, p' := Previous(t, artifactID, sortOrder), Previous(t', artifactID, sortOrder);
    if p.Some? && p'.Some? {
      PreviousUnique(t, artifactID, sortOrder, p.value, p'.value);
    }
  }

  lemma DecideCore(git: Git, child: Child, a: CommitInfo, b: CommitInfo)
    requires Core(a) == Core(b)
    ensures DecideFrom(git, child, Some(a)) == DecideFrom(git, child, Some(b))
  {
    assert Sha(a) == Sha(Core(a)) && a.repository == Core(a).repository && a.enrichedAt == Core(a).enrichedAt
           && a.submodules == Core(a).submodules;
    assert Sha(b) == Sha(Core(b)) && b.repository == Core(b).repository && b.enrichedAt == Core(b).enrichedAt
           && b.submodules == Core(b).submodules;
  }

  /** Decisions depend only on fields that no changelog child writes. */
  lemma SameDecision(git: Git, t: Table, t': Table, child: Child)
    requires SameCore(t, t') && DistinctPositions(t)
    ensures Decide(git, t, child) == Decide(git, t', child)
  {
    SamePrevious(t, t', child.artifactID, child.sortOrder);
    var p := Previous(t, child.artifactID, child.sortOrder);
    if p.Some? {
      DecideCore(git, child, t[p.value].commit.value, t'[p.value].commit.value);
    }
  }

  /** The decisions of all children at the start. */
  ghost function Plan(git: Git, children: seq<Child>, t: Table): (plan: seq<Decision>)
    ensures |plan| == |children|
    ensures forall i :: 0 <= i < |children| ==> plan[i] == Decide(git, t, children[i])
  {
    seq(|children|, i requires 0 <= i < |children| => Decide(git, t, children[i]))
  }

  /** The changelogs of the children in done, stored into the initial table. */
  ghost function Outcome(children: seq<Child>, plan: seq<Decision>, t: Table, done: set<nat>): Table {
    map id | id in t :: OutcomeRow(children, plan, t, done, id)
  }

  ghost predicate StoredBy(children: seq<Child>, plan: seq<Decision>, done: set<nat>, id: int, i: nat) {
    i in done && i < |children| && i < |plan| && children[i].versionID == id && plan[i].Store?
  }

  ghost function OutcomeRow(children: seq<Child>, plan: seq<Decision>, t: Table, done: set<nat>, id: int): Row
    requires id in t
  {
    if exists i: nat :: StoredBy(children, plan, done, id, i) then
      var i: nat :| StoredBy(children, plan, done, id, i);
      var info := match t[id].commit case Some(c) => c case None => EMPTY_INFO;
      t[id].(commit := Some(WithChangelog(info, plan[i].changelog)))
    else t[id]
  }

  lemma StoredByOne(children: seq<Child>, plan: seq<Decision>, t: Table, done: set<nat>, id: int, i: nat, j: nat)
    requires OwnRows(children, t) && |plan| == |children|
    requires StoredBy(children, plan, done, id, i) && StoredBy(children, plan, done, id, j)
    ensures i == j
  {
  }

  lemma RowOf(children: seq<Child>, plan: seq<Decision>, t: Table, done: set<nat>, id: int, i: nat)
    requires OwnRows(children, t) && |plan| == |children| && id in t && StoredBy(children, plan, done, id, i)
    ensures t[id].commit.Some?
    ensures OutcomeRow(children, plan, t, done, id) ==
            t[id].(commit := Some(WithChangelog(t[id].commit.value, plan[i].changelog)))
  {
    var j: nat :| StoredBy(children, plan, done, id, j) &&
                  OutcomeRow(children, plan, t, done, id) ==
                  t[id].(commit := Some(WithChangelog(t[id].commit.value, plan[j].changelog)));
    StoredByOne(children, plan, t, done, id, i, j);
  }

  lemma RowElsewhere(children: seq<Child>, plan: seq<Decision>, t: Table, done: set<nat>, i: nat, k: int)
    requires OwnRows(children, t) && |plan| == |children| && i < |children| && k in t && k != children[i].versionID
    ensures OutcomeRow(children, plan, t, done, k) == OutcomeRow(children, plan, t, done + {i}, k)
  {
    assert forall j: nat :: StoredBy(children, plan, done + {i}, k, j) <==> StoredBy(children, plan, done, k, j);
    if j: nat :| StoredBy(children, plan, done, k, j) {
      RowOf(children, plan, t, done, k, j);
      RowOf(children, plan, t, done + {i}, k, j);
    }
  }

  lemma OutcomeSameCore(children: seq<Child>, plan: seq<Decision>, t: Table, done: set<nat>)
    requires OwnRows(children, t) && |plan| == |children|
    ensures SameCore(t, Outcome(children, plan, t, done))
  {
    forall id | id in t
      ensures t[id].commit.Some? <==> OutcomeRow(children, plan, t, done, id).commit.Some?
    {
      if i: nat :| StoredBy(children, plan, done, id, i) {
        assert t[children[i].versionID].commit.Some?;
      }
    }
  }

  /** Storing once more, or for the first time, keeps the table on the one possible course. */
  lemma WriteOutcome(children: seq<Child>, plan: seq<Decision>, t: Table, done: set<nat>, i: nat)
    requires OwnRows(children, t) && |plan| == |children| && i < |children| && plan[i].Store?
    ensures StoreChangelog(Outcome(children, plan, t, done), children[i].versionID, plan[i].changelog)
         == Outcome(children, plan, t, done + {i})
  {
    var id := children[i].versionID;
    var before, after := Outcome(children, plan, t, done), Outcome(children, plan, t, done + {i});
    assert StoredBy(children, plan, done + {i}, id, i);
    forall k | k in t ensures StoreChangelog(before, id, plan[i].changelog)[k] == after[k] {
      if k == id {
        RowOf(children, plan, t, done + {i}, id, i);
        if j: nat :| StoredBy(children, plan, done, id, j) {
          StoredByOne(children, plan, t, done + {i}, id, i, j);
          RowOf(children, plan, t, done, id, i);
        }
      } else {
        RowElsewhere(children, plan, t, done, i, k);
      }
    }
  }

  ghost predicate OnTrack(children: seq<Child>, plan: seq<Decision>, t: Table, w: World) {
    && |plan| == |children|
    && w.table == Outcome(children, plan, t, w.stored)
    && (forall i :: i in w.stored ==> i < |children| && plan[i].Store?)
    && (forall i :: i in w.held ==> i < |children| && plan[i] == Store(w.held[i]))
  }

  /** On track, every child still decides as it would have at the start. */
  lemma DecisionStands(git: Git, children: seq<Child>, t: Table, w: World, i: nat)
    requires Settled(git, children, t) && OnTrack(children, Plan(git, children, t), t, w) && i < |children|
    ensures Decide(git, w.table, children[i]) == Plan(git, children, t)[i]
  {
    OutcomeSameCore(children, Plan(git, children, t), t, w.stored);
    SameDecision(git, t, w.table, children[i]);
  }

  lemma WriteOnTrack(children: seq<Child>, plan: seq<Decision>, t: Table, w: World, i: nat)
    requires OwnRows(children, t) && |plan| == |children| && OnTrack(children, plan, t, w) && i in w.held
    ensures OnTrack(children, plan, t,
                    w.(table := StoreChangelog(w.table, children[i].versionID, w.held[i]), held := w.held - {i},
                       stored := w.stored + {i}, ended := w.ended + {i}))
  {
    WriteOutcome(children, plan, t, w.stored, i);
  }

  lemma StepOnTrack(git: Git, children: seq<Child>, t: Table, w: World, l: Label)
    requires Settled(git, children, t) && OnTrack(children, Plan(git, children, t), t, w)
    requires Step(git, children, w, l).Some?
    ensures OnTrack(children, Plan(git, children, t), t, Step(git, children, w, l).value)
  {
    DecisionStands(git, children, t, w, l.child);
    if l.Write? {
      WriteOnTrack(children, Plan(git, children, t), t, w, l.child);
    }
  }

  lemma {:induction false} ExecuteOnTrack(git: Git, children: seq<Child>, t: Table, w: World, schedule: seq<Label>)
    requires Settled(git, children, t) && OnTrack(children, Plan(git, children, t), t, w)
    requires Execute(git, children, w, schedule).Some?
    ensures OnTrack(children, Plan(git, children, t), t, Execute(git, children, w, schedule).value)
    decreases schedule
  {
    if schedule != [] {
      StepOnTrack(git, children, t, w, schedule[0]);
      ExecuteOnTrack(git, children, t, Step(git, children, w, schedule[0]).value, schedule[1..]);
    }
  }

  lemma RunOnTrack(git: Git, children: seq<Child>, t: Table, schedule: seq<Label>)
    requires Settled(git, children, t)
    requires Execute(git, children, Begin(t), schedule).Some?
    ensures OnTrack(children, Plan(git, children, t), t, Execute(git, children, Begin(t), schedule).value)
  {
    assert Outcome(children, Plan(git, children, t), t, {}) == t;
    ExecuteOnTrack(git, children, t, Begin(t), schedule);
  }

  /** Under every interleaving and repetition the table is determined by which children have stored so far. */
  lemma Confluent(git: Git, children: seq<Child>, t: Table, schedule: seq<Label>)
    requires Settled(git, children, t)
    requires Execute(git, children, Begin(t), schedule).Some?
    ensures
      var w := Execute(git, children, Begin(t), schedule).value;
      w.table == Outcome(children, Plan(git, children, t), t, w.stored)
  {
    RunOnTrack(git, children, t, schedule);
  }

  /** Two schedules in which the same children store end in the same table. */
  lemma ConfluentPair(git: Git, children: seq<Child>, t: Table, one: seq<Label>, other: seq<Label>)
    requires Settled(git, children, t)
    requires Execute(git, children, Begin(t), one).Some? && Execute(git, children, Begin(t), other).Some?
    requires Execute(git, children, Begin(t), one).value.stored == Execute(git, children, Begin(t), other).value.stored
    ensures Execute(git, children, Begin(t), one).value.table == Execute(git, children, Begin(t), other).value.table
  {
    Confluent(git, children, t, one);
    Confluent(git, children, t, other);
  }

  /** The row after phase 2 is the row before, with this changelog, without a pending_predecessor status. */
  predicate GainedChangelog(was: Row, now: Row, changelog: Changelog) {
    && was.commit.Some? && now.commit.Some?
    && now.artifactID == was.artifactID && now.sortOrder == was.sortOrder
    && Core(now.commit.value) == Core(was.commit.value)
    && now.commit.value.changelog == Some(changelog)
    && now.commit.value.changelogStatus ==
         (if was.commit.value.changelogStatus == "pending_predecessor" then "" else was.commit.value.changelogStatus)
  }

  /** A child that has stored gave its own row the changelog it decided on at the start, and changed nothing else in
      it. */
  lemma OwnRowGainsChangelog(git: Git, children: seq<Child>, t: Table, schedule: seq<Label>, i: nat)
    requires Settled(git, children, t) && i < |children|
    requires Execute(git, children, Begin(t), schedule).Some?
    requires i in Execute(git, children, Begin(t), schedule).value.stored
    ensures
      var w, id := Execute(git, children, Begin(t), schedule).value, children[i].versionID;
      && Decide(git, t, children[i]).Store? && id in w.table
      && GainedChangelog(t[id], w.table[id], Decide(git, t, children[i]).changelog)
  {
    RunOnTrack(git, children, t, schedule);
    var w, plan := Execute(git, children, Begin(t), schedule).value, Plan(git, children, t);
    assert StoredBy(children, plan, w.stored, children[i].versionID, i);
    RowOf(children, plan, t, w.stored, children[i].versionID, i);
  }

  /** Rows of versions whose child has not stored, and rows without a child, stay as they are. */
  lemma OtherRowsStay(git: Git, children: seq<Child>, t: Table, schedule: seq<Label>, id: int)
    requires Settled(git, children, t) && id in t
    requires Execute(git, children, Begin(t), schedule).Some?
    requires forall i :: 0 <= i < |children| && children[i].versionID == id ==>
      i !in Execute(git, children, Begin(t), schedule).value.stored
    ensures
      var w := Execute(git, children, Begin(t), schedule).value;
      id in w.table && w.table[id] == t[id]
  {
    RunOnTrack(git, children, t, schedule);
  }

  lemma StillSettled(git: Git, children: seq<Child>, t: Table, done: set<nat>)
    requires Settled(git, children, t)
    ensures
      var after := Outcome(children, Plan(git, children, t), t, done);
      Settled(git, children, after) && Plan(git, children, after) == Plan(git, children, t)
  {
    var after := Outcome(children, Plan(git, children, t), t, done);
    OutcomeSameCore(children, Plan(git, children, t), t, done);
    forall i | 0 <= i < |children| ensures Decide(git, after, children[i]) == Decide(git, t, children[i]) {
      SameDecision(git, t, after, children[i]);
    }
  }

  lemma OutcomeTwice(children: seq<Child>, plan: seq<Decision>, t: Table, done: set<nat>, again: set<nat>)
    requires OwnRows(children, t) && |plan| == |children| && OwnRows(children, Outcome(children, plan, t, done))
      && again <= done
    ensures Outcome(children, plan, Outcome(children, plan, t, done), again) == Outcome(children, plan, t, done)
  {
    var after := Outcome(children, plan, t, done);
    forall id | id in t ensures OutcomeRow(children, plan, after, again, id) == after[id] {
      if i: nat :| StoredBy(children, plan, again, id, i) {
        assert StoredBy(children, plan, done, id, i);
        RowOf(children, plan, t, done, id, i);
        RowOf(children, plan, after, again, id, i);
      }
    }
  }

  /** Running the phase again over its own result changes nothing, whatever the two schedules. */
  lemma PhaseIdempotent(git: Git, children: seq<Child>, t: Table, schedule: seq<Label>, again: seq<Label>)
    requires Settled(git, children, t)
    requires Execute(git, children, Begin(t), schedule).Some?
    requires
      var w := Execute(git, children, Begin(t), schedule).value;
      var w' := Execute(git, children, Begin(w.table), again);
      w'.Some? && w'.value.stored <= w.stored
    ensures
      var w := Execute(git, children, Begin(t), schedule).value;
      Execute(git, children, Begin(w.table), again).value.table == w.table
  {
    var w := Execute(git, children, Begin(t), schedule).value;
    var w' := Execute(git, children, Begin(w.table), again).value;
    Confluent(git, children, t, schedule);
    StillSettled(git, children, t, w.stored);
    Confluent(git, children, w.table, again);
    OutcomeTwice(children, Plan(git, children, t), t, w.stored, w'.stored);
  }
}
