/** Exactly when the order in which changelog children run matters: for partial runs, and for runs in which
    every child has finished, up to the time stamps of rows marked pending. */
module ChangelogOrder {
  import opened Common
  import opened SubmoduleChangelogs
  import opened ChangelogPhase

  // ---------- partial runs ----------

  /** Two schedules in which the same children have stored end in the same table. */
  ghost predicate StoredDetermines(git: Git, children: seq<Child>, t: Table) {
    forall one, other :: SameStored(git, children, t, one, other) ==>
      Execute(git, children, Begin(t), one).value.table == Execute(git, children, Begin(t), other).value.table
  }

  ghost predicate SameStored(git: Git, children: seq<Child>, t: Table, one: seq<Label>, other: seq<Label>) {
    && Execute(git, children, Begin(t), one).Some? && Execute(git, children, Begin(t), other).Some?
    && Execute(git, children, Begin(t), one).value.stored == Execute(git, children, Begin(t), other).value.stored
  }

  lemma ExecuteOne(git: Git, children: seq<Child>, w: World, l: Label)
    ensures Execute(git, children, w, [l]) == Step(git, children, w, l)
  {
    assert [l][1..] == [];
    if Step(git, children, w, l).Some? {
      assert Execute(git, children, Step(git, children, w, l).value, []) == Step(git, children, w, l);
    }
  }

  lemma {:induction false} ExecuteAppend(git: Git, children: seq<Child>, w: World, first: seq<Label>,
                                         second: seq<Label>)
    requires Execute(git, children, w, first).Some?
    ensures Execute(git, children, w, first + second) ==
            Execute(git, children, Execute(git, children, w, first).value, second)
    decreases first
  {
    if first == [] {
      assert [] + second == second;
    } else {
      assert (first + second)[0] == first[0] && (first + second)[1..] == first[1..] + second;
      ExecuteAppend(git, children, Step(git, children, w, first[0]).value, first[1..], second);
    }
  }

  /** A child that waits at the start can give up at any time. */
  lemma WaiterUndetermined(git: Git, children: seq<Child>, t: Table, i: nat)
    requires OwnRows(children, t) && i < |children| && Decide(git, t, children[i]).Wait?
    ensures !StoredDetermines(git, children, t)
  {
    var id := children[i].versionID;
    assert HasSha(t, id);
    ExecuteOne(git, children, Begin(t), GiveUp(i, "a"));
    ExecuteOne(git, children, Begin(t), GiveUp(i, "b"));
    assert MarkPending(t, children[i], "a")[id].commit.value.enrichedAt == "a";
    assert MarkPending(t, children[i], "b")[id].commit.value.enrichedAt == "b";
    assert SameStored(git, children, t, [GiveUp(i, "a")], [GiveUp(i, "b")]);
  }

  /** The table is determined by who has stored, under every pair of schedules,
      if and only if no child has to wait for its predecessor at the start. */
  lemma StoredDeterminesIff(git: Git, children: seq<Child>, t: Table)
    requires DistinctPositions(t) && OwnRows(children, t)
    ensures StoredDetermines(git, children, t) <==> NoneWaits(git, children, t)
  {
    if NoneWaits(git, children, t) {
      forall one, other | SameStored(git, children, t, one, other)
        ensures Execute(git, children, Begin(t), one).value.table == Execute(git, children, Begin(t), other).value.table
      {
        ConfluentPair(git, children, t, one, other);
      }
    } else {
      var i :| 0 <= i < |children| && Decide(git, t, children[i]).Wait?;
      WaiterUndetermined(git, children, t, i);
    }
  }

  // ---------- finished runs ----------

  /** Every child has finished. */
  ghost predicate Finished(children: seq<Child>, w: World) {
    forall i :: 0 <= i < |children| ==> i in w.ended
  }

  /** The row up to the time at which it was enriched or marked. */
  function Timeless(row: Row): Row {
    match row.commit
    case None => row
    case Some(info) => row.(commit := Some(info.(enrichedAt := "")))
  }

  ghost predicate SameButTime(t: Table, t': Table) {
    t.Keys == t'.Keys && forall id :: id in t ==> Timeless(t[id]) == Timeless(t'[id])
  }

  /** What a decision makes of the child's own row, up to the time. */
  function Effect(row: Row, child: Child, d: Decision): Row {
    match d
    case Wait => Timeless(row.(commit := Some(Marked(child, ""))))
    case Store(c) =>
      var info := if row.commit.Some? then row.commit.value else EMPTY_INFO;
      Timeless(row.(commit := Some(WithChangelog(info, c))))
    case _ => Timeless(row)
  }

  ghost predicate IsFinishedRun(git: Git, children: seq<Child>, t: Table, schedule: seq<Label>) {
    && Execute(git, children, Begin(t), schedule).Some?
    && Finished(children, Execute(git, children, Begin(t), schedule).value)
  }

  /** Every two finished runs of the phase leave the same table, up to the time. */
  ghost predicate FinishedAgree(git: Git, children: seq<Child>, t: Table) {
    forall one, other :: IsFinishedRun(git, children, t, one) && IsFinishedRun(git, children, t, other) ==>
      SameButTime(Execute(git, children, Begin(t), one).value.table, Execute(git, children, Begin(t),
        other).value.table)
  }

  /** The predecessor of child i is the version of another child, which has to wait at the start and may give up. */
  ghost predicate DependsOnWaiting(git: Git, children: seq<Child>, t: Table, i: nat, j: nat) {
    && i < |children| && j < |children| && i != j
    && Previous(t, children[i].artifactID, children[i].sortOrder) == Some(children[j].versionID)
    && Decide(git, t, children[j]).Wait?
  }

  /** What child i decides once child j, whose version is its predecessor, has given up. */
  function LateDecision(git: Git, children: seq<Child>, i: nat, j: nat): Decision
    requires i < |children| && j < |children|
  {
    DecideFrom(git, children[i], Some(Marked(children[j], "now")))
  }

  /** It makes no difference to child i whether it decides before or after its predecessor is marked. */
  ghost predicate Insensitive(git: Git, children: seq<Child>, t: Table, i: nat, j: nat)
    requires i < |children| && j < |children| && HasSha(t, children[i].versionID)
  {
    Effect(t[children[i].versionID], children[i], Decide(git, t, children[i]))
    == Effect(t[children[i].versionID], children[i], LateDecision(git, children, i, j))
  }

  /** Checked before the phase starts. */
  ghost predicate AllInsensitive(git: Git, children: seq<Child>, t: Table)
    requires OwnRows(children, t)
  {
    forall i, j :: DependsOnWaiting(git, children, t, i, j) ==> Insensitive(git, children, t, i, j)
  }

  /** Enrichment only fetches versions with a commit. */
  predicate RealCommits(children: seq<Child>) {
    forall i :: 0 <= i < |children| ==> children[i].commitSha != ""
  }

  lemma DecideMarked(git: Git, child: Child, other: Child, now: string, now': string)
    requires now != "" && now' != ""
    ensures DecideFrom(git, child, Some(Marked(other, now))) == DecideFrom(git, child, Some(Marked(other, now')))
    ensures !DecideFrom(git, child, Some(Marked(other, now))).Wait?
  {
    var a, b := Marked(other, now), Marked(other, now');
    assert a.sha == b.sha && a.repository == b.repository && a.submodules == b.submodules;
    assert MainCommits(git, child, a) == MainCommits(git, child, b);
  }

  // ---------- the invariant of a run ----------

  /** Not replaced, at most extended by changelogs. */
  predicate Extended(was: Row, now: Row) {
    && now.artifactID == was.artifactID && now.sortOrder == was.sortOrder && was.commit.Some? && now.commit.Some?
    && Core(now.commit.value) == Core(was.commit.value) && was.commit.value.sha.Some?
    && (now.commit.value.changelogStatus == was.commit.value.changelogStatus
        || (was.commit.value.changelogStatus == "pending_predecessor" && now.commit.value.changelogStatus == ""))
  }

  predicate ReplacedBy(was: Row, now: Row, child: Child) {
    && now.commit.Some? && now.commit.value.enrichedAt != ""
    && now == was.(commit := Some(Marked(child, now.commit.value.enrichedAt)))
  }

  ghost predicate Possible(git: Git, children: seq<Child>, t: Table, i: nat, d: Decision)
    requires i < |children|
  {
    d == Decide(git, t, children[i])
    || exists j :: DependsOnWaiting(git, children, t, i, j) && d == LateDecision(git, children, i, j)
  }

  ghost predicate ChildOnCourse(git: Git, children: seq<Child>, t: Table, w: World, i: nat)
    requires i < |children| && children[i].versionID in t && children[i].versionID in w.table
  {
    var was, now := t[children[i].versionID], w.table[children[i].versionID];
    && (i in w.gaveUp ==> i in w.ended && Decide(git, t, children[i]).Wait? && ReplacedBy(was, now, children[i]))
    && (i !in w.gaveUp ==> Extended(was, now))
    && (i in w.ended ==> Timeless(now) == Effect(was, children[i], Decide(git, t, children[i])))
    && (i !in w.ended ==> now == was)
    && (i in w.held ==> Possible(git, children, t, i, Store(w.held[i])))
  }

  ghost predicate HasChild(children: seq<Child>, id: int) {
    exists i :: 0 <= i < |children| && children[i].versionID == id
  }

  ghost predicate OnCourse(git: Git, children: seq<Child>, t: Table, w: World) {
    && w.table.Keys == t.Keys && OwnRows(children, t)
    && (forall id :: id in t && !HasChild(children, id) ==> w.table[id] == t[id])
    && (forall i :: 0 <= i < |children| ==> ChildOnCourse(git, children, t, w, i))
  }

  lemma PositionsStay(git: Git, children: seq<Child>, t: Table, w: World)
    requires OnCourse(git, children, t, w)
    ensures SamePositions(t, w.table)
  {
    forall id | id in t
      ensures t[id].artifactID == w.table[id].artifactID && t[id].sortOrder == w.table[id].sortOrder
      ensures t[id].commit.Some? <==> w.table[id].commit.Some?
      ensures t[id].commit.Some? ==> (t[id].commit.value.sha.Some? <==> w.table[id].commit.value.sha.Some?)
    {
      if i :| 0 <= i < |children| && children[i].versionID == id {
        assert ChildOnCourse(git, children, t, w, i) && HasSha(t, id);
        assert i !in w.gaveUp ==> Core(w.table[id].commit.value).sha == Core(t[id].commit.value).sha;
      }
    }
  }

  /** Whatever has happened, a child decides as at the start, or as if its predecessor had been marked. */
  lemma DecideNow(git: Git, children: seq<Child>, t: Table, w: World, i: nat)
    requires DistinctPositions(t) && OnCourse(git, children, t, w) && i < |children| && i !in w.gaveUp
    ensures Possible(git, children, t, i, Decide(git, w.table, children[i]))
  {
    var child := children[i];
    PositionsStay(git, children, t, w);
    SamePrevious(t, w.table, child.artifactID, child.sortOrder);
    var p := Previous(t, child.artifactID, child.sortOrder);
    if p.Some? && HasChild(children, p.value) {
      var j :| 0 <= j < |children| && children[j].versionID == p.value;
      assert ChildOnCourse(git, children, t, w, j);
      if j in w.gaveUp {
        DecideMarked(git, child, children[j], w.table[p.value].commit.value.enrichedAt, "now");
        assert DependsOnWaiting(git, children, t, i, j);
      } else {
        DecideCore(git, child, t[p.value].commit.value, w.table[p.value].commit.value);
      }
    }
  }

  lemma PossibleEffect(git: Git, children: seq<Child>, t: Table, i: nat, d: Decision)
    requires OwnRows(children, t) && AllInsensitive(git, children, t) && i < |children|
      && Possible(git, children, t, i, d)
    ensures Effect(t[children[i].versionID], children[i], d)
         == Effect(t[children[i].versionID], children[i], Decide(git, t, children[i]))
    ensures d.Wait? ==> Decide(git, t, children[i]).Wait?
  {
    if d != Decide(git, t, children[i]) {
      var j: nat :| DependsOnWaiting(git, children, t, i, j) && d == LateDecision(git, children, i, j);
      assert Insensitive(git, children, t, i, j);
      DecideMarked(git, children[i], children[j], "now", "now");
    }
  }

  /** A step of child i that leaves the rows of the others alone keeps the others on course. */
  lemma OthersStayOnCourse(git: Git, children: seq<Child>, t: Table, w: World, w': World, i: nat)
    requires OnCourse(git, children, t, w) && i < |children| && w'.table.Keys == w.table.Keys
    requires forall id :: id in t && id != children[i].versionID ==> w'.table[id] == w.table[id]
    requires forall k :: k != i ==> (k in w'.ended <==> k in w.ended) && (k in w'.gaveUp <==> k in w.gaveUp)
    requires forall k :: k in w'.held && k != i ==> k in w.held && w'.held[k] == w.held[k]
    requires ChildOnCourse(git, children, t, w', i)
    ensures OnCourse(git, children, t, w')
  {
    forall id | id in t && !HasChild(children, id) ensures w'.table[id] == t[id] {
      assert id != children[i].versionID;
    }
    forall k | 0 <= k < |children| ensures ChildOnCourse(git, children, t, w', k) {
      assert ChildOnCourse(git, children, t, w, k);
      assert k != i ==> children[k].versionID != children[i].versionID;
    }
  }

  lemma WriteOnCourse(git: Git, children: seq<Child>, t: Table, w: World, i: nat)
    requires OnCourse(git, children, t, w) && AllInsensitive(git, children, t)
    requires Step(git, children, w, Write(i)).Some?
    ensures OnCourse(git, children, t, Step(git, children, w, Write(i)).value)
  {
    var w', id := Step(git, children, w, Write(i)).value, children[i].versionID;
    assert ChildOnCourse(git, children, t, w, i);
    PossibleEffect(git, children, t, i, Store(w.held[i]));
    ExtendedAgain(t[id], w.table[id], children[i], w.held[i]);
    assert w'.table[id] == w.table[id].(commit := Some(WithChangelog(w.table[id].commit.value, w.held[i])));
    OthersStayOnCourse(git, children, t, w, w', i);
  }

  /** Storing over an earlier changelog has the effect of storing for the first time. */
  lemma ExtendedAgain(was: Row, now: Row, child: Child, c: Changelog)
    requires Extended(was, now)
    ensures
      var then_ := now.(commit := Some(WithChangelog(now.commit.value, c)));
      Extended(was, then_) && Timeless(then_) == Effect(was, child, Store(c))
  {
    var a, b := was.commit.value, now.commit.value;
    assert Core(a).sha == a.sha && Core(b).sha == b.sha && Core(a).repository == a.repository
      && Core(b).repository == b.repository;
    assert Core(a).enrichedAt == a.enrichedAt && Core(b).enrichedAt == b.enrichedAt;
    assert Core(a).submodules == a.submodules && Core(b).submodules == b.submodules;
    assert Core(a).details == a.details && Core(b).details == b.details;
    assert WithChangelog(a, c) == WithChangelog(b, c);
  }

  lemma ReadOnCourse(git: Git, children: seq<Child>, t: Table, w: World, i: nat)
    requires DistinctPositions(t) && OnCourse(git, children, t, w) && AllInsensitive(git, children, t)
    requires Step(git, children, w, Read(i)).Some?
    ensures OnCourse(git, children, t, Step(git, children, w, Read(i)).value)
  {
    assert ChildOnCourse(git, children, t, w, i);
    DecideNow(git, children, t, w, i);
    PossibleEffect(git, children, t, i, Decide(git, w.table, children[i]));
    OthersStayOnCourse(git, children, t, w, Step(git, children, w, Read(i)).value, i);
  }

  lemma GiveUpOnCourse(git: Git, children: seq<Child>, t: Table, w: World, i: nat, now: string)
    requires DistinctPositions(t) && OnCourse(git, children, t, w) && AllInsensitive(git, children, t)
    requires Step(git, children, w, GiveUp(i, now)).Some?
    ensures OnCourse(git, children, t, Step(git, children, w, GiveUp(i, now)).value)
  {
    assert ChildOnCourse(git, children, t, w, i);
    DecideNow(git, children, t, w, i);
    PossibleEffect(git, children, t, i, Wait);
    OthersStayOnCourse(git, children, t, w, Step(git, children, w, GiveUp(i, now)).value, i);
  }

  lemma StepOnCourse(git: Git, children: seq<Child>, t: Table, w: World, l: Label)
    requires DistinctPositions(t) && OnCourse(git, children, t, w) && AllInsensitive(git, children, t)
    requires Step(git, children, w, l).Some?
    ensures OnCourse(git, children, t, Step(git, children, w, l).value)
  {
    match l
    case Read(i) => ReadOnCourse(git, children, t, w, i);
    case Write(i) => WriteOnCourse(git, children, t, w, i);
    case GiveUp(i, now) => GiveUpOnCourse(git, children, t, w, i, now);
  }

  lemma {:induction false} ExecuteOnCourse(git: Git, children: seq<Child>, t: Table, w: World, schedule: seq<Label>)
    requires DistinctPositions(t) && OnCourse(git, children, t, w) && AllInsensitive(git, children, t)
    requires Execute(git, children, w, schedule).Some?
    ensures OnCourse(git, children, t, Execute(git, children, w, schedule).value)
    decreases schedule
  {
    if schedule != [] {
      StepOnCourse(git, children, t, w, schedule[0]);
      ExecuteOnCourse(git, children, t, Step(git, children, w, schedule[0]).value, schedule[1..]);
    }
  }

  /** The rows of a finished run are what the decisions at the start make of them. */
  lemma FinishedRow(git: Git, children: seq<Child>, t: Table, w: World, id: int)
    requires OnCourse(git, children, t, w) && Finished(children, w) && id in t
    ensures !HasChild(children, id) ==> w.table[id] == t[id]
    ensures forall i :: 0 <= i < |children| && children[i].versionID == id ==>
      Timeless(w.table[id]) == Effect(t[id], children[i], Decide(git, t, children[i]))
  {
    forall i | 0 <= i < |children| && children[i].versionID == id
      ensures Timeless(w.table[id]) == Effect(t[id], children[i], Decide(git, t, children[i]))
    {
      assert ChildOnCourse(git, children, t, w, i);
    }
  }

  lemma InsensitiveAgree(git: Git, children: seq<Child>, t: Table, one: seq<Label>, other: seq<Label>)
    requires DistinctPositions(t) && OwnRows(children, t) && AllInsensitive(git, children, t)
    requires IsFinishedRun(git, children, t, one) && IsFinishedRun(git, children, t, other)
    ensures SameButTime(Execute(git, children, Begin(t), one).value.table, Execute(git, children, Begin(t),
      other).value.table)
  {
    var a, b := Execute(git, children, Begin(t), one).value, Execute(git, children, Begin(t), other).value;
    BeginOnCourse(git, children, t);
    ExecuteOnCourse(git, children, t, Begin(t), one);
    ExecuteOnCourse(git, children, t, Begin(t), other);
    forall id | id in t ensures Timeless(a.table[id]) == Timeless(b.table[id]) {
      FinishedRow(git, children, t, a, id);
      FinishedRow(git, children, t, b, id);
      if i :| 0 <= i < |children| && children[i].versionID == id {
        assert Timeless(a.table[id]) == Effect(t[id], children[i], Decide(git, t, children[i]));
      }
    }
  }

  lemma BeginOnCourse(git: Git, children: seq<Child>, t: Table)
    requires OwnRows(children, t)
    ensures OnCourse(git, children, t, Begin(t))
  {
    forall i | 0 <= i < |children| ensures ChildOnCourse(git, children, t, Begin(t), i) {
      assert HasSha(t, children[i].versionID);
    }
  }

  // ---------- finishing a run ----------

  ghost predicate InTable(children: seq<Child>, t: Table) {
    && (forall i, j :: 0 <= i < j < |children| ==> children[i].versionID != children[j].versionID)
    && (forall i :: 0 <= i < |children| ==> children[i].versionID in t)
  }

  /** One attempt of a child, from beginning to end. */
  lemma Act(git: Git, children: seq<Child>, w: World, k: nat) returns (schedule: seq<Label>, w': World)
    requires InTable(children, w.table) && k < |children| && k !in w.gaveUp
    ensures Execute(git, children, w, schedule) == Some(w')
    ensures w'.ended == w.ended + {k} && w.gaveUp <= w'.gaveUp <= w.gaveUp + {k} && w'.table.Keys == w.table.Keys
    ensures forall id :: id in w.table && id != children[k].versionID ==> w'.table[id] == w.table[id]
    ensures
      var id := children[k].versionID;
      Timeless(w'.table[id]) == Effect(w.table[id], children[k], Decide(git, w.table, children[k]))
  {
    var d := Decide(git, w.table, children[k]);
    if d.Store? {
      var w1 := w.(held := w.held[k := d.changelog]);
      assert Step(git, children, w, Read(k)) == Some(w1);
      ExecuteOne(git, children, w, Read(k));
      ExecuteOne(git, children, w1, Write(k));
      ExecuteAppend(git, children, w, [Read(k)], [Write(k)]);
      schedule, w' := [Read(k)] + [Write(k)], Step(git, children, w1, Write(k)).value;
    } else {
      var l := if d.Wait? then GiveUp(k, "now") else Read(k);
      ExecuteOne(git, children, w, l);
      schedule, w' := [l], Step(git, children, w, l).value;
    }
  }

  /** The children from k on finish, unless they have already; who has finished before keeps its row. */
  lemma FinishFrom(git: Git, children: seq<Child>, w: World, k: nat) returns (schedule: seq<Label>, w': World)
    requires InTable(children, w.table) && w.gaveUp <= w.ended && k <= |children|
    ensures Execute(git, children, w, schedule) == Some(w')
    ensures w.ended <= w'.ended && (forall i :: k <= i < |children| ==> i in w'.ended) && w'.table.Keys == w.table.Keys
    ensures forall i :: 0 <= i < |children| && i in w.ended ==>
      w'.table[children[i].versionID] == w.table[children[i].versionID]
    decreases |children| - k
  {
    if k == |children| {
      schedule, w' := [], w;
    } else if k in w.ended {
      schedule, w' := FinishFrom(git, children, w, k + 1);
    } else {
      var act, w1 := Act(git, children, w, k);
      var rest, w2 := FinishFrom(git, children, w1, k + 1);
      ExecuteAppend(git, children, w, act, rest);
      schedule, w' := act + rest, w2;
      EndedKeepRows(children, w, w1, w2, k);
    }
  }

  lemma EndedKeepRows(children: seq<Child>, w: World, w1: World, w2: World, k: nat)
    requires InTable(children, w.table) && k < |children| && k !in w.ended && w.ended <= w1.ended
    requires w.table.Keys == w1.table.Keys == w2.table.Keys
    requires forall id :: id in w.table && id != children[k].versionID ==> w1.table[id] == w.table[id]
    requires forall i :: 0 <= i < |children| && i in w1.ended ==>
      w2.table[children[i].versionID] == w1.table[children[i].versionID]
    ensures forall i :: 0 <= i < |children| && i in w.ended ==>
      w2.table[children[i].versionID] == w.table[children[i].versionID]
  {
    forall i | 0 <= i < |children| && i in w.ended
      ensures w2.table[children[i].versionID] == w.table[children[i].versionID]
    {
      assert i in w1.ended && children[i].versionID != children[k].versionID;
    }
  }

  /** From a world in which child i has not ended: it acts next, then the others finish. */
  lemma ActThenFinish(git: Git, children: seq<Child>, w: World, i: nat) returns (schedule: seq<Label>, w': World)
    requires InTable(children, w.table) && w.gaveUp <= w.ended && i < |children| && i !in w.ended
    ensures Execute(git, children, w, schedule) == Some(w') && Finished(children, w') && w'.table.Keys == w.table.Keys
    ensures
      var id := children[i].versionID;
      Timeless(w'.table[id]) == Effect(w.table[id], children[i], Decide(git, w.table, children[i]))
  {
    var act, w1 := Act(git, children, w, i);
    var rest, w2 := FinishFrom(git, children, w1, 0);
    ExecuteAppend(git, children, w, act, rest);
    schedule, w' := act + rest, w2;
  }

  /** After child j has given up, child i takes its late decision. */
  lemma LateDecisionIs(git: Git, children: seq<Child>, t: Table, i: nat, j: nat)
    requires DistinctPositions(t) && OwnRows(children, t) && DependsOnWaiting(git, children, t, i, j)
    ensures Decide(git, MarkPending(t, children[j], "now"), children[i]) == LateDecision(git, children, i, j)
  {
    var t' := MarkPending(t, children[j], "now");
    assert HasSha(t, children[j].versionID);
    assert SamePositions(t, t');
    SamePrevious(t, t', children[i].artifactID, children[i].sortOrder);
  }

  lemma SensitiveDisagree(git: Git, children: seq<Child>, t: Table, i: nat, j: nat)
    requires DistinctPositions(t) && OwnRows(children, t)
    requires DependsOnWaiting(git, children, t, i, j) && !Insensitive(git, children, t, i, j)
    ensures !FinishedAgree(git, children, t)
  {
    var w0, id := Begin(t), children[i].versionID;
    assert HasSha(t, id) && HasSha(t, children[j].versionID);
    var one, a := ActThenFinish(git, children, w0, i);
    var w1 := Step(git, children, w0, GiveUp(j, "now")).value;
    ExecuteOne(git, children, w0, GiveUp(j, "now"));
    LateDecisionIs(git, children, t, i, j);
    assert w1.table[id] == t[id];
    var rest, b := ActThenFinish(git, children, w1, i);
    ExecuteAppend(git, children, w0, [GiveUp(j, "now")], rest);
    var other := [GiveUp(j, "now")] + rest;
    assert Timeless(a.table[id]) != Timeless(b.table[id]);
    assert IsFinishedRun(git, children, t, one) && IsFinishedRun(git, children, t, other);
    assert Execute(git, children, Begin(t), one).value == a && Execute(git, children, Begin(t), other).value == b;
    assert !SameButTime(a.table, b.table);
  }

  /** All finished runs leave the same table, up to the time of marks, if and only if no child whose predecessor
      may be marked in this phase decides differently, in effect, before and after. */
  lemma FinishedAgreeIff(git: Git, children: seq<Child>, t: Table)
    requires DistinctPositions(t) && OwnRows(children, t)
    ensures FinishedAgree(git, children, t) <==> AllInsensitive(git, children, t)
  {
    if AllInsensitive(git, children, t) {
      forall one, other | IsFinishedRun(git, children, t, one) && IsFinishedRun(git, children, t, other)
        ensures SameButTime(Execute(git, children, Begin(t), one).value.table,
                            Execute(git, children, Begin(t), other).value.table)
      {
        InsensitiveAgree(git, children, t, one, other);
      }
    } else {
      var i, j :| DependsOnWaiting(git, children, t, i, j) && !Insensitive(git, children, t, i, j);
      SensitiveDisagree(git, children, t, i, j);
    }
  }

  /** In particular, the order matters when a child waits for a child that waits, unless its repository is not cached:
      it gives up, or finds its predecessor marked and stores a changelog. */
  lemma WaitingChainDisagrees(git: Git, children: seq<Child>, t: Table, i: nat, j: nat)
    requires DistinctPositions(t) && OwnRows(children, t) && RealCommits(children)
    requires DependsOnWaiting(git, children, t, i, j) && Decide(git, t, children[i]).Wait?
    requires MainCommits(git, children[i], Marked(children[j], "now")).Some?
    ensures !FinishedAgree(git, children, t)
  {
    assert HasSha(t, children[i].versionID);
    var row, late := t[children[i].versionID], LateDecision(git, children, i, j);
    assert late.Store?;
    assert Effect(row, children[i], Wait).commit.value.changelog == None;
    assert Effect(row, children[i], late).commit.value.changelog == Some(late.changelog);
    SensitiveDisagree(git, children, t, i, j);
  }
}
