/** How a batch ends: every schedule is finite, and exactly for which lists every one of them completes the batch,
    some one does, or every completed one counts all versions. */
module BatchProgress {
  import opened Common
  import opened SlidingWindow

  // ---------- every schedule is finite ----------

  function Measure(w: World): nat
    requires w.run.next <= |w.run.versions|
  {
    2 * |Remaining(w)| + |w.run.currentRecords|
  }

  lemma {:induction false} StartAllMeasure(w: World, versions: seq<Version>, windowSize: nat)
    requires Invariant(w, versions, windowSize) && w.phase.Active?
    ensures Invariant(StartAll(w), versions, windowSize)
    ensures Measure(StartAll(w)) <= Measure(w) && (CanStart(w.run) ==> Measure(StartAll(w)) < Measure(w))
    ensures |StartAll(w).run.pending| - |w.run.pending| <= |Remaining(w)| - |Remaining(StartAll(w))|
    ensures CanStart(w.run) ==> |Remaining(StartAll(w))| < |Remaining(w)|
    decreases |w.run.versions| - w.run.next
  {
    if CanStart(w.run) {
      StartOneInvariant(w, versions, windowSize);
      StartOneAccount(w, versions, windowSize);
      StartAllMeasure(StartOne(w), versions, windowSize);
    }
  }

  /** Starting children and recording a completion bring the batch closer to its end; no other step moves it away. */
  lemma MeasureDecreases(w: World, l: Label, versions: seq<Version>, windowSize: nat)
    requires Invariant(w, versions, windowSize) && Step(w, l).Some?
    ensures Invariant(Step(w, l).value, versions, windowSize)
    ensures Measure(Step(w, l).value) <= Measure(w)
    ensures l.Start? || (l.Receive? && w.run.channel[0] in w.run.currentRecords) ==>
      Measure(Step(w, l).value) < Measure(w)
  {
    StepInvariant(w, l, versions, windowSize);
    match l
    case Start => StartAllMeasure(w, versions, windowSize);
    case ContinueAsNew =>
      HandOverInvariant(w, versions, windowSize);
      HandOverRun(w.run, w.encoding);
    case Finish => DrainKeeps(w.run);
    case _ =>
  }

  /** What is left to do, for the parent, the server and the children. */
  function Work(w: World, versions: seq<Version>, windowSize: nat): nat
    requires Invariant(w, versions, windowSize)
  {
    10 * |Remaining(w)| + 9 * |w.run.pending| + 2 * |w.credit| + |w.open| + |w.run.channel|
    + (|versions| + 1 - w.runs) + (if w.phase.Active? then 1 else 0)
  }

  lemma WorkOfParent(w: World, l: Label, versions: seq<Version>, windowSize: nat)
    requires Invariant(w, versions, windowSize) && Step(w, l).Some?
    requires l.Start? || l.Receive? || l.ContinueAsNew? || l.StartFails? || l.Finish?
    requires Invariant(Step(w, l).value, versions, windowSize)
    ensures Work(Step(w, l).value, versions, windowSize) < Work(w, versions, windowSize)
  {
    match l
    case Start => StartAllMeasure(w, versions, windowSize); StartAllIsBurst(w);
    case ContinueAsNew =>
      HandOverInvariant(w, versions, windowSize);
      HandOverRun(w.run, w.encoding);
    case Finish => DrainKeeps(w.run);
    case _ =>
  }

  lemma WorkOfAnswer(w: World, v: Version, versions: seq<Version>, windowSize: nat)
    requires Invariant(w, versions, windowSize) && Step(w, Answer(v)).Some?
    requires Invariant(Step(w, Answer(v)).value, versions, windowSize)
    ensures Work(Step(w, Answer(v)).value, versions, windowSize) < Work(w, versions, windowSize)
  {
    var w' := Step(w, Answer(v)).value;
    assert |w'.run.pending| == |w.run.pending| - 1;
    if v !in w.open {
      assert w.credit[v] == 0;
      assert |w'.credit| == |w.credit| + MAX_ATTEMPTS && |w'.open| == |w.open| + 1;
    }
  }

  lemma WorkOfChild(w: World, l: Label, versions: seq<Version>, windowSize: nat)
    requires Invariant(w, versions, windowSize) && Step(w, l).Some? && (l.Signal? || l.Close?)
    requires Invariant(Step(w, l).value, versions, windowSize)
    ensures Work(Step(w, l).value, versions, windowSize) < Work(w, versions, windowSize)
  {
    var w' := Step(w, l).value;
    if l.Signal? {
      assert |w'.credit| == |w.credit| - 1 && |w'.run.channel| == |w.run.channel| + 1;
    } else {
      assert |w'.credit| == |w.credit| - w.credit[l.v] && |w'.open| == |w.open| - 1;
    }
  }

  lemma WorkDecreases(w: World, l: Label, versions: seq<Version>, windowSize: nat)
    requires Invariant(w, versions, windowSize) && Step(w, l).Some?
    ensures Invariant(Step(w, l).value, versions, windowSize)
    ensures Work(Step(w, l).value, versions, windowSize) < Work(w, versions, windowSize)
  {
    StepInvariant(w, l, versions, windowSize);
    match l
    case Answer(v) => WorkOfAnswer(w, v, versions, windowSize);
    case Signal(_) => WorkOfChild(w, l, versions, windowSize);
    case Close(_) => WorkOfChild(w, l, versions, windowSize);
    case _ => WorkOfParent(w, l, versions, windowSize);
  }

  lemma {:induction false} ScheduleBounded(w: World, schedule: seq<Label>, versions: seq<Version>, windowSize: nat)
    requires Invariant(w, versions, windowSize) && Execute(w, schedule).Some?
    ensures |schedule| <= Work(w, versions, windowSize)
    decreases schedule
  {
    if schedule != [] {
      WorkDecreases(w, schedule[0], versions, windowSize);
      ScheduleBounded(Step(w, schedule[0]).value, schedule[1..], versions, windowSize);
    }
  }

  /** No scheduler keeps a batch busy for more than 11 N + 1 steps. */
  lemma SchedulesFinite(encoding: Encoding, versions: seq<Version>, windowSize: nat, schedule: seq<Label>)
    requires windowSize > 0 && Execute(Initial(encoding, versions, windowSize), schedule).Some?
    ensures |schedule| <= 11 * |versions| + 1
  {
    InitialInvariant(encoding, versions, windowSize);
    ScheduleBounded(Initial(encoding, versions, windowSize), schedule, versions, windowSize);
  }

  // ---------- where schedules end ----------

  ghost predicate NoStepLeft(w: World) {
    forall l :: Step(w, l).None?
  }

  /** Some version waits in the window for a child that was never started, and no other child is left. */
  predicate WaitsInVain(w: World) {
    w.run.refused && w.run.currentRecords != {} && w.open == {} && w.run.pending == {} && w.run.channel == []
  }

  /** The parent, the server or a child can move, unless the parent waits in vain. */
  lemma NeverStuck(w: World, versions: seq<Version>, windowSize: nat) returns (l: Label)
    requires windowSize > 0 && Invariant(w, versions, windowSize) && w.phase.Active? && !WaitsInVain(w)
    ensures Step(w, l).Some?
  {
    if CanStart(w.run) && (w.run.newRun || w.run.channel == []) {
      l := Start;
    } else if w.run.channel != [] {
      l := Receive;
    } else if v :| v in w.run.pending {
      l := Answer(v);
    } else if v :| v in w.open {
      l := if v in w.credit then Signal(v) else Close(v);
    } else {
      assert forall v :: v in w.run.currentRecords ==> !Covered(w, v);
      assert w.run.currentRecords == {} && PageDone(w.run);
      l := if LastPage(w.run) then Finish else if w.run.refused then StartFails else ContinueAsNew;
    }
  }

  /** If nothing at all can happen any more in an active batch, it waits for a version whose start was refused. */
  lemma StuckOnlyInVain(w: World, versions: seq<Version>, windowSize: nat)
    requires windowSize > 0 && Invariant(w, versions, windowSize) && w.phase.Active? && NoStepLeft(w)
    ensures WaitsInVain(w)
  {
    if !WaitsInVain(w) {
      var l := NeverStuck(w, versions, windowSize);
    }
  }

  /** From every world some schedule leads to an end. */
  lemma RunToEnd(w: World, versions: seq<Version>, windowSize: nat) returns (schedule: seq<Label>)
    requires Invariant(w, versions, windowSize)
    ensures Execute(w, schedule).Some? && NoStepLeft(Execute(w, schedule).value)
    decreases Work(w, versions, windowSize)
  {
    if l :| Step(w, l).Some? {
      WorkDecreases(w, l, versions, windowSize);
      var rest := RunToEnd(Step(w, l).value, versions, windowSize);
      ExecuteOne(w, l, rest);
      schedule := [l] + rest;
    } else {
      schedule := [];
    }
  }

  /** Whatever scheduler, server and children do, the batch ends by returning the number of versions. */
  ghost predicate AllRunsComplete(encoding: Encoding, versions: seq<Version>, windowSize: nat) {
    forall schedule {:trigger Execute(Initial(encoding, versions, windowSize), schedule)} ::
      var w := Execute(Initial(encoding, versions, windowSize), schedule);
      w.Some? && NoStepLeft(w.value) ==> w.value.phase == Completed(|versions|)
  }

  lemma DistinctRunsComplete(encoding: Encoding, versions: seq<Version>, windowSize: nat, schedule: seq<Label>)
    requires windowSize > 0 && Distinct(versions) && Execute(Initial(encoding, versions, windowSize), schedule).Some?
    requires NoStepLeft(Execute(Initial(encoding, versions, windowSize), schedule).value)
    ensures Execute(Initial(encoding, versions, windowSize), schedule).value.phase == Completed(|versions|)
  {
    InitialInvariant(encoding, versions, windowSize);
    ExecuteInvariant(Initial(encoding, versions, windowSize), schedule, versions, windowSize);
    var w := Execute(Initial(encoding, versions, windowSize), schedule).value;
    if w.phase.Active? {
      StuckOnlyInVain(w, versions, windowSize);
    } else if w.phase.Completed? {
      CompletedBatch(encoding, versions, windowSize, schedule);
    }
  }

  // ---------- doomed batches ----------

  /** A version of the window without child and without signal. */
  predicate Orphan(w: World, v: Version) {
    v in w.run.currentRecords && v !in w.run.channel && v !in w.run.pending && v !in w.open
  }

  ghost predicate Doomed(w: World) {
    Lost(w) >= 1 || exists v :: Orphan(w, v)
  }

  lemma {:induction false} StartAllDoomed(w: World, versions: seq<Version>, windowSize: nat)
    requires Invariant(w, versions, windowSize) && w.phase.Active? && Doomed(w)
    ensures Doomed(StartAll(w))
    decreases |w.run.versions| - w.run.next
  {
    if CanStart(w.run) {
      StartOneInvariant(w, versions, windowSize);
      StartOneAccount(w, versions, windowSize);
      NextVersion(w, versions, windowSize);
      if Lost(w) < 1 {
        var v :| Orphan(w, v);
        assert versions[|w.started|] != v ==> Orphan(StartOne(w), v);
      }
      StartAllDoomed(StartOne(w), versions, windowSize);
    }
  }

  lemma StepDoomed(w: World, l: Label, versions: seq<Version>, windowSize: nat)
    requires Invariant(w, versions, windowSize) && Doomed(w) && Step(w, l).Some?
    ensures Doomed(Step(w, l).value)
  {
    StepInvariant(w, l, versions, windowSize);
    if l.Start? {
      StartAllDoomed(w, versions, windowSize);
    } else if Lost(w) < 1 {
      var v :| Orphan(w, v);
      if l.ContinueAsNew? { HandOverRun(w.run, w.encoding); }
      assert Orphan(Step(w, l).value, v);
    }
  }

  /** A doomed batch never returns the number of versions. */
  lemma {:induction false} DoomedNeverCompletes(w: World, schedule: seq<Label>, versions: seq<Version>, windowSize: nat)
    requires Invariant(w, versions, windowSize) && Doomed(w) && Execute(w, schedule).Some?
    ensures Execute(w, schedule).value.phase != Completed(|versions|)
    decreases schedule
  {
    if schedule != [] {
      StepInvariant(w, schedule[0], versions, windowSize);
      StepDoomed(w, schedule[0], versions, windowSize);
      DoomedNeverCompletes(Step(w, schedule[0]).value, schedule[1..], versions, windowSize);
    } else {
      assert w.phase.Completed? ==> w.started + [] == versions;
    }
  }

  // ---------- up to the first repeated version ----------

  /** Nothing has been repeated yet. The children of held versions are silent, every other child that has started
      has signalled once, its signal is recorded, and it stays open. */
  ghost predicate Settling(w: World, held: set<Version>) {
    && w.phase.Active? && !w.run.refused && w.run.channel == []
    && w.run.currentRecords == w.run.pending + (held * Elems(w.started))
    && w.run.pending !! w.open
    && w.open + w.run.pending == Elems(w.started)
    && forall v :: v in w.open ==> w.credit[v] == if v in held then MAX_ATTEMPTS else MAX_ATTEMPTS - 1
  }

  /** Which version is the first to repeat an earlier one. */
  ghost predicate FirstRepeat(versions: seq<Version>, i: nat, j: nat) {
    i < j < |versions| && versions[i] == versions[j] && Distinct(versions[..j])
  }

  lemma {:induction false} HasFirstRepeat(versions: seq<Version>) returns (i: nat, j: nat)
    requires !Distinct(versions)
    ensures FirstRepeat(versions, i, j)
  {
    var init := versions[..|versions| - 1];
    if Distinct(init) {
      var a, b :| 0 <= a < b < |versions| && versions[a] == versions[b];
      assert forall k :: 0 <= k < |init| ==> init[k] == versions[k];
      i, j := a, b;
    } else {
      i, j := HasFirstRepeat(init);
      assert versions[..j] == init[..j];
    }
  }

  lemma NotRepeatedYet(w: World, versions: seq<Version>, windowSize: nat, j: nat)
    requires Account(w, versions, windowSize) && CanStart(w.run)
    requires |w.started| < j <= |versions| && Distinct(versions[..j])
    ensures |w.started| < |versions| && versions[|w.started|] !in Elems(w.started)
  {
    NextVersion(w, versions, windowSize);
    assert forall k :: 0 <= k < |w.started| ==> w.started[k] == versions[..j][k];
    assert versions[|w.started|] == versions[..j][|w.started|];
  }

  lemma StartOneSettling(w: World, held: set<Version>, versions: seq<Version>, windowSize: nat, j: nat)
    requires Invariant(w, versions, windowSize) && Settling(w, held) && CanStart(w.run)
    requires |w.started| < j <= |versions| && Distinct(versions[..j])
    ensures Settling(StartOne(w), held)
  {
    NextVersion(w, versions, windowSize);
    NotRepeatedYet(w, versions, windowSize, j);
    var v, w' := versions[|w.started|], StartOne(w);
    assert v !in w.run.pending && v !in w.run.running;
    assert w'.run.pending == w.run.pending + {v} && w'.run.currentRecords == w.run.currentRecords + {v};
    assert w'.run.currentRecords == w'.run.pending + (held * Elems(w'.started));
  }

  lemma {:induction false} StartAllSettling(w: World, held: set<Version>, versions: seq<Version>, windowSize: nat,
                                            j: nat)
    requires Invariant(w, versions, windowSize) && Settling(w, held)
    requires |w.started| <= j < |versions| && Distinct(versions[..j])
    ensures Invariant(StartAll(w), versions, windowSize)
    ensures |StartAll(w).started| > j || (Settling(StartAll(w), held) && !CanStart(StartAll(w).run))
    decreases |w.run.versions| - w.run.next
  {
    StartAllInvariant(w, versions, windowSize);
    if CanStart(w.run) {
      if |w.started| == j {
        StartAllIsBurst(StartOne(w));
      } else {
        StartOneSettling(w, held, versions, windowSize, j);
        StartOneInvariant(w, versions, windowSize);
        StartAllSettling(StartOne(w), held, versions, windowSize, j);
      }
    }
  }

  /** The world after the child of u has started, and has signalled unless it is held. */
  function Started(w: World, u: Version): World {
    w.(run := AnswerStart(w.run, u, true), open := w.open + {u}, credit := w.credit[u := MAX_ATTEMPTS])
  }

  function Recorded(w: World, u: Version): World
    requires u in w.credit
  {
    var r := w.run.(currentRecords := w.run.currentRecords - {u}, progress := w.run.progress + 1,
                    channel := [], newRun := false);
    w.(run := r, credit := w.credit[u := w.credit[u] - 1])
  }

  lemma SignalSteps(w: World, u: Version)
    requires w.phase.Active? && w.run.channel == []
    requires u in w.credit && u in w.run.currentRecords && !(w.run.newRun && CanStart(w.run))
    ensures Step(w, Signal(u)).Some? && Step(Step(w, Signal(u)).value, Receive) == Some(Recorded(w, u))
  {
    var w1 := Step(w, Signal(u)).value;
    assert w1.run == w.run.(channel := [u]);
    assert [u][1..] == [];
  }

  /** A child of the window signals, and the pump records it. */
  lemma SignalRecorded(w: World, u: Version, versions: seq<Version>, windowSize: nat)
    requires Invariant(w, versions, windowSize) && w.phase.Active? && w.run.channel == []
    requires u in w.credit && u in w.run.currentRecords && !(w.run.newRun && CanStart(w.run))
    ensures Execute(w, [Signal(u)] + [Receive]) == Some(Recorded(w, u))
    ensures Invariant(Recorded(w, u), versions, windowSize)
  {
    SignalSteps(w, u);
    var w1 := Step(w, Signal(u)).value;
    StepInvariant(w, Signal(u), versions, windowSize);
    StepInvariant(w1, Receive, versions, windowSize);
    ExecuteOne(w1, Receive, []);
    ExecuteOne(w, Signal(u), [Receive]);
  }

  lemma StartedSettling(w: World, u: Version, held: set<Version>)
    requires Settling(w, held) && u in w.run.pending
    ensures u in held ==> Settling(Started(w, u), held)
    ensures u !in held ==> Settling(Recorded(Started(w, u), u), held)
  {
  }

  lemma SettleOnePending(w: World, u: Version, held: set<Version>, versions: seq<Version>, windowSize: nat)
    returns (schedule: seq<Label>)
    requires Invariant(w, versions, windowSize) && Settling(w, held) && u in w.run.pending
    ensures Execute(w, schedule) == Some(if u in held then Started(w, u) else Recorded(Started(w, u), u))
    ensures Invariant(Execute(w, schedule).value, versions, windowSize) && Settling(Execute(w, schedule).value, held)
  {
    AnswerInvariant(w, u, versions, windowSize);
    StartedSettling(w, u, held);
    var w1 := Started(w, u);
    assert Step(w, Answer(u)) == Some(w1);
    if u in held {
      ExecuteOne(w, Answer(u), []);
      schedule := [Answer(u)];
    } else {
      SignalRecorded(w1, u, versions, windowSize);
      ExecuteOne(w, Answer(u), [Signal(u)] + [Receive]);
      schedule := [Answer(u)] + ([Signal(u)] + [Receive]);
    }
  }

  /** Every started child signals once, unless it is held, and none closes. */
  lemma SettlePending(w: World, held: set<Version>, versions: seq<Version>, windowSize: nat)
    returns (schedule: seq<Label>, w': World)
    requires Invariant(w, versions, windowSize) && Settling(w, held)
    ensures Execute(w, schedule) == Some(w')
    ensures Invariant(w', versions, windowSize) && Settling(w', held) && w'.run.pending == {}
    ensures w'.started == w.started && Remaining(w') == Remaining(w)
    decreases |w.run.pending|
  {
    if w.run.pending == {} {
      schedule, w' := [], w;
    } else {
      var u :| u in w.run.pending;
      var first := SettleOnePending(w, u, held, versions, windowSize);
      var w1 := Execute(w, first).value;
      var rest, w2 := SettlePending(w1, held, versions, windowSize);
      ExecuteAppend(w, first, rest);
      schedule, w' := first + rest, w2;
    }
  }

  /** Run until the page loop is about to start the first repeated version. */
  lemma ReachRepeat(w: World, held: set<Version>, versions: seq<Version>, windowSize: nat, j: nat)
    returns (schedule: seq<Label>, w': World)
    requires Invariant(w, versions, windowSize) && Settling(w, held) && w.run.pending == {}
    requires |held| < windowSize
    requires |w.started| <= j < |versions| && Distinct(versions[..j])
    ensures Execute(w, schedule) == Some(w')
    ensures Invariant(w', versions, windowSize) && Settling(w', held) && w'.run.pending == {}
    ensures CanStart(w'.run) && |w'.started| <= j < |StartAll(w').started|
    decreases |Remaining(w)|, if PageDone(w.run) then 1 else 0
  {
    SubsetSize(w.run.currentRecords, held);
    assert |Remaining(w)| == |versions| - |w.started|;
    var first: seq<Label>, w1: World;
    if PageDone(w.run) {
      HandOverSettled(w, held, versions, windowSize);
      ExecuteOne(w, ContinueAsNew, []);
      first, w1 := [ContinueAsNew], Step(w, ContinueAsNew).value;
    } else if |StartAll(w).started| > j {
      return [], w;
    } else {
      StartAllSettling(w, held, versions, windowSize, j);
      StartAllMeasure(w, versions, windowSize);
      var settle;
      settle, w1 := SettlePending(StartAll(w), held, versions, windowSize);
      ExecuteOne(w, Start, settle);
      first := [Start] + settle;
    }
    var rest, w2 := ReachRepeat(w1, held, versions, windowSize, j);
    ExecuteAppend(w, first, rest);
    schedule, w' := first + rest, w2;
  }

  lemma HandOverSettled(w: World, held: set<Version>, versions: seq<Version>, windowSize: nat)
    requires Invariant(w, versions, windowSize) && Settling(w, held) && w.run.pending == {}
    requires PageDone(w.run) && |w.started| < |versions|
    ensures
      var w' := Step(w, ContinueAsNew);
      && w'.Some? && Invariant(w'.value, versions, windowSize) && Settling(w'.value, held) && w'.value.run.pending == {}
      && w'.value.started == w.started && Remaining(w'.value) == Remaining(w) && !PageDone(w'.value.run)
  {
    assert |Remaining(w)| == |versions| - |w.started|;
    HandOverInvariant(w, versions, windowSize);
    HandOverRun(w.run, w.encoding);
    assert Step(w, ContinueAsNew).value.run.currentRecords == w.run.currentRecords;
  }

  lemma {:induction false} StartAllGrows(w: World)
    ensures w.run.currentRecords <= StartAll(w).run.currentRecords && w.run.pending <= StartAll(w).run.pending
    ensures w.run.refused ==> StartAll(w).run.refused
    decreases |w.run.versions| - w.run.next
  {
    if CanStart(w.run) {
      StartAllGrows(StartOne(w));
    }
  }

  /** A turn of the page loop puts what it starts into the window. */
  lemma {:induction false} StartedInWindow(w: World, versions: seq<Version>, windowSize: nat, i: nat)
    requires Invariant(w, versions, windowSize) && w.phase.Active?
    requires |w.started| <= i < |versions| && i < |StartAll(w).started|
    ensures versions[i] in StartAll(w).run.currentRecords
    decreases |w.run.versions| - w.run.next
  {
    NextVersion(w, versions, windowSize);
    StartOneInvariant(w, versions, windowSize);
    if |w.started| < i {
      StartedInWindow(StartOne(w), versions, windowSize, i);
    } else {
      StartAllGrows(StartOne(w));
    }
  }

  /** Starting a version that is in the window loses one. */
  lemma {:induction false} StartAllLoses(w: World, versions: seq<Version>, windowSize: nat, j: nat)
    requires Invariant(w, versions, windowSize) && w.phase.Active?
    requires |w.started| <= j < |versions| && j < |StartAll(w).started|
    requires versions[j] in w.run.currentRecords
    ensures Lost(StartAll(w)) > Lost(w)
    decreases |w.run.versions| - w.run.next
  {
    StartOneInvariant(w, versions, windowSize);
    StartOneAccount(w, versions, windowSize);
    if |w.started| < j {
      StartAllLoses(StartOne(w), versions, windowSize, j);
    } else {
      StartAllInvariant(StartOne(w), versions, windowSize);
    }
  }

  /** So does starting it twice in one turn of the page loop. */
  lemma {:induction false} StartAllTwiceLoses(w: World, versions: seq<Version>, windowSize: nat, i: nat, j: nat)
    requires Invariant(w, versions, windowSize) && w.phase.Active?
    requires |w.started| <= i < j < |versions| && j < |StartAll(w).started| && versions[i] == versions[j]
    ensures Lost(StartAll(w)) > Lost(w)
    decreases |w.run.versions| - w.run.next
  {
    NextVersion(w, versions, windowSize);
    StartOneInvariant(w, versions, windowSize);
    StartOneAccount(w, versions, windowSize);
    if |w.started| < i {
      StartAllTwiceLoses(StartOne(w), versions, windowSize, i, j);
    } else {
      StartAllLoses(StartOne(w), versions, windowSize, j);
    }
  }

  // ---------- every schedule completes the batch exactly when versions are distinct ----------

  /** The repeated start is refused while the first child is open, which then closes. */
  lemma Refuse(w: World, versions: seq<Version>, windowSize: nat, v: Version) returns (schedule: seq<Label>)
    requires Invariant(w, versions, windowSize) && w.phase.Active? && w.run.channel == []
    requires v in w.run.currentRecords && v in w.open && w.credit[v] < MAX_ATTEMPTS
    ensures Execute(w, schedule).Some? && Doomed(Execute(w, schedule).value)
    ensures Invariant(Execute(w, schedule).value, versions, windowSize)
    decreases |w.run.pending|
  {
    if v in w.run.pending {
      AnswerInvariant(w, v, versions, windowSize);
      var w1 := Step(w, Answer(v)).value;
      var rest := Refuse(w1, versions, windowSize, v);
      ExecuteOne(w, Answer(v), rest);
      schedule := [Answer(v)] + rest;
    } else {
      CloseInvariant(w, v, versions, windowSize);
      ExecuteOne(w, Close(v), []);
      assert Orphan(Step(w, Close(v)).value, v);
      schedule := [Close(v)];
    }
  }

  lemma InitialSettling(encoding: Encoding, versions: seq<Version>, windowSize: nat, held: set<Version>)
    requires windowSize > 0
    ensures Settling(Initial(encoding, versions, windowSize), held)
  {
    assert held * Elems<Version>([]) == {};
  }

  /** A repeated version can doom the batch, whatever the size of the window. */
  lemma RepeatDooms(encoding: Encoding, versions: seq<Version>, windowSize: nat, i: nat, j: nat)
    returns (schedule: seq<Label>)
    requires windowSize > 0 && FirstRepeat(versions, i, j)
    ensures Execute(Initial(encoding, versions, windowSize), schedule).Some?
    ensures Doomed(Execute(Initial(encoding, versions, windowSize), schedule).value)
    ensures Invariant(Execute(Initial(encoding, versions, windowSize), schedule).value, versions, windowSize)
  {
    var w0 := Initial(encoding, versions, windowSize);
    InitialInvariant(encoding, versions, windowSize);
    InitialSettling(encoding, versions, windowSize, {});
    var before, w := ReachRepeat(w0, {}, versions, windowSize, j);
    var w1 := StartAll(w);
    StartAllInvariant(w, versions, windowSize);
    StartAllIsBurst(w);
    ExecuteOne(w, Start, []);
    ExecuteAppend(w0, before, [Start]);
    schedule := before + [Start];
    if |w.started| <= i {
      StartAllTwiceLoses(w, versions, windowSize, i, j);
    } else {
      assert w.started == versions[..|w.started|];
      assert w.started[i] in Elems(w.started);
      StartedInWindow(w, versions, windowSize, j);
      var refuse := Refuse(w1, versions, windowSize, versions[j]);
      ExecuteAppend(w0, before + [Start], refuse);
      schedule := before + [Start] + refuse;
    }
  }

  /** Every schedule that runs to its end completes the batch with the number of versions
      if and only if the versions are distinct. */
  lemma AllRunsCompleteIff(encoding: Encoding, versions: seq<Version>, windowSize: nat)
    requires windowSize > 0
    ensures AllRunsComplete(encoding, versions, windowSize) <==> Distinct(versions)
  {
    var w0 := Initial(encoding, versions, windowSize);
    if Distinct(versions) {
      forall schedule | Execute(w0, schedule).Some? && NoStepLeft(Execute(w0, schedule).value)
        ensures Execute(w0, schedule).value.phase == Completed(|versions|)
      {
        DistinctRunsComplete(encoding, versions, windowSize, schedule);
      }
    } else {
      var i, j := HasFirstRepeat(versions);
      var doom := RepeatDooms(encoding, versions, windowSize, i, j);
      var w := Execute(w0, doom).value;
      var rest := RunToEnd(w, versions, windowSize);
      DoomedNeverCompletes(w, rest, versions, windowSize);
      ExecuteAppend(w0, doom, rest);
      assert Execute(w0, doom + rest).Some?;
    }
  }

  predicate IsStep(w: World, l: Label, w': World) {
    Step(w, l) == Some(w')
  }

  predicate IsTrace(w: seq<World>, s: seq<Label>) {
    |w| == |s| + 1 && forall k :: 0 <= k < |s| ==> IsStep(w[k], s[k], w[k + 1])
  }

  lemma {:induction false} TraceExecutes(w: seq<World>, s: seq<Label>)
    requires IsTrace(w, s)
    ensures Execute(w[0], s) == Some(w[|s|])
  {
    if s != [] {
      assert IsStep(w[0], s[0], w[0 + 1]);
      assert forall k :: 0 <= k < |s| - 1 ==> s[1..][k] == s[k + 1];
      TraceExecutes(w[1..], s[1..]);
    }
  }

  lemma FirstStartCompletes(encoding: Encoding, v: Version) returns (w: World)
    ensures Execute(Initial(encoding, [v, v], 1), [Start, Answer(v), Signal(v), Receive]) == Some(w)
    ensures w == World(encoding, RunState([v, v], 1, 0, 1, 1, {}, [], {}, {v}, false, false), Active,
                       {v}, multiset{v, v}, [v], 1)
  {
    var w0 := Initial(encoding, [v, v], 1);
    var w1 := World(encoding, RunState([v, v], 1, 0, 1, 0, {v}, [], {v}, {}, false, false), Active,
                    {}, multiset{}, [v], 1);
    assert StartOne(w0) == w1 && StartAll(w0) == w1;
    var w2 := Step(w1, Answer(v)).value;
    var w3 := Step(w2, Signal(v)).value;
    assert w3.run.channel == [v] && w3.credit == multiset{v, v};
    w := Step(w3, Receive).value;
    TraceExecutes([w0, w1, w2, w3, w], [Start, Answer(v), Signal(v), Receive]);
  }

  /** The smallest example: with a window of one, the second start of a version is refused while its first child,
      which has signalled, is open; that child closes, and the batch waits for ever. */
  lemma RepeatGetsStuck(encoding: Encoding, v: Version) returns (w: World)
    ensures Execute(Initial(encoding, [v, v], 1), [Start, Answer(v), Signal(v), Receive] + [Start, Close(v)]) == Some(w)
    ensures w.phase.Active? && NoStepLeft(w)
  {
    var w4 := FirstStartCompletes(encoding, v);
    var w5 := World(encoding, RunState([v, v], 1, 0, 2, 1, {v}, [], {}, {v}, true, false), Active,
                    {v}, multiset{v, v}, [v, v], 1);
    w := World(encoding, RunState([v, v], 1, 0, 2, 1, {v}, [], {}, {}, true, false), Active, {}, multiset{}, [v, v], 1);
    SecondStartRefused(w4, w5, w, v);
    TraceExecutes([w4, w5, w], [Start, Close(v)]);
    ExecuteAppend(Initial(encoding, [v, v], 1), [Start, Answer(v), Signal(v), Receive], [Start, Close(v)]);
    InVainIsStuck(w);
  }

  lemma SecondStartRefused(w4: World, w5: World, w6: World, v: Version)
    requires w4.run == RunState([v, v], 1, 0, 1, 1, {}, [], {}, {v}, false, false)
    requires w4.phase.Active? && w4.open == {v} && w4.credit == multiset{v, v} && w4.started == [v]
    requires w5 == w4.(run := RunState([v, v], 1, 0, 2, 1, {v}, [], {}, {v}, true, false), started := [v, v])
    requires w6 == w5.(run := w5.run.(running := {}), open := {}, credit := multiset{})
    ensures IsStep(w4, Start, w5) && IsStep(w5, Close(v), w6)
  {
    assert StartOne(w4) == w5 && StartAll(w4) == w5;
    assert multiset{v, v}[v := 0] == multiset{};
  }

  lemma InVainIsStuck(w: World)
    requires WaitsInVain(w) && w.credit == multiset{} && PageDone(w.run) && LastPage(w.run)
    ensures NoStepLeft(w)
  {
  }
}
