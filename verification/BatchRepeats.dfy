/** Batches of versions that are not distinct: completing the last page, and lists that no schedule completes. */
module BatchRepeats {
  import opened Common
  import opened SlidingWindow
  import opened BatchProgress

  // ---------- completing the last page ----------

  /** On the last page, with every version of the window on its way to a signal. */
  ghost predicate Clearable(w: World) {
    && w.phase.Active? && LastPage(w.run)
    && (w.run.newRun ==> w.run.currentRecords == {})
    && (w.run.newRun || w.run.pending != {} ==> w.run.channel == [])
    && w.run.pending !! w.open && w.run.pending <= w.run.currentRecords
    && (forall v :: v in w.run.currentRecords ==>
         v in w.run.channel || v in w.run.pending || v in w.credit)
    && (forall v :: v in w.open && w.credit[v] == MAX_ATTEMPTS ==> v in w.run.currentRecords && v !in w.run.channel)
  }

  /** A turn of the page loop when no child is open. */
  lemma {:induction false} StartAllClearable(w: World, versions: seq<Version>, windowSize: nat)
    requires Invariant(w, versions, windowSize) && Clearable(w) && w.open == {} && w.run.channel == []
    ensures Clearable(StartAll(w))
    decreases |w.run.versions| - w.run.next
  {
    if CanStart(w.run) {
      StartOneInvariant(w, versions, windowSize);
      StartAllClearable(StartOne(w), versions, windowSize);
    }
  }

  lemma ClearReceive(w: World)
    requires Clearable(w) && w.run.channel != []
    ensures Step(w, Receive).Some? && Clearable(Step(w, Receive).value)
  {
    assert forall u :: u in w.run.channel && u != w.run.channel[0] ==> u in w.run.channel[1..];
  }

  lemma ClearAnswer(w: World, v: Version)
    requires Clearable(w) && v in w.run.pending
    ensures Step(w, Answer(v)).Some? && Clearable(Step(w, Answer(v)).value)
  {
  }

  lemma ClearSignal(w: World, v: Version)
    requires Clearable(w) && w.run.channel == [] && w.run.pending == {}
    requires v in w.run.currentRecords && w.credit[v] <= MAX_ATTEMPTS
    ensures Step(w, Signal(v)).Some? && Clearable(Step(w, Signal(v)).value)
  {
    assert Step(w, Signal(v)).value.run == w.run.(channel := [v]);
  }

  lemma ClearClose(w: World, v: Version, versions: seq<Version>, windowSize: nat)
    requires Invariant(w, versions, windowSize) && Clearable(w) && w.run.currentRecords == {} && v in w.open
    ensures Step(w, Close(v)).Some? && Clearable(Step(w, Close(v)).value)
  {
  }

  /** Answer, signal, receive and close before the page loop gets another turn. */
  lemma ClearStep(w: World, versions: seq<Version>, windowSize: nat) returns (l: Label)
    requires windowSize > 0 && Invariant(w, versions, windowSize) && Clearable(w)
    ensures Step(w, l).Some?
    ensures Clearable(Step(w, l).value) || Step(w, l).value.phase.Completed?
  {
    if w.run.channel != [] {
      l := Receive;
      ClearReceive(w);
    } else if v :| v in w.run.pending {
      l := Answer(v);
      ClearAnswer(w, v);
    } else if v :| v in w.run.currentRecords {
      l := Signal(v);
      ClearSignal(w, v);
    } else if v :| v in w.open {
      l := Close(v);
      ClearClose(w, v, versions, windowSize);
    } else if PageDone(w.run) {
      l := Finish;
    } else {
      l := Start;
      StartAllClearable(w, versions, windowSize);
    }
  }

  lemma CompleteLastPage(w: World, versions: seq<Version>, windowSize: nat) returns (schedule: seq<Label>)
    requires windowSize > 0 && Invariant(w, versions, windowSize) && Clearable(w)
    ensures Execute(w, schedule).Some? && Execute(w, schedule).value.phase.Completed?
    decreases Work(w, versions, windowSize)
  {
    var l := ClearStep(w, versions, windowSize);
    WorkDecreases(w, l, versions, windowSize);
    var w1 := Step(w, l).value;
    if w1.phase.Completed? {
      ExecuteOne(w, l, []);
      schedule := [l];
    } else {
      var rest := CompleteLastPage(w1, versions, windowSize);
      ExecuteOne(w, l, rest);
      schedule := [l] + rest;
    }
  }

  // ---------- when a batch can complete at all ----------

  /** A version is repeated on a page that is not the last, before the window can have filled up:
      the page loop starts both without waiting, and the second start is refused. */
  predicate BlockedBy(versions: seq<Version>, windowSize: nat, i: nat, j: nat) {
    && i < j < |versions| && versions[i] == versions[j]
    && i / PAGE_SIZE == j / PAGE_SIZE && PageLimit(j) < |versions|
    && |Elems(versions[..j])| < windowSize
  }

  /** Where the page of position k ends, unless the list ends before. */
  function PageLimit(k: nat): nat {
    PAGE_SIZE * (k / PAGE_SIZE + 1)
  }

  ghost predicate Blocked(versions: seq<Version>, windowSize: nat) {
    exists i, j :: BlockedBy(versions, windowSize, i, j)
  }

  /** A batch in front of, or caught on, the page of position j. */
  ghost predicate Barred(w: World, j: nat) {
    && !w.phase.Completed?
    && (w.runs <= j / PAGE_SIZE || (w.runs == j / PAGE_SIZE + 1 && (w.run.newRun || w.run.refused)))
  }

  /** As long as fewer versions than the window holds have been started, the page loop does not wait. */
  lemma RoomForMore(w: World, versions: seq<Version>, windowSize: nat, j: nat)
    requires Invariant(w, versions, windowSize) && w.runs == j / PAGE_SIZE + 1
    requires |w.started| <= j && PageLimit(j) < |versions| && |Elems(versions[..j])| < windowSize
    ensures CanStart(w.run)
  {
    assert |Remaining(w)| == |versions| - |w.started|;
    assert w.started == versions[..|w.started|];
    assert Elems(w.started) <= Elems(versions[..j]) by {
      assert versions[..j] == w.started + versions[|w.started|..j];
    }
    SubsetSize(w.run.currentRecords, Elems(versions[..j]));
  }

  lemma {:induction false} StartAllRefuses(w: World, versions: seq<Version>, windowSize: nat, i: nat, j: nat)
    requires Invariant(w, versions, windowSize) && w.phase.Active? && BlockedBy(versions, windowSize, i, j)
    requires w.runs == j / PAGE_SIZE + 1 && |w.started| <= j
    requires |w.started| <= i || w.run.refused || versions[j] in w.run.pending + w.run.running
    ensures StartAll(w).run.refused
    decreases |w.run.versions| - w.run.next
  {
    RoomForMore(w, versions, windowSize, j);
    NextVersion(w, versions, windowSize);
    StartOneInvariant(w, versions, windowSize);
    if |w.started| < j {
      StartAllRefuses(StartOne(w), versions, windowSize, i, j);
    } else {
      StartAllGrows(StartOne(w));
    }
  }

  lemma StepBarred(w: World, l: Label, versions: seq<Version>, windowSize: nat, i: nat, j: nat)
    requires Invariant(w, versions, windowSize) && BlockedBy(versions, windowSize, i, j)
    requires Barred(w, j) && Step(w, l).Some?
    ensures Barred(Step(w, l).value, j)
  {
    assert |Remaining(w)| == |versions| - |w.started|;
    if w.runs == j / PAGE_SIZE + 1 && w.run.newRun {
      RoomForMore(w, versions, windowSize, j);
    }
    match l
    case Start =>
      StartAllIsBurst(w);
      StartAllGrows(w);
      if w.runs == j / PAGE_SIZE + 1 && w.run.newRun {
        StartAllRefuses(w, versions, windowSize, i, j);
      }
    case ContinueAsNew => HandOverRun(w.run, w.encoding);
    case _ =>
  }

  lemma {:induction false} BarredNeverCompletes(w: World, schedule: seq<Label>, versions: seq<Version>,
                                                windowSize: nat, i: nat, j: nat)
    requires Invariant(w, versions, windowSize) && BlockedBy(versions, windowSize, i, j)
    requires Barred(w, j) && Execute(w, schedule).Some?
    ensures !Execute(w, schedule).value.phase.Completed?
    decreases schedule
  {
    if schedule != [] {
      StepInvariant(w, schedule[0], versions, windowSize);
      StepBarred(w, schedule[0], versions, windowSize, i, j);
      BarredNeverCompletes(Step(w, schedule[0]).value, schedule[1..], versions, windowSize, i, j);
    }
  }
}
