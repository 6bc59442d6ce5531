/** When every completed batch returns the number of versions. */
module BatchTotals {
  import opened Common
  import opened SlidingWindow
  import opened BatchProgress
  import opened BatchRepeats
  import opened BatchCompletion

  /** Whatever the schedule, a completed batch returns the number of versions. */
  ghost predicate AlwaysCountsAll(encoding: Encoding, versions: seq<Version>, windowSize: nat) {
    forall schedule {:trigger Execute(Initial(encoding, versions, windowSize), schedule)} ::
      var w := Execute(Initial(encoding, versions, windowSize), schedule);
      w.Some? && w.value.phase.Completed? ==> w.value.phase.total == |versions|
  }

  // ---------- repeats that a completed batch cannot have lost ----------

  predicate SamePageBeforeLast(versions: seq<Version>, i: nat, j: nat) {
    i / PAGE_SIZE == j / PAGE_SIZE && PageLimit(j) < |versions|
  }

  /** A version only comes again on the same page, and that is not the last. */
  ghost predicate RepeatsStayInside(versions: seq<Version>) {
    forall i, j :: 0 <= i < j < |versions| && versions[i] == versions[j] ==> SamePageBeforeLast(versions, i, j)
  }

  ghost predicate StartedBefore(w: World, v: Version) {
    exists i :: 0 <= i < |w.started| && i < PAGE_SIZE * (w.runs - 1) && w.started[i] == v
  }

  /** An open child that this run did not start belongs to an earlier page. */
  ghost predicate OpenTidy(w: World) {
    forall v :: v in w.open ==> v in w.run.running || StartedBefore(w, v)
  }

  /** A start was refused, on a page that is not the last, or nothing is lost. */
  predicate LossBars(w: World, versions: seq<Version>) {
    w.phase.Failed? || if w.run.refused then PAGE_SIZE * w.runs < |versions| else Lost(w) == 0
  }

  ghost predicate Tidy(w: World, versions: seq<Version>) {
    OwnPage(w) && OpenTidy(w) && LossBars(w, versions)
  }

  /** During a turn of the page loop: the signals have been received, or the turn is the first of the run. */
  ghost predicate Turn(w: World) {
    w.runs >= 1 &&
    (w.run.channel == [] || (w.run.running == {} && forall v :: StartedOnPage(w, v) ==> v in w.run.pending))
  }

  lemma NotStartedBefore(w: World, versions: seq<Version>, v: Version)
    requires RepeatsStayInside(versions) && w.started <= versions && w.runs >= 1
    requires StartedOnPage(w, v)
    ensures !StartedBefore(w, v)
  {
    var i :| PAGE_SIZE * (w.runs - 1) <= i < |w.started| && w.started[i] == v;
    forall k | 0 <= k < |w.started| && k < PAGE_SIZE * (w.runs - 1) ensures w.started[k] != v {
      assert k / PAGE_SIZE != i / PAGE_SIZE;
      assert versions[k] == w.started[k] && versions[i] == v;
    }
  }

  /** A version that comes again was started on this page, which is not the last. */
  lemma RepeatStartedHere(w: World, versions: seq<Version>, windowSize: nat, v: Version)
    requires Account(w, versions, windowSize) && RepeatsStayInside(versions) && CanStart(w.run)
    requires v == w.run.versions[w.run.next] && v in w.started
    ensures StartedOnPage(w, v) && PAGE_SIZE * w.runs < |versions|
  {
    NextVersion(w, versions, windowSize);
    LastPageIs(w, versions, windowSize);
    var i :| 0 <= i < |w.started| && w.started[i] == v;
    assert versions[i] == versions[|w.started|] && SamePageBeforeLast(versions, i, |w.started|);
  }

  /** Its first child is still known if the version is in the window. */
  lemma RepeatIsKnown(w: World, versions: seq<Version>, v: Version)
    requires Children(w) && OpenTidy(w) && Turn(w) && RepeatsStayInside(versions) && w.started <= versions
    requires !w.run.refused && v in w.run.currentRecords && StartedOnPage(w, v)
    ensures v in w.run.pending + w.run.running
  {
    NotStartedBefore(w, versions, v);
    assert Covered(w, v);
  }

  lemma StartOneBars(w: World, versions: seq<Version>, windowSize: nat)
    requires Invariant(w, versions, windowSize) && CanStart(w.run)
    requires Tidy(w, versions) && Turn(w) && RepeatsStayInside(versions)
    ensures LossBars(StartOne(w), versions)
  {
    var v := w.run.versions[w.run.next];
    if v in w.started && !w.run.refused {
      RepeatStartedHere(w, versions, windowSize, v);
      NextVersion(w, versions, windowSize);
      if v in w.run.currentRecords { RepeatIsKnown(w, versions, v); }
    }
    KnownBars(w, versions, v);
  }

  lemma KnownBars(w: World, versions: seq<Version>, v: Version)
    requires LossBars(w, versions) && CanStart(w.run) && w.run.versions[w.run.next] == v
    requires !w.run.refused && v in w.run.pending + w.run.running ==> PAGE_SIZE * w.runs < |versions|
    requires !w.run.refused && v in w.run.currentRecords ==> v in w.run.pending + w.run.running
    ensures LossBars(StartOne(w), versions)
  {
    assert v !in w.run.currentRecords ==> |w.run.currentRecords + {v}| == |w.run.currentRecords| + 1;
  }

  lemma StartOneTidy(w: World, versions: seq<Version>, windowSize: nat)
    requires Invariant(w, versions, windowSize) && w.phase.Active? && CanStart(w.run)
    requires Tidy(w, versions) && Turn(w) && RepeatsStayInside(versions)
    ensures Tidy(StartOne(w), versions) && Turn(StartOne(w))
  {
    StartOneBars(w, versions, windowSize);
    assert StartOne(w).started[|w.started|..] == [w.run.versions[w.run.next]];
    OwnPageKept(w, StartOne(w));
    OpenTidyKept(w, StartOne(w));
    TurnKept(w);
  }

  lemma OpenTidyKept(w: World, w': World)
    requires OpenTidy(w) && w.started <= w'.started && w.runs == w'.runs
    requires w'.open - w'.run.running <= w.open - w.run.running
    ensures OpenTidy(w')
  {
    forall v | v in w'.open && v !in w'.run.running ensures StartedBefore(w', v) {
      assert v in w.open - w.run.running;
      var i :| 0 <= i < |w.started| && i < PAGE_SIZE * (w.runs - 1) && w.started[i] == v;
      assert w'.started[i] == v;
    }
  }

  lemma TurnKept(w: World)
    requires Turn(w) && CanStart(w.run)
    ensures Turn(StartOne(w))
  {
    var w' := StartOne(w);
    if w.run.channel != [] {
      forall v | StartedOnPage(w', v) ensures v in w'.run.pending {
        var i :| PAGE_SIZE * (w.runs - 1) <= i < |w'.started| && w'.started[i] == v;
        if i < |w.started| {
          assert w.started[i] == v && StartedOnPage(w, v);
        }
      }
    }
  }

  lemma {:induction false} StartAllTidy(w: World, versions: seq<Version>, windowSize: nat)
    requires Invariant(w, versions, windowSize) && w.phase.Active?
    requires Tidy(w, versions) && Turn(w) && RepeatsStayInside(versions)
    ensures Tidy(StartAll(w), versions)
    decreases |w.run.versions| - w.run.next
  {
    if CanStart(w.run) {
      StartOneTidy(w, versions, windowSize);
      StartOneInvariant(w, versions, windowSize);
      StartAllTidy(StartOne(w), versions, windowSize);
    }
  }

  /** The first turn of a run. */
  lemma NewTurn(w: World, versions: seq<Version>, windowSize: nat)
    requires Invariant(w, versions, windowSize) && w.run.newRun
    ensures Turn(w)
  {
    forall v ensures !StartedOnPage(w, v) {}
  }

  lemma AnswerTidy(w: World, v: Version, versions: seq<Version>, windowSize: nat)
    requires Invariant(w, versions, windowSize) && Tidy(w, versions) && RepeatsStayInside(versions)
    requires Step(w, Answer(v)).Some?
    ensures Tidy(Step(w, Answer(v)).value, versions)
  {
    var w' := Step(w, Answer(v)).value;
    assert StartedOnPage(w, v);
    assert w.started == versions[..|w.started|];
    NotStartedBefore(w, versions, v);
    OwnPageKept(w, w');
    OpenTidyKept(w, w');
  }

  lemma ChildTidy(w: World, l: Label, versions: seq<Version>, windowSize: nat)
    requires Invariant(w, versions, windowSize) && Tidy(w, versions) && Step(w, l).Some?
    requires l.Signal? || l.Close? || l.Receive? || l.StartFails? || l.Finish?
    ensures Tidy(Step(w, l).value, versions)
  {
    var w' := Step(w, l).value;
    if l.Finish? { DrainKeeps(w.run); }
    OwnPageKept(w, w');
    OpenTidyKept(w, w');
  }

  lemma HandOverTidy(w: World, versions: seq<Version>, windowSize: nat)
    requires Invariant(w, versions, windowSize) && Tidy(w, versions) && Step(w, ContinueAsNew).Some?
    ensures Tidy(Step(w, ContinueAsNew).value, versions)
  {
    var w' := Step(w, ContinueAsNew).value;
    HandOverInvariant(w, versions, windowSize);
    HandOverRun(w.run, w.encoding);
    LastPageIs(w, versions, windowSize);
    forall v | v in w'.open ensures StartedBefore(w', v) {
      var i :| 0 <= i < |w.started| && w.started[i] == v;
      assert w'.started[i] == v;
    }
  }

  lemma StepTidy(w: World, l: Label, versions: seq<Version>, windowSize: nat)
    requires Invariant(w, versions, windowSize) && Tidy(w, versions) && RepeatsStayInside(versions)
    requires Step(w, l).Some?
    ensures Tidy(Step(w, l).value, versions)
  {
    match l
    case Start =>
      if w.run.newRun { NewTurn(w, versions, windowSize); }
      StartAllTidy(w, versions, windowSize);
    case Answer(v) => AnswerTidy(w, v, versions, windowSize);
    case ContinueAsNew => HandOverTidy(w, versions, windowSize);
    case _ => ChildTidy(w, l, versions, windowSize);
  }

  lemma {:induction false} ExecuteTidy(w: World, schedule: seq<Label>, versions: seq<Version>, windowSize: nat)
    requires Invariant(w, versions, windowSize) && Tidy(w, versions) && RepeatsStayInside(versions)
    requires Execute(w, schedule).Some?
    ensures Tidy(Execute(w, schedule).value, versions)
    decreases schedule
  {
    if schedule != [] {
      StepInvariant(w, schedule[0], versions, windowSize);
      StepTidy(w, schedule[0], versions, windowSize);
      ExecuteTidy(Step(w, schedule[0]).value, schedule[1..], versions, windowSize);
    }
  }

  /** If versions are repeated inside pages before the last only, every completed batch counts them all. */
  lemma RepeatsInsideCount(encoding: Encoding, versions: seq<Version>, windowSize: nat, schedule: seq<Label>)
    requires windowSize > 0 && RepeatsStayInside(versions)
    requires Execute(Initial(encoding, versions, windowSize), schedule).Some?
    requires Execute(Initial(encoding, versions, windowSize), schedule).value.phase.Completed?
    ensures Execute(Initial(encoding, versions, windowSize), schedule).value.phase.total == |versions|
  {
    var w0 := Initial(encoding, versions, windowSize);
    InitialInvariant(encoding, versions, windowSize);
    ExecuteInvariant(w0, schedule, versions, windowSize);
    ExecuteTidy(w0, schedule, versions, windowSize);
    var w := Execute(w0, schedule).value;
    assert w.started + [] == versions;
    LastPageIs(w, versions, windowSize);
  }

  // ---------- repeats on the last page ----------

  /** On the last page, with the child of v silent, and every other version of the window on its way to a signal. */
  ghost predicate Holding(w: World, v: Version) {
    && w.phase.Active? && LastPage(w.run)
    && (w.run.newRun ==> w.run.currentRecords <= {v} && w.open <= {v})
    && (w.run.newRun || w.run.pending != {} ==> w.run.channel == [])
    && w.run.pending !! w.open && w.run.pending <= w.run.currentRecords
    && (forall u :: u in w.run.currentRecords ==> u in w.run.channel || u in w.run.pending || u in w.credit)
    && (forall u :: u in w.open && w.credit[u] == MAX_ATTEMPTS ==> u in w.run.currentRecords && u !in w.run.channel)
    && v !in w.run.channel && (v in w.open ==> w.credit[v] == MAX_ATTEMPTS)
  }

  lemma HoldReceive(w: World, v: Version)
    requires Holding(w, v) && w.run.channel != []
    ensures Step(w, Receive).Some? && Holding(Step(w, Receive).value, v)
    ensures v in Step(w, Receive).value.run.currentRecords <==> v in w.run.currentRecords
  {
    assert forall u :: u in w.run.channel && u != w.run.channel[0] ==> u in w.run.channel[1..];
  }

  lemma HoldAnswer(w: World, v: Version, u: Version)
    requires Holding(w, v) && u in w.run.pending
    ensures Step(w, Answer(u)).Some? && Holding(Step(w, Answer(u)).value, v)
    ensures Step(w, Answer(u)).value.run.currentRecords == w.run.currentRecords
  {
  }

  lemma HoldSignal(w: World, v: Version, u: Version)
    requires Holding(w, v) && w.run.channel == [] && w.run.pending == {} && u in w.run.currentRecords && u != v
    requires w.credit[u] <= MAX_ATTEMPTS
    ensures Step(w, Signal(u)).Some? && Holding(Step(w, Signal(u)).value, v)
    ensures Step(w, Signal(u)).value.run.currentRecords == w.run.currentRecords
  {
    assert Step(w, Signal(u)).value.run == w.run.(channel := [u]);
  }

  lemma HoldClose(w: World, v: Version, u: Version, versions: seq<Version>, windowSize: nat)
    requires Invariant(w, versions, windowSize) && Holding(w, v)
    requires w.run.currentRecords <= {v} && u in w.open && u != v
    ensures Step(w, Close(u)).Some? && Holding(Step(w, Close(u)).value, v)
    ensures Step(w, Close(u)).value.run.currentRecords == w.run.currentRecords
  {
  }

  /** While the page loop starts new versions only, nothing is refused. */
  lemma {:induction false} StartAllHolding(w: World, v: Version, versions: seq<Version>, windowSize: nat, j: nat)
    requires Invariant(w, versions, windowSize) && Holding(w, v) && w.run.channel == []
    requires |w.started| <= j < |versions| && forall k :: |w.started| <= k < j ==> versions[k] !in versions[..k]
    ensures |StartAll(w).started| > j || Holding(StartAll(w), v)
    decreases |w.run.versions| - w.run.next
  {
    if CanStart(w.run) {
      NextVersion(w, versions, windowSize);
      StartOneInvariant(w, versions, windowSize);
      if |w.started| == j {
        StartAllIsBurst(StartOne(w));
      } else {
        assert versions[|w.started|] !in Elems(w.started);
        StartAllHolding(StartOne(w), v, versions, windowSize, j);
      }
    }
  }

  /** Let everybody but v signal, be recorded and close before the page loop gets another turn. */
  lemma HoldStep(w: World, v: Version, versions: seq<Version>, windowSize: nat, j: nat) returns (l: Label)
    requires windowSize >= 2 && Invariant(w, versions, windowSize) && Holding(w, v)
    requires |w.started| <= j < |versions| && forall k :: |w.started| <= k < j ==> versions[k] !in versions[..k]
    ensures Step(w, l).Some? && (l.Start? ==> w.run.channel == [] && w.run.pending == {} && w.open <= {v})
    ensures |Step(w, l).value.started| > j || Holding(Step(w, l).value, v)
    ensures v in w.run.currentRecords ==> v in Step(w, l).value.run.currentRecords
    ensures l.Start? || Step(w, l).value.started == w.started
  {
    if w.run.channel != [] {
      l := Receive;
      HoldReceive(w, v);
    } else if u :| u in w.run.pending {
      l := Answer(u);
      HoldAnswer(w, v, u);
    } else if u :| u in w.run.currentRecords && u != v {
      l := Signal(u);
      HoldSignal(w, v, u);
    } else if u :| u in w.open && u != v {
      l := Close(u);
      HoldClose(w, v, u, versions, windowSize);
    } else {
      l := Start;
      HoldStart(w, v, versions, windowSize, j);
    }
  }

  lemma HoldStart(w: World, v: Version, versions: seq<Version>, windowSize: nat, j: nat)
    requires windowSize >= 2 && Invariant(w, versions, windowSize) && Holding(w, v)
    requires w.run.channel == [] && w.run.currentRecords <= {v}
    requires |w.started| <= j < |versions| && forall k :: |w.started| <= k < j ==> versions[k] !in versions[..k]
    ensures Step(w, Start) == Some(StartAll(w))
    ensures |StartAll(w).started| > j || Holding(StartAll(w), v)
    ensures w.run.currentRecords <= StartAll(w).run.currentRecords
  {
    assert |Remaining(w)| == |versions| - |w.started|;
    SubsetSize(w.run.currentRecords, {v});
    StartAllHolding(w, v, versions, windowSize, j);
    StartAllGrows(w);
  }

  /** Run until the page loop starts v again while it is in the window, which loses one. */
  lemma ReachLoss(w: World, v: Version, versions: seq<Version>, windowSize: nat, i: nat, j: nat)
    returns (schedule: seq<Label>, w': World)
    requires windowSize >= 2 && Invariant(w, versions, windowSize) && Holding(w, v)
    requires i < j < |versions| && versions[i] == versions[j] == v && |w.started| <= j
    requires forall k :: |w.started| <= k < j ==> versions[k] !in versions[..k]
    requires v in w.run.currentRecords || |w.started| <= i
    ensures Execute(w, schedule) == Some(w') && Invariant(w', versions, windowSize)
    ensures Lost(w') >= 1 && Clearable(w')
    decreases Work(w, versions, windowSize)
  {
    var l := HoldStep(w, v, versions, windowSize, j);
    WorkDecreases(w, l, versions, windowSize);
    var w1 := Step(w, l).value;
    if |w1.started| > j {
      StartLosing(w, v, versions, windowSize, i, j);
      var rest;
      rest, w' := AnswerHeld(w1, v, versions, windowSize);
      ExecuteOne(w, l, rest);
      schedule := [l] + rest;
    } else {
      if l.Start? && |w.started| <= i < |w1.started| { StartedInWindow(w, versions, windowSize, i); }
      if l.Start? { StartAllIsBurst(w); }
      var rest;
      rest, w' := ReachLoss(w1, v, versions, windowSize, i, j);
      ExecuteOne(w, l, rest);
      schedule := [l] + rest;
    }
  }

  /** Between turns of the page loop everything in the window is about to start or open and silent. */
  predicate Expecting(w: World) {
    && w.phase.Active? && LastPage(w.run) && w.run.channel == [] && w.run.pending <= w.run.currentRecords
    && w.run.running <= w.open <= w.run.currentRecords
    && (forall u :: u in w.open ==> w.credit[u] == MAX_ATTEMPTS)
    && (forall u :: u in w.run.currentRecords ==> u in w.run.pending || u in w.open)
  }

  lemma {:induction false} StartAllExpecting(w: World)
    requires Expecting(w)
    ensures Expecting(StartAll(w)) && StartAll(w).open == w.open && (CanStart(w.run) ==> !StartAll(w).run.newRun)
    decreases |w.run.versions| - w.run.next
  {
    if CanStart(w.run) {
      StartAllExpecting(StartOne(w));
    }
  }

  lemma StartLosing(w: World, v: Version, versions: seq<Version>, windowSize: nat, i: nat, j: nat)
    requires Invariant(w, versions, windowSize) && Holding(w, v)
    requires w.run.channel == [] && w.run.pending == {} && w.open <= {v}
    requires i < j < |versions| && versions[i] == versions[j] == v && |w.started| <= j < |StartAll(w).started|
    requires v in w.run.currentRecords || |w.started| <= i
    ensures Lost(StartAll(w)) >= 1 && Expecting(StartAll(w)) && StartAll(w).open <= {v} && !StartAll(w).run.newRun
    ensures Invariant(StartAll(w), versions, windowSize)
  {
    StartAllInvariant(w, versions, windowSize);
    StartAllExpecting(w);
    if v in w.run.currentRecords {
      StartAllLoses(w, versions, windowSize, j);
    } else {
      StartAllTwiceLoses(w, versions, windowSize, i, j);
    }
  }

  /** If the repeated start still waits for its answer while the first child is open, it is refused,
      and the first child will signal. */
  lemma AnswerHeld(w: World, v: Version, versions: seq<Version>, windowSize: nat)
    returns (schedule: seq<Label>, w': World)
    requires Invariant(w, versions, windowSize) && Expecting(w) && w.open <= {v} && !w.run.newRun && Lost(w) >= 1
    ensures Execute(w, schedule) == Some(w') && Invariant(w', versions, windowSize)
    ensures Lost(w') >= 1 && Clearable(w')
  {
    if v in w.open && v in w.run.pending {
      AnswerInvariant(w, v, versions, windowSize);
      ExecuteOne(w, Answer(v), []);
      schedule, w' := [Answer(v)], Step(w, Answer(v)).value;
    } else {
      schedule, w' := [], w;
    }
  }

  /** The first position of the last page that repeats an earlier version, and where that version was last. */
  ghost predicate LastPageRepeat(versions: seq<Version>, i: nat, j: nat) {
    && i < j < |versions| <= PageLimit(j) && versions[i] == versions[j]
    && (forall k :: i < k < j ==> versions[k] != versions[j])
    && (forall k :: 0 <= k < j && |versions| <= PageLimit(k) ==> versions[k] !in versions[..k])
  }

  lemma FirstOnLastPage(versions: seq<Version>, b: nat) returns (j: nat)
    requires b < |versions| <= PageLimit(b) && versions[b] in versions[..b]
    ensures j < |versions| <= PageLimit(j) && versions[j] in versions[..j]
    ensures forall k :: 0 <= k < j && |versions| <= PageLimit(k) ==> versions[k] !in versions[..k]
  {
    if k :| 0 <= k < b && |versions| <= PageLimit(k) && versions[k] in versions[..k] {
      j := FirstOnLastPage(versions, k);
    } else {
      j := b;
    }
  }

  lemma LastBefore(versions: seq<Version>, a: nat, j: nat) returns (i: nat)
    requires a < j < |versions| && versions[a] == versions[j]
    ensures i < j && versions[i] == versions[j] && forall k :: i < k < j ==> versions[k] != versions[j]
    decreases j - a
  {
    if k :| a < k < j && versions[k] == versions[j] {
      i := LastBefore(versions, k, j);
    } else {
      i := a;
    }
  }

  /** A version that comes again on the last page can be lost, unless the window holds one version only. */
  lemma LastPageLoses(encoding: Encoding, versions: seq<Version>, windowSize: nat, i: nat, j: nat)
    returns (schedule: seq<Label>)
    requires windowSize >= 2 && !Blocked(versions, windowSize) && LastPageRepeat(versions, i, j)
    ensures Execute(Initial(encoding, versions, windowSize), schedule).Some?
    ensures
      var w := Execute(Initial(encoding, versions, windowSize), schedule).value;
      w.phase.Completed? && w.phase.total < |versions|
  {
    var w0, hold := Initial(encoding, versions, windowSize), Hold(versions[j], i);
    assert ValidHold(versions, windowSize, hold) by {
      forall k | i < k < |versions| && PageLimit(k) < |versions| ensures versions[k] != versions[j] {
        assert k < j;
      }
    }
    var reach, w1 := ReachLastPage(encoding, versions, windowSize, hold);
    LastPageIs(w1, versions, windowSize);
    assert |Remaining(w1)| == |versions| - |w1.started|;
    forall k | |w1.started| <= k < j ensures versions[k] !in versions[..k] {
      assert PageLimit(k) >= PAGE_SIZE * w1.runs;
    }
    var lose, w2 := ReachLoss(w1, versions[j], versions, windowSize, i, j);
    var finish := CompleteLastPage(w2, versions, windowSize);
    ExecuteInvariant(w2, finish, versions, windowSize);
    ExecuteAppend(w0, reach, lose);
    ExecuteAppend(w0, reach + lose, finish);
    schedule := reach + lose + finish;
    var w3 := Execute(w2, finish).value;
    assert w3.started + [] == versions;
  }

  // ---------- the exact condition ----------

  /** A version comes again on a later page, but not on the last. */
  ghost predicate RepeatsAcrossInnerPages(versions: seq<Version>) {
    exists i, j :: 0 <= i < j < |versions| && versions[i] == versions[j]
                   && i / PAGE_SIZE != j / PAGE_SIZE && PageLimit(j) < |versions|
  }

  /** Every completed batch returns the number of versions, exactly when the window holds one version only,
      or no schedule completes the batch, or versions are repeated inside pages before the last only;
      lists that repeat a version across such pages are left open in one direction. */
  lemma CountsAllIff(encoding: Encoding, versions: seq<Version>, windowSize: nat)
    requires windowSize > 0
    ensures windowSize == 1 || Blocked(versions, windowSize) || RepeatsStayInside(versions)
      ==> AlwaysCountsAll(encoding, versions, windowSize)
    ensures AlwaysCountsAll(encoding, versions, windowSize)
      ==> windowSize == 1 || Blocked(versions, windowSize) || RepeatsStayInside(versions)
          || RepeatsAcrossInnerPages(versions)
  {
    if windowSize == 1 || Blocked(versions, windowSize) || RepeatsStayInside(versions) {
      CountsAll(encoding, versions, windowSize);
    } else if !RepeatsAcrossInnerPages(versions) {
      var a, b :| 0 <= a < b < |versions| && versions[a] == versions[b] && !SamePageBeforeLast(versions, a, b);
      assert |versions| <= PageLimit(b);
      assert versions[..b][a] == versions[b];
      var j := FirstOnLastPage(versions, b);
      var c :| 0 <= c < j && versions[..j][c] == versions[j];
      var i := LastBefore(versions, c, j);
      var schedule := LastPageLoses(encoding, versions, windowSize, i, j);
      assert Execute(Initial(encoding, versions, windowSize), schedule).Some?;
    }
  }

  lemma CountsAll(encoding: Encoding, versions: seq<Version>, windowSize: nat)
    requires windowSize > 0
    requires windowSize == 1 || Blocked(versions, windowSize) || RepeatsStayInside(versions)
    ensures AlwaysCountsAll(encoding, versions, windowSize)
  {
    var w0 := Initial(encoding, versions, windowSize);
    forall schedule | Execute(w0, schedule).Some? && Execute(w0, schedule).value.phase.Completed?
      ensures Execute(w0, schedule).value.phase.total == |versions|
    {
      if RepeatsStayInside(versions) {
        RepeatsInsideCount(encoding, versions, windowSize, schedule);
      } else if Blocked(versions, windowSize) {
        SomeRunCompletesIff(encoding, versions, windowSize);
      } else {
        CompletedBatch(encoding, versions, windowSize, schedule);
      }
    }
  }
}
