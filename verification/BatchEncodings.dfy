/** The two continue-as-new encodings of a batch, the sliced list and the growing offset, simulate each other. */
module BatchEncodings {
  import opened Common
  import opened SlidingWindow

  /** What an observer of the batch sees. */
  datatype View = View(
    started: seq<Version>, currentRecords: set<Version>, progress: nat, channel: seq<Version>,
    pending: set<Version>, running: set<Version>, refused: bool, newRun: bool,
    open: set<Version>, credit: multiset<Version>, runs: nat, phase: Phase)

  function ViewOf(w: World): View {
    View(w.started, w.run.currentRecords, w.run.progress, w.run.channel, w.run.pending, w.run.running,
         w.run.refused, w.run.newRun, w.open, w.credit, w.runs, w.phase)
  }

  ghost predicate Corresponds(a: World, b: World) {
    && ViewOf(a) == ViewOf(b)
    && a.run.windowSize == b.run.windowSize
    && a.run.offset <= a.run.next <= PageEnd(a.run) && b.run.offset <= b.run.next <= PageEnd(b.run)
    && a.run.next - a.run.offset == b.run.next - b.run.offset
    && Remaining(a) == Remaining(b)
  }

  lemma {:induction false} RecordAllSame(a: RunState, b: RunState, signals: seq<Version>)
    requires a.currentRecords == b.currentRecords && a.progress == b.progress
    ensures RecordAll(a, signals).currentRecords == RecordAll(b, signals).currentRecords
    ensures RecordAll(a, signals).progress == RecordAll(b, signals).progress
    decreases signals
  {
    if signals != [] {
      RecordAllSame(RecordCompletion(a, signals[0]), RecordCompletion(b, signals[0]), signals[1..]);
    }
  }

  lemma CorrespondingPages(a: World, b: World)
    requires Corresponds(a, b)
    ensures PageDone(a.run) <==> PageDone(b.run)
    ensures PageDone(a.run) ==> (LastPage(a.run) <==> LastPage(b.run))
    ensures CanStart(a.run) <==> CanStart(b.run)
    ensures CanStart(a.run) ==> a.run.versions[a.run.next] == b.run.versions[b.run.next]
  {
    assert |Remaining(a)| == |a.run.versions| - a.run.next && |Remaining(b)| == |b.run.versions| - b.run.next;
    assert Remaining(a) != [] ==>
      Remaining(a)[0] == a.run.versions[a.run.next] && Remaining(b)[0] == b.run.versions[b.run.next];
  }

  lemma {:induction false} CorrespondingStart(a: World, b: World)
    requires Corresponds(a, b)
    ensures Corresponds(StartAll(a), StartAll(b))
    decreases |a.run.versions| - a.run.next
  {
    CorrespondingPages(a, b);
    if CanStart(a.run) {
      assert Remaining(StartOne(a)) == Remaining(a)[1..] && Remaining(StartOne(b)) == Remaining(b)[1..];
      CorrespondingStart(StartOne(a), StartOne(b));
    }
  }

  /** Draining the same signals leaves the same records and progress. */
  lemma DrainSame(a: RunState, b: RunState)
    requires a.currentRecords == b.currentRecords && a.progress == b.progress && a.channel == b.channel
    ensures Drain(a) == a.(currentRecords := Drain(a).currentRecords, progress := Drain(a).progress, channel := [])
    ensures Drain(b) == b.(currentRecords := Drain(a).currentRecords, progress := Drain(a).progress, channel := [])
  {
    RecordAllSame(a, b, a.channel);
    DrainKeeps(a);
    DrainKeeps(b);
  }

  lemma CorrespondingHandOver(a: World, b: World)
    requires Corresponds(a, b) && Step(a, ContinueAsNew).Some? && Step(b, ContinueAsNew).Some?
    ensures Corresponds(Step(a, ContinueAsNew).value, Step(b, ContinueAsNew).value)
  {
    DrainSame(a.run, b.run);
    HandOverRun(a.run, a.encoding);
    HandOverRun(b.run, b.encoding);
  }

  lemma CorrespondingFinish(a: World, b: World)
    requires Corresponds(a, b) && Step(a, Finish).Some? && Step(b, Finish).Some?
    ensures Corresponds(Step(a, Finish).value, Step(b, Finish).value)
  {
    DrainSame(a.run, b.run);
  }

  /** Steps of the children. */
  lemma CorrespondingChild(a: World, b: World, l: Label)
    requires Corresponds(a, b) && (l.Signal? || l.Close?)
    ensures Step(a, l).Some? <==> Step(b, l).Some?
    ensures Step(a, l).Some? ==> Corresponds(Step(a, l).value, Step(b, l).value)
  {
  }

  lemma CorrespondingAnswer(a: World, b: World, v: Version)
    requires Corresponds(a, b)
    ensures Step(a, Answer(v)).Some? <==> Step(b, Answer(v)).Some?
    ensures Step(a, Answer(v)).Some? ==> Corresponds(Step(a, Answer(v)).value, Step(b, Answer(v)).value)
  {
  }

  lemma CorrespondingReceive(a: World, b: World)
    requires Corresponds(a, b) && (CanStart(a.run) <==> CanStart(b.run))
    ensures Step(a, Receive).Some? <==> Step(b, Receive).Some?
    ensures Step(a, Receive).Some? ==> Corresponds(Step(a, Receive).value, Step(b, Receive).value)
  {
  }

  lemma CorrespondingStep(a: World, b: World, l: Label)
    requires Corresponds(a, b)
    ensures Step(a, l).Some? <==> Step(b, l).Some?
    ensures Step(a, l).Some? ==> Corresponds(Step(a, l).value, Step(b, l).value)
  {
    CorrespondingPages(a, b);
    match l
    case Start => CorrespondingStart(a, b);
    case ContinueAsNew => if Step(a, l).Some? { CorrespondingHandOver(a, b); }
    case Finish => if Step(a, l).Some? { CorrespondingFinish(a, b); }
    case StartFails =>
    case Signal(_) => CorrespondingChild(a, b, l);
    case Close(_) => CorrespondingChild(a, b, l);
    case Answer(v) => CorrespondingAnswer(a, b, v);
    case Receive => CorrespondingReceive(a, b);
  }

  lemma {:induction false} CorrespondingRuns(a: World, b: World, schedule: seq<Label>)
    requires Corresponds(a, b)
    ensures Execute(a, schedule).Some? <==> Execute(b, schedule).Some?
    ensures Execute(a, schedule).Some? ==> Corresponds(Execute(a, schedule).value, Execute(b, schedule).value)
    decreases schedule
  {
    if schedule != [] {
      CorrespondingStep(a, b, schedule[0]);
      if Step(a, schedule[0]).Some? {
        CorrespondingRuns(Step(a, schedule[0]).value, Step(b, schedule[0]).value, schedule[1..]);
      }
    }
  }

  /** Under every schedule the two encodings can do the same and look the same. */
  lemma EncodingsEquivalent(versions: seq<Version>, windowSize: nat, schedule: seq<Label>)
    ensures
      var a := Execute(Initial(Sliced, versions, windowSize), schedule);
      var b := Execute(Initial(Offset, versions, windowSize), schedule);
      (a.Some? <==> b.Some?) && (a.Some? ==> ViewOf(a.value) == ViewOf(b.value))
  {
    CorrespondingRuns(Initial(Sliced, versions, windowSize), Initial(Offset, versions, windowSize), schedule);
  }
}
