/** The sliding-window batch protocol shared by the version, enrichment and changelog batch workflows.
    A world is the current run of the parent, the children that are open, and the history. A schedule is a sequence
    of labels; the scheduler, the server, the children and the network choose it freely.
    Coroutines are cooperative: the page loop starts children until the window is full or the page is done,
    and gets its turn before the pump only at the beginning of a run. */
module SlidingWindow {
  import opened Common

  const PAGE_SIZE: nat := 50
  const MAX_ATTEMPTS: nat := 3

  /** A version stands for its workflow ID too: at most one child per version is open at a time. */
  type Version = string

  /** How continue-as-new passes the rest of the work on: a sliced list with offset 0, or the full list with a larger
      offset. */
  datatype Encoding = Sliced | Offset

  /** The fields of the batch state struct, the position in the page loop, the signal channel, and the futures of
      childrenStarted: pending (no answer from the server yet), running (started by this run, not closed),
      and whether one was refused. newRun: the page loop has not had its first turn in this run. */
  datatype RunState = RunState(
    versions: seq<Version>, windowSize: int, offset: nat, next: nat,
    progress: nat, currentRecords: set<Version>, channel: seq<Version>,
    pending: set<Version>, running: set<Version>, refused: bool, newRun: bool)

  function PageEnd(r: RunState): nat {
    if r.offset + PAGE_SIZE > |r.versions| then |r.versions| else r.offset + PAGE_SIZE
  }

  // ---------- what the parent does in a run ----------

  function RecordCompletion(r: RunState, version: Version): RunState {
    if version in r.currentRecords
    then r.(currentRecords := r.currentRecords - {version}, progress := r.progress + 1)
    else r
  }

  function RecordAll(r: RunState, signals: seq<Version>): RunState
    decreases signals
  {
    if signals == [] then r else RecordAll(RecordCompletion(r, signals[0]), signals[1..])
  }

  /** The pump takes the oldest signal. */
  function PumpOne(r: RunState): RunState
    requires r.channel != []
  {
    RecordCompletion(r, r.channel[0]).(channel := r.channel[1..], newRun := false)
  }

  function Drain(r: RunState): RunState {
    RecordAll(r, r.channel).(channel := [])
  }

  predicate CanStart(r: RunState) {
    r.next < PageEnd(r) && r.next < |r.versions| && |r.currentRecords| < r.windowSize
  }

  /** One turn of the page loop. A child of this run under the same ID that has not closed refuses the start. */
  function StartNext(r: RunState): RunState
    requires CanStart(r)
  {
    var v := r.versions[r.next];
    var known := v in r.pending || v in r.running;
    r.(next := r.next + 1, currentRecords := r.currentRecords + {v}, newRun := false,
       pending := if known then r.pending else r.pending + {v}, refused := r.refused || known)
  }

  /** The page loop runs until it has to wait. */
  function Burst(r: RunState): RunState
    decreases |r.versions| - r.next
  {
    if CanStart(r) then Burst(StartNext(r)) else r
  }

  /** The server's answer to a start command. */
  function AnswerStart(r: RunState, v: Version, accepted: bool): RunState {
    r.(pending := r.pending - {v}, running := if accepted then r.running + {v} else r.running,
       refused := r.refused || !accepted)
  }

  predicate PageDone(r: RunState) {
    r.next == PageEnd(r)
  }

  predicate LastPage(r: RunState) {
    PageEnd(r) == |r.versions|
  }

  /** The run that continue-as-new starts; the channel survives because signals address the workflow, not the run. */
  function NextRun(r: RunState, encoding: Encoding): RunState
    requires PageDone(r) && !LastPage(r)
  {
    var d := Drain(r).(running := {}, newRun := true);
    match encoding
    case Sliced => d.(versions := r.versions[PageEnd(r)..], offset := 0, next := 0)
    case Offset => d.(offset := PageEnd(r))
  }

  datatype Outcome = Returned(total: nat) | ContinuedAsNew | ChildNotStarted

  class BatchRun {
    const encoding: Encoding
    var versions: seq<Version>
    var windowSize: int
    var offset: nat
    var next: nat
    var progress: nat
    var currentRecords: set<Version>
    var channel: seq<Version>
    var pending: set<Version>
    var running: set<Version>
    var refused: bool
    var newRun: bool

    function State(): RunState
      reads this
    {
      RunState(versions, windowSize, offset, next, progress, currentRecords, channel, pending, running, refused, newRun)
    }

    constructor (encoding: Encoding, versions: seq<Version>, windowSize: int, defaultSize: nat)
      requires defaultSize > 0
      ensures State() == InitialRun(versions, windowSize, defaultSize)
      ensures this.versions == versions && this.windowSize == (if windowSize <= 0 then defaultSize else windowSize)
      ensures offset == next == progress == 0 && currentRecords == {} && channel == []
      ensures this.encoding == encoding
    {
      this.encoding := encoding;
      this.versions := versions;
      this.windowSize := if windowSize <= 0 then defaultSize else windowSize;
      offset, next, progress := 0, 0, 0;
      currentRecords, channel := {}, [];
      pending, running, refused, newRun := {}, {}, false, true;
    }

    method RecordOne(version: Version)
      modifies this
      ensures State() == RecordCompletion(old(State()), version)
    {
      if version in currentRecords {
        currentRecords := currentRecords - {version};
        progress := progress + 1;
      }
    }

    method StartOne()
      requires CanStart(State())
      modifies this
      ensures State() == StartNext(old(State()))
    {
      var v := versions[next];
      if v in pending || v in running { refused := true; } else { pending := pending + {v}; }
      currentRecords := currentRecords + {v};
      next, newRun := next + 1, false;
    }

    /** The page loop until it has to wait for capacity or the page is done. */
    method StartChildren()
      modifies this
      ensures State() == Burst(old(State())) && !CanStart(State())
    {
      var end := if offset + PAGE_SIZE > |versions| then |versions| else offset + PAGE_SIZE;
      while next < end && |currentRecords| < windowSize
        invariant Burst(State()) == Burst(old(State())) && end == PageEnd(State())
        decreases end - next
      {
        assert CanStart(State());
        StartOne();
      }
    }

    method ReceiveOne()
      requires channel != []
      modifies this
      ensures State() == PumpOne(old(State()))
    {
      var version := channel[0];
      channel, newRun := channel[1..], false;
      RecordOne(version);
    }

    method DrainCompletionSignals()
      modifies this
      ensures State() == Drain(old(State()))
    {
      while channel != []
        invariant Drain(State()) == Drain(old(State()))
        decreases |channel|
      {
        RecordAllKeepsChannel(RecordCompletion(State(), channel[0]), channel[1..], channel[1..]);
        var version := channel[0];
        channel := channel[1..];
        RecordOne(version);
      }
    }

    /** The end of a run, once every future of childrenStarted has an answer or one of them is an error;
        the last run waits for the window to empty instead. */
    method ContinueOrComplete() returns (outcome: Outcome)
      requires PageDone(State())
      requires if LastPage(State()) then currentRecords == {} else refused || pending == {}
      modifies this
      ensures LastPage(old(State())) ==> State() == Drain(old(State())) && outcome == Returned(progress)
      ensures !LastPage(old(State())) && old(refused) ==> State() == old(State()) && outcome == ChildNotStarted
      ensures !LastPage(old(State())) && !old(refused) ==>
        State() == NextRun(old(State()), encoding) && outcome == ContinuedAsNew
    {
      var end := if offset + PAGE_SIZE > |versions| then |versions| else offset + PAGE_SIZE;
      DrainKeeps(State());
      if end < |versions| {
        if refused { return ChildNotStarted; }
        DrainCompletionSignals();
        match encoding {
          case Sliced => versions, offset, next := versions[end..], 0, 0;
          case Offset => offset := end;
        }
        running, newRun := {}, true;
        return ContinuedAsNew;
      }
      DrainCompletionSignals();
      return Returned(progress);
    }
  }

  lemma {:induction false} RecordAllKeepsChannel(r: RunState, signals: seq<Version>, channel: seq<Version>)
    ensures RecordAll(r.(channel := channel), signals) == RecordAll(r, signals).(channel := channel)
    decreases signals
  {
    if signals != [] {
      RecordAllKeepsChannel(RecordCompletion(r, signals[0]), signals[1..], channel);
    }
  }

  lemma {:induction false} RecordAllWindow(r: RunState, signals: seq<Version>)
    ensures RecordAll(r, signals) ==
            r.(currentRecords := r.currentRecords - Elems(signals), progress := RecordAll(r, signals).progress)
    decreases signals
  {
    if signals != [] {
      RecordAllWindow(RecordCompletion(r, signals[0]), signals[1..]);
      assert Elems(signals) == {signals[0]} + Elems(signals[1..]);
    }
  }

  lemma {:induction false} RecordAllConserves(r: RunState, signals: seq<Version>)
    ensures RecordAll(r, signals).progress + |RecordAll(r, signals).currentRecords| == r.progress + |r.currentRecords|
    decreases signals
  {
    if signals != [] {
      RecordAllConserves(RecordCompletion(r, signals[0]), signals[1..]);
    }
  }

  /** Order and repetition of signals do not matter: what is recorded depends only on who signalled. */
  lemma SignalsAsSet(r: RunState, signals: seq<Version>, others: seq<Version>)
    requires Elems(signals) == Elems(others)
    ensures RecordAll(r, signals) == RecordAll(r, others)
  {
    RecordAllWindow(r, signals);
    RecordAllWindow(r, others);
    RecordAllConserves(r, signals);
    RecordAllConserves(r, others);
  }

  lemma DrainKeeps(r: RunState)
    ensures
      var r' := Drain(r);
      && r' == r.(currentRecords := r.currentRecords - Elems(r.channel), progress := r'.progress, channel := [])
      && r'.progress + |r'.currentRecords| == r.progress + |r.currentRecords|
  {
    RecordAllWindow(r, r.channel);
    RecordAllConserves(r, r.channel);
  }

  // ---------- the world ----------

  datatype Phase = Active | Completed(total: nat) | Failed

  /** open: the children that have started and not closed, of this run or an earlier one.
      credit: the signals they may still send, one per attempt. */
  datatype World = World(
    encoding: Encoding, run: RunState, phase: Phase, open: set<Version>, credit: multiset<Version>,
    started: seq<Version>, runs: nat)

  datatype Label =
    | Start               // the page loop gets its turn
    | Answer(v: Version)  // the server starts the child, or refuses because one is open under that ID
    | Signal(v: Version)  // an attempt of an open child ends, well or badly
    | Close(v: Version)   // a child that has signalled closes, and the parent learns of it
    | Receive             // the pump takes a signal
    | ContinueAsNew       // page done, more to do, every child started: drain and hand over
    | StartFails          // page done, more to do, a start was refused: the batch returns the error
    | Finish              // last page done and window empty: drain and return

  function InitialRun(versions: seq<Version>, windowSize: int, defaultSize: nat): RunState {
    RunState(versions, if windowSize <= 0 then defaultSize else windowSize, 0, 0, 0, {}, [], {}, {}, false, true)
  }

  function Initial(encoding: Encoding, versions: seq<Version>, windowSize: nat): World {
    World(encoding, InitialRun(versions, windowSize, windowSize), Active, {}, multiset{}, [], 1)
  }

  /** One turn of the page loop, with the history. */
  function StartOne(w: World): World
    requires CanStart(w.run)
  {
    w.(run := StartNext(w.run), started := w.started + [w.run.versions[w.run.next]])
  }

  function StartAll(w: World): World
    decreases |w.run.versions| - w.run.next
  {
    if CanStart(w.run) then StartAll(StartOne(w)) else w
  }

  lemma {:induction false} StartAllIsBurst(w: World)
    requires w.run.next <= |w.run.versions|
    ensures
      var w' := StartAll(w);
      && w'.run == Burst(w.run) && w.run.next <= w'.run.next <= |w.run.versions|
      && w' == w.(run := w'.run, started := w'.started) && w.started <= w'.started
      && |w'.started| - |w.started| == w'.run.next - w.run.next
      && !CanStart(w'.run)
      && w'.run == w.run.(next := w'.run.next, currentRecords := w'.run.currentRecords, pending := w'.run.pending,
                          refused := w'.run.refused, newRun := w'.run.newRun)
    decreases |w.run.versions| - w.run.next
  {
    if CanStart(w.run) {
      StartAllIsBurst(StartOne(w));
    }
  }

  function Step(w: World, l: Label): Option<World> {
    if !w.phase.Active? then None
    else
      match l
      case Start =>
        if CanStart(w.run) && (w.run.newRun || w.run.channel == []) then Some(StartAll(w)) else None
      case Answer(v) =>
        if v !in w.run.pending then None
        else if v in w.open then Some(w.(run := AnswerStart(w.run, v, false)))
        else Some(w.(run := AnswerStart(w.run, v, true), open := w.open + {v}, credit := w.credit[v := MAX_ATTEMPTS]))
      case Signal(v) =>
        if v in w.credit
        then Some(w.(credit := w.credit[v := w.credit[v] - 1], run := w.run.(channel := w.run.channel + [v])))
        else None
      case Close(v) =>
        if v in w.open && w.credit[v] < MAX_ATTEMPTS
        then Some(w.(open := w.open - {v}, credit := w.credit[v := 0], run := w.run.(running := w.run.running - {v})))
        else None
      case Receive =>
        if w.run.channel != [] && !(w.run.newRun && CanStart(w.run)) then Some(w.(run := PumpOne(w.run))) else None
      case ContinueAsNew =>
        if PageDone(w.run) && !LastPage(w.run) && w.run.pending == {} && !w.run.refused
        then Some(w.(run := NextRun(w.run, w.encoding), runs := w.runs + 1))
        else None
      case StartFails =>
        if PageDone(w.run) && !LastPage(w.run) && w.run.refused then Some(w.(phase := Failed)) else None
      case Finish =>
        if PageDone(w.run) && LastPage(w.run) && w.run.currentRecords == {}
        then var d := Drain(w.run); Some(w.(run := d, phase := Completed(d.progress)))
        else None
  }

  /** The world a schedule leads to, if every step of it is possible. */
  function Execute(w: World, schedule: seq<Label>): Option<World>
    decreases schedule
  {
    if schedule == [] then Some(w)
    else
      match Step(w, schedule[0])
      case None => None
      case Some(w') => Execute(w', schedule[1..])
  }

  // ---------- the invariant ----------

  function Remaining(w: World): seq<Version>
    requires w.run.next <= |w.run.versions|
  {
    w.run.versions[w.run.next..]
  }

  /** Starts that fell on a version still in the window, and so will never be counted. */
  function Lost(w: World): int {
    |w.started| - w.run.progress - |w.run.currentRecords|
  }

  /** The account of the starts. */
  ghost predicate Account(w: World, versions: seq<Version>, windowSize: nat) {
    && w.run.windowSize == windowSize
    && w.run.offset <= w.run.next <= PageEnd(w.run)
    && w.started + Remaining(w) == versions
    && |w.run.currentRecords| <= windowSize
    && Lost(w) >= 0
    && w.run.currentRecords <= Elems(w.started)
    && w.runs >= 1
    && |w.started| == PAGE_SIZE * (w.runs - 1) + (w.run.next - w.run.offset)
    && (w.runs > 1 ==> |versions| > PAGE_SIZE * (w.runs - 1))
    && (w.phase.Completed? ==>
         w.phase.total == w.run.progress && w.run.currentRecords == {} && Remaining(w) == [])
  }

  /** A version of the window whose child is known to signal, or has signalled. */
  predicate Covered(w: World, v: Version) {
    v in w.run.channel || v in w.run.pending || (v in w.open && w.credit[v] == MAX_ATTEMPTS)
  }

  /** The children, and what the run knows about those it started. */
  ghost predicate Children(w: World) {
    && w.run.pending !! w.run.running && w.run.running <= w.open
    && w.open + w.run.pending <= Elems(w.started)
    && (w.runs == 1 ==> w.open == w.run.running)
    && (forall v :: w.credit[v] <= MAX_ATTEMPTS)
    && (forall v :: v in w.credit ==> v in w.open)
    && (w.run.newRun ==> w.run.next == w.run.offset && w.run.pending == {} == w.run.running && !w.run.refused)
    && (w.phase.Failed? ==> w.run.refused)
    && (!w.run.refused ==> forall v :: v in w.run.currentRecords ==> Covered(w, v))
  }

  ghost predicate Invariant(w: World, versions: seq<Version>, windowSize: nat) {
    Account(w, versions, windowSize) && Children(w)
  }

  /** What distinct versions, or a window of one, add. */
  ghost predicate NothingLost(w: World, versions: seq<Version>, windowSize: nat) {
    && (windowSize == 1 || Distinct(versions) ==> Lost(w) == 0)
    && (Distinct(versions) ==> !w.run.refused && w.run.pending !! w.open)
  }

  lemma InitialInvariant(encoding: Encoding, versions: seq<Version>, windowSize: nat)
    requires windowSize > 0
    ensures Invariant(Initial(encoding, versions, windowSize), versions, windowSize)
    ensures NothingLost(Initial(encoding, versions, windowSize), versions, windowSize)
  {
  }

  /** The version the page loop starts next is the next one of the whole list. */
  lemma NextVersion(w: World, versions: seq<Version>, windowSize: nat)
    requires Account(w, versions, windowSize) && CanStart(w.run)
    ensures |w.started| < |versions| && w.run.versions[w.run.next] == versions[|w.started|]
    ensures w.started == versions[..|w.started|]
    ensures Elems(StartOne(w).started) == Elems(w.started) + {versions[|w.started|]}
    ensures Distinct(versions) ==> versions[|w.started|] !in w.started
  {
    var v := w.run.versions[w.run.next];
    assert Remaining(w) == [v] + w.run.versions[w.run.next + 1..];
    assert versions == w.started + ([v] + w.run.versions[w.run.next + 1..]);
  }

  lemma StartOneRest(w: World, versions: seq<Version>, windowSize: nat)
    requires Account(w, versions, windowSize) && CanStart(w.run)
    ensures StartOne(w).started + Remaining(StartOne(w)) == versions && |Remaining(StartOne(w))| == |Remaining(w)| - 1
  {
    assert Remaining(w) == [w.run.versions[w.run.next]] + Remaining(StartOne(w));
  }

  lemma StartOneAccount(w: World, versions: seq<Version>, windowSize: nat)
    requires Account(w, versions, windowSize) && w.phase.Active? && CanStart(w.run)
    ensures Account(StartOne(w), versions, windowSize)
    ensures |Remaining(StartOne(w))| == |Remaining(w)| - 1
    ensures Lost(StartOne(w)) == Lost(w) + if versions[|w.started|] in w.run.currentRecords then 1 else 0
  {
    NextVersion(w, versions, windowSize);
    StartOneRest(w, versions, windowSize);
  }

  lemma StartOneChildren(w: World, versions: seq<Version>, windowSize: nat)
    requires Invariant(w, versions, windowSize) && w.phase.Active? && CanStart(w.run)
    ensures Children(StartOne(w))
  {
    NextVersion(w, versions, windowSize);
    var w', v := StartOne(w), versions[|w.started|];
    assert Elems(w'.started) == Elems(w.started) + {v};
    forall u | u in w'.run.currentRecords && !w'.run.refused ensures Covered(w', u) {
      assert u != v ==> Covered(w, u);
    }
  }

  lemma StartOneInvariant(w: World, versions: seq<Version>, windowSize: nat)
    requires Invariant(w, versions, windowSize) && w.phase.Active? && CanStart(w.run)
    ensures Invariant(StartOne(w), versions, windowSize)
    ensures NothingLost(w, versions, windowSize) ==> NothingLost(StartOne(w), versions, windowSize)
    ensures Lost(StartOne(w)) >= Lost(w)
  {
    NextVersion(w, versions, windowSize);
    StartOneAccount(w, versions, windowSize);
    StartOneChildren(w, versions, windowSize);
  }

  lemma {:induction false} StartAllInvariant(w: World, versions: seq<Version>, windowSize: nat)
    requires Invariant(w, versions, windowSize) && w.phase.Active?
    ensures Invariant(StartAll(w), versions, windowSize)
    ensures NothingLost(w, versions, windowSize) ==> NothingLost(StartAll(w), versions, windowSize)
    ensures Lost(StartAll(w)) >= Lost(w)
    decreases |w.run.versions| - w.run.next
  {
    if CanStart(w.run) {
      StartOneInvariant(w, versions, windowSize);
      StartAllInvariant(StartOne(w), versions, windowSize);
    }
  }

  lemma HandOverRun(r: RunState, encoding: Encoding)
    requires r.offset <= r.next && PageDone(r) && !LastPage(r)
    ensures
      var r' := NextRun(r, encoding);
      && r'.windowSize == r.windowSize && r'.offset == r'.next <= PageEnd(r')
      && r'.versions[r'.next..] == r.versions[r.next..] != []
      && r.next - r.offset == PAGE_SIZE
      && r'.channel == [] && r'.currentRecords == r.currentRecords - Elems(r.channel)
      && r'.pending == r.pending && r'.running == {} && r'.refused == r.refused && r'.newRun
      && r'.progress + |r'.currentRecords| == r.progress + |r.currentRecords|
      && |r'.currentRecords| <= |r.currentRecords|
  {
    DrainKeeps(r);
    SubsetSize(r.currentRecords - Elems(r.channel), r.currentRecords);
  }

  lemma HandOverInvariant(w: World, versions: seq<Version>, windowSize: nat)
    requires Invariant(w, versions, windowSize) && Step(w, ContinueAsNew).Some?
    ensures Invariant(Step(w, ContinueAsNew).value, versions, windowSize)
    ensures Remaining(Step(w, ContinueAsNew).value) == Remaining(w) && Remaining(w) != []
    ensures Lost(Step(w, ContinueAsNew).value) == Lost(w)
  {
    HandOverRun(w.run, w.encoding);
    assert |w.started| == PAGE_SIZE * w.runs;
  }

  lemma AnswerInvariant(w: World, v: Version, versions: seq<Version>, windowSize: nat)
    requires Invariant(w, versions, windowSize) && Step(w, Answer(v)).Some?
    ensures Invariant(Step(w, Answer(v)).value, versions, windowSize)
  {
  }

  lemma SignalInvariant(w: World, v: Version, versions: seq<Version>, windowSize: nat)
    requires Invariant(w, versions, windowSize) && Step(w, Signal(v)).Some?
    ensures Invariant(Step(w, Signal(v)).value, versions, windowSize)
  {
    assert forall u :: u in w.run.channel || u == v ==> u in w.run.channel + [v];
  }

  lemma CloseInvariant(w: World, v: Version, versions: seq<Version>, windowSize: nat)
    requires Invariant(w, versions, windowSize) && Step(w, Close(v)).Some?
    ensures Invariant(Step(w, Close(v)).value, versions, windowSize)
  {
    var w' := Step(w, Close(v)).value;
    forall u | u in w'.run.currentRecords && !w'.run.refused ensures Covered(w', u) {
      assert Covered(w, u);
    }
  }

  lemma ReceiveInvariant(w: World, versions: seq<Version>, windowSize: nat)
    requires Invariant(w, versions, windowSize) && Step(w, Receive).Some?
    ensures Invariant(Step(w, Receive).value, versions, windowSize)
    ensures Lost(Step(w, Receive).value) == Lost(w)
  {
    var w' := Step(w, Receive).value;
    forall u | u in w'.run.currentRecords && !w'.run.refused ensures Covered(w', u) {
      assert Covered(w, u);
      assert u in w.run.channel && u != w.run.channel[0] ==> u in w.run.channel[1..];
    }
  }

  lemma FinishInvariant(w: World, versions: seq<Version>, windowSize: nat)
    requires Invariant(w, versions, windowSize) && Step(w, Finish).Some?
    ensures Invariant(Step(w, Finish).value, versions, windowSize)
    ensures Lost(Step(w, Finish).value) == Lost(w)
  {
    DrainKeeps(w.run);
    assert w.run.currentRecords - Elems(w.run.channel) == {};
  }

  lemma StepInvariant(w: World, l: Label, versions: seq<Version>, windowSize: nat)
    requires Invariant(w, versions, windowSize) && Step(w, l).Some?
    ensures Invariant(Step(w, l).value, versions, windowSize)
    ensures Lost(Step(w, l).value) >= Lost(w)
  {
    match l
    case Start => StartAllInvariant(w, versions, windowSize);
    case Answer(v) => AnswerInvariant(w, v, versions, windowSize);
    case Signal(v) => SignalInvariant(w, v, versions, windowSize);
    case Close(v) => CloseInvariant(w, v, versions, windowSize);
    case Receive => ReceiveInvariant(w, versions, windowSize);
    case ContinueAsNew => HandOverInvariant(w, versions, windowSize);
    case StartFails =>
    case Finish => FinishInvariant(w, versions, windowSize);
  }

  lemma StepNothingLost(w: World, l: Label, versions: seq<Version>, windowSize: nat)
    requires Invariant(w, versions, windowSize) && NothingLost(w, versions, windowSize) && Step(w, l).Some?
    ensures NothingLost(Step(w, l).value, versions, windowSize)
  {
    match l
    case Start => StartAllInvariant(w, versions, windowSize);
    case Receive => ReceiveInvariant(w, versions, windowSize);
    case ContinueAsNew => HandOverInvariant(w, versions, windowSize); HandOverRun(w.run, w.encoding);
    case Finish => FinishInvariant(w, versions, windowSize); DrainKeeps(w.run);
    case _ =>
  }

  lemma {:induction false} ExecuteInvariant(w: World, schedule: seq<Label>, versions: seq<Version>, windowSize: nat)
    requires Invariant(w, versions, windowSize) && Execute(w, schedule).Some?
    ensures Invariant(Execute(w, schedule).value, versions, windowSize)
    ensures NothingLost(w, versions, windowSize) ==> NothingLost(Execute(w, schedule).value, versions, windowSize)
    ensures Lost(Execute(w, schedule).value) >= Lost(w)
    decreases schedule
  {
    if schedule != [] {
      StepInvariant(w, schedule[0], versions, windowSize);
      if NothingLost(w, versions, windowSize) { StepNothingLost(w, schedule[0], versions, windowSize); }
      ExecuteInvariant(Step(w, schedule[0]).value, schedule[1..], versions, windowSize);
    }
  }

  // ---------- safety over whole batches ----------

  /** Every reachable world: the window bound, the account of the starts, and that starts follow the list;
      a batch of distinct versions never has a start refused and so never fails. */
  lemma WindowSafety(encoding: Encoding, versions: seq<Version>, windowSize: nat, schedule: seq<Label>)
    requires windowSize > 0 && Execute(Initial(encoding, versions, windowSize), schedule).Some?
    ensures
      var w := Execute(Initial(encoding, versions, windowSize), schedule).value;
      && |w.run.currentRecords| <= windowSize
      && w.started <= versions
      && w.run.progress + |w.run.currentRecords| <= |w.started|
      && (Distinct(versions) ==>
           && Distinct(w.started) && w.run.progress + |w.run.currentRecords| == |w.started|
           && !w.run.refused && !w.phase.Failed?)
  {
    InitialInvariant(encoding, versions, windowSize);
    ExecuteInvariant(Initial(encoding, versions, windowSize), schedule, versions, windowSize);
    var w := Execute(Initial(encoding, versions, windowSize), schedule).value;
    assert w.started == versions[..|w.started|];
  }

  /** A completed batch started everything and took ceil(N / 50) runs, or one run for an empty list. */
  lemma CompletedBatch(encoding: Encoding, versions: seq<Version>, windowSize: nat, schedule: seq<Label>)
    requires windowSize > 0 && Execute(Initial(encoding, versions, windowSize), schedule).Some?
    requires Execute(Initial(encoding, versions, windowSize), schedule).value.phase.Completed?
    ensures
      var w := Execute(Initial(encoding, versions, windowSize), schedule).value;
      && w.started == versions
      && w.phase.total <= |versions|
      && (windowSize == 1 || Distinct(versions) ==> w.phase.total == |versions|)
      && w.runs == if versions == [] then 1 else (|versions| + 49) / 50
  {
    InitialInvariant(encoding, versions, windowSize);
    ExecuteInvariant(Initial(encoding, versions, windowSize), schedule, versions, windowSize);
    var w := Execute(Initial(encoding, versions, windowSize), schedule).value;
    assert w.started + [] == w.started;
    RunCount(|versions|, w.runs, w.run.next - w.run.offset);
  }

  lemma RunCount(n: nat, runs: nat, page: int)
    requires runs >= 1 && 0 <= page <= PAGE_SIZE && n == PAGE_SIZE * (runs - 1) + page
    requires runs > 1 ==> n > PAGE_SIZE * (runs - 1)
    ensures runs == if n == 0 then 1 else (n + PAGE_SIZE - 1) / PAGE_SIZE
  {
  }

  // ---------- schedules ----------

  lemma {:induction false} ExecuteAppend(w: World, first: seq<Label>, second: seq<Label>)
    ensures Execute(w, first + second) ==
            match Execute(w, first) case None => None case Some(w') => Execute(w', second)
    decreases first
  {
    if first == [] {
      assert [] + second == second;
    } else {
      assert (first + second)[0] == first[0] && (first + second)[1..] == first[1..] + second;
      match Step(w, first[0])
      case None =>
      case Some(w') => ExecuteAppend(w', first[1..], second);
    }
  }

  lemma ExecuteOne(w: World, l: Label, rest: seq<Label>)
    ensures Execute(w, [l]) == Step(w, l)
    ensures Step(w, l).Some? ==> Execute(w, [l] + rest) == Execute(Step(w, l).value, rest)
  {
    assert ([l] + rest)[1..] == rest && [l][1..] == [];
    assert Step(w, l).Some? ==> Execute(Step(w, l).value, []) == Some(Step(w, l).value);
  }
}
