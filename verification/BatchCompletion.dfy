/** A schedule that reaches the last page of a batch, for every list that is not blocked: fill the window, then keep
    it full, so that the page loop never starts more at a time than it must. One version may be held back. */
module BatchCompletion {
  import opened Common
  import opened SlidingWindow
  import opened BatchProgress
  import opened BatchRepeats

  // ---------- where the run is in the list ----------

  lemma LastPageIs(w: World, versions: seq<Version>, windowSize: nat)
    requires Account(w, versions, windowSize)
    ensures LastPage(w.run) <==> |versions| <= PAGE_SIZE * w.runs
    ensures PageDone(w.run) ==> |w.started| == if LastPage(w.run) then |versions| else PAGE_SIZE * w.runs
    ensures !PageDone(w.run) ==> |w.started| < |versions| && |w.started| < PAGE_SIZE * w.runs
  {
    assert |Remaining(w)| == |versions| - |w.started|;
  }

  ghost predicate StartedOnPage(w: World, v: Version)
    requires w.runs >= 1
  {
    exists i :: PAGE_SIZE * (w.runs - 1) <= i < |w.started| && w.started[i] == v
  }

  /** The children of this run were started from this page. */
  ghost predicate OwnPage(w: World) {
    w.runs >= 1 && forall v :: v in w.run.pending + w.run.running ==> StartedOnPage(w, v)
  }

  lemma OwnPageKept(w: World, w': World)
    requires OwnPage(w) && w'.runs == w.runs && w.started <= w'.started
    requires w'.run.pending + w'.run.running <= w.run.pending + w.run.running + Elems(w'.started[|w.started|..])
    requires |w.started| >= PAGE_SIZE * (w.runs - 1)
    ensures OwnPage(w')
  {
    forall v | v in w'.run.pending + w'.run.running ensures StartedOnPage(w', v) {
      if v in w.run.pending + w.run.running {
        var i :| PAGE_SIZE * (w.runs - 1) <= i < |w.started| && w.started[i] == v;
        assert w'.started[i] == v;
      } else {
        var i :| 0 <= i < |w'.started[|w.started|..]| && w'.started[|w.started|..][i] == v;
        assert w'.started[|w.started| + i] == v;
      }
    }
  }

  /** v comes again between positions k and limit, before the window can have filled up. */
  ghost predicate Ahead(versions: seq<Version>, windowSize: nat, k: nat, limit: nat, v: Version) {
    exists n :: k <= n < |versions| && n < limit && versions[n] == v && |Elems(versions[..n])| < windowSize
  }

  /** A version that has been started on a page does not come again on it before the window can have filled up. */
  lemma NotAheadAgain(w: World, versions: seq<Version>, windowSize: nat, v: Version)
    requires Invariant(w, versions, windowSize) && !Blocked(versions, windowSize)
    requires PAGE_SIZE * w.runs < |versions| && StartedOnPage(w, v)
    ensures !Ahead(versions, windowSize, |w.started|, PAGE_SIZE * w.runs, v)
  {
    var i :| PAGE_SIZE * (w.runs - 1) <= i < |w.started| && w.started[i] == v;
    assert w.started == versions[..|w.started|];
    forall n | |w.started| <= n < |versions| && n < PAGE_SIZE * w.runs && versions[n] == v
      ensures |Elems(versions[..n])| >= windowSize
    {
      assert !BlockedBy(versions, windowSize, i, n);
    }
  }

  // ---------- holding a version back ----------

  /** The child of v stays silent from its start at position since; no hold if there is no such position. */
  datatype Hold = Hold(v: Version, since: nat)

  /** A held version does not come again before the last page, and leaves room in the window. */
  ghost predicate ValidHold(versions: seq<Version>, windowSize: nat, hold: Hold) {
    hold.since < |versions| ==>
      && windowSize >= 2 && versions[hold.since] == hold.v
      && forall k :: hold.since < k < |versions| && PageLimit(k) < |versions| ==> versions[k] != hold.v
  }

  predicate Held(w: World, hold: Hold) {
    hold.since < |w.started| ==> hold.v in w.run.currentRecords
  }

  function HeldSet(w: World, hold: Hold): set<Version> {
    if hold.since < |w.started| then {hold.v} else {}
  }

  // ---------- filling the window ----------

  /** The children of the window are open and silent, or about to start, and nothing was refused. */
  ghost predicate Silent(w: World) {
    && w.phase.Active? && !w.run.refused && w.run.channel == [] && OwnPage(w)
    && w.run.pending <= w.run.currentRecords && w.open == w.run.currentRecords - w.run.pending
    && forall v :: v in w.open ==> w.credit[v] == MAX_ATTEMPTS
  }

  /** Of the first k versions, those that have left the window are about to be started again,
      and those whose child is open are not. */
  ghost predicate InOrder(versions: seq<Version>, windowSize: nat, k: nat, limit: nat, window: set<Version>,
                          open: set<Version>) {
    && k <= |versions|
    && (forall v :: v in versions[..k] && v !in window ==> Ahead(versions, windowSize, k, limit, v))
    && (forall v :: v in open ==> !Ahead(versions, windowSize, k, limit, v))
  }

  ghost predicate Filling(w: World, versions: seq<Version>, windowSize: nat) {
    Silent(w) && InOrder(versions, windowSize, |w.started|, PAGE_SIZE * w.runs, w.run.currentRecords, w.open)
  }

  lemma NothingAhead(versions: seq<Version>, windowSize: nat, k: nat, limit: nat, v: Version)
    requires k <= |versions| && |Elems(versions[..k])| >= windowSize
    ensures !Ahead(versions, windowSize, k, limit, v)
  {
    forall n | k <= n < |versions| ensures |Elems(versions[..n])| >= windowSize {
      assert versions[..n] == versions[..k] + versions[k..n];
      SubsetSize(Elems(versions[..k]), Elems(versions[..n]));
    }
  }

  /** While the window is filling, the next start cannot be avoided. */
  lemma NextIsForced(w: World, versions: seq<Version>, windowSize: nat)
    requires Invariant(w, versions, windowSize) && Filling(w, versions, windowSize) && CanStart(w.run)
    ensures |w.started| < |versions| && |w.started| < PAGE_SIZE * w.runs
    ensures Ahead(versions, windowSize, |w.started|, PAGE_SIZE * w.runs, versions[|w.started|])
  {
    LastPageIs(w, versions, windowSize);
    NextVersion(w, versions, windowSize);
    var k := |w.started|;
    if |Elems(versions[..k])| >= windowSize {
      forall v | v in w.started ensures v in w.run.currentRecords {
        NothingAhead(versions, windowSize, k, PAGE_SIZE * w.runs, v);
      }
      SubsetSize(Elems(w.started), w.run.currentRecords);
    }
  }

  /** It is not refused, now or by the server. */
  lemma NextIsNew(w: World, versions: seq<Version>, windowSize: nat)
    requires Invariant(w, versions, windowSize) && Filling(w, versions, windowSize) && CanStart(w.run)
    requires !Blocked(versions, windowSize) && PAGE_SIZE * w.runs < |versions|
    ensures |w.started| < |versions| && versions[|w.started|] !in w.run.pending + w.run.running + w.open
  {
    NextIsForced(w, versions, windowSize);
    var x := versions[|w.started|];
    if x in w.run.pending + w.run.running {
      NotAheadAgain(w, versions, windowSize, x);
    }
  }

  lemma InOrderStep(versions: seq<Version>, windowSize: nat, k: nat, limit: nat, window: set<Version>,
                    open: set<Version>)
    requires k < |versions| && InOrder(versions, windowSize, k, limit, window, open)
    ensures InOrder(versions, windowSize, k + 1, limit, window + {versions[k]}, open)
  {
    assert versions[..k + 1] == versions[..k] + [versions[k]];
  }

  lemma StartOneSilent(w: World, x: Version)
    requires Silent(w) && CanStart(w.run) && |w.started| >= PAGE_SIZE * (w.runs - 1)
    requires x == w.run.versions[w.run.next] && x !in w.run.pending + w.run.running + w.open
    ensures Silent(StartOne(w))
  {
    assert StartOne(w).started[|w.started|..] == [x];
    OwnPageKept(w, StartOne(w));
  }

  lemma StartNew(w: World, versions: seq<Version>, windowSize: nat, x: Version)
    requires Filling(w, versions, windowSize) && CanStart(w.run) && |w.started| >= PAGE_SIZE * (w.runs - 1)
    requires |w.started| < |versions| && versions[|w.started|] == x == w.run.versions[w.run.next]
    requires x !in w.run.pending + w.run.running + w.open
    ensures Filling(StartOne(w), versions, windowSize)
  {
    StartOneSilent(w, x);
    InOrderStep(versions, windowSize, |w.started|, PAGE_SIZE * w.runs, w.run.currentRecords, w.open);
  }

  lemma StartOneFilling(w: World, versions: seq<Version>, windowSize: nat)
    requires Invariant(w, versions, windowSize) && Filling(w, versions, windowSize) && CanStart(w.run)
    requires !Blocked(versions, windowSize) && PAGE_SIZE * w.runs < |versions|
    ensures Filling(StartOne(w), versions, windowSize)
  {
    NextVersion(w, versions, windowSize);
    NextIsNew(w, versions, windowSize);
    StartNew(w, versions, windowSize, versions[|w.started|]);
  }

  lemma {:induction false} StartAllFilling(w: World, versions: seq<Version>, windowSize: nat)
    requires Invariant(w, versions, windowSize) && Filling(w, versions, windowSize)
    requires !Blocked(versions, windowSize) && PAGE_SIZE * w.runs < |versions|
    ensures Invariant(StartAll(w), versions, windowSize) && Filling(StartAll(w), versions, windowSize)
    ensures !CanStart(StartAll(w).run) && StartAll(w).runs == w.runs
    decreases |w.run.versions| - w.run.next
  {
    if CanStart(w.run) {
      StartOneFilling(w, versions, windowSize);
      StartOneInvariant(w, versions, windowSize);
      StartAllFilling(StartOne(w), versions, windowSize);
    }
  }

  lemma AnswerFilling(w: World, v: Version, versions: seq<Version>, windowSize: nat) returns (w': World)
    requires Invariant(w, versions, windowSize) && Filling(w, versions, windowSize) && v in w.run.pending
    requires !Blocked(versions, windowSize) && PAGE_SIZE * w.runs < |versions|
    ensures Step(w, Answer(v)) == Some(w')
    ensures Invariant(w', versions, windowSize) && Filling(w', versions, windowSize)
    ensures w'.run.pending == w.run.pending - {v}
    ensures w'.runs == w.runs && Remaining(w') == Remaining(w) && (CanStart(w'.run) <==> CanStart(w.run))
    ensures w'.started == w.started && w'.run.currentRecords == w.run.currentRecords
  {
    w' := Started(w, v);
    NotAheadAgain(w, versions, windowSize, v);
    OwnPageKept(w, w');
    AnswerInvariant(w, v, versions, windowSize);
  }

  lemma AnswerAll(w: World, versions: seq<Version>, windowSize: nat) returns (schedule: seq<Label>, w': World)
    requires Invariant(w, versions, windowSize) && Filling(w, versions, windowSize)
    requires !Blocked(versions, windowSize) && PAGE_SIZE * w.runs < |versions|
    ensures Execute(w, schedule) == Some(w')
    ensures Invariant(w', versions, windowSize) && Filling(w', versions, windowSize) && w'.run.pending == {}
    ensures w'.runs == w.runs && Remaining(w') == Remaining(w) && (CanStart(w'.run) <==> CanStart(w.run))
    ensures w'.started == w.started && w'.run.currentRecords == w.run.currentRecords
    decreases |w.run.pending|
  {
    if w.run.pending == {} {
      schedule, w' := [], w;
    } else {
      var v :| v in w.run.pending;
      var w1 := AnswerFilling(w, v, versions, windowSize);
      var rest, w2 := AnswerAll(w1, versions, windowSize);
      ExecuteOne(w, Answer(v), rest);
      schedule, w' := [Answer(v)] + rest, w2;
    }
  }

  // ---------- keeping the window full ----------

  /** The open children are those of the window, and all of them are silent. */
  ghost predicate Calm(w: World) {
    && w.phase.Active? && !w.run.refused && w.run.channel == [] && w.run.pending == {} && OwnPage(w)
    && w.open == w.run.currentRecords && forall v :: v in w.open ==> w.credit[v] == MAX_ATTEMPTS
  }

  /** The window holds as many versions as it can. */
  predicate Full(w: World, windowSize: nat) {
    |w.run.currentRecords| == windowSize || Elems(w.started) <= w.run.currentRecords
  }

  lemma Filled(w: World, versions: seq<Version>, windowSize: nat)
    requires Invariant(w, versions, windowSize) && Filling(w, versions, windowSize)
    requires w.run.pending == {} && !CanStart(w.run)
    ensures Calm(w) && Full(w, windowSize) && (PageDone(w.run) || |w.run.currentRecords| == windowSize)
  {
    LastPageIs(w, versions, windowSize);
    assert |Remaining(w)| == |versions| - |w.started|;
    assert versions[..|w.started|] == w.started;
  }

  /** One turn of the page loop while the window is filling. */
  lemma FillPage(w: World, versions: seq<Version>, windowSize: nat, hold: Hold)
    returns (schedule: seq<Label>, w': World)
    requires Invariant(w, versions, windowSize) && Filling(w, versions, windowSize) && CanStart(w.run)
    requires !Blocked(versions, windowSize) && PAGE_SIZE * w.runs < |versions|
    requires ValidHold(versions, windowSize, hold) && Held(w, hold)
    ensures Execute(w, schedule) == Some(w')
    ensures Invariant(w', versions, windowSize) && Calm(w') && Full(w', windowSize) && Held(w', hold)
    ensures PageDone(w'.run) || |w'.run.currentRecords| == windowSize
    ensures w'.runs == w.runs && |Remaining(w')| < |Remaining(w)|
  {
    StartAllFilling(w, versions, windowSize);
    StartAllMeasure(w, versions, windowSize);
    StartAllHolds(w, versions, windowSize, hold);
    var answers, w1 := AnswerAll(StartAll(w), versions, windowSize);
    ExecuteOne(w, Start, answers);
    schedule, w' := [Start] + answers, w1;
    Filled(w', versions, windowSize);
  }

  lemma StartAllHolds(w: World, versions: seq<Version>, windowSize: nat, hold: Hold)
    requires Invariant(w, versions, windowSize) && w.phase.Active?
    requires ValidHold(versions, windowSize, hold) && Held(w, hold)
    ensures Held(StartAll(w), hold)
  {
    StartAllGrows(w);
    StartAllInvariant(w, versions, windowSize);
    if |w.started| <= hold.since < |StartAll(w).started| {
      assert |Remaining(StartAll(w))| == |versions| - |StartAll(w).started|;
      StartedInWindow(w, versions, windowSize, hold.since);
    }
  }

  /** The child of u signals, the signal is recorded, and the child closes. */
  function Settled(w: World, u: Version): World
    requires u in w.credit
  {
    var r := Recorded(w, u);
    r.(open := r.open - {u}, credit := r.credit[u := 0], run := r.run.(running := r.run.running - {u}))
  }

  lemma SettleOne(w: World, u: Version, versions: seq<Version>, windowSize: nat) returns (schedule: seq<Label>)
    requires Invariant(w, versions, windowSize) && Calm(w) && u in w.run.currentRecords
    requires !(w.run.newRun && CanStart(w.run))
    ensures u in w.credit && Execute(w, schedule) == Some(Settled(w, u))
    ensures Invariant(Settled(w, u), versions, windowSize) && Calm(Settled(w, u))
  {
    assert u in w.credit;
    SignalRecorded(w, u, versions, windowSize);
    var w1 := Recorded(w, u);
    CloseInvariant(w1, u, versions, windowSize);
    assert Step(w1, Close(u)) == Some(Settled(w, u));
    ExecuteOne(w1, Close(u), []);
    ExecuteAppend(w, [Signal(u)] + [Receive], [Close(u)]);
    schedule := [Signal(u)] + [Receive] + [Close(u)];
    SettledCalm(w, u);
  }

  lemma SettledCalm(w: World, u: Version)
    requires Calm(w) && u in w.credit && |w.started| >= PAGE_SIZE * (w.runs - 1)
    ensures Calm(Settled(w, u))
  {
    OwnPageKept(w, Settled(w, u));
  }

  /** Make room for exactly the next version. */
  lemma SettleForNext(w: World, versions: seq<Version>, windowSize: nat, hold: Hold)
    returns (schedule: seq<Label>, w': World)
    requires windowSize > 0 && Invariant(w, versions, windowSize) && Calm(w)
    requires |w.run.currentRecords| == windowSize && |w.started| < |versions|
    requires |w.started| < PAGE_SIZE * w.runs < |versions|
    requires ValidHold(versions, windowSize, hold) && Held(w, hold)
    ensures Execute(w, schedule) == Some(w')
    ensures Invariant(w', versions, windowSize) && Calm(w') && Held(w', hold)
    ensures versions[|w.started|] !in w'.run.currentRecords && |w'.run.currentRecords| == windowSize - 1
    ensures w'.started == w.started && w'.runs == w.runs && Remaining(w') == Remaining(w)
    ensures PageDone(w'.run) <==> PageDone(w.run)
  {
    var u := WhomToSettle(w, versions, windowSize, hold);
    schedule := SettleOne(w, u, versions, windowSize);
    w' := Settled(w, u);
  }

  /** With a full window: settle one child, so that the page loop starts exactly the next version. */
  lemma KeepFull(w: World, versions: seq<Version>, windowSize: nat, hold: Hold)
    returns (schedule: seq<Label>, w': World)
    requires windowSize > 0 && Invariant(w, versions, windowSize) && Calm(w)
    requires |w.run.currentRecords| == windowSize && !PageDone(w.run) && PAGE_SIZE * w.runs < |versions|
    requires ValidHold(versions, windowSize, hold) && Held(w, hold)
    ensures Execute(w, schedule) == Some(w')
    ensures Invariant(w', versions, windowSize) && Calm(w') && |w'.run.currentRecords| == windowSize && Held(w', hold)
    ensures w'.runs == w.runs && |Remaining(w')| < |Remaining(w)|
  {
    LastPageIs(w, versions, windowSize);
    var settle, w1 := SettleForNext(w, versions, windowSize, hold);
    var start;
    start, w' := StartExactly(w1, versions[|w.started|], versions, windowSize);
    HeldStill(w1, w', versions, windowSize, hold);
    ExecuteAppend(w, settle, start);
    schedule := settle + start;
  }

  lemma HeldStill(w: World, w': World, versions: seq<Version>, windowSize: nat, hold: Hold)
    requires ValidHold(versions, windowSize, hold) && Held(w, hold)
    requires |w.started| < |versions| && |w'.started| == |w.started| + 1
    requires w'.run.currentRecords == w.run.currentRecords + {versions[|w.started|]}
    ensures Held(w', hold)
  {
  }

  /** The next version if it is in the window, otherwise one that is not held. */
  lemma WhomToSettle(w: World, versions: seq<Version>, windowSize: nat, hold: Hold) returns (u: Version)
    requires windowSize > 0 && |w.run.currentRecords| == windowSize
    requires |w.started| < |versions| && |w.started| < PAGE_SIZE * w.runs < |versions|
    requires ValidHold(versions, windowSize, hold) && Held(w, hold)
    ensures u in w.run.currentRecords && versions[|w.started|] !in w.run.currentRecords - {u}
    ensures hold.since < |w.started| ==> u != hold.v
  {
    var x := versions[|w.started|];
    if x in w.run.currentRecords {
      u := x;
      PageLimitWithin(|w.started|, w.runs);
    } else {
      var others := w.run.currentRecords - (if hold.since < |w.started| then {hold.v} else {});
      assert |others| >= 1;
      u :| u in others;
    }
  }

  lemma StartsOnlyOne(w: World, windowSize: nat, x: Version)
    requires CanStart(w.run) && w.run.versions[w.run.next] == x && w.run.windowSize == windowSize
    requires x !in w.run.currentRecords && |w.run.currentRecords| == windowSize - 1
    ensures StartAll(w) == StartOne(w) && |StartOne(w).run.currentRecords| == windowSize
  {
  }

  lemma StartExactly(w: World, x: Version, versions: seq<Version>, windowSize: nat)
    returns (schedule: seq<Label>, w': World)
    requires Invariant(w, versions, windowSize) && Calm(w) && !PageDone(w.run)
    requires |w.started| < |versions| && x == versions[|w.started|]
    requires x !in w.run.currentRecords && |w.run.currentRecords| == windowSize - 1
    ensures Execute(w, schedule) == Some(w')
    ensures Invariant(w', versions, windowSize) && Calm(w') && |w'.run.currentRecords| == windowSize
    ensures w'.run.currentRecords == w.run.currentRecords + {x} && |w'.started| == |w.started| + 1
    ensures w'.runs == w.runs && |Remaining(w')| < |Remaining(w)|
  {
    assert |Remaining(w)| == |versions| - |w.started|;
    NextVersion(w, versions, windowSize);
    StartOneInvariant(w, versions, windowSize);
    StartOneAccount(w, versions, windowSize);
    StartsOnlyOne(w, windowSize, x);
    StartedCalm(w, x);
    AnswerInvariant(StartOne(w), x, versions, windowSize);
    w' := Started(StartOne(w), x);
    ExecuteOne(StartOne(w), Answer(x), []);
    ExecuteOne(w, Start, [Answer(x)]);
    schedule := [Start] + [Answer(x)];
  }

  lemma StartedCalm(w: World, x: Version)
    requires Calm(w) && CanStart(w.run) && w.run.next < |w.run.versions| && w.run.versions[w.run.next] == x
    requires x !in w.open && w.run.running <= w.open && |w.started| >= PAGE_SIZE * (w.runs - 1)
    ensures Calm(Started(StartOne(w), x)) && Step(StartOne(w), Answer(x)) == Some(Started(StartOne(w), x))
  {
    var w' := Started(StartOne(w), x);
    assert w'.started[|w.started|..] == [x];
    OwnPageKept(w, w');
  }

  // ---------- from page to page ----------

  lemma SettleAtEnd(w: World, u: Version, versions: seq<Version>, windowSize: nat)
    returns (schedule: seq<Label>, w': World)
    requires Invariant(w, versions, windowSize) && Calm(w) && PageDone(w.run) && u in w.run.currentRecords
    ensures Execute(w, schedule) == Some(w')
    ensures Invariant(w', versions, windowSize) && Calm(w') && PageDone(w'.run)
    ensures w'.run.currentRecords == w.run.currentRecords - {u}
    ensures w'.runs == w.runs && w'.started == w.started && Remaining(w') == Remaining(w)
  {
    schedule := SettleOne(w, u, versions, windowSize);
    w' := Settled(w, u);
  }

  /** Settle the window at the end of a page, except for the versions to keep. */
  lemma SettleUntil(w: World, keep: set<Version>, versions: seq<Version>, windowSize: nat)
    returns (schedule: seq<Label>, w': World)
    requires Invariant(w, versions, windowSize) && Calm(w) && PageDone(w.run) && keep <= w.run.currentRecords
    ensures Execute(w, schedule) == Some(w')
    ensures Invariant(w', versions, windowSize) && Calm(w') && PageDone(w'.run) && w'.run.currentRecords == keep
    ensures w'.runs == w.runs && w'.started == w.started && Remaining(w') == Remaining(w)
    decreases |w.run.currentRecords|
  {
    if w.run.currentRecords == keep {
      schedule, w' := [], w;
    } else {
      var u :| u in w.run.currentRecords && u !in keep;
      var settle, w1 := SettleAtEnd(w, u, versions, windowSize);
      var rest, w2 := SettleUntil(w1, keep, versions, windowSize);
      ExecuteAppend(w, settle, rest);
      schedule, w' := settle + rest, w2;
    }
  }

  lemma HandOverCalm(w: World, versions: seq<Version>, windowSize: nat)
    requires Invariant(w, versions, windowSize) && Calm(w) && PageDone(w.run) && !LastPage(w.run)
    ensures
      var w' := Step(w, ContinueAsNew);
      && w'.Some? && Invariant(w'.value, versions, windowSize) && Calm(w'.value) && w'.value.runs == w.runs + 1
      && w'.value.run.currentRecords == w.run.currentRecords && w'.value.started == w.started && w'.value.run.newRun
      && w'.value.open == w.open && Remaining(w'.value) == Remaining(w) && !PageDone(w'.value.run)
      && w'.value.run.running == {}
  {
    HandOverInvariant(w, versions, windowSize);
    HandOverRun(w.run, w.encoding);
    assert w.run.currentRecords - Elems(w.run.channel) == w.run.currentRecords;
    LastPageIs(Step(w, ContinueAsNew).value, versions, windowSize);
  }

  /** Enter a page that is not the last while the window is filling. */
  lemma FillNextPage(w: World, versions: seq<Version>, windowSize: nat, hold: Hold)
    returns (schedule: seq<Label>, w': World)
    requires Invariant(w, versions, windowSize) && Calm(w) && PageDone(w.run) && !Blocked(versions, windowSize)
    requires Elems(w.started) <= w.run.currentRecords && |w.run.currentRecords| < windowSize
    requires PAGE_SIZE * (w.runs + 1) < |versions|
    requires ValidHold(versions, windowSize, hold) && Held(w, hold)
    ensures Execute(w, schedule) == Some(w')
    ensures Invariant(w', versions, windowSize) && Calm(w') && Full(w', windowSize) && Held(w', hold)
    ensures PageDone(w'.run) || |w'.run.currentRecords| == windowSize
    ensures w'.runs == w.runs + 1 && |Remaining(w')| < |Remaining(w)|
  {
    LastPageIs(w, versions, windowSize);
    var limit := PAGE_SIZE * (w.runs + 1);
    var some := set v | v in w.run.currentRecords && Ahead(versions, windowSize, |w.started|, limit, v);
    HeldNotAhead(versions, windowSize, hold, |w.started|, w.runs + 1);
    var settle, w1 := SettleUntil(w, w.run.currentRecords - some, versions, windowSize);
    HandOverCalm(w1, versions, windowSize);
    var w2 := Step(w1, ContinueAsNew).value;
    EnterFilling(w2, versions, windowSize, w.run.currentRecords, some);
    var fill;
    fill, w' := FillPage(w2, versions, windowSize, hold);
    ExecuteOne(w1, ContinueAsNew, fill);
    ExecuteAppend(w, settle, [ContinueAsNew] + fill);
    schedule := settle + ([ContinueAsNew] + fill);
  }

  lemma HeldNotAhead(versions: seq<Version>, windowSize: nat, hold: Hold, k: nat, pages: nat)
    requires ValidHold(versions, windowSize, hold) && PAGE_SIZE * pages < |versions|
    ensures hold.since < k ==> !Ahead(versions, windowSize, k, PAGE_SIZE * pages, hold.v)
  {
    forall n | hold.since < k <= n < PAGE_SIZE * pages ensures versions[n] != hold.v {
      PageLimitWithin(n, pages);
    }
  }

  lemma PageLimitWithin(n: nat, pages: nat)
    requires n < PAGE_SIZE * pages
    ensures PageLimit(n) <= PAGE_SIZE * pages
  {
  }

  lemma EnterFilling(w: World, versions: seq<Version>, windowSize: nat, all: set<Version>, some: set<Version>)
    requires Invariant(w, versions, windowSize) && Calm(w) && !PageDone(w.run)
    requires Elems(w.started) <= all && |all| < windowSize && w.run.currentRecords == all - some
    requires forall v :: v in all ==> (v in some <==> Ahead(versions, windowSize, |w.started|, PAGE_SIZE * w.runs, v))
    ensures Filling(w, versions, windowSize) && CanStart(w.run)
  {
    LastPageIs(w, versions, windowSize);
    SubsetSize(w.run.currentRecords, all);
    assert |Remaining(w)| == |versions| - |w.started|;
    assert versions[..|w.started|] == w.started;
    forall v | v in w.started && v !in w.run.currentRecords
      ensures Ahead(versions, windowSize, |w.started|, PAGE_SIZE * w.runs, v)
    {
      assert v in Elems(w.started);
    }
  }

  /** At the beginning of the last page, with nothing but the held version in the window. */
  ghost predicate AtLastPage(w: World, hold: Hold) {
    && Calm(w) && LastPage(w.run) && w.run.newRun && w.run.currentRecords == HeldSet(w, hold)
    && w.runs >= 1 && |w.started| == PAGE_SIZE * (w.runs - 1)
  }

  lemma EnterLastPage(w: World, versions: seq<Version>, windowSize: nat, hold: Hold)
    returns (schedule: seq<Label>, w': World)
    requires Invariant(w, versions, windowSize) && Calm(w) && PageDone(w.run) && Held(w, hold)
    requires PAGE_SIZE * w.runs < |versions| <= PAGE_SIZE * (w.runs + 1)
    ensures Execute(w, schedule) == Some(w') && Invariant(w', versions, windowSize) && AtLastPage(w', hold)
  {
    LastPageIs(w, versions, windowSize);
    var settle, w1 := SettleUntil(w, HeldSet(w, hold), versions, windowSize);
    HandOverCalm(w1, versions, windowSize);
    w' := Step(w1, ContinueAsNew).value;
    LastPageIs(w', versions, windowSize);
    ExecuteOne(w1, ContinueAsNew, []);
    ExecuteAppend(w, settle, [ContinueAsNew]);
    schedule := settle + [ContinueAsNew];
  }

  /** From a page that is not the last to the last page. */
  lemma ToLastPage(w: World, versions: seq<Version>, windowSize: nat, hold: Hold)
    returns (schedule: seq<Label>, w': World)
    requires windowSize > 0 && Invariant(w, versions, windowSize) && Calm(w) && Full(w, windowSize)
    requires !Blocked(versions, windowSize) && PAGE_SIZE * w.runs < |versions|
    requires !PageDone(w.run) ==> |w.run.currentRecords| == windowSize
    requires ValidHold(versions, windowSize, hold) && Held(w, hold)
    ensures Execute(w, schedule) == Some(w') && Invariant(w', versions, windowSize) && AtLastPage(w', hold)
    decreases |Remaining(w)|, if PageDone(w.run) then 1 else 0
  {
    LastPageIs(w, versions, windowSize);
    if PageDone(w.run) && |versions| <= PAGE_SIZE * (w.runs + 1) {
      schedule, w' := EnterLastPage(w, versions, windowSize, hold);
      return;
    }
    var first: seq<Label>, w1: World;
    if !PageDone(w.run) {
      first, w1 := KeepFull(w, versions, windowSize, hold);
    } else if |w.run.currentRecords| == windowSize {
      HandOverCalm(w, versions, windowSize);
      first, w1 := [ContinueAsNew], Step(w, ContinueAsNew).value;
      ExecuteOne(w, ContinueAsNew, []);
    } else {
      first, w1 := FillNextPage(w, versions, windowSize, hold);
    }
    var rest;
    rest, w' := ToLastPage(w1, versions, windowSize, hold);
    ExecuteAppend(w, first, rest);
    schedule := first + rest;
  }

  lemma ReachLastPage(encoding: Encoding, versions: seq<Version>, windowSize: nat, hold: Hold)
    returns (schedule: seq<Label>, w: World)
    requires windowSize > 0 && !Blocked(versions, windowSize) && ValidHold(versions, windowSize, hold)
    ensures Execute(Initial(encoding, versions, windowSize), schedule) == Some(w)
    ensures Invariant(w, versions, windowSize) && AtLastPage(w, hold)
  {
    var w0 := Initial(encoding, versions, windowSize);
    InitialInvariant(encoding, versions, windowSize);
    LastPageIs(w0, versions, windowSize);
    if |versions| <= PAGE_SIZE {
      schedule, w := [], w0;
    } else {
      var fill, w1 := FillPage(w0, versions, windowSize, hold);
      var rest;
      rest, w := ToLastPage(w1, versions, windowSize, hold);
      ExecuteAppend(w0, fill, rest);
      schedule := fill + rest;
    }
  }

  // ---------- the exact condition ----------

  ghost predicate SomeRunCompletes(encoding: Encoding, versions: seq<Version>, windowSize: nat) {
    exists schedule {:trigger Execute(Initial(encoding, versions, windowSize), schedule)} ::
      var w := Execute(Initial(encoding, versions, windowSize), schedule);
      w.Some? && w.value.phase.Completed?
  }

  lemma Complete(encoding: Encoding, versions: seq<Version>, windowSize: nat) returns (schedule: seq<Label>)
    requires windowSize > 0 && !Blocked(versions, windowSize)
    ensures Execute(Initial(encoding, versions, windowSize), schedule).Some?
    ensures Execute(Initial(encoding, versions, windowSize), schedule).value.phase.Completed?
  {
    var reach, w := ReachLastPage(encoding, versions, windowSize, Hold("", |versions|));
    assert |w.started| <= |versions| by { assert |Remaining(w)| == |versions| - |w.started|; }
    var rest := CompleteLastPage(w, versions, windowSize);
    ExecuteAppend(Initial(encoding, versions, windowSize), reach, rest);
    schedule := reach + rest;
  }

  /** Some schedule completes the batch if and only if no version is repeated on a page that is not the last
      before the window can have filled up. */
  lemma SomeRunCompletesIff(encoding: Encoding, versions: seq<Version>, windowSize: nat)
    requires windowSize > 0
    ensures SomeRunCompletes(encoding, versions, windowSize) <==> !Blocked(versions, windowSize)
  {
    var w0 := Initial(encoding, versions, windowSize);
    if i, j :| BlockedBy(versions, windowSize, i, j) {
      InitialInvariant(encoding, versions, windowSize);
      forall schedule | Execute(w0, schedule).Some? ensures !Execute(w0, schedule).value.phase.Completed? {
        BarredNeverCompletes(w0, schedule, versions, windowSize, i, j);
      }
    } else {
      var schedule := Complete(encoding, versions, windowSize);
      assert Execute(w0, schedule).Some?;
    }
  }

  /** For example, no schedule completes a batch of more than one page that begins with a repeated version,
      unless the window holds one version only. */
  lemma RepeatAtStartBlocks(encoding: Encoding, versions: seq<Version>, windowSize: nat)
    requires windowSize > 1 && |versions| > PAGE_SIZE && versions[0] == versions[1]
    ensures !SomeRunCompletes(encoding, versions, windowSize)
  {
    assert Elems(versions[..1]) == {versions[0]};
    assert BlockedBy(versions, windowSize, 0, 1);
    SomeRunCompletesIff(encoding, versions, windowSize);
  }
}
