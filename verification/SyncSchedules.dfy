/** Any number of overlapping StoreNewVersions attempts over one table: each pages, filters and commits on its own,
    and their steps interleave as the schedule says. */
module SyncSchedules {
  import opened Common
  import opened VersionSync

  /** atStart records the versions stored when the attempt began. */
  datatype Attempt =
    | Reading(versions: seq<string>, atStart: set<string>, existing: set<string>, offset: int)
    | Ready(versions: seq<string>, atStart: set<string>, newVersions: seq<string>)
    | Committed(versions: seq<string>, atStart: set<string>, newVersions: seq<string>)
    | Failed(versions: seq<string>, atStart: set<string>)

  datatype World = World(rows: map<string, Row>, attempts: seq<Attempt>)

  datatype Label =
    | Begin(versions: seq<string>)
    | ReadPage(attempt: nat, page: seq<string>)
    | Commit(attempt: nat)
    | Fail(attempt: nat)

  /** What an attempt makes of its next page. */
  function AfterPage(a: Attempt, page: seq<string>): Attempt
    requires a.Reading? && 0 <= a.offset <= 0x7fff_ffff
  {
    var existing := a.existing + Elems(page);
    if |page| < PAGE_SIZE then Ready(a.versions, a.atStart, NewOnly(a.versions, existing))
    else a.(existing := existing, offset := NextOffset(a.offset))
  }

  ghost predicate PageRead(before: Collation, keys: set<string>, offset: int, page: seq<string>) {
    0 <= offset <= 0x7fff_ffff && exists list :: IsListing(before, keys, list) && page == PageOf(list, offset)
  }

  ghost function Step(before: Collation, w: World, l: Label): Option<World> {
    match l
    case Begin(versions) => Some(w.(attempts := w.attempts + [Reading(versions, w.rows.Keys, {}, 0)]))
    case ReadPage(i, page) =>
      if i < |w.attempts| && w.attempts[i].Reading? && PageRead(before, w.rows.Keys, w.attempts[i].offset, page)
      then Some(w.(attempts := w.attempts[i := AfterPage(w.attempts[i], page)]))
      else None
    case Commit(i) =>
      if i < |w.attempts| && w.attempts[i].Ready?
      then
        var a := w.attempts[i];
        Some(World(InsertAll(w.rows, a.newVersions), w.attempts[i := Committed(a.versions, a.atStart, a.newVersions)]))
      else None
    case Fail(i) =>
      if i < |w.attempts| && !w.attempts[i].Committed?
      then Some(w.(attempts := w.attempts[i := Failed(w.attempts[i].versions, w.attempts[i].atStart)]))
      else None
  }

  ghost function Execute(before: Collation, w: World, schedule: seq<Label>): Option<World>
    decreases schedule
  {
    if schedule == [] then Some(w)
    else
      match Step(before, w, schedule[0])
      case None => None
      case Some(w') => Execute(before, w', schedule[1..])
  }

  /** What the committed attempts announced. */
  function AnnouncedBy(attempts: seq<Attempt>): set<string> {
    if attempts == [] then {}
    else (if attempts[0].Committed? then Elems(attempts[0].newVersions) else {}) + AnnouncedBy(attempts[1..])
  }

  lemma {:induction false} AnnouncedUpdate(attempts: seq<Attempt>, i: nat, a: Attempt)
    requires i < |attempts| && !attempts[i].Committed?
    ensures AnnouncedBy(attempts[i := a]) == AnnouncedBy(attempts) + (if a.Committed? then Elems(a.newVersions) else {})
  {
    if i > 0 {
      AnnouncedUpdate(attempts[1..], i - 1, a);
      assert attempts[i := a][1..] == attempts[1..][i - 1 := a];
    } else {
      assert attempts[0 := a][1..] == attempts[1..];
    }
  }

  lemma {:induction false} AnnouncedAppend(attempts: seq<Attempt>, a: Attempt)
    requires !a.Committed?
    ensures AnnouncedBy(attempts + [a]) == AnnouncedBy(attempts)
  {
    if attempts != [] {
      AnnouncedAppend(attempts[1..], a);
      assert (attempts + [a])[1..] == attempts[1..] + [a];
    } else {
      assert ([] + [a])[1..] == [];
    }
  }

  /** What an attempt knows of the table at any time, and what holds once it has committed. */
  ghost predicate Sound(before: Collation, keys: set<string>, a: Attempt) {
    && a.atStart <= keys
    && match a
       case Reading(_, atStart, existing, offset) =>
         offset <= 0x7fff_ffff && Paged(before, atStart, keys, existing, offset)
       case Ready(versions, atStart, newVersions) =>
         && (forall v :: v in newVersions ==> v in versions && v !in atStart)
         && (forall v :: v in versions ==> v in keys || v in newVersions)
       case Committed(versions, atStart, newVersions) =>
         && (forall v :: v in newVersions ==> v in versions && v !in atStart)
         && (forall v :: v in versions ==> v in keys)
       case Failed(_, _) => true
  }

  ghost predicate AllSound(before: Collation, w: World) {
    forall i :: 0 <= i < |w.attempts| ==> Sound(before, w.rows.Keys, w.attempts[i])
  }

  lemma SoundGrows(before: Collation, keys: set<string>, keys': set<string>, a: Attempt)
    requires Sound(before, keys, a) && keys <= keys'
    ensures Sound(before, keys', a)
  {
    if a.Reading? { PagedGrows(before, a.atStart, keys, keys', a.existing, a.offset); }
  }

  lemma ReadSound(before: Collation, keys: set<string>, a: Attempt, page: seq<string>)
    requires StrictTotal(before) && Sound(before, keys, a) && a.Reading? && PageRead(before, keys, a.offset, page)
    ensures Sound(before, keys, AfterPage(a, page))
  {
    var list :| IsListing(before, keys, list) && page == PageOf(list, a.offset);
    PageByRank(before, keys, list, a.offset);
    PagedNext(before, a.atStart, keys, a.existing, a.offset, page);
    NewOnlyMembers(a.versions, a.existing + Elems(page));
  }

  lemma StepSound(before: Collation, w: World, l: Label)
    requires StrictTotal(before) && AllSound(before, w) && Step(before, w, l).Some?
    ensures AllSound(before, Step(before, w, l).value)
  {
    match l
    case ReadPage(i, page) => ReadSound(before, w.rows.Keys, w.attempts[i], page);
    case Commit(i) =>
      InsertAllKeys(w.rows, w.attempts[i].newVersions);
      forall k | 0 <= k < |w.attempts| ensures Sound(before, Step(before, w, l).value.rows.Keys, w.attempts[k]) {
        SoundGrows(before, w.rows.Keys, Step(before, w, l).value.rows.Keys, w.attempts[k]);
      }
    case _ =>
  }

  /** The table holds what it held at first, and a bare row for everything else that was announced. */
  ghost predicate Accounted(initial: map<string, Row>, w: World) {
    w.rows == Bare(AnnouncedBy(w.attempts)) + initial
  }

  lemma StepAccounted(before: Collation, initial: map<string, Row>, w: World, l: Label)
    requires Accounted(initial, w) && Step(before, w, l).Some?
    ensures Accounted(initial, Step(before, w, l).value)
  {
    match l
    case Begin(versions) => AnnouncedAppend(w.attempts, Reading(versions, w.rows.Keys, {}, 0));
    case ReadPage(i, page) => AnnouncedUpdate(w.attempts, i, AfterPage(w.attempts[i], page));
    case Fail(i) => AnnouncedUpdate(w.attempts, i, Failed(w.attempts[i].versions, w.attempts[i].atStart));
    case Commit(i) =>
      var a := w.attempts[i];
      AnnouncedUpdate(w.attempts, i, Committed(a.versions, a.atStart, a.newVersions));
      InsertAllEffect(w.rows, a.newVersions);
      BareUnion(AnnouncedBy(w.attempts), Elems(a.newVersions), initial);
  }

  lemma BareUnion(some: set<string>, more: set<string>, initial: map<string, Row>)
    ensures Bare(more) + (Bare(some) + initial) == Bare(some + more) + initial
  {
  }

  lemma {:induction false} ExecuteSound(before: Collation, initial: map<string, Row>, w: World, schedule: seq<Label>)
    requires StrictTotal(before) && AllSound(before, w) && Accounted(initial, w)
    requires Execute(before, w, schedule).Some?
    ensures AllSound(before, Execute(before, w, schedule).value)
      && Accounted(initial, Execute(before, w, schedule).value)
    decreases schedule
  {
    if schedule != [] {
      StepSound(before, w, schedule[0]);
      StepAccounted(before, initial, w, schedule[0]);
      ExecuteSound(before, initial, Step(before, w, schedule[0]).value, schedule[1..]);
    }
  }

  /** However the attempts interleave: the table is the old one plus a bare row for each other version that a committed
      attempt announced; an attempt announces only versions that were absent when it began, and leaves all its versions
      stored. */
  lemma AttemptsConfluent(before: Collation, initial: map<string, Row>, schedule: seq<Label>)
    requires StrictTotal(before) && Execute(before, World(initial, []), schedule).Some?
    ensures
      var w := Execute(before, World(initial, []), schedule).value;
      && w.rows == Bare(AnnouncedBy(w.attempts)) + initial
      && forall i :: 0 <= i < |w.attempts| && w.attempts[i].Committed? ==>
           && (forall v :: v in w.attempts[i].newVersions ==>
             v in w.attempts[i].versions && v !in w.attempts[i].atStart)
           && (forall v :: v in w.attempts[i].versions ==> v in w.rows)
  {
    assert Bare(AnnouncedBy([])) + initial == initial;
    ExecuteSound(before, initial, World(initial, []), schedule);
    var w := Execute(before, World(initial, []), schedule).value;
    forall i | 0 <= i < |w.attempts| ensures Sound(before, w.rows.Keys, w.attempts[i]) {}
  }
}
