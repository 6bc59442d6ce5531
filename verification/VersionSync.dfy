/** Version discovery and storage under concurrent writers: OFFSET paging over a growing table,
    the asset-probe gate of the metadata source, and inserts that do nothing on conflict.
    The rows are those of one artifact, keyed by version string. */
module VersionSync {
  import opened Common

  datatype Row = Row(sortOrder: int, recommended: bool, commitBody: Option<string>)

  /** A bare row: the column defaults. */
  const NEW_ROW: Row := Row(0, false, None)

  const PAGE_SIZE: int := 100
  const PROBE_CAP: int := 50

  // ---------- the order of the string query ----------

  /** The collation: some strict total order on version strings. */
  type Collation = (string, string) -> bool

  ghost predicate StrictTotal(before: Collation) {
    && (forall a :: !before(a, a))
    && (forall a, b :: a == b || before(a, b) || before(b, a))
    && (forall a, b, c :: before(a, b) && before(b, c) ==> before(a, c))
  }

  /** The rows in ascending order. */
  ghost predicate IsListing(before: Collation, keys: set<string>, list: seq<string>) {
    && Elems(list) == keys
    && forall i, j :: 0 <= i < j < |list| ==> before(list[i], list[j])
  }

  ghost function Predecessors(before: Collation, keys: set<string>, v: string): set<string> {
    set u | u in keys && before(u, v)
  }

  ghost function Rank(before: Collation, keys: set<string>, v: string): nat {
    |Predecessors(before, keys, v)|
  }

  /** Rows only ever get later positions while the table grows. */
  lemma RankGrows(before: Collation, keys: set<string>, keys': set<string>, v: string)
    requires keys <= keys'
    ensures Rank(before, keys, v) <= Rank(before, keys', v)
  {
    var p, p' := Predecessors(before, keys, v), Predecessors(before, keys', v);
    assert p' == p + (p' - p);
  }

  lemma {:induction false} AscendingSize(before: Collation, list: seq<string>)
    requires StrictTotal(before) && forall i, j :: 0 <= i < j < |list| ==> before(list[i], list[j])
    ensures |Elems(list)| == |list|
  {
    if list != [] {
      var init, last := list[..|list| - 1], list[|list| - 1];
      AscendingSize(before, init);
      assert Elems(list) == Elems(init) + {last};
      assert forall i :: 0 <= i < |init| ==> init[i] != last;
    }
  }

  /** The OFFSET of a row is its rank. */
  lemma IndexIsRank(before: Collation, keys: set<string>, list: seq<string>, i: nat)
    requires StrictTotal(before) && IsListing(before, keys, list) && i < |list|
    ensures Rank(before, keys, list[i]) == i
  {
    AscendingSize(before, list[..i]);
    var p := Predecessors(before, keys, list[i]);
    forall u ensures u in p <==> u in Elems(list[..i]) {
      if u in p {
        assert u in Elems(list);
        var j :| 0 <= j < |list| && list[j] == u;
        assert j < i;
        assert list[..i][j] == u;
      }
      if u in list[..i] {
        var j :| 0 <= j < i && list[..i][j] == u;
        assert list[j] == u && u in Elems(list);
      }
    }
    assert p == Elems(list[..i]);
  }

  /** LIMIT 100 OFFSET n of a listing. */
  function PageOf(list: seq<string>, offset: nat): seq<string> {
    list[Min(offset, |list|)..Min(offset + PAGE_SIZE, |list|)]
  }

  lemma PageByRank(before: Collation, keys: set<string>, list: seq<string>, offset: nat)
    requires StrictTotal(before) && IsListing(before, keys, list)
    ensures forall v :: v in PageOf(list, offset) <==>
      v in keys && offset <= Rank(before, keys, v) < offset + PAGE_SIZE
    ensures |PageOf(list, offset)| < PAGE_SIZE ==>
      forall v :: v in keys ==> Rank(before, keys, v) < offset + PAGE_SIZE
    ensures |PageOf(list, offset)| < PAGE_SIZE || |keys| >= offset + PAGE_SIZE
  {
    AscendingSize(before, list);
    var page := PageOf(list, offset);
    forall v | v in keys ensures v in page <==> offset <= Rank(before, keys, v) < offset + PAGE_SIZE
      ensures Rank(before, keys, v) < |list|
    {
      assert v in Elems(list);
      var i :| 0 <= i < |list| && list[i] == v;
      IndexIsRank(before, keys, list, i);
      if offset <= i < offset + PAGE_SIZE {
        assert page[i - offset] == v;
      }
      if v in page {
        var k :| 0 <= k < |page| && page[k] == v;
        IndexIsRank(before, keys, list, Min(offset, |list|) + k);
      }
    }
    forall v | v in page ensures v in keys {
      var k :| 0 <= k < |page| && page[k] == v;
      assert list[Min(offset, |list|) + k] in Elems(list);
    }
  }

  // ---------- paging while the table grows ----------

  /** offset += versionPageSize on an int32: beyond the largest multiple of 100 it wraps around. */
  function NextOffset(offset: int): (next: int)
    requires 0 <= offset <= 0x7fff_ffff
    ensures next == offset + PAGE_SIZE <= 0x7fff_ffff || (next < 0 && offset + PAGE_SIZE > 0x7fff_ffff)
  {
    Int32(offset + PAGE_SIZE)
  }

  /** What a paging loop that has reached an offset knows: versions that were there when it began
      have been seen, or lie at the offset or behind. */
  ghost predicate Paged(before: Collation, atStart: set<string>, keys: set<string>, existing: set<string>,
                        offset: int) {
    && atStart <= keys && existing <= keys
    && forall v :: v in atStart && v !in existing ==> Rank(before, keys, v) >= offset
  }

  lemma PagedGrows(before: Collation, atStart: set<string>, keys: set<string>, keys': set<string>,
                   existing: set<string>, offset: int)
    requires Paged(before, atStart, keys, existing, offset) && keys <= keys'
    ensures Paged(before, atStart, keys', existing, offset)
  {
    forall v | v in atStart && v !in existing ensures Rank(before, keys', v) >= offset {
      RankGrows(before, keys, keys', v);
    }
  }

  /** A page holds the rows of its range of positions; nothing lies behind a short one,
      and a full one fills its range. */
  ghost predicate IsPage(before: Collation, keys: set<string>, offset: int, page: seq<string>) {
    && |page| <= PAGE_SIZE && (|page| == PAGE_SIZE ==> |keys| >= offset + PAGE_SIZE)
    && (forall v :: v in page <==> v in keys && offset <= Rank(before, keys, v) < offset + PAGE_SIZE)
    && (|page| < PAGE_SIZE ==> forall v :: v in keys ==> Rank(before, keys, v) < offset + PAGE_SIZE)
  }

  lemma PagedNext(before: Collation, atStart: set<string>, keys: set<string>, existing: set<string>,
                  offset: int, page: seq<string>)
    requires Paged(before, atStart, keys, existing, offset) && IsPage(before, keys, offset, page)
    ensures forall next :: next <= offset + PAGE_SIZE ==> Paged(before, atStart, keys, existing + Elems(page), next)
    ensures |page| < PAGE_SIZE ==> atStart <= existing + Elems(page)
  {
  }

  // ---------- inserting ----------

  function Insert(rows: map<string, Row>, v: string): map<string, Row> {
    if v in rows then rows else rows[v := NEW_ROW]
  }

  function InsertAll(rows: map<string, Row>, versions: seq<string>): map<string, Row>
    decreases versions
  {
    if versions == [] then rows else InsertAll(Insert(rows, versions[0]), versions[1..])
  }

  lemma {:induction false} InsertAllKeys(rows: map<string, Row>, versions: seq<string>)
    ensures InsertAll(rows, versions).Keys == rows.Keys + Elems(versions)
    decreases versions
  {
    if versions != [] {
      InsertAllKeys(Insert(rows, versions[0]), versions[1..]);
      assert Elems(versions) == {versions[0]} + Elems(versions[1..]);
    }
  }

  /** A transaction adds a bare row for each version that is not there and leaves every row that is. */
  lemma {:induction false} InsertAllEffect(rows: map<string, Row>, versions: seq<string>)
    ensures InsertAll(rows, versions) == Bare(Elems(versions)) + rows
    decreases versions
  {
    if versions != [] {
      var rest := Elems(versions[1..]);
      InsertAllEffect(Insert(rows, versions[0]), versions[1..]);
      assert Elems(versions) == {versions[0]} + rest;
      assert Bare(rest) + Insert(rows, versions[0]) == Bare({versions[0]} + rest) + rows;
    }
  }

  /** A table of bare rows. */
  function Bare(versions: set<string>): map<string, Row> {
    map v | v in versions :: NEW_ROW
  }

  function CommitAll(rows: map<string, Row>, commits: seq<seq<string>>): map<string, Row>
    decreases commits
  {
    if commits == [] then rows else CommitAll(InsertAll(rows, commits[0]), commits[1..])
  }

  function Announced(commits: seq<seq<string>>): set<string> {
    if commits == [] then {} else Elems(commits[0]) + Announced(commits[1..])
  }

  /** After any commits of overlapping sync runs the table is the old table plus a bare row for every other announced
      version, so neither the order of the commits nor repetition matters and no existing row is touched. */
  lemma {:induction false} CommitsConfluent(rows: map<string, Row>, commits: seq<seq<string>>)
    ensures CommitAll(rows, commits) == Bare(Announced(commits)) + rows
    decreases commits
  {
    if commits != [] {
      InsertAllEffect(rows, commits[0]);
      CommitsConfluent(InsertAll(rows, commits[0]), commits[1..]);
      assert Bare(Announced(commits[1..])) + (Bare(Elems(commits[0])) + rows) == Bare(Announced(commits)) + rows;
    }
  }

  // ---------- the gate ----------

  function Unknown(candidates: seq<string>, existing: set<string>): nat {
    if candidates == [] then 0 else (if candidates[0] in existing then 0 else 1) + Unknown(candidates[1..], existing)
  }

  lemma {:induction false} UnknownSnoc(candidates: seq<string>, v: string, existing: set<string>)
    ensures Unknown(candidates + [v], existing) == Unknown(candidates, existing) + (if v in existing then 0 else 1)
  {
    if candidates != [] {
      assert (candidates + [v])[1..] == candidates[1..] + [v];
      UnknownSnoc(candidates[1..], v, existing);
    } else {
      assert [v][1..] == [];
    }
  }

  lemma {:induction false} UnknownPrefix(candidates: seq<string>, k: nat, existing: set<string>)
    requires k <= |candidates|
    ensures Unknown(candidates[..k], existing) <= Unknown(candidates, existing)
  {
    if k > 0 {
      assert candidates[..k][1..] == candidates[1..][..k - 1];
      UnknownPrefix(candidates[1..], k - 1, existing);
    }
  }

  /** A probe of a version and its answer. */
  datatype Probe = Probe(version: string, hasAssets: bool)

  /** The candidates that are known, or that the next probe found assets for. */
  function Gate(candidates: seq<string>, existing: set<string>, probes: seq<Probe>): seq<string>
    decreases candidates
  {
    if candidates == [] then []
    else if candidates[0] in existing then [candidates[0]] + Gate(candidates[1..], existing, probes)
    else if probes == [] then []
    else (if probes[0].hasAssets then [candidates[0]] else []) + Gate(candidates[1..], existing, probes[1..])
  }

  /** The probes are made for the unknown candidates in order. */
  predicate ProbesMatch(candidates: seq<string>, existing: set<string>, probes: seq<Probe>)
    decreases candidates
  {
    if candidates == [] then probes == []
    else if candidates[0] in existing then ProbesMatch(candidates[1..], existing, probes)
    else probes != [] && probes[0].version == candidates[0] && ProbesMatch(candidates[1..], existing, probes[1..])
  }

  lemma {:induction false} GateSnoc(candidates: seq<string>, v: string, existing: set<string>, probes: seq<Probe>,
                                    p: Probe)
    requires ProbesMatch(candidates, existing, probes)
    ensures v in existing ==>
      ProbesMatch(candidates + [v], existing, probes)
      && Gate(candidates + [v], existing, probes) == Gate(candidates, existing, probes) + [v]
    ensures v !in existing && p.version == v ==>
      ProbesMatch(candidates + [v], existing, probes + [p])
      && Gate(candidates + [v], existing, probes + [p]) ==
         Gate(candidates, existing, probes) + (if p.hasAssets then [v] else [])
    decreases candidates
  {
    if candidates == [] {
      assert [v][1..] == [] && ([] + [p])[1..] == [];
    } else {
      assert (candidates + [v])[0] == candidates[0] && (candidates + [v])[1..] == candidates[1..] + [v];
      if candidates[0] in existing {
        GateSnoc(candidates[1..], v, existing, probes, p);
      } else {
        assert (probes + [p])[0] == probes[0] && (probes + [p])[1..] == probes[1..] + [p];
        GateSnoc(candidates[1..], v, existing, probes[1..], p);
      }
    }
  }

  /** Exactly the known candidates and those probed true pass the gate. */
  lemma {:induction false} GateIff(candidates: seq<string>, existing: set<string>, probes: seq<Probe>, v: string)
    requires ProbesMatch(candidates, existing, probes)
    ensures v in Gate(candidates, existing, probes) <==>
            v in candidates && (v in existing || Probe(v, true) in probes)
    decreases candidates
  {
    if candidates != [] {
      if candidates[0] in existing {
        GateIff(candidates[1..], existing, probes, v);
        if v !in existing && Probe(v, true) in probes { ProbedUnknown(candidates, existing, probes, v); }
      } else {
        GateIff(candidates[1..], existing, probes[1..], v);
        assert probes == [probes[0]] + probes[1..];
        if Probe(v, true) in probes[1..] { ProbedUnknown(candidates[1..], existing, probes[1..], v); }
      }
    }
  }

  /** Only unknown candidates are probed. */
  lemma {:induction false} ProbedUnknown(candidates: seq<string>, existing: set<string>, probes: seq<Probe>, v: string)
    requires ProbesMatch(candidates, existing, probes)
    ensures forall answer :: Probe(v, answer) in probes ==> v in candidates && v !in existing
    decreases candidates
  {
    if candidates != [] {
      if candidates[0] in existing {
        ProbedUnknown(candidates[1..], existing, probes, v);
      } else {
        ProbedUnknown(candidates[1..], existing, probes[1..], v);
        assert probes == [probes[0]] + probes[1..];
      }
    }
  }

  function NewOnly(versions: seq<string>, existing: set<string>): seq<string> {
    if versions == [] then []
    else (if versions[0] in existing then [] else [versions[0]]) + NewOnly(versions[1..], existing)
  }

  lemma {:induction false} NewOnlySnoc(versions: seq<string>, v: string, existing: set<string>)
    ensures NewOnly(versions + [v], existing) == NewOnly(versions, existing) + (if v in existing then [] else [v])
  {
    if versions == [] {
      assert [v][1..] == [];
    } else {
      assert (versions + [v])[0] == versions[0] && (versions + [v])[1..] == versions[1..] + [v];
      NewOnlySnoc(versions[1..], v, existing);
    }
  }

  lemma {:induction false} NewOnlyMembers(versions: seq<string>, existing: set<string>)
    ensures forall v :: v in NewOnly(versions, existing) <==> v in versions && v !in existing
  {
    if versions != [] {
      NewOnlyMembers(versions[1..], existing);
    }
  }

  /** The new versions stay in their order, repeats included. */
  lemma {:induction false} NewOnlyInOrder(versions: seq<string>, more: seq<string>, existing: set<string>)
    ensures NewOnly(versions + more, existing) == NewOnly(versions, existing) + NewOnly(more, existing)
    ensures versions != [] ==>
      NewOnly([versions[0]], existing) == if versions[0] in existing then [] else [versions[0]]
  {
    if versions == [] {
      assert [] + more == more;
    } else {
      assert (versions + more)[0] == versions[0] && (versions + more)[1..] == versions[1..] + more;
      assert [versions[0]][1..] == [];
      NewOnlyInOrder(versions[1..], more, existing);
    }
  }

  // ---------- which accesses fail ----------

  /** The database accesses of one activity that fail: the lookup of the artifact, the page queries by number,
      and the transaction. */
  datatype Faults = Faults(lookup: bool, queries: set<nat>, commit: bool)

  const MAX_INT32: int := 0x7fff_ffff

  /** Paging stopped at a failed access. */
  predicate PagingFails(f: Faults, queries: nat) {
    f.lookup || (queries > 0 && queries - 1 in f.queries)
  }

  /** Paging stops at the first access that fails; it makes no query without the artifact, and at least one with it. */
  ghost predicate PagesUntil(f: Faults, queries: nat) {
    if f.lookup then queries == 0 else queries > 0 && NoneFailed(f, queries - 1)
  }

  predicate NoneFailed(f: Faults, queries: nat) {
    forall k: nat :: k < queries ==> k !in f.queries
  }

  lemma NextSucceeds(f: Faults, queries: nat)
    requires NoneFailed(f, queries) && queries !in f.queries
    ensures NoneFailed(f, queries + 1)
  {
  }

  /** What the probes made so far were answered; hasAssets answers them by number. */
  predicate Answered(hasAssets: nat -> Result<bool>, probes: seq<Probe>) {
    forall i :: 0 <= i < |probes| ==> hasAssets(i) == Ok(probes[i].hasAssets)
  }

  lemma AnsweredNext(hasAssets: nat -> Result<bool>, probes: seq<Probe>, p: Probe)
    requires Answered(hasAssets, probes) && hasAssets(|probes|) == Ok(p.hasAssets)
    ensures Answered(hasAssets, probes + [p])
  {
  }

  ghost predicate SomeProbeFails(hasAssets: nat -> Result<bool>, n: nat) {
    exists k: nat :: k < n && hasAssets(k).Err?
  }

  lemma NoProbeFails(hasAssets: nat -> Result<bool>, probes: seq<Probe>)
    requires Answered(hasAssets, probes)
    ensures !SomeProbeFails(hasAssets, |probes|)
  {
  }

  /** Nothing is stored yet, or more is unknown than one run may probe. */
  predicate Deferred(candidates: seq<string>, existing: set<string>) {
    existing == {} || Unknown(candidates, existing) > 50
  }

  /** The metadata cannot be read, a page cannot, or some probe that has to be made. */
  ghost predicate FetchFails(metadata: Result<seq<string>>, hasAssets: nat -> Result<bool>, f: Faults, queries: nat,
                             existing: set<string>) {
    metadata.Err? || (metadata.value != [] &&
      (PagingFails(f, queries)
       || (!Deferred(metadata.value, existing) && SomeProbeFails(hasAssets, Unknown(metadata.value, existing)))))
  }

  /** A page cannot be read, or the transaction fails that is needed for something new. */
  predicate StoreFails(versions: seq<string>, f: Faults, queries: nat, existing: set<string>) {
    versions != [] && (PagingFails(f, queries) || (f.commit && NewOnly(versions, existing) != []))
  }

  // ---------- the activities ----------

  /** The shared table. Between any two statements of an activity other sessions may insert rows and update columns,
      but no version row is ever deleted. */
  /** Other sessions have inserted exactly what is new, and nothing has gone. */
  ghost predicate Grown(keys: set<string>, foreign: set<string>, keys': set<string>, foreign': set<string>) {
    foreign <= foreign' && keys' == keys + (foreign' - foreign)
  }

  lemma GrownTwice(k0: set<string>, f0: set<string>, k1: set<string>, f1: set<string>, k2: set<string>, f2: set<string>)
    requires Grown(k0, f0, k1, f1) && Grown(k1, f1, k2, f2)
    ensures Grown(k0, f0, k2, f2)
  {
  }

  /** What a transaction makes of the new versions, if the table has grown by what other sessions inserted. */
  lemma Stored(versions: seq<string>, existing: set<string>, keys: set<string>, inserted: set<string>,
               rows: map<string, Row>)
    requires rows.Keys == keys + inserted && keys <= existing <= keys + inserted
    ensures
      var announced := NewOnly(versions, existing);
      var after := InsertAll(rows, announced);
      && rows.Keys <= after.Keys && (forall v :: v in versions ==> v in after)
      && Elems(announced) - rows.Keys == Elems(announced) - inserted
      && forall v :: v in announced && v !in rows ==> v in after && after[v] == NEW_ROW
  {
    NewOnlyMembers(versions, existing);
    InsertAllKeys(rows, NewOnly(versions, existing));
    InsertAllEffect(rows, NewOnly(versions, existing));
  }

  class VersionTable {
    const before: Collation
    var rows: map<string, Row>
    /** Versions whose rows were created by this session, and by other sessions since. */
    ghost var created: set<string>
    ghost var foreign: set<string>

    ghost predicate Valid()
      reads this
    {
      StrictTotal(before) && created + foreign <= rows.Keys && created !! foreign
    }

    constructor (before: Collation, initial: map<string, Row>)
      requires StrictTotal(before)
      ensures Valid() && this.before == before && rows == initial && created == {} && foreign == {}
    {
      this.before := before;
      rows := initial;
      created, foreign := {}, {};
    }

    method OtherSessions()
      requires Valid()
      modifies this`rows, this`foreign
      ensures Valid() && Grown(old(rows.Keys), old(foreign), rows.Keys, foreign)
    {
      var inserted: map<string, Row> := *;
      rows := rows + inserted;
      foreign := foreign + (rows.Keys - old(rows.Keys));
    }

    /** ORDER BY version. */
    method Listing() returns (list: seq<string>)
      requires Valid()
      ensures IsListing(before, rows.Keys, list)
    {
      list := [];
      var rest := rows.Keys;
      ghost var done: set<string> := {};
      while rest != {}
        invariant done + rest == rows.Keys && done !! rest
        invariant IsListing(before, done, list)
        decreases |rest|
      {
        var v :| v in rest;
        list := InsertInOrder(list, v, done);
        rest := rest - {v};
        done := done + {v};
      }
    }

    method InsertInOrder(list: seq<string>, v: string, ghost keys: set<string>) returns (longer: seq<string>)
      requires StrictTotal(before) && IsListing(before, keys, list) && v !in keys
      ensures IsListing(before, keys + {v}, longer)
    {
      var i := 0;
      while i < |list| && before(list[i], v)
        invariant 0 <= i <= |list|
        invariant forall j :: 0 <= j < i ==> before(list[j], v)
      {
        i := i + 1;
      }
      longer := list[..i] + [v] + list[i..];
      assert list == list[..i] + list[i..];
      assert i < |list| ==> list[i] in Elems(list) && before(v, list[i]);
      forall j, k | 0 <= j < k < |longer| ensures before(longer[j], longer[k]) {
        if j == i && k > i + 1 { assert before(list[i], list[k - 1]); }
      }
    }

    /** LIMIT 100 OFFSET n: a negative offset is an error. */
    method ListVersionStrings(offset: int, fails: bool) returns (page: Result<seq<string>>)
      requires Valid()
      ensures page.Err? <==> fails || offset < 0
      ensures page.Ok? ==> IsPage(before, rows.Keys, offset, page.value)
    {
      if fails || offset < 0 {
        page := Err("listing existing versions");
        return;
      }
      var list := Listing();
      page := Ok(PageOf(list, offset));
      PageByRank(before, rows.Keys, list, offset);
    }

    /** OFFSET paging never misses: the result holds every version present at the start and only versions present at
        the end. It fails exactly if an access fails, while the table stays within the range of an int32. */
    method ExistingVersionSet(f: Faults) returns (r: Result<set<string>>, queries: nat)
      requires Valid()
      modifies this`rows, this`foreign
      ensures Valid() && Grown(old(rows.Keys), old(foreign), rows.Keys, foreign)
      ensures r.Ok? ==> old(rows.Keys) <= r.value <= rows.Keys
      ensures PagesUntil(f, queries)
      ensures PagingFails(f, queries) ==> r.Err?
      ensures r.Err? ==> PagingFails(f, queries) || |rows.Keys| > MAX_INT32
    {
      queries := 0;
      if f.lookup { return Err("looking up artifact"), 0; }
      ghost var keys, others := rows.Keys, foreign;
      var existing: set<string> := {};
      var offset, more := 0, true;
      while more
        invariant Valid() && Paging(keys, others, existing, offset, more)
        invariant (more || queries > 0) && NoneFailed(f, queries)
        decreases if !more then -2 else if offset < 0 then -1 else 0x8000_0000 - offset
      {
        var page := ReadPage(keys, others, existing, offset, queries in f.queries);
        if page.Err? { return Err(page.message), queries + 1; }
        NextSucceeds(f, queries);
        queries := queries + 1;
        existing := existing + Elems(page.value);
        more := |page.value| == PAGE_SIZE;
        if more { offset := NextOffset(offset); }
      }
      r := Ok(existing);
    }

    /** Where a paging loop stands that began with these keys: what it may expect at the offset, or all it needs. */
    ghost predicate Paging(keys: set<string>, others: set<string>, existing: set<string>, offset: int, more: bool)
      reads this
    {
      && Grown(keys, others, rows.Keys, foreign) && existing <= rows.Keys
      && if more
         then offset <= MAX_INT32 && Paged(before, keys, rows.Keys, existing, offset)
              && (offset < 0 ==> |rows.Keys| > MAX_INT32)
         else keys <= existing
    }

    /** One page of a paging loop; other sessions may have inserted since the last one. */
    method ReadPage(ghost keys: set<string>, ghost others: set<string>, existing: set<string>, offset: int, fails: bool)
      returns (page: Result<seq<string>>)
      requires Valid() && Paging(keys, others, existing, offset, true)
      modifies this`rows, this`foreign
      ensures Valid() && Grown(keys, others, rows.Keys, foreign)
      ensures fails ==> page.Err?
      ensures page.Err? ==> fails || |rows.Keys| > MAX_INT32
      ensures page.Ok? ==> 0 <= offset && |page.value| <= PAGE_SIZE
      ensures page.Ok? ==>
        var more := |page.value| == PAGE_SIZE;
        Paging(keys, others, existing + Elems(page.value), if more then NextOffset(offset) else offset, more)
    {
      ghost var earlier, earlierOthers := rows.Keys, foreign;
      OtherSessions();
      GrownTwice(keys, others, earlier, earlierOthers, rows.Keys, foreign);
      SubsetSize(earlier, rows.Keys);
      PagedGrows(before, keys, earlier, rows.Keys, existing, offset);
      page := ListVersionStrings(offset, fails);
      if page.Ok? {
        PagedNext(before, keys, rows.Keys, existing, offset, page.value);
      }
    }

    /** Probes at most 50 versions and lets a version pass only if it was known or has assets. It fails exactly if the
        metadata, an access or a probe that it needs fails; hasAssets answers the probes by number. */
    method FetchVersionsMetadata(metadata: Result<seq<string>>, hasAssets: nat -> Result<bool>, f: Faults)
      returns (r: Result<seq<string>>, probes: seq<Probe>, queries: nat, ghost existing: set<string>)
      requires Valid()
      modifies this`rows, this`foreign
      ensures Valid() && Grown(old(rows.Keys), old(foreign), rows.Keys, foreign)
      ensures existing <= rows.Keys && |probes| <= 50
      ensures Answered(hasAssets, probes)
      ensures metadata.Ok? && metadata.value != [] ==> PagesUntil(f, queries)
      ensures FetchFails(metadata, hasAssets, f, queries, existing) ==> r.Err?
      ensures r.Err? ==> FetchFails(metadata, hasAssets, f, queries, existing) || |rows.Keys| > MAX_INT32
      ensures r.Ok? ==>
        && (metadata.value != [] ==> old(rows.Keys) <= existing)
        && (if metadata.value == [] || existing == {} || Unknown(metadata.value, existing) > 50
            then r.value == [] && probes == []
            else ProbesMatch(metadata.value, existing, probes) && r.value == Gate(metadata.value, existing, probes))
    {
      probes, queries, existing := [], 0, {};
      if metadata.Err? { r := Err(metadata.message); return; }
      var candidates := metadata.value;
      if candidates == [] { r := Ok([]); return; }
      var known;
      known, queries := ExistingVersionSet(f);
      if known.Err? { r := Err(known.message); return; }
      existing := known.value;
      if |known.value| == 0 { r := Ok([]); return; }
      var unknown := CountUnknown(candidates, known.value);
      if unknown > PROBE_CAP { r := Ok([]); return; }
      r, probes := ProbeCandidates(candidates, known.value, hasAssets);
    }

    /** Probes the unknown candidates in order, up to the first probe that fails. */
    method ProbeCandidates(candidates: seq<string>, known: set<string>, hasAssets: nat -> Result<bool>)
      returns (r: Result<seq<string>>, probes: seq<Probe>)
      requires Valid()
      modifies this`rows, this`foreign
      ensures Valid() && Grown(old(rows.Keys), old(foreign), rows.Keys, foreign)
      ensures |probes| <= Unknown(candidates, known)
      ensures Answered(hasAssets, probes)
      ensures r.Err? <==> SomeProbeFails(hasAssets, Unknown(candidates, known))
      ensures r.Ok? ==> ProbesMatch(candidates, known, probes) && r.value == Gate(candidates, known, probes)
    {
      probes := [];
      var accepted: seq<string> := [];
      for i := 0 to |candidates|
        invariant Valid() && Grown(old(rows.Keys), old(foreign), rows.Keys, foreign)
        invariant |probes| == Unknown(candidates[..i], known)
        invariant Answered(hasAssets, probes)
        invariant ProbesMatch(candidates[..i], known, probes)
        invariant accepted == Gate(candidates[..i], known, probes)
      {
        var v := candidates[i];
        assert candidates[..i + 1] == candidates[..i] + [v];
        UnknownSnoc(candidates[..i], v, known);
        UnknownPrefix(candidates, i, known);
        UnknownPrefix(candidates, i + 1, known);
        GateSnoc(candidates[..i], v, known, probes, Probe(v, true));
        if v in known {
          accepted := accepted + [v];
          continue;
        }
        OtherSessions();
        var answer := hasAssets(|probes|);
        if answer.Err? {
          assert SomeProbeFails(hasAssets, Unknown(candidates, known));
          return Err(answer.message), probes;
        }
        GateSnoc(candidates[..i], v, known, probes, Probe(v, answer.value));
        AnsweredNext(hasAssets, probes, Probe(v, answer.value));
        probes := probes + [Probe(v, answer.value)];
        if !answer.value { continue; }
        accepted := accepted + [v];
      }
      assert candidates[..|candidates|] == candidates;
      NoProbeFails(hasAssets, probes);
      r := Ok(accepted);
    }

    static method CountUnknown(candidates: seq<string>, existing: set<string>) returns (unknown: nat)
      ensures unknown == Unknown(candidates, existing)
    {
      unknown := 0;
      for i := 0 to |candidates|
        invariant unknown == Unknown(candidates[..i], existing)
      {
        assert candidates[..i + 1] == candidates[..i] + [candidates[i]];
        UnknownSnoc(candidates[..i], candidates[i], existing);
        if candidates[i] !in existing { unknown := unknown + 1; }
      }
      assert candidates[..|candidates|] == candidates;
    }

    /** ON CONFLICT DO NOTHING. */
    method InsertNewArtifactVersion(v: string)
      requires Valid()
      modifies this`rows, this`created
      ensures Valid() && rows == Insert(old(rows), v)
      ensures created == old(created) + ({v} - old(rows.Keys))
    {
      if v !in rows {
        rows := rows[v := NEW_ROW];
        created := created + {v};
      }
    }

    /** One transaction: all inserts, or none when it fails. */
    method InsertVersions(versions: seq<string>, fails: bool)
      requires Valid()
      modifies this`rows, this`created
      ensures Valid() && rows == if fails then old(rows) else InsertAll(old(rows), versions)
      ensures created == if fails then old(created) else old(created) + (Elems(versions) - old(rows.Keys))
    {
      if fails { return; }
      InsertAllKeys(rows, versions);
      for i := 0 to |versions|
        invariant Valid() && InsertAll(old(rows), versions) == InsertAll(rows, versions[i..])
        invariant created == old(created) + (Elems(versions[..i]) - old(rows.Keys))
        invariant rows.Keys == old(rows.Keys) + Elems(versions[..i])
      {
        assert versions[i..][0] == versions[i] && versions[i..][1..] == versions[i + 1..];
        assert versions[..i + 1] == versions[..i] + [versions[i]];
        InsertNewArtifactVersion(versions[i]);
      }
      assert versions[..|versions|] == versions;
    }

    static method FilterNew(versions: seq<string>, existing: set<string>) returns (newVersions: seq<string>)
      ensures newVersions == NewOnly(versions, existing)
    {
      newVersions := [];
      for i := 0 to |versions|
        invariant newVersions == NewOnly(versions[..i], existing)
      {
        assert versions[..i + 1] == versions[..i] + [versions[i]];
        NewOnlySnoc(versions[..i], versions[i], existing);
        if versions[i] !in existing { newVersions := newVersions + [versions[i]]; }
      }
      assert versions[..|versions|] == versions;
    }

    /** Announces the versions that paging did not find, stores them all, and creates the rows of those that no other
        session has inserted meanwhile. It fails exactly if a needed access fails, and then creates nothing. */
    method StoreNewVersions(versions: seq<string>, f: Faults)
      returns (r: Result<seq<string>>, queries: nat, ghost existing: set<string>)
      requires Valid()
      modifies this
      ensures Valid() && old(rows.Keys) <= rows.Keys && old(foreign) <= foreign
      ensures versions != [] ==> PagesUntil(f, queries)
      ensures StoreFails(versions, f, queries, existing) ==> r.Err?
      ensures r.Err? ==> StoreFails(versions, f, queries, existing) || |rows.Keys| > MAX_INT32
      ensures r.Err? ==> created == old(created)
      ensures r.Ok? ==>
        && r.value == NewOnly(versions, existing)
        && (versions != [] ==> old(rows.Keys) <= existing <= old(rows.Keys) + (foreign - old(foreign)))
        && (forall v :: v in versions ==> v in rows)
        && created == old(created) + (Elems(r.value) - (foreign - old(foreign)))
        && (forall v :: v in created && v !in old(created) ==> rows[v] == Row(0, false, None))
    {
      queries, existing := 0, {};
      if versions == [] { r := Ok([]); return; }
      var known;
      known, queries := ExistingVersionSet(f);
      if known.Err? { r := Err(known.message); return; }
      existing := known.value;
      var newVersions := FilterNew(versions, known.value);
      NewOnlyMembers(versions, known.value);
      if newVersions == [] {
        assert forall v :: v in versions ==> v !in NewOnly(versions, existing);
        r := Ok([]);
        return;
      }
      ghost var paged, pagedForeign := rows.Keys, foreign;
      OtherSessions();
      GrownTwice(old(rows.Keys), old(foreign), paged, pagedForeign, rows.Keys, foreign);
      ghost var atCommit := rows;
      InsertVersions(newVersions, f.commit);
      if f.commit {
        r := Err("storing new versions");
      } else {
        r := Ok(newVersions);
        Stored(versions, existing, old(rows.Keys), foreign - old(foreign), atCommit);
      }
    }

    /** A metadata run: whatever else happens to the table, each row it creates was probed true in the run, everything
        probed true is stored in the end, and it fails exactly if something it needs fails. */
    method MetadataSync(metadata: Result<seq<string>>, hasAssets: nat -> Result<bool>, f: Faults, g: Faults)
      returns (r: Result<seq<string>>, probes: seq<Probe>, fetchQueries: nat, storeQueries: nat,
               ghost existing: set<string>, ghost fetched: seq<string>, ghost known: set<string>)
      requires Valid()
      modifies this
      ensures Valid() && |probes| <= 50
      ensures Answered(hasAssets, probes)
      ensures old(created) <= created
      ensures forall v :: v in created - old(created) ==>
        Probe(v, true) in probes && metadata.Ok? && v in metadata.value
      ensures r.Ok? ==> (forall v :: v in r.value ==> Probe(v, true) in probes)
                        && forall v :: Probe(v, true) in probes ==> v in rows
      ensures r.Err? ==> created == old(created)
      ensures FetchFails(metadata, hasAssets, f, fetchQueries, existing) ==> r.Err?
      ensures |rows.Keys| <= MAX_INT32 && !FetchFails(metadata, hasAssets, f, fetchQueries, existing) ==>
        && fetched == (if metadata.value == [] || Deferred(metadata.value, existing) then []
                       else Gate(metadata.value, existing, probes))
        && (r.Err? <==> StoreFails(fetched, g, storeQueries, known))
    {
      storeQueries, fetched, known := 0, [], {};
      var passed;
      passed, probes, fetchQueries, existing := FetchVersionsMetadata(metadata, hasAssets, f);
      ghost var fetchedKeys := rows.Keys;
      if passed.Err? { r := Err(passed.message); return; }
      fetched := passed.value;
      OtherSessions();
      ghost var atStore := rows.Keys;
      r, storeQueries, known := StoreNewVersions(passed.value, g);
      SubsetSize(fetchedKeys, rows.Keys);
      NewOnlyMembers(fetched, known);
      forall v | v in fetched && v !in atStore ensures Probe(v, true) in probes && v in metadata.value {
        GateIff(metadata.value, existing, probes, v);
      }
      forall v | Probe(v, true) in probes ensures v in fetched {
        ProbedUnknown(metadata.value, existing, probes, v);
        GateIff(metadata.value, existing, probes, v);
      }
    }
  }
}
