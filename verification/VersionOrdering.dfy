/** ComputeVersionOrdering, ApplyVersionOrdering and the workflow that chains them in batches,
    over one artifact's version rows. */
module VersionOrdering {
  import opened Common
  import opened Versions
  import opened ComparatorLaws
  import opened ComparatorMeaning
  import opened SchemaParser
  import opened StableSort

  datatype Row = Row(version: string, sortOrder: int, recommended: bool, commitBody: string)

  datatype OrderingInput = OrderingInput(schema: Option<Schema>, manifest: Option<map<string, int>>, capture: Capture)

  datatype Item = Item(id: int, parsed: ParsedVersion)

  datatype Assignment = Assignment(id: int, sortOrder: int, recommended: bool)

  const MAX_INT32: int := 0x7fff_ffff
  const BATCH_SIZE: nat := 500

  // ---------- specification ----------

  /** How one run reads version strings. */
  type Parser = string -> ParsedVersion

  function ParsedFor(input: OrderingInput, version: string): ParsedVersion {
    var pv := Parse(version, input.schema, input.capture);
    match input.manifest
    case None => pv
    case Some(positions) => WithManifest(pv, positions)
  }

  function ParserOf(input: OrderingInput): Parser {
    version => ParsedFor(input, version)
  }

  function CompareItems(a: Item, b: Item): int {
    CompareVersions(a.parsed, b.parsed)
  }

  function Items(parse: Parser, rows: map<int, Row>, ids: seq<int>): (items: seq<Item>)
    requires Elems(ids) <= rows.Keys
    ensures |items| == |ids|
    ensures forall i :: 0 <= i < |ids| ==> ids[i] in rows && items[i] == Item(ids[i], parse(rows[ids[i]].version))
  {
    assert forall i :: 0 <= i < |ids| ==> ids[i] in Elems(ids);
    seq(|ids|, i requires 0 <= i < |ids| && ids[i] in rows => Item(ids[i], parse(rows[ids[i]].version)))
  }

  function Assignments(items: seq<Item>): (a: seq<Assignment>)
    ensures |a| == |items|
    ensures forall i :: 0 <= i < |a| ==>
      a[i] == Assignment(items[i].id, Int32(i + 1), items[i].parsed.qualifier.Release?)
  {
    seq(|items|, i requires 0 <= i < |items| =>
      Assignment(items[i].id, Int32(i + 1), items[i].parsed.qualifier.Release?))
  }

  /** UPDATE ... WHERE id: a row that is not there is not an error. */
  function Apply(rows: map<int, Row>, a: Assignment): map<int, Row> {
    if a.id in rows then rows[a.id := rows[a.id].(sortOrder := a.sortOrder, recommended := a.recommended)] else rows
  }

  function ApplyAll(rows: map<int, Row>, assignments: seq<Assignment>): map<int, Row> {
    if assignments == [] then rows else ApplyAll(Apply(rows, assignments[0]), assignments[1..])
  }

  /** ORDER BY sort_order DESC: the rows in some descending order, ties in any order. */
  ghost predicate IsListing(rows: map<int, Row>, ids: seq<int>) {
    && Distinct(ids) && Elems(ids) == rows.Keys
    && forall i, j :: 0 <= i < j < |ids| ==>
      ids[i] in rows && ids[j] in rows && rows[ids[i]].sortOrder >= rows[ids[j]].sortOrder
  }

  /** The table after one run of the ordering workflow that saw the rows in the given order. */
  function Reordered(parse: Parser, rows: map<int, Row>, ids: seq<int>): map<int, Row>
    requires Elems(ids) <= rows.Keys
  {
    ApplyAll(rows, Assignments(Sort(CompareItems, Items(parse, rows, ids))))
  }

  // ---------- the activities and the workflow ----------

  class VersionTable {
    var rows: map<int, Row>

    constructor (initial: map<int, Row>)
      ensures rows == initial
    {
      rows := initial;
    }

    /** UPDATE ... WHERE id: two columns of one row, and nothing where there is no such row. */
    method UpdateArtifactVersionOrder(a: Assignment)
      modifies this
      ensures rows == Apply(old(rows), a)
      ensures rows.Keys == old(rows).Keys
      ensures forall id :: id in rows && id != a.id ==> rows[id] == old(rows)[id]
      ensures a.id in rows ==>
        && rows[a.id].version == old(rows)[a.id].version && rows[a.id].commitBody == old(rows)[a.id].commitBody
    {
      if a.id in rows {
        rows := rows[a.id := rows[a.id].(sortOrder := a.sortOrder, recommended := a.recommended)];
      }
    }

    /** One transaction. */
    method ApplyVersionOrdering(assignments: seq<Assignment>)
      modifies this
      ensures rows == ApplyAll(old(rows), assignments)
    {
      for i := 0 to |assignments|
        invariant ApplyAll(old(rows), assignments) == ApplyAll(rows, assignments[i..])
      {
        assert assignments[i..][0] == assignments[i] && assignments[i..][1..] == assignments[i + 1..];
        UpdateArtifactVersionOrder(assignments[i]);
      }
    }

    static method ParseRow(input: OrderingInput, version: string) returns (pv: ParsedVersion)
      ensures pv == ParserOf(input)(version)
    {
      pv := ParseVersionWithSchema(version, input.schema, input.capture);
      if input.manifest.Some? {
        pv := WithManifest(pv, input.manifest.value);
      }
    }

    method ComputeVersionOrdering(input: OrderingInput, listing: seq<int>) returns (assignments: seq<Assignment>)
      requires Elems(listing) <= rows.Keys
      ensures assignments == Assignments(Sort(CompareItems, Items(ParserOf(input), rows, listing)))
    {
      var items := ReadItems(input, listing);
      assignments := AssignSortOrder(Sort(CompareItems, items));
    }

    method ReadItems(input: OrderingInput, listing: seq<int>) returns (items: seq<Item>)
      requires Elems(listing) <= rows.Keys
      ensures items == Items(ParserOf(input), rows, listing)
    {
      ListingPrefixes(rows, listing);
      items := [];
      for i := 0 to |listing|
        invariant items == Items(ParserOf(input), rows, listing[..i])
      {
        ItemsNext(ParserOf(input), rows, listing, i);
        var pv := ParseRow(input, rows[listing[i]].version);
        items := items + [Item(listing[i], pv)];
      }
      assert listing[..|listing|] == listing;
    }

    static method AssignSortOrder(items: seq<Item>) returns (assignments: seq<Assignment>)
      ensures assignments == Assignments(items)
    {
      assignments := [];
      for i := 0 to |items|
        invariant assignments == Assignments(items)[..i]
      {
        assignments := assignments + [Assignment(items[i].id, Int32(i + 1), items[i].parsed.qualifier.Release?)];
      }
    }

    /** The batches of the workflow add up to one application of all assignments. */
    method ApplyInBatches(assignments: seq<Assignment>)
      modifies this
      ensures rows == ApplyAll(old(rows), assignments)
    {
      var start := 0;
      while start < |assignments|
        invariant 0 <= start <= |assignments|
        invariant ApplyAll(old(rows), assignments) == ApplyAll(rows, assignments[start..])
      {
        var end := Min(start + BATCH_SIZE, |assignments|);
        ApplyAllSplit(rows, assignments[start..], end - start);
        assert assignments[start..][..end - start] == assignments[start..end];
        assert assignments[start..][end - start..] == assignments[end..];
        ApplyVersionOrdering(assignments[start..end]);
        start := end;
      }
    }

    method OrderVersions(input: OrderingInput, listing: seq<int>) returns (ordered: nat)
      requires IsListing(rows, listing)
      modifies this
      ensures rows == Reordered(ParserOf(input), old(rows), listing)
      ensures ordered == |old(rows)|
    {
      var assignments := ComputeVersionOrdering(input, listing);
      SortMultiset(CompareItems, Items(ParserOf(input), rows, listing));
      DistinctSize(listing);
      ordered := |assignments|;
      ApplyInBatches(assignments);
    }
  }

  // ---------- reading rows ----------

  lemma ListingPrefixes(rows: map<int, Row>, ids: seq<int>)
    requires Elems(ids) <= rows.Keys
    ensures forall i :: 0 <= i <= |ids| ==> Elems(ids[..i]) <= rows.Keys
    ensures forall i :: 0 <= i < |ids| ==> ids[i] in rows
  {
    assert forall i :: 0 <= i < |ids| ==> ids[i] in Elems(ids);
  }

  lemma ItemsNext(parse: Parser, rows: map<int, Row>, ids: seq<int>, i: nat)
    requires i < |ids| && Elems(ids[..i]) <= rows.Keys && Elems(ids[..i + 1]) <= rows.Keys && ids[i] in rows
    ensures Items(parse, rows, ids[..i + 1]) ==
            Items(parse, rows, ids[..i]) + [Item(ids[i], parse(rows[ids[i]].version))]
  {
  }

  // ---------- applying assignments ----------

  lemma {:induction false} ApplyAllSplit(rows: map<int, Row>, a: seq<Assignment>, k: nat)
    requires k <= |a|
    ensures ApplyAll(rows, a) == ApplyAll(ApplyAll(rows, a[..k]), a[k..])
  {
    if k > 0 {
      assert a[..k][1..] == a[1..][..k - 1] && a[k..] == a[1..][k - 1..];
      ApplyAllSplit(Apply(rows, a[0]), a[1..], k - 1);
    }
  }

  lemma {:induction false} ApplyAllKeys(rows: map<int, Row>, a: seq<Assignment>)
    ensures ApplyAll(rows, a).Keys == rows.Keys
  {
    if a != [] {
      ApplyAllKeys(Apply(rows, a[0]), a[1..]);
    }
  }

  lemma {:induction false} ApplyAllElsewhere(rows: map<int, Row>, a: seq<Assignment>, id: int)
    requires id in rows && forall i :: 0 <= i < |a| ==> a[i].id != id
    ensures id in ApplyAll(rows, a) && ApplyAll(rows, a)[id] == rows[id]
  {
    if a != [] {
      ApplyAllElsewhere(Apply(rows, a[0]), a[1..], id);
    }
  }

  /** A row that is assigned once gets its values and keeps its other columns. */
  lemma {:induction false} ApplyAllAt(rows: map<int, Row>, a: seq<Assignment>, i: nat)
    requires i < |a| && a[i].id in rows
    requires forall j :: 0 <= j < |a| && j != i ==> a[j].id != a[i].id
    ensures a[i].id in ApplyAll(rows, a)
    ensures ApplyAll(rows, a)[a[i].id] == rows[a[i].id].(sortOrder := a[i].sortOrder, recommended := a[i].recommended)
  {
    if i == 0 {
      ApplyAllElsewhere(Apply(rows, a[0]), a[1..], a[0].id);
    } else {
      ApplyAllAt(Apply(rows, a[0]), a[1..], i - 1);
    }
  }

  // ---------- what a run leaves behind ----------

  function Ids(items: seq<Item>): (ids: seq<int>)
    ensures |ids| == |items|
    ensures forall i :: 0 <= i < |items| ==> ids[i] == items[i].id
  {
    seq(|items|, i requires 0 <= i < |items| => items[i].id)
  }

  /** The items enumerate the rows, parsed. */
  ghost predicate Enumerates(parse: Parser, rows: map<int, Row>, items: seq<Item>) {
    && Distinct(Ids(items)) && Elems(Ids(items)) == rows.Keys
    && items == Items(parse, rows, Ids(items))
  }

  /** The table holds the items in ascending positions 1..N, with the matching recommended flags. */
  ghost predicate OrderedAs(parse: Parser, rows: map<int, Row>, items: seq<Item>) {
    && Enumerates(parse, rows, items)
    && forall i :: 0 <= i < |items| ==>
         && items[i].id in rows
         && rows[items[i].id].sortOrder == i + 1
         && rows[items[i].id].recommended == items[i].parsed.qualifier.Release?
  }

  /** Only sort_order and recommended may differ. */
  ghost predicate SameVersions(rows: map<int, Row>, rows': map<int, Row>) {
    && rows.Keys == rows'.Keys
    && forall id :: id in rows ==> rows'[id].version == rows[id].version && rows'[id].commitBody == rows[id].commitBody
  }

  lemma Position(parse: Parser, rows: map<int, Row>, items: seq<Item>, id: int) returns (i: nat)
    requires Enumerates(parse, rows, items) && id in rows
    ensures i < |items| && items[i] == Item(id, parse(rows[id].version))
  {
    assert id in Elems(Ids(items));
    i :| 0 <= i < |items| && Ids(items)[i] == id;
    assert items[i] == Items(parse, rows, Ids(items))[i];
  }

  lemma ItemRow(parse: Parser, rows: map<int, Row>, items: seq<Item>, i: nat)
    requires Enumerates(parse, rows, items) && i < |items|
    ensures items[i].id in rows && items[i] == Item(items[i].id, parse(rows[items[i].id].version))
  {
    assert Ids(items)[i] in Elems(Ids(items));
  }

  lemma EnumerationPermuted(parse: Parser, rows: map<int, Row>, items: seq<Item>, items': seq<Item>)
    requires Enumerates(parse, rows, items) && multiset(items') == multiset(items)
    ensures Enumerates(parse, rows, items')
  {
    SameMembers(items, items');
    forall i | 0 <= i < |items'|
      ensures items'[i].id in rows && items'[i] == Item(items'[i].id, parse(rows[items'[i].id].version))
    {
      assert items'[i] in items;
      var k :| 0 <= k < |items| && items[k] == items'[i];
      ItemRow(parse, rows, items, k);
    }
    forall id ensures id in Elems(Ids(items')) <==> id in rows.Keys {
      if id in rows.Keys {
        var i := Position(parse, rows, items, id);
        assert items[i] in items';
        var k :| 0 <= k < |items'| && items'[k] == items[i];
        assert Ids(items')[k] == id;
      }
    }
    assert Distinct(items) by {
      forall i, j | 0 <= i < j < |items| ensures items[i] != items[j] {
        assert Ids(items)[i] != Ids(items)[j];
      }
    }
    DistinctPermuted(items, items');
    forall i, j | 0 <= i < j < |items'| ensures Ids(items')[i] != Ids(items')[j] {
      assert items'[i] != items'[j];
    }
  }

  lemma DistinctPermuted<T>(s: seq<T>, t: seq<T>)
    requires Distinct(s) && multiset(s) == multiset(t)
    ensures Distinct(t)
  {
    forall i, j | 0 <= i < j < |t| ensures t[i] != t[j] {
      assert t == t[..i] + [t[i]] + t[i + 1..j] + [t[j]] + t[j + 1..];
      DistinctOnce(s, t[i]);
    }
  }

  lemma {:induction false} DistinctOnce<T>(s: seq<T>, x: T)
    requires Distinct(s)
    ensures multiset(s)[x] <= 1
  {
    if s != [] {
      DistinctOnce(s[1..], x);
      assert s == [s[0]] + s[1..];
      assert s[0] == x ==> x !in s[1..];
    }
  }

  lemma ListingEnumerates(parse: Parser, rows: map<int, Row>, ids: seq<int>)
    requires Distinct(ids) && Elems(ids) == rows.Keys
    ensures Enumerates(parse, rows, Items(parse, rows, ids))
  {
    assert Ids(Items(parse, rows, ids)) == ids;
  }

  lemma AppliedInOrder(parse: Parser, rows: map<int, Row>, items: seq<Item>)
    requires Enumerates(parse, rows, items) && |items| <= MAX_INT32
    ensures OrderedAs(parse, ApplyAll(rows, Assignments(items)), items)
    ensures SameVersions(rows, ApplyAll(rows, Assignments(items)))
  {
    var after := ApplyAll(rows, Assignments(items));
    ApplyAllKeys(rows, Assignments(items));
    forall id | id in rows
      ensures after[id].version == rows[id].version && after[id].commitBody == rows[id].commitBody
    {
      var i := Position(parse, rows, items, id);
      AppliedAt(parse, rows, items, i);
    }
    forall i | 0 <= i < |items|
      ensures items[i].id in after && after[items[i].id].sortOrder == i + 1
      ensures after[items[i].id].recommended == items[i].parsed.qualifier.Release?
    {
      AppliedAt(parse, rows, items, i);
    }
    SameVersionsEnumerate(parse, rows, after, items);
  }

  lemma AppliedAt(parse: Parser, rows: map<int, Row>, items: seq<Item>, i: nat)
    requires Enumerates(parse, rows, items) && |items| <= MAX_INT32 && i < |items|
    ensures items[i].id in rows && items[i].id in ApplyAll(rows, Assignments(items))
    ensures ApplyAll(rows, Assignments(items))[items[i].id] ==
            rows[items[i].id].(sortOrder := i + 1, recommended := items[i].parsed.qualifier.Release?)
  {
    ItemRow(parse, rows, items, i);
    var a := Assignments(items);
    forall j | 0 <= j < |a| && j != i ensures a[j].id != a[i].id {
      assert Ids(items)[if i < j then i else j] != Ids(items)[if i < j then j else i];
    }
    ApplyAllAt(rows, a, i);
  }

  lemma SameVersionsEnumerate(parse: Parser, rows: map<int, Row>, rows': map<int, Row>, items: seq<Item>)
    requires Enumerates(parse, rows, items) && SameVersions(rows, rows')
    ensures Enumerates(parse, rows', items)
  {
    forall i | 0 <= i < |items| ensures items[i] == Items(parse, rows', Ids(items))[i] {
      ItemRow(parse, rows, items, i);
    }
  }

  /** A run numbers the rows 1..N along the sorted order and touches nothing else. */
  lemma RunOrders(parse: Parser, rows: map<int, Row>, ids: seq<int>)
    requires IsListing(rows, ids) && |rows| <= MAX_INT32
    ensures OrderedAs(parse, Reordered(parse, rows, ids), Sort(CompareItems, Items(parse, rows, ids)))
    ensures SameVersions(rows, Reordered(parse, rows, ids))
  {
    var items := Items(parse, rows, ids);
    ListingEnumerates(parse, rows, ids);
    SortMultiset(CompareItems, items);
    EnumerationPermuted(parse, rows, items, Sort(CompareItems, items));
    DistinctSize(ids);
    AppliedInOrder(parse, rows, Sort(CompareItems, items));
  }

  // ---------- on a coherent table ----------

  /** The shapes and flat versions that occur in the table. */
  function TableDomain(parse: Parser, rows: map<int, Row>): Domain {
    Domain(set id | id in rows && |parse(rows[id].version).segments| > 0 :: ShapeOf(parse(rows[id].version)),
           exists id :: id in rows && IsFlat(parse(rows[id].version)))
  }

  /** Every run reads versions the comparator laws speak about. */
  lemma ParserOfWellFormed(input: OrderingInput, version: string)
    ensures WellFormed(ParserOf(input)(version))
  {
    var positions := if input.manifest.Some? then input.manifest.value else map[];
    ParsedWellFormed(version, input.schema, input.capture, positions);
  }

  ghost predicate ReadsWellFormed(parse: Parser) {
    forall version :: WellFormed(parse(version))
  }

  lemma ItemsPreorder(parse: Parser, rows: map<int, Row>, items: seq<Item>)
    requires ReadsWellFormed(parse) && Coherent(TableDomain(parse, rows)) && Enumerates(parse, rows, items)
    ensures PreorderOn(CompareItems, items)
  {
    var d := TableDomain(parse, rows);
    forall a | a in items ensures InDomain(a.parsed, d) {
      var i :| 0 <= i < |items| && items[i] == a;
      ItemRow(parse, rows, items, i);
    }
    forall a, b | a in items && b in items ensures CompareItems(b, a) == -CompareItems(a, b) {
      CompareAntisymmetric(a.parsed, b.parsed);
    }
    forall a, b, c | a in items && b in items && c in items
      ensures Law(CompareItems(a, b), CompareItems(b, c), CompareItems(a, c))
    {
      DomainLaw(a.parsed, b.parsed, c.parsed, d);
    }
  }

  /** On a coherent table an older version gets the smaller sort_order, whatever order the rows arrived in. */
  lemma OlderComesFirst(parse: Parser, rows: map<int, Row>, ids: seq<int>, a: int, b: int)
    requires IsListing(rows, ids) && |rows| <= MAX_INT32 && ReadsWellFormed(parse) && Coherent(TableDomain(parse, rows))
    requires a in rows && b in rows && Older(parse(rows[a].version), parse(rows[b].version))
    ensures
      var after := Reordered(parse, rows, ids);
      a in after && b in after && after[a].sortOrder < after[b].sortOrder
  {
    var items := Items(parse, rows, ids);
    var sorted := Sort(CompareItems, items);
    RunOrders(parse, rows, ids);
    ListingEnumerates(parse, rows, ids);
    ItemsPreorder(parse, rows, items);
    SortIsAscending(CompareItems, items);
    CompareMeaning(parse(rows[a].version), parse(rows[b].version));
    SortedPositions(parse, Reordered(parse, rows, ids), sorted, a, b);
  }

  lemma SortedPositions(parse: Parser, rows: map<int, Row>, items: seq<Item>, a: int, b: int)
    requires OrderedAs(parse, rows, items) && Sorted(CompareItems, items)
    requires a in rows && b in rows
    requires CompareVersions(parse(rows[a].version), parse(rows[b].version)) < 0
    ensures rows[a].sortOrder < rows[b].sortOrder
  {
    var i := Position(parse, rows, items, a);
    var j := Position(parse, rows, items, b);
    CompareAntisymmetric(items[i].parsed, items[j].parsed);
    assert j < i ==> CompareItems(items[j], items[i]) <= 0;
  }

  // ---------- running again ----------

  /** Positions determine the descending listing. */
  lemma {:induction false} DescendingUnique(s: seq<int>, t: seq<int>, position: map<int, int>)
    requires Elems(s) == Elems(t) && Elems(s) <= position.Keys
    requires forall i, j :: 0 <= i < j < |s| ==> s[i] in position && s[j] in position && position[s[i]] > position[s[j]]
    requires forall i, j :: 0 <= i < j < |t| ==> t[i] in position && t[j] in position && position[t[i]] > position[t[j]]
    ensures s == t
  {
    assert t != [] ==> t[0] in Elems(t);
    if s != [] {
      assert s[0] in Elems(t);
      assert t != [] && t[0] in Elems(s);
      var i :| 0 <= i < |t| && t[i] == s[0];
      var j :| 0 <= j < |s| && s[j] == t[0];
      assert i == 0;
      forall x ensures x in Elems(s[1..]) <==> x in Elems(t[1..]) {
        TailElems(s, x, position);
        TailElems(t, x, position);
      }
      DescendingUnique(s[1..], t[1..], position);
      assert s == [s[0]] + s[1..] && t == [t[0]] + t[1..];
    }
  }

  lemma TailElems(s: seq<int>, x: int, position: map<int, int>)
    requires s != []
    requires forall i, j :: 0 <= i < j < |s| ==> s[i] in position && s[j] in position && position[s[i]] > position[s[j]]
    ensures x in Elems(s[1..]) <==> x in Elems(s) && x != s[0]
  {
    if x in s[1..] {
      var i :| 0 <= i < |s[1..]| && s[1..][i] == x;
      assert s[i + 1] == x;
    }
    if x in s && x != s[0] {
      var i :| 0 <= i < |s| && s[i] == x;
      assert s[1..][i - 1] == x;
    }
  }

  lemma ListingOfOrdered(parse: Parser, rows: map<int, Row>, items: seq<Item>, ids: seq<int>)
    requires OrderedAs(parse, rows, items) && IsListing(rows, ids)
    ensures Items(parse, rows, ids) == Reverse(items)
  {
    DescendingIds(parse, rows, items, ids);
    forall k | 0 <= k < |items| ensures Items(parse, rows, ids)[k] == Reverse(items)[k] {
      assert ids[k] == Ids(Reverse(items))[k];
      ItemRow(parse, rows, items, |items| - 1 - k);
    }
  }

  lemma DescendingIds(parse: Parser, rows: map<int, Row>, items: seq<Item>, ids: seq<int>)
    requires OrderedAs(parse, rows, items) && IsListing(rows, ids)
    ensures ids == Ids(Reverse(items))
  {
    var position := map id | id in rows :: rows[id].sortOrder;
    ReversedIds(parse, rows, items);
    forall i, j | 0 <= i < j < |ids|
      ensures ids[i] in position && ids[j] in position && position[ids[i]] > position[ids[j]]
    {
      DistinctPositions(parse, rows, items, ids[i], ids[j]);
    }
    DescendingUnique(ids, Ids(Reverse(items)), position);
  }

  lemma ReversedIds(parse: Parser, rows: map<int, Row>, items: seq<Item>)
    requires OrderedAs(parse, rows, items)
    ensures
      var t := Ids(Reverse(items));
      && Elems(t) == rows.Keys
      && forall i :: 0 <= i < |t| ==> t[i] in rows && rows[t[i]].sortOrder == |t| - i
  {
    var t := Ids(Reverse(items));
    forall i | 0 <= i < |t| ensures t[i] in rows && rows[t[i]].sortOrder == |t| - i {
      ItemRow(parse, rows, items, |items| - 1 - i);
    }
    forall id | id in rows ensures id in t {
      var k := Position(parse, rows, items, id);
      assert t[|items| - 1 - k] == id;
    }
  }

  lemma DistinctPositions(parse: Parser, rows: map<int, Row>, items: seq<Item>, a: int, b: int)
    requires OrderedAs(parse, rows, items) && a in rows && b in rows && a != b
    ensures rows[a].sortOrder != rows[b].sortOrder
  {
    var i := Position(parse, rows, items, a);
    var j := Position(parse, rows, items, b);
  }

  lemma OrderedDetermines(parse: Parser, rows: map<int, Row>, rows': map<int, Row>, items: seq<Item>)
    requires OrderedAs(parse, rows, items) && OrderedAs(parse, rows', items) && SameVersions(rows, rows')
    ensures rows == rows'
  {
    forall id | id in rows ensures rows[id] == rows'[id] {
      var i := Position(parse, rows, items, id);
    }
  }

  lemma SameItems(parse: Parser, rows: map<int, Row>, items: seq<Item>)
    requires OrderedAs(parse, rows, items)
    ensures |items| == |rows| && Distinct(items)
  {
    DistinctSize(Ids(items));
    forall i, j | 0 <= i < j < |items| ensures items[i] != items[j] {
      assert Ids(items)[i] != Ids(items)[j];
    }
  }

  /** Running again over an ordered, unchanged table reverses every class of comparator-equal versions. */
  lemma RerunFlipsTies(parse: Parser, rows: map<int, Row>, items: seq<Item>, ids: seq<int>)
    requires OrderedAs(parse, rows, items) && Sorted(CompareItems, items)
    requires ReadsWellFormed(parse) && Coherent(TableDomain(parse, rows)) && |rows| <= MAX_INT32 && IsListing(rows, ids)
    ensures OrderedAs(parse, Reordered(parse, rows, ids), FlipTies(CompareItems, items))
    ensures Sorted(CompareItems, FlipTies(CompareItems, items))
    ensures SameVersions(rows, Reordered(parse, rows, ids))
  {
    SameItems(parse, rows, items);
    ItemsPreorder(parse, rows, items);
    ListingOfOrdered(parse, rows, items, ids);
    SortReverse(CompareItems, items);
    FlipTiesInvolution(CompareItems, items);
    RunOrders(parse, rows, ids);
  }

  lemma SameDomain(parse: Parser, rows: map<int, Row>, rows': map<int, Row>)
    requires SameVersions(rows, rows')
    ensures TableDomain(parse, rows) == TableDomain(parse, rows')
  {
    var d, d' := TableDomain(parse, rows), TableDomain(parse, rows');
    forall s ensures s in d.shapes <==> s in d'.shapes {
      if s in d.shapes {
        var id :| id in rows && |parse(rows[id].version).segments| > 0 && s == ShapeOf(parse(rows[id].version));
        assert id in rows' && rows'[id].version == rows[id].version;
      }
      if s in d'.shapes {
        var id :| id in rows' && |parse(rows'[id].version).segments| > 0 && s == ShapeOf(parse(rows'[id].version));
        assert id in rows && rows'[id].version == rows[id].version;
      }
    }
  }

  lemma SameVersionsTransitive(rows: map<int, Row>, rows': map<int, Row>, rows'': map<int, Row>)
    requires SameVersions(rows, rows') && SameVersions(rows', rows'')
    ensures SameVersions(rows, rows'')
  {
  }

  /** Two re-runs restore the table. */
  lemma RerunTwice(parse: Parser, rows: map<int, Row>, items: seq<Item>, ids: seq<int>, ids': seq<int>)
    requires OrderedAs(parse, rows, items) && Sorted(CompareItems, items)
    requires ReadsWellFormed(parse) && Coherent(TableDomain(parse, rows)) && |rows| <= MAX_INT32
    requires IsListing(rows, ids) && IsListing(Reordered(parse, rows, ids), ids')
    ensures Reordered(parse, Reordered(parse, rows, ids), ids') == rows
  {
    RerunFlipsTies(parse, rows, items, ids);
    var once, flipped := Reordered(parse, rows, ids), FlipTies(CompareItems, items);
    SameDomain(parse, rows, once);
    RerunFlipsTies(parse, once, flipped, ids');
    ItemsPreorder(parse, rows, items);
    FlipTiesInvolution(CompareItems, items);
    SameVersionsTransitive(rows, once, Reordered(parse, once, ids'));
    OrderedDetermines(parse, rows, Reordered(parse, once, ids'), items);
  }

  /** One re-run changes nothing exactly when no two versions compare equal. */
  lemma RerunFixed(parse: Parser, rows: map<int, Row>, items: seq<Item>, ids: seq<int>)
    requires OrderedAs(parse, rows, items) && Sorted(CompareItems, items)
    requires ReadsWellFormed(parse) && Coherent(TableDomain(parse, rows)) && |rows| <= MAX_INT32 && IsListing(rows, ids)
    ensures Reordered(parse, rows, ids) == rows <==>
            forall a, b :: a in rows && b in rows && a != b ==>
              CompareVersions(parse(rows[a].version), parse(rows[b].version)) != 0
  {
    RerunFlipsTies(parse, rows, items, ids);
    var once, flipped := Reordered(parse, rows, ids), FlipTies(CompareItems, items);
    SameItems(parse, rows, items);
    ItemsPreorder(parse, rows, items);
    FlipTiesInvolution(CompareItems, items);
    SameItems(parse, once, flipped);
    OnlyOnce(parse, rows, once, items, flipped);
    NoEqualVersions(parse, rows, items);
  }

  lemma OnlyOnce(parse: Parser, rows: map<int, Row>, once: map<int, Row>, items: seq<Item>, flipped: seq<Item>)
    requires OrderedAs(parse, rows, items) && OrderedAs(parse, once, flipped) && SameVersions(rows, once)
    requires |items| == |flipped|
    ensures once == rows <==> flipped == items
  {
    if flipped == items {
      OrderedDetermines(parse, once, rows, items);
    }
    if once == rows {
      forall i | 0 <= i < |items| ensures flipped[i] == items[i] {
        ItemRow(parse, once, flipped, i);
        var k := Position(parse, rows, items, flipped[i].id);
      }
    }
  }

  lemma NoEqualVersions(parse: Parser, rows: map<int, Row>, items: seq<Item>)
    requires OrderedAs(parse, rows, items)
    ensures NoTies(CompareItems, items) <==>
            forall a, b :: a in rows && b in rows && a != b ==>
              CompareVersions(parse(rows[a].version), parse(rows[b].version)) != 0
  {
    if NoTies(CompareItems, items) {
      forall a, b | a in rows && b in rows && a != b
        ensures CompareVersions(parse(rows[a].version), parse(rows[b].version)) != 0
      {
        var i := Position(parse, rows, items, a);
        var j := Position(parse, rows, items, b);
        CompareAntisymmetric(items[i].parsed, items[j].parsed);
        assert CompareItems(items[if i < j then i else j], items[if i < j then j else i]) != 0;
      }
    } else {
      var i, j :| 0 <= i < j < |items| && CompareItems(items[i], items[j]) == 0;
      ItemRow(parse, rows, items, i);
      ItemRow(parse, rows, items, j);
      assert Ids(items)[i] != Ids(items)[j];
    }
  }
}
