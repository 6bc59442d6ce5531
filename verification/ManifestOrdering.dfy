/** The Mojang manifest in an ordering run: which string a version is looked up by, where the position is written,
    and that the run leaves the versions in the order of the manifest. */
module ManifestOrdering {
  import opened Common
  import opened Strings
  import opened Versions
  import opened SimpleParser
  import opened SchemaParser
  import opened ComparatorLaws
  import opened ComparatorMeaning
  import opened VersionOrdering

  // ---------- which part of a version is looked up ----------

  /** Variant n is the first that matches, with these groups. */
  ghost predicate FirstMatch(input: OrderingInput, version: string, n: nat, groups: map<string, string>) {
    && input.schema.Some? && n < |input.schema.value.variants|
    && (forall j :: 0 <= j < n ==> input.capture(input.schema.value.variants[j].pattern, version).None?)
    && input.capture(input.schema.value.variants[n].pattern, version) == Some(groups)
  }

  ghost predicate NoMatch(input: OrderingInput, version: string) {
    input.schema.Some? ==>
      forall j :: 0 <= j < |input.schema.value.variants| ==>
        input.capture(input.schema.value.variants[j].pattern, version).None?
  }

  predicate CapturesMinecraft(rule: SegmentRule, groups: map<string, string>) {
    rule.parseAs == Minecraft && rule.name in groups
  }

  predicate FirstMinecraftRule(rules: seq<SegmentRule>, groups: map<string, string>, r: nat) {
    && r < |rules| && CapturesMinecraft(rules[r], groups)
    && forall q :: 0 <= q < r ==> !CapturesMinecraft(rules[q], groups)
  }

  /** Among these groups: what the first minecraft group captured, or the whole version. */
  ghost predicate LookedUpIn(rules: seq<SegmentRule>, groups: map<string, string>, version: string, key: string) {
    || (key == version && forall q :: 0 <= q < |rules| ==> !CapturesMinecraft(rules[q], groups))
    || exists r: nat :: FirstMinecraftRule(rules, groups, r) && groups[rules[r].name] == key
  }

  /** The string that is looked up in the manifest. */
  ghost predicate LookedUpBy(input: OrderingInput, version: string, key: string) {
    || (NoMatch(input, version) && key == version)
    || exists n: nat, groups :: FirstMatch(input, version, n, groups)
                                && LookedUpIn(input.schema.value.variants[n].segments, groups, version, key)
  }

  // ---------- what parsing makes of it ----------

  lemma {:induction false} ParseFromMatch(raw: string, variants: seq<Variant>, i: nat, n: nat, capture: Capture,
                                          groups: map<string, string>)
    requires i <= n < |variants| && capture(variants[n].pattern, raw) == Some(groups)
    requires forall j :: i <= j < n ==> capture(variants[j].pattern, raw).None?
    ensures ParseFrom(raw, variants, i, capture) == Composite(raw, n, variants[n], groups)
    decreases n - i
  {
    if i < n {
      ParseFromMatch(raw, variants, i + 1, n, capture, groups);
    }
  }

  lemma {:induction false} ParseFromNoMatch(raw: string, variants: seq<Variant>, i: nat, capture: Capture)
    requires i <= |variants| && forall j :: i <= j < |variants| ==> capture(variants[j].pattern, raw).None?
    ensures ParseFrom(raw, variants, i, capture) == SimpleVersion(raw)
    decreases |variants| - i
  {
    if i < |variants| {
      ParseFromNoMatch(raw, variants, i + 1, capture);
    }
  }

  /** A leading segment of another kind only shifts the first minecraft segment. */
  lemma IndexBehind(front: seq<ParsedSegment>, s: seq<ParsedSegment>)
    requires |front| <= 1 && forall i :: 0 <= i < |front| ==> front[i].rule.parseAs != Minecraft
    ensures MinecraftIndex(front + s) == |front| + MinecraftIndex(s)
  {
    if front == [] {
      assert front + s == s;
    } else {
      assert (front + s)[0] == front[0] && (front + s)[1..] == s;
    }
  }

  lemma SegmentBehind(front: seq<ParsedSegment>, s: seq<ParsedSegment>)
    requires |front| <= 1 && forall i :: 0 <= i < |front| ==> front[i].rule.parseAs != Minecraft
    requires MinecraftIndex(s) < |s|
    ensures MinecraftIndex(front + s) < |front + s| && (front + s)[MinecraftIndex(front + s)] == s[MinecraftIndex(s)]
  {
    IndexBehind(front, s);
  }

  /** The first minecraft segment that the rules leave. */
  ghost predicate MinecraftIs(rules: seq<SegmentRule>, groups: map<string, string>, segment: ParsedSegment) {
    var segments := Segments(rules, groups);
    MinecraftIndex(segments) < |segments| && segments[MinecraftIndex(segments)] == segment
  }

  lemma MinecraftHere(rules: seq<SegmentRule>, groups: map<string, string>)
    requires rules != [] && CapturesMinecraft(rules[0], groups)
    ensures MinecraftIs(rules, groups, SegmentFor(rules[0], groups[rules[0].name]))
  {
    var rest := Segments(rules[1..], groups);
    assert Segments(rules, groups) == [SegmentFor(rules[0], groups[rules[0].name])] + rest;
  }

  lemma MinecraftLater(rules: seq<SegmentRule>, groups: map<string, string>, segment: ParsedSegment)
    requires rules != [] && !CapturesMinecraft(rules[0], groups) && MinecraftIs(rules[1..], groups, segment)
    ensures MinecraftIs(rules, groups, segment)
  {
    SegmentBehind(Captured(rules[0], groups), Segments(rules[1..], groups));
  }

  lemma {:induction false} MinecraftSegment(rules: seq<SegmentRule>, groups: map<string, string>, r: nat)
    requires FirstMinecraftRule(rules, groups, r)
    ensures MinecraftIs(rules, groups, SegmentFor(rules[r], groups[rules[r].name]))
  {
    if r > 0 {
      assert forall q :: 0 <= q < r - 1 ==> rules[1..][q] == rules[q + 1];
      MinecraftSegment(rules[1..], groups, r - 1);
      MinecraftLater(rules, groups, SegmentFor(rules[r], groups[rules[r].name]));
    } else {
      MinecraftHere(rules, groups);
    }
  }

  lemma {:induction false} NoMinecraftSegment(rules: seq<SegmentRule>, groups: map<string, string>)
    requires forall q :: 0 <= q < |rules| ==> !CapturesMinecraft(rules[q], groups)
    ensures MinecraftIndex(Segments(rules, groups)) == |Segments(rules, groups)|
  {
    if rules != [] {
      assert !CapturesMinecraft(rules[0], groups);
      assert forall q :: 0 <= q < |rules[1..]| ==> rules[1..][q] == rules[q + 1];
      NoMinecraftSegment(rules[1..], groups);
      IndexBehind(Captured(rules[0], groups), Segments(rules[1..], groups));
    }
  }

  lemma ParsedBy(input: OrderingInput, version: string, n: nat, groups: map<string, string>)
    requires FirstMatch(input, version, n, groups)
    ensures Parse(version, input.schema, input.capture) == Composite(version, n, input.schema.value.variants[n], groups)
  {
    ParseFromMatch(version, input.schema.value.variants, 0, n, input.capture, groups);
  }

  /** What the first matching variant makes of a version, apart from its segments and its qualifier. */
  lemma CompositeReads(input: OrderingInput, version: string, n: nat, groups: map<string, string>)
    requires FirstMatch(input, version, n, groups)
    ensures
      var pv := Parse(version, input.schema, input.capture);
      && pv.isComposite && pv.raw == version && pv.weekly == None && pv.primary == [] && pv.manifestOrder == 0
      && pv.variantOrder == n && pv.variantName == input.schema.value.variants[n].name
      && pv.qualifierNum == (if "build" in groups then Atoi(groups["build"]).0 else 0)
      && pv.qualifier == QualifierOf(groups)
      && pv.segments == Segments(input.schema.value.variants[n].segments, groups)
  {
    ParsedBy(input, version, n, groups);
  }

  lemma ParsedSimply(input: OrderingInput, version: string)
    requires NoMatch(input, version)
    ensures Parse(version, input.schema, input.capture) == SimpleVersion(version)
  {
    if input.schema.Some? {
      ParseFromNoMatch(version, input.schema.value.variants, 0, input.capture);
    }
  }

  // ---------- where the position is written ----------

  function PositionOf(input: OrderingInput, key: string): int {
    if input.manifest.Some? && key in input.manifest.value then input.manifest.value[key] else 0
  }

  lemma AnnotatedComposite(input: OrderingInput, version: string, n: nat, groups: map<string, string>, key: string)
    requires FirstMatch(input, version, n, groups)
    requires LookedUpIn(input.schema.value.variants[n].segments, groups, version, key)
    ensures ParserOf(input)(version).manifestOrder == PositionOf(input, key)
  {
    var rules := input.schema.value.variants[n].segments;
    ParsedBy(input, version, n, groups);
    if r: nat :| FirstMinecraftRule(rules, groups, r) && groups[rules[r].name] == key {
      MinecraftSegment(rules, groups, r);
    } else {
      NoMinecraftSegment(rules, groups);
    }
  }

  /** A version is annotated with the position of the string it is looked up by, or with 0 if there is none. */
  lemma AnnotatedWith(input: OrderingInput, version: string, key: string)
    requires LookedUpBy(input, version, key)
    ensures ParserOf(input)(version).manifestOrder == PositionOf(input, key)
  {
    if NoMatch(input, version) && key == version {
      ParsedSimply(input, version);
    } else {
      var n: nat, groups :| FirstMatch(input, version, n, groups)
                            && LookedUpIn(input.schema.value.variants[n].segments, groups, version, key);
      AnnotatedComposite(input, version, n, groups, key);
    }
  }

  /** The segments with the position written into number k. */
  function WithPosition(segments: seq<ParsedSegment>, k: nat, key: string, position: int): seq<ParsedSegment>
    requires k < |segments|
  {
    segments[k := segments[k].(version := Some(SimpleVersion(key).(manifestOrder := position)))]
  }

  /** In a composite version the segment of the first minecraft group gets the same position,
      and nothing else changes. */
  lemma NestedAnnotated(input: OrderingInput, version: string, n: nat, groups: map<string, string>, r: nat)
    returns (k: nat)
    requires FirstMatch(input, version, n, groups)
    requires FirstMinecraftRule(input.schema.value.variants[n].segments, groups, r)
    ensures
      var rule := input.schema.value.variants[n].segments[r];
      var key, plain := groups[rule.name], Parse(version, input.schema, input.capture);
      && k < |plain.segments| && plain.segments[k].raw == key && plain.segments[k].rule == rule
      && plain.segments[k].version == Some(SimpleVersion(key))
      && ParserOf(input)(version) == plain.(manifestOrder := PositionOf(input, key),
                                            segments := WithPosition(plain.segments, k, key, PositionOf(input, key)))
  {
    var rules := input.schema.value.variants[n].segments;
    var key := groups[rules[r].name];
    ParsedBy(input, version, n, groups);
    MinecraftSegment(rules, groups, r);
    var plain := Parse(version, input.schema, input.capture);
    k := MinecraftIndex(plain.segments);
    assert SimpleVersion(key).(manifestOrder := 0) == SimpleVersion(key);
    assert plain.segments[k].(version := Some(SimpleVersion(key))) == plain.segments[k];
    assert WithPosition(plain.segments, k, key, 0) == plain.segments;
  }

  // ---------- what a run makes of it ----------

  /** After a run over a coherent table, what the manifest lists earlier, as newer, has the larger sort_order. */
  lemma ManifestDecides(input: OrderingInput, ids: seq<string>, rows: map<int, Row>, listing: seq<int>,
                        i: nat, j: nat, newer: int, older: int)
    requires input.manifest.Some? && IsPositions(ids, input.manifest.value)
    requires i < j < |ids| && LastListed(ids, i) && LastListed(ids, j)
    requires IsListing(rows, listing) && |rows| <= MAX_INT32 && Coherent(TableDomain(ParserOf(input), rows))
    requires newer in rows && LookedUpBy(input, rows[newer].version, ids[i])
    requires older in rows && LookedUpBy(input, rows[older].version, ids[j])
    ensures
      var after := Reordered(ParserOf(input), rows, listing);
      newer in after && older in after && after[newer].sortOrder > after[older].sortOrder
  {
    AnnotatedWith(input, rows[newer].version, ids[i]);
    AnnotatedWith(input, rows[older].version, ids[j]);
    assert ids[i] in Elems(ids) && ids[j] in Elems(ids);
    forall version ensures WellFormed(ParserOf(input)(version)) { ParserOfWellFormed(input, version); }
    OlderComesFirst(ParserOf(input), rows, listing, older, newer);
  }

  /** Without a schema every table is coherent, and versions are looked up as they are. */
  lemma ManifestDecidesSimple(input: OrderingInput, ids: seq<string>, rows: map<int, Row>, listing: seq<int>,
                              i: nat, j: nat, newer: int, older: int)
    requires input.schema.None? && input.manifest.Some? && IsPositions(ids, input.manifest.value)
    requires i < j < |ids| && LastListed(ids, i) && LastListed(ids, j)
    requires IsListing(rows, listing) && |rows| <= MAX_INT32
    requires newer in rows && rows[newer].version == ids[i] && older in rows && rows[older].version == ids[j]
    ensures
      var after := Reordered(ParserOf(input), rows, listing);
      newer in after && older in after && after[newer].sortOrder > after[older].sortOrder
  {
    forall id | id in rows ensures ParserOf(input)(rows[id].version).segments == [] {
      ParsedSimply(input, rows[id].version);
      assert SimpleVersion(rows[id].version).segments == [];
    }
    assert TableDomain(ParserOf(input), rows).shapes == {};
    ManifestDecides(input, ids, rows, listing, i, j, newer, older);
  }
}
