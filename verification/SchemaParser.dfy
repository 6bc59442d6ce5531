/** ParseVersionWithSchema and the manifest annotation of a parsed version.
    Regular expressions are an oracle: capture(pattern, raw) is None when the pattern does not compile or does
    not match, and otherwise the non-empty named groups. */
module SchemaParser {
  import opened Common
  import opened Strings
  import opened Versions
  import opened SimpleParser
  import opened ComparatorLaws

  datatype Variant = Variant(name: string, pattern: string, segments: seq<SegmentRule>)

  datatype Schema = Schema(useMojangManifest: bool, variants: seq<Variant>)

  type Capture = (string, string) -> Option<map<string, string>>

  // ---------- specification ----------

  function SegmentFor(rule: SegmentRule, raw: string): ParsedSegment {
    ParsedSegment(rule, raw,
                  if rule.parseAs.Minecraft? then Some(SimpleVersion(raw)) else None,
                  if rule.parseAs.Dotted? then DottedInts(Split(raw, '.')) else [],
                  if rule.parseAs.Integer? then Atoi(raw).0 else 0)
  }

  /** The segment of a rule, if its group captured something. */
  function Captured(rule: SegmentRule, groups: map<string, string>): seq<ParsedSegment> {
    if rule.name in groups then [SegmentFor(rule, groups[rule.name])] else []
  }

  function Segments(rules: seq<SegmentRule>, groups: map<string, string>): seq<ParsedSegment> {
    if rules == [] then [] else Captured(rules[0], groups) + Segments(rules[1..], groups)
  }

  function QualifierOf(groups: map<string, string>): Qualifier {
    if "qualifier" !in groups then Release
    else
      var q := Upper(groups["qualifier"]);
      if q == "RC" || q == "BETA" then RC
      else if q == "PRE" then Pre
      else if q == "DEV" || q == "SNAPSHOT" then Snapshot
      else Release
  }

  function Composite(raw: string, i: nat, variant: Variant, groups: map<string, string>): ParsedVersion {
    ParsedVersion(raw, [], QualifierOf(groups), if "build" in groups then Atoi(groups["build"]).0 else 0,
                  None, true, variant.name, i, Segments(variant.segments, groups), 0)
  }

  function ParseFrom(raw: string, variants: seq<Variant>, i: nat, capture: Capture): ParsedVersion
    requires i <= |variants|
    decreases |variants| - i
  {
    if i == |variants| then SimpleVersion(raw)
    else
      match capture(variants[i].pattern, raw)
      case Some(groups) => Composite(raw, i, variants[i], groups)
      case None => ParseFrom(raw, variants, i + 1, capture)
  }

  function Parse(raw: string, schema: Option<Schema>, capture: Capture): ParsedVersion {
    match schema
    case None => SimpleVersion(raw)
    case Some(s) => ParseFrom(raw, s.variants, 0, capture)
  }

  // ---------- the parser as the source computes it ----------

  lemma {:induction false} SegmentsSnoc(rules: seq<SegmentRule>, rule: SegmentRule, groups: map<string, string>)
    ensures Segments(rules + [rule], groups) == Segments(rules, groups) + Captured(rule, groups)
  {
    if rules == [] {
      assert [rule][1..] == [];
    } else {
      var tail := rules[1..];
      calc {
        Segments(rules + [rule], groups);
        { assert (rules + [rule])[0] == rules[0] && (rules + [rule])[1..] == tail + [rule]; }
        Captured(rules[0], groups) + Segments(tail + [rule], groups);
        { SegmentsSnoc(tail, rule, groups); }
        Captured(rules[0], groups) + (Segments(tail, groups) + Captured(rule, groups));
        Segments(rules, groups) + Captured(rule, groups);
      }
    }
  }

  method ParseSegments(rules: seq<SegmentRule>, groups: map<string, string>) returns (segments: seq<ParsedSegment>)
    ensures segments == Segments(rules, groups)
  {
    segments := [];
    for i := 0 to |rules|
      invariant segments == Segments(rules[..i], groups)
    {
      var rule := rules[i];
      SegmentsSnoc(rules[..i], rule, groups);
      assert rules[..i + 1] == rules[..i] + [rule];
      if rule.name !in groups { continue; }
      var seg := ParseSegment(rule, groups[rule.name]);
      segments := segments + [seg];
    }
    assert rules[..|rules|] == rules;
  }

  method ParseSegment(rule: SegmentRule, raw: string) returns (seg: ParsedSegment)
    ensures seg == SegmentFor(rule, raw)
  {
    match rule.parseAs {
      case Minecraft =>
        var mc := ParseSimpleVersion(raw);
        return ParsedSegment(rule, raw, Some(mc), [], 0);
      case Dotted =>
        var ints := ParseDottedInts(raw);
        return ParsedSegment(rule, raw, None, ints, 0);
      case Integer =>
        return ParsedSegment(rule, raw, None, [], Atoi(raw).0);
      case _ =>
        return ParsedSegment(rule, raw, None, [], 0);
    }
  }

  method ParseVersionWithSchema(raw: string, schema: Option<Schema>, capture: Capture) returns (pv: ParsedVersion)
    ensures pv == Parse(raw, schema, capture)
  {
    if schema.None? {
      pv := ParseSimpleVersion(raw);
      return;
    }
    var variants := schema.value.variants;
    for i := 0 to |variants|
      invariant Parse(raw, schema, capture) == ParseFrom(raw, variants, i, capture)
    {
      var m := capture(variants[i].pattern, raw);
      if m.None? { continue; }
      var groups := m.value;
      pv := ParsedVersion(raw, [], Release, 0, None, true, variants[i].name, i, [], 0);
      if "qualifier" in groups {
        var q := Upper(groups["qualifier"]);
        if q == "RC" || q == "BETA" { pv := pv.(qualifier := RC); }
        else if q == "PRE" { pv := pv.(qualifier := Pre); }
        else if q == "DEV" || q == "SNAPSHOT" { pv := pv.(qualifier := Snapshot); }
      }
      if "build" in groups { pv := pv.(qualifierNum := Atoi(groups["build"]).0); }
      var segments := ParseSegments(variants[i].segments, groups);
      pv := pv.(segments := segments);
      return;
    }
    pv := ParseSimpleVersion(raw);
  }

  // ---------- manifest positions ----------

  /** Index of the first minecraft segment, or the number of segments. */
  function MinecraftIndex(segments: seq<ParsedSegment>): (i: nat)
    ensures i <= |segments|
    ensures i < |segments| ==> segments[i].rule.parseAs.Minecraft?
  {
    if segments == [] || segments[0].rule.parseAs.Minecraft? then 0 else 1 + MinecraftIndex(segments[1..])
  }

  predicate HasMinecraft(pv: ParsedVersion) {
    var i := MinecraftIndex(pv.segments);
    pv.isComposite && i < |pv.segments| && pv.segments[i].version.Some?
  }

  function MinecraftVersionString(pv: ParsedVersion): string {
    if HasMinecraft(pv) then pv.segments[MinecraftIndex(pv.segments)].version.value.raw else pv.raw
  }

  /** The position is written through the shared pointer, so the aliased segment sees it too. */
  function WithManifest(pv: ParsedVersion, manifest: map<string, int>): ParsedVersion {
    var mc := MinecraftVersionString(pv);
    if mc !in manifest then pv
    else if HasMinecraft(pv) then
      var i := MinecraftIndex(pv.segments);
      var seg := pv.segments[i];
      pv.(manifestOrder := manifest[mc],
          segments := pv.segments[i := seg.(version := Some(seg.version.value.(manifestOrder := manifest[mc])))])
    else pv.(manifestOrder := manifest[mc])
  }

  /** The manifest lists the newest version first: positions count down from the end, are never the unset value 0,
      and a version listed twice gets the older position. */
  ghost predicate IsPositions(ids: seq<string>, order: map<string, int>) {
    && order.Keys == Elems(ids)
    && (forall i :: 0 <= i < |ids| && LastListed(ids, i) ==> order[ids[i]] == |ids| - i)
    && (forall id :: id in order ==> 1 <= order[id] <= |ids|)
  }

  predicate LastListed(ids: seq<string>, i: nat)
    requires i < |ids|
  {
    forall j :: i < j < |ids| ==> ids[j] != ids[i]
  }

  method ManifestPositions(ids: seq<string>) returns (order: map<string, int>)
    ensures IsPositions(ids, order)
  {
    order := map[];
    for i := 0 to |ids|
      invariant order.Keys == Elems(ids[..i])
      invariant forall k :: 0 <= k < i && (forall j :: k < j < i ==> ids[j] != ids[k]) ==>
        ids[k] in order && order[ids[k]] == |ids| - k
      invariant forall id :: id in order ==> 1 <= order[id] <= |ids|
    {
      assert ids[..i + 1] == ids[..i] + [ids[i]];
      order := order[ids[i] := |ids| - i];
    }
    assert ids[..|ids|] == ids;
    forall i | 0 <= i < |ids| && LastListed(ids, i) ensures order[ids[i]] == |ids| - i {}
  }

  // ---------- what the comparator may rely on ----------

  lemma {:induction false} SegmentsSimple(rules: seq<SegmentRule>, groups: map<string, string>)
    ensures SimpleNested(Segments(rules, groups))
  {
    if rules != [] {
      SegmentsSimple(rules[1..], groups);
    }
  }

  lemma {:induction false} ParseFromWellFormed(raw: string, variants: seq<Variant>, i: nat, capture: Capture)
    requires i <= |variants|
    ensures WellFormed(ParseFrom(raw, variants, i, capture))
    decreases |variants| - i
  {
    if i < |variants| {
      match capture(variants[i].pattern, raw)
      case Some(groups) => SegmentsSimple(variants[i].segments, groups);
      case None => ParseFromWellFormed(raw, variants, i + 1, capture);
    }
  }

  /** Every parsed version, annotated or not, is one the comparator laws speak about, and annotation keeps its shape. */
  lemma ParsedWellFormed(raw: string, schema: Option<Schema>, capture: Capture, manifest: map<string, int>)
    ensures WellFormed(Parse(raw, schema, capture))
    ensures WellFormed(WithManifest(Parse(raw, schema, capture), manifest))
    ensures ShapeOf(WithManifest(Parse(raw, schema, capture), manifest)) == ShapeOf(Parse(raw, schema, capture))
  {
    if schema.Some? {
      ParseFromWellFormed(raw, schema.value.variants, 0, capture);
    }
    var pv := Parse(raw, schema, capture);
    assert Kinds(WithManifest(pv, manifest).segments) == Kinds(pv.segments);
  }

  /** Kinds of the rules whose group captured something. */
  function CapturedKinds(rules: seq<SegmentRule>, groups: map<string, string>): seq<ParseAs> {
    if rules == [] then []
    else (if rules[0].name in groups then [rules[0].parseAs] else []) + CapturedKinds(rules[1..], groups)
  }

  lemma {:induction false} SegmentKinds(rules: seq<SegmentRule>, groups: map<string, string>)
    ensures Kinds(Segments(rules, groups)) == CapturedKinds(rules, groups)
  {
    if rules != [] {
      SegmentKinds(rules[1..], groups);
    }
  }

  /** The first variant that captures decides the shape: its index, and its rules without the skipped groups. */
  lemma {:induction false} ParsedShape(raw: string, variants: seq<Variant>, i: nat, k: nat, capture: Capture)
    requires i <= k < |variants|
    requires forall j :: i <= j < k ==> capture(variants[j].pattern, raw).None?
    requires capture(variants[k].pattern, raw).Some?
    ensures ShapeOf(ParseFrom(raw, variants, i, capture)) ==
            Shape(k, CapturedKinds(variants[k].segments, capture(variants[k].pattern, raw).value))
    decreases k - i
  {
    if i == k {
      SegmentKinds(variants[k].segments, capture(variants[k].pattern, raw).value);
    } else {
      ParsedShape(raw, variants, i + 1, k, capture);
    }
  }
}
