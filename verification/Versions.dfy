/** Parsed versions and the comparator of internal/domain/version_ordering.go and version_schema.go. */
module Versions {
  import opened Common

  datatype Qualifier = Snapshot | Pre | RC | Release

  function Rank(q: Qualifier): nat {
    match q
    case Snapshot => 0
    case Pre => 1
    case RC => 2
    case Release => 3
  }

  datatype WeeklySnapshot = WeeklySnapshot(year: int, week: int, build: char)

  /** The parse_as strings; any other string behaves as an unordered kind of its own. */
  datatype ParseAs = Minecraft | Dotted | Integer | Ignore | Unknown(name: string)

  datatype SegmentRule = SegmentRule(name: string, parseAs: ParseAs, tagKey: string)

  datatype ParsedSegment = ParsedSegment(
    rule: SegmentRule, raw: string, version: Option<ParsedVersion>, ints: seq<int>, intValue: int)

  /** The Minecraft pointer of the source aliases the first minecraft segment, so it is derived (see MinecraftIndex). */
  datatype ParsedVersion = ParsedVersion(
    raw: string,
    primary: seq<int>,
    qualifier: Qualifier,
    qualifierNum: int,
    weekly: Option<WeeklySnapshot>,
    isComposite: bool,
    variantName: string,
    variantOrder: int,
    segments: seq<ParsedSegment>,
    manifestOrder: int)

  // ---------- specification of the comparator ----------

  /** Component i of a dotted number, padded with zeros on the right. */
  function At(s: seq<int>, i: nat): int {
    if i < |s| then s[i] else 0
  }

  function Tail(s: seq<int>): seq<int> {
    if s == [] then [] else s[1..]
  }

  function CompareInts(a: seq<int>, b: seq<int>): int
    decreases |a| + |b|
  {
    if a == [] && b == [] then 0
    else Lex(Cmp(At(a, 0), At(b, 0)), CompareInts(Tail(a), Tail(b)))
  }

  function CompareManifest(a: ParsedVersion, b: ParsedVersion): int {
    if a.manifestOrder > 0 && b.manifestOrder > 0 then Cmp(a.manifestOrder, b.manifestOrder)
    else if a.manifestOrder > 0 then 1
    else if b.manifestOrder > 0 then -1
    else 0
  }

  function CompareQualifiers(a: ParsedVersion, b: ParsedVersion): int {
    Lex(Cmp(Rank(a.qualifier), Rank(b.qualifier)), Cmp(a.qualifierNum, b.qualifierNum))
  }

  function CompareWeekly(a: WeeklySnapshot, b: WeeklySnapshot): int {
    Lex(Cmp(a.year, b.year), Lex(Cmp(a.week, b.week), Cmp(a.build as int, b.build as int)))
  }

  function CompareSimple(a: ParsedVersion, b: ParsedVersion): int {
    if a.weekly.Some? && b.weekly.Some? then CompareWeekly(a.weekly.value, b.weekly.value)
    else if a.weekly.Some? then -1
    else if b.weekly.Some? then 1
    else Lex(CompareInts(a.primary, b.primary), CompareQualifiers(a, b))
  }

  /** What decides between two composite versions once the comparable segments tie. */
  function CompareVariants(a: ParsedVersion, b: ParsedVersion): int {
    Lex(-Cmp(a.variantOrder, b.variantOrder), CompareQualifiers(a, b))
  }

  function CompareVersions(a: ParsedVersion, b: ParsedVersion): int
    decreases a, 1
  {
    Lex(CompareManifest(a, b),
        if |a.segments| > 0 && |b.segments| > 0
        then Lex(CompareSegmentLists(a.segments, b.segments), CompareVariants(a, b))
        else CompareSimple(a, b))
  }

  /** Compares up to the shorter list, and stops with a tie at the first pair of different kinds. */
  function CompareSegmentLists(s: seq<ParsedSegment>, t: seq<ParsedSegment>): int
    decreases s, 0
  {
    if s == [] || t == [] || s[0].rule.parseAs != t[0].rule.parseAs then 0
    else Lex(CompareSegment(s[0], t[0]), CompareSegmentLists(s[1..], t[1..]))
  }

  function CompareSegment(a: ParsedSegment, b: ParsedSegment): int
    decreases a, 0
  {
    match a.rule.parseAs
    case Minecraft =>
      if a.version.Some? && b.version.Some? then CompareVersions(a.version.value, b.version.value)
      else if a.version.Some? then 1
      else if b.version.Some? then -1
      else 0
    case Dotted => CompareInts(a.ints, b.ints)
    case Integer => Cmp(a.intValue, b.intValue)
    case _ => 0
  }

  // ---------- the comparator as the source computes it ----------

  lemma CompareIntsStep(a: seq<int>, b: seq<int>, i: nat)
    requires i < |a| || i < |b|
    ensures CompareInts(Drop(a, i), Drop(b, i)) ==
            Lex(Cmp(At(a, i), At(b, i)), CompareInts(Drop(a, i + 1), Drop(b, i + 1)))
  {
    assert Tail(Drop(a, i)) == Drop(a, i + 1);
    assert Tail(Drop(b, i)) == Drop(b, i + 1);
  }

  function Drop<T>(s: seq<T>, i: nat): seq<T> {
    if i <= |s| then s[i..] else []
  }

  method CompareIntSlices(a: seq<int>, b: seq<int>) returns (c: int)
    ensures c == CompareInts(a, b)
  {
    var maxLen := if |b| > |a| then |b| else |a|;
    var i := 0;
    while i < maxLen
      invariant 0 <= i <= maxLen
      invariant CompareInts(a, b) == CompareInts(Drop(a, i), Drop(b, i))
    {
      CompareIntsStep(a, b, i);
      var va, vb := 0, 0;
      if i < |a| { va := a[i]; }
      if i < |b| { vb := b[i]; }
      c := Cmp(va, vb);
      if c != 0 { return; }
      i := i + 1;
    }
    c := 0;
  }

  method CompareParsedVersions(a: ParsedVersion, b: ParsedVersion) returns (c: int)
    ensures c == CompareVersions(a, b)
    decreases a, 1
  {
    if a.manifestOrder > 0 && b.manifestOrder > 0 {
      c := Cmp(a.manifestOrder, b.manifestOrder);
      if c != 0 { return; }
    } else if a.manifestOrder > 0 {
      return 1;
    } else if b.manifestOrder > 0 {
      return -1;
    }
    if |a.segments| > 0 && |b.segments| > 0 {
      var minLen := |a.segments|;
      if |b.segments| < minLen { minLen := |b.segments|; }
      var i := 0;
      while i < minLen
        invariant 0 <= i <= minLen
        invariant CompareSegmentLists(a.segments, b.segments) == CompareSegmentLists(a.segments[i..], b.segments[i..])
      {
        var sa, sb := a.segments[i], b.segments[i];
        assert a.segments[i..][1..] == a.segments[i + 1..] && b.segments[i..][1..] == b.segments[i + 1..];
        if sa.rule.parseAs != sb.rule.parseAs { break; }
        c := CompareParsedSegments(sa, sb);
        if c != 0 { return; }
        i := i + 1;
      }
      if a.variantOrder != b.variantOrder {
        c := -Cmp(a.variantOrder, b.variantOrder);
        return;
      }
      c := Cmp(Rank(a.qualifier), Rank(b.qualifier));
      if c != 0 { return; }
      c := Cmp(a.qualifierNum, b.qualifierNum);
      return;
    }
    if a.weekly.Some? && b.weekly.Some? {
      c := Cmp(a.weekly.value.year, b.weekly.value.year);
      if c != 0 { return; }
      c := Cmp(a.weekly.value.week, b.weekly.value.week);
      if c != 0 { return; }
      c := Cmp(a.weekly.value.build as int, b.weekly.value.build as int);
      return;
    }
    if a.weekly.Some? { c := -1; return; }
    if b.weekly.Some? { c := 1; return; }
    c := CompareIntSlices(a.primary, b.primary);
    if c != 0 { return; }
    c := Cmp(Rank(a.qualifier), Rank(b.qualifier));
    if c != 0 { return; }
    c := Cmp(a.qualifierNum, b.qualifierNum);
  }

  method CompareParsedSegments(a: ParsedSegment, b: ParsedSegment) returns (c: int)
    ensures c == CompareSegment(a, b)
    decreases a, 0
  {
    match a.rule.parseAs {
      case Minecraft =>
        if a.version.Some? && b.version.Some? {
          c := CompareParsedVersions(a.version.value, b.version.value);
          return;
        }
        if a.version.Some? { c := 1; return; }
        if b.version.Some? { c := -1; return; }
      case Dotted =>
        c := CompareIntSlices(a.ints, b.ints);
        return;
      case Integer =>
        c := Cmp(a.intValue, b.intValue);
        return;
      case _ =>
    }
    c := 0;
  }
}
