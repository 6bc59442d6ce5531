/** When CompareVersions is a total preorder, and when it is not.
    Reflexivity and antisymmetry hold for all versions; transitivity holds on a domain
    exactly when the shapes of its composite versions are separated. */
module ComparatorLaws {
  import opened Common
  import opened Versions

  // ---------- reflexivity and antisymmetry, for every pair ----------

  lemma {:induction false} CompareIntsAntisymmetric(a: seq<int>, b: seq<int>)
    ensures CompareInts(b, a) == -CompareInts(a, b)
    ensures a == b ==> CompareInts(a, b) == 0
    decreases |a| + |b|
  {
    if a != [] || b != [] {
      CompareIntsAntisymmetric(Tail(a), Tail(b));
    }
  }

  lemma {:induction false} CompareAntisymmetric(a: ParsedVersion, b: ParsedVersion)
    ensures CompareVersions(b, a) == -CompareVersions(a, b)
    ensures a == b ==> CompareVersions(a, b) == 0
    decreases a, 1
  {
    SegmentListsAntisymmetric(a.segments, b.segments);
    CompareIntsAntisymmetric(a.primary, b.primary);
  }

  lemma {:induction false} SegmentListsAntisymmetric(s: seq<ParsedSegment>, t: seq<ParsedSegment>)
    ensures CompareSegmentLists(t, s) == -CompareSegmentLists(s, t)
    ensures s == t ==> CompareSegmentLists(s, t) == 0
    decreases s, 0
  {
    if s != [] && t != [] && s[0].rule.parseAs == t[0].rule.parseAs {
      SegmentAntisymmetric(s[0], t[0]);
      SegmentListsAntisymmetric(s[1..], t[1..]);
    }
  }

  lemma {:induction false} SegmentAntisymmetric(a: ParsedSegment, b: ParsedSegment)
    requires a.rule.parseAs == b.rule.parseAs
    ensures CompareSegment(b, a) == -CompareSegment(a, b)
    ensures a == b ==> CompareSegment(a, b) == 0
    decreases a, 0
  {
    match a.rule.parseAs
    case Minecraft =>
      if a.version.Some? && b.version.Some? {
        CompareAntisymmetric(a.version.value, b.version.value);
      }
    case Dotted => CompareIntsAntisymmetric(a.ints, b.ints);
    case _ =>
  }

  // ---------- what parsing produces ----------

  /** A version without segments, as parseSimpleVersion builds it. */
  predicate IsSimple(v: ParsedVersion) {
    v.segments == []
  }

  /** Composite versions carry no primary components and no weekly snapshot, and nest simple versions only. */
  predicate WellFormed(v: ParsedVersion) {
    |v.segments| > 0 ==>
      && v.weekly.None? && v.primary == []
      && forall i :: 0 <= i < |v.segments| && v.segments[i].version.Some? ==> IsSimple(v.segments[i].version.value)
  }

  function Kinds(segments: seq<ParsedSegment>): seq<ParseAs> {
    seq(|segments|, i requires 0 <= i < |segments| => segments[i].rule.parseAs)
  }

  /** The variant a composite version matched and the kinds of the segments it kept. */
  datatype Shape = Shape(variantOrder: int, kinds: seq<ParseAs>)

  function ShapeOf(v: ParsedVersion): Shape {
    Shape(v.variantOrder, Kinds(v.segments))
  }

  predicate AllZero(s: seq<int>) {
    forall i :: 0 <= i < |s| ==> s[i] == 0
  }

  /** A family of versions: which shapes its composites have, and whether it has flat versions,
      which are versions with neither segments, nor a weekly snapshot, nor a non-zero component. */
  datatype Domain = Domain(shapes: set<Shape>, flat: bool)

  predicate IsFlat(v: ParsedVersion) {
    v.segments == [] && v.weekly.None? && AllZero(v.primary)
  }

  predicate InDomain(v: ParsedVersion, d: Domain) {
    && WellFormed(v)
    && (|v.segments| > 0 ==> ShapeOf(v) in d.shapes)
    && (IsFlat(v) ==> d.flat)
  }

  predicate ValidDomain(d: Domain) {
    forall s :: s in d.shapes ==> s.kinds != []
  }

  // ---------- the condition ----------

  predicate Ordered(k: ParseAs) {
    k.Minecraft? || k.Dotted? || k.Integer?
  }

  /** How many comparable segments two shapes share before they diverge. */
  function SharedPrefix(p: seq<ParseAs>, q: seq<ParseAs>): nat {
    if p == [] || q == [] || p[0] != q[0] then 0
    else (if Ordered(p[0]) then 1 else 0) + SharedPrefix(p[1..], q[1..])
  }

  /** Variant s is newer than both others, or older than both. */
  predicate Outside(s: int, t: int, u: int) {
    (s < t && s < u) || (s > t && s > u)
  }

  /** If s leaves t and u before these two part, variant order must put s on one side of both. */
  predicate Separated(s: Shape, t: Shape, u: Shape) {
    SharedPrefix(s.kinds, t.kinds) < SharedPrefix(t.kinds, u.kinds) ==>
      Outside(s.variantOrder, t.variantOrder, u.variantOrder)
  }

  predicate Coherent(d: Domain) {
    && (forall s, t, u :: s in d.shapes && t in d.shapes && u in d.shapes ==> Separated(s, t, u))
    && (d.flat ==>
        forall s, t :: s in d.shapes && t in d.shapes ==>
          s.variantOrder == t.variantOrder && SharedPrefix(s.kinds, s.kinds) == 0)
  }

  // ---------- laws of the parts ----------

  lemma {:induction false} CompareIntsLaw(a: seq<int>, b: seq<int>, c: seq<int>)
    ensures Law(CompareInts(a, b), CompareInts(b, c), CompareInts(a, c))
    decreases |a| + |b| + |c|
  {
    if a != [] || b != [] || c != [] {
      CompareIntsLaw(Tail(a), Tail(b), Tail(c));
      PaddedUnfold(a, b); PaddedUnfold(b, c); PaddedUnfold(a, c);
      LexLaw(Cmp(At(a, 0), At(b, 0)), Cmp(At(b, 0), At(c, 0)), Cmp(At(a, 0), At(c, 0)),
             CompareInts(Tail(a), Tail(b)), CompareInts(Tail(b), Tail(c)), CompareInts(Tail(a), Tail(c)));
    }
  }

  lemma PaddedUnfold(a: seq<int>, b: seq<int>)
    ensures CompareInts(a, b) == Lex(Cmp(At(a, 0), At(b, 0)), CompareInts(Tail(a), Tail(b)))
  {
  }

  lemma {:induction false} CompareIntsZero(a: seq<int>)
    ensures CompareInts(a, []) == 0 <==> AllZero(a)
    decreases |a|
  {
    if a != [] {
      CompareIntsZero(a[1..]);
      if AllZero(a) {
        assert a[0] == 0;
      } else if a[0] == 0 {
        var i :| 0 <= i < |a| && a[i] != 0;
        assert a[1..][i - 1] != 0;
      }
      if a[0] == 0 && AllZero(a[1..]) {
        forall i | 0 <= i < |a| ensures a[i] == 0 { if i > 0 { assert a[1..][i - 1] == 0; } }
      }
    }
  }

  lemma QualifiersLaw(a: ParsedVersion, b: ParsedVersion, c: ParsedVersion)
    ensures Law(CompareQualifiers(a, b), CompareQualifiers(b, c), CompareQualifiers(a, c))
  {
  }

  lemma VariantsLaw(a: ParsedVersion, b: ParsedVersion, c: ParsedVersion)
    ensures Law(CompareVariants(a, b), CompareVariants(b, c), CompareVariants(a, c))
  {
    QualifiersLaw(a, b, c);
  }

  /** The stages that treat composites as versions with no components. */
  function CompareBase(a: ParsedVersion, b: ParsedVersion): int {
    Lex(CompareManifest(a, b),
        if a.weekly.Some? && b.weekly.Some? then CompareWeekly(a.weekly.value, b.weekly.value)
        else if a.weekly.Some? then -1
        else if b.weekly.Some? then 1
        else CompareInts(a.primary, b.primary))
  }

  /** The stages below a tie of CompareBase. */
  function CompareRest(a: ParsedVersion, b: ParsedVersion): int {
    if |a.segments| > 0 && |b.segments| > 0
    then Lex(CompareSegmentLists(a.segments, b.segments), CompareVariants(a, b))
    else if a.weekly.Some? && b.weekly.Some? then 0
    else CompareQualifiers(a, b)
  }

  lemma CompareStages(a: ParsedVersion, b: ParsedVersion)
    requires WellFormed(a) && WellFormed(b)
    ensures CompareVersions(a, b) == Lex(CompareBase(a, b), CompareRest(a, b))
  {
    CompareIntsZero([]);
  }

  lemma BaseLaw(a: ParsedVersion, b: ParsedVersion, c: ParsedVersion)
    ensures Law(CompareBase(a, b), CompareBase(b, c), CompareBase(a, c))
  {
    CompareIntsLaw(a.primary, b.primary, c.primary);
    LexLaw(CompareManifest(a, b), CompareManifest(b, c), CompareManifest(a, c),
           CompareBase(a.(manifestOrder := 0), b.(manifestOrder := 0)),
           CompareBase(b.(manifestOrder := 0), c.(manifestOrder := 0)),
           CompareBase(a.(manifestOrder := 0), c.(manifestOrder := 0)));
  }

  lemma SimpleLaw(a: ParsedVersion, b: ParsedVersion, c: ParsedVersion)
    requires IsSimple(a) && IsSimple(b) && IsSimple(c)
    ensures Law(CompareVersions(a, b), CompareVersions(b, c), CompareVersions(a, c))
  {
    CompareStages(a, b); CompareStages(b, c); CompareStages(a, c);
    BaseLaw(a, b, c);
    QualifiersLaw(a, b, c);
    LexLaw(CompareBase(a, b), CompareBase(b, c), CompareBase(a, c),
           CompareRest(a, b), CompareRest(b, c), CompareRest(a, c));
  }

  predicate SimpleNested(s: seq<ParsedSegment>) {
    forall i :: 0 <= i < |s| && s[i].version.Some? ==> IsSimple(s[i].version.value)
  }

  lemma SegmentLaw(a: ParsedSegment, b: ParsedSegment, c: ParsedSegment)
    requires a.rule.parseAs == b.rule.parseAs == c.rule.parseAs
    requires SimpleNested([a, b, c])
    ensures Law(CompareSegment(a, b), CompareSegment(b, c), CompareSegment(a, c))
  {
    assert [a, b, c][0] == a && [a, b, c][1] == b && [a, b, c][2] == c;
    if a.rule.parseAs.Minecraft? && a.version.Some? && b.version.Some? && c.version.Some? {
      SimpleLaw(a.version.value, b.version.value, c.version.value);
    } else if a.rule.parseAs.Dotted? {
      CompareIntsLaw(a.ints, b.ints, c.ints);
    }
  }

  lemma {:induction false} NothingShared(s: seq<ParsedSegment>, t: seq<ParsedSegment>)
    requires SharedPrefix(Kinds(s), Kinds(t)) == 0
    ensures CompareSegmentLists(s, t) == 0
  {
    if s != [] && t != [] && s[0].rule.parseAs == t[0].rule.parseAs {
      KindsTail(s); KindsTail(t);
      NothingShared(s[1..], t[1..]);
    }
  }

  lemma KindsTail(s: seq<ParsedSegment>)
    requires s != []
    ensures Kinds(s)[0] == s[0].rule.parseAs && Kinds(s)[1..] == Kinds(s[1..])
  {
  }

  /** Verdict of three composites whose segment lists are s, t, u and whose variants and qualifiers give st, tu, su. */
  predicate ListsLaw(s: seq<ParsedSegment>, t: seq<ParsedSegment>, u: seq<ParsedSegment>, st: int, tu: int, su: int) {
    Law(Lex(CompareSegmentLists(s, t), st), Lex(CompareSegmentLists(t, u), tu), Lex(CompareSegmentLists(s, u), su))
  }

  /** Whichever list leaves the other two first is ordered against both of them by the tie-break. */
  predicate TieBreaksOutside(p: seq<ParseAs>, q: seq<ParseAs>, r: seq<ParseAs>, st: int, tu: int, su: int) {
    && (SharedPrefix(p, q) < SharedPrefix(q, r) ==> (st < 0 && su < 0) || (st > 0 && su > 0))
    && (SharedPrefix(q, p) < SharedPrefix(p, r) ==> (st > 0 && tu < 0) || (st < 0 && tu > 0))
    && (SharedPrefix(r, p) < SharedPrefix(p, q) ==> (su > 0 && tu > 0) || (su < 0 && tu < 0))
  }

  lemma {:induction false} SharedPrefixSymmetric(p: seq<ParseAs>, q: seq<ParseAs>)
    ensures SharedPrefix(p, q) == SharedPrefix(q, p)
  {
    if p != [] && q != [] && p[0] == q[0] {
      SharedPrefixSymmetric(p[1..], q[1..]);
    }
  }

  /** A common kind at the head is compared first. */
  lemma SameHeadLaw(s: seq<ParsedSegment>, t: seq<ParsedSegment>, u: seq<ParsedSegment>, st: int, tu: int, su: int)
    requires SimpleNested(s) && SimpleNested(t) && SimpleNested(u) && s != [] && t != [] && u != []
    requires s[0].rule.parseAs == t[0].rule.parseAs == u[0].rule.parseAs
    requires ListsLaw(s[1..], t[1..], u[1..], st, tu, su)
    ensures ListsLaw(s, t, u, st, tu, su)
  {
    SegmentLaw(s[0], t[0], u[0]);
    LexLaw(CompareSegment(s[0], t[0]), CompareSegment(t[0], u[0]), CompareSegment(s[0], u[0]),
           Lex(CompareSegmentLists(s[1..], t[1..]), st), Lex(CompareSegmentLists(t[1..], u[1..]), tu),
           Lex(CompareSegmentLists(s[1..], u[1..]), su));
  }

  lemma {:induction false} SegmentListsLaw(s: seq<ParsedSegment>, t: seq<ParsedSegment>, u: seq<ParsedSegment>,
                                           st: int, tu: int, su: int)
    requires SimpleNested(s) && SimpleNested(t) && SimpleNested(u)
    requires Law(st, tu, su)
    requires TieBreaksOutside(Kinds(s), Kinds(t), Kinds(u), st, tu, su)
    ensures ListsLaw(s, t, u, st, tu, su)
  {
    var p, q, r := Kinds(s), Kinds(t), Kinds(u);
    SharedPrefixSymmetric(p, q); SharedPrefixSymmetric(q, r); SharedPrefixSymmetric(p, r);
    if s != [] && t != [] && u != [] && p[0] == q[0] == r[0] {
      KindsTail(s); KindsTail(t); KindsTail(u);
      SharedPrefixSymmetric(p[1..], q[1..]); SharedPrefixSymmetric(q[1..], r[1..]);
      SharedPrefixSymmetric(p[1..], r[1..]);
      SegmentListsLaw(s[1..], t[1..], u[1..], st, tu, su);
      SameHeadLaw(s, t, u, st, tu, su);
    } else if t != [] && u != [] && q[0] == r[0] {
      if SharedPrefix(q, r) == 0 { NothingShared(t, u); }
    } else if s != [] && u != [] && p[0] == r[0] {
      if SharedPrefix(p, r) == 0 { NothingShared(s, u); }
    } else if s != [] && t != [] && p[0] == q[0] {
      if SharedPrefix(p, q) == 0 { NothingShared(s, t); }
    }
  }

  // ---------- sufficiency ----------

  lemma CompositesLaw(a: ParsedVersion, b: ParsedVersion, c: ParsedVersion, d: Domain)
    requires Coherent(d) && InDomain(a, d) && InDomain(b, d) && InDomain(c, d)
    requires |a.segments| > 0 && |b.segments| > 0 && |c.segments| > 0
    ensures Law(CompareRest(a, b), CompareRest(b, c), CompareRest(a, c))
  {
    var s, t, u := ShapeOf(a), ShapeOf(b), ShapeOf(c);
    assert Separated(s, t, u) && Separated(t, s, u) && Separated(u, s, t);
    SharedPrefixSymmetric(s.kinds, t.kinds); SharedPrefixSymmetric(t.kinds, u.kinds);
    SharedPrefixSymmetric(s.kinds, u.kinds);
    VariantsLaw(a, b, c);
    SegmentListsLaw(a.segments, b.segments, c.segments,
                    CompareVariants(a, b), CompareVariants(b, c), CompareVariants(a, c));
  }

  /** With flat versions around, the condition leaves composites nothing but qualifiers to compare. */
  lemma FlatDomainRest(a: ParsedVersion, b: ParsedVersion, d: Domain)
    requires Coherent(d) && d.flat && InDomain(a, d) && InDomain(b, d)
    requires a.weekly.None? && b.weekly.None?
    ensures CompareRest(a, b) == CompareQualifiers(a, b)
  {
    if |a.segments| > 0 && |b.segments| > 0 {
      var s, t := ShapeOf(a), ShapeOf(b);
      SharedPrefixBound(s.kinds, t.kinds);
      NothingShared(a.segments, b.segments);
    }
  }

  lemma {:induction false} SharedPrefixBound(p: seq<ParseAs>, q: seq<ParseAs>)
    ensures SharedPrefix(p, q) <= SharedPrefix(p, p)
  {
    if p != [] && q != [] && p[0] == q[0] {
      SharedPrefixBound(p[1..], q[1..]);
    }
  }

  /** Versions that tie on the base stages and are not weekly are all zero or all non-zero. */
  lemma BaseTieZero(a: ParsedVersion, b: ParsedVersion)
    requires CompareBase(a, b) == 0 && a.weekly.None?
    ensures b.weekly.None? && (AllZero(a.primary) <==> AllZero(b.primary))
  {
    CompareIntsZero(a.primary);
    CompareIntsZero(b.primary);
    CompareIntsLaw(a.primary, b.primary, []);
    CompareIntsAntisymmetric(a.primary, b.primary);
    CompareIntsLaw(b.primary, a.primary, []);
  }

  lemma RestLaw(a: ParsedVersion, b: ParsedVersion, c: ParsedVersion, d: Domain)
    requires Coherent(d) && InDomain(a, d) && InDomain(b, d) && InDomain(c, d)
    requires CompareBase(a, b) == 0 && CompareBase(b, c) == 0 && CompareBase(a, c) == 0
    ensures Law(CompareRest(a, b), CompareRest(b, c), CompareRest(a, c))
  {
    if a.weekly.None? {
      BaseTieZero(a, b); BaseTieZero(a, c);
      QualifiersLaw(a, b, c);
      if d.flat {
        FlatDomainRest(a, b, d); FlatDomainRest(b, c, d); FlatDomainRest(a, c, d);
      } else if |a.segments| > 0 && |b.segments| > 0 && |c.segments| > 0 {
        CompositesLaw(a, b, c, d);
      } else {
        assert |a.segments| > 0 ==> AllZero(a.primary);
        assert |b.segments| > 0 ==> AllZero(b.primary);
        assert |c.segments| > 0 ==> AllZero(c.primary);
      }
    }
  }

  lemma DomainLaw(a: ParsedVersion, b: ParsedVersion, c: ParsedVersion, d: Domain)
    requires Coherent(d) && InDomain(a, d) && InDomain(b, d) && InDomain(c, d)
    ensures Law(CompareVersions(a, b), CompareVersions(b, c), CompareVersions(a, c))
  {
    CompareStages(a, b); CompareStages(b, c); CompareStages(a, c);
    BaseLaw(a, b, c);
    if CompareBase(a, b) == 0 && CompareBase(b, c) == 0 && CompareBase(a, c) == 0 {
      RestLaw(a, b, c, d);
    }
    LexLaw(CompareBase(a, b), CompareBase(b, c), CompareBase(a, c),
           CompareRest(a, b), CompareRest(b, c), CompareRest(a, c));
  }

  // ---------- necessity: witnesses ----------

  /** Segments of the given kinds, all zero except the comparable one with index bump, which is one. */
  function SampleSegments(kinds: seq<ParseAs>, bump: int): (s: seq<ParsedSegment>)
    ensures Kinds(s) == kinds
    ensures SimpleNested(s)
  {
    if kinds == [] then []
    else
      var n := if Ordered(kinds[0]) && bump == 0 then 1 else 0;
      var rest := SampleSegments(kinds[1..], if Ordered(kinds[0]) then bump - 1 else bump);
      var s := [ParsedSegment(SegmentRule("", kinds[0], ""), "", Some(SimpleSample(n)), [n], n)] + rest;
      assert forall i :: 1 <= i < |s| ==> s[i] == rest[i - 1];
      assert Kinds(s) == [kinds[0]] + Kinds(rest);
      s
  }

  function SimpleSample(n: int): ParsedVersion {
    ParsedVersion("", [n], Release, 0, None, false, "", 0, [], 0)
  }

  function Sample(shape: Shape, bump: int): ParsedVersion {
    ParsedVersion("", [], Release, 0, None, true, "", shape.variantOrder, SampleSegments(shape.kinds, bump), 0)
  }

  lemma SampleHead(kinds: seq<ParseAs>, bump: int, bump': int)
    requires kinds != []
    ensures
      var h, h' := SampleSegments(kinds, bump)[0], SampleSegments(kinds, bump')[0];
      CompareSegment(h, h') ==
        if !Ordered(kinds[0]) then 0 else Cmp(if bump == 0 then 1 else 0, if bump' == 0 then 1 else 0)
    ensures SampleSegments(kinds, bump)[1..] == SampleSegments(kinds[1..], if Ordered(kinds[0]) then bump - 1 else bump)
  {
    var n, n' := if bump == 0 then 1 else 0, if bump' == 0 then 1 else 0;
    var m, m' := SimpleSample(n), SimpleSample(n');
    assert CompareInts([n], [n']) == Lex(Cmp(n, n'), CompareInts([], []));
  }

  /** A bump behind the shared prefix goes unnoticed; one inside it decides. */
  lemma {:induction false} SampleCompare(p: seq<ParseAs>, q: seq<ParseAs>, bump: int)
    ensures CompareSegmentLists(SampleSegments(p, bump), SampleSegments(q, -1)) ==
            if 0 <= bump < SharedPrefix(p, q) then 1 else 0
    decreases p
  {
    if p != [] && q != [] && p[0] == q[0] {
      SampleHead(p, bump, -1);
      SampleHead(q, -1, bump);
      SampleMinusOne(q[1..], if Ordered(q[0]) then -2 else -1);
      SampleCompare(p[1..], q[1..], if Ordered(p[0]) then bump - 1 else bump);
      SampleHeads(p, q, bump);
    }
  }

  lemma SampleHeads(p: seq<ParseAs>, q: seq<ParseAs>, bump: int)
    requires p != [] && q != [] && p[0] == q[0]
    ensures SampleSegments(q, -1)[0] == SampleSegments(p, -1)[0]
  {
  }

  lemma {:induction false} SampleMinusOne(q: seq<ParseAs>, bump: int)
    requires bump < 0
    ensures SampleSegments(q, bump) == SampleSegments(q, -1)
    decreases q
  {
    if q != [] {
      var k := if Ordered(q[0]) then bump - 1 else bump;
      SampleMinusOne(q[1..], k);
      SampleMinusOne(q[1..], if Ordered(q[0]) then -2 else -1);
    }
  }

  predicate LessEq(a: ParsedVersion, b: ParsedVersion) {
    CompareVersions(a, b) <= 0
  }

  ghost predicate Transitive(d: Domain) {
    forall a, b, c :: InDomain(a, d) && InDomain(b, d) && InDomain(c, d) && LessEq(a, b) && LessEq(b, c) ==>
      LessEq(a, c)
  }

  lemma SampleInDomain(s: Shape, bump: int, d: Domain)
    requires ValidDomain(d) && s in d.shapes
    ensures InDomain(Sample(s, bump), d) && |Sample(s, bump).segments| > 0
  {
    var v := Sample(s, bump);
    assert |Kinds(v.segments)| == |s.kinds|;
    assert ShapeOf(v) == s;
  }

  lemma SampleVerdict(s: Shape, t: Shape, bump: int)
    requires s.kinds != [] && t.kinds != []
    ensures CompareVersions(Sample(s, bump), Sample(t, -1)) ==
            if 0 <= bump < SharedPrefix(s.kinds, t.kinds) then 1 else -Cmp(s.variantOrder, t.variantOrder)
  {
    assert |Kinds(SampleSegments(s.kinds, bump))| == |s.kinds|;
    assert |Kinds(SampleSegments(t.kinds, -1))| == |t.kinds|;
    SampleCompare(s.kinds, t.kinds, bump);
  }

  /** s lies between t and u in variant order but leaves them before they part: bump the older of t and u. */
  lemma NotSeparatedNotTransitive(s: Shape, t: Shape, u: Shape, d: Domain)
    requires ValidDomain(d) && s in d.shapes && t in d.shapes && u in d.shapes
    requires SharedPrefix(s.kinds, t.kinds) < SharedPrefix(t.kinds, u.kinds)
    requires u.variantOrder <= s.variantOrder <= t.variantOrder
    ensures !Transitive(d)
  {
    var k := SharedPrefix(s.kinds, t.kinds);
    var a, b, c := Sample(s, -1), Sample(t, k), Sample(u, -1);
    SampleInDomain(s, -1, d); SampleInDomain(t, k, d); SampleInDomain(u, -1, d);
    SharedPrefixSymmetric(s.kinds, t.kinds);
    SampleVerdict(t, u, k);
    SampleVerdict(t, s, k);
    SampleVerdict(s, u, -1);
    assert LessEq(b, a) && LessEq(a, c) && !LessEq(b, c);
  }

  /** If s leaves t before t and u part, it leaves u at the same place. */
  lemma {:induction false} SharedPrefixUltrametric(p: seq<ParseAs>, q: seq<ParseAs>, r: seq<ParseAs>)
    requires SharedPrefix(p, q) < SharedPrefix(q, r)
    ensures SharedPrefix(p, r) == SharedPrefix(p, q)
  {
    if p != [] && q != [] && p[0] == q[0] {
      SharedPrefixUltrametric(p[1..], q[1..], r[1..]);
    }
  }

  lemma FlatNotTransitive(a: ParsedVersion, b: ParsedVersion, d: Domain)
    requires d.flat && InDomain(a, d) && InDomain(b, d) && |a.segments| > 0 && |b.segments| > 0
    requires a.manifestOrder == b.manifestOrder == 0
    requires a.qualifier == b.qualifier && a.qualifierNum == b.qualifierNum == 0 && a.qualifier.Release?
    requires CompareVersions(a, b) > 0
    ensures !Transitive(d)
  {
    var z := SimpleSample(0);
    assert IsFlat(z) && InDomain(z, d);
    CompareIntsZero([0]);
    CompareIntsAntisymmetric([0], []);
    assert LessEq(a, z) && LessEq(z, b) && !LessEq(a, b);
  }

  lemma IncoherentNotTransitive(d: Domain)
    requires ValidDomain(d) && !Coherent(d)
    ensures !Transitive(d)
  {
    if s, t, u :| s in d.shapes && t in d.shapes && u in d.shapes && !Separated(s, t, u) {
      SharedPrefixUltrametric(s.kinds, t.kinds, u.kinds);
      SharedPrefixSymmetric(t.kinds, u.kinds);
      if u.variantOrder <= s.variantOrder <= t.variantOrder {
        NotSeparatedNotTransitive(s, t, u, d);
      } else {
        NotSeparatedNotTransitive(s, u, t, d);
      }
    } else {
      var s, t :| s in d.shapes && t in d.shapes &&
                  !(s.variantOrder == t.variantOrder && SharedPrefix(s.kinds, s.kinds) == 0);
      SampleInDomain(s, 0, d); SampleInDomain(s, -1, d); SampleInDomain(t, -1, d);
      SampleVerdict(s, s, 0);
      SampleVerdict(s, t, -1);
      SampleVerdict(t, s, -1);
      if SharedPrefix(s.kinds, s.kinds) > 0 {
        FlatNotTransitive(Sample(s, 0), Sample(s, -1), d);
      } else if s.variantOrder < t.variantOrder {
        FlatNotTransitive(Sample(s, -1), Sample(t, -1), d);
      } else {
        FlatNotTransitive(Sample(t, -1), Sample(s, -1), d);
      }
    }
  }

  // ---------- the classification ----------

  /** On a domain the comparator is transitive exactly when the domain is coherent. */
  lemma TransitiveIffCoherent(d: Domain)
    requires ValidDomain(d)
    ensures Transitive(d) <==> Coherent(d)
  {
    if Coherent(d) {
      forall a, b, c | InDomain(a, d) && InDomain(b, d) && InDomain(c, d) && LessEq(a, b) && LessEq(b, c)
        ensures LessEq(a, c)
      {
        DomainLaw(a, b, c, d);
      }
    } else {
      IncoherentNotTransitive(d);
    }
  }

  /** Composites that all kept the same kinds of segments are coherent, whatever their variants. */
  lemma UniformShapesCoherent(d: Domain, kinds: seq<ParseAs>)
    requires !d.flat && forall s :: s in d.shapes ==> s.kinds == kinds
    ensures Coherent(d)
  {
  }

  /** At one manifest position weekly snapshots come first, then composites, then simple versions with a positive
      number. */
  lemma LayersWithinManifestPosition(w: ParsedVersion, c: ParsedVersion, s: ParsedVersion)
    requires w.manifestOrder == c.manifestOrder == s.manifestOrder
             || (w.manifestOrder <= 0 && c.manifestOrder <= 0 && s.manifestOrder <= 0)
    requires IsSimple(w) && w.weekly.Some?
    requires WellFormed(c) && |c.segments| > 0
    requires IsSimple(s) && s.weekly.None? && !AllZero(s.primary)
    requires forall i :: 0 <= i < |s.primary| ==> s.primary[i] >= 0
    ensures CompareVersions(w, c) < 0 && CompareVersions(c, s) < 0 && CompareVersions(w, s) < 0
  {
    NonNegativeAboveEmpty(s.primary);
    CompareIntsZero(s.primary);
    CompareIntsAntisymmetric(s.primary, []);
  }

  lemma {:induction false} NonNegativeAboveEmpty(s: seq<int>)
    requires forall i :: 0 <= i < |s| ==> s[i] >= 0
    ensures CompareInts(s, []) >= 0
  {
    if s != [] {
      NonNegativeAboveEmpty(s[1..]);
    }
  }

  /** A composite of the variant "v" that kept the given integer segments. */
  function IntegerComposite(numbers: seq<int>, build: int): ParsedVersion {
    ParsedVersion("", [], Release, build, None, true, "v", 0,
                  seq(|numbers|, i requires 0 <= i < |numbers| =>
                    ParsedSegment(SegmentRule("n", Integer, ""), "", None, [], numbers[i])), 0)
  }

  /** One variant with an optional group: [1] build 5 < [1, 1] build 6 < [1, 2] build 4 < [1] build 5. */
  lemma OptionalGroupCycle()
    ensures CompareVersions(IntegerComposite([1], 5), IntegerComposite([1, 1], 6)) < 0
    ensures CompareVersions(IntegerComposite([1, 1], 6), IntegerComposite([1, 2], 4)) < 0
    ensures CompareVersions(IntegerComposite([1, 2], 4), IntegerComposite([1], 5)) < 0
  {
    var a, b := IntegerComposite([1], 5).segments, IntegerComposite([1, 1], 6).segments;
    var c := IntegerComposite([1, 2], 4).segments;
    assert CompareSegmentLists(a, b) == CompareSegmentLists(a[1..], b[1..]) == 0;
    assert CompareSegmentLists(c, a) == CompareSegmentLists(c[1..], a[1..]) == 0;
    assert CompareSegmentLists(b, c) == CompareSegmentLists(b[1..], c[1..]) == CompareSegment(b[1], c[1]);
  }
}
