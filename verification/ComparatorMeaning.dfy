/** What the comparator means, told by the fields of the versions: which of two versions is the older one. */
module ComparatorMeaning {
  import opened Common
  import opened Versions
  import opened ComparatorLaws

  // ---------- dotted numbers, qualifiers, weekly snapshots ----------

  predicate SameUpTo(a: seq<int>, b: seq<int>, k: nat) {
    forall i :: 0 <= i < k ==> At(a, i) == At(b, i)
  }

  /** At the first place where they differ, a has the smaller number; a missing number is 0. */
  ghost predicate DottedBelow(a: seq<int>, b: seq<int>) {
    exists k :: DottedBelowAt(a, b, k)
  }

  predicate DottedBelowAt(a: seq<int>, b: seq<int>, k: nat) {
    At(a, k) < At(b, k) && SameUpTo(a, b, k)
  }

  ghost predicate DottedSame(a: seq<int>, b: seq<int>) {
    forall i: nat :: At(a, i) == At(b, i)
  }

  /** Snapshot before pre-release before release candidate before release. */
  predicate QualifierBelow(p: Qualifier, q: Qualifier) {
    || (p == Snapshot && q in {Pre, RC, Release})
    || (p == Pre && q in {RC, Release})
    || (p == RC && q == Release)
  }

  predicate WeeklyBelow(a: WeeklySnapshot, b: WeeklySnapshot) {
    a.year < b.year || (a.year == b.year && (a.week < b.week || (a.week == b.week && a.build < b.build)))
  }

  predicate QualifierOlder(a: ParsedVersion, b: ParsedVersion) {
    QualifierBelow(a.qualifier, b.qualifier) || (a.qualifier == b.qualifier && a.qualifierNum < b.qualifierNum)
  }

  predicate QualifierSame(a: ParsedVersion, b: ParsedVersion) {
    a.qualifier == b.qualifier && a.qualifierNum == b.qualifierNum
  }

  // ---------- versions ----------

  /** Without segments on both sides: weekly snapshots come first, then the numbers decide, then the qualifier. */
  ghost predicate PlainOlder(a: ParsedVersion, b: ParsedVersion) {
    if a.weekly.Some? && b.weekly.Some? then WeeklyBelow(a.weekly.value, b.weekly.value)
    else if a.weekly.Some? || b.weekly.Some? then a.weekly.Some?
    else DottedBelow(a.primary, b.primary) || (DottedSame(a.primary, b.primary) && QualifierOlder(a, b))
  }

  ghost predicate PlainSame(a: ParsedVersion, b: ParsedVersion) {
    if a.weekly.Some? && b.weekly.Some? then a.weekly == b.weekly
    else a.weekly.None? && b.weekly.None? && DottedSame(a.primary, b.primary) && QualifierSame(a, b)
  }

  ghost predicate SegmentOlder(a: ParsedSegment, b: ParsedSegment)
    decreases a, 0
  {
    match a.rule.parseAs
    case Minecraft => b.version.Some? && (a.version.Some? ==> Older(a.version.value, b.version.value))
    case Dotted => DottedBelow(a.ints, b.ints)
    case Integer => a.intValue < b.intValue
    case _ => false
  }

  ghost predicate SegmentSame(a: ParsedSegment, b: ParsedSegment)
    decreases a, 0
  {
    match a.rule.parseAs
    case Minecraft =>
      if a.version.Some? && b.version.Some? then Same(a.version.value, b.version.value)
      else a.version.None? && b.version.None?
    case Dotted => DottedSame(a.ints, b.ints)
    case Integer => a.intValue == b.intValue
    case _ => true
  }

  /** Position k is reached before the kinds of segments part. */
  predicate Comparable(s: seq<ParsedSegment>, t: seq<ParsedSegment>, k: nat) {
    k < |s| && k < |t| && forall i :: 0 <= i <= k ==> s[i].rule.parseAs == t[i].rule.parseAs
  }

  ghost predicate SegmentsOlder(s: seq<ParsedSegment>, t: seq<ParsedSegment>)
    decreases s, 0
  {
    exists k: nat :: Comparable(s, t, k) && SegmentOlder(s[k], t[k])
                     && forall i :: 0 <= i < k ==> SegmentSame(s[i], t[i])
  }

  ghost predicate SegmentsSame(s: seq<ParsedSegment>, t: seq<ParsedSegment>)
    decreases s, 0
  {
    forall k: nat :: Comparable(s, t, k) ==> SegmentSame(s[k], t[k])
  }

  /** A higher manifest position is newer, and any position is newer than none; at the same position segments decide,
      then the variant, where a lower index is newer, then the qualifier. */
  ghost predicate Older(a: ParsedVersion, b: ParsedVersion)
    decreases a, 1
  {
    || 0 < a.manifestOrder < b.manifestOrder
    || a.manifestOrder <= 0 < b.manifestOrder
    || (SamePosition(a, b) &&
        if |a.segments| > 0 && |b.segments| > 0
        then SegmentsOlder(a.segments, b.segments)
             || (SegmentsSame(a.segments, b.segments)
                 && (a.variantOrder > b.variantOrder || (a.variantOrder == b.variantOrder && QualifierOlder(a, b))))
        else PlainOlder(a, b))
  }

  predicate SamePosition(a: ParsedVersion, b: ParsedVersion) {
    (a.manifestOrder <= 0 && b.manifestOrder <= 0) || a.manifestOrder == b.manifestOrder
  }

  ghost predicate Same(a: ParsedVersion, b: ParsedVersion)
    decreases a, 1
  {
    && SamePosition(a, b)
    && if |a.segments| > 0 && |b.segments| > 0
       then SegmentsSame(a.segments, b.segments) && a.variantOrder == b.variantOrder && QualifierSame(a, b)
       else PlainSame(a, b)
  }

  // ---------- the comparator tells exactly this ----------

  lemma {:induction false} CompareIntsMeaning(a: seq<int>, b: seq<int>)
    ensures CompareInts(a, b) < 0 <==> DottedBelow(a, b)
    ensures CompareInts(a, b) == 0 <==> DottedSame(a, b)
    decreases |a| + |b|
  {
    if a != [] || b != [] {
      CompareIntsMeaning(Tail(a), Tail(b));
      assert forall i: nat :: At(Tail(a), i) == At(a, i + 1) && At(Tail(b), i) == At(b, i + 1);
      HeadDecides(a, b);
    }
  }

  lemma HeadDecides(a: seq<int>, b: seq<int>)
    ensures DottedBelow(a, b) <==> At(a, 0) < At(b, 0) || (At(a, 0) == At(b, 0) && DottedBelow(Tail(a), Tail(b)))
    ensures DottedSame(a, b) <==> At(a, 0) == At(b, 0) && DottedSame(Tail(a), Tail(b))
  {
    assert forall i: nat :: At(Tail(a), i) == At(a, i + 1) && At(Tail(b), i) == At(b, i + 1);
    if k: nat :| DottedBelowAt(a, b, k) && k > 0 {
      forall i | 0 <= i < k - 1 ensures At(Tail(a), i) == At(Tail(b), i) { assert At(a, i + 1) == At(b, i + 1); }
      assert DottedBelowAt(Tail(a), Tail(b), k - 1);
    }
    if At(a, 0) < At(b, 0) { assert DottedBelowAt(a, b, 0); }
    if At(a, 0) == At(b, 0) {
      if k: nat :| DottedBelowAt(Tail(a), Tail(b), k) {
        forall i | 0 <= i < k + 1 ensures At(a, i) == At(b, i) {
          if i > 0 { assert At(Tail(a), i - 1) == At(Tail(b), i - 1); }
        }
        assert DottedBelowAt(a, b, k + 1);
      }
      if DottedSame(Tail(a), Tail(b)) {
        forall i: nat ensures At(a, i) == At(b, i) {
          if i > 0 { assert At(Tail(a), i - 1) == At(Tail(b), i - 1); }
        }
      }
    }
  }

  lemma QualifierMeaning(a: ParsedVersion, b: ParsedVersion)
    ensures CompareQualifiers(a, b) < 0 <==> QualifierOlder(a, b)
    ensures CompareQualifiers(a, b) == 0 <==> QualifierSame(a, b)
  {
  }

  lemma PlainMeaning(a: ParsedVersion, b: ParsedVersion)
    ensures CompareSimple(a, b) < 0 <==> PlainOlder(a, b)
    ensures CompareSimple(a, b) == 0 <==> PlainSame(a, b)
  {
    CompareIntsMeaning(a.primary, b.primary);
    QualifierMeaning(a, b);
  }

  lemma {:induction false} SegmentMeaning(a: ParsedSegment, b: ParsedSegment)
    ensures CompareSegment(a, b) < 0 <==> SegmentOlder(a, b)
    ensures CompareSegment(a, b) == 0 <==> SegmentSame(a, b)
    decreases a, 0
  {
    CompareIntsMeaning(a.ints, b.ints);
    if a.version.Some? && b.version.Some? {
      CompareMeaning(a.version.value, b.version.value);
    }
  }

  lemma ComparableTail(s: seq<ParsedSegment>, t: seq<ParsedSegment>, k: nat)
    requires s != [] && t != [] && s[0].rule.parseAs == t[0].rule.parseAs
    ensures Comparable(s, t, k + 1) <==> Comparable(s[1..], t[1..], k)
  {
    if Comparable(s[1..], t[1..], k) {
      forall i | 0 <= i <= k + 1 ensures s[i].rule.parseAs == t[i].rule.parseAs {
        if i > 0 { assert s[1..][i - 1].rule.parseAs == t[1..][i - 1].rule.parseAs; }
      }
    }
    if Comparable(s, t, k + 1) {
      assert forall i :: 0 <= i <= k ==> s[1..][i] == s[i + 1] && t[1..][i] == t[i + 1];
    }
  }

  lemma OlderBehindFirst(s: seq<ParsedSegment>, t: seq<ParsedSegment>)
    requires s != [] && t != [] && s[0].rule.parseAs == t[0].rule.parseAs
    requires SegmentSame(s[0], t[0]) && SegmentsOlder(s[1..], t[1..])
    ensures SegmentsOlder(s, t)
  {
    var k: nat :| Comparable(s[1..], t[1..], k) && SegmentOlder(s[1..][k], t[1..][k])
                  && forall i :: 0 <= i < k ==> SegmentSame(s[1..][i], t[1..][i]);
    forall i | 0 <= i < k + 1 ensures SegmentSame(s[i], t[i]) {
      if i > 0 { assert SegmentSame(s[1..][i - 1], t[1..][i - 1]); }
    }
    ComparableTail(s, t, k);
    assert SegmentOlder(s[k + 1], t[k + 1]);
  }

  lemma OlderAtOrBehindFirst(s: seq<ParsedSegment>, t: seq<ParsedSegment>)
    requires s != [] && t != [] && s[0].rule.parseAs == t[0].rule.parseAs && SegmentsOlder(s, t)
    ensures SegmentOlder(s[0], t[0]) || (SegmentSame(s[0], t[0]) && SegmentsOlder(s[1..], t[1..]))
  {
    var k: nat :| Comparable(s, t, k) && SegmentOlder(s[k], t[k]) && forall i :: 0 <= i < k ==> SegmentSame(s[i], t[i]);
    if k > 0 {
      ComparableTail(s, t, k - 1);
      assert SegmentOlder(s[1..][k - 1], t[1..][k - 1]);
      assert forall i :: 0 <= i < k - 1 ==> s[1..][i] == s[i + 1] && t[1..][i] == t[i + 1];
    }
  }

  lemma SameBehindFirst(s: seq<ParsedSegment>, t: seq<ParsedSegment>)
    requires s != [] && t != [] && s[0].rule.parseAs == t[0].rule.parseAs
    requires SegmentSame(s[0], t[0]) && SegmentsSame(s[1..], t[1..])
    ensures SegmentsSame(s, t)
  {
    forall k: nat | Comparable(s, t, k) ensures SegmentSame(s[k], t[k]) {
      if k > 0 { ComparableTail(s, t, k - 1); }
    }
  }

  lemma SameAtAndBehindFirst(s: seq<ParsedSegment>, t: seq<ParsedSegment>)
    requires s != [] && t != [] && s[0].rule.parseAs == t[0].rule.parseAs && SegmentsSame(s, t)
    ensures SegmentSame(s[0], t[0]) && SegmentsSame(s[1..], t[1..])
  {
    assert Comparable(s, t, 0);
    forall k: nat | Comparable(s[1..], t[1..], k) ensures SegmentSame(s[1..][k], t[1..][k]) {
      ComparableTail(s, t, k);
    }
  }

  /** The first segment decides unless it ties. */
  lemma FirstSegmentDecides(s: seq<ParsedSegment>, t: seq<ParsedSegment>)
    requires s != [] && t != [] && s[0].rule.parseAs == t[0].rule.parseAs
    ensures SegmentsOlder(s, t) <==>
            SegmentOlder(s[0], t[0]) || (SegmentSame(s[0], t[0]) && SegmentsOlder(s[1..], t[1..]))
    ensures SegmentsSame(s, t) <==> SegmentSame(s[0], t[0]) && SegmentsSame(s[1..], t[1..])
  {
    if SegmentsOlder(s, t) { OlderAtOrBehindFirst(s, t); }
    if SegmentOlder(s[0], t[0]) { assert Comparable(s, t, 0); }
    if SegmentSame(s[0], t[0]) && SegmentsOlder(s[1..], t[1..]) { OlderBehindFirst(s, t); }
    if SegmentsSame(s, t) { SameAtAndBehindFirst(s, t); }
    if SegmentSame(s[0], t[0]) && SegmentsSame(s[1..], t[1..]) { SameBehindFirst(s, t); }
  }

  lemma {:induction false} SegmentListsMeaning(s: seq<ParsedSegment>, t: seq<ParsedSegment>)
    ensures CompareSegmentLists(s, t) < 0 <==> SegmentsOlder(s, t)
    ensures CompareSegmentLists(s, t) == 0 <==> SegmentsSame(s, t)
    decreases s, 0
  {
    if s != [] && t != [] && s[0].rule.parseAs == t[0].rule.parseAs {
      SegmentMeaning(s[0], t[0]);
      SegmentListsMeaning(s[1..], t[1..]);
      FirstSegmentDecides(s, t);
    } else {
      assert forall k: nat :: Comparable(s, t, k) ==> s[0].rule.parseAs == t[0].rule.parseAs;
    }
  }

  /** The comparator is negative exactly if the first version is older, and zero exactly if neither is. */
  lemma {:induction false} CompareMeaning(a: ParsedVersion, b: ParsedVersion)
    ensures CompareVersions(a, b) < 0 <==> Older(a, b)
    ensures CompareVersions(a, b) == 0 <==> Same(a, b)
    decreases a, 1
  {
    SegmentListsMeaning(a.segments, b.segments);
    QualifierMeaning(a, b);
    PlainMeaning(a, b);
  }
}
