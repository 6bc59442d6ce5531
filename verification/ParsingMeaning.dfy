/** What parsing reads out of a string: every form of a simple version, the qualifier words of a schema,
    and the values of captured segments. */
module ParsingMeaning {
  import opened Common
  import opened Strings
  import opened Versions
  import opened SimpleParser
  import opened SchemaParser

  // ---------- numbers ----------

  /** A sign is accepted; a numeral out of the 64-bit range gives the nearest bound and an error. */
  lemma AtoiForms(n: int)
    requires n >= 0
    ensures Atoi(Itoa(n)) == if n <= MAX_INT then (n, true) else (MAX_INT, false)
    ensures Atoi("+" + Itoa(n)) == Atoi(Itoa(n))
    ensures Atoi("-" + Itoa(n)).0 == (if n <= MAX_INT + 1 then -n else -MAX_INT - 1)
    ensures Atoi("-" + Itoa(n)).1 <==> n <= MAX_INT + 1
  {
    assert IsDigit(Itoa(n)[0]);
    assert ("+" + Itoa(n))[1..] == Itoa(n) && ("-" + Itoa(n))[1..] == Itoa(n);
  }

  /** What is not a numeral behind an optional sign is no number. */
  lemma AtoiRejects(s: string)
    requires !IsNumeral(s) && (s == "" || (s[0] != '+' && s[0] != '-') || !IsNumeral(s[1..]))
    ensures Atoi(s) == (0, false)
  {
  }

  lemma {:induction false} LeadingZero(s: string)
    requires AllDigits(s)
    ensures AllDigits("0" + s) && NumeralValue("0" + s) == NumeralValue(s)
  {
    if s != "" {
      assert ("0" + s)[..|s|] == "0" + s[..|s| - 1];
      LeadingZero(s[..|s| - 1]);
    } else {
      assert ("0" + s)[..0] == "";
    }
  }

  /** The parts between dots are read one by one: a number in range is kept, and anything else is left out. */
  lemma {:induction false} PartsRead(parts: seq<string>, more: seq<string>, part: string)
    ensures DottedInts(parts + more) == DottedInts(parts) + DottedInts(more)
    ensures DottedInts([part]) == if Atoi(part).1 then [Atoi(part).0] else []
  {
    assert [part][1..] == [];
    if parts == [] {
      assert parts + more == more;
    } else {
      assert (parts + more)[0] == parts[0] && (parts + more)[1..] == parts[1..] + more;
      PartsRead(parts[1..], more, part);
    }
  }

  /** A word of the patterns is matched in any letter case. */
  lemma FoldsIffUpper(s: string, word: string)
    requires forall i :: 0 <= i < |word| ==> 'a' <= word[i] <= 'z' && word[i] != 'i'
    ensures FoldsTo(s, word) <==> Upper(s) == Upper(word)
  {
    if |s| == |word| {
      assert forall i :: 0 <= i < |s| ==> Upper(s)[i] == UpperChar(s[i]) && Upper(word)[i] == UpperChar(word[i]);
    }
  }

  // ---------- the forms of a simple version ----------

  /** Numbers of the parts between dots that are 64-bit numbers, a qualifier and its number; no weekly snapshot. */
  predicate Reads(v: ParsedVersion, number: string, q: Qualifier, num: int) {
    v.weekly.None? && v.primary == DottedInts(Split(number, '.')) && v.qualifier == q && v.qualifierNum == num
  }

  lemma WeeklyForm(raw: string, year: string, week: string, build: char)
    requires IsWeekly(raw, year, week, build)
    ensures SimpleVersion(raw).weekly == Some(WeeklySnapshot(Atoi(year).0, Atoi(week).0, build))
    ensures SimpleVersion(raw).primary == [] && SimpleVersion(raw).qualifier == Release
    ensures SimpleVersion(raw).qualifierNum == 0
  {
    FindWeeklyComplete(raw, year, week, build);
  }

  lemma DashSnapshotForm(raw: string, number: string, word: string, build: string)
    requires IsDashSnapshot(raw, number, word, build)
    ensures Reads(SimpleVersion(raw), number, Snapshot, Atoi(build).0)
  {
    FindDashSnapshotComplete(raw, number, word, build);
    PatternsExclusive(raw);
  }

  lemma QualifiedForm(raw: string, number: string, word: string, sep: string, build: string)
    requires IsQualified(raw, number, word, sep, build)
    ensures Reads(SimpleVersion(raw), number, if FoldsTo(word, "pre") then Pre else RC, Atoi(build).0)
  {
    FindQualifiedComplete(raw, number, word, sep, build);
    PatternsExclusive(raw);
  }

  lemma DottedForm(raw: string)
    requires IsDotted(raw)
    ensures Reads(SimpleVersion(raw), raw, Release, 0)
  {
    PatternsExclusive(raw);
    AtoiItoa(0);
  }

  /** Anything else with a hyphen behind the first character is a snapshot of the number in front of it. */
  lemma FallbackForm(raw: string, number: string, tail: string)
    requires raw == number + "-" + tail && number != "" && '-' !in number
    requires !MatchesWeekly(raw) && !MatchesDashSnapshot(raw) && !MatchesQualified(raw)
    ensures Reads(SimpleVersion(raw), number, Snapshot, 0)
  {
    assert raw == number + ['-'] + tail;
    IndexOfSplit(number, '-', tail);
    assert raw[|number|] == '-' && raw[..|number|] == number;
  }

  /** What has no hyphen there either is a release without components. */
  lemma UnreadableForm(raw: string)
    requires !MatchesWeekly(raw) && !IsDotted(raw) && ('-' !in raw || raw[0] == '-')
    ensures SimpleVersion(raw).primary == [] && SimpleVersion(raw).qualifier == Release
    ensures SimpleVersion(raw).weekly.None? && SimpleVersion(raw).qualifierNum == 0
  {
    assert Hyphen(raw) == 0 || Hyphen(raw) == |raw|;
    if Hyphen(raw) == 0 { assert raw[..0] == ""; }
  }

  // ---------- the qualifier of a schema ----------

  /** s spells the upper-case word, in letters of either case; the long s and the dotless i count as s and i. */
  predicate Spells(s: string, word: string) {
    |s| == |word| && forall i :: 0 <= i < |s| ==>
      || (s[i] == word[i] && !('a' <= s[i] <= 'z'))
      || ('a' <= s[i] <= 'z' && s[i] as int - 'a' as int == word[i] as int - 'A' as int)
      || (s[i] == '\U{017F}' && word[i] == 'S')
      || (s[i] == '\U{0131}' && word[i] == 'I')
  }

  lemma UpperSpells(s: string, word: string)
    requires forall i :: 0 <= i < |word| ==> 'A' <= word[i] <= 'Z'
    ensures Upper(s) == word <==> Spells(s, word)
  {
    if |s| == |word| {
      forall i | 0 <= i < |s| ensures Upper(s)[i] == UpperChar(s[i]) {}
      if Spells(s, word) {
        assert forall i :: 0 <= i < |s| ==> Upper(s)[i] == word[i];
      }
    }
  }

  /** A schema calls rc and beta a release candidate, pre a pre-release, dev and snapshot a snapshot,
      and everything else, or no qualifier at all, a release. */
  lemma QualifierGroup(groups: map<string, string>)
    ensures "qualifier" !in groups ==> QualifierOf(groups) == Release
    ensures "qualifier" in groups ==>
      var q := groups["qualifier"];
      && (QualifierOf(groups) == RC <==> Spells(q, "RC") || Spells(q, "BETA"))
      && (QualifierOf(groups) == Pre <==> Spells(q, "PRE"))
      && (QualifierOf(groups) == Snapshot <==> Spells(q, "DEV") || Spells(q, "SNAPSHOT"))
  {
    if "qualifier" in groups {
      var q := groups["qualifier"];
      UpperSpells(q, "RC");
      UpperSpells(q, "BETA");
      UpperSpells(q, "PRE");
      UpperSpells(q, "DEV");
      UpperSpells(q, "SNAPSHOT");
    }
  }

  // ---------- segments ----------

  /** The rules whose group captured something, in their order. */
  function CapturedRules(rules: seq<SegmentRule>, groups: map<string, string>): seq<SegmentRule> {
    if rules == [] then []
    else (if rules[0].name in groups then [rules[0]] else []) + CapturedRules(rules[1..], groups)
  }

  /** The value of a segment, by the kind of its rule. */
  predicate ValueOf(seg: ParsedSegment, raw: string) {
    && seg.raw == raw
    && (seg.rule.parseAs == Minecraft ==> seg.version == Some(SimpleVersion(raw)))
    && (seg.rule.parseAs == Dotted ==> seg.ints == DottedInts(Split(raw, '.')))
    && (seg.rule.parseAs == Integer ==> seg.intValue == Atoi(raw).0)
    && (seg.rule.parseAs != Minecraft ==> seg.version == None)
  }

  /** There is one segment for each captured rule, in the order of the rules, with the value of what it captured. */
  lemma {:induction false} SegmentsRead(rules: seq<SegmentRule>, groups: map<string, string>)
    ensures
      var segments, captured := Segments(rules, groups), CapturedRules(rules, groups);
      && |segments| == |captured|
      && forall i :: 0 <= i < |segments| ==>
           && segments[i].rule == captured[i] && captured[i].name in groups
           && ValueOf(segments[i], groups[captured[i].name])
  {
    if rules != [] {
      SegmentsRead(rules[1..], groups);
    }
  }
}
