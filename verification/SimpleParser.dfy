/** parseSimpleVersion, its four patterns, the printed form it inverts, and IsPreRelease. */
module SimpleParser {
  import opened Common
  import opened Strings
  import opened Versions

  // ---------- the four patterns, as languages ----------

  /** ^(\d+)w(\d+)([a-z])$ with its captures. */
  predicate IsWeekly(raw: string, year: string, week: string, build: char) {
    IsNumeral(year) && IsNumeral(week) && 'a' <= build <= 'z' && raw == year + "w" + week + [build]
  }

  /** (?i)^([\d.]+)-snapshot-(\d+)$ with its captures. */
  predicate IsDashSnapshot(raw: string, number: string, word: string, build: string) {
    IsDotted(number) && FoldsTo(word, "snapshot") && IsNumeral(build) && raw == number + "-" + word + "-" + build
  }

  /** (?i)^([\d.]+)-(pre|rc)[-.]?(\d+)$ with its captures. */
  predicate IsQualified(raw: string, number: string, word: string, sep: string, build: string) {
    IsDotted(number) && IsQualifier(word + sep + build, word, sep, build) && raw == number + "-" + (word + sep + build)
  }

  predicate IsQualifier(tail: string, word: string, sep: string, build: string) {
    && (FoldsTo(word, "pre") || FoldsTo(word, "rc"))
    && (sep == "" || sep == "-" || sep == ".") && IsNumeral(build)
    && tail == word + sep + build
  }

  // ---------- finding the captures ----------

  function FindWeekly(raw: string): (m: Option<(string, string, char)>)
    ensures m.Some? ==> IsWeekly(raw, m.value.0, m.value.1, m.value.2)
  {
    var i := IndexOf(raw, 'w');
    if |raw| < i + 3 then None
    else
      var year, week, build := raw[..i], raw[i + 1..|raw| - 1], raw[|raw| - 1];
      if IsNumeral(year) && IsNumeral(week) && 'a' <= build <= 'z' then
        assert raw == year + "w" + week + [build];
        Some((year, week, build))
      else None
  }

  lemma FindWeeklyComplete(raw: string, year: string, week: string, build: char)
    requires IsWeekly(raw, year, week, build)
    ensures FindWeekly(raw) == Some((year, week, build))
  {
    assert raw == year + ['w'] + (week + [build]);
    IndexOfSplit(year, 'w', week + [build]);
    assert raw[..|year|] == year && raw[|year| + 1..|raw| - 1] == week;
  }

  /** Splits at the first hyphen. */
  function Hyphen(raw: string): nat {
    IndexOf(raw, '-')
  }

  lemma HyphenAfterDotted(number: string, tail: string)
    requires IsDotted(number)
    ensures Hyphen(number + "-" + tail) == |number|
    ensures (number + "-" + tail)[..|number|] == number
    ensures (number + "-" + tail)[|number| + 1..] == tail
  {
    IndexOfSplit(number, '-', tail);
  }

  function FindDashSnapshot(raw: string): (m: Option<(string, string)>)
    ensures m.Some? ==> exists word :: IsDashSnapshot(raw, m.value.0, word, m.value.1)
  {
    var i := Hyphen(raw);
    if |raw| < i + 10 then None
    else
      var number, word, dash, build := raw[..i], raw[i + 1..i + 9], raw[i + 9], raw[i + 10..];
      if IsDotted(number) && FoldsTo(word, "snapshot") && dash == '-' && IsNumeral(build) then
        assert raw == number + "-" + word + "-" + build;
        assert IsDashSnapshot(raw, number, word, build);
        Some((number, build))
      else None
  }

  lemma FindDashSnapshotComplete(raw: string, number: string, word: string, build: string)
    requires IsDashSnapshot(raw, number, word, build)
    ensures FindDashSnapshot(raw) == Some((number, build))
  {
    assert raw == number + "-" + (word + "-" + build);
    HyphenAfterDotted(number, word + "-" + build);
    var i := |number|;
    assert raw[i + 1..i + 9] == word && raw[i + 9] == '-' && raw[i + 10..] == build;
  }

  /** The separator that [-.]? takes in front of a numeral. */
  function Separator(s: string): string {
    if s != "" && (s[0] == '-' || s[0] == '.') then s[..1] else ""
  }

  /** What follows the hyphen: a qualifier word, an optional separator and a numeral. */
  function FindQualifier(tail: string): (m: Option<(Qualifier, string)>)
    ensures m.Some? ==>
      exists word, sep :: IsQualifier(tail, word, sep, m.value.1)
                          && m.value.0 == (if FoldsTo(word, "pre") then Pre else RC)
  {
    var width := WordLength(tail);
    if width == 0 then None
    else
      var word := tail[..width];
      var sep := Separator(tail[width..]);
      var build := tail[width + |sep|..];
      if !IsNumeral(build) then None
      else
        assert IsQualifier(tail, word, sep, build);
        Some((if width == 3 then Pre else RC, build))
  }

  lemma FindQualifierComplete(word: string, sep: string, build: string)
    requires FoldsTo(word, "pre") || FoldsTo(word, "rc")
    requires (sep == "" || sep == "-" || sep == ".") && IsNumeral(build)
    ensures FindQualifier(word + sep + build) == Some((if FoldsTo(word, "pre") then Pre else RC, build))
  {
    var tail := word + sep + build;
    assert tail == word + (sep + build);
    WordWidth(word, sep + build);
    SeparatorFound(sep, build);
    assert tail[|word|..] == sep + build;
    assert tail[|word| + |sep|..] == build;
  }

  function FindQualified(raw: string): (m: Option<(string, Qualifier, string)>)
    ensures m.Some? ==>
      && Hyphen(raw) < |raw| && m.value.0 == raw[..Hyphen(raw)] && IsDotted(m.value.0)
      && FindQualifier(raw[Hyphen(raw) + 1..]) == Some((m.value.1, m.value.2))
  {
    var i := Hyphen(raw);
    if i == |raw| || !IsDotted(raw[..i]) then None
    else
      match FindQualifier(raw[i + 1..])
      case Some((q, build)) => Some((raw[..i], q, build))
      case None => None
  }

  lemma FindQualifiedSound(raw: string)
    requires FindQualified(raw).Some?
    ensures
      var (number, q, build) := FindQualified(raw).value;
      exists word, sep :: IsQualified(raw, number, word, sep, build) && q == (if FoldsTo(word, "pre") then Pre else RC)
  {
    var (number, q, build) := FindQualified(raw).value;
    var tail := raw[Hyphen(raw) + 1..];
    var word, sep :| IsQualifier(tail, word, sep, build) && q == (if FoldsTo(word, "pre") then Pre else RC);
    assert raw == number + "-" + tail;
    assert IsQualified(raw, number, word, sep, build);
  }

  lemma FindQualifiedComplete(raw: string, number: string, word: string, sep: string, build: string)
    requires IsQualified(raw, number, word, sep, build)
    ensures FindQualified(raw) == Some((number, if FoldsTo(word, "pre") then Pre else RC, build))
  {
    var tail := word + sep + build;
    assert raw == number + "-" + tail;
    HyphenAfterDotted(number, tail);
    FindQualifierComplete(word, sep, build);
  }

  /** Length of the qualifier word a tail starts with. */
  function WordLength(tail: string): nat {
    if |tail| >= 3 && FoldsTo(tail[..3], "pre") then 3
    else if |tail| >= 2 && FoldsTo(tail[..2], "rc") then 2
    else 0
  }

  lemma WordWidth(word: string, rest: string)
    requires FoldsTo(word, "pre") || FoldsTo(word, "rc")
    ensures WordLength(word + rest) == |word|
    ensures (word + rest)[..|word|] == word
  {
    var tail := word + rest;
    assert tail[..|word|] == word;
    assert tail[0] == word[0];
    assert |tail| >= 3 ==> tail[..3][0] == word[0];
  }

  lemma SeparatorFound(sep: string, build: string)
    requires (sep == "" || sep == "-" || sep == ".") && IsNumeral(build)
    ensures Separator(sep + build) == sep
  {
    assert sep == "" ==> sep + build == build && IsDigit(build[0]);
  }

  // ---------- parsing ----------

  /** A part that is no number, or no 64-bit number, is left out. */
  function IntOf(part: string): seq<int> {
    if Atoi(part).1 then [Atoi(part).0] else []
  }

  function DottedInts(parts: seq<string>): seq<int> {
    if parts == [] then [] else IntOf(parts[0]) + DottedInts(parts[1..])
  }

  function Plain(raw: string): ParsedVersion {
    ParsedVersion(raw, [], Release, 0, None, false, "", 0, [], 0)
  }

  function Numbered(raw: string, number: string, q: Qualifier, build: string): ParsedVersion {
    Plain(raw).(primary := DottedInts(Split(number, '.')), qualifier := q, qualifierNum := Atoi(build).0)
  }

  function SimpleVersion(raw: string): (v: ParsedVersion)
    ensures v.segments == [] && v.raw == raw && v.manifestOrder == 0 && !v.isComposite
  {
    match FindWeekly(raw)
    case Some((year, week, build)) =>
      Plain(raw).(weekly := Some(WeeklySnapshot(Atoi(year).0, Atoi(week).0, build)))
    case None =>
      match FindDashSnapshot(raw)
      case Some((number, build)) => Numbered(raw, number, Snapshot, build)
      case None =>
        match FindQualified(raw)
        case Some((number, q, build)) => Numbered(raw, number, q, build)
        case None =>
          if IsDotted(raw) then Numbered(raw, raw, Release, "")
          else if 0 < Hyphen(raw) < |raw| then Numbered(raw, raw[..Hyphen(raw)], Snapshot, "")
          else Plain(raw)
  }

  lemma {:induction false} DottedIntsSnoc(parts: seq<string>, p: string)
    ensures DottedInts(parts + [p]) == DottedInts(parts) + IntOf(p)
  {
    if parts == [] {
      assert [p][1..] == [];
    } else {
      assert (parts + [p])[0] == parts[0] && (parts + [p])[1..] == parts[1..] + [p];
      DottedIntsSnoc(parts[1..], p);
    }
  }

  method ParseDottedInts(s: string) returns (result: seq<int>)
    ensures result == DottedInts(Split(s, '.'))
  {
    var parts := Split(s, '.');
    result := [];
    for i := 0 to |parts|
      invariant result == DottedInts(parts[..i])
    {
      DottedIntsSnoc(parts[..i], parts[i]);
      assert parts[..i + 1] == parts[..i] + [parts[i]];
      var (n, ok) := Atoi(parts[i]);
      if !ok { continue; }
      result := result + [n];
    }
    assert parts[..|parts|] == parts;
  }

  method ParseSimpleVersion(raw: string) returns (pv: ParsedVersion)
    ensures pv == SimpleVersion(raw)
  {
    pv := Plain(raw);
    var weekly := FindWeekly(raw);
    if weekly.Some? {
      var (y, w, build) := weekly.value;
      pv := pv.(weekly := Some(WeeklySnapshot(Atoi(y).0, Atoi(w).0, build)));
      return;
    }
    var snapshot := FindDashSnapshot(raw);
    if snapshot.Some? {
      var primary := ParseDottedInts(snapshot.value.0);
      pv := pv.(primary := primary, qualifier := Snapshot, qualifierNum := Atoi(snapshot.value.1).0);
      return;
    }
    var qualified := FindQualified(raw);
    if qualified.Some? {
      var primary := ParseDottedInts(qualified.value.0);
      pv := pv.(primary := primary, qualifier := qualified.value.1, qualifierNum := Atoi(qualified.value.2).0);
      return;
    }
    if IsDotted(raw) {
      var primary := ParseDottedInts(raw);
      pv := pv.(primary := primary);
      return;
    }
    var idx := Hyphen(raw);
    if 0 < idx < |raw| {
      var primary := ParseDottedInts(raw[..idx]);
      pv := pv.(primary := primary, qualifier := Snapshot);
    }
  }

  // ---------- the patterns exclude one another ----------

  predicate MatchesWeekly(raw: string) { FindWeekly(raw).Some? }
  predicate MatchesDashSnapshot(raw: string) { FindDashSnapshot(raw).Some? }
  predicate MatchesQualified(raw: string) { FindQualified(raw).Some? }
  predicate MatchesPure(raw: string) { IsDotted(raw) }

  lemma PatternsExclusive(raw: string)
    ensures MatchesWeekly(raw) ==> !MatchesDashSnapshot(raw) && !MatchesQualified(raw) && !MatchesPure(raw)
    ensures MatchesDashSnapshot(raw) ==> !MatchesQualified(raw) && !MatchesPure(raw)
    ensures MatchesQualified(raw) ==> !MatchesPure(raw)
  {
    if MatchesWeekly(raw) {
      WeeklyHasNoHyphen(raw);
      var (year, _, _) := FindWeekly(raw).value;
      assert raw[|year|] == 'w';
    }
    if MatchesDashSnapshot(raw) && MatchesQualified(raw) {
      HyphenWordInitial(raw);
      assert false;
    }
  }

  /** The letter behind the hyphen tells the two hyphenated patterns apart. */
  lemma HyphenWordInitial(raw: string)
    requires Hyphen(raw) + 1 < |raw|
    ensures
      var c := raw[Hyphen(raw) + 1];
      && (MatchesDashSnapshot(raw) ==> c in {'s', 'S', '\U{017F}'})
      && (MatchesQualified(raw) ==> c in {'p', 'P', 'r', 'R'})
  {
    var i := Hyphen(raw);
    if MatchesDashSnapshot(raw) {
      var word := raw[i + 1..i + 9];
      assert FoldsTo(word, "snapshot") && word[0] == raw[i + 1];
    }
    if MatchesQualified(raw) {
      var tail := raw[i + 1..];
      assert tail[0] == raw[i + 1];
      assert tail[..WordLength(tail)][0] == tail[0];
    }
  }

  lemma WeeklyHasNoHyphen(raw: string)
    requires MatchesWeekly(raw)
    ensures '-' !in raw
  {
    var (year, week, build) := FindWeekly(raw).value;
    forall c | c in raw ensures c != '-' {
      assert c in year || c == 'w' || c in week || c == build;
    }
  }

  // ---------- round trip ----------

  function Numerals(components: seq<nat>): (s: seq<string>)
    ensures |s| == |components|
    ensures forall i :: 0 <= i < |s| ==> IsNumeral(s[i])
  {
    seq(|components|, i requires 0 <= i < |components| => Itoa(components[i]))
  }

  function PrintNumber(components: seq<nat>): string
    requires components != []
  {
    Join(Numerals(components), '.')
  }

  /** The spelling Minecraft uses: 1.21.10, 1.21.10-pre1, 1.17-rc1, 26.1-snapshot-6. */
  function PrintVersion(components: seq<nat>, q: Qualifier, num: nat): string
    requires components != []
  {
    PrintNumber(components) + match q
                              case Release => ""
                              case Pre => "-" + "pre" + "" + Itoa(num)
                              case RC => "-" + "rc" + "" + Itoa(num)
                              case Snapshot => "-" + "snapshot" + "-" + Itoa(num)
  }

  predicate InRange(components: seq<nat>) {
    forall i :: 0 <= i < |components| ==> components[i] <= MAX_INT
  }

  lemma {:induction false} JoinDotted(parts: seq<string>)
    requires |parts| >= 1 && forall i :: 0 <= i < |parts| ==> IsNumeral(parts[i])
    ensures IsDotted(Join(parts, '.'))
  {
    if |parts| > 1 {
      JoinDotted(parts[1..]);
    }
  }

  lemma {:induction false} DottedIntsNumerals(components: seq<nat>)
    requires InRange(components)
    ensures DottedInts(Numerals(components)) == components
  {
    if components != [] {
      AtoiItoa(components[0]);
      assert Numerals(components)[1..] == Numerals(components[1..]);
      DottedIntsNumerals(components[1..]);
    }
  }

  lemma PrintNumberParses(components: seq<nat>)
    requires components != [] && InRange(components)
    ensures IsDotted(PrintNumber(components))
    ensures DottedInts(Split(PrintNumber(components), '.')) == components
  {
    JoinDotted(Numerals(components));
    forall i | 0 <= i < |components| ensures '.' !in Numerals(components)[i] {
      assert IsNumeral(Numerals(components)[i]);
    }
    SplitJoin(Numerals(components), '.');
    DottedIntsNumerals(components);
  }

  /** Parsing a printed version recovers its components, qualifier and number. */
  lemma ParsePrint(components: seq<nat>, q: Qualifier, num: nat)
    requires components != [] && InRange(components) && num <= MAX_INT
    ensures
      var v := SimpleVersion(PrintVersion(components, q, num));
      && v.primary == components && v.qualifier == q && v.weekly.None?
      && v.qualifierNum == if q.Release? then 0 else num
  {
    var raw, number := PrintVersion(components, q, num), PrintNumber(components);
    PrintNumberParses(components);
    AtoiItoa(num);
    AtoiItoa(0);
    PatternsExclusive(raw);
    match q
    case Release => assert raw == number;
    case Pre => PrintedQualified(number, "pre", num);
    case RC => PrintedQualified(number, "rc", num);
    case Snapshot => PrintedSnapshot(number, num);
  }

  lemma PrintedQualified(number: string, word: string, num: nat)
    requires IsDotted(number) && (word == "pre" || word == "rc")
    ensures FindQualified(number + ("-" + word + "" + Itoa(num))) ==
            Some((number, if word == "pre" then Pre else RC, Itoa(num)))
  {
    var raw := number + ("-" + word + "" + Itoa(num));
    assert raw == number + "-" + word + "" + Itoa(num);
    FoldsToSelf(word, "pre");
    FoldsToSelf(word, "rc");
    FindQualifiedComplete(raw, number, word, "", Itoa(num));
  }

  lemma FoldsToSelf(word: string, pattern: string)
    requires (word == "pre" || word == "rc") && (pattern == "pre" || pattern == "rc")
    ensures FoldsTo(word, pattern) <==> word == pattern
  {
  }

  lemma PrintedSnapshot(number: string, num: nat)
    requires IsDotted(number)
    ensures FindDashSnapshot(number + ("-" + "snapshot" + "-" + Itoa(num))) == Some((number, Itoa(num)))
  {
    var raw := number + ("-" + "snapshot" + "-" + Itoa(num));
    assert raw == number + "-" + "snapshot" + "-" + Itoa(num);
    FindDashSnapshotComplete(raw, number, "snapshot", Itoa(num));
  }

  lemma ParsePrintWeekly(year: nat, week: nat, build: char)
    requires year <= MAX_INT && week <= MAX_INT && 'a' <= build <= 'z'
    ensures SimpleVersion(Itoa(year) + "w" + Itoa(week) + [build]).weekly == Some(WeeklySnapshot(year, week, build))
  {
    AtoiItoa(year);
    AtoiItoa(week);
    FindWeeklyComplete(Itoa(year) + "w" + Itoa(week) + [build], Itoa(year), Itoa(week), build);
  }

  // ---------- the pre-release test of the frontend ----------

  predicate IsPreRelease(version: string) {
    '-' in version || MatchesWeekly(version)
  }

  /** The frontend hides exactly what the parser does not call a plain release, unless the string starts with
      a hyphen. */
  lemma PreReleaseAgreement(raw: string)
    ensures (IsPreRelease(raw) <==> (SimpleVersion(raw).weekly.Some? || !SimpleVersion(raw).qualifier.Release?))
       <==> !(raw != "" && raw[0] == '-')
  {
    PatternsExclusive(raw);
    if FindQualified(raw).Some? || FindDashSnapshot(raw).Some? {
      assert raw[Hyphen(raw)] == '-';
      assert raw[..Hyphen(raw)] != "";
    }
    assert IsDotted(raw) ==> '-' !in raw;
    if MatchesWeekly(raw) {
      WeeklyHasNoHyphen(raw);
    }
  }
}
