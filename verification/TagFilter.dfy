/** Filtering versions by tags: the OR / GROUP BY / HAVING form, its COUNT form and the EXISTS-per-tag form,
    and what the dot-boundary LIKE of all three means. */
module TagFilter {
  import opened Common
  import opened Strings

  datatype Tag = Tag(versionID: int, key: string, value: string)

  /** SQL LIKE with the default escape character. */
  predicate Like(s: string, pattern: string)
    decreases |s| + |pattern|
  {
    if pattern == "" then s == ""
    else if pattern[0] == '%' then Like(s, pattern[1..]) || (s != "" && Like(s[1..], pattern))
    else if pattern[0] == '_' then s != "" && Like(s[1..], pattern[1..])
    else if pattern[0] == '\\' then
      |pattern| > 1 && s != "" && s[0] == pattern[1] && Like(s[1..], pattern[2..])
    else s != "" && s[0] == pattern[0] && Like(s[1..], pattern[1..])
  }

  /** tag_value = $v OR tag_value LIKE $v || '.%'. */
  predicate Matches(tagValue: string, value: string) {
    tagValue == value || Like(tagValue, value + ".%")
  }

  // ---------- the forms ----------

  predicate TagHit(t: Tag, id: int, tags: map<string, string>) {
    t.versionID == id && t.key in tags && Matches(t.value, tags[t.key])
  }

  /** COUNT(DISTINCT tag_key) of the rows that hit some filter. */
  function DistinctKeys(rows: set<Tag>, id: int, tags: map<string, string>): set<string> {
    set t | t in rows && TagHit(t, id, tags) :: t.key
  }

  /** id IN (... GROUP BY ... HAVING COUNT(DISTINCT tag_key) = n); without tags the query has no such condition. */
  predicate PassesGrouped(rows: set<Tag>, id: int, tags: map<string, string>) {
    |tags| == 0 || (DistinctKeys(rows, id, tags) != {} && |DistinctKeys(rows, id, tags)| == |tags|)
  }

  /** One EXISTS per tag. */
  predicate PassesExists(rows: set<Tag>, id: int, tags: map<string, string>) {
    forall key :: key in tags ==> exists t :: t in rows && TagOf(t, id, key) && Matches(t.value, tags[key])
  }

  predicate TagOf(t: Tag, id: int, key: string) {
    t.versionID == id && t.key == key
  }

  /** The grouped and the EXISTS filter select the same versions, for every tag table and every filter. */
  lemma FiltersAgree(rows: set<Tag>, id: int, tags: map<string, string>)
    ensures PassesGrouped(rows, id, tags) <==> PassesExists(rows, id, tags)
  {
    var keys := DistinctKeys(rows, id, tags);
    assert keys <= tags.Keys;
    if PassesExists(rows, id, tags) {
      forall key | key in tags ensures key in keys {
        var t :| t in rows && TagOf(t, id, key) && Matches(t.value, tags[key]);
        assert TagHit(t, id, tags);
      }
      assert keys == tags.Keys;
    }
    if PassesGrouped(rows, id, tags) {
      if |tags| == 0 {
        assert tags.Keys == {};
      } else {
        SubsetSize(keys, tags.Keys);
        forall key | key in tags ensures exists t :: t in rows && TagOf(t, id, key) && Matches(t.value, tags[key]) {
          assert key in keys;
          var t :| t in rows && TagHit(t, id, tags) && t.key == key;
          assert TagOf(t, id, key);
        }
      }
    }
  }

  // ---------- pages and totals ----------

  /** The columns of a version row that the list queries filter and order by. */
  datatype Version = Version(id: int, recommended: bool, sortOrder: int)

  function Selected(table: set<Version>, recommended: Option<bool>, passes: int -> bool): set<Version> {
    set v | v in table && (recommended.Some? ==> v.recommended == recommended.value) && passes(v.id)
  }

  /** ORDER BY sort_order DESC: the rows in some descending order, ties in any order. */
  ghost predicate IsResult(rows: set<Version>, list: seq<Version>) {
    && Distinct(list) && Elems(list) == rows
    && forall i, j :: 0 <= i < j < |list| ==> list[i].sortOrder >= list[j].sortOrder
  }

  function Page(list: seq<Version>, limit: nat, offset: nat): seq<Version> {
    list[Min(offset, |list|)..Min(offset + limit, |list|)]
  }

  function Grouped(rows: set<Tag>, tags: map<string, string>): int -> bool {
    id => PassesGrouped(rows, id, tags)
  }

  function Existing(rows: set<Tag>, tags: map<string, string>): int -> bool {
    id => PassesExists(rows, id, tags)
  }

  function CountVersionsFiltered(table: set<Version>, rows: set<Tag>, recommended: Option<bool>,
                                 tags: map<string, string>): nat {
    |Selected(table, recommended, Grouped(rows, tags))|
  }

  /** COUNT(*) OVER() is read from the rows of the page, so an empty page reports 0. */
  function WindowedTotal(list: seq<Version>, limit: nat, offset: nat): nat {
    if Page(list, limit, offset) == [] then 0 else |list|
  }

  /** However ties are resolved, a position holds a row of the same sort_order. */
  lemma SameOrderAt(rows: set<Version>, a: seq<Version>, b: seq<Version>, i: nat)
    requires IsResult(rows, a) && IsResult(rows, b) && i < |a| && i < |b|
    ensures a[i].sortOrder <= b[i].sortOrder
  {
    if a[i].sortOrder > b[i].sortOrder {
      var atLeast := set v | v in rows && v.sortOrder >= a[i].sortOrder;
      forall v | v in a[..i + 1] ensures v in atLeast { assert v in Elems(a); }
      forall v | v in atLeast ensures v in b[..i] {
        assert v in Elems(b);
        var k :| 0 <= k < |b| && b[k] == v;
        assert b[..i][k] == v;
      }
      DistinctSize(a[..i + 1]);
      DistinctSize(b[..i]);
      SubsetSize(Elems(a[..i + 1]), atLeast);
      SubsetSize(atLeast, Elems(b[..i]));
    }
  }

  ghost predicate Untied(rows: set<Version>) {
    forall v, w :: v in rows && w in rows && v.sortOrder == w.sortOrder ==> v == w
  }

  lemma ResultsAlign(rows: set<Version>, a: seq<Version>, b: seq<Version>)
    requires IsResult(rows, a) && IsResult(rows, b)
    ensures |a| == |b| == |rows| && forall i :: 0 <= i < |a| ==> a[i].sortOrder == b[i].sortOrder
    ensures Untied(rows) ==> a == b
  {
    DistinctSize(a);
    DistinctSize(b);
    forall i | 0 <= i < |a| ensures a[i].sortOrder == b[i].sortOrder && a[i] in rows && b[i] in rows {
      SameOrderAt(rows, a, b, i);
      SameOrderAt(rows, b, a, i);
      assert a[i] in Elems(a) && b[i] in Elems(b);
    }
  }

  /** Every set of rows can be listed. */
  lemma {:induction false} HasResult(rows: set<Version>) returns (list: seq<Version>)
    ensures IsResult(rows, list)
  {
    if rows == {} {
      list := [];
    } else {
      var v :| v in rows;
      var rest := HasResult(rows - {v});
      list := InsertRow(rows - {v}, rest, v);
      assert rows - {v} + {v} == rows;
    }
  }

  lemma InsertRow(rows: set<Version>, list: seq<Version>, v: Version) returns (longer: seq<Version>)
    requires IsResult(rows, list) && v !in rows
    ensures IsResult(rows + {v}, longer)
  {
    var i := 0;
    while i < |list| && list[i].sortOrder >= v.sortOrder
      invariant 0 <= i <= |list| && forall k :: 0 <= k < i ==> list[k].sortOrder >= v.sortOrder
    {
      i := i + 1;
    }
    longer := list[..i] + [v] + list[i..];
    InsertedMembers(list, v, i);
    assert v !in Elems(list);
  }

  lemma InsertedMembers(list: seq<Version>, v: Version, i: nat)
    requires i <= |list| && Distinct(list) && v !in list
    ensures Elems(list[..i] + [v] + list[i..]) == Elems(list) + {v} && Distinct(list[..i] + [v] + list[i..])
  {
    assert list == list[..i] + list[i..];
  }

  /** The order of the rows is settled exactly when no two of them share a sort_order. */
  lemma ResultUniqueIff(rows: set<Version>)
    ensures (forall a, b :: IsResult(rows, a) && IsResult(rows, b) ==> a == b) <==> Untied(rows)
  {
    if Untied(rows) {
      forall a, b | IsResult(rows, a) && IsResult(rows, b) ensures a == b { ResultsAlign(rows, a, b); }
    } else {
      var v, w :| v in rows && w in rows && v.sortOrder == w.sortOrder && v != w;
      var a := HasResult(rows);
      assert v in Elems(a) && w in Elems(a);
      var i :| 0 <= i < |a| && a[i] == v;
      var j :| 0 <= j < |a| && a[j] == w;
      var b := Swapped(a, i, j);
      SwappedResult(rows, a, i, j);
      assert b[i] == w;
    }
  }

  function Swapped(a: seq<Version>, i: nat, j: nat): (b: seq<Version>)
    requires i < |a| && j < |a|
    ensures |b| == |a|
    ensures forall k :: 0 <= k < |a| ==> b[k] == a[if k == i then j else if k == j then i else k]
  {
    a[i := a[j]][j := a[i]]
  }

  lemma SwappedMembers(a: seq<Version>, i: nat, j: nat)
    requires i < |a| && j < |a| && Distinct(a)
    ensures Distinct(Swapped(a, i, j)) && Elems(Swapped(a, i, j)) == Elems(a)
  {
    var b := Swapped(a, i, j);
    forall v | v in a ensures v in b {
      var k :| 0 <= k < |a| && a[k] == v;
      assert b[if k == i then j else if k == j then i else k] == v;
    }
  }

  lemma SwappedResult(rows: set<Version>, a: seq<Version>, i: nat, j: nat)
    requires IsResult(rows, a) && i < |a| && j < |a| && a[i].sortOrder == a[j].sortOrder
    ensures IsResult(rows, Swapped(a, i, j))
  {
    var b := Swapped(a, i, j);
    SwappedMembers(a, i, j);
    assert forall k :: 0 <= k < |a| ==> b[k].sortOrder == a[k].sortOrder;
  }

  lemma SelectionsAgree(table: set<Version>, rows: set<Tag>, recommended: Option<bool>, tags: map<string, string>)
    ensures Selected(table, recommended, Grouped(rows, tags)) == Selected(table, recommended, Existing(rows, tags))
  {
    forall v | v in table ensures Grouped(rows, tags)(v.id) == Existing(rows, tags)(v.id) {
      FiltersAgree(rows, v.id, tags);
    }
  }

  /** A page begins at its offset and has as many rows as the limit allows and the list has. */
  lemma PageIs(list: seq<Version>, limit: nat, offset: nat)
    ensures |Page(list, limit, offset)| == if offset < |list| then Min(limit, |list| - offset) else 0
    ensures forall i :: 0 <= i < |Page(list, limit, offset)| ==> Page(list, limit, offset)[i] == list[offset + i]
  {
  }

  lemma PagesAlign(rows: set<Version>, a: seq<Version>, b: seq<Version>, limit: nat, offset: nat)
    requires IsResult(rows, a) && IsResult(rows, b)
    ensures
      var one, other := Page(a, limit, offset), Page(b, limit, offset);
      && |one| == |other| && (forall i :: 0 <= i < |one| ==> one[i].sortOrder == other[i].sortOrder)
      && (Untied(rows) ==> one == other)
  {
    ResultsAlign(rows, a, b);
    PageIs(a, limit, offset);
    PageIs(b, limit, offset);
  }

  /** Whatever the two list queries make of ties: their pages agree position by position in sort_order, and altogether
      where no two selected rows tie; the windowed total is the count exactly when the page is not empty or nothing
      matches at all, and 0 otherwise. */
  lemma QueriesAgree(table: set<Version>, rows: set<Tag>, recommended: Option<bool>, tags: map<string, string>,
                     limit: nat, offset: nat, filtered: seq<Version>, withAssets: seq<Version>)
    requires IsResult(Selected(table, recommended, Grouped(rows, tags)), filtered)
    requires IsResult(Selected(table, recommended, Existing(rows, tags)), withAssets)
    ensures
      var one, other := Page(filtered, limit, offset), Page(withAssets, limit, offset);
      && |one| == |other| && (forall i :: 0 <= i < |one| ==> one[i].sortOrder == other[i].sortOrder)
      && (Untied(Elems(filtered)) ==> one == other)
    ensures
      var total := WindowedTotal(withAssets, limit, offset);
      var count := CountVersionsFiltered(table, rows, recommended, tags);
      && (total == count <==> (limit > 0 && offset < count) || count == 0)
      && (total == count || total == 0)
  {
    SelectionsAgree(table, rows, recommended, tags);
    PagesAlign(Elems(filtered), filtered, withAssets, limit, offset);
    WindowedTotalIs(Elems(filtered), withAssets, limit, offset);
  }

  lemma WindowedTotalIs(rows: set<Version>, list: seq<Version>, limit: nat, offset: nat)
    requires IsResult(rows, list)
    ensures WindowedTotal(list, limit, offset) == if limit > 0 && offset < |rows| then |rows| else 0
  {
    DistinctSize(list);
    PageIs(list, limit, offset);
  }

  /** A version has a tag under this key with the value, or a longer one behind a dot. */
  ghost predicate Tagged(rows: set<Tag>, id: int, key: string, value: string) {
    exists t :: t in rows && TagOf(t, id, key) && (t.value == value || Like(t.value, value + ".%"))
  }

  /** A query returns exactly the versions with the wanted recommended flag, if one is wanted, and with every tag. */
  lemma QuerySelects(table: set<Version>, rows: set<Tag>, recommended: Option<bool>, tags: map<string, string>,
                     list: seq<Version>, v: Version)
    requires IsResult(Selected(table, recommended, Grouped(rows, tags)), list)
    ensures v in list <==>
      && v in table && recommended != Some(!v.recommended)
      && forall key :: key in tags ==> Tagged(rows, v.id, key, tags[key])
  {
    FiltersAgree(rows, v.id, tags);
    assert v in list <==> v in Elems(list);
    forall key | key in tags
      ensures Tagged(rows, v.id, key, tags[key]) <==>
              exists t :: t in rows && TagOf(t, v.id, key) && Matches(t.value, tags[key])
    {
      if t :| t in rows && TagOf(t, v.id, key) && Matches(t.value, tags[key]) {
        assert t.value == tags[key] || Like(t.value, tags[key] + ".%");
      }
    }
  }

  /** A percent sign in front of a pattern matches any beginning. */
  lemma {:induction false} LikePercent(s: string, pattern: string)
    ensures Like(s, "%" + pattern) <==> exists k :: 0 <= k <= |s| && Like(s[k..], pattern)
    decreases |s|
  {
    assert ("%" + pattern)[1..] == pattern && s[0..] == s;
    if s != "" {
      LikePercent(s[1..], pattern);
      if k :| 0 <= k <= |s[1..]| && Like(s[1..][k..], pattern) {
        assert s[k + 1..] == s[1..][k..];
      }
      if k :| 0 < k <= |s| && Like(s[k..], pattern) {
        assert s[1..][k - 1..] == s[k..];
      }
    }
  }

  /** An underscore matches one character, whatever it is. */
  lemma LikeUnderscore(s: string, pattern: string)
    ensures Like(s, "_" + pattern) <==> exists c: char :: s != "" && s == [c] + s[1..] && Like(s[1..], pattern)
  {
    assert ("_" + pattern)[1..] == pattern;
    if s != "" { assert s == [s[0]] + s[1..]; }
  }

  // ---------- the dot boundary ----------

  predicate IsMeta(c: char) {
    c == '%' || c == '_' || c == '\\'
  }

  predicate NoMeta(value: string) {
    forall i :: 0 <= i < |value| ==> !IsMeta(value[i])
  }

  /** The dot-separated components of value start those of tagValue: 1.12 is a prefix of 1.12.2 but not of 1.120. */
  predicate ComponentPrefix(value: string, tagValue: string) {
    Split(value, '.') <= Split(tagValue, '.')
  }

  lemma ComponentPrefixIs(value: string, tagValue: string)
    ensures ComponentPrefix(value, tagValue) <==> tagValue == value || value + "." <= tagValue
  {
    if value + "." <= tagValue {
      var rest := tagValue[|value| + 1..];
      assert tagValue == value + ['.'] + rest;
      SplitAppend(value, '.', rest);
    }
    if ComponentPrefix(value, tagValue) {
      PrefixJoined(value, tagValue);
    }
  }

  lemma PrefixJoined(value: string, tagValue: string)
    requires ComponentPrefix(value, tagValue)
    ensures tagValue == value || value + "." <= tagValue
  {
    var p, q := Split(value, '.'), Split(tagValue, '.');
    JoinSplit(value, '.');
    JoinSplit(tagValue, '.');
    if |p| < |q| {
      var rest := q[|p|..];
      assert q == p + rest;
      JoinAppend(p, rest);
      assert tagValue == value + ['.'] + Join(rest, '.');
    } else {
      assert p == q;
    }
  }

  lemma {:induction false} JoinAppend(p: seq<string>, q: seq<string>)
    requires |p| >= 1 && |q| >= 1
    ensures Join(p + q, '.') == Join(p, '.') + ['.'] + Join(q, '.')
  {
    assert (p + q)[0] == p[0];
    if |p| == 1 {
      assert (p + q)[1..] == q;
    } else {
      assert (p + q)[1..] == p[1..] + q;
      JoinAppend(p[1..], q);
      assert p[0] + ['.'] + (Join(p[1..], '.') + ['.'] + Join(q, '.')) == (p[0] + ['.'] + Join(p[1..],
        '.')) + ['.'] + Join(q, '.');
    }
  }

  lemma {:induction false} LikeEverything(s: string)
    ensures Like(s, "%")
  {
    if s != "" {
      LikeEverything(s[1..]);
    }
  }

  lemma {:induction false} LikePrefix(s: string, prefix: string)
    requires NoMeta(prefix)
    ensures Like(s, prefix + "%") <==> prefix <= s
  {
    if prefix == "" {
      LikeEverything(s);
      assert prefix + "%" == "%";
    } else if s != "" {
      assert !IsMeta(prefix[0]);
      assert (prefix + "%")[1..] == prefix[1..] + "%";
      LikePrefix(s[1..], prefix[1..]);
      assert prefix == [prefix[0]] + prefix[1..] && s == [s[0]] + s[1..];
    }
  }

  /** A tag value the pattern matches: each wildcard stands for an a, each escape for the character behind it. */
  function Instance(value: string): string {
    if value == "" then "."
    else if value[0] == '\\' then
      if |value| == 1 then "." else [value[1]] + Instance(value[2..])
    else if IsMeta(value[0]) then "a" + Instance(value[1..])
    else [value[0]] + Instance(value[1..])
  }

  lemma {:induction false} InstanceMatches(value: string)
    ensures Like(Instance(value), value + ".%")
  {
    var s, pattern := Instance(value), value + ".%";
    if value == "" {
      assert pattern == ".%" && pattern[1..] == "%" && s[1..] == "";
      LikeEverything("");
    } else if value[0] == '\\' {
      if |value| == 1 {
        assert pattern[1] == '.' && pattern[2..] == "%" && s[1..] == "";
        LikeEverything("");
      } else {
        InstanceMatches(value[2..]);
        assert pattern[2..] == value[2..] + ".%" && s[1..] == Instance(value[2..]);
      }
    } else {
      InstanceMatches(value[1..]);
      assert pattern[1..] == value[1..] + ".%" && s[1..] == Instance(value[1..]);
      if value[0] == '%' {
        assert Like(s[1..], pattern[1..]);
        assert Like(s[1..], pattern);
      }
    }
  }

  lemma {:induction false} InstanceLength(value: string)
    ensures |Instance(value)| <= |value| + 1
    ensures value != "" && value[0] == '\\' ==> |Instance(value)| <= |value|
  {
    if value != "" {
      if value[0] == '\\' {
        if |value| > 1 { InstanceLength(value[2..]); }
      } else {
        InstanceLength(value[1..]);
      }
    }
  }

  /** The instance never repeats the backslash it was escaped with. */
  lemma InstanceOfEscaped(r: string)
    ensures Instance(r) != "\\" + r
  {
    InstanceLength(r);
    assert ("\\" + r)[0] == '\\' && |"\\" + r| == |r| + 1;
    assert r == "" || r[0] != '\\' ==> Instance(r)[0] != '\\';
  }

  lemma {:induction false} InstanceDiffers(value: string)
    requires !NoMeta(value)
    ensures Instance(value) != value && !(value + "." <= Instance(value))
  {
    var w := Instance(value);
    assert (value + ".")[0] == value[0];
    if value[0] == '\\' {
      if |value| > 1 && value[1] == '\\' {
        var r := value[2..];
        assert value == "\\" + ("\\" + r) && w == "\\" + Instance(r);
        assert w[1..] == Instance(r) && value[1..] == "\\" + r;
        InstanceLength(r);
        InstanceOfEscaped(r);
      }
    } else if !IsMeta(value[0]) {
      var r := value[1..];
      assert value == [value[0]] + r && w == [value[0]] + Instance(r);
      assert !NoMeta(r) by {
        var i :| 0 <= i < |value| && IsMeta(value[i]);
        assert r[i - 1] == value[i];
      }
      InstanceDiffers(r);
      assert w[1..] == Instance(r) && (value + ".")[1..] == r + ".";
    }
  }

  /** The filter selects exactly the component prefixes, for every tag value, if and only if
      the value holds none of the LIKE metacharacters. */
  lemma MatchesComponentsIff(value: string)
    ensures (forall tagValue :: Matches(tagValue, value) <==> ComponentPrefix(value, tagValue)) <==> NoMeta(value)
  {
    if NoMeta(value) {
      forall tagValue ensures Matches(tagValue, value) <==> ComponentPrefix(value, tagValue) {
        ComponentPrefixIs(value, tagValue);
        LikePrefix(tagValue, value + ".");
        assert value + "." + "%" == value + ".%";
      }
    } else {
      var w := Instance(value);
      InstanceMatches(value);
      InstanceDiffers(value);
      ComponentPrefixIs(value, w);
      assert Matches(w, value) && !ComponentPrefix(value, w);
    }
  }
}
