/** The string operations the parsers and the tag filter rest on. */
module Strings {
  predicate IsDigit(c: char) {
    '0' <= c <= '9'
  }

  predicate AllDigits(s: string) {
    forall i :: 0 <= i < |s| ==> IsDigit(s[i])
  }

  /** The regular expression \d+. */
  predicate IsNumeral(s: string) {
    s != "" && AllDigits(s)
  }

  /** The regular expression [\d.]+. */
  predicate IsDotted(s: string) {
    s != "" && forall i :: 0 <= i < |s| ==> IsDigit(s[i]) || s[i] == '.'
  }

  /** Position of the first c in s, or |s| when there is none. */
  function IndexOf(s: string, c: char): (i: nat)
    ensures i <= |s|
    ensures i < |s| ==> s[i] == c
    ensures forall j :: 0 <= j < i ==> s[j] != c
  {
    if s == "" || s[0] == c then 0 else 1 + IndexOf(s[1..], c)
  }

  lemma IndexOfSplit(head: string, c: char, tail: string)
    requires forall j :: 0 <= j < |head| ==> head[j] != c
    ensures IndexOf(head + [c] + tail, c) == |head|
  {
    var s := head + [c] + tail;
    assert forall j :: 0 <= j < |head| ==> s[j] == head[j];
    assert s[|head|] == c;
  }

  // ---------- splitting and joining ----------

  /** strings.Split with a one-character separator. */
  function Split(s: string, sep: char): (parts: seq<string>)
    ensures |parts| >= 1
    ensures forall i :: 0 <= i < |parts| ==> sep !in parts[i]
  {
    var i := IndexOf(s, sep);
    if i == |s| then [s] else [s[..i]] + Split(s[i + 1..], sep)
  }

  function Join(parts: seq<string>, sep: char): string
    requires |parts| >= 1
  {
    if |parts| == 1 then parts[0] else parts[0] + [sep] + Join(parts[1..], sep)
  }

  lemma JoinHead(head: string, parts: seq<string>, sep: char)
    requires |parts| >= 1
    ensures Join([head] + parts, sep) == head + [sep] + Join(parts, sep)
  {
    assert ([head] + parts)[1..] == parts;
  }

  lemma CutAt(s: string, i: nat)
    requires i < |s|
    ensures s == s[..i] + [s[i]] + s[i + 1..]
  {
  }

  lemma {:induction false} JoinSplit(s: string, sep: char)
    ensures Join(Split(s, sep), sep) == s
    decreases |s|
  {
    var i := IndexOf(s, sep);
    if i < |s| {
      JoinSplit(s[i + 1..], sep);
      JoinHead(s[..i], Split(s[i + 1..], sep), sep);
      CutAt(s, i);
    }
  }

  /** Splitting distributes over a separator at any place. */
  lemma {:induction false} SplitAppend(s: string, sep: char, t: string)
    ensures Split(s + [sep] + t, sep) == Split(s, sep) + Split(t, sep)
    decreases |s|
  {
    var i := IndexOf(s, sep);
    if i == |s| {
      SplitFirst(s, sep, t);
    } else {
      var head, rest := s[..i], s[i + 1..];
      calc {
        Split(s + [sep] + t, sep);
        { assert s + [sep] + t == head + [sep] + (rest + [sep] + t); }
        Split(head + [sep] + (rest + [sep] + t), sep);
        { SplitFirst(head, sep, rest + [sep] + t); }
        [head] + Split(rest + [sep] + t, sep);
        { SplitAppend(rest, sep, t); }
        [head] + (Split(rest, sep) + Split(t, sep));
        ([head] + Split(rest, sep)) + Split(t, sep);
      }
    }
  }

  lemma SplitFirst(head: string, sep: char, tail: string)
    requires forall j :: 0 <= j < |head| ==> head[j] != sep
    ensures Split(head + [sep] + tail, sep) == [head] + Split(tail, sep)
  {
    IndexOfSplit(head, sep, tail);
    var whole := head + [sep] + tail;
    assert whole[..|head|] == head && whole[|head| + 1..] == tail;
  }

  lemma {:induction false} SplitJoin(parts: seq<string>, sep: char)
    requires |parts| >= 1
    requires forall i :: 0 <= i < |parts| ==> sep !in parts[i]
    ensures Split(Join(parts, sep), sep) == parts
  {
    SplitSingle(parts[0], sep);
    if |parts| > 1 {
      SplitAppend(parts[0], sep, Join(parts[1..], sep));
      SplitJoin(parts[1..], sep);
    }
  }

  lemma SplitSingle(s: string, sep: char)
    requires sep !in s
    ensures Split(s, sep) == [s]
  {
  }

  // ---------- numbers ----------

  const MAX_INT: int := 0x7fff_ffff_ffff_ffff

  function NumeralValue(s: string): (n: nat)
    requires AllDigits(s)
  {
    if s == "" then 0
    else 10 * NumeralValue(s[..|s| - 1]) + (s[|s| - 1] as int - '0' as int)
  }

  /** The decimal numeral of n without leading zeros. */
  function Itoa(n: nat): (s: string)
    ensures IsNumeral(s)
    ensures NumeralValue(s) == n
  {
    var digit := ['0' + (n % 10) as char];
    if n < 10 then digit
    else
      var s := Itoa(n / 10) + digit;
      assert s[..|s| - 1] == Itoa(n / 10);
      s
  }

  /** strconv.Atoi on a 64-bit platform: the value it returns and whether the error is nil.
      A numeral out of range gives the nearest bound and an error, anything else gives 0 and an error. */
  function Atoi(s: string): (int, bool) {
    var negative := s != "" && s[0] == '-';
    var digits := if negative || (s != "" && s[0] == '+') then s[1..] else s;
    if !IsNumeral(digits) then (0, false)
    else
      var n: int := NumeralValue(digits);
      if negative then (if n > MAX_INT + 1 then (-MAX_INT - 1, false) else (-n, true))
      else if n > MAX_INT then (MAX_INT, false)
      else (n, true)
  }

  lemma AtoiItoa(n: nat)
    requires n <= MAX_INT
    ensures Atoi(Itoa(n)) == (n, true)
  {
    assert IsDigit(Itoa(n)[0]);
  }

  /** unicode.ToUpper as far as the result can be an ASCII letter: the long s and the dotless i have one, too. */
  function UpperChar(c: char): char {
    if 'a' <= c <= 'z' then c - 'a' + 'A'
    else if c == '\U{017F}' then 'S'
    else if c == '\U{0131}' then 'I'
    else c
  }

  /** strings.ToUpper, for comparison with ASCII words. */
  function Upper(s: string): (t: string)
    ensures |t| == |s|
  {
    seq(|s|, i requires 0 <= i < |s| => UpperChar(s[i]))
  }

  /** s matches the lower-case word under (?i); the long s folds to s as well. */
  predicate FoldsTo(s: string, word: string) {
    |s| == |word| &&
    forall i :: 0 <= i < |s| ==>
      s[i] == word[i]
      || ('a' <= word[i] <= 'z' && s[i] == word[i] - 'a' + 'A')
      || (word[i] == 's' && s[i] == '\U{017F}')
  }
}
