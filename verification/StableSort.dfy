/** Stable sorting by a three-way comparison, and what happens to ties when its result is reversed and sorted again.
    The theory is proved for comparisons of integer keys and carried over to every comparison that is a total
    preorder on the elements at hand, because such a comparison agrees there with counting the smaller elements. */
module StableSort {
  import opened Common

  type Comparison<!T> = (T, T) -> int

  function Insert<T>(cmp: Comparison<T>, x: T, s: seq<T>): seq<T> {
    if s == [] || cmp(x, s[0]) <= 0 then [x] + s else [s[0]] + Insert(cmp, x, s[1..])
  }

  /** The result of slices.SortStableFunc; StableSortUnique shows that its documentation determines it. */
  function Sort<T>(cmp: Comparison<T>, s: seq<T>): seq<T> {
    if s == [] then [] else Insert(cmp, s[0], Sort(cmp, s[1..]))
  }

  ghost predicate Sorted<T>(cmp: Comparison<T>, s: seq<T>) {
    forall i, j :: 0 <= i < j < |s| ==> cmp(s[i], s[j]) <= 0
  }

  /** The elements that compare equal to x, in order. */
  function Ties<T>(cmp: Comparison<T>, x: T, s: seq<T>): seq<T> {
    if s == [] then [] else (if cmp(x, s[0]) == 0 then [s[0]] else []) + Ties(cmp, x, s[1..])
  }

  /** A stable ascending arrangement of s: the same elements, ascending, ties in their old order. */
  ghost predicate IsStableSort<T>(cmp: Comparison<T>, s: seq<T>, t: seq<T>) {
    && multiset(t) == multiset(s)
    && Sorted(cmp, t)
    && forall x :: x in s ==> Ties(cmp, x, t) == Ties(cmp, x, s)
  }

  function Reverse<T>(s: seq<T>): (r: seq<T>)
    ensures |r| == |s|
    ensures forall i :: 0 <= i < |s| ==> r[i] == s[|s| - 1 - i]
  {
    if s == [] then [] else Reverse(s[1..]) + [s[0]]
  }

  /** Length of the leading run of elements that compare equal to x. */
  function Run<T>(cmp: Comparison<T>, x: T, s: seq<T>): (k: nat)
    ensures k <= |s|
  {
    if s == [] || cmp(x, s[0]) != 0 then 0 else 1 + Run(cmp, x, s[1..])
  }

  /** Every run of ties reversed, the runs themselves left in place. */
  function FlipTies<T>(cmp: Comparison<T>, s: seq<T>): seq<T>
    decreases |s|
  {
    if s == [] then []
    else
      var k := Run(cmp, s[0], s[1..]);
      Reverse(s[..k + 1]) + FlipTies(cmp, s[k + 1..])
  }

  ghost predicate NoTies<T>(cmp: Comparison<T>, s: seq<T>) {
    forall i, j :: 0 <= i < j < |s| ==> cmp(s[i], s[j]) != 0
  }

  // ---------- comparing keys ----------

  function ByKey<T>(key: T -> int): Comparison<T> {
    (a, b) => Cmp(key(a), key(b))
  }

  lemma {:induction false} InsertSorted<T>(key: T -> int, x: T, s: seq<T>)
    requires Sorted(ByKey(key), s)
    ensures Sorted(ByKey(key), Insert(ByKey(key), x, s))
  {
    if s != [] && key(x) > key(s[0]) {
      InsertSorted(key, x, s[1..]);
      InsertMembers(ByKey(key), x, s[1..]);
      var t := Insert(ByKey(key), x, s[1..]);
      forall j | 0 <= j < |t| ensures ByKey(key)(s[0], t[j]) <= 0 {
        if t[j] != x {
          var i :| 0 <= i < |s[1..]| && s[1..][i] == t[j];
          assert ByKey(key)(s[0], s[i + 1]) <= 0;
        }
      }
    } else if s != [] {
      assert forall j :: 1 <= j < |s| ==> ByKey(key)(s[0], s[j]) <= 0;
    }
  }

  lemma {:induction false} InsertMembers<T>(cmp: Comparison<T>, x: T, s: seq<T>)
    ensures forall j :: 0 <= j < |Insert(cmp, x, s)| ==> Insert(cmp, x, s)[j] == x || Insert(cmp, x, s)[j] in s
  {
    if s != [] && cmp(x, s[0]) > 0 {
      InsertMembers(cmp, x, s[1..]);
    }
  }

  lemma {:induction false} InsertMultiset<T>(cmp: Comparison<T>, x: T, s: seq<T>)
    ensures multiset(Insert(cmp, x, s)) == multiset([x]) + multiset(s)
  {
    if s != [] && cmp(x, s[0]) > 0 {
      InsertMultiset(cmp, x, s[1..]);
      assert s == [s[0]] + s[1..];
    }
  }

  lemma {:induction false} SortMultiset<T>(cmp: Comparison<T>, s: seq<T>)
    ensures multiset(Sort(cmp, s)) == multiset(s)
    ensures |Sort(cmp, s)| == |s|
  {
    if s != [] {
      SortMultiset(cmp, s[1..]);
      InsertMultiset(cmp, s[0], Sort(cmp, s[1..]));
      assert s == [s[0]] + s[1..];
    }
    assert |multiset(Sort(cmp, s))| == |multiset(s)|;
  }

  lemma SameMembers<T>(s: seq<T>, t: seq<T>)
    requires multiset(s) == multiset(t)
    ensures forall x :: x in s <==> x in t
  {
    forall x ensures x in s <==> x in t {
      assert x in s <==> x in multiset(s);
    }
  }

  lemma {:induction false} SortSorted<T>(key: T -> int, s: seq<T>)
    ensures Sorted(ByKey(key), Sort(ByKey(key), s))
  {
    if s != [] {
      SortSorted(key, s[1..]);
      InsertSorted(key, s[0], Sort(ByKey(key), s[1..]));
    }
  }

  lemma {:induction false} InsertTies<T>(key: T -> int, x: T, s: seq<T>, y: T)
    ensures Ties(ByKey(key), y, Insert(ByKey(key), x, s)) == Ties(ByKey(key), y, [x] + s)
  {
    assert ([x] + s)[1..] == s;
    if s != [] && key(x) > key(s[0]) {
      InsertTies(key, x, s[1..], y);
      assert ([x] + s[1..])[1..] == s[1..];
      assert ([s[0]] + Insert(ByKey(key), x, s[1..]))[1..] == Insert(ByKey(key), x, s[1..]);
    }
  }

  lemma {:induction false} SortTies<T>(key: T -> int, s: seq<T>, y: T)
    ensures Ties(ByKey(key), y, Sort(ByKey(key), s)) == Ties(ByKey(key), y, s)
  {
    if s != [] {
      var t := Sort(ByKey(key), s[1..]);
      SortTies(key, s[1..], y);
      InsertTies(key, s[0], t, y);
      assert ([s[0]] + t)[1..] == t;
    }
  }

  lemma {:induction false} TiesMember<T>(cmp: Comparison<T>, x: T, s: seq<T>)
    ensures forall y :: y in Ties(cmp, x, s) <==> y in s && cmp(x, y) == 0
  {
    if s != [] {
      TiesMember(cmp, x, s[1..]);
      assert s == [s[0]] + s[1..];
    }
  }

  /** Two ascending sequences that agree on every class of ties are equal. */
  lemma {:induction false} SortedByTies<T>(key: T -> int, s: seq<T>, t: seq<T>)
    requires Sorted(ByKey(key), s) && Sorted(ByKey(key), t)
    requires forall x :: x in s || x in t ==> Ties(ByKey(key), x, s) == Ties(ByKey(key), x, t)
    ensures s == t
  {
    if s != [] || t != [] {
      SameHead(key, s, t);
      forall x | x in s[1..] || x in t[1..] ensures Ties(ByKey(key), x, s[1..]) == Ties(ByKey(key), x, t[1..]) {
        TailTies(ByKey(key), s, t, x);
      }
      SortedByTies(key, s[1..], t[1..]);
      assert s == [s[0]] + s[1..] && t == [t[0]] + t[1..];
    }
  }

  lemma TailTies<T>(cmp: Comparison<T>, s: seq<T>, t: seq<T>, x: T)
    requires s != [] && t != [] && s[0] == t[0] && Ties(cmp, x, s) == Ties(cmp, x, t)
    ensures Ties(cmp, x, s[1..]) == Ties(cmp, x, t[1..])
  {
    var head := if cmp(x, s[0]) == 0 then [s[0]] else [];
    assert Ties(cmp, x, s)[|head|..] == Ties(cmp, x, s[1..]) && Ties(cmp, x, t)[|head|..] == Ties(cmp, x, t[1..]);
  }

  lemma SameHead<T>(key: T -> int, s: seq<T>, t: seq<T>)
    requires s != [] || t != []
    requires Sorted(ByKey(key), s) && Sorted(ByKey(key), t)
    requires forall x :: x in s || x in t ==> Ties(ByKey(key), x, s) == Ties(ByKey(key), x, t)
    ensures s != [] && t != [] && s[0] == t[0]
  {
    if s != [] { HeadTies(key, s, t); }
    if t != [] { HeadTies(key, t, s); }
    assert Ties(ByKey(key), s[0], s)[0] == s[0] && Ties(ByKey(key), s[0], t)[0] == t[0];
  }

  lemma HeadTies<T>(key: T -> int, s: seq<T>, t: seq<T>)
    requires s != [] && Sorted(ByKey(key), t)
    requires Ties(ByKey(key), s[0], s) == Ties(ByKey(key), s[0], t)
    ensures t != [] && key(t[0]) <= key(s[0])
  {
    TiesMember(ByKey(key), s[0], s);
    TiesMember(ByKey(key), s[0], t);
    assert s[0] in Ties(ByKey(key), s[0], t);
    var i :| 0 <= i < |t| && t[i] == s[0];
    assert i > 0 ==> ByKey(key)(t[0], t[i]) <= 0;
  }

  lemma {:induction false} RunIs<T>(cmp: Comparison<T>, x: T, s: seq<T>, k: nat)
    ensures Run(cmp, x, s) == k <==>
            k <= |s| && (forall i :: 0 <= i < k ==> cmp(x, s[i]) == 0) && (k < |s| ==> cmp(x, s[k]) != 0)
  {
    if s != [] && cmp(x, s[0]) == 0 {
      assert forall i :: 1 <= i < |s| ==> s[i] == s[1..][i - 1];
      assert forall i :: 0 <= i < |s| - 1 ==> s[1..][i] == s[i + 1];
      if k > 0 {
        RunIs(cmp, x, s[1..], k - 1);
      }
    }
  }

  lemma {:induction false} InsertBehind<T>(cmp: Comparison<T>, x: T, s: seq<T>, t: seq<T>)
    requires forall i :: 0 <= i < |s| ==> cmp(x, s[i]) > 0
    ensures Insert(cmp, x, s + t) == s + Insert(cmp, x, t)
  {
    if s == [] {
      assert [] + t == t;
    } else {
      assert (s + t)[1..] == s[1..] + t;
      InsertBehind(cmp, x, s[1..], t);
      assert s == [s[0]] + s[1..];
    }
  }

  lemma {:induction false} ReverseSnoc<T>(s: seq<T>, x: T)
    ensures Reverse(s + [x]) == [x] + Reverse(s)
  {
  }

  lemma ReverseTwice<T>(s: seq<T>)
    ensures Reverse(Reverse(s)) == s
  {
  }

  /** The definition of FlipTies read from left to right, for a first run r and the rest f. */
  lemma FlipTiesOf<T>(cmp: Comparison<T>, r: seq<T>, f: seq<T>)
    requires r != [] && (forall i :: 1 <= i < |r| ==> cmp(r[0], r[i]) == 0)
    requires f != [] ==> cmp(r[0], f[0]) != 0
    ensures FlipTies(cmp, r + f) == Reverse(r) + FlipTies(cmp, f)
  {
    var s := r + f;
    assert forall i :: 0 <= i < |s| - 1 ==> s[1..][i] == s[i + 1];
    RunIs(cmp, s[0], s[1..], |r| - 1);
    assert s[..|r|] == r && s[|r|..] == f;
  }

  /** An ascending sequence is its first run followed by greater elements. */
  lemma FirstRun<T>(key: T -> int, s: seq<T>) returns (r: seq<T>, f: seq<T>)
    requires s != [] && Sorted(ByKey(key), s)
    ensures s == r + f && r != [] && Sorted(ByKey(key), f)
    ensures forall y :: y in r ==> key(y) == key(s[0])
    ensures forall y :: y in f ==> key(y) > key(s[0])
  {
    var k := Run(ByKey(key), s[0], s[1..]) + 1;
    r, f := s[..k], s[k..];
    RunIs(ByKey(key), s[0], s[1..], k - 1);
    forall i | 0 <= i < k ensures key(s[i]) == key(s[0]) {
      if i > 0 { assert s[i] == s[1..][i - 1]; }
    }
    forall j | k <= j < |s| ensures key(s[j]) > key(s[0]) {
      assert s[1..][k - 1] == s[k];
      assert ByKey(key)(s[0], s[k]) <= 0;
      assert j > k ==> ByKey(key)(s[k], s[j]) <= 0;
    }
    forall i, j | 0 <= i < j < |f| ensures ByKey(key)(f[i], f[j]) <= 0 {
      assert ByKey(key)(s[k + i], s[k + j]) <= 0;
    }
  }

  lemma FlipTiesOneRun<T>(cmp: Comparison<T>, r: seq<T>)
    requires r != [] && (forall i :: 1 <= i < |r| ==> cmp(r[0], r[i]) == 0)
    ensures FlipTies(cmp, r) == Reverse(r)
  {
    assert r + [] == r && Reverse(r) + [] == Reverse(r);
    FlipTiesOf(cmp, r, []);
  }

  lemma {:induction false} FlipTiesSnoc<T>(key: T -> int, s: seq<T>, x: T)
    requires Sorted(ByKey(key), s) && forall y :: y in s ==> key(y) <= key(x)
    ensures Insert(ByKey(key), x, FlipTies(ByKey(key), s)) == FlipTies(ByKey(key), s + [x])
    decreases |s|
  {
    if s == [] {
      FlipTiesOneRun(ByKey(key), [x]);
      assert [x] == s + [x] && Reverse([x]) == [x];
    } else {
      var r, f := FirstRun(key, s);
      assert f != [] ==> f[0] in f && f[0] in s;
      if key(x) == key(s[0]) {
        FlipTiesSnocTied(key, s, x);
      } else {
        assert s[0] in s;
        FlipTiesSnoc(key, f, x);
        FlipTiesSnocBehind(key, r, f, x);
      }
    }
  }

  lemma FlipTiesSnocTied<T>(key: T -> int, r: seq<T>, x: T)
    requires r != [] && forall y :: y in r ==> key(y) == key(x)
    ensures Insert(ByKey(key), x, FlipTies(ByKey(key), r)) == FlipTies(ByKey(key), r + [x])
  {
    FlipTiesOneRun(ByKey(key), r);
    FlipTiesOneRun(ByKey(key), r + [x]);
    ReverseSnoc(r, x);
    assert Reverse(r)[0] == r[|r| - 1];
  }

  lemma FlipTiesSnocBehind<T>(key: T -> int, r: seq<T>, f: seq<T>, x: T)
    requires r != [] && key(x) > key(r[0])
    requires forall y :: y in r ==> key(y) == key(r[0])
    requires forall y :: y in f ==> key(y) > key(r[0])
    requires Insert(ByKey(key), x, FlipTies(ByKey(key), f)) == FlipTies(ByKey(key), f + [x])
    ensures Insert(ByKey(key), x, FlipTies(ByKey(key), r + f)) == FlipTies(ByKey(key), r + f + [x])
  {
    FlipTiesOf(ByKey(key), r, f);
    FlipTiesOf(ByKey(key), r, f + [x]);
    assert r + f + [x] == r + (f + [x]);
    InsertBehind(ByKey(key), x, Reverse(r), FlipTies(ByKey(key), f));
  }

  lemma {:induction false} SortReverseByKey<T>(key: T -> int, s: seq<T>)
    requires Sorted(ByKey(key), s)
    ensures Sort(ByKey(key), Reverse(s)) == FlipTies(ByKey(key), s)
  {
    if s != [] {
      var n := |s| - 1;
      var init, x := s[..n], s[n];
      assert s == init + [x];
      ReverseSnoc(init, x);
      assert ([x] + Reverse(init))[1..] == Reverse(init);
      SortReverseByKey(key, init);
      forall y | y in init ensures key(y) <= key(x) {
        var i :| 0 <= i < n && s[i] == y;
        assert ByKey(key)(s[i], s[n]) <= 0;
      }
      FlipTiesSnoc(key, init, x);
    }
  }

  lemma {:induction false} FlipTiesMembers<T>(cmp: Comparison<T>, s: seq<T>)
    ensures multiset(FlipTies(cmp, s)) == multiset(s)
    decreases |s|
  {
    if s != [] {
      var k := 1 + Run(cmp, s[0], s[1..]);
      FlipTiesMembers(cmp, s[k..]);
      ReverseMultiset(s[..k]);
      assert s == s[..k] + s[k..];
    }
  }

  lemma {:induction false} ReverseMultiset<T>(s: seq<T>)
    ensures multiset(Reverse(s)) == multiset(s)
  {
    if s != [] {
      ReverseMultiset(s[1..]);
      assert s == [s[0]] + s[1..];
    }
  }

  lemma {:induction false} FlipTiesTwiceByKey<T>(key: T -> int, s: seq<T>)
    requires Sorted(ByKey(key), s)
    ensures FlipTies(ByKey(key), FlipTies(ByKey(key), s)) == s
    decreases |s|
  {
    if s != [] {
      var cmp := ByKey(key);
      var r, f := FirstRun(key, s);
      FlipTiesOf(cmp, r, f);
      FlipTiesMembers(cmp, f);
      SameMembers(FlipTies(cmp, f), f);
      forall i | 0 <= i < |r| ensures key(Reverse(r)[i]) == key(s[0]) { assert r[|r| - 1 - i] in r; }
      FlipTiesOf(cmp, Reverse(r), FlipTies(cmp, f));
      ReverseTwice(r);
      FlipTiesTwiceByKey(key, f);
    }
  }

  lemma {:induction false} FlipTiesFixedByKey<T>(key: T -> int, s: seq<T>)
    requires Sorted(ByKey(key), s) && Distinct(s)
    ensures FlipTies(ByKey(key), s) == s <==> NoTies(ByKey(key), s)
    decreases |s|
  {
    if s != [] {
      var r, f := FirstRun(key, s);
      FlipTiesOf(ByKey(key), r, f);
      if |r| > 1 {
        FlippedRunMoves(key, r, f);
      } else {
        assert r == [s[0]] && f == s[1..];
        FlipTiesFixedByKey(key, f);
        NoTiesCons(key, s[0], f);
        assert [s[0]] + FlipTies(ByKey(key), f) == [s[0]] + f <==> FlipTies(ByKey(key), f) == f;
      }
    }
  }

  lemma FlippedRunMoves<T>(key: T -> int, r: seq<T>, f: seq<T>)
    requires |r| > 1 && Distinct(r + f) && forall y :: y in r ==> key(y) == key((r + f)[0])
    ensures !NoTies(ByKey(key), r + f)
    ensures Reverse(r) + FlipTies(ByKey(key), f) != r + f
  {
    var s := r + f;
    assert s[1] == r[1] && s[0] == r[0] && r[1] in r;
    assert (Reverse(r) + FlipTies(ByKey(key), f))[0] == s[|r| - 1];
    assert ByKey(key)(s[0], s[1]) == 0;
  }

  lemma NoTiesCons<T>(key: T -> int, x: T, s: seq<T>)
    requires forall y :: y in s ==> key(y) > key(x)
    ensures NoTies(ByKey(key), [x] + s) <==> NoTies(ByKey(key), s)
  {
    var t := [x] + s;
    assert forall i :: 0 <= i < |s| ==> t[i + 1] == s[i];
    if NoTies(ByKey(key), s) {
      forall i, j | 0 <= i < j < |t| ensures ByKey(key)(t[i], t[j]) != 0 {
        assert t[j] == s[j - 1] && (i > 0 ==> t[i] == s[i - 1]);
      }
    }
    if NoTies(ByKey(key), t) {
      forall i, j | 0 <= i < j < |s| ensures ByKey(key)(s[i], s[j]) != 0 {
        assert ByKey(key)(t[i + 1], t[j + 1]) != 0;
      }
    }
  }

  // ---------- from keys to comparisons that are preorders where they are used ----------

  /** On the elements of s the comparison is antisymmetric and transitive. */
  ghost predicate PreorderOn<T(!new)>(cmp: Comparison<T>, s: seq<T>) {
    && (forall a, b :: a in s && b in s ==> cmp(b, a) == -cmp(a, b))
    && (forall a, b, c :: a in s && b in s && c in s ==> Law(cmp(a, b), cmp(b, c), cmp(a, c)))
  }

  /** The two comparisons give verdicts of the same sign on the elements of s. */
  ghost predicate Agree<T(!new)>(cmp: Comparison<T>, cmp': Comparison<T>, s: seq<T>) {
    forall a, b :: a in s && b in s ==> (cmp(a, b) <= 0 <==> cmp'(a, b) <= 0) && (cmp(a, b) == 0 <==> cmp'(a, b) == 0)
  }

  function Below<T>(cmp: Comparison<T>, s: seq<T>, x: T): nat {
    if s == [] then 0 else (if cmp(s[0], x) < 0 then 1 else 0) + Below(cmp, s[1..], x)
  }

  lemma {:induction false} BelowMonotone<T(!new)>(cmp: Comparison<T>, s: seq<T>, x: T, y: T)
    requires forall z :: z in s ==> Law(cmp(z, x), cmp(x, y), cmp(z, y))
    requires cmp(x, y) <= 0
    ensures Below(cmp, s, x) <= Below(cmp, s, y)
    ensures x in s && cmp(x, x) == 0 && cmp(x, y) < 0 ==> Below(cmp, s, x) < Below(cmp, s, y)
  {
    if s != [] {
      BelowMonotone(cmp, s[1..], x, y);
      assert s == [s[0]] + s[1..];
    }
  }

  /** Counting the smaller elements turns a preorder on s into a comparison of keys. */
  lemma PreorderHasKey<T(!new)>(cmp: Comparison<T>, s: seq<T>) returns (key: T -> int)
    requires PreorderOn(cmp, s)
    ensures Agree(cmp, ByKey(key), s)
  {
    key := x => Below(cmp, s, x);
    forall a, b | a in s && b in s
      ensures (cmp(a, b) <= 0 <==> ByKey(key)(a, b) <= 0) && (cmp(a, b) == 0 <==> ByKey(key)(a, b) == 0)
    {
      assert cmp(a, a) == -cmp(a, a) && cmp(b, b) == -cmp(b, b) && cmp(b, a) == -cmp(a, b);
      assert key(a) == Below(cmp, s, a) && key(b) == Below(cmp, s, b);
      if cmp(a, b) <= 0 { BelowMonotone(cmp, s, a, b); }
      if cmp(b, a) <= 0 { BelowMonotone(cmp, s, b, a); }
    }
  }

  lemma {:induction false} InsertAgree<T(!new)>(cmp: Comparison<T>, cmp': Comparison<T>, x: T, s: seq<T>, all: seq<T>)
    requires Agree(cmp, cmp', all) && x in all && forall y :: y in s ==> y in all
    ensures Insert(cmp, x, s) == Insert(cmp', x, s)
  {
    if s != [] {
      assert s[0] in all;
      InsertAgree(cmp, cmp', x, s[1..], all);
    }
  }

  lemma {:induction false} SortAgree<T(!new)>(cmp: Comparison<T>, cmp': Comparison<T>, s: seq<T>, all: seq<T>)
    requires Agree(cmp, cmp', all) && forall y :: y in s ==> y in all
    ensures Sort(cmp, s) == Sort(cmp', s)
  {
    if s != [] {
      SortAgree(cmp, cmp', s[1..], all);
      SortMultiset(cmp, s[1..]);
      SameMembers(Sort(cmp, s[1..]), s[1..]);
      InsertAgree(cmp, cmp', s[0], Sort(cmp, s[1..]), all);
    }
  }

  lemma {:induction false} TiesAgree<T(!new)>(cmp: Comparison<T>, cmp': Comparison<T>, x: T, s: seq<T>, all: seq<T>)
    requires Agree(cmp, cmp', all) && x in all && forall y :: y in s ==> y in all
    ensures Ties(cmp, x, s) == Ties(cmp', x, s)
  {
    if s != [] {
      assert s[0] in all;
      TiesAgree(cmp, cmp', x, s[1..], all);
    }
  }

  lemma {:induction false} RunAgree<T(!new)>(cmp: Comparison<T>, cmp': Comparison<T>, x: T, s: seq<T>, all: seq<T>)
    requires Agree(cmp, cmp', all) && x in all && forall y :: y in s ==> y in all
    ensures Run(cmp, x, s) == Run(cmp', x, s)
  {
    if s != [] {
      assert s[0] in all;
      RunAgree(cmp, cmp', x, s[1..], all);
    }
  }

  lemma {:induction false} FlipTiesAgree<T(!new)>(cmp: Comparison<T>, cmp': Comparison<T>, s: seq<T>, all: seq<T>)
    requires Agree(cmp, cmp', all) && forall y :: y in s ==> y in all
    ensures FlipTies(cmp, s) == FlipTies(cmp', s)
    decreases |s|
  {
    if s != [] {
      assert s[0] in s;
      RunAgree(cmp, cmp', s[0], s[1..], all);
      var rest := s[Run(cmp, s[0], s[1..]) + 1..];
      assert forall y :: y in rest ==> y in s;
      FlipTiesAgree(cmp, cmp', rest, all);
    }
  }

  lemma SortedAgree<T(!new)>(cmp: Comparison<T>, cmp': Comparison<T>, s: seq<T>, all: seq<T>)
    requires Agree(cmp, cmp', all) && forall y :: y in s ==> y in all
    ensures Sorted(cmp, s) <==> Sorted(cmp', s)
    ensures NoTies(cmp, s) <==> NoTies(cmp', s)
  {
    assert forall i :: 0 <= i < |s| ==> s[i] in all;
  }

  // ---------- the laws ----------

  lemma SortIsAscending<T(!new)>(cmp: Comparison<T>, s: seq<T>)
    requires PreorderOn(cmp, s)
    ensures Sorted(cmp, Sort(cmp, s)) && multiset(Sort(cmp, s)) == multiset(s)
  {
    var key := PreorderHasKey(cmp, s);
    SortAgree(cmp, ByKey(key), s, s);
    SortSorted(key, s);
    SortMultiset(cmp, s);
    SameMembers(Sort(cmp, s), s);
    SortedAgree(cmp, ByKey(key), Sort(cmp, s), s);
  }

  /** The documented promises of a stable sort determine its result. */
  lemma StableSortUnique<T(!new)>(cmp: Comparison<T>, s: seq<T>, t: seq<T>)
    requires PreorderOn(cmp, s)
    ensures IsStableSort(cmp, s, t) <==> t == Sort(cmp, s)
  {
    var key := PreorderHasKey(cmp, s);
    var k := ByKey(key);
    var u := Sort(cmp, s);
    SortIsAscending(cmp, s);
    SortAgree(cmp, k, s, s);
    SameMembers(u, s);
    forall x | x in s ensures Ties(cmp, x, u) == Ties(cmp, x, s) && Ties(k, x, u) == Ties(k, x, s) {
      SortTies(key, s, x);
      TiesAgree(cmp, k, x, u, s);
      TiesAgree(cmp, k, x, s, s);
    }
    if IsStableSort(cmp, s, t) {
      SameMembers(t, s);
      SortedAgree(cmp, k, t, s);
      SortedAgree(cmp, k, u, s);
      forall x | x in t || x in u ensures Ties(k, x, t) == Ties(k, x, u) {
        TiesAgree(cmp, k, x, t, s);
        TiesAgree(cmp, k, x, s, s);
      }
      SortedByTies(key, t, u);
    }
  }

  /** Sorting an ascending sequence from its reverse flips the ties and nothing else. */
  lemma SortReverse<T(!new)>(cmp: Comparison<T>, s: seq<T>)
    requires PreorderOn(cmp, s) && Sorted(cmp, s)
    ensures Sort(cmp, Reverse(s)) == FlipTies(cmp, s)
  {
    var key := PreorderHasKey(cmp, s);
    SortedAgree(cmp, ByKey(key), s, s);
    SortReverseByKey(key, s);
    FlipTiesAgree(cmp, ByKey(key), s, s);
    ReverseMultiset(s);
    SameMembers(Reverse(s), s);
    SortAgree(cmp, ByKey(key), Reverse(s), s);
  }

  /** Flipping ties twice is the identity; flipping them once is the identity exactly when there are none. */
  lemma FlipTiesInvolution<T(!new)>(cmp: Comparison<T>, s: seq<T>)
    requires PreorderOn(cmp, s) && Sorted(cmp, s)
    ensures FlipTies(cmp, FlipTies(cmp, s)) == s
    ensures Distinct(s) ==> (FlipTies(cmp, s) == s <==> NoTies(cmp, s))
    ensures Sorted(cmp, FlipTies(cmp, s)) && multiset(FlipTies(cmp, s)) == multiset(s)
  {
    var key := PreorderHasKey(cmp, s);
    var k := ByKey(key);
    SortedAgree(cmp, k, s, s);
    FlipTiesAgree(cmp, k, s, s);
    FlipTiesMembers(cmp, s);
    SameMembers(FlipTies(cmp, s), s);
    FlipTiesAgree(cmp, k, FlipTies(cmp, s), s);
    FlipTiesTwiceByKey(key, s);
    if Distinct(s) { FlipTiesFixedByKey(key, s); }
    SortReverseByKey(key, s);
    SortSorted(key, Reverse(s));
    SortedAgree(cmp, k, FlipTies(cmp, s), s);
  }
}
