/** Shared vocabulary: optional values, results with an error, and three-way comparison. */
module Common {

  datatype Option<+T> = None | Some(value: T)

  datatype Result<+T> = Ok(value: T) | Err(message: string)

  /** Three-way comparison of integers, as Go's cmp.Compare. */
  function Cmp(a: int, b: int): int {
    if a < b then -1 else if a > b then 1 else 0
  }

  /** "Return the first verdict unless it is a tie, otherwise the second." */
  function Lex(first: int, second: int): int {
    if first != 0 then first else second
  }

  /** The verdicts of a comparator on (a,b), (b,c) and (a,c) fit one total preorder. */
  predicate Law(ab: int, bc: int, ac: int) {
    && (ab <= 0 && bc <= 0 ==> ac <= 0)
    && (ab >= 0 && bc >= 0 ==> ac >= 0)
    && (ab <= 0 && bc <= 0 && (ab < 0 || bc < 0) ==> ac < 0)
    && (ab >= 0 && bc >= 0 && (ab > 0 || bc > 0) ==> ac > 0)
  }

  /** A lexicographic refinement is lawful as soon as the second verdicts are lawful on triple ties of the first. */
  lemma LexLaw(ab: int, bc: int, ac: int, ab': int, bc': int, ac': int)
    requires Law(ab, bc, ac)
    requires ab == 0 && bc == 0 && ac == 0 ==> Law(ab', bc', ac')
    ensures Law(Lex(ab, ab'), Lex(bc, bc'), Lex(ac, ac'))
  {
  }

  /** The set of elements of a sequence. */
  function Elems<T>(s: seq<T>): set<T> {
    set x | x in s
  }

  predicate Distinct<T(==)>(s: seq<T>) {
    forall i, j :: 0 <= i < j < |s| ==> s[i] != s[j]
  }

  function Min(a: int, b: int): int {
    if a < b then a else b
  }

  /** Go's int32 conversion. */
  function Int32(n: int): int {
    (n + 0x8000_0000) % 0x1_0000_0000 - 0x8000_0000
  }

  lemma {:induction false} DistinctSize<T>(s: seq<T>)
    requires Distinct(s)
    ensures |Elems(s)| == |s|
  {
    if s != [] {
      DistinctSize(s[1..]);
      assert Elems(s) == {s[0]} + Elems(s[1..]);
      assert forall i :: 0 <= i < |s[1..]| ==> s[1..][i] == s[i + 1];
    }
  }

  lemma SubsetSize<T>(a: set<T>, b: set<T>)
    requires a <= b
    ensures |a| <= |b|
    ensures |a| == |b| ==> a == b
  {
    assert b == a + (b - a);
  }
}
