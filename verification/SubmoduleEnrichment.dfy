/** Phase 1 of commit enrichment: finding the repository of a commit, and which submodules a version stores.
    A version stores only the submodules that differ from what its predecessor's row holds at that moment. */
module SubmoduleEnrichment {
  import opened Common
  import opened SubmoduleChangelogs

  // ---------- the repository search ----------

  predicate IsFirst(repos: seq<string>, contains: string -> bool, i: nat)
    requires i < |repos|
  {
    contains(repos[i]) && forall j :: 0 <= j < i ==> !contains(repos[j])
  }

  /** contains tells whether a repository can be cloned and has the commit. A repository of the commit body that is not
      registered is tried first; then the first registered one that has the commit is found. */
  method FindRepository(repository: string, registered: seq<string>, contains: string -> bool)
    returns (found: Option<string>)
    ensures repository != "" && repository !in registered && contains(repository) ==> found == Some(repository)
    ensures repository == "" || repository in registered || !contains(repository) ==>
      match found
      case None => forall r :: r in registered ==> !contains(r)
      case Some(repo) => exists i :: 0 <= i < |registered| && registered[i] == repo && IsFirst(registered, contains, i)
  {
    var repos := registered;
    if repository != "" {
      var present := false;
      for i := 0 to |registered|
        invariant !present && forall j :: 0 <= j < i ==> registered[j] != repository
      {
        if registered[i] == repository { present := true; break; }
      }
      if !present { repos := [repository] + repos; }
    }
    assert repos == if repository == "" || repository in registered then registered else [repository] + registered;
    for i := 0 to |repos|
      invariant forall j :: 0 <= j < i ==> !contains(repos[j])
    {
      if contains(repos[i]) {
        if |repos| == |registered| {
          assert IsFirst(registered, contains, i);
        } else if i > 0 {
          assert repos[0] == repository && !contains(repos[0]);
          assert registered[i - 1] == repos[i] && forall j :: 0 <= j < i - 1 ==> registered[j] == repos[j + 1];
          assert IsFirst(registered, contains, i - 1);
        }
        return Some(repos[i]);
      }
    }
    forall r | r in registered ensures !contains(r) {
      var j :| 0 <= j < |registered| && registered[j] == r;
      assert repos[if |repos| == |registered| then j else j + 1] == r;
    }
    assert |repos| > |registered| ==> repos[0] == repository && !contains(repos[0]);
    return None;
  }

  // ---------- the submodule filter ----------

  predicate IsChanged(pin: Pin, previous: map<string, string>) {
    pin.url !in previous || previous[pin.url] != pin.sha
  }

  function Changed(pins: seq<Pin>, previous: map<string, string>): seq<Pin> {
    if pins == [] then []
    else
      var last := pins[|pins| - 1];
      Changed(pins[..|pins| - 1], previous) + (if IsChanged(last, previous) then [last] else [])
  }

  method ChangedSubmodules(pins: seq<Pin>, previousStored: seq<Pin>) returns (changed: seq<Pin>)
    ensures changed == Changed(pins, PinnedSHAs(previousStored))
  {
    var prevSubSHAs := BuildPinnedSHAs(previousStored);
    changed := [];
    for i := 0 to |pins|
      invariant changed == Changed(pins[..i], prevSubSHAs)
    {
      assert pins[..i + 1][..i] == pins[..i];
      if pins[i].url !in prevSubSHAs || prevSubSHAs[pins[i].url] != pins[i].sha {
        changed := changed + [pins[i]];
      }
    }
    assert pins[..|pins|] == pins;
  }

  lemma {:induction false} ChangedMembers(pins: seq<Pin>, previous: map<string, string>)
    ensures forall pin :: pin in Changed(pins, previous) <==> pin in pins && IsChanged(pin, previous)
  {
    if pins != [] {
      ChangedMembers(pins[..|pins| - 1], previous);
      assert pins == pins[..|pins| - 1] + [pins[|pins| - 1]];
    }
  }

  /** Kept is exactly what is not the last earlier pin of its repository. */
  lemma ChangedIff(pins: seq<Pin>, previous: seq<Pin>, pin: Pin)
    ensures pin in Changed(pins, PinnedSHAs(previous)) <==> pin in pins && !LastPin(previous, pin.url, pin.sha)
  {
    ChangedMembers(pins, PinnedSHAs(previous));
    PinnedIff(previous, pin.url, pin.sha);
  }

  /** In the order of the pins. */
  lemma {:induction false} ChangedInOrder(pins: seq<Pin>, more: seq<Pin>, previous: map<string, string>)
    ensures Changed(pins + more, previous) == Changed(pins, previous) + Changed(more, previous)
  {
    if more == [] {
      assert pins + more == pins;
    } else {
      var init, last := more[..|more| - 1], more[|more| - 1];
      assert (pins + more)[..|pins + more| - 1] == pins + init && (pins + more)[|pins + more| - 1] == last;
      ChangedInOrder(pins, init, previous);
    }
  }

  // ---------- a chain of versions enriched in some order ----------

  /** What each version of a chain pins, oldest first; a version pins a repository at most once. */
  type History = seq<seq<Pin>>

  ghost predicate UniquePins(pins: seq<Pin>) {
    forall p, q :: p in pins && q in pins && p.url == q.url ==> p == q
  }

  ghost predicate ValidHistory(h: History) {
    forall i :: 0 <= i < |h| ==> UniquePins(h[i])
  }

  /** Enrich version i given what the rows hold now; an absent predecessor entry is a row without submodules. */
  function EnrichOne(h: History, rows: map<nat, seq<Pin>>, i: nat): map<nat, seq<Pin>>
    requires i < |h|
  {
    rows[i := Changed(h[i], if i > 0 && i - 1 in rows then PinnedSHAs(rows[i - 1]) else map[])]
  }

  /** An order in which some versions are enriched, each once. */
  predicate Enriches(h: History, order: seq<nat>) {
    Distinct(order) && forall k :: 0 <= k < |order| ==> order[k] < |h|
  }

  function EnrichAll(h: History, order: seq<nat>): map<nat, seq<Pin>>
    requires Enriches(h, order)
  {
    if order == [] then map[]
    else EnrichOne(h, EnrichAll(h, order[..|order| - 1]), order[|order| - 1])
  }

  /** Version i is enriched after its predecessor. */
  predicate AfterPredecessor(order: seq<nat>, i: nat) {
    exists x, y :: 0 <= x < y < |order| && order[x] == i - 1 && order[y] == i
  }

  /** The submodules in the row of version i at the end. */
  function Stored(h: History, order: seq<nat>, i: nat): seq<Pin>
    requires i < |h|
  {
    Changed(h[i], if i > 0 && AfterPredecessor(order, i) then PinnedSHAs(Stored(h, order, i - 1)) else map[])
  }

  lemma AfterPredecessorInit(order: seq<nat>, i: nat)
    requires order != [] && Distinct(order)
    ensures
      var init, last := order[..|order| - 1], order[|order| - 1];
      && (i in init ==> (AfterPredecessor(order, i) <==> AfterPredecessor(init, i)))
      && (i == last && i > 0 ==> (AfterPredecessor(order, i) <==> i - 1 in init))
  {
    var init, last := order[..|order| - 1], order[|order| - 1];
    if i == last && i > 0 && i - 1 in init {
      var x :| 0 <= x < |init| && init[x] == i - 1;
      assert order[x] == i - 1 && order[|order| - 1] == i;
    }
    if i in init && AfterPredecessor(init, i) {
      var x, y :| 0 <= x < y < |init| && init[x] == i - 1 && init[y] == i;
      assert order[x] == i - 1 && order[y] == i;
    }
    if i in init && AfterPredecessor(order, i) {
      var x, y :| 0 <= x < y < |order| && order[x] == i - 1 && order[y] == i;
      var z :| 0 <= z < |init| && init[z] == i;
      assert order[z] == i && z == y;
      assert init[x] == i - 1 && init[y] == i;
    }
  }

  lemma {:induction false} StoredInit(h: History, order: seq<nat>, i: nat)
    requires Enriches(h, order) && order != [] && i < |h| && i in order[..|order| - 1]
    ensures Stored(h, order, i) == Stored(h, order[..|order| - 1], i)
  {
    AfterPredecessorInit(order, i);
    if i > 0 && AfterPredecessor(order, i) {
      StoredInit(h, order, i - 1);
    }
  }

  lemma EnrichLast(h: History, order: seq<nat>)
    requires Enriches(h, order) && order != []
    requires
      var init := order[..|order| - 1];
      EnrichAll(h, init).Keys == Elems(init) && forall i :: i in init ==> EnrichAll(h, init)[i] == Stored(h, init, i)
    ensures EnrichAll(h, order)[order[|order| - 1]] == Stored(h, order, order[|order| - 1])
  {
    var init, last := order[..|order| - 1], order[|order| - 1];
    AfterPredecessorInit(order, last);
    if last > 0 && last - 1 in init {
      assert last - 1 in Elems(init);
      StoredInit(h, order, last - 1);
    }
  }

  /** Enriching in some order leaves each row as its place in the order says. */
  lemma {:induction false} EnrichAllStores(h: History, order: seq<nat>)
    requires Enriches(h, order)
    ensures EnrichAll(h, order).Keys == Elems(order)
    ensures forall i :: i in order ==> EnrichAll(h, order)[i] == Stored(h, order, i)
  {
    if order != [] {
      var init, last := order[..|order| - 1], order[|order| - 1];
      EnrichAllStores(h, init);
      EnrichLast(h, order);
      assert order == init + [last];
      forall i | i in init ensures i != last && Stored(h, order, i) == Stored(h, init, i) {
        StoredInit(h, order, i);
      }
    }
  }

  /** How many versions in a row, up to version i, have the submodule at this pin,
      each of them enriched after the one before. */
  function Unmoved(h: History, order: seq<nat>, i: nat, pin: Pin): nat
    requires i < |h|
  {
    if pin !in h[i] then 0
    else 1 + (if i > 0 && AfterPredecessor(order, i) then Unmoved(h, order, i - 1, pin) else 0)
  }

  lemma {:induction false} PinnedComplete(pins: seq<Pin>, pin: Pin)
    requires pin in pins && forall p :: p in pins && p.url == pin.url ==> p == pin
    ensures pin.url in PinnedSHAs(pins) && PinnedSHAs(pins)[pin.url] == pin.sha
  {
    var init, last := pins[..|pins| - 1], pins[|pins| - 1];
    assert pins == init + [last];
    if last != pin {
      PinnedComplete(init, pin);
    }
  }

  /** Among unique pins the lookup table holds exactly the pins. */
  lemma LookupUnique(pins: seq<Pin>, pin: Pin)
    requires UniquePins(pins)
    ensures (pin.url in PinnedSHAs(pins) && PinnedSHAs(pins)[pin.url] == pin.sha) <==> pin in pins
  {
    if pin.url in PinnedSHAs(pins) {
      PinnedIsPin(pins, pin.url);
    }
    if pin in pins {
      PinnedComplete(pins, pin);
    }
  }

  lemma StoredInHistory(h: History, order: seq<nat>, i: nat)
    requires ValidHistory(h) && i < |h|
    ensures forall pin :: pin in Stored(h, order, i) ==> pin in h[i]
    ensures UniquePins(Stored(h, order, i))
  {
    ChangedMembers(h[i], if i > 0 && AfterPredecessor(order, i) then PinnedSHAs(Stored(h, order, i - 1)) else map[]);
  }

  /** A version stores a pin exactly when the predecessor it sees does not. */
  lemma ChangedIffNotStored(pins: seq<Pin>, previous: seq<Pin>, pin: Pin)
    requires UniquePins(previous) && pin in pins
    ensures pin in Changed(pins, PinnedSHAs(previous)) <==> pin !in previous
  {
    ChangedMembers(pins, PinnedSHAs(previous));
    LookupUnique(previous, pin);
  }

  lemma StoredStep(h: History, order: seq<nat>, i: nat, pin: Pin)
    requires ValidHistory(h) && i < |h| && pin in h[i]
    ensures pin in Stored(h, order, i) <==>
      !(i > 0 && AfterPredecessor(order, i) && pin in Stored(h, order, i - 1))
  {
    if i > 0 && AfterPredecessor(order, i) {
      StoredInHistory(h, order, i - 1);
      ChangedIffNotStored(h[i], Stored(h, order, i - 1), pin);
    } else {
      ChangedMembers(h[i], map[]);
    }
  }

  predicate Odd(n: nat) {
    n % 2 == 1
  }

  lemma OddNext(n: nat)
    ensures Odd(n + 1) <==> !Odd(n)
  {
  }

  /** Stored by version i unless its predecessor was enriched before and stores it. */
  lemma StoredNext(h: History, order: seq<nat>, i: nat, pin: Pin, before: bool)
    requires ValidHistory(h) && i < |h| && pin in h[i]
    requires before == (i > 0 && AfterPredecessor(order, i) && pin in h[i - 1])
    ensures before ==> (pin in Stored(h, order, i) <==> pin !in Stored(h, order, i - 1))
    ensures before ==> Unmoved(h, order, i, pin) == 1 + Unmoved(h, order, i - 1, pin)
    ensures !before ==> pin in Stored(h, order, i) && Unmoved(h, order, i, pin) == 1
  {
    StoredStep(h, order, i, pin);
    if i > 0 && !before {
      StoredInHistory(h, order, i - 1);
    }
  }

  /** A submodule that stays at its pin is stored by every other version only: by the first, third, fifth, ...
      of a run of versions that were enriched one after the other. */
  lemma {:induction false} StoredIffOdd(h: History, order: seq<nat>, i: nat, pin: Pin)
    requires ValidHistory(h) && i < |h| && pin in h[i]
    ensures pin in Stored(h, order, i) <==> Odd(Unmoved(h, order, i, pin))
  {
    var before := i > 0 && AfterPredecessor(order, i) && pin in h[i - 1];
    StoredNext(h, order, i, pin, before);
    if before {
      StoredIffOdd(h, order, i - 1, pin);
      OddNext(Unmoved(h, order, i - 1, pin));
    }
  }

  /** The log between two pins of a submodule, as git tells it, has commits. */
  ghost predicate HasNewCommits(git: Git, url: string, from: string, to: string) {
    exists path, commits :: git.resolve(url) == Some(path) && git.log(path, from, to) == Some(commits) && commits != []
  }

  lemma ListedIffStored(git: Git, pinned: seq<Pin>, stored: seq<Pin>, pins: seq<Pin>, repo: string, sha: string,
                        path: string, was: Pin, now: Pin)
    requires UniquePins(pinned) && was in pinned && (forall p :: p in stored ==> p in pinned)
    requires git.resolve(repo) == Some(path) && git.submodulesAt(path, sha) == Some(pins)
    requires now in pins && was.url == now.url && was.sha != now.sha
    requires HasNewCommits(git, was.url, was.sha, now.sha)
    ensures
      var r := Compute(git, repo, sha, stored, 0);
      (r.Some? && was.url in r.value) <==> was in stored
  {
    PinKnown(pinned, stored, was);
    ListedIfKnown(git, stored, pins, was, now);
    CollectListed(git, stored, pins, 0, was.url);
  }

  /** After phase 1 in whatever order, the changelog of version i mentions a submodule that moved since version i-1
      if and only if it had been at its old pin for an odd number of versions enriched one after the other. */
  lemma MovedSubmoduleListedIffOdd(git: Git, h: History, order: seq<nat>, i: nat, repo: string, sha: string,
                                   path: string, was: Pin, now: Pin)
    requires ValidHistory(h) && 0 < i < |h| && Enriches(h, order) && i - 1 in order
    requires git.resolve(repo) == Some(path) && git.submodulesAt(path, sha) == Some(h[i])
    requires was in h[i - 1] && now in h[i] && was.url == now.url && was.sha != now.sha
    requires HasNewCommits(git, was.url, was.sha, now.sha)
    ensures i - 1 in EnrichAll(h, order)
    ensures
      var r := Compute(git, repo, sha, EnrichAll(h, order)[i - 1], 0);
      (r.Some? && was.url in r.value) <==> Odd(Unmoved(h, order, i - 1, was))
  {
    EnrichAllStores(h, order);
    assert i - 1 in Elems(order);
    StoredIffOdd(h, order, i - 1, was);
    StoredInHistory(h, order, i - 1);
    ListedIffStored(git, h[i - 1], EnrichAll(h, order)[i - 1], h[i], repo, sha, path, was, now);
  }

  lemma PinKnown(pins: seq<Pin>, stored: seq<Pin>, pin: Pin)
    requires UniquePins(pins) && pin in pins && (forall p :: p in stored ==> p in pins)
    ensures pin.url in PinnedSHAs(stored) <==> pin in stored
    ensures pin in stored ==> PinnedSHAs(stored)[pin.url] == pin.sha
  {
    LookupUnique(stored, pin);
    if pin.url in PinnedSHAs(stored) {
      PinnedIsPin(stored, pin.url);
    }
  }

  lemma ListedIfKnown(git: Git, stored: seq<Pin>, pins: seq<Pin>, was: Pin, now: Pin)
    requires now in pins && was.url == now.url && was.sha != now.sha
    requires HasNewCommits(git, was.url, was.sha, now.sha)
    requires was.url in PinnedSHAs(stored) ==> PinnedSHAs(stored)[was.url] == was.sha
    ensures Listed(git, stored, pins, was.url) <==> was.url in PinnedSHAs(stored)
  {
    if was.url in PinnedSHAs(stored) {
      MovesIff(git, stored, now);
      assert MovedLog(git, PinnedSHAs(stored), now).Some?;
    }
    if pin :| pin in pins && pin.url == was.url && Moves(git, stored, pin) {
      MovesIff(git, stored, pin);
    }
  }

  // ---------- when the order matters ----------

  /** The row of version i, enriched when its predecessor's row holds previous. */
  lemma EitherWay(h: History, rows: map<nat, seq<Pin>>, i: nat)
    requires 0 < i < |h| && i - 1 !in rows && i !in rows
    ensures
      var older := EnrichOne(h, rows, i - 1)[i - 1];
      && EnrichOne(h, EnrichOne(h, rows, i - 1), i) == rows[i - 1 := older][i := Changed(h[i], PinnedSHAs(older))]
      && EnrichOne(h, EnrichOne(h, rows, i), i - 1) == rows[i - 1 := older][i := Changed(h[i], map[])]
  {
  }

  /** Two neighbours may be enriched in either order exactly when the younger pins nothing that the older stores. */
  lemma NeighboursCommuteIff(h: History, rows: map<nat, seq<Pin>>, i: nat)
    requires ValidHistory(h) && 0 < i < |h| && i - 1 !in rows && i !in rows
    ensures EnrichOne(h, EnrichOne(h, rows, i - 1), i) == EnrichOne(h, EnrichOne(h, rows, i), i - 1)
       <==> forall pin :: pin in h[i] ==> pin !in EnrichOne(h, rows, i - 1)[i - 1]
  {
    var older := EnrichOne(h, rows, i - 1)[i - 1];
    EitherWay(h, rows, i);
    ChangedMembers(h[i - 1], if i > 1 && i - 2 in rows then PinnedSHAs(rows[i - 2]) else map[]);
    SameFilterIff(h[i], older);
    var after, before := Changed(h[i], PinnedSHAs(older)), Changed(h[i], map[]);
    assert rows[i - 1 := older][i := after][i] == after && rows[i - 1 := older][i := before][i] == before;
  }

  /** Comparing with earlier pins drops nothing exactly when none of them is still there. */
  lemma SameFilterIff(pins: seq<Pin>, previous: seq<Pin>)
    requires UniquePins(previous)
    ensures Changed(pins, PinnedSHAs(previous)) == Changed(pins, map[]) <==> forall pin :: pin in pins ==>
      pin !in previous
  {
    ChangedMembers(pins, map[]);
    forall pin | pin in pins ensures pin in Changed(pins, PinnedSHAs(previous)) <==> pin !in previous {
      ChangedIffNotStored(pins, previous, pin);
    }
    KeepAll(pins, map[]);
    if forall pin :: pin in pins ==> pin !in previous {
      KeepAll(pins, PinnedSHAs(previous));
    }
  }

  lemma {:induction false} AllChanged(pins: seq<Pin>, previous: map<string, string>)
    requires forall pin :: pin in pins ==> IsChanged(pin, previous)
    ensures Changed(pins, previous) == pins
  {
    if pins != [] {
      AllChanged(pins[..|pins| - 1], previous);
    }
  }

  /** A filter that finds nothing to drop keeps the list as it is. */
  lemma KeepAll(pins: seq<Pin>, previous: map<string, string>)
    requires forall pin :: pin in pins ==> pin in Changed(pins, previous)
    ensures Changed(pins, previous) == pins
  {
    ChangedMembers(pins, previous);
    AllChanged(pins, previous);
  }

  /** All versions, each once. */
  predicate IsCompleteOrder(h: History, order: seq<nat>) {
    Enriches(h, order) && forall i: nat :: i < |h| ==> i in order
  }

  /** Phase 1 gives the same rows in whatever order it enriches the versions. */
  ghost predicate OrderIrrelevant(h: History) {
    forall one, other :: IsCompleteOrder(h, one) && IsCompleteOrder(h, other) ==>
      EnrichAll(h, one) == EnrichAll(h, other)
  }

  predicate SharedPin(h: History, i: nat, pin: Pin) {
    0 < i < |h| && pin in h[i] && pin in h[i - 1]
  }

  ghost predicate NeighboursShareNothing(h: History) {
    forall i, pin :: !SharedPin(h, i, pin)
  }

  lemma StoresEverything(h: History, order: seq<nat>, i: nat)
    requires ValidHistory(h) && NeighboursShareNothing(h) && i < |h|
    ensures Stored(h, order, i) == h[i]
  {
    forall pin | pin in h[i] ensures pin in Stored(h, order, i) {
      StoredStep(h, order, i, pin);
      if i > 0 && AfterPredecessor(order, i) {
        StoredInHistory(h, order, i - 1);
        assert !SharedPin(h, i, pin);
      }
    }
    KeepAll(h[i], if i > 0 && AfterPredecessor(order, i) then PinnedSHAs(Stored(h, order, i - 1)) else map[]);
  }

  function OldestFirst(n: nat): seq<nat> {
    seq(n, k requires 0 <= k < n => k)
  }

  function NewestFirst(n: nat): seq<nat> {
    seq(n, k requires 0 <= k < n => n - 1 - k)
  }

  lemma BothComplete(h: History)
    ensures IsCompleteOrder(h, OldestFirst(|h|)) && IsCompleteOrder(h, NewestFirst(|h|))
    ensures forall i :: 0 < i < |h| ==> AfterPredecessor(OldestFirst(|h|), i) && !AfterPredecessor(NewestFirst(|h|), i)
  {
    var oldest, newest := OldestFirst(|h|), NewestFirst(|h|);
    forall i: nat | i < |h| ensures i in oldest && i in newest {
      assert oldest[i] == i && newest[|h| - 1 - i] == i;
    }
    forall i | 0 < i < |h| ensures AfterPredecessor(oldest, i) {
      assert oldest[i - 1] == i - 1 && oldest[i] == i;
    }
  }

  /** Newest first, both versions store the shared pin; oldest first, only one of them does. */
  lemma SharedPinTells(h: History, i: nat, pin: Pin)
    requires ValidHistory(h) && SharedPin(h, i, pin)
    ensures EnrichAll(h, OldestFirst(|h|)) != EnrichAll(h, NewestFirst(|h|))
  {
    var oldest, newest := OldestFirst(|h|), NewestFirst(|h|);
    BothComplete(h);
    NewestStores(h, i, pin);
    NewestStores(h, i - 1, pin);
    StoredNext(h, oldest, i, pin, true);
    EnrichAllStores(h, oldest);
    assert i in oldest && i - 1 in oldest;
  }

  lemma NewestStores(h: History, i: nat, pin: Pin)
    requires ValidHistory(h) && i < |h| && pin in h[i]
    ensures IsCompleteOrder(h, NewestFirst(|h|))
    ensures i in EnrichAll(h, NewestFirst(|h|)) && pin in EnrichAll(h, NewestFirst(|h|))[i]
  {
    BothComplete(h);
    StoredNext(h, NewestFirst(|h|), i, pin, false);
    EnrichAllStores(h, NewestFirst(|h|));
    assert i in NewestFirst(|h|);
  }

  /** Unlike phase 2, phase 1 depends on the order: all orders agree if and only if
      no two neighbouring versions pin a submodule at the same commit. */
  lemma OrderIrrelevantIff(h: History)
    requires ValidHistory(h)
    ensures OrderIrrelevant(h) <==> NeighboursShareNothing(h)
  {
    if NeighboursShareNothing(h) {
      forall one: seq<nat>, other: seq<nat> | IsCompleteOrder(h, one) && IsCompleteOrder(h, other)
        ensures EnrichAll(h, one) == EnrichAll(h, other)
      {
        EnrichAllStores(h, one);
        EnrichAllStores(h, other);
        forall i: nat | i < |h| ensures Stored(h, one, i) == Stored(h, other, i) {
          StoresEverything(h, one, i);
          StoresEverything(h, other, i);
        }
        assert Elems(one) == Elems(other);
      }
    } else {
      var i, pin :| SharedPin(h, i, pin);
      BothComplete(h);
      SharedPinTells(h, i, pin);
    }
  }
}
