/** The defensive merge of commit_body in the CreateArtifactVersion upsert.
    A commit body is a JSON object; None stands for SQL NULL. */
module CommitBodyMerge {
  import opened Common

  datatype Json = JsonNull | JsonString(text: string) | JsonOther(text: string)

  type Body = map<string, Json>

  /** body->>'sha', or None for SQL NULL. */
  function Sha(body: Body): Option<string> {
    if "sha" !in body || body["sha"].JsonNull? then None else Some(body["sha"].text)
  }

  predicate Usable(body: Body) {
    Sha(body).Some? && Sha(body).value != ""
  }

  function Merge(existing: Option<Body>, incoming: Option<Body>): Option<Body> {
    if incoming.None? then existing
    else if existing.None? then incoming
    else if !Usable(incoming.value) && Usable(existing.value) then existing
    else Some(existing.value + incoming.value)
  }

  /** The text of the sha key, if it is there and not null, is not empty. */
  predicate NamesCommit(body: Body) {
    "sha" in body && body["sha"] != JsonNull && body["sha"].text != ""
  }

  /** Without a stored body the incoming one is taken, and without an incoming one nothing changes; a body that names no
      commit does not touch one that does; otherwise the row has the keys of both, and incoming values win. */
  lemma MergeMeaning(existing: Option<Body>, incoming: Option<Body>)
    ensures incoming == None ==> Merge(existing, incoming) == existing
    ensures incoming.Some? && existing == None ==> Merge(existing, incoming) == incoming
    ensures incoming.Some? && existing.Some? && NamesCommit(existing.value) && !NamesCommit(incoming.value) ==>
              Merge(existing, incoming) == existing
    ensures incoming.Some? && existing.Some? && (NamesCommit(incoming.value) || !NamesCommit(existing.value)) ==>
              && Merge(existing, incoming).Some?
              && forall key ::
                   && (key in Merge(existing, incoming).value <==> key in existing.value || key in incoming.value)
                   && (key in incoming.value ==> Merge(existing, incoming).value[key] == incoming.value[key])
                   && (key in existing.value && key !in incoming.value ==>
                         Merge(existing, incoming).value[key] == existing.value[key])
  {
    forall body: Body ensures Usable(body) <==> NamesCommit(body) {}
  }

  function MergeAll(existing: Option<Body>, incoming: seq<Option<Body>>): Option<Body>
    decreases incoming
  {
    if incoming == [] then existing else MergeAll(Merge(existing, incoming[0]), incoming[1..])
  }

  function UsableSha(body: Option<Body>): Option<string> {
    if body.Some? && Usable(body.value) then Sha(body.value) else None
  }

  /** The newest usable sha among the stored body and the incoming ones. */
  function LastUsableSha(existing: Option<Body>, incoming: seq<Option<Body>>): Option<string> {
    if incoming == [] then UsableSha(existing)
    else
      var last := incoming[|incoming| - 1];
      if UsableSha(last).Some? then UsableSha(last) else LastUsableSha(existing, incoming[..|incoming| - 1])
  }

  lemma {:induction false} MergeAllSnoc(existing: Option<Body>, incoming: seq<Option<Body>>, last: Option<Body>)
    ensures MergeAll(existing, incoming + [last]) == Merge(MergeAll(existing, incoming), last)
    decreases incoming
  {
    if incoming == [] {
      assert [last][1..] == [];
    } else {
      assert (incoming + [last])[0] == incoming[0] && (incoming + [last])[1..] == incoming[1..] + [last];
      MergeAllSnoc(Merge(existing, incoming[0]), incoming[1..], last);
    }
  }

  /** Whatever writers do, the row carries the newest usable sha: none replaces it by an unusable one. */
  lemma {:induction false} ShaSurvives(existing: Option<Body>, incoming: seq<Option<Body>>)
    ensures UsableSha(MergeAll(existing, incoming)) == LastUsableSha(existing, incoming)
    decreases |incoming|
  {
    if incoming != [] {
      var init, last := incoming[..|incoming| - 1], incoming[|incoming| - 1];
      assert incoming == init + [last];
      MergeAllSnoc(existing, init, last);
      ShaSurvives(existing, init);
    }
  }

  /** No key is ever lost, and a key that no incoming body mentions keeps its value. */
  lemma {:induction false} KeysSurvive(existing: Option<Body>, incoming: seq<Option<Body>>, key: string)
    requires existing.Some? && key in existing.value
    ensures MergeAll(existing, incoming).Some? && key in MergeAll(existing, incoming).value
    ensures (forall i :: 0 <= i < |incoming| && incoming[i].Some? ==> key !in incoming[i].value) ==>
              MergeAll(existing, incoming).value[key] == existing.value[key]
    decreases incoming
  {
    if incoming != [] {
      KeysSurvive(Merge(existing, incoming[0]), incoming[1..], key);
    }
  }

  /** Repeating an upsert changes nothing. */
  lemma MergeIdempotent(existing: Option<Body>, incoming: Option<Body>)
    ensures Merge(Merge(existing, incoming), incoming) == Merge(existing, incoming)
  {
    if existing.Some? && incoming.Some? {
      assert existing.value + incoming.value + incoming.value == existing.value + incoming.value;
      assert incoming.value + incoming.value == incoming.value;
    } else if incoming.Some? {
      assert incoming.value + incoming.value == incoming.value;
    }
  }
}
