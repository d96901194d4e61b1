/** `removeDoc(id)` (app.js:230-236): permanent deletion from the trash. */
module Remove {
  import opened Wrappers
  import opened Documents
  import opened Forest
  import opened Shape
  import opened Workspace
  import opened Archive

  /**
   * The state after `removeDoc(id)`: the live list is untouched; the trash
   * loses the entries whose ids are `id` or the id of a live descendant of
   * `id`, and keeps the others in their order.
   */
  function RemoveSpec(s: State, id: Id): (r: State)
  {
    State(s.docs, FilterOut(s.trash, IdSet(Targets(s.docs, id))))
  }

  /**
   * The set of ids `removeDoc` deletes is computed over the live list, so for
   * an id that is not live (every entry of the trash, under the invariant) it
   * is just `{id}`: the archived descendants of a removed document stay in
   * the trash.
   */
  lemma {:induction false} RemoveOnlySelf(s: State, id: Id)
    requires Inv(s) && !Live(s.docs, id)
    ensures RemoveSpec(s, id).trash == FilterOut(s.trash, {id})
  {
    ChildMeansLive(s.docs, id);
    assert Targets(s.docs, id) == [id];
    assert IdSet([id]) == {id};
  }

  /** Removing a trashed document deletes exactly its one entry. */
  lemma {:induction false} RemoveEntry(s: State, i: nat)
    requires Inv(s) && i < |s.trash|
    ensures RemoveSpec(s, s.trash[i].id) == State(s.docs, s.trash[..i] + s.trash[i + 1..])
  {
    UniqueParts(s.docs, s.trash);
    assert s.trash[i] in s.trash;
    assert !Live(s.docs, s.trash[i].id);
    RemoveOnlySelf(s, s.trash[i].id);
    FilterOutRemove(s.trash, i);
  }

  /** `removeDoc` keeps the invariant of the store. */
  lemma {:induction false} RemoveKeepsInv(s: State, id: Id)
    requires Inv(s)
    ensures Inv(RemoveSpec(s, id))
  {
    var t := RemoveSpec(s, id).trash;
    UniqueParts(s.docs, s.trash);
    FilterOutUnique(s.trash, IdSet(Targets(s.docs, id)));
    forall x, y | x in s.docs && y in t ensures x.id != y.id {
      assert y in s.trash;
    }
    AppendUnique(s.docs, t);
  }
}
