/** `updateDoc(id, patch)` (app.js:178-183). */
module Update {
  import opened Wrappers
  import opened Documents
  import opened Forest
  import opened Lists
  import opened Shape
  import opened Normalize
  import opened Workspace

  /**
   * `Object.assign(d, patch, { updatedAt: now })`: the patched document takes
   * each field the patch names, keeps every other field, and is stamped `now`.
   */
  function Apply(d: Doc, p: Patch, now: int): (r: Doc)
    ensures r.id == d.id && r.parentId == d.parentId && r.order == d.order
    ensures r.createdAt == d.createdAt && r.origParent == d.origParent && r.restoredOrphan == d.restoredOrphan
    ensures r.updatedAt == now
    ensures r.title == (if p.title.Some? then p.title.value else d.title)
    ensures r.icon == (if p.icon.Some? then p.icon.value else d.icon)
    ensures r.content == (if p.content.Some? then p.content.value else d.content)
    ensures r.starred == (if p.starred.Some? then p.starred.value else d.starred)
  {
    d.(title := if p.title.Some? then p.title.value else d.title,
       icon := if p.icon.Some? then p.icon.value else d.icon,
       content := if p.content.Some? then p.content.value else d.content,
       starred := if p.starred.Some? then p.starred.value else d.starred,
       updatedAt := now)
  }

  /** The live list after `updateDoc(id, patch)` at time `now`. */
  function UpdateSpec(docs: seq<Doc>, id: Id, p: Patch, now: int): (r: seq<Doc>)
  {
    var i := IndexOf(docs, id);
    if i < 0 then docs else docs[i := Apply(docs[i], p, now)]
  }

  /**
   * `updateDoc` does nothing when `id` is not live; otherwise it patches the
   * document with that id and no other.
   */
  lemma {:induction false} UpdateFrame(docs: seq<Doc>, id: Id, p: Patch, now: int)
    requires UniqueIds(docs)
    ensures !Live(docs, id) ==> UpdateSpec(docs, id, p, now) == docs
    ensures UpdateSpec(docs, id, p, now) == Map(At(id, (d: Doc) => Apply(d, p, now)), docs)
  {
    var i := IndexOf(docs, id);
    var f := (d: Doc) => Apply(d, p, now);
    if i < 0 {
      var m := Map(At(id, f), docs);
      forall j | 0 <= j < |docs| ensures m[j] == docs[j] {
      }
    } else {
      EditOne(docs, i, f);
    }
  }

  /** `updateDoc` keeps the invariant of the store. */
  lemma {:induction false} UpdateKeepsInv(s: State, id: Id, p: Patch, now: int)
    requires Inv(s)
    ensures Inv(State(UpdateSpec(s.docs, id, p, now), s.trash))
  {
    var r := UpdateSpec(s.docs, id, p, now);
    assert SameShape(s.docs, r);
    InvShape(s, r);
  }

  /**
   * A patch without a title keeps every sibling group in its order, so a
   * normalised group stays normalised.
   */
  lemma {:induction false} UpdateKeepsGroups(docs: seq<Doc>, id: Id, p: Patch, now: int, q: Option<Id>)
    requires UniqueIds(docs) && p.title.None?
    ensures ChildrenOf(UpdateSpec(docs, id, p, now), q) ==
      Map(At(id, (d: Doc) => Apply(d, p, now)), ChildrenOf(docs, q))
    ensures Normalized(docs, q) ==> Normalized(UpdateSpec(docs, id, p, now), q)
  {
    var f := At(id, (d: Doc) => Apply(d, p, now));
    UpdateFrame(docs, id, p, now);
    assert KeepsPlace(f);
    ChildrenMap(f, docs, q);
    if Normalized(docs, q) {
      NormalizedMap(f, docs, q);
    }
  }
}
