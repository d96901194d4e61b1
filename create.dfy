/** `createDoc({ title, parentId, afterId })` (app.js:151-176). */
module Create {
  import opened Wrappers
  import opened Documents
  import opened Forest
  import opened Shape
  import opened Normalize
  import opened Placement
  import opened Workspace

  /** The title `createDoc` stores: the argument, or "Untitled" when it is omitted. */
  function TitleOrDefault(title: Option<string>): (r: string)
  {
    if title.Some? then title.value else "Untitled"
  }

  /**
   * The order the new document gets before its group is renumbered: half a
   * step after the sibling named by `afterId` when there is one, otherwise
   * one past the largest order in the group.
   */
  function CreateOrder(docs: seq<Doc>, parentId: Option<Id>, afterId: Option<Id>): (r: real)
  {
    var order := MaxOrder(docs, parentId);
    if afterId.Some? then
      var sibs := ChildrenOf(docs, parentId);
      var idx := IndexOf(sibs, afterId.value);
      if idx >= 0 then sibs[idx].order + 0.5 else order
    else order
  }

  /** The new record: empty icon and content, not starred, both time stamps `now`. */
  function NewDoc(id: Id, title: Option<string>, parentId: Option<Id>, order: real, now: int): (r: Doc)
  {
    Doc(id, TitleOrDefault(title), "", parentId, "", false, order, now, now, None, false)
  }

  /** The live list after `createDoc` with the fresh id `id` at time `now`: push, then `normalizeOrders(parentId)`. */
  function CreateSpec(docs: seq<Doc>, id: Id, title: Option<string>, parentId: Option<Id>,
                      afterId: Option<Id>, now: int): (r: seq<Doc>)
  {
    Renumber(docs + [NewDoc(id, title, parentId, CreateOrder(docs, parentId, afterId), now)], parentId)
  }

  /**
   * `createDoc` appends exactly one document, with the given id, title (or
   * "Untitled" when none is given) and parent, empty icon and content, not
   * starred and stamped `now`; the documents already live keep everything but
   * their order, and only members of the new document's group are renumbered.
   */
  lemma {:induction false} CreateFields(docs: seq<Doc>, id: Id, title: Option<string>, parentId: Option<Id>,
                                        afterId: Option<Id>, now: int)
    ensures var r := CreateSpec(docs, id, title, parentId, afterId, now);
      && |r| == |docs| + 1
      && r[|docs|].id == id && r[|docs|].parentId == parentId
      && (title.Some? ==> r[|docs|].title == title.value) && (title.None? ==> r[|docs|].title == "Untitled")
      && r[|docs|].icon == "" && r[|docs|].content == "" && !r[|docs|].starred
      && r[|docs|].createdAt == now && r[|docs|].updatedAt == now
      && r[|docs|].origParent.None? && !r[|docs|].restoredOrphan
      && (forall j :: 0 <= j < |docs| ==> r[j] == docs[j].(order := r[j].order))
      && (forall j :: 0 <= j < |docs| && docs[j].parentId != parentId ==> r[j] == docs[j])
  {
    var d := docs + [NewDoc(id, title, parentId, CreateOrder(docs, parentId, afterId), now)];
    assert forall j :: 0 <= j < |docs| ==> d[j] == docs[j];
  }

  /** A fresh id under a live parent (or at the root) keeps the invariant of the store. */
  lemma {:induction false} CreateKeepsInv(s: State, id: Id, title: Option<string>, parentId: Option<Id>,
                                          afterId: Option<Id>, now: int)
    requires Inv(s) && !Live(s.docs + s.trash, id)
    requires parentId.Some? ==> Live(s.docs, parentId.value)
    ensures Inv(State(CreateSpec(s.docs, id, title, parentId, afterId, now), s.trash))
  {
    var n := NewDoc(id, title, parentId, CreateOrder(s.docs, parentId, afterId), now);
    AddLeaf(s, n);
    InvShape(State(s.docs + [n], s.trash), CreateSpec(s.docs, id, title, parentId, afterId, now));
  }

  /** After `createDoc` the children of `parentId` have the orders 0, 1, 2, ... */
  lemma {:induction false} CreateNormalizes(s: State, id: Id, title: Option<string>, parentId: Option<Id>,
                                            afterId: Option<Id>, now: int)
    requires Inv(s) && !Live(s.docs + s.trash, id)
    requires parentId.Some? ==> Live(s.docs, parentId.value)
    ensures Normalized(CreateSpec(s.docs, id, title, parentId, afterId, now), parentId)
  {
    var n := NewDoc(id, title, parentId, CreateOrder(s.docs, parentId, afterId), now);
    AddLeaf(s, n);
    UniqueParts(s.docs + [n], s.trash);
    RenumberNormalizes(s.docs + [n], parentId);
  }

  /** The sibling that `afterId` names, if it is a child of `parentId`. */
  predicate NamesSibling(docs: seq<Doc>, parentId: Option<Id>, afterId: Option<Id>)
  {
    afterId.Some? && exists d :: d in docs && d.id == afterId.value && d.parentId == parentId
  }

  /** Without a sibling named by `afterId` the new document comes last among its siblings. */
  lemma {:induction false} CreateLast(docs: seq<Doc>, id: Id, title: Option<string>, parentId: Option<Id>,
                                      afterId: Option<Id>, now: int)
    requires UniqueIds(docs) && !Live(docs, id)
    requires !NamesSibling(docs, parentId, afterId)
    ensures var r := CreateSpec(docs, id, title, parentId, afterId, now);
      var kids := ChildrenOf(r, parentId);
      |kids| > 0 && kids[|kids| - 1] == r[|docs|]
  {
    AppendOrder(docs, parentId, afterId);
    AppendLast(docs, NewDoc(id, title, parentId, CreateOrder(docs, parentId, afterId), now));
  }

  /** A fresh document with order `maxOrder` of its group ends up last in that group once renumbered. */
  lemma {:induction false} AppendLast(docs: seq<Doc>, n: Doc)
    requires UniqueIds(docs) && !Live(docs, n.id)
    requires n.order == MaxOrder(docs, n.parentId)
    ensures var r := Renumber(docs + [n], n.parentId);
      var kids := ChildrenOf(r, n.parentId);
      |kids| > 0 && kids[|kids| - 1] == r[|docs|]
  {
    UniqueAppend(docs, n);
    AboveAll(docs, n.parentId, n);
    RenumberLast(docs + [n], n.parentId, |docs|);
  }

  /** Without a sibling named by `afterId` the new order is `maxOrder(parentId)`. */
  lemma {:induction false} AppendOrder(docs: seq<Doc>, parentId: Option<Id>, afterId: Option<Id>)
    requires !NamesSibling(docs, parentId, afterId)
    ensures CreateOrder(docs, parentId, afterId) == MaxOrder(docs, parentId)
  {
    if afterId.Some? {
      var sibs := ChildrenOf(docs, parentId);
      var idx := IndexOf(sibs, afterId.value);
      if idx >= 0 {
        assert false;
      }
    }
  }

  /** A document with order `maxOrder(parentId)` is above every child of `parentId`. */
  lemma {:induction false} AboveAll(docs: seq<Doc>, parentId: Option<Id>, n: Doc)
    requires n.parentId == parentId && n.order == MaxOrder(docs, parentId)
    ensures var d := docs + [n];
      forall j :: 0 <= j < |d| && j != |docs| && d[j].parentId == parentId ==> d[j].order < d[|docs|].order
  {
    var d := docs + [n];
    forall j | 0 <= j < |d| && j != |docs| && d[j].parentId == parentId ensures d[j].order < d[|docs|].order {
      assert d[j] == docs[j] && docs[j] in docs;
    }
  }

  /** When `afterId` names a sibling, the new order is half a step above that sibling's. */
  lemma {:induction false} AfterOrder(docs: seq<Doc>, parentId: Option<Id>, afterId: Option<Id>)
    requires UniqueIds(docs) && NamesSibling(docs, parentId, afterId)
    ensures 0 <= IndexOf(docs, afterId.value) < |docs|
    ensures docs[IndexOf(docs, afterId.value)].parentId == parentId
    ensures CreateOrder(docs, parentId, afterId) == docs[IndexOf(docs, afterId.value)].order + 0.5
  {
    var x :| x in docs && x.id == afterId.value && x.parentId == parentId;
    var a := IndexOf(docs, afterId.value);
    SameId(docs, docs[a], x);
    var sibs := ChildrenOf(docs, parentId);
    assert x in sibs;
    var idx := IndexOf(sibs, afterId.value);
    assert sibs[idx] in docs;
    SameId(docs, sibs[idx], x);
  }

  /**
   * When `afterId` names a child of a normalised group, the new document lands
   * right after it: their orders, and so their positions, are consecutive.
   */
  lemma {:induction false} CreateAfter(docs: seq<Doc>, id: Id, title: Option<string>, parentId: Option<Id>,
                                       afterId: Option<Id>, now: int)
    requires UniqueIds(docs) && !Live(docs, id)
    requires NamesSibling(docs, parentId, afterId) && Normalized(docs, parentId)
    ensures var r := CreateSpec(docs, id, title, parentId, afterId, now);
      var a := IndexOf(docs, afterId.value);
      && 0 <= a < |docs|
      && r[|docs|].order == r[a].order + 1.0
      && Adjacent(r, parentId, a, |docs|)
  {
    AfterOrder(docs, parentId, afterId);
    var a := IndexOf(docs, afterId.value);
    var n := NewDoc(id, title, parentId, CreateOrder(docs, parentId, afterId), now);
    var d := docs + [n];
    UniqueAppend(docs, n);
    AfterSpaced(docs, parentId, a, n);
    RenumberAdjacent(d, parentId, a, |docs|);
    var r := Renumber(d, parentId);
    RenumberNormalizes(d, parentId);
    SameShapeKeeps(d, r);
    assert r[a].parentId == parentId && r[|docs|].parentId == parentId;
    Neighbours(r, parentId, a, |docs|);
  }

  /** In a normalised group nothing but the new document has an order within half a step above `docs[a]`. */
  lemma {:induction false} AfterSpaced(docs: seq<Doc>, parentId: Option<Id>, a: nat, n: Doc)
    requires UniqueIds(docs) && Normalized(docs, parentId) && a < |docs| && docs[a].parentId == parentId
    requires n.order == docs[a].order + 0.5
    ensures var d := docs + [n];
      forall j :: 0 <= j < |d| && j != a && j != |docs| && d[j].parentId == parentId ==>
        d[j].order < d[a].order || d[|docs|].order < d[j].order
  {
    var d := docs + [n];
    forall j | 0 <= j < |d| && j != a && j != |docs| && d[j].parentId == parentId
      ensures d[j].order < d[a].order || d[|docs|].order < d[j].order
    {
      assert d[j] == docs[j] && d[a] == docs[a];
      NormalizedSpaced(docs, parentId, docs[j], docs[a]);
    }
  }
}
