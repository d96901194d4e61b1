/**
 * The two ancestor loops of app.js: `isDescendant` and `pathOf`. Each walks up
 * the parent chain with `findDoc`; in an acyclic forest the rank of the current
 * document falls at every step, which is what makes both loops stop.
 */
module Ancestors {
  import opened Wrappers
  import opened Documents
  import opened Forest
  import opened Lists

  /** Being under `a` is having `a` as parent, or a live parent that is under `a`. */
  lemma {:induction false} UnderUnfold(docs: seq<Doc>, d: Doc, a: Id)
    requires Acyclic(docs) && d in docs
    ensures Under(docs, d, a) <==>
      || d.parentId == Some(a)
      || (d.parentId.Some? && FindDoc(docs, d.parentId.value).Some? &&
          Under(docs, FindDoc(docs, d.parentId.value).value, a))
  {
    var path := Ancestry(docs, d);
    if d.parentId.Some? && FindDoc(docs, d.parentId.value).Some? {
      var q := FindDoc(docs, d.parentId.value).value;
      var prefix := Ancestry(docs, q);
      assert path == prefix + [d];
      if Under(docs, d, a) && d.parentId != Some(a) {
        var k :| 0 <= k < |path| && path[k].parentId == Some(a);
        assert path[k] == prefix[k];
      }
      if Under(docs, q, a) {
        var k :| 0 <= k < |prefix| && prefix[k].parentId == Some(a);
        assert path[k] == prefix[k];
      }
    }
    if d.parentId == Some(a) {
      assert path[|path| - 1].parentId == Some(a);
    }
  }

  /** The rank of the parent found by `findDoc` is below the rank of the child. */
  lemma {:induction false} ParentRankBelow(docs: seq<Doc>, d: Doc)
    requires Acyclic(docs) && d in docs && d.parentId.Some? && FindDoc(docs, d.parentId.value).Some?
    ensures FindDoc(docs, d.parentId.value).value in docs
    ensures RankOf(docs)[FindDoc(docs, d.parentId.value).value.id] < RankOf(docs)[d.id]
  {
  }

  /** A chain is the chain of the live parent, if any, followed by the document. */
  lemma {:induction false} AncestryUnfold(docs: seq<Doc>, d: Doc)
    requires Acyclic(docs) && d in docs
    ensures Ancestry(docs, d) ==
      (if d.parentId.Some? && FindDoc(docs, d.parentId.value).Some?
       then Ancestry(docs, FindDoc(docs, d.parentId.value).value) else []) + [d]
  {
  }

  /** `isDescendant(id, maybeAncestorId)`: the loop that climbs from `id`. */
  method IsDescendant(docs: seq<Doc>, id: Option<Id>, anc: Option<Id>) returns (r: bool)
    requires Acyclic(docs)
    ensures r == DescendsFrom(docs, id, anc)
  {
    if id.None? || anc.None? {
      return false;
    }
    var cur := FindDoc(docs, id.value);
    while cur.Some? && cur.value.parentId.Some?
      invariant cur.Some? ==> cur.value in docs
      invariant DescendsFrom(docs, id, anc) == (cur.Some? && Under(docs, cur.value, anc.value))
      decreases if cur.Some? then RankOf(docs)[cur.value.id] + 1 else 0
    {
      UnderUnfold(docs, cur.value, anc.value);
      if cur.value.parentId == anc {
        return true;
      }
      var next := FindDoc(docs, cur.value.parentId.value);
      if next.Some? {
        ParentRankBelow(docs, cur.value);
      }
      cur := next;
    }
    if cur.Some? {
      UnderUnfold(docs, cur.value, anc.value);
    }
    return false;
  }

  /** The live parent of `d`, as `findDoc(d.parentId)` returns it. */
  function Up(docs: seq<Doc>, d: Doc): (r: Option<Doc>)
    ensures r.Some? <==> d.parentId.Some? && Live(docs, d.parentId.value)
    ensures r.Some? ==> r.value in docs && Some(r.value.id) == d.parentId
  {
    if d.parentId.Some? then FindDoc(docs, d.parentId.value) else None
  }

  /** One step of `pathOf`: the document moves from the chain still to climb to the front of the path. */
  lemma {:induction false} PathStep(docs: seq<Doc>, d: Doc, path: seq<Doc>)
    requires Acyclic(docs) && d in docs
    ensures Up(docs, d).Some? ==> RankOf(docs)[Up(docs, d).value.id] < RankOf(docs)[d.id]
    ensures Ancestry(docs, d) + path ==
      (if Up(docs, d).Some? then Ancestry(docs, Up(docs, d).value) else []) + ([d] + path)
  {
    var u := Up(docs, d);
    var rest := if u.Some? then Ancestry(docs, u.value) else [];
    assert Ancestry(docs, d) == rest + [d] by {
      AncestryUnfold(docs, d);
    }
    if u.Some? {
      ParentRankBelow(docs, d);
    }
    Assoc(rest, [d], path);
  }

  /** `pathOf(id)`: the loop that climbs from `id`, putting each document in front. */
  method PathOf(docs: seq<Doc>, id: Id) returns (path: seq<Doc>)
    requires Acyclic(docs)
    ensures path == Path(docs, id)
  {
    path := [];
    var cur := FindDoc(docs, id);
    while cur.Some?
      invariant cur.Some? ==> cur.value in docs
      invariant Path(docs, id) == (if cur.Some? then Ancestry(docs, cur.value) else []) + path
      decreases if cur.Some? then RankOf(docs)[cur.value.id] + 1 else 0
    {
      var d := cur.value;
      PathStep(docs, d, path);
      path := [d] + path;
      cur := Up(docs, d);
    }
  }

  /**
   * `pathOf(id)` is empty exactly when `id` is not live; otherwise it runs from a
   * document without a live parent down to the document `id`, each entry the
   * parent of the next.
   */
  lemma {:induction false} PathShape(docs: seq<Doc>, id: Id)
    requires Acyclic(docs)
    ensures var path := Path(docs, id);
      && (path == [] <==> !Live(docs, id))
      && (path != [] ==>
            && path[|path| - 1].id == id
            && (path[0].parentId.None? || !Live(docs, path[0].parentId.value))
            && (forall k :: 0 <= k < |path| ==> path[k] in docs)
            && (forall k :: 0 <= k < |path| - 1 ==> path[k + 1].parentId == Some(path[k].id)))
  {
    var i := IndexOf(docs, id);
    if i < 0 {
      assert forall d :: d in docs ==> d.id != id;
    }
  }

  /**
   * `isDescendant(id, a)` holds exactly when `a` is the parent id of some entry of
   * `pathOf(id)`; for a live `a`, exactly when `a` is the id of an entry other
   * than the last one.
   */
  lemma {:induction false} DescendsOnPath(docs: seq<Doc>, id: Id, a: Id)
    requires Acyclic(docs)
    ensures var path := Path(docs, id);
      && (DescendsFrom(docs, Some(id), Some(a)) <==>
            exists k :: 0 <= k < |path| && path[k].parentId == Some(a))
      && (Live(docs, a) ==>
            (DescendsFrom(docs, Some(id), Some(a)) <==>
               exists k :: 0 <= k < |path| - 1 && path[k].id == a))
  {
    var path := Path(docs, id);
    var i := IndexOf(docs, id);
    if i >= 0 {
      var d := docs[i];
      if Live(docs, a) {
        UnderOnPath(docs, d, a);
      }
      if exists k :: 0 <= k < |path| - 1 && path[k].id == a {
        var k :| 0 <= k < |path| - 1 && path[k].id == a;
        assert path[k + 1].parentId == Some(a);
      }
    }
  }

  /** No document is its own descendant, an id-level restatement of acyclicity. */
  lemma {:induction false} NotOwnDescendant(docs: seq<Doc>, id: Id)
    requires UniqueIds(docs) && Acyclic(docs)
    ensures !DescendsFrom(docs, Some(id), Some(id))
  {
    if Live(docs, id) {
      NotUnderSelf(docs, FindDoc(docs, id).value);
    }
  }
}
