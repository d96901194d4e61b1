/**
 * `restoreDoc(id)` (app.js:202-227) and the re-attachment of orphans it ends
 * with, `reattachOrphansFor(parentId)` (app.js:298-310).
 */
module Restore {
  import opened Wrappers
  import opened Documents
  import opened Forest
  import opened Lists
  import opened Shape
  import opened Normalize
  import opened Workspace

  /** The parent `restoreDoc` aims for: `__origParentId` when it is defined (even as null), else `parentId`. */
  function Desired(d: Doc): (r: Option<Id>)
  {
    if d.origParent.Some? then d.origParent.value else d.parentId
  }

  /**
   * The record `restoreDoc` pushes back: at the root and flagged as an orphan,
   * remembering the desired parent, when that parent is not live; otherwise
   * under the desired parent with the flag cleared.
   */
  function Revive(docs: seq<Doc>, d: Doc): (r: Doc)
  {
    var p := Desired(d);
    if p.Some? && !Live(docs, p.value) then d.(parentId := None, restoredOrphan := true, origParent := Some(p))
    else d.(parentId := p, restoredOrphan := false)
  }

  /**
   * `d` is an orphan waiting for `id`. Beyond the test of the source
   * (`__restoredOrphan && __origParentId === parentId`), `d` must be neither
   * `id` itself nor above it, so that re-attaching it cannot close a cycle;
   * `Findings` shows the cycle the test as written lets through.
   */
  predicate Waits(docs: seq<Doc>, id: Id, d: Doc)
    requires Acyclic(docs)
  {
    d.restoredOrphan && d.origParent == Some(Some(id)) && d.id != id && !DescendsFrom(docs, Some(id), Some(d.id))
  }

  /** `d.parentId = parentId; delete d.__restoredOrphan`. */
  function Rejoin(id: Id, d: Doc): (r: Doc)
  {
    d.(parentId := Some(id), restoredOrphan := false)
  }

  /** The live list after the loop of `reattachOrphansFor(id)`, before any renumbering. */
  function Rejoined(docs: seq<Doc>, id: Id): (r: seq<Doc>)
    requires Acyclic(docs)
    ensures |r| == |docs|
    ensures forall k :: 0 <= k < |docs| ==> r[k] == if Waits(docs, id, docs[k]) then Rejoin(id, docs[k]) else docs[k]
  {
    seq(|docs|, k requires 0 <= k < |docs| => if Waits(docs, id, docs[k]) then Rejoin(id, docs[k]) else docs[k])
  }

  /** Some live document waits for `id`: the `changed` flag of the loop. */
  predicate AnyWaits(docs: seq<Doc>, id: Id)
    requires Acyclic(docs)
  {
    exists k :: 0 <= k < |docs| && Waits(docs, id, docs[k])
  }

  /** `reattachOrphansFor(id)`: waiting orphans move under `id`, whose group is renumbered if any did. */
  function Reattach(docs: seq<Doc>, id: Id): (r: seq<Doc>)
    requires Acyclic(docs)
  {
    if AnyWaits(docs, id) then Renumber(Rejoined(docs, id), Some(id)) else docs
  }

  /** The state once the document at position `i` of the trash is back in the live list and its group renumbered. */
  function Pushed(s: State, i: nat): (r: State)
    requires i < |s.trash|
  {
    var d := Revive(s.docs, s.trash[i]);
    State(Renumber(s.docs + [d], d.parentId), s.trash[..i] + s.trash[i + 1..])
  }

  /** The state after `restoreDoc(id)`. */
  function RestoreSpec(s: State, id: Id): (r: State)
    requires Inv(s)
  {
    var i := IndexOf(s.trash, id);
    if i < 0 then s
    else
      PushedAcyclic(s, i);
      var p := Pushed(s, i);
      State(Reattach(p.docs, id), p.trash)
  }

  // ---------------------------------------------------------------------------

  /** Taking the entry at position `i` out of the trash keeps ids unique and leaves its id nowhere. */
  lemma {:induction false} TakeOut(s: State, i: nat)
    requires Inv(s) && i < |s.trash|
    ensures var t := s.trash[..i] + s.trash[i + 1..];
      Inv(State(s.docs, t)) && !Live(s.docs + t, s.trash[i].id)
  {
    var t := s.trash[..i] + s.trash[i + 1..];
    var all := s.docs + s.trash;
    var k := |s.docs| + i;
    assert all[..k] + all[k + 1..] == s.docs + t;
    UniqueRemove(all, k);
    UniqueParts(s.docs, s.trash);
    assert s.trash[i] in s.trash;
    forall x | x in s.docs + t ensures x.id != s.trash[i].id {
      if x !in s.docs {
        var m :| 0 <= m < |t| && t[m] == x;
        if m < i {
          assert x == s.trash[m];
        } else {
          assert x == s.trash[m + 1];
        }
      }
    }
  }

  /** Pushing the restored document back keeps the invariant: its parent, if any, is live. */
  lemma {:induction false} PushedKeepsInv(s: State, i: nat)
    requires Inv(s) && i < |s.trash|
    ensures Inv(Pushed(s, i))
  {
    var t := s.trash[..i] + s.trash[i + 1..];
    var d := Revive(s.docs, s.trash[i]);
    TakeOut(s, i);
    AddLeaf(State(s.docs, t), d);
    InvShape(State(s.docs + [d], t), Pushed(s, i).docs);
  }

  /** The part of `PushedKeepsInv` that `RestoreSpec` needs to be defined. */
  lemma {:induction false} PushedAcyclic(s: State, i: nat)
    requires Inv(s) && i < |s.trash|
    ensures Acyclic(Pushed(s, i).docs)
  {
    PushedKeepsInv(s, i);
  }

  /** The restored document is live once pushed back. */
  lemma {:induction false} PushedLive(s: State, i: nat)
    requires i < |s.trash|
    ensures Live(Pushed(s, i).docs, s.trash[i].id)
  {
    var d := Revive(s.docs, s.trash[i]);
    var a := s.docs + [d];
    assert a[|s.docs|] == d;
    SameShapeKeeps(a, Pushed(s, i).docs);
    assert Live(a, d.id);
  }

  /** The ids of the orphans waiting for `id`. */
  ghost function WaitingIds(docs: seq<Doc>, id: Id): (r: set<Id>)
    requires Acyclic(docs)
  {
    set d | d in docs && Waits(docs, id, d) :: d.id
  }

  /** The loop of `reattachOrphansFor` moves exactly the waiting orphans under `id`. */
  lemma {:induction false} RejoinedReparents(docs: seq<Doc>, id: Id)
    requires UniqueIds(docs) && Acyclic(docs)
    ensures Reparented(docs, Rejoined(docs, id), WaitingIds(docs, id), Some(id))
  {
    var r := Rejoined(docs, id);
    var R := WaitingIds(docs, id);
    forall j | 0 <= j < |docs| ensures r[j].parentId == (if docs[j].id in R then Some(id) else docs[j].parentId) {
      if docs[j].id in R {
        var d :| d in docs && Waits(docs, id, d) && d.id == docs[j].id;
        SameId(docs, d, docs[j]);
      }
    }
  }

  /** `id` is neither a waiting orphan nor below one. */
  lemma {:induction false} TargetOutside(docs: seq<Doc>, id: Id)
    requires UniqueIds(docs) && Acyclic(docs) && Live(docs, id)
    ensures !InSub(docs, WaitingIds(docs, id), id)
  {
    var R := WaitingIds(docs, id);
    var t := FindDoc(docs, id).value;
    forall r | r in R ensures !Under(docs, t, r) {
      var d :| d in docs && Waits(docs, id, d) && d.id == r;
      assert !DescendsFrom(docs, Some(id), Some(d.id));
    }
  }

  /** Re-attaching orphans under a live `id` keeps the invariant: the forest stays acyclic. */
  lemma {:induction false} ReattachKeepsInv(s: State, id: Id)
    requires Inv(s) && Live(s.docs, id)
    ensures Inv(State(Reattach(s.docs, id), s.trash))
  {
    if AnyWaits(s.docs, id) {
      var r := Rejoined(s.docs, id);
      UniqueParts(s.docs, s.trash);
      RejoinedReparents(s.docs, id);
      TargetOutside(s.docs, id);
      ReparentKeeps(s.docs, r, WaitingIds(s.docs, id), Some(id));
      SameIdsWith(s.docs, r, s.trash);
      InvShape(State(r, s.trash), Renumber(r, Some(id)));
    }
  }

  /** `restoreDoc` keeps the invariant of the store. */
  lemma {:induction false} RestoreKeepsInv(s: State, id: Id)
    requires Inv(s)
    ensures Inv(RestoreSpec(s, id))
  {
    var i := IndexOf(s.trash, id);
    if i >= 0 {
      PushedKeepsInv(s, i);
      PushedLive(s, i);
      ReattachKeepsInv(Pushed(s, i), id);
    }
  }

  /**
   * `reattachOrphansFor(id)` gives each orphan waiting for `id` the parent
   * `id` and clears its flag, leaves every other document as it is except for
   * orders in the group of `id`, and leaves that group normalised when it
   * re-attached any orphan; otherwise it changes nothing.
   */
  lemma {:induction false} ReattachFields(docs: seq<Doc>, id: Id)
    requires UniqueIds(docs) && Acyclic(docs)
    ensures var r := Reattach(docs, id);
      && |r| == |docs|
      && (forall j :: 0 <= j < |docs| ==>
            r[j].(order := docs[j].order) == if Waits(docs, id, docs[j]) then Rejoin(id, docs[j]) else docs[j])
      && (forall j :: 0 <= j < |docs| && !Waits(docs, id, docs[j]) && docs[j].parentId != Some(id) ==> r[j] == docs[j])
      && (AnyWaits(docs, id) ==> Normalized(r, Some(id)))
      && (!AnyWaits(docs, id) ==> r == docs)
  {
    ReattachPoints(docs, id);
    ReattachNormal(docs, id);
  }

  /** The group-wide half of `ReattachFields`. */
  lemma {:induction false} ReattachNormal(docs: seq<Doc>, id: Id)
    requires UniqueIds(docs) && Acyclic(docs)
    ensures AnyWaits(docs, id) ==> Normalized(Reattach(docs, id), Some(id))
    ensures !AnyWaits(docs, id) ==> Reattach(docs, id) == docs
  {
    if AnyWaits(docs, id) {
      var m := Rejoined(docs, id);
      assert UniqueIds(m) by {
        assert SameIds(docs, m);
      }
      RenumberNormalizes(m, Some(id));
    }
  }

  /** The entry-by-entry half of `ReattachFields`. */
  lemma {:induction false} ReattachPoints(docs: seq<Doc>, id: Id)
    requires Acyclic(docs)
    ensures var r := Reattach(docs, id);
      && |r| == |docs|
      && (forall j :: 0 <= j < |docs| ==>
            r[j].(order := docs[j].order) == if Waits(docs, id, docs[j]) then Rejoin(id, docs[j]) else docs[j])
      && (forall j :: 0 <= j < |docs| && !Waits(docs, id, docs[j]) && docs[j].parentId != Some(id) ==> r[j] == docs[j])
  {
    if AnyWaits(docs, id) {
      var m := Rejoined(docs, id);
      RejoinedPoints(docs, id, m, Renumber(m, Some(id)));
    }
  }

  /** Renumbering the rejoined list changes only orders, and only in the group of `id`. */
  lemma {:induction false} RejoinedPoints(docs: seq<Doc>, id: Id, m: seq<Doc>, r: seq<Doc>)
    requires Acyclic(docs) && m == Rejoined(docs, id) && r == Renumber(m, Some(id))
    ensures |r| == |docs|
    ensures forall j :: 0 <= j < |docs| ==>
      r[j].(order := docs[j].order) == if Waits(docs, id, docs[j]) then Rejoin(id, docs[j]) else docs[j]
    ensures forall j :: 0 <= j < |docs| && !Waits(docs, id, docs[j]) && docs[j].parentId != Some(id) ==> r[j] == docs[j]
  {
  }

  /** A trashed id has no live children under the invariant. */
  lemma {:induction false} NoLiveChildren(docs: seq<Doc>, id: Id)
    requires ParentsLive(docs) && !Live(docs, id)
    ensures ChildrenOf(docs, Some(id)) == []
  {
    var kids := ChildrenOf(docs, Some(id));
    if kids != [] {
      HeadIn(kids);
      assert false;
    }
  }

  /** The restored document does not become a child of itself. */
  lemma {:induction false} ReviveNotOwnChild(docs: seq<Doc>, d: Doc)
    requires !Live(docs, d.id)
    ensures Revive(docs, d).parentId != Some(d.id)
  {
  }

  /** Pushing back the document at position `i` of the trash changes orders only. */
  lemma {:induction false} PushedFields(s: State, i: nat)
    requires i < |s.trash|
    ensures var p := Pushed(s, i).docs;
      var v := Revive(s.docs, s.trash[i]);
      && |p| == |s.docs| + 1
      && p[|s.docs|] == v.(order := p[|s.docs|].order)
      && forall j :: 0 <= j < |s.docs| ==> p[j] == s.docs[j].(order := p[j].order)
  {
    var v := Revive(s.docs, s.trash[i]);
    var a := s.docs + [v];
    assert a[|s.docs|] == v;
    assert forall j :: 0 <= j < |s.docs| ==> a[j] == s.docs[j];
  }

  /** The record `restoreDoc` pushes back: same content, and the parent and flags its desired parent calls for. */
  lemma {:induction false} ReviveFields(docs: seq<Doc>, d: Doc)
    ensures var n := Revive(docs, d);
      var p := Desired(d);
      && n == d.(parentId := n.parentId, origParent := n.origParent, restoredOrphan := n.restoredOrphan)
      && (p.Some? && !Live(docs, p.value) ==> n.parentId.None? && n.restoredOrphan && n.origParent == Some(p))
      && (p.None? || Live(docs, p.value) ==> n.parentId == p && !n.restoredOrphan && n.origParent == d.origParent)
  {
  }

  /** The restored document itself is left alone by the re-attachment that follows. */
  lemma {:induction false} RestoredKept(s: State, i: nat)
    requires Inv(s) && i < |s.trash|
    ensures Acyclic(Pushed(s, i).docs)
    ensures |Reattach(Pushed(s, i).docs, s.trash[i].id)| == |s.docs| + 1
    ensures Reattach(Pushed(s, i).docs, s.trash[i].id)[|s.docs|] == Pushed(s, i).docs[|s.docs|]
    ensures var r := Reattach(Pushed(s, i).docs, s.trash[i].id);
      r[|s.docs|] == Revive(s.docs, s.trash[i]).(order := r[|s.docs|].order)
  {
    var p := Pushed(s, i).docs;
    var id := s.trash[i].id;
    PushedAcyclic(s, i);
    PushedFields(s, i);
    TakeOut(s, i);
    ReviveNotOwnChild(s.docs, s.trash[i]);
    assert !Waits(p, id, p[|s.docs|]);
    ReattachPoints(p, id);
  }

  /** `RestoreSpec` unfolded: nothing when `id` is not in the trash, else the push then the re-attachment. */
  lemma {:induction false} RestoreAt(s: State, id: Id)
    requires Inv(s)
    ensures IndexOf(s.trash, id) < 0 ==> RestoreSpec(s, id) == s
    ensures var i := IndexOf(s.trash, id);
      i >= 0 ==> && i < |s.trash| && s.trash[i].id == id && Acyclic(Pushed(s, i).docs)
                 && RestoreSpec(s, id) == State(Reattach(Pushed(s, i).docs, id), Pushed(s, i).trash)
  {
    var i := IndexOf(s.trash, id);
    if i >= 0 {
      PushedAcyclic(s, i);
    }
  }

  /**
   * `restoreDoc(id)` of the document at position `i` of the trash leaves the
   * trash without that entry (the rest in order) and appends the record
   * `Revive` describes to the live list, with whatever order renumbering gave
   * it. (`RestoreAt` covers an id that is not in the trash.)
   */
  lemma {:induction false} RestoreFields(s: State, id: Id)
    requires Inv(s) && IndexOf(s.trash, id) >= 0
    ensures var i := IndexOf(s.trash, id);
      var r := RestoreSpec(s, id);
      && r.trash == s.trash[..i] + s.trash[i + 1..]
      && |r.docs| == |s.docs| + 1
      && r.docs[|s.docs|] == Revive(s.docs, s.trash[i]).(order := r.docs[|s.docs|].order)
  {
    RestoreAt(s, id);
    RestoredKept(s, IndexOf(s.trash, id));
  }

  /**
   * The documents that were live keep their ids and every field but their
   * order, except that an orphan waiting for `id` takes `id` as its parent
   * and loses its flag.
   */
  lemma {:induction false} RestoreOthers(s: State, id: Id)
    requires Inv(s) && IndexOf(s.trash, id) >= 0
    ensures var r := RestoreSpec(s, id);
      && |r.docs| == |s.docs| + 1
      && forall j :: 0 <= j < |s.docs| ==>
           || r.docs[j] == s.docs[j].(order := r.docs[j].order)
           || (&& s.docs[j].restoredOrphan && s.docs[j].origParent == Some(Some(id))
               && r.docs[j] == Rejoin(id, s.docs[j]).(order := r.docs[j].order))
  {
    RestoreAt(s, id);
    PushedOthers(s, IndexOf(s.trash, id), id);
  }

  /** `RestoreOthers` for the list right after the push, before the re-attachment. */
  lemma {:induction false} PushedOthers(s: State, i: nat, id: Id)
    requires i < |s.trash| && Acyclic(Pushed(s, i).docs)
    ensures var r := Reattach(Pushed(s, i).docs, id);
      && |r| == |s.docs| + 1
      && forall j :: 0 <= j < |s.docs| ==>
           || r[j] == s.docs[j].(order := r[j].order)
           || (&& s.docs[j].restoredOrphan && s.docs[j].origParent == Some(Some(id))
               && r[j] == Rejoin(id, s.docs[j]).(order := r[j].order))
  {
    var p := Pushed(s, i).docs;
    assert |p| == |s.docs| + 1 && forall j :: 0 <= j < |s.docs| ==> p[j] == s.docs[j].(order := p[j].order) by {
      PushedFields(s, i);
    }
    ReattachPoints(p, id);
    OrderOrRejoin(s.docs, p, Reattach(p, id), id);
  }

  /** Composing "only the order changed" with "only the order changed, or the orphan rejoined `id`". */
  lemma {:induction false} OrderOrRejoin(sd: seq<Doc>, pd: seq<Doc>, r: seq<Doc>, id: Id)
    requires Acyclic(pd) && |pd| == |sd| + 1 && |r| == |pd|
    requires forall j :: 0 <= j < |sd| ==> pd[j] == sd[j].(order := pd[j].order)
    requires forall j :: 0 <= j < |pd| ==>
      r[j].(order := pd[j].order) == if Waits(pd, id, pd[j]) then Rejoin(id, pd[j]) else pd[j]
    ensures forall j :: 0 <= j < |sd| ==>
      || r[j] == sd[j].(order := r[j].order)
      || (&& sd[j].restoredOrphan && sd[j].origParent == Some(Some(id))
          && r[j] == Rejoin(id, sd[j]).(order := r[j].order))
  {
    forall j | 0 <= j < |sd|
      ensures || r[j] == sd[j].(order := r[j].order)
              || (&& sd[j].restoredOrphan && sd[j].origParent == Some(Some(id))
                  && r[j] == Rejoin(id, sd[j]).(order := r[j].order))
    {
      assert pd[j] == sd[j].(order := pd[j].order);
      assert r[j].(order := pd[j].order) == if Waits(pd, id, pd[j]) then Rejoin(id, pd[j]) else pd[j];
    }
  }

  /** The children of `id` are empty right after the push when no orphan waits for `id`. */
  lemma {:induction false} PushedNoChildren(s: State, i: nat)
    requires Inv(s) && i < |s.trash|
    ensures ChildrenOf(Pushed(s, i).docs, Some(s.trash[i].id)) == []
  {
    var d := s.trash[i];
    var v := Revive(s.docs, d);
    var a := s.docs + [v];
    TakeOut(s, i);
    ReviveNotOwnChild(s.docs, d);
    NoChildAfterPush(s.docs, v, d.id);
    RenumberOther(a, v.parentId, Some(d.id));
  }

  /**
   * After `restoreDoc(id)` of a trashed id, the children of `id` are
   * normalised; if no orphan was re-attached, so is the group the restored
   * document joined.
   */
  lemma {:induction false} RestoreNormalizes(s: State, id: Id)
    requires Inv(s) && IndexOf(s.trash, id) >= 0
    ensures Inv(Pushed(s, IndexOf(s.trash, id)))
    ensures Normalized(RestoreSpec(s, id).docs, Some(id))
    ensures var i := IndexOf(s.trash, id);
      !AnyWaits(Pushed(s, i).docs, id) ==> Normalized(RestoreSpec(s, id).docs, Revive(s.docs, s.trash[i]).parentId)
  {
    var i := IndexOf(s.trash, id);
    PushedKeepsInv(s, i);
    RestoreAt(s, id);
    PushedNormal(s, i);
  }

  /** `RestoreNormalizes` for the list right after the push, before the re-attachment. */
  lemma {:induction false} PushedNormal(s: State, i: nat)
    requires Inv(s) && i < |s.trash| && Acyclic(Pushed(s, i).docs)
    ensures var p := Pushed(s, i).docs;
      var id := s.trash[i].id;
      && Normalized(Reattach(p, id), Some(id))
      && (!AnyWaits(p, id) ==> Normalized(Reattach(p, id), Revive(s.docs, s.trash[i]).parentId))
  {
    var id := s.trash[i].id;
    var v := Revive(s.docs, s.trash[i]);
    var a := s.docs + [v];
    var p := Pushed(s, i);
    assert UniqueIds(p.docs) by {
      PushedKeepsInv(s, i);
      UniqueParts(p.docs, p.trash);
    }
    if AnyWaits(p.docs, id) {
      ReattachNormal(p.docs, id);
    } else {
      assert Reattach(p.docs, id) == p.docs;
      PushedNoChildren(s, i);
      assert UniqueIds(a) by {
        TakeOut(s, i);
        AddLeaf(State(s.docs, p.trash), v);
        UniqueParts(a, p.trash);
      }
      RenumberNormalizes(a, v.parentId);
    }
  }

  /** Pushing a document that is not its own child keeps the group of a non-live id empty. */
  lemma {:induction false} NoChildAfterPush(docs: seq<Doc>, v: Doc, id: Id)
    requires ParentsLive(docs) && !Live(docs, id) && v.parentId != Some(id)
    ensures ChildrenOf(docs + [v], Some(id)) == []
  {
    NoLiveChildren(docs, id);
    var kids := ChildrenOf(docs + [v], Some(id));
    if kids != [] {
      HeadIn(kids);
      assert false;
    }
  }
}
