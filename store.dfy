/**
 * The mutable store of app.js (`state.docs`, `state.trash`, app.js:55-58) and
 * the operations that change it in place. Each method is proved to leave the
 * store in the state its specification function describes, and to keep the
 * invariant of the store.
 */
module Engine {
  import opened Wrappers
  import opened Documents
  import opened Forest
  import opened Lists
  import opened Shape
  import opened Normalize
  import opened Workspace
  import opened Ancestors
  import opened Create
  import opened Update
  import opened Move
  import opened Archive
  import opened Remove
  import opened Restore

  class Store {
    /** `state.docs`: the live documents, in insertion order. */
    var docs: seq<Doc>
    /** `state.trash`: the archived documents, in the order they were archived. */
    var trash: seq<Doc>

    /** Ids are unique across both lists, live parents are live, and the live forest has no cycle. */
    ghost predicate Valid()
      reads this
    {
      Inv(State(docs, trash))
    }

    /** The empty store, before anything is loaded or seeded. */
    constructor ()
      ensures docs == [] && trash == [] && Valid()
    {
      docs := [];
      trash := [];
      assert RankOk([], map[]);
    }

    /**
     * `normalizeOrders(pid)`: walks the children of `pid` in `childrenOf` order
     * and gives the i-th of them the order i.
     */
    method NormalizeOrders(pid: Option<Id>)
      modifies this`docs
      requires UniqueIds(docs)
      ensures docs == Renumber(old(docs), pid)
    {
      var start := docs;
      var list := ChildrenOf(start, pid);
      var ds := start;
      PartialStart(start, pid);
      var i := 0;
      while i < |list|
        modifies {}
        invariant 0 <= i <= |list|
        invariant ds == Partial(start, pid, i)
      {
        PartialStep(start, pid, i);
        var idx := IndexOf(ds, list[i].id);
        ds := ds[idx := ds[idx].(order := i as real)];
        i := i + 1;
      }
      PartialEnd(start, pid);
      docs := ds;
    }

    /**
     * `reattachOrphansFor(id)`: every live orphan waiting for `id` moves under
     * it, and the group of `id` is renumbered when any did. The test of each
     * orphan is made against the list as it was on entry.
     */
    method ReattachOrphansFor(id: Id)
      modifies this`docs
      requires UniqueIds(docs) && Acyclic(docs)
      ensures docs == Reattach(old(docs), id)
    {
      var ds, changed := RejoinWaiting(docs, id);
      if changed {
        docs := ds;
        NormalizeOrders(Some(id));
      }
    }

    /**
     * `createDoc({ title, parentId, afterId })` with `id` the fresh id `uid()`
     * draws and `now` the clock: returns `id`, and the live list becomes
     * `CreateSpec` of the old one.
     */
    method CreateDoc(id: Id, title: Option<string>, parentId: Option<Id>, afterId: Option<Id>, now: int)
      returns (r: Id)
      modifies this`docs
      requires Valid() && !Live(docs + trash, id)
      requires parentId.Some? ==> Live(docs, parentId.value)
      ensures r == id
      ensures docs == CreateSpec(old(docs), id, title, parentId, afterId, now)
      ensures Valid()
    {
      assert Inv(State(CreateSpec(docs, id, title, parentId, afterId, now), trash)) by {
        CreateKeepsInv(State(docs, trash), id, title, parentId, afterId, now);
      }
      assert UniqueIds(docs) && !Live(docs, id) by {
        UniqueParts(docs, trash);
        LiveInFront(docs, trash, id);
      }
      Insert(id, title, parentId, afterId, now);
      return id;
    }

    /**
     * The body of `createDoc`: the new document gets the largest order among
     * its siblings plus one, or half a step after `afterId` when that names a
     * sibling, is pushed at the end of the list, and its siblings are renumbered.
     */
    method Insert(id: Id, title: Option<string>, parentId: Option<Id>, afterId: Option<Id>, now: int)
      modifies this`docs
      requires UniqueIds(docs) && !Live(docs, id)
      ensures docs == CreateSpec(old(docs), id, title, parentId, afterId, now)
    {
      var doc := NewDoc(id, title, parentId, CreateOrder(docs, parentId, afterId), now);
      assert UniqueIds(docs + [doc]) by {
        UniqueAppend(docs, doc);
      }
      docs := docs + [doc];
      NormalizeOrders(parentId);
    }

    /** `updateDoc(id, patch)` at time `now`. */
    method UpdateDoc(id: Id, patch: Patch, now: int)
      modifies this`docs
      requires Valid()
      ensures docs == UpdateSpec(old(docs), id, patch, now)
      ensures Valid()
    {
      UpdateKeepsInv(State(docs, trash), id, patch, now);
      var idx := IndexOf(docs, id);
      if idx < 0 {
        return;
      }
      docs := docs[idx := Apply(docs[idx], patch, now)];
    }

    /** `moveDoc(srcId, targetId, pos)` at time `now`. */
    method MoveDoc(src: Option<Id>, tgt: Option<Id>, pos: string, now: int)
      modifies this`docs
      requires Valid()
      ensures docs == MoveSpec(old(docs), src, tgt, ParsePos(pos), now)
      ensures Valid()
    {
      ghost var s0 := State(docs, trash);
      assert Inv(State(MoveSpec(s0.docs, src, tgt, ParsePos(pos), now), s0.trash)) by {
        MoveKeepsInv(s0, src, tgt, ParsePos(pos), now);
      }
      assert UniqueIds(docs) by {
        UniqueParts(docs, trash);
      }
      Relocate(src, tgt, ParsePos(pos), now);
    }

    /**
     * The guards and the placement of `moveDoc`: nothing happens unless both
     * ids are given, differ, the target is not under src and both are live.
     */
    method Relocate(src: Option<Id>, tgt: Option<Id>, place: Pos, now: int)
      modifies this`docs
      requires Acyclic(docs) && UniqueIds(docs)
      ensures docs == MoveSpec(old(docs), src, tgt, place, now)
    {
      if src.None? || tgt.None? || src == tgt {
        return;
      }
      var under := IsDescendant(docs, tgt, src);
      if under {
        return;
      }
      if FindDoc(docs, src.value).None? || FindDoc(docs, tgt.value).None? {
        return;
      }
      var si := IndexOf(docs, src.value);
      var ti := IndexOf(docs, tgt.value);
      assert 0 <= si < |docs| && 0 <= ti < |docs| && MoveSpec(docs, src, tgt, place, now) == Stamp(Place(docs, si, ti, place), si, now) by {
        MoveAt(docs, src, tgt, place, now);
      }
      if place.Inside? {
        NestUnder(si, ti);
      } else {
        SetBeside(si, ti, place);
      }
      docs := docs[si := docs[si].(updatedAt := now)];
    }

    /**
     * The "inside" branch of `moveDoc`, src at position `si` and the target at
     * `ti`: src becomes the last child of the target, then its old group and
     * the target's children are renumbered.
     */
    method NestUnder(si: nat, ti: nat)
      modifies this`docs
      requires si < |docs| && ti < |docs| && UniqueIds(docs)
      ensures docs == Place(old(docs), si, ti, Inside)
    {
      var d := docs;
      ghost var start := d;
      var t := d[ti];
      var oldParent := d[si].parentId;
      d := d[si := d[si].(parentId := Some(t.id))];
      d := d[si := d[si].(order := MaxOrder(d, Some(t.id)))];
      InsideSteps(start, si, ti, d);
      docs := d;
      NormalizeOrders(oldParent);
      assert UniqueIds(docs) by {
        RenumberUnique(d, oldParent);
      }
      NormalizeOrders(Some(t.id));
      assert docs == Renumber(Renumber(d, oldParent), Some(t.id));
    }

    /**
     * The "before" / "after" branch of `moveDoc`: src takes the target's
     * parent and an order half a step before or after the target's, then the
     * new group and src's old group are renumbered.
     */
    method SetBeside(si: nat, ti: nat, place: Pos)
      modifies this`docs
      requires si < |docs| && ti < |docs| && UniqueIds(docs) && !place.Inside?
      ensures docs == Place(old(docs), si, ti, place)
    {
      var d := docs;
      ghost var start := d;
      var t := d[ti];
      var oldParent := d[si].parentId;
      var newParent := t.parentId;
      d := d[si := d[si].(parentId := newParent, order := if place.Before? then t.order - 0.5 else t.order + 0.5)];
      BesideSteps(start, si, ti, place, d);
      docs := d;
      NormalizeOrders(newParent);
      assert UniqueIds(docs) by {
        RenumberUnique(d, newParent);
      }
      NormalizeOrders(oldParent);
      assert docs == Renumber(Renumber(d, newParent), oldParent);
    }

    /**
     * `archiveDoc(id)`: the document and its live descendants, listed before
     * any of them moves, leave the live list one by one for the trash.
     */
    method ArchiveDoc(id: Id)
      modifies this
      requires Valid()
      ensures State(docs, trash) == ArchiveSpec(old(State(docs, trash)), id)
      ensures Valid()
    {
      ghost var s0 := State(docs, trash);
      var toArchive := Targets(docs, id);
      var k := 0;
      while k < |toArchive|
        invariant 0 <= k <= |toArchive|
        invariant ArchiveFold(State(docs, trash), toArchive[k..]) == ArchiveSpec(s0, id)
      {
        var did := toArchive[k];
        var idx := IndexOf(docs, did);
        if idx > -1 {
          trash := trash + [Mark(docs[idx])];
          docs := docs[..idx] + docs[idx + 1..];
        }
        assert toArchive[k..][1..] == toArchive[k + 1..];
        k := k + 1;
      }
      assert Valid() by {
        ArchiveKeepsInv(s0, id);
      }
    }

    /**
     * `restoreDoc(id)`: the entry leaves the trash, goes back under the parent
     * it remembers (or to the root as an orphan when that parent is not live),
     * its group is renumbered, and the orphans waiting for it rejoin it.
     */
    method RestoreDoc(id: Id)
      modifies this
      requires Valid()
      ensures State(docs, trash) == RestoreSpec(old(State(docs, trash)), id)
      ensures Valid()
    {
      assert Inv(RestoreSpec(State(docs, trash), id)) by {
        RestoreKeepsInv(State(docs, trash), id);
      }
      Restore(id);
    }

    /** The body of `restoreDoc`, proved against `RestoreSpec`. */
    method Restore(id: Id)
      modifies this
      requires Valid()
      ensures State(docs, trash) == RestoreSpec(old(State(docs, trash)), id)
    {
      ghost var s0 := State(docs, trash);
      var idx := IndexOf(trash, id);
      if idx == -1 {
        return;
      }
      assert UniqueIds(docs) && !Live(docs, trash[idx].id) by {
        TakeOut(s0, idx);
        LiveInFront(docs, trash[..idx] + trash[idx + 1..], trash[idx].id);
        UniqueParts(docs, trash);
      }
      TakeBack(idx);
      assert UniqueIds(docs) && Acyclic(docs) by {
        PushedKeepsInv(s0, idx);
        UniqueParts(docs, trash);
      }
      ReattachOrphansFor(id);
    }

    /**
     * The first half of `restoreDoc`: the entry at `idx` leaves the trash,
     * takes its remembered parent (or the root, flagged as an orphan, when
     * that parent is not live), is pushed on the live list, and its group is
     * renumbered.
     */
    method TakeBack(idx: nat)
      modifies this
      requires idx < |trash| && UniqueIds(docs) && !Live(docs, trash[idx].id)
      ensures State(docs, trash) == Pushed(old(State(docs, trash)), idx)
    {
      ghost var s0 := State(docs, trash);
      var doc := trash[idx];
      trash := trash[..idx] + trash[idx + 1..];
      var desired := if doc.origParent.Some? then doc.origParent.value else doc.parentId;
      if desired.Some? && !Live(docs, desired.value) {
        doc := doc.(parentId := None, restoredOrphan := true, origParent := Some(desired));
      } else {
        doc := doc.(parentId := desired, restoredOrphan := false);
      }
      assert doc == Revive(s0.docs, s0.trash[idx]);
      assert UniqueIds(docs + [doc]) by {
        UniqueAppend(docs, doc);
      }
      docs := docs + [doc];
      NormalizeOrders(doc.parentId);
      assert State(docs, trash) == Pushed(s0, idx);
    }

    /**
     * `removeDoc(id)`: walking the trash from the back, every entry whose id
     * is `id` or the id of a live descendant of `id` is deleted.
     */
    method RemoveDoc(id: Id)
      modifies this`trash
      requires Valid()
      ensures State(docs, trash) == RemoveSpec(old(State(docs, trash)), id)
      ensures Valid()
    {
      assert Inv(RemoveSpec(State(docs, trash), id)) by {
        RemoveKeepsInv(State(docs, trash), id);
      }
      var targetIds := IdSet(Targets(docs, id));
      var t0 := trash;
      var t := t0;
      var i := |t|;
      while i > 0
        modifies {}
        invariant 0 <= i <= |t0|
        invariant t == t0[..i] + FilterOut(t0[i..], targetIds)
      {
        i := i - 1;
        FilterBack(t0, i, targetIds);
        if t[i].id in targetIds {
          t := t[..i] + t[i + 1..];
        }
      }
      assert t0[0..] == t0;
      trash := t;
    }
  }

  /**
   * The loop of `reattachOrphansFor(id)`: returns the list with every orphan
   * waiting for `id` moved under it, and whether any was.
   */
  method RejoinWaiting(before: seq<Doc>, id: Id) returns (ds: seq<Doc>, changed: bool)
    requires UniqueIds(before) && Acyclic(before)
    ensures ds == Rejoined(before, id) && UniqueIds(ds)
    ensures changed == AnyWaits(before, id)
  {
    ds := before;
    changed := false;
    RejoinedStart(before, id);
    var k := 0;
    while k < |ds|
      invariant 0 <= k <= |ds| == |before|
      invariant ds == RejoinedTo(before, id, k)
      invariant changed == WaitsBelow(before, id, k)
    {
      RejoinedStep(before, id, k);
      var d := ds[k];
      if d.restoredOrphan && d.origParent == Some(Some(id)) && d.id != id {
        var above := IsDescendant(before, Some(id), Some(d.id));
        if !above {
          ds := ds[k := Rejoin(id, d)];
          changed := true;
        }
      }
      k := k + 1;
    }
    RejoinedEnd(before, id);
  }

  /** A document live in the front part of a concatenation is live in the whole. */
  lemma {:induction false} LiveInFront(docs: seq<Doc>, trash: seq<Doc>, id: Id)
    ensures Live(docs, id) ==> Live(docs + trash, id)
  {
    if Live(docs, id) {
      var d :| d in docs && d.id == id;
      assert d in docs + trash;
    }
  }

  /** The steps `NestUnder` takes, in the order it takes them, compose to `Place`. */
  lemma {:induction false} InsideSteps(docs: seq<Doc>, si: nat, ti: nat, d: seq<Doc>)
    requires si < |docs| && ti < |docs| && UniqueIds(docs)
    requires var d1 := docs[si := docs[si].(parentId := Some(docs[ti].id))];
      d == d1[si := d1[si].(order := MaxOrder(d1, Some(docs[ti].id)))]
    ensures UniqueIds(d)
    ensures Place(docs, si, ti, Inside) == Renumber(Renumber(d, docs[si].parentId), Some(docs[ti].id))
  {
    PlacedUnique(docs, si, ti, Inside);
  }

  /** The steps `SetBeside` takes, in the order it takes them, compose to `Place`. */
  lemma {:induction false} BesideSteps(docs: seq<Doc>, si: nat, ti: nat, place: Pos, d: seq<Doc>)
    requires si < |docs| && ti < |docs| && UniqueIds(docs) && !place.Inside?
    requires var t := docs[ti];
      d == docs[si := docs[si].(parentId := t.parentId, order := if place.Before? then t.order - 0.5 else t.order + 0.5)]
    ensures UniqueIds(d)
    ensures Place(docs, si, ti, place) == Renumber(Renumber(d, docs[ti].parentId), docs[si].parentId)
  {
    PlacedUnique(docs, si, ti, place);
  }

  /** `normalizeOrders` keeps ids unique. */
  lemma {:induction false} RenumberUnique(docs: seq<Doc>, pid: Option<Id>)
    requires UniqueIds(docs)
    ensures UniqueIds(Renumber(docs, pid))
  {
    SameShapeKeeps(docs, Renumber(docs, pid));
  }

  /** The live list part-way through `normalizeOrders(pid)`: the first `i` children renumbered. */
  ghost function Partial(start: seq<Doc>, pid: Option<Id>, i: nat): (r: seq<Doc>)
    ensures |r| == |start|
  {
    PartialWith(ChildrenOf(start, pid), start, pid, i)
  }

  /** `Partial` for a given ordering `list` of the group. */
  ghost function PartialWith(list: seq<Doc>, start: seq<Doc>, pid: Option<Id>, i: nat): (r: seq<Doc>)
    ensures |r| == |start|
  {
    seq(|start|, j requires 0 <= j < |start| =>
      if start[j].parentId == pid && 0 <= IndexOf(list, start[j].id) < i then Renum(list, start[j]) else start[j])
  }

  lemma {:induction false} PartialStart(start: seq<Doc>, pid: Option<Id>)
    ensures Partial(start, pid, 0) == start
  {
  }

  /** Renumbering the i-th child changes only its entry, found by its id, to order i. */
  lemma {:induction false} PartialStep(start: seq<Doc>, pid: Option<Id>, i: nat)
    requires UniqueIds(start) && i < |ChildrenOf(start, pid)|
    ensures var p := Partial(start, pid, i);
      var idx := IndexOf(p, ChildrenOf(start, pid)[i].id);
      && 0 <= idx < |p|
      && Partial(start, pid, i + 1) == p[idx := p[idx].(order := i as real)]
  {
    var list := ChildrenOf(start, pid);
    var p := Partial(start, pid, i);
    var j0 := GroupEntry(start, pid, i);
    assert IndexOf(p, list[i].id) == j0 by {
      PartialIds(start, pid, i);
      SameIndex(p, start, list[i].id);
    }
    PartialPoint(list, start, pid, i, j0);
  }

  lemma {:induction false} PartialIds(start: seq<Doc>, pid: Option<Id>, i: nat)
    ensures forall j :: 0 <= j < |start| ==> Partial(start, pid, i)[j].id == start[j].id
  {
  }

  /** Only the entry `j0` holding the i-th child changes between steps i and i + 1. */
  lemma {:induction false} PartialPoint(list: seq<Doc>, start: seq<Doc>, pid: Option<Id>, i: nat, j0: nat)
    requires i < |list| && j0 < |start| && start[j0] == list[i] && list[i].parentId == pid
    requires IndexOf(list, list[i].id) == i
    requires forall j :: 0 <= j < |start| && j != j0 ==> start[j].id != list[i].id
    ensures var p := PartialWith(list, start, pid, i);
      PartialWith(list, start, pid, i + 1) == p[j0 := p[j0].(order := i as real)]
  {
    var p := PartialWith(list, start, pid, i);
    var q := p[j0 := p[j0].(order := i as real)];
    forall j | 0 <= j < |start| ensures PartialWith(list, start, pid, i + 1)[j] == q[j] {
    }
  }

  /** Once every child is renumbered, the list is `Renumber(start, pid)`. */
  lemma {:induction false} PartialEnd(start: seq<Doc>, pid: Option<Id>)
    ensures Partial(start, pid, |ChildrenOf(start, pid)|) == Renumber(start, pid)
  {
    var list := ChildrenOf(start, pid);
    forall j | 0 <= j < |start| && start[j].parentId == pid
      ensures 0 <= IndexOf(list, start[j].id) < |list|
    {
      assert start[j] in list;
    }
  }

  /** The live list part-way through the loop of `reattachOrphansFor(id)`. */
  ghost function RejoinedTo(before: seq<Doc>, id: Id, k: nat): (r: seq<Doc>)
    requires Acyclic(before)
    ensures |r| == |before|
  {
    seq(|before|, j requires 0 <= j < |before| =>
      if j < k && Waits(before, id, before[j]) then Rejoin(id, before[j]) else before[j])
  }

  /** One of the first `k` documents waits for `id`: the `changed` flag so far. */
  ghost predicate WaitsBelow(before: seq<Doc>, id: Id, k: nat)
    requires Acyclic(before)
  {
    0 < k <= |before| && (WaitsBelow(before, id, k - 1) || Waits(before, id, before[k - 1]))
  }

  /** The flag so far is an existential over the first `k` documents. */
  lemma {:induction false} WaitsBelowSome(before: seq<Doc>, id: Id, k: nat)
    requires Acyclic(before) && k <= |before|
    ensures WaitsBelow(before, id, k) <==> exists j :: 0 <= j < k && Waits(before, id, before[j])
  {
    if k > 0 {
      WaitsBelowSome(before, id, k - 1);
    }
  }

  lemma {:induction false} RejoinedStart(before: seq<Doc>, id: Id)
    requires Acyclic(before)
    ensures RejoinedTo(before, id, 0) == before && !WaitsBelow(before, id, 0)
  {
  }

  /** The k-th document is still as it was; the loop either rejoins it or leaves it. */
  lemma {:induction false} RejoinedStep(before: seq<Doc>, id: Id, k: nat)
    requires Acyclic(before) && k < |before|
    ensures var p := RejoinedTo(before, id, k);
      && p[k] == before[k]
      && RejoinedTo(before, id, k + 1) == (if Waits(before, id, before[k]) then p[k := Rejoin(id, before[k])] else p)
      && WaitsBelow(before, id, k + 1) == (WaitsBelow(before, id, k) || Waits(before, id, before[k]))
  {
    var p := RejoinedTo(before, id, k);
    var q := if Waits(before, id, before[k]) then p[k := Rejoin(id, before[k])] else p;
    forall j | 0 <= j < |before| ensures RejoinedTo(before, id, k + 1)[j] == q[j] {
    }
  }

  /** After the loop the list is `Rejoined(before, id)`, its ids as unique as before, and the flag is `AnyWaits`. */
  lemma {:induction false} RejoinedEnd(before: seq<Doc>, id: Id)
    requires Acyclic(before)
    ensures RejoinedTo(before, id, |before|) == Rejoined(before, id)
    ensures WaitsBelow(before, id, |before|) == AnyWaits(before, id)
    ensures UniqueIds(before) ==> UniqueIds(Rejoined(before, id))
  {
    var r := Rejoined(before, id);
    assert forall j :: 0 <= j < |before| ==> r[j].id == before[j].id;
    WaitsBelowSome(before, id, |before|);
  }

  /** The i-th child of `pid` sits in the live list at the first position holding its id, and only there. */
  lemma {:induction false} GroupEntry(docs: seq<Doc>, pid: Option<Id>, i: nat) returns (j0: nat)
    requires UniqueIds(docs) && i < |ChildrenOf(docs, pid)|
    ensures var list := ChildrenOf(docs, pid);
      && j0 < |docs| && j0 == IndexOf(docs, list[i].id) && docs[j0] == list[i] && list[i].parentId == pid
      && IndexOf(list, list[i].id) == i
      && forall j :: 0 <= j < |docs| && j != j0 ==> docs[j].id != list[i].id
  {
    var list := ChildrenOf(docs, pid);
    assert list[i] in list;
    j0 := IndexOf(docs, list[i].id);
    SameId(docs, docs[j0], list[i]);
    ChildrenUnique(docs, pid);
    var k := IndexOf(list, list[i].id);
    assert k >= 0 && k <= i;
  }

  /** Lists with the same ids position by position find an id at the same position. */
  lemma {:induction false} SameIndex(a: seq<Doc>, b: seq<Doc>, id: Id)
    requires |a| == |b| && forall j :: 0 <= j < |a| ==> a[j].id == b[j].id
    ensures IndexOf(a, id) == IndexOf(b, id)
  {
    var i, k := IndexOf(a, id), IndexOf(b, id);
    if i >= 0 && k >= 0 {
      assert !(i < k) && !(k < i);
    }
  }

  /** One turn of the backward loop of `removeDoc`: the entry at `i` goes exactly when its id is a target. */
  lemma {:induction false} FilterBack(t0: seq<Doc>, i: nat, ids: set<Id>)
    requires i < |t0|
    ensures var t := t0[..i + 1] + FilterOut(t0[i + 1..], ids);
      && t[i] == t0[i]
      && (if t0[i].id in ids then t[..i] + t[i + 1..] else t) == t0[..i] + FilterOut(t0[i..], ids)
  {
    assert t0[..i + 1] == t0[..i] + [t0[i]];
    assert FilterOut(t0[i..], ids) == (if t0[i].id in ids then [] else [t0[i]]) + FilterOut(t0[i + 1..], ids) by {
      FilterHead(t0[i..], ids);
      assert t0[i..][1..] == t0[i + 1..];
    }
    Splice(t0[..i], t0[i], FilterOut(t0[i + 1..], ids), t0[i].id !in ids);
  }

  /** Deleting the middle entry of `a + [x] + f`, or keeping it, regroups the parts. */
  lemma {:induction false} Splice(a: seq<Doc>, x: Doc, f: seq<Doc>, keep: bool)
    ensures var t := a + [x] + f;
      && t[|a|] == x
      && (if keep then t else t[..|a|] + t[|a| + 1..]) == a + ((if keep then [x] else []) + f)
  {
    var t := a + [x] + f;
    if keep {
      Assoc(a, [x], f);
    } else {
      assert t[..|a|] == a && t[|a| + 1..] == f;
    }
  }

  lemma {:induction false} FilterHead(s: seq<Doc>, ids: set<Id>)
    requires s != []
    ensures FilterOut(s, ids) == (if s[0].id in ids then [] else [s[0]]) + FilterOut(s[1..], ids)
  {
  }
}
