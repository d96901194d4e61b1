/** `moveDoc(srcId, targetId, pos)` (app.js:239-272). */
module Move {
  import opened Wrappers
  import opened Documents
  import opened Forest
  import opened Lists
  import opened Shape
  import opened Normalize
  import opened Placement
  import opened Workspace

  /** Where `moveDoc` puts src relative to the target. */
  datatype Pos = Inside | Before | After

  /** The `pos` argument: "inside" and "before" are recognised, any other value acts as "after". */
  function ParsePos(pos: string): (r: Pos)
    ensures r.Inside? <==> pos == "inside"
    ensures r.Before? <==> pos == "before"
    ensures r.After? <==> pos != "inside" && pos != "before"
  {
    if pos == "inside" then Inside else if pos == "before" then Before else After
  }

  /** "inside": src becomes a child of the target, with an order one past the largest of its new siblings. */
  function InsidePlaced(docs: seq<Doc>, si: nat, ti: nat): (r: seq<Doc>)
    requires si < |docs| && ti < |docs|
  {
    var d1 := docs[si := docs[si].(parentId := Some(docs[ti].id))];
    d1[si := d1[si].(order := MaxOrder(d1, Some(docs[ti].id)))]
  }

  /** "before" / any other `pos`: src takes the target's parent and an order half a step below / above the target's. */
  function BesidePlaced(docs: seq<Doc>, si: nat, ti: nat, before: bool): (r: seq<Doc>)
    requires si < |docs| && ti < |docs|
  {
    var t := docs[ti];
    docs[si := docs[si].(parentId := t.parentId, order := if before then t.order - 0.5 else t.order + 0.5)]
  }

  /** Where src goes: under the target for "inside", beside it otherwise. */
  function NewParent(docs: seq<Doc>, ti: nat, pos: Pos): (r: Option<Id>)
    requires ti < |docs|
  {
    if pos.Inside? then Some(docs[ti].id) else docs[ti].parentId
  }

  /** src with its new parent and order, before any renumbering. */
  function Placed(docs: seq<Doc>, si: nat, ti: nat, pos: Pos): (r: seq<Doc>)
    requires si < |docs| && ti < |docs|
  {
    if pos.Inside? then InsidePlaced(docs, si, ti) else BesidePlaced(docs, si, ti, pos.Before?)
  }

  /** The group renumbered first: the old one for "inside", the new one otherwise. */
  function FirstGroup(docs: seq<Doc>, si: nat, ti: nat, pos: Pos): (r: Option<Id>)
    requires si < |docs| && ti < |docs|
  {
    if pos.Inside? then docs[si].parentId else NewParent(docs, ti, pos)
  }

  /** The group renumbered second. */
  function SecondGroup(docs: seq<Doc>, si: nat, ti: nat, pos: Pos): (r: Option<Id>)
    requires si < |docs| && ti < |docs|
  {
    if pos.Inside? then NewParent(docs, ti, pos) else docs[si].parentId
  }

  /** Both sibling groups renumbered, in the order the source calls `normalizeOrders`. */
  function Place(docs: seq<Doc>, si: nat, ti: nat, pos: Pos): (r: seq<Doc>)
    requires si < |docs| && ti < |docs|
    ensures |r| == |docs|
  {
    Renumber(Renumber(Placed(docs, si, ti, pos), FirstGroup(docs, si, ti, pos)), SecondGroup(docs, si, ti, pos))
  }

  /** Placing src changes its parent and order and nothing else. */
  lemma {:induction false} PlacedShape(docs: seq<Doc>, si: nat, ti: nat, pos: Pos)
    requires si < |docs| && ti < |docs|
    ensures var d := Placed(docs, si, ti, pos);
      && |d| == |docs|
      && d[si] == docs[si].(parentId := NewParent(docs, ti, pos), order := d[si].order)
      && forall j :: 0 <= j < |docs| && j != si ==> d[j] == docs[j]
  {
  }

  /** `src.updatedAt = Date.now()`. */
  function Stamp(docs: seq<Doc>, i: nat, now: int): (r: seq<Doc>)
    requires i < |docs|
    ensures |r| == |docs|
  {
    docs[i := docs[i].(updatedAt := now)]
  }

  /** The guards of `moveDoc`: both ids given, different, the target not under src, both live. */
  predicate Movable(docs: seq<Doc>, src: Option<Id>, tgt: Option<Id>)
    requires Acyclic(docs)
  {
    && src.Some? && tgt.Some? && src != tgt
    && !DescendsFrom(docs, tgt, src)
    && Live(docs, src.value) && Live(docs, tgt.value)
  }

  /** Positions of src and target once the guards have passed. */
  lemma {:induction false} MovableIndices(docs: seq<Doc>, src: Option<Id>, tgt: Option<Id>)
    requires Acyclic(docs) && Movable(docs, src, tgt)
    ensures 0 <= IndexOf(docs, src.value) < |docs| && 0 <= IndexOf(docs, tgt.value) < |docs|
    ensures IndexOf(docs, src.value) != IndexOf(docs, tgt.value)
  {
  }

  /**
   * The live list after `moveDoc(src, tgt, pos)` at time `now`: unchanged when
   * a guard fails, otherwise src placed, both groups renumbered, src stamped.
   */
  function MoveSpec(docs: seq<Doc>, src: Option<Id>, tgt: Option<Id>, pos: Pos, now: int): (r: seq<Doc>)
    requires Acyclic(docs)
  {
    if !Movable(docs, src, tgt) then docs
    else
      MovableIndices(docs, src, tgt);
      var si := IndexOf(docs, src.value);
      Stamp(Place(docs, si, IndexOf(docs, tgt.value), pos), si, now)
  }

  /** Past the guards, the move is src placed at its index, beside or under the target's index. */
  lemma {:induction false} MoveAt(docs: seq<Doc>, src: Option<Id>, tgt: Option<Id>, pos: Pos, now: int)
    requires Acyclic(docs) && Movable(docs, src, tgt)
    ensures 0 <= IndexOf(docs, src.value) < |docs| && 0 <= IndexOf(docs, tgt.value) < |docs|
    ensures IndexOf(docs, src.value) != IndexOf(docs, tgt.value)
    ensures MoveSpec(docs, src, tgt, pos, now) ==
      Stamp(Place(docs, IndexOf(docs, src.value), IndexOf(docs, tgt.value), pos), IndexOf(docs, src.value), now)
  {
    MovableIndices(docs, src, tgt);
  }

  /** Two rounds of `normalizeOrders` change nothing but orders, and only in the two groups. */
  lemma {:induction false} TwiceFrame(d: seq<Doc>, p1: Option<Id>, p2: Option<Id>)
    ensures var r := Renumber(Renumber(d, p1), p2);
      && SameShape(d, r)
      && (forall j :: 0 <= j < |d| ==> r[j] == d[j].(order := r[j].order))
      && (forall j :: 0 <= j < |d| && d[j].parentId != p1 && d[j].parentId != p2 ==> r[j] == d[j])
  {
    var r1 := Renumber(d, p1);
    var r := Renumber(r1, p2);
    assert SameShape(d, r1) && SameShape(r1, r);
  }

  /** What placing, renumbering and stamping src change. */
  lemma {:induction false} PlaceFrame(docs: seq<Doc>, si: nat, ti: nat, pos: Pos, now: int)
    requires si < |docs| && ti < |docs|
    ensures var r := Stamp(Place(docs, si, ti, pos), si, now);
      && |r| == |docs|
      && r[si] == docs[si].(parentId := NewParent(docs, ti, pos), order := r[si].order, updatedAt := now)
      && (forall j :: 0 <= j < |docs| && j != si ==> r[j] == docs[j].(order := r[j].order))
      && (forall j ::
            (0 <= j < |docs| && j != si && docs[j].parentId != docs[si].parentId &&
             docs[j].parentId != NewParent(docs, ti, pos)) ==> r[j] == docs[j])
  {
    var d := Placed(docs, si, ti, pos);
    var p1, p2 := FirstGroup(docs, si, ti, pos), SecondGroup(docs, si, ti, pos);
    var p := Place(docs, si, ti, pos);
    assert p == Renumber(Renumber(d, p1), p2);
    PlacedShape(docs, si, ti, pos);
    TwiceFrame(d, p1, p2);
    var r := Stamp(p, si, now);
    assert r[si] == p[si].(updatedAt := now);
    forall j | 0 <= j < |docs| && j != si ensures r[j] == docs[j].(order := r[j].order) {
      assert r[j] == p[j] && d[j] == docs[j];
    }
    forall j | 0 <= j < |docs| && j != si && docs[j].parentId != docs[si].parentId &&
        docs[j].parentId != NewParent(docs, ti, pos)
      ensures r[j] == docs[j]
    {
      assert r[j] == p[j] && d[j] == docs[j];
      assert d[j].parentId != p1 && d[j].parentId != p2;
    }
  }

  /**
   * Past the guards, `moveDoc` gives src its new parent, a new order and the
   * time stamp `now`; every other document keeps every field but its order,
   * and only members of src's old and new groups are renumbered.
   */
  lemma {:induction false} MoveFrame(docs: seq<Doc>, src: Option<Id>, tgt: Option<Id>, pos: Pos, now: int)
    requires Acyclic(docs) && Movable(docs, src, tgt)
    ensures var r := MoveSpec(docs, src, tgt, pos, now);
      var si := IndexOf(docs, src.value);
      var ti := IndexOf(docs, tgt.value);
      && |r| == |docs| && 0 <= si < |docs| && 0 <= ti < |docs|
      && r[si] == docs[si].(parentId := NewParent(docs, ti, pos), order := r[si].order, updatedAt := now)
      && (forall j :: 0 <= j < |docs| && j != si ==> r[j] == docs[j].(order := r[j].order))
      && (forall j ::
            (0 <= j < |docs| && j != si && docs[j].parentId != docs[si].parentId &&
             docs[j].parentId != NewParent(docs, ti, pos)) ==> r[j] == docs[j])
  {
    MoveAt(docs, src, tgt, pos, now);
    PlaceFrame(docs, IndexOf(docs, src.value), IndexOf(docs, tgt.value), pos, now);
  }

  /** A list that differs from `docs` only in orders, except for the parent of `docs[si]`, re-parents just that document. */
  lemma {:induction false} FrameReparents(docs: seq<Doc>, r: seq<Doc>, si: nat, q: Option<Id>)
    requires UniqueIds(docs) && si < |docs| && |r| == |docs|
    requires r[si].id == docs[si].id && r[si].parentId == q
    requires forall j :: 0 <= j < |docs| && j != si ==> r[j] == docs[j].(order := r[j].order)
    ensures Reparented(docs, r, {docs[si].id}, q)
  {
    forall j | 0 <= j < |docs| ensures r[j].parentId == (if docs[j].id in {docs[si].id} then q else docs[j].parentId) {
      if j != si {
        assert docs[j].id != docs[si].id;
      }
    }
  }

  /** Placing src moves it, with the subtree below it, to its new parent; no other parent changes. */
  lemma {:induction false} PlaceReparents(docs: seq<Doc>, si: nat, ti: nat, pos: Pos, now: int)
    requires UniqueIds(docs) && si < |docs| && ti < |docs|
    ensures Reparented(docs, Stamp(Place(docs, si, ti, pos), si, now), {docs[si].id}, NewParent(docs, ti, pos))
  {
    PlaceFrame(docs, si, ti, pos, now);
    FrameReparents(docs, Stamp(Place(docs, si, ti, pos), si, now), si, NewParent(docs, ti, pos));
  }

  /** `moveDoc` moves src, with the subtree below it, to its new parent; no other parent changes. */
  lemma {:induction false} MoveReparents(docs: seq<Doc>, src: Option<Id>, tgt: Option<Id>, pos: Pos, now: int)
    requires UniqueIds(docs) && Acyclic(docs) && Movable(docs, src, tgt)
    ensures Reparented(docs, MoveSpec(docs, src, tgt, pos, now), {src.value},
                       NewParent(docs, IndexOf(docs, tgt.value), pos))
  {
    MoveAt(docs, src, tgt, pos, now);
    PlaceReparents(docs, IndexOf(docs, src.value), IndexOf(docs, tgt.value), pos, now);
  }

  /** The new parent of src is live and lies outside the subtree of src: the guard `isDescendant(targetId, srcId)` sees to it. */
  lemma {:induction false} NewParentOutside(docs: seq<Doc>, src: Option<Id>, tgt: Option<Id>, pos: Pos)
    requires UniqueIds(docs) && Acyclic(docs) && ParentsLive(docs) && Movable(docs, src, tgt)
    ensures var q := NewParent(docs, IndexOf(docs, tgt.value), pos);
      q.Some? ==> Live(docs, q.value) && !InSub(docs, {src.value}, q.value)
  {
    var ti := IndexOf(docs, tgt.value);
    var t := docs[ti];
    var q := NewParent(docs, ti, pos);
    assert t in docs;
    assert FindDoc(docs, tgt.value) == Some(t);
    assert !Under(docs, t, src.value);
    if q.Some? && !pos.Inside? {
      assert Live(docs, q.value);
      var p := FindDoc(docs, q.value).value;
      if q.value == src.value {
        assert false;
      }
      if InSub(docs, {src.value}, q.value) {
        assert Under(docs, p, src.value);
        UnderExtend(docs, t, p, src.value);
        assert false;
      }
    }
  }

  /** `moveDoc` keeps the invariant of the store: in particular the live forest stays acyclic. */
  lemma {:induction false} MoveKeepsInv(s: State, src: Option<Id>, tgt: Option<Id>, pos: Pos, now: int)
    requires Inv(s)
    ensures Inv(State(MoveSpec(s.docs, src, tgt, pos, now), s.trash))
  {
    if Movable(s.docs, src, tgt) {
      UniqueParts(s.docs, s.trash);
      var r := MoveSpec(s.docs, src, tgt, pos, now);
      MoveReparents(s.docs, src, tgt, pos, now);
      NewParentOutside(s.docs, src, tgt, pos);
      ReparentKeeps(s.docs, r, {src.value}, NewParent(s.docs, IndexOf(s.docs, tgt.value), pos));
      SameIdsWith(s.docs, r, s.trash);
    }
  }

  /** Stamping one document keeps every group in its order, stamped. */
  lemma {:induction false} StampChildren(docs: seq<Doc>, i: nat, now: int, q: Option<Id>)
    requires UniqueIds(docs) && i < |docs|
    ensures ChildrenOf(Stamp(docs, i, now), q) ==
      Map(At(docs[i].id, (d: Doc) => d.(updatedAt := now)), ChildrenOf(docs, q))
    ensures Normalized(docs, q) ==> Normalized(Stamp(docs, i, now), q)
  {
    var f := At(docs[i].id, (d: Doc) => d.(updatedAt := now));
    EditOne(docs, i, (d: Doc) => d.(updatedAt := now));
    assert KeepsPlace(f);
    ChildrenMap(f, docs, q);
    if Normalized(docs, q) {
      NormalizedMap(f, docs, q);
    }
  }

  /** Renumbering two groups leaves both normalised. */
  lemma {:induction false} TwiceNormalizes(d: seq<Doc>, p1: Option<Id>, p2: Option<Id>)
    requires UniqueIds(d)
    ensures Normalized(Renumber(Renumber(d, p1), p2), p1)
    ensures Normalized(Renumber(Renumber(d, p1), p2), p2)
  {
    var r1 := Renumber(d, p1);
    SameShapeKeeps(d, r1);
    RenumberNormalizes(d, p1);
    RenumberNormalizes(r1, p2);
    if p1 != p2 {
      RenumberOther(r1, p2, p1);
    }
  }

  /** Renumbering two groups and then stamping one document leaves both groups normalised. */
  lemma {:induction false} StampedTwice(d: seq<Doc>, p1: Option<Id>, p2: Option<Id>, si: nat, now: int)
    requires UniqueIds(d) && si < |d|
    ensures var p := Renumber(Renumber(d, p1), p2);
      Normalized(Stamp(p, si, now), p1) && Normalized(Stamp(p, si, now), p2)
  {
    var p := Renumber(Renumber(d, p1), p2);
    TwiceNormalizes(d, p1, p2);
    TwiceFrame(d, p1, p2);
    SameShapeKeeps(d, p);
    StampChildren(p, si, now, p1);
    StampChildren(p, si, now, p2);
  }

  /** Placing src keeps ids unique. */
  lemma {:induction false} PlacedUnique(docs: seq<Doc>, si: nat, ti: nat, pos: Pos)
    requires UniqueIds(docs) && si < |docs| && ti < |docs|
    ensures UniqueIds(Placed(docs, si, ti, pos))
  {
    var d := Placed(docs, si, ti, pos);
    PlacedShape(docs, si, ti, pos);
    forall i, j | 0 <= i < j < |d| ensures d[i].id != d[j].id {
      assert d[i].id == docs[i].id && d[j].id == docs[j].id;
    }
  }

  /** After a move, src's old group and its new group are both normalised. */
  lemma {:induction false} MoveNormalizes(docs: seq<Doc>, src: Option<Id>, tgt: Option<Id>, pos: Pos, now: int)
    requires UniqueIds(docs) && Acyclic(docs) && Movable(docs, src, tgt)
    ensures var r := MoveSpec(docs, src, tgt, pos, now);
      var si := IndexOf(docs, src.value);
      var ti := IndexOf(docs, tgt.value);
      0 <= si < |docs| && 0 <= ti < |docs| &&
      Normalized(r, docs[si].parentId) && Normalized(r, NewParent(docs, ti, pos))
  {
    MoveAt(docs, src, tgt, pos, now);
    var si := IndexOf(docs, src.value);
    var ti := IndexOf(docs, tgt.value);
    PlacedUnique(docs, si, ti, pos);
    StampedTwice(Placed(docs, si, ti, pos), FirstGroup(docs, si, ti, pos), SecondGroup(docs, si, ti, pos), si, now);
  }

  /** "inside": src's order is above that of every other child of the target. */
  lemma {:induction false} InsideTop(docs: seq<Doc>, si: nat, ti: nat)
    requires si < |docs| && ti < |docs|
    ensures var d := InsidePlaced(docs, si, ti);
      && |d| == |docs| && d[si].parentId == Some(docs[ti].id)
      && forall j :: 0 <= j < |d| && j != si && d[j].parentId == Some(docs[ti].id) ==> d[j].order < d[si].order
  {
    var g := Some(docs[ti].id);
    var d1 := docs[si := docs[si].(parentId := g)];
    var d := InsidePlaced(docs, si, ti);
    forall j | 0 <= j < |d| && j != si && d[j].parentId == g ensures d[j].order < d[si].order {
      assert d[j] == d1[j] && d1[j] in d1;
    }
  }

  /** A group member that is last stays last when one document is stamped. */
  lemma {:induction false} LastStamped(p: seq<Doc>, si: nat, now: int, g: Option<Id>)
    requires UniqueIds(p) && si < |p|
    requires var kids := ChildrenOf(p, g); |kids| > 0 && kids[|kids| - 1] == p[si]
    ensures var kids := ChildrenOf(Stamp(p, si, now), g); |kids| > 0 && kids[|kids| - 1] == Stamp(p, si, now)[si]
  {
    StampChildren(p, si, now, g);
  }

  /** The same for a group renumbered in between, as src's old group is before the target's. */
  lemma {:induction false} TopStaysLast(d: seq<Doc>, p1: Option<Id>, g: Option<Id>, si: nat)
    requires UniqueIds(d) && si < |d| && d[si].parentId == g
    requires forall j :: 0 <= j < |d| && j != si && d[j].parentId == g ==> d[j].order < d[si].order
    ensures var p := Renumber(Renumber(d, p1), g);
      var kids := ChildrenOf(p, g); |kids| > 0 && kids[|kids| - 1] == p[si]
  {
    var r1 := Renumber(d, p1);
    if p1 == g {
      RenumberIdempotent(d, g);
      RenumberLast(d, g, si);
    } else {
      SameShapeKeeps(d, r1);
      forall j | 0 <= j < |r1| && j != si && r1[j].parentId == g ensures r1[j].order < r1[si].order {
        assert r1[j] == d[j] && r1[si] == d[si];
      }
      RenumberLast(r1, g, si);
    }
  }

  /** `r[i]` is the last child of `g` in `childrenOf` order. */
  ghost predicate LastChild(r: seq<Doc>, g: Option<Id>, i: nat)
  {
    var kids := ChildrenOf(r, g);
    i < |r| && |kids| > 0 && kids[|kids| - 1] == r[i]
  }

  /** Placing src "inside" the target and renumbering makes it the target's last child. */
  lemma {:induction false} PlaceInside(docs: seq<Doc>, si: nat, ti: nat, now: int)
    requires UniqueIds(docs) && si < |docs| && ti < |docs|
    ensures var r := Stamp(Place(docs, si, ti, Inside), si, now);
      LastChild(r, Some(docs[ti].id), si) && r[si].parentId == Some(docs[ti].id)
  {
    var g := Some(docs[ti].id);
    var d := InsidePlaced(docs, si, ti);
    InsideTop(docs, si, ti);
    PlacedUnique(docs, si, ti, Inside);
    TopStaysLast(d, docs[si].parentId, g, si);
    var p := Renumber(Renumber(d, docs[si].parentId), g);
    assert p == Place(docs, si, ti, Inside);
    TwiceFrame(d, docs[si].parentId, g);
    SameShapeKeeps(d, p);
    LastStamped(p, si, now, g);
  }

  /** "inside" makes src a child of the target, and its last one. */
  lemma {:induction false} MoveInside(docs: seq<Doc>, src: Option<Id>, tgt: Option<Id>, now: int)
    requires UniqueIds(docs) && Acyclic(docs) && Movable(docs, src, tgt)
    ensures var r := MoveSpec(docs, src, tgt, Inside, now);
      var si := IndexOf(docs, src.value);
      0 <= si < |r| && r[si].parentId == tgt && LastChild(r, tgt, si)
  {
    MoveAt(docs, src, tgt, Inside, now);
    var si := IndexOf(docs, src.value);
    var ti := IndexOf(docs, tgt.value);
    assert tgt == Some(docs[ti].id);
    PlaceInside(docs, si, ti, now);
  }

  /**
   * "before"/"after" in a normalised group: src lands half a step from the
   * target, and no other member of the target's group lies between them.
   */
  lemma {:induction false} BesideSpaced(docs: seq<Doc>, si: nat, ti: nat, before: bool, lo: nat, hi: nat)
    requires UniqueIds(docs) && si < |docs| && ti < |docs| && si != ti
    requires Normalized(docs, docs[ti].parentId)
    requires (lo, hi) == (if before then (si, ti) else (ti, si))
    ensures var d := BesidePlaced(docs, si, ti, before);
      && |d| == |docs| && d[si].parentId == docs[ti].parentId && d[ti] == docs[ti]
      && d[lo].order < d[hi].order
      && forall j :: 0 <= j < |d| && j != lo && j != hi && d[j].parentId == docs[ti].parentId ==>
           d[j].order < d[lo].order || d[hi].order < d[j].order
  {
    var n := docs[ti].parentId;
    var d := BesidePlaced(docs, si, ti, before);
    forall j | 0 <= j < |d| && j != lo && j != hi && d[j].parentId == n
      ensures d[j].order < d[lo].order || d[hi].order < d[j].order
    {
      assert d[j] == docs[j] && docs[j] in docs && docs[ti] in docs;
      assert docs[j].id != docs[ti].id;
      NormalizedSpaced(docs, n, docs[j], docs[ti]);
    }
  }

  /** Two documents of group `n` with consecutive orders keep them when another group is renumbered. */
  lemma {:induction false} AdjacentKept(d: seq<Doc>, n: Option<Id>, g: Option<Id>, lo: nat, hi: nat)
    requires UniqueIds(d) && lo < |d| && hi < |d|
    requires d[lo].parentId == n && d[hi].parentId == n
    requires Renumber(d, n)[hi].order == Renumber(d, n)[lo].order + 1.0
    ensures var p := Renumber(Renumber(d, n), g);
      p[hi].order == p[lo].order + 1.0 && p[lo].parentId == n && p[hi].parentId == n
  {
    var r1 := Renumber(d, n);
    assert r1[lo].parentId == n && r1[hi].parentId == n;
    if g == n {
      RenumberIdempotent(d, n);
    }
  }

  /** Stamping keeps every document's parent and order. */
  lemma {:induction false} StampKeeps(p: seq<Doc>, si: nat, now: int, j: nat)
    requires si < |p| && j < |p|
    ensures Stamp(p, si, now)[j].order == p[j].order && Stamp(p, si, now)[j].parentId == p[j].parentId
  {
  }

  /** Stamping one document keeps ids unique. */
  lemma {:induction false} StampUnique(p: seq<Doc>, si: nat, now: int)
    requires UniqueIds(p) && si < |p|
    ensures UniqueIds(Stamp(p, si, now))
  {
    var r := Stamp(p, si, now);
    assert SameShape(p, r);
    SameShapeKeeps(p, r);
  }

  /** Consecutive orders in a normalised group survive stamping, and make the two documents neighbours. */
  lemma {:induction false} StampAdjacent(p: seq<Doc>, si: nat, now: int, n: Option<Id>, lo: nat, hi: nat)
    requires UniqueIds(p) && Normalized(p, n) && si < |p| && lo < |p| && hi < |p|
    requires p[lo].parentId == n && p[hi].parentId == n && p[hi].order == p[lo].order + 1.0
    ensures Adjacent(Stamp(p, si, now), n, lo, hi)
  {
    StampChildren(p, si, now, n);
    StampUnique(p, si, now);
    StampKeeps(p, si, now, lo);
    StampKeeps(p, si, now, hi);
    Neighbours(Stamp(p, si, now), n, lo, hi);
  }

  /** Placing src and renumbering both groups keeps ids unique and leaves both groups normalised. */
  lemma {:induction false} PlaceNormal(docs: seq<Doc>, si: nat, ti: nat, pos: Pos)
    requires UniqueIds(docs) && si < |docs| && ti < |docs|
    ensures var p := Place(docs, si, ti, pos);
      UniqueIds(p) && Normalized(p, FirstGroup(docs, si, ti, pos)) && Normalized(p, SecondGroup(docs, si, ti, pos))
  {
    var d := Placed(docs, si, ti, pos);
    var p1, p2 := FirstGroup(docs, si, ti, pos), SecondGroup(docs, si, ti, pos);
    PlacedUnique(docs, si, ti, pos);
    TwiceNormalizes(d, p1, p2);
    TwiceFrame(d, p1, p2);
    SameShapeKeeps(d, Place(docs, si, ti, pos));
  }

  /** Before the stamp: src and the target have consecutive orders in the renumbered group. */
  lemma {:induction false} BesideRenumbered(docs: seq<Doc>, si: nat, ti: nat, pos: Pos, lo: nat, hi: nat)
    requires UniqueIds(docs) && si < |docs| && ti < |docs| && si != ti && !pos.Inside?
    requires Normalized(docs, docs[ti].parentId)
    requires lo < |docs| && hi < |docs| && (lo, hi) == (if pos.Before? then (si, ti) else (ti, si))
    ensures var p := Place(docs, si, ti, pos);
      var n := docs[ti].parentId;
      p[lo].parentId == n && p[hi].parentId == n && p[hi].order == p[lo].order + 1.0
  {
    var n := docs[ti].parentId;
    var d := BesidePlaced(docs, si, ti, pos.Before?);
    assert d == Placed(docs, si, ti, pos);
    BesideSpaced(docs, si, ti, pos.Before?, lo, hi);
    PlacedUnique(docs, si, ti, pos);
    RenumberAdjacent(d, n, lo, hi);
    AdjacentKept(d, n, docs[si].parentId, lo, hi);
    assert FirstGroup(docs, si, ti, pos) == n && SecondGroup(docs, si, ti, pos) == docs[si].parentId;
  }

  /** Placing src before (after) the target in a normalised group makes it the target's previous (next) sibling. */
  lemma {:induction false} PlaceBeside(docs: seq<Doc>, si: nat, ti: nat, pos: Pos, now: int)
    requires UniqueIds(docs) && si < |docs| && ti < |docs| && si != ti && !pos.Inside?
    requires Normalized(docs, docs[ti].parentId)
    ensures var r := Stamp(Place(docs, si, ti, pos), si, now);
      var n := docs[ti].parentId;
      && r[si].parentId == n
      && (pos.Before? ==> Adjacent(r, n, si, ti))
      && (!pos.Before? ==> Adjacent(r, n, ti, si))
  {
    var n := docs[ti].parentId;
    var lo, hi := if pos.Before? then si else ti, if pos.Before? then ti else si;
    var p := Place(docs, si, ti, pos);
    assert p[lo].parentId == n && p[hi].parentId == n && p[hi].order == p[lo].order + 1.0 by {
      BesideRenumbered(docs, si, ti, pos, lo, hi);
    }
    assert UniqueIds(p) && Normalized(p, n) by {
      PlaceNormal(docs, si, ti, pos);
      assert FirstGroup(docs, si, ti, pos) == n;
    }
    StampKeeps(p, si, now, si);
    StampAdjacent(p, si, now, n, lo, hi);
  }

  /**
   * "before" makes src the target's previous sibling and any other `pos` its
   * next one, provided the target's group was normalised to begin with.
   */
  lemma {:induction false} MoveBeside(docs: seq<Doc>, src: Option<Id>, tgt: Option<Id>, pos: Pos, now: int)
    requires UniqueIds(docs) && Acyclic(docs) && Movable(docs, src, tgt) && !pos.Inside?
    requires Normalized(docs, docs[IndexOf(docs, tgt.value)].parentId)
    ensures var r := MoveSpec(docs, src, tgt, pos, now);
      var si := IndexOf(docs, src.value);
      var ti := IndexOf(docs, tgt.value);
      var n := docs[ti].parentId;
      && 0 <= si < |r| && 0 <= ti < |r| && r[si].parentId == n
      && (pos.Before? ==> Adjacent(r, n, si, ti))
      && (!pos.Before? ==> Adjacent(r, n, ti, si))
  {
    MoveAt(docs, src, tgt, pos, now);
    PlaceBeside(docs, IndexOf(docs, src.value), IndexOf(docs, tgt.value), pos, now);
  }
}
