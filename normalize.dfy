/**
 * `normalizeOrders(pid)` (app.js): the children of `pid`, in `childrenOf`
 * order, get the orders 0, 1, 2, ...; nothing else changes.
 */
module Normalize {
  import opened Wrappers
  import opened Documents
  import opened Forest
  import opened Lists
  import opened Shape

  /** `d.order = i`, where `i` is the position of `d` in the sorted group `kids`. */
  function Renum(kids: seq<Doc>, d: Doc): (r: Doc)
  {
    d.(order := IndexOf(kids, d.id) as real)
  }

  function RenumberWith(kids: seq<Doc>, docs: seq<Doc>, pid: Option<Id>): (r: seq<Doc>)
    ensures |r| == |docs|
    ensures forall j :: 0 <= j < |docs| ==>
      r[j] == if docs[j].parentId == pid then Renum(kids, docs[j]) else docs[j]
  {
    if docs == [] then []
    else [if docs[0].parentId == pid then Renum(kids, docs[0]) else docs[0]] + RenumberWith(kids, docs[1..], pid)
  }

  /** The live list after `normalizeOrders(pid)`. */
  function Renumber(docs: seq<Doc>, pid: Option<Id>): (r: seq<Doc>)
    ensures SameShape(docs, r)
    ensures forall j :: 0 <= j < |docs| ==> r[j] == docs[j].(order := r[j].order)
    ensures forall j :: 0 <= j < |docs| && docs[j].parentId != pid ==> r[j] == docs[j]
  {
    RenumberWith(ChildrenOf(docs, pid), docs, pid)
  }

  /** The sorted group with each order replaced by its position. */
  function Ranked(u: seq<Doc>): (r: seq<Doc>)
  {
    seq(|u|, i requires 0 <= i < |u| => u[i].(order := i as real))
  }

  /** The children of `pid`, in `childrenOf` order, have the orders 0, 1, 2, ... */
  ghost predicate Normalized(docs: seq<Doc>, pid: Option<Id>)
  {
    var kids := ChildrenOf(docs, pid);
    forall i :: 0 <= i < |kids| ==> kids[i].order == i as real
  }

  lemma {:induction false} SiblingsRenumber(kids: seq<Doc>, docs: seq<Doc>, pid: Option<Id>, p: Option<Id>)
    ensures Siblings(RenumberWith(kids, docs, pid), p) ==
      if p == pid then Map((d: Doc) => Renum(kids, d), Siblings(docs, p)) else Siblings(docs, p)
  {
    if docs != [] {
      SiblingsRenumber(kids, docs[1..], pid, p);
      var r := RenumberWith(kids, docs, pid);
      assert r[1..] == RenumberWith(kids, docs[1..], pid);
    }
  }

  /** With unique ids, `Renum` with respect to `u` itself gives each element its position. */
  lemma {:induction false} RankedIndex(u: seq<Doc>)
    requires UniqueIds(u)
    ensures Map((d: Doc) => Renum(u, d), u) == Ranked(u)
  {
    forall i | 0 <= i < |u| ensures Renum(u, u[i]) == u[i].(order := i as real) {
      var k := IndexOf(u, u[i].id);
      assert k >= 0 && k <= i;
    }
  }

  /** A group sorted by `childrenOf` has unique ids when the live list has. */
  lemma {:induction false} ChildrenUnique(docs: seq<Doc>, pid: Option<Id>)
    requires UniqueIds(docs)
    ensures UniqueIds(ChildrenOf(docs, pid))
  {
    SiblingsUnique(docs, pid);
    UniqueIdsPerm(Siblings(docs, pid), ChildrenOf(docs, pid));
  }

  /**
   * After `normalizeOrders(pid)` the group is listed in the same order as before,
   * with each order replaced by its position.
   */
  lemma {:induction false} RenumberChildren(docs: seq<Doc>, pid: Option<Id>)
    requires UniqueIds(docs)
    ensures ChildrenOf(Renumber(docs, pid), pid) == Ranked(ChildrenOf(docs, pid))
  {
    var kids := ChildrenOf(docs, pid);
    var r := Renumber(docs, pid);
    var f := (d: Doc) => Renum(kids, d);
    SiblingsRenumber(kids, docs, pid, pid);
    MapPerm(f, Siblings(docs, pid), kids);
    ChildrenUnique(docs, pid);
    RankedIndex(kids);
    var t := Ranked(kids);
    forall i, j | 0 <= i < j < |t| ensures t[i].order < t[j].order {
    }
    SortedUnique(ChildrenOf(r, pid), t);
  }

  /** After `normalizeOrders(pid)`, the i-th child of `pid` has order i. */
  lemma {:induction false} RenumberNormalizes(docs: seq<Doc>, pid: Option<Id>)
    requires UniqueIds(docs)
    ensures Normalized(Renumber(docs, pid), pid)
  {
    RenumberChildren(docs, pid);
  }

  /** Other sibling groups are left exactly as they were. */
  lemma {:induction false} RenumberOther(docs: seq<Doc>, pid: Option<Id>, p: Option<Id>)
    requires p != pid
    ensures ChildrenOf(Renumber(docs, pid), p) == ChildrenOf(docs, p)
  {
    SiblingsRenumber(ChildrenOf(docs, pid), docs, pid, p);
  }

  /** A group that is already normalised is left as it is. */
  lemma {:induction false} NormalizedFixed(docs: seq<Doc>, pid: Option<Id>)
    requires UniqueIds(docs) && Normalized(docs, pid)
    ensures Renumber(docs, pid) == docs
  {
    var kids := ChildrenOf(docs, pid);
    var r := Renumber(docs, pid);
    ChildrenUnique(docs, pid);
    forall j | 0 <= j < |docs| && docs[j].parentId == pid ensures r[j] == docs[j] {
      assert docs[j] in kids;
      var i :| 0 <= i < |kids| && kids[i] == docs[j];
      var k := IndexOf(kids, docs[j].id);
      assert k >= 0 && k <= i;
    }
  }

  /** `normalizeOrders` is idempotent: a second call changes nothing. */
  lemma {:induction false} RenumberIdempotent(docs: seq<Doc>, pid: Option<Id>)
    requires UniqueIds(docs)
    ensures Renumber(Renumber(docs, pid), pid) == Renumber(docs, pid)
  {
    RenumberNormalizes(docs, pid);
    SameShapeKeeps(docs, Renumber(docs, pid));
    NormalizedFixed(Renumber(docs, pid), pid);
  }

  /** `f` changes nothing that `childrenOf` looks at. */
  ghost predicate KeepsPlace(f: Doc -> Doc)
  {
    KeepsKey(f) && forall d :: f(d).parentId == d.parentId && f(d).id == d.id
  }

  lemma {:induction false} SiblingsMap(f: Doc -> Doc, docs: seq<Doc>, p: Option<Id>)
    requires KeepsPlace(f)
    ensures Siblings(Map(f, docs), p) == Map(f, Siblings(docs, p))
  {
    if docs != [] {
      var m := Map(f, docs);
      assert m[0] == f(docs[0]) && m[1..] == Map(f, docs[1..]);
      SiblingsMap(f, docs[1..], p);
      if docs[0].parentId == p {
        assert Map(f, [docs[0]] + Siblings(docs[1..], p)) == [f(docs[0])] + Map(f, Siblings(docs[1..], p));
      }
    }
  }

  /** An edit that keeps ids, parents and sort keys keeps each group in its order. */
  lemma {:induction false} ChildrenMap(f: Doc -> Doc, docs: seq<Doc>, p: Option<Id>)
    requires KeepsPlace(f)
    ensures ChildrenOf(Map(f, docs), p) == Map(f, ChildrenOf(docs, p))
  {
    SiblingsMap(f, docs, p);
    SortMap(f, Siblings(docs, p));
  }

  /** ... and keeps normalised groups normalised. */
  lemma {:induction false} NormalizedMap(f: Doc -> Doc, docs: seq<Doc>, p: Option<Id>)
    requires KeepsPlace(f) && Normalized(docs, p)
    ensures Normalized(Map(f, docs), p)
  {
    ChildrenMap(f, docs, p);
  }

  /** Where a member of the group ends up: its position in `childrenOf`, which becomes its order. */
  lemma {:induction false} GroupPos(docs: seq<Doc>, pid: Option<Id>, j: nat) returns (m: nat)
    requires UniqueIds(docs) && j < |docs| && docs[j].parentId == pid
    ensures m < |ChildrenOf(docs, pid)| && ChildrenOf(docs, pid)[m] == docs[j]
    ensures Renumber(docs, pid)[j].order == m as real
  {
    var kids := ChildrenOf(docs, pid);
    assert docs[j] in kids;
    var i := IndexOf(kids, docs[j].id);
    m := i;
    assert kids[m] in docs;
    SameId(docs, kids[m], docs[j]);
  }

  /**
   * In a sorted list without repeats, if nothing else has an order between
   * those of `u[m]` and `u[n]`, and `u[m]` has the smaller one, `u[n]` comes right after `u[m]`.
   */
  lemma {:induction false} SortedAdjacent(u: seq<Doc>, m: nat, n: nat)
    requires Sorted(u) && UniqueIds(u) && m < |u| && n < |u|
    requires u[m].order < u[n].order
    requires forall i :: 0 <= i < |u| && i != m && i != n ==>
      u[i].order < u[m].order || u[n].order < u[i].order
    ensures n == m + 1
  {
    if n <= m {
      SortedOrderLe(u, n, m);
      assert false;
    } else if n > m + 1 {
      var k := m + 1;
      SortedOrderLe(u, m, k);
      SortedOrderLe(u, k, n);
      assert false;
    }
  }

  lemma {:induction false} SortedOrderLe(u: seq<Doc>, i: nat, j: nat)
    requires Sorted(u) && i <= j < |u|
    ensures u[i].order <= u[j].order
  {
    if i < j {
      assert KeyLe(u[i], u[j]);
    }
  }

  /** In a sorted list, an element with an order above all others is the last. */
  lemma {:induction false} SortedLast(u: seq<Doc>, n: nat)
    requires Sorted(u) && n < |u|
    requires forall i :: 0 <= i < |u| && i != n ==> u[i].order < u[n].order
    ensures n == |u| - 1
  {
    if n < |u| - 1 {
      SortedOrderLe(u, n, |u| - 1);
      assert false;
    }
  }

  /** In a normalised group different documents have orders at least one apart. */
  lemma {:induction false} NormalizedSpaced(docs: seq<Doc>, pid: Option<Id>, d: Doc, e: Doc)
    requires UniqueIds(docs) && Normalized(docs, pid)
    requires d in docs && e in docs && d.parentId == pid && e.parentId == pid && d.id != e.id
    ensures d.order + 1.0 <= e.order || e.order + 1.0 <= d.order
  {
    var kids := ChildrenOf(docs, pid);
    assert d in kids && e in kids;
    var i :| 0 <= i < |kids| && kids[i] == d;
    var j :| 0 <= j < |kids| && kids[j] == e;
    assert d.order == i as real && e.order == j as real;
    assert i != j;
  }
}
