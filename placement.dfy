/**
 * Where `normalizeOrders` puts a document whose order was chosen relative to
 * its siblings: above all of them (`maxOrder`), or half a step from one of them
 * (`createDoc` with `afterId`, `moveDoc` with "before" and "after").
 */
module Placement {
  import opened Wrappers
  import opened Documents
  import opened Forest
  import opened Shape
  import opened Normalize

  /** Where the `i`-th child of `pid` sits in the live list. */
  lemma {:induction false} Member(d: seq<Doc>, pid: Option<Id>, i: nat) returns (j: nat)
    requires i < |ChildrenOf(d, pid)|
    ensures j < |d| && d[j] == ChildrenOf(d, pid)[i] && d[j].parentId == pid
  {
    var u := ChildrenOf(d, pid);
    assert u[i] in d;
    j :| 0 <= j < |d| && d[j] == u[i];
  }

  /** A group member whose order is above every other member's ends up last. */
  lemma {:induction false} RenumberLast(d: seq<Doc>, pid: Option<Id>, n: nat)
    requires UniqueIds(d) && n < |d| && d[n].parentId == pid
    requires forall j :: 0 <= j < |d| && j != n && d[j].parentId == pid ==> d[j].order < d[n].order
    ensures var kids := ChildrenOf(Renumber(d, pid), pid);
      |kids| > 0 && kids[|kids| - 1] == Renumber(d, pid)[n]
  {
    var u := ChildrenOf(d, pid);
    var m := GroupPos(d, pid, n);
    ChildrenUnique(d, pid);
    forall i | 0 <= i < |u| && i != m ensures u[i].order < u[m].order {
      var j := Member(d, pid, i);
      assert u[i].id != u[m].id;
      assert j != n;
    }
    SortedLast(u, m);
    RenumberChildren(d, pid);
  }

  /**
   * Two group members `lo` and `hi`, with no other member's order in the
   * interval between theirs, end up with consecutive orders.
   */
  lemma {:induction false} RenumberAdjacent(d: seq<Doc>, pid: Option<Id>, lo: nat, hi: nat)
    requires UniqueIds(d) && lo < |d| && hi < |d| && d[lo].parentId == pid && d[hi].parentId == pid
    requires d[lo].order < d[hi].order
    requires forall j :: 0 <= j < |d| && j != lo && j != hi && d[j].parentId == pid ==>
      d[j].order < d[lo].order || d[hi].order < d[j].order
    ensures Renumber(d, pid)[hi].order == Renumber(d, pid)[lo].order + 1.0
  {
    var u := ChildrenOf(d, pid);
    var a := GroupPos(d, pid, lo);
    var b := GroupPos(d, pid, hi);
    ChildrenUnique(d, pid);
    forall i | 0 <= i < |u| && i != a && i != b
      ensures u[i].order < u[a].order || u[b].order < u[i].order
    {
      var j := Member(d, pid, i);
      assert u[i].id != u[a].id && u[i].id != u[b].id;
      assert j != lo && j != hi;
      assert d[j].order < d[lo].order || d[hi].order < d[j].order;
    }
    SortedAdjacent(u, a, b);
  }

  /** In a normalised group every member sits at the position its order names. */
  lemma {:induction false} NormalizedAt(docs: seq<Doc>, pid: Option<Id>, j: nat) returns (m: nat)
    requires UniqueIds(docs) && Normalized(docs, pid) && j < |docs| && docs[j].parentId == pid
    ensures m < |ChildrenOf(docs, pid)| && ChildrenOf(docs, pid)[m] == docs[j] && docs[j].order == m as real
  {
    m := GroupPos(docs, pid, j);
    NormalizedFixed(docs, pid);
  }

  /** `docs[a]` comes right before `docs[b]` among the children of `pid`. */
  ghost predicate Adjacent(docs: seq<Doc>, pid: Option<Id>, a: nat, b: nat)
  {
    var kids := ChildrenOf(docs, pid);
    a < |docs| && b < |docs| && exists m :: 0 <= m < |kids| - 1 && kids[m] == docs[a] && kids[m + 1] == docs[b]
  }

  /** In a normalised group, orders one apart are neighbours in `childrenOf` order. */
  lemma {:induction false} Neighbours(docs: seq<Doc>, pid: Option<Id>, a: nat, b: nat)
    requires UniqueIds(docs) && Normalized(docs, pid) && a < |docs| && b < |docs|
    requires docs[a].parentId == pid && docs[b].parentId == pid
    requires docs[b].order == docs[a].order + 1.0
    ensures Adjacent(docs, pid, a, b)
  {
    var i := NormalizedAt(docs, pid, a);
    var k := NormalizedAt(docs, pid, b);
    assert k == i + 1;
  }
}
