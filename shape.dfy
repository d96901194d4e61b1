/**
 * Facts about edits that keep the shape of the live forest: which ids are
 * live and which parent each names. Every operation of the store is built
 * from such edits, removal of documents and re-parenting.
 */
module Shape {
  import opened Wrappers
  import opened Documents
  import opened Forest
  import opened Lists

  /** Position by position, the same ids. */
  ghost predicate SameIds(a: seq<Doc>, b: seq<Doc>)
  {
    |a| == |b| && forall j :: 0 <= j < |a| ==> a[j].id == b[j].id
  }

  /** Position by position, the same ids and the same parents. */
  ghost predicate SameShape(a: seq<Doc>, b: seq<Doc>)
  {
    SameIds(a, b) && forall j :: 0 <= j < |a| ==> a[j].parentId == b[j].parentId
  }

  /** The ids of a list, in order. */
  function Ids(s: seq<Doc>): (r: seq<Id>)
    ensures |r| == |s| && forall i :: 0 <= i < |s| ==> r[i] == s[i].id
  {
    Map((d: Doc) => d.id, s)
  }

  lemma {:induction false} UniqueDistinct(s: seq<Doc>)
    ensures UniqueIds(s) <==> Distinct(Ids(s))
  {
  }

  /** A permutation of a list with unique ids has unique ids. */
  lemma {:induction false} UniqueIdsPerm(a: seq<Doc>, b: seq<Doc>)
    requires UniqueIds(a) && multiset(a) == multiset(b)
    ensures UniqueIds(b)
  {
    UniqueDistinct(a);
    UniqueDistinct(b);
    MapPerm((d: Doc) => d.id, a, b);
    DistinctPerm(Ids(a), Ids(b));
  }

  /** Lists whose ids form the same multiset agree on having unique ids. */
  lemma {:induction false} UniqueIdsSameIds(a: seq<Doc>, b: seq<Doc>)
    requires UniqueIds(a) && multiset(Ids(a)) == multiset(Ids(b))
    ensures UniqueIds(b)
  {
    UniqueDistinct(a);
    UniqueDistinct(b);
    DistinctPerm(Ids(a), Ids(b));
  }

  lemma {:induction false} SameIdsLive(a: seq<Doc>, b: seq<Doc>, id: Id)
    requires SameIds(a, b)
    ensures Live(a, id) <==> Live(b, id)
  {
    if Live(a, id) {
      var d :| d in a && d.id == id;
      var j :| 0 <= j < |a| && a[j] == d;
      assert b[j] in b;
    }
    if Live(b, id) {
      var d :| d in b && d.id == id;
      var j :| 0 <= j < |b| && b[j] == d;
      assert a[j] in a;
    }
  }

  /** Keeping the shape keeps the three well-formedness conditions of the forest. */
  lemma {:induction false} SameShapeKeeps(a: seq<Doc>, b: seq<Doc>)
    requires SameShape(a, b)
    ensures UniqueIds(a) ==> UniqueIds(b)
    ensures forall id :: Live(a, id) <==> Live(b, id)
    ensures ParentsLive(a) ==> ParentsLive(b)
    ensures Acyclic(a) ==> Acyclic(b)
  {
    forall id ensures Live(a, id) <==> Live(b, id) {
      SameIdsLive(a, b, id);
    }
    if ParentsLive(a) {
      forall c | c in b && c.parentId.Some? ensures Live(b, c.parentId.value) {
        var j :| 0 <= j < |b| && b[j] == c;
        assert a[j] in a;
        SameIdsLive(a, b, c.parentId.value);
      }
    }
    if Acyclic(a) {
      var rank := RankOf(a);
      forall c | c in b ensures c.id in rank && (c.parentId.Some? && c.parentId.value in rank ==>
          rank[c.parentId.value] < rank[c.id]) {
        var j :| 0 <= j < |b| && b[j] == c;
        assert a[j] in a;
      }
      assert RankOk(b, rank);
    }
  }

  /** Dropping documents keeps acyclicity. */
  lemma {:induction false} SubsetAcyclic(a: seq<Doc>, b: seq<Doc>)
    requires Acyclic(a)
    requires forall c :: c in b ==> c in a
    ensures Acyclic(b)
  {
    var rank := RankOf(a);
    assert RankOk(b, rank);
  }

  /** A document lying under `r` is a child of `r` or lies under its own parent's. */
  lemma {:induction false} UnderParent(docs: seq<Doc>, x: Doc, p: Doc, r: Id)
    requires UniqueIds(docs) && Acyclic(docs) && x in docs && p in docs
    requires x.parentId == Some(p.id) && Under(docs, x, r)
    ensures p.id == r || Under(docs, p, r)
  {
    AncestryStep(docs, x, p);
    var path := Ancestry(docs, x);
    var k :| 0 <= k < |path| && path[k].parentId == Some(r);
    if k < |path| - 1 {
      assert path[k] == Ancestry(docs, p)[k];
    }
  }

  /** A child of a document lying under `r` lies under `r`. */
  lemma {:induction false} UnderExtend(docs: seq<Doc>, x: Doc, p: Doc, r: Id)
    requires UniqueIds(docs) && Acyclic(docs) && x in docs && p in docs
    requires x.parentId == Some(p.id) && (p.id == r || Under(docs, p, r))
    ensures Under(docs, x, r)
  {
    AncestryStep(docs, x, p);
    var path := Ancestry(docs, x);
    if p.id == r {
      assert path[|path| - 1].parentId == Some(r);
    } else {
      var k :| 0 <= k < |Ancestry(docs, p)| && Ancestry(docs, p)[k].parentId == Some(r);
      assert path[k] == Ancestry(docs, p)[k];
    }
  }

  /** The live document with id `id` is in `R` or lies under a member of `R`. */
  ghost predicate InSub(docs: seq<Doc>, R: set<Id>, id: Id)
    requires Acyclic(docs)
  {
    id in R || (Live(docs, id) && exists r :: r in R && Under(docs, FindDoc(docs, id).value, r))
  }

  /** `b` is `a` with the documents whose ids are in `R` moved under `q`. */
  ghost predicate Reparented(a: seq<Doc>, b: seq<Doc>, R: set<Id>, q: Option<Id>)
  {
    && SameIds(a, b)
    && forall j :: 0 <= j < |a| ==> b[j].parentId == (if a[j].id in R then q else a[j].parentId)
  }

  /** `rank` raised by `k` on the subtrees of `R`, restricted to the live ids. */
  ghost function ShiftRank(a: seq<Doc>, R: set<Id>, rank: map<Id, nat>, k: nat): (r: map<Id, nat>)
    requires Acyclic(a) && RankOk(a, rank)
    ensures forall id :: id in r <==> Live(a, id)
    ensures forall id :: id in r ==> id in rank && r[id] == if InSub(a, R, id) then rank[id] + k else rank[id]
  {
    var live := set d | d in a :: d.id;
    map id | id in live :: if InSub(a, R, id) then rank[id] + k else rank[id]
  }

  /**
   * Moving whole subtrees under a live document that lies outside all of them
   * (or to the root level) keeps the forest acyclic and its parents live.
   */
  lemma {:induction false} ReparentKeeps(a: seq<Doc>, b: seq<Doc>, R: set<Id>, q: Option<Id>)
    requires UniqueIds(a) && Acyclic(a) && ParentsLive(a) && Reparented(a, b, R, q)
    requires q.Some? ==> Live(a, q.value) && !InSub(a, R, q.value)
    ensures UniqueIds(b) && Acyclic(b) && ParentsLive(b)
  {
    forall id ensures Live(a, id) <==> Live(b, id) {
      SameIdsLive(a, b, id);
    }
    ReparentRanked(a, b, R, q);
    forall c | c in b && c.parentId.Some? ensures Live(b, c.parentId.value) {
      var j :| 0 <= j < |b| && b[j] == c;
      assert a[j] in a;
    }
    forall i, j | 0 <= i < j < |b| ensures b[i].id != b[j].id {
      assert a[i].id != a[j].id;
    }
  }

  lemma {:induction false} ReparentRanked(a: seq<Doc>, b: seq<Doc>, R: set<Id>, q: Option<Id>)
    requires UniqueIds(a) && Acyclic(a) && Reparented(a, b, R, q)
    requires q.Some? ==> Live(a, q.value) && !InSub(a, R, q.value)
    ensures Acyclic(b)
  {
    var rank := RankOf(a);
    if q.Some? {
      var d :| d in a && d.id == q.value;
    }
    var k: nat := (if q.Some? then rank[q.value] else 0) + 1;
    var rank' := ShiftRank(a, R, rank, k);
    forall c | c in b ensures c.id in rank' {
      var j :| 0 <= j < |b| && b[j] == c;
      assert a[j] in a;
    }
    forall c | c in b && c.parentId.Some? && c.parentId.value in rank'
      ensures rank'[c.parentId.value] < rank'[c.id]
    {
      var j :| 0 <= j < |b| && b[j] == c;
      ReparentStep(a, b, R, q, rank, k, rank', j);
    }
    assert RankOk(b, rank');
  }

  lemma {:induction false} ReparentStep(a: seq<Doc>, b: seq<Doc>, R: set<Id>, q: Option<Id>,
                                         rank: map<Id, nat>, k: nat, rank': map<Id, nat>, j: nat)
    requires UniqueIds(a) && Acyclic(a) && Reparented(a, b, R, q) && rank == RankOf(a)
    requires q.Some? ==> Live(a, q.value) && q.value in rank && !InSub(a, R, q.value)
    requires k == (if q.Some? then rank[q.value] else 0) + 1
    requires forall id :: id in rank' <==> Live(a, id)
    requires forall id :: id in rank' ==> id in rank && rank'[id] == if InSub(a, R, id) then rank[id] + k else rank[id]
    requires j < |b| && b[j].parentId.Some? && b[j].parentId.value in rank'
    ensures b[j].id in rank' && rank'[b[j].parentId.value] < rank'[b[j].id]
  {
    var x := a[j];
    assert x in a;
    assert Live(a, x.id);
    var pid := b[j].parentId.value;
    var p := FindDoc(a, pid).value;
    SameId(a, FindDoc(a, x.id).value, x);
    if x.id in R {
      assert InSub(a, R, x.id);
    } else {
      assert x.parentId == Some(pid);
      assert rank[pid] < rank[x.id];
      if InSub(a, R, x.id) {
        var r :| r in R && Under(a, x, r);
        UnderParent(a, x, p, r);
        assert InSub(a, R, pid);
      } else if InSub(a, R, pid) {
        if pid !in R {
          var r :| r in R && Under(a, p, r);
          UnderExtend(a, x, p, r);
        } else {
          UnderExtend(a, x, p, pid);
        }
        assert InSub(a, R, x.id);
      }
    }
  }
}
