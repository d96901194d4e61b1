/**
 * Read-only queries over the live document list (app.js `findDoc`,
 * `existsInDocs`, `childrenOf`, `maxOrder`, `pathOf`, `isDescendant`,
 * `descendantsOf`) and the well-formedness conditions of the forest.
 */
module Forest {
  import opened Wrappers
  import opened Documents

  /** `findIndex(d => d.id === id)`: the first position holding `id`, or -1. */
  function IndexOf(docs: seq<Doc>, id: Id): (r: int)
    ensures -1 <= r < |docs|
    ensures r >= 0 ==> docs[r].id == id && forall k :: 0 <= k < r ==> docs[k].id != id
    ensures r == -1 <==> forall k :: 0 <= k < |docs| ==> docs[k].id != id
  {
    if docs == [] then -1
    else if docs[0].id == id then 0
    else
      var r := IndexOf(docs[1..], id);
      assert forall k :: 1 <= k < |docs| ==> docs[k] == docs[1..][k - 1];
      if r == -1 then -1 else r + 1
  }

  /** `findDoc`: the first live document with that id. */
  function FindDoc(docs: seq<Doc>, id: Id): (r: Option<Doc>)
    ensures r.Some? <==> Live(docs, id)
    ensures r.Some? ==> r.value in docs && r.value.id == id
  {
    var i := IndexOf(docs, id);
    if i >= 0 then Some(docs[i]) else None
  }

  /** `existsInDocs`. */
  predicate Live(docs: seq<Doc>, id: Id)
  {
    exists d :: d in docs && d.id == id
  }

  /** No id occurs twice. */
  ghost predicate UniqueIds(s: seq<Doc>)
  {
    forall i, j :: 0 <= i < j < |s| ==> s[i].id != s[j].id
  }

  /** Every live parent reference names a live document. */
  ghost predicate ParentsLive(docs: seq<Doc>)
  {
    forall d :: d in docs && d.parentId.Some? ==> Live(docs, d.parentId.value)
  }

  /** `rank` strictly increases from every live parent to each of its live children. */
  ghost predicate RankOk(docs: seq<Doc>, rank: map<Id, nat>)
  {
    && (forall d :: d in docs ==> d.id in rank)
    && (forall c :: c in docs && c.parentId.Some? && c.parentId.value in rank ==>
          rank[c.parentId.value] < rank[c.id])
  }

  /** No parent chain through live documents returns to where it started. */
  ghost predicate Acyclic(docs: seq<Doc>)
  {
    exists rank :: RankOk(docs, rank)
  }

  ghost function RankOf(docs: seq<Doc>): (rank: map<Id, nat>)
    requires Acyclic(docs)
    ensures RankOk(docs, rank)
  {
    var rank :| RankOk(docs, rank); rank
  }

  /** The chain from the root-most live ancestor of `d` down to `d`: `pathOf`. */
  function Ancestry(docs: seq<Doc>, d: Doc): (path: seq<Doc>)
    requires Acyclic(docs) && d in docs
    ensures |path| >= 1 && path[|path| - 1] == d
    ensures forall k :: 0 <= k < |path| ==> path[k] in docs
    ensures path[0].parentId.None? || !Live(docs, path[0].parentId.value)
    ensures forall k :: 0 <= k < |path| - 1 ==> path[k + 1].parentId == Some(path[k].id)
    decreases RankOf(docs)[d.id]
  {
    match d.parentId
    case None => [d]
    case Some(p) =>
      var i := IndexOf(docs, p);
      if i < 0 then [d] else Ancestry(docs, docs[i]) + [d]
  }

  /** `pathOf(id)`: empty when `id` is not live. */
  function Path(docs: seq<Doc>, id: Id): (path: seq<Doc>)
    requires Acyclic(docs)
  {
    var i := IndexOf(docs, id);
    if i < 0 then [] else Ancestry(docs, docs[i])
  }

  /** `a` is the parent id of some entry of the ancestor chain of `d`. */
  predicate Under(docs: seq<Doc>, d: Doc, a: Id)
    requires Acyclic(docs) && d in docs
  {
    var path := Ancestry(docs, d);
    exists k :: 0 <= k < |path| && path[k].parentId == Some(a)
  }

  /** What `isDescendant(id, anc)` answers: both ids given, `id` live, and `anc` above it. */
  predicate DescendsFrom(docs: seq<Doc>, id: Option<Id>, anc: Option<Id>)
    requires Acyclic(docs)
  {
    && id.Some? && anc.Some?
    && match FindDoc(docs, id.value)
       case None => false
       case Some(d) => Under(docs, d, anc.value)
  }

  /** The live documents whose `parentId` is `pid`, in list order (the `filter` step). */
  function Siblings(docs: seq<Doc>, pid: Option<Id>): (r: seq<Doc>)
    ensures forall d :: d in r <==> d in docs && d.parentId == pid
    ensures |r| <= |docs|
  {
    if docs == [] then []
    else
      assert forall d :: d in docs <==> d == docs[0] || d in docs[1..];
      (if docs[0].parentId == pid then [docs[0]] else []) + Siblings(docs[1..], pid)
  }

  /** `childrenOf(pid)`: the sibling group sorted by order, then title. */
  function ChildrenOf(docs: seq<Doc>, pid: Option<Id>): (r: seq<Doc>)
    ensures forall d :: d in r <==> d in docs && d.parentId == pid
    ensures Sorted(r)
    ensures multiset(r) == multiset(Siblings(docs, pid))
  {
    var r := SortByKey(Siblings(docs, pid));
    assert forall d :: d in r <==> d in multiset(r);
    r
  }

  /**
   * `childrenOf` sorts stably: siblings with the same order and the same title
   * keep the order in which they stand in the live list.
   */
  lemma {:induction false} ChildrenStable(docs: seq<Doc>, pid: Option<Id>, o: real, t: string)
    ensures KeyGroup(ChildrenOf(docs, pid), o, t) == KeyGroup(Siblings(docs, pid), o, t)
  {
    SortStable(Siblings(docs, pid), o, t);
  }

  /** Largest order in a non-empty list. */
  function MaxOf(s: seq<Doc>): (m: real)
    requires s != []
    ensures forall d :: d in s ==> d.order <= m
    ensures exists d :: d in s && d.order == m
  {
    if |s| == 1 then s[0].order
    else
      assert forall d :: d in s <==> d == s[0] || d in s[1..];
      var m := MaxOf(s[1..]);
      if s[0].order > m then s[0].order else m
  }

  /** `maxOrder(pid)`: one past the largest order in the group, or 0 for an empty group. */
  function MaxOrder(docs: seq<Doc>, pid: Option<Id>): (r: real)
    ensures ChildrenOf(docs, pid) == [] ==> r == 0.0
    ensures ChildrenOf(docs, pid) != [] ==> exists d :: d in docs && d.parentId == pid && r == d.order + 1.0
    ensures forall d :: d in docs && d.parentId == pid ==> d.order + 1.0 <= r
  {
    var kids := ChildrenOf(docs, pid);
    if kids == [] then 0.0 else MaxOf(kids) + 1.0
  }

  /**
   * The depth-first walk of `descendantsOf`: each document of `ks` followed by
   * its own descendants, at most `depth` generations down. In an acyclic forest
   * no chain is longer than the list itself, so `Descendants` (which passes
   * `|docs|`) is never cut short; `DescendantsMembers` states this.
   */
  function Walk(docs: seq<Doc>, ks: seq<Doc>, depth: nat): (r: seq<Doc>)
    decreases depth, |ks|, 1
  {
    if ks == [] then [] else Tree(docs, ks[0], depth) + Walk(docs, ks[1..], depth)
  }

  /** One step of the walk: `res.push(c); walk(c.id)`. */
  function Tree(docs: seq<Doc>, k: Doc, depth: nat): (r: seq<Doc>)
    decreases depth, 0, 0
  {
    [k] + (if depth == 0 then [] else Walk(docs, Siblings(docs, Some(k.id)), depth - 1))
  }

  /** `descendantsOf(id)`: the live documents below `id`, in depth-first preorder. */
  function Descendants(docs: seq<Doc>, id: Id): (r: seq<Doc>)
  {
    Walk(docs, Siblings(docs, Some(id)), |docs|)
  }

  // ---------------------------------------------------------------------------
  // Facts about ancestor chains and the depth-first walk.

  /** `x` lies under `a` at most `n` generations down (a child is one generation down). */
  ghost predicate Near(docs: seq<Doc>, x: Doc, a: Id, n: nat)
    requires Acyclic(docs) && x in docs
  {
    var path := Ancestry(docs, x);
    exists j :: 0 <= j < |path| && path[j].parentId == Some(a) && |path| - j <= n
  }

  /** `x` is one of `ks` or lies at most `n` generations under one of them. */
  ghost predicate Reaches(docs: seq<Doc>, ks: seq<Doc>, x: Doc, n: nat)
    requires Acyclic(docs) && x in docs
  {
    ks != [] && (x == ks[0] || Near(docs, x, ks[0].id, n) || Reaches(docs, ks[1..], x, n))
  }

  /** Membership in `Walk(docs, ks, n)`, unfolded the way the walk is built. */
  ghost predicate InWalk(docs: seq<Doc>, ks: seq<Doc>, x: Doc, n: nat)
    decreases n, |ks|, 1
  {
    ks != [] && (InTree(docs, ks[0], x, n) || InWalk(docs, ks[1..], x, n))
  }

  /** Membership in `Tree(docs, k, n)`, unfolded the way the walk is built. */
  ghost predicate InTree(docs: seq<Doc>, k: Doc, x: Doc, n: nat)
    decreases n, 0, 0
  {
    x == k || (n > 0 && InWalk(docs, Siblings(docs, Some(k.id)), x, n - 1))
  }

  /** Two live documents with the same id are the same document. */
  lemma {:induction false} SameId(docs: seq<Doc>, a: Doc, b: Doc)
    requires UniqueIds(docs) && a in docs && b in docs
    ensures a.id == b.id ==> a == b
  {
    if a.id == b.id {
      var i :| 0 <= i < |docs| && docs[i] == a;
      var j :| 0 <= j < |docs| && docs[j] == b;
      assert i == j;
    }
  }


  /** Joining two lists with unique ids and no id in common keeps ids unique. */
  lemma {:induction false} UniqueConcat(s1: seq<Doc>, s2: seq<Doc>)
    requires UniqueIds(s1) && UniqueIds(s2)
    requires forall i, j :: 0 <= i < |s1| && 0 <= j < |s2| ==> s1[i].id != s2[j].id
    ensures UniqueIds(s1 + s2)
  {
    var s := s1 + s2;
    forall i, j | 0 <= i < j < |s| ensures s[i].id != s[j].id {
      if j < |s1| {
        assert s[i] == s1[i] && s[j] == s1[j];
      } else if i >= |s1| {
        assert s[i] == s2[i - |s1|] && s[j] == s2[j - |s1|];
      } else {
        assert s[i] == s1[i] && s[j] == s2[j - |s1|];
      }
    }
  }


  /** A chain extends the chain of the parent by one entry. */
  lemma {:induction false} AncestryStep(docs: seq<Doc>, d: Doc, q: Doc)
    requires UniqueIds(docs) && Acyclic(docs) && d in docs && q in docs
    requires d.parentId == Some(q.id)
    ensures Ancestry(docs, d) == Ancestry(docs, q) + [d]
  {
    var i := IndexOf(docs, q.id);
    SameId(docs, docs[i], q);
  }


  /** Ranks strictly increase down a chain, so a chain never repeats a document. */
  lemma {:induction false} AncestryIncreasing(docs: seq<Doc>, d: Doc)
    requires Acyclic(docs) && d in docs
    ensures forall i, j :: 0 <= i < j < |Ancestry(docs, d)| ==>
      RankOf(docs)[Ancestry(docs, d)[i].id] < RankOf(docs)[Ancestry(docs, d)[j].id]
    decreases RankOf(docs)[d.id]
  {
    var rank := RankOf(docs);
    if d.parentId.Some? {
      var i := IndexOf(docs, d.parentId.value);
      if i >= 0 {
        var q := docs[i];
        AncestryIncreasing(docs, q);
        var prefix := Ancestry(docs, q);
        var path := Ancestry(docs, d);
        assert path == prefix + [d];
        assert rank[q.id] < rank[d.id];
        forall a, b | 0 <= a < b < |path|
          ensures rank[path[a].id] < rank[path[b].id]
        {
          if b < |path| - 1 {
            assert path[a] == prefix[a] && path[b] == prefix[b];
          } else if a < |prefix| - 1 {
            assert path[a] == prefix[a] && path[b] == d;
            assert rank[prefix[a].id] < rank[prefix[|prefix| - 1].id];
          } else {
            assert path[a] == q && path[b] == d;
          }
        }
      }
    }
  }


  /** A live `a` that is above `d` is the id of an entry of the chain other than `d` itself. */
  lemma {:induction false} UnderOnPath(docs: seq<Doc>, d: Doc, a: Id)
    requires Acyclic(docs) && d in docs && Live(docs, a)
    ensures Under(docs, d, a) ==>
      exists i :: 0 <= i < |Ancestry(docs, d)| - 1 && Ancestry(docs, d)[i].id == a
  {
    var path := Ancestry(docs, d);
    forall k | 0 <= k < |path| && path[k].parentId == Some(a)
      ensures 0 < k && path[k - 1].id == a
    {
      assert path[0].parentId.None? || !Live(docs, path[0].parentId.value);
    }
    if Under(docs, d, a) {
      var k :| 0 <= k < |path| && path[k].parentId == Some(a);
      assert path[k - 1].id == a;
    }
  }


  /** No document lies under itself. */
  lemma {:induction false} NotUnderSelf(docs: seq<Doc>, d: Doc)
    requires UniqueIds(docs) && Acyclic(docs) && d in docs
    ensures !Under(docs, d, d.id)
  {
    var path := Ancestry(docs, d);
    UnderOnPath(docs, d, d.id);
    AncestryIncreasing(docs, d);
    forall i | 0 <= i < |path| - 1 ensures path[i].id != d.id {
      assert RankOf(docs)[path[i].id] < RankOf(docs)[path[|path| - 1].id];
    }
  }


  /** Whatever lies under `a` is a child of `a` or under one. */
  lemma {:induction false} UnderChildUp(docs: seq<Doc>, x: Doc, a: Id)
    requires Acyclic(docs) && x in docs
    ensures Under(docs, x, a) ==>
      exists c :: c in docs && c.parentId == Some(a) && (x == c || Under(docs, x, c.id))
  {
    var path := Ancestry(docs, x);
    if Under(docs, x, a) {
      var j :| 0 <= j < |path| && path[j].parentId == Some(a);
      if j < |path| - 1 {
        assert path[j + 1].parentId == Some(path[j].id);
        assert Under(docs, x, path[j].id);
      }
    }
  }


  /** A child of `a`, and whatever lies under it, lies under `a`. */
  lemma {:induction false} UnderChildDown(docs: seq<Doc>, x: Doc, a: Id, c: Doc)
    requires UniqueIds(docs) && Acyclic(docs) && x in docs && c in docs
    requires c.parentId == Some(a) && (x == c || Under(docs, x, c.id))
    ensures Under(docs, x, a)
  {
    var path := Ancestry(docs, x);
    if x == c {
      assert path[|path| - 1].parentId == Some(a);
    } else {
      UnderOnPath(docs, x, c.id);
      var i :| 0 <= i < |path| - 1 && path[i].id == c.id;
      SameId(docs, path[i], c);
      assert path[i].parentId == Some(a);
    }
  }


  /** Below its root-most entry, the entries of a chain have pairwise different parents. */
  lemma {:induction false} ChainParentsDistinct(docs: seq<Doc>, d: Doc)
    requires Acyclic(docs) && d in docs
    ensures var path := Ancestry(docs, d);
      forall i, j :: 0 < i < j < |path| ==> path[i].parentId != path[j].parentId
  {
    var path := Ancestry(docs, d);
    AncestryIncreasing(docs, d);
    forall i, j | 0 < i < j < |path| ensures path[i].parentId != path[j].parentId {
      assert RankOf(docs)[path[i - 1].id] < RankOf(docs)[path[j - 1].id];
    }
  }


  /** Two different children of one live parent: nothing under the first is the second or under it. */
  lemma {:induction false} SiblingsApart(docs: seq<Doc>, a: Doc, b: Doc, x: Doc)
    requires UniqueIds(docs) && Acyclic(docs) && a in docs && b in docs && x in docs
    requires a != b && a.parentId == b.parentId && a.parentId.Some? && Live(docs, a.parentId.value)
    ensures Under(docs, x, a.id) ==> x != b && !Under(docs, x, b.id)
  {
    var path := Ancestry(docs, x);
    UnderOnPath(docs, x, a.id);
    UnderOnPath(docs, x, b.id);
    ChainParentsDistinct(docs, x);
    forall i | 0 <= i < |path| && path[i].id == a.id ensures path[i] == a {
      SameId(docs, path[i], a);
    }
    forall i | 0 <= i < |path| && path[i].id == b.id ensures path[i] == b {
      SameId(docs, path[i], b);
    }
  }


  /** A sibling group of a list with unique ids has unique ids. */
  lemma {:induction false} SiblingsUnique(docs: seq<Doc>, pid: Option<Id>)
    requires UniqueIds(docs)
    ensures UniqueIds(Siblings(docs, pid))
  {
    if docs != [] {
      SiblingsUnique(docs[1..], pid);
      var rest := Siblings(docs[1..], pid);
      forall k | 0 <= k < |rest| ensures rest[k].id != docs[0].id {
        assert rest[k] in docs[1..];
      }
    }
  }


  /** Dropping the first entry keeps ids unique. */
  lemma {:induction false} UniqueTail(s: seq<Doc>)
    requires UniqueIds(s) && s != []
    ensures UniqueIds(s[1..])
  {
    forall i, j | 0 <= i < j < |s| - 1 ensures s[1..][i].id != s[1..][j].id {
      assert s[1..][i] == s[i + 1] && s[1..][j] == s[j + 1];
    }
  }


  /** The subtrees of two different siblings of a live parent share no id. */
  lemma {:induction false} SubtreesApart(docs: seq<Doc>, k: Doc, r: Doc, x: Doc, y: Doc)
    requires UniqueIds(docs) && Acyclic(docs) && k in docs && r in docs && x in docs && y in docs
    requires k != r && k.parentId == r.parentId && k.parentId.Some? && Live(docs, k.parentId.value)
    requires x == k || Under(docs, x, k.id)
    requires y == r || Under(docs, y, r.id)
    ensures x.id != y.id
  {
    SiblingsApart(docs, k, r, x);
    SiblingsApart(docs, r, k, y);
    SameId(docs, x, y);
  }


  /** Membership in a list made of one document and two lists. */
  lemma {:induction false} InJoin(k: Doc, a: seq<Doc>, b: seq<Doc>, x: Doc)
    ensures x in [k] + a + b <==> x == k || x in a || x in b
  {
    assert [k] + a + b == [k] + (a + b);
  }

  /** A list of distinct documents all found in `t` is no longer than `t`. */
  lemma {:induction false} DistinctBound(s: seq<Doc>, t: seq<Doc>)
    requires forall i, j :: 0 <= i < j < |s| ==> s[i] != s[j]
    requires forall x :: x in s ==> x in t
    ensures |s| <= |t|
    decreases |s|
  {
    if s != [] {
      var x := s[|s| - 1];
      assert x in s;
      var i :| 0 <= i < |t| && t[i] == x;
      var t' := t[..i] + t[i + 1..];
      var s' := s[..|s| - 1];
      forall k | 0 <= k < |s'| ensures s'[k] in t' {
        var y := s[k];
        assert y in s && y != x;
        var m :| 0 <= m < |t| && t[m] == y;
        if m < i {
          assert t'[m] == y;
        } else {
          assert t'[m - 1] == y;
        }
      }
      DistinctBound(s', t');
    }
  }

  /** An ancestor chain is no longer than the list of live documents. */
  lemma {:induction false} ChainBound(docs: seq<Doc>, d: Doc)
    requires Acyclic(docs) && d in docs
    ensures |Ancestry(docs, d)| <= |docs|
  {
    var path := Ancestry(docs, d);
    AncestryIncreasing(docs, d);
    forall i, j | 0 <= i < j < |path| ensures path[i] != path[j] {
      assert RankOf(docs)[path[i].id] < RankOf(docs)[path[j].id];
    }
    DistinctBound(path, docs);
  }

  /** Bounded depth is a special case of being under, and `|docs|` generations reach everything. */
  lemma {:induction false} NearUnder(docs: seq<Doc>, x: Doc, a: Id, n: nat)
    requires Acyclic(docs) && x in docs
    ensures Near(docs, x, a, n) ==> Under(docs, x, a)
    ensures n >= |docs| ==> (Under(docs, x, a) ==> Near(docs, x, a, n))
  {
    ChainBound(docs, x);
  }

  /** Reaching names a witness in the list, and a witness gives reaching. */
  lemma {:induction false} ReachesSome(docs: seq<Doc>, ks: seq<Doc>, x: Doc, n: nat)
    requires Acyclic(docs) && x in docs
    ensures Reaches(docs, ks, x, n) <==> exists k :: k in ks && (x == k || Near(docs, x, k.id, n))
  {
    if ks != [] {
      ReachesSome(docs, ks[1..], x, n);
      assert forall k :: k in ks <==> k == ks[0] || k in ks[1..];
    }
  }

  /** One generation more under `a` is reaching from the children of `a`. */
  lemma {:induction false} NearStep(docs: seq<Doc>, x: Doc, a: Id, n: nat)
    requires UniqueIds(docs) && Acyclic(docs) && x in docs
    ensures Near(docs, x, a, n + 1) <==> Reaches(docs, Siblings(docs, Some(a)), x, n)
  {
    ReachesSome(docs, Siblings(docs, Some(a)), x, n);
    NearDown(docs, x, a, n);
    NearUp(docs, x, a, n);
  }

  /** Within `n + 1` generations under `a` is a child of `a` or within `n` under one. */
  lemma {:induction false} NearDown(docs: seq<Doc>, x: Doc, a: Id, n: nat)
    requires Acyclic(docs) && x in docs
    ensures Near(docs, x, a, n + 1) ==>
      exists c :: c in Siblings(docs, Some(a)) && (x == c || Near(docs, x, c.id, n))
  {
    var path := Ancestry(docs, x);
    if Near(docs, x, a, n + 1) {
      var j :| 0 <= j < |path| && path[j].parentId == Some(a) && |path| - j <= n + 1;
      var c := path[j];
      assert c in Siblings(docs, Some(a));
      if j < |path| - 1 {
        assert path[j + 1].parentId == Some(c.id);
        assert Near(docs, x, c.id, n);
      }
    }
  }

  /** A child of `a`, or what lies within `n` generations under one, is within `n + 1` under `a`. */
  lemma {:induction false} NearUp(docs: seq<Doc>, x: Doc, a: Id, n: nat)
    requires UniqueIds(docs) && Acyclic(docs) && x in docs
    ensures (exists c :: c in Siblings(docs, Some(a)) && (x == c || Near(docs, x, c.id, n))) ==>
      Near(docs, x, a, n + 1)
  {
    var path := Ancestry(docs, x);
    if exists c :: c in Siblings(docs, Some(a)) && (x == c || Near(docs, x, c.id, n)) {
      var c :| c in Siblings(docs, Some(a)) && (x == c || Near(docs, x, c.id, n));
      if x == c {
        assert path[|path| - 1].parentId == Some(a);
      } else {
        var j :| 0 <= j < |path| && path[j].parentId == Some(c.id) && |path| - j <= n;
        assert Live(docs, c.id);
        assert j > 0;
        SameId(docs, path[j - 1], c);
        assert path[j - 1].parentId == Some(a);
      }
    }
  }

  /** Membership in the walk follows its construction. */
  lemma {:induction false} WalkInWalk(docs: seq<Doc>, ks: seq<Doc>, n: nat, x: Doc)
    ensures x in Walk(docs, ks, n) <==> InWalk(docs, ks, x, n)
    decreases n, |ks|, 1
  {
    if ks != [] {
      TreeInTree(docs, ks[0], n, x);
      WalkInWalk(docs, ks[1..], n, x);
    }
  }

  /** Membership in one subtree follows its construction. */
  lemma {:induction false} TreeInTree(docs: seq<Doc>, k: Doc, n: nat, x: Doc)
    ensures x in Tree(docs, k, n) <==> InTree(docs, k, x, n)
    decreases n, 0, 0
  {
    if n > 0 {
      WalkInWalk(docs, Siblings(docs, Some(k.id)), n - 1, x);
    }
  }

  /** Built-up membership in a walk is reaching within `n` generations. */
  lemma {:induction false} InWalkReaches(docs: seq<Doc>, ks: seq<Doc>, n: nat, x: Doc)
    requires UniqueIds(docs) && Acyclic(docs)
    requires forall k :: k in ks ==> k in docs
    ensures InWalk(docs, ks, x, n) <==> x in docs && Reaches(docs, ks, x, n)
    decreases n, |ks|, 1
  {
    if ks != [] {
      assert forall c :: c in ks[1..] ==> c in ks;
      InTreeNear(docs, ks[0], n, x);
      InWalkReaches(docs, ks[1..], n, x);
    }
  }

  /** Built-up membership in a subtree is being its root or lying under it within `n` generations. */
  lemma {:induction false} InTreeNear(docs: seq<Doc>, k: Doc, n: nat, x: Doc)
    requires UniqueIds(docs) && Acyclic(docs) && k in docs
    ensures InTree(docs, k, x, n) <==> x == k || (x in docs && Near(docs, x, k.id, n))
    decreases n, 0, 0
  {
    if n > 0 {
      InWalkReaches(docs, Siblings(docs, Some(k.id)), n - 1, x);
      if x in docs {
        NearStep(docs, x, k.id, n - 1);
      }
    } else if x in docs {
      NearZero(docs, x, k.id);
    }
  }

  /** Zero generations reach nothing below. */
  lemma {:induction false} NearZero(docs: seq<Doc>, x: Doc, a: Id)
    requires Acyclic(docs) && x in docs
    ensures !Near(docs, x, a, 0)
  {
  }

  /** The walk from `ks` yields exactly the live documents reached from `ks` within `n` generations. */
  lemma {:induction false} WalkMembers(docs: seq<Doc>, ks: seq<Doc>, n: nat, x: Doc)
    requires UniqueIds(docs) && Acyclic(docs)
    requires forall k :: k in ks ==> k in docs
    ensures x in Walk(docs, ks, n) <==> x in docs && Reaches(docs, ks, x, n)
  {
    WalkInWalk(docs, ks, n, x);
    InWalkReaches(docs, ks, n, x);
  }

  /** A subtree holds its root and the live documents within `n` generations under it. */
  lemma {:induction false} TreeMembers(docs: seq<Doc>, k: Doc, n: nat, x: Doc)
    requires UniqueIds(docs) && Acyclic(docs) && k in docs
    ensures x in Tree(docs, k, n) <==> x == k || (x in docs && Near(docs, x, k.id, n))
  {
    TreeInTree(docs, k, n, x);
    InTreeNear(docs, k, n, x);
  }

  /** `descendantsOf(id)` holds exactly the live documents under `id`. */
  lemma {:induction false} DescendantsMembers(docs: seq<Doc>, id: Id, x: Doc)
    requires UniqueIds(docs) && Acyclic(docs)
    ensures x in Descendants(docs, id) <==> x in docs && Under(docs, x, id)
  {
    WalkMembers(docs, Siblings(docs, Some(id)), |docs|, x);
    if x in docs {
      NearStep(docs, x, id, |docs|);
      NearUnder(docs, x, id, |docs| + 1);
    }
  }

  /** Everything the walk from `ks` yields is one of `ks` or lies under one of them. */
  lemma {:induction false} WalkSource(docs: seq<Doc>, ks: seq<Doc>, n: nat, y: Doc) returns (i: nat)
    requires UniqueIds(docs) && Acyclic(docs)
    requires forall k :: k in ks ==> k in docs
    requires y in Walk(docs, ks, n)
    ensures i < |ks| && y in docs && (y == ks[i] || Under(docs, y, ks[i].id))
  {
    WalkMembers(docs, ks, n, y);
    ReachesSome(docs, ks, y, n);
    var r :| r in ks && (y == r || Near(docs, y, r.id, n));
    NearUnder(docs, y, r.id, n);
    i :| 0 <= i < |ks| && ks[i] == r;
  }

  /** Everything a subtree yields is its root or lies under it. */
  lemma {:induction false} TreeSource(docs: seq<Doc>, k: Doc, n: nat, y: Doc)
    requires UniqueIds(docs) && Acyclic(docs) && k in docs
    requires y in Tree(docs, k, n)
    ensures y in docs && (y == k || Under(docs, y, k.id))
  {
    TreeMembers(docs, k, n, y);
    if y != k {
      NearUnder(docs, y, k.id, n);
    }
  }

  /** A subtree repeats no id. */
  lemma {:induction false} TreeUnique(docs: seq<Doc>, k: Doc, n: nat)
    requires UniqueIds(docs) && Acyclic(docs) && ParentsLive(docs) && k in docs
    ensures UniqueIds(Tree(docs, k, n))
    decreases n, 0, 1
  {
    if n > 0 {
      TreeUniqueStep(docs, k, n);
    }
  }

  /** The root of a subtree followed by the walk below it repeats no id. */
  lemma {:induction false} TreeUniqueStep(docs: seq<Doc>, k: Doc, n: nat)
    requires UniqueIds(docs) && Acyclic(docs) && ParentsLive(docs) && k in docs && n > 0
    ensures UniqueIds([k] + Walk(docs, Siblings(docs, Some(k.id)), n - 1))
    decreases n, 0, 0
  {
    var kids := Siblings(docs, Some(k.id));
    var w := Walk(docs, kids, n - 1);
    assert UniqueIds(w) by {
      SiblingsUnique(docs, Some(k.id));
      WalkUnique(docs, kids, n - 1, k.id);
    }
    assert forall j :: 0 <= j < |w| ==> k.id != w[j].id by {
      forall j | 0 <= j < |w| ensures k.id != w[j].id {
        BelowRoot(docs, k, n - 1, w[j]);
      }
    }
    ConsUnique(k, w);
  }

  /** A document whose id is not in a list with unique ids can head it. */
  lemma {:induction false} ConsUnique(k: Doc, w: seq<Doc>)
    requires UniqueIds(w) && forall j :: 0 <= j < |w| ==> k.id != w[j].id
    ensures UniqueIds([k] + w)
  {
    var r := [k] + w;
    forall i, j | 0 <= i < j < |r| ensures r[i].id != r[j].id {
      assert r[j] == w[j - 1];
      if i > 0 {
        assert r[i] == w[i - 1];
      }
    }
  }

  /** The walk below `k` never yields `k`'s own id. */
  lemma {:induction false} BelowRoot(docs: seq<Doc>, k: Doc, n: nat, y: Doc)
    requires UniqueIds(docs) && Acyclic(docs) && k in docs
    requires y in Walk(docs, Siblings(docs, Some(k.id)), n)
    ensures k.id != y.id
  {
    var kids := Siblings(docs, Some(k.id));
    var i := WalkSource(docs, kids, n, y);
    UnderChildDown(docs, y, k.id, kids[i]);
    NotUnderSelf(docs, y);
    SameId(docs, k, y);
  }

  /** The walk from a group of distinct siblings of `pid` repeats no id. */
  lemma {:induction false} WalkUnique(docs: seq<Doc>, ks: seq<Doc>, n: nat, pid: Id)
    requires UniqueIds(docs) && Acyclic(docs) && ParentsLive(docs)
    requires forall k :: k in ks ==> k in docs && k.parentId == Some(pid)
    requires UniqueIds(ks)
    ensures UniqueIds(Walk(docs, ks, n))
    decreases n, |ks|, 2
  {
    if ks != [] {
      var k := ks[0];
      var rest := ks[1..];
      var a := Tree(docs, k, n);
      var b := Walk(docs, rest, n);
      TreeUnique(docs, k, n);
      UniqueTail(ks);
      assert forall c :: c in rest ==> c in ks;
      WalkUnique(docs, rest, n, pid);
      forall i, j | 0 <= i < |a| && 0 <= j < |b| ensures a[i].id != b[j].id {
        TreeSource(docs, k, n, a[i]);
        var m := WalkSource(docs, rest, n, b[j]);
        assert rest[m] == ks[m + 1];
        assert Live(docs, pid);
        SubtreesApart(docs, k, rest[m], a[i], b[j]);
      }
      UniqueConcat(a, b);
    }
  }

  /** `descendantsOf(id)` lists each live document under `id` once and never `id` itself. */
  lemma {:induction false} DescendantsUnique(docs: seq<Doc>, id: Id)
    requires UniqueIds(docs) && Acyclic(docs) && ParentsLive(docs)
    ensures UniqueIds(Descendants(docs, id))
    ensures forall x :: x in Descendants(docs, id) ==> x.id != id
  {
    var kids := Siblings(docs, Some(id));
    SiblingsUnique(docs, Some(id));
    WalkUnique(docs, kids, |docs|, id);
    forall x | x in Descendants(docs, id) ensures x.id != id {
      var i := WalkSource(docs, kids, |docs|, x);
      if x.id == id {
        var p := FindDoc(docs, id).value;
        UnderChildDown(docs, x, id, kids[i]);
        NotUnderSelf(docs, x);
      }
    }
  }
}
