/** `archiveDoc(id)` (app.js:186-199): a document and its live subtree move to the trash. */
module Archive {
  import opened Wrappers
  import opened Documents
  import opened Forest
  import opened Lists
  import opened Shape
  import opened Workspace

  /** `__origParentId = parentId ?? null`: the archived document remembers its parent. */
  function Mark(d: Doc): (r: Doc)
  {
    d.(origParent := Some(d.parentId))
  }

  /** One turn of the loop: the live document `did`, if there is one, leaves `docs` for the end of `trash`. */
  function ArchiveStep(s: State, did: Id): (r: State)
  {
    var i := IndexOf(s.docs, did);
    if i >= 0 then State(s.docs[..i] + s.docs[i + 1..], s.trash + [Mark(s.docs[i])]) else s
  }

  /** The loop over `ids`, first to last. */
  function ArchiveFold(s: State, ids: seq<Id>): (r: State)
    decreases |ids|
  {
    if ids == [] then s else ArchiveFold(ArchiveStep(s, ids[0]), ids[1..])
  }

  /** `toArchive`: the id itself, then the ids of its live descendants in depth-first preorder. */
  function Targets(docs: seq<Doc>, id: Id): (r: seq<Id>)
  {
    [id] + Ids(Descendants(docs, id))
  }

  /** The ids of a list, as a set. */
  function IdSet(ids: seq<Id>): (r: set<Id>)
  {
    set k | k in ids
  }

  /** Each document of `ms` with `__origParentId` set. */
  function MarkAll(ms: seq<Doc>): (r: seq<Doc>)
  {
    if ms == [] then [] else [Mark(ms[0])] + MarkAll(ms[1..])
  }

  lemma {:induction false} MarkAllAt(ms: seq<Doc>)
    ensures |MarkAll(ms)| == |ms| && forall k :: 0 <= k < |ms| ==> MarkAll(ms)[k] == Mark(ms[k])
  {
    if ms != [] {
      MarkAllAt(ms[1..]);
      assert forall k :: 0 < k < |ms| ==> MarkAll(ms)[k] == MarkAll(ms[1..])[k - 1];
    }
  }

  /** The state after `archiveDoc(id)`. */
  function ArchiveSpec(s: State, id: Id): (r: State)
  {
    ArchiveFold(s, Targets(s.docs, id))
  }

  /** The ids of a non-empty list: its first id, then those of the rest. */
  lemma {:induction false} IdsTail(ms: seq<Doc>)
    requires ms != []
    ensures Ids(ms)[0] == ms[0].id && Ids(ms)[1..] == Ids(ms[1..])
  {
    assert forall k :: 0 <= k < |ms| - 1 ==> Ids(ms)[1..][k] == ms[1..][k].id;
  }

  /** The set of ids of a non-empty list: its first id and those of the rest. */
  lemma {:induction false} IdSetSplit(ms: seq<Doc>)
    requires ms != []
    ensures IdSet(Ids(ms)) == {ms[0].id} + IdSet(Ids(ms[1..]))
  {
    assert Ids(ms) == [ms[0].id] + Ids(ms[1..]);
  }

  /** Once the first of `ms` is removed from `docs`, the rest of `ms` is still there. */
  lemma {:induction false} RestRemain(docs: seq<Doc>, ms: seq<Doc>, i: nat)
    requires UniqueIds(ms) && ms != [] && forall m :: m in ms ==> m in docs
    requires i < |docs| && docs[i] == ms[0]
    ensures forall m :: m in ms[1..] ==> m in docs[..i] + docs[i + 1..]
  {
    var docs' := docs[..i] + docs[i + 1..];
    forall x | x in ms[1..] ensures x in docs' {
      var k :| 0 <= k < |ms[1..]| && ms[1..][k] == x;
      assert ms[k + 1] == x && x in ms && x != ms[0];
      var j :| 0 <= j < |docs| && docs[j] == x;
      if j < i {
        assert docs'[j] == x;
      } else {
        assert docs'[j - 1] == x;
      }
    }
  }

  /** One turn of the loop on the first of `ms`, a live document. */
  lemma {:induction false} FoldStep(s: State, ms: seq<Doc>) returns (docs': seq<Doc>)
    requires UniqueIds(s.docs) && UniqueIds(ms) && ms != [] && forall m :: m in ms ==> m in s.docs
    ensures ArchiveStep(s, ms[0].id) == State(docs', s.trash + [Mark(ms[0])])
    ensures UniqueIds(docs') && UniqueIds(ms[1..]) && forall m :: m in ms[1..] ==> m in docs'
    ensures FilterOut(docs', IdSet(Ids(ms[1..]))) == FilterOut(s.docs, IdSet(Ids(ms)))
    ensures multiset(s.docs) == multiset(docs') + multiset{ms[0]}
  {
    var m := ms[0];
    assert m in ms && m in s.docs;
    var i := IndexOf(s.docs, m.id);
    SameId(s.docs, s.docs[i], m);
    docs' := s.docs[..i] + s.docs[i + 1..];
    UniqueRemove(s.docs, i);
    UniqueTail(ms);
    RestRemain(s.docs, ms, i);
    FilterOutRemove(s.docs, i);
    FilterOutTwice(s.docs, {m.id}, IdSet(Ids(ms[1..])));
    IdSetSplit(ms);
    MultisetRemove(s.docs, i);
  }

  /** The loop over the ids of `ms` is one turn on the first, then the loop over the rest. */
  lemma {:induction false} FoldUnfold(s: State, ms: seq<Doc>, s': State)
    requires ms != [] && ArchiveStep(s, ms[0].id) == s'
    ensures ArchiveFold(s, Ids(ms)) == ArchiveFold(s', Ids(ms[1..]))
  {
    IdsTail(ms);
  }

  /** Appending the first of `ms` marked and then the rest marked is appending all of `ms` marked. */
  lemma {:induction false} MarkTail(t: seq<Doc>, ms: seq<Doc>)
    requires ms != []
    ensures (t + [Mark(ms[0])]) + MarkAll(ms[1..]) == t + MarkAll(ms)
  {
    Assoc(t, [Mark(ms[0])], MarkAll(ms[1..]));
  }

  /**
   * Archiving the live documents `ms` one by one, in order, leaves the other
   * live documents in their order and appends `ms`, marked, to the trash.
   */
  lemma {:induction false} FoldMoves(s: State, ms: seq<Doc>)
    requires UniqueIds(s.docs) && UniqueIds(ms) && forall m :: m in ms ==> m in s.docs
    ensures ArchiveFold(s, Ids(ms)).docs == FilterOut(s.docs, IdSet(Ids(ms)))
    ensures ArchiveFold(s, Ids(ms)).trash == s.trash + MarkAll(ms)
    ensures multiset(FilterOut(s.docs, IdSet(Ids(ms)))) + multiset(ms) == multiset(s.docs)
    decreases |ms|
  {
    if ms == [] {
      FilterOutNone(s.docs, IdSet(Ids(ms)));
    } else {
      var docs' := FoldStep(s, ms);
      var s' := State(docs', s.trash + [Mark(ms[0])]);
      FoldMoves(s', ms[1..]);
      FoldUnfold(s, ms, s');
      MarkTail(s.trash, ms);
      FoldCount(s.docs, docs', FilterOut(s.docs, IdSet(Ids(ms))), ms);
    }
  }

  /** The count part of the inductive step of `FoldMoves`: the first document and the rest make up what was removed. */
  lemma {:induction false} FoldCount(docs: seq<Doc>, docs': seq<Doc>, f: seq<Doc>, ms: seq<Doc>)
    requires ms != []
    requires multiset(docs) == multiset(docs') + multiset{ms[0]}
    requires multiset(f) + multiset(ms[1..]) == multiset(docs')
    ensures multiset(f) + multiset(ms) == multiset(docs)
  {
    assert ms == [ms[0]] + ms[1..];
  }

  /** The documents `archiveDoc(id)` moves when `id` is live: the document itself, then its subtree in depth-first preorder. */
  function Moved(docs: seq<Doc>, id: Id): (r: seq<Doc>)
    requires Live(docs, id)
  {
    [FindDoc(docs, id).value] + Descendants(docs, id)
  }

  lemma {:induction false} MovedListsTargets(docs: seq<Doc>, id: Id)
    requires UniqueIds(docs) && Acyclic(docs) && ParentsLive(docs) && Live(docs, id)
    ensures Ids(Moved(docs, id)) == Targets(docs, id)
    ensures UniqueIds(Moved(docs, id))
    ensures forall m :: m in Moved(docs, id) ==> m in docs
  {
    var d := FindDoc(docs, id).value;
    var ds := Descendants(docs, id);
    var ms := Moved(docs, id);
    assert forall k :: 0 < k < |ms| ==> ms[k] == ds[k - 1];
    DescendantsUnique(docs, id);
    forall i, j | 0 <= i < j < |ms| ensures ms[i].id != ms[j].id {
      if i > 0 {
        assert ms[i] == ds[i - 1] && ms[j] == ds[j - 1];
      } else {
        assert ms[j] in ds;
      }
    }
    forall m | m in ms ensures m in docs {
      if m != d {
        assert m in ds;
        DescendantsMembers(docs, id, m);
      }
    }
  }

  /**
   * With `id` live, `archiveDoc(id)` removes exactly the document and its live
   * descendants from `docs`, keeping the order of the rest, and appends them to
   * `trash` in depth-first preorder, each with `__origParentId` set to its
   * previous parent and every other field (`parentId` included) unchanged.
   * Nothing is lost or duplicated.
   */
  lemma {:induction false} ArchiveLive(s: State, id: Id)
    requires Inv(s) && Live(s.docs, id)
    ensures var r := ArchiveSpec(s, id);
      var ms := Moved(s.docs, id);
      && r.docs == FilterOut(s.docs, IdSet(Targets(s.docs, id)))
      && multiset(r.docs) + multiset(ms) == multiset(s.docs)
      && |r.trash| == |s.trash| + |ms| && r.trash[..|s.trash|] == s.trash
      && forall k :: 0 <= k < |ms| ==> r.trash[|s.trash| + k] == ms[k].(origParent := Some(ms[k].parentId))
  {
    UniqueParts(s.docs, s.trash);
    MovedListsTargets(s.docs, id);
    var ms := Moved(s.docs, id);
    FoldMoves(s, ms);
    MarkAllAt(ms);
  }

  /** A document with a live child is live itself when every live parent reference is. */
  lemma {:induction false} ChildMeansLive(docs: seq<Doc>, id: Id)
    requires ParentsLive(docs)
    ensures Siblings(docs, Some(id)) != [] ==> Live(docs, id)
  {
    var sib := Siblings(docs, Some(id));
    if sib != [] {
      assert sib[0] in sib;
      assert sib[0] in docs;
    }
  }

  /** Under the invariant a document that is not live has no live children, so archiving it changes nothing. */
  lemma {:induction false} ArchiveNotLive(s: State, id: Id)
    requires Inv(s) && !Live(s.docs, id)
    ensures ArchiveSpec(s, id) == s
  {
    ChildMeansLive(s.docs, id);
    assert Targets(s.docs, id) == [id];
    assert ArchiveStep(s, id) == s;
    assert ArchiveFold(s, [id]) == ArchiveFold(ArchiveStep(s, id), []);
  }

  /** An archived id names the document itself or one of its live descendants. */
  lemma {:induction false} TargetDoc(docs: seq<Doc>, id: Id, k: Id) returns (e: Doc)
    requires UniqueIds(docs) && Acyclic(docs) && ParentsLive(docs) && Live(docs, id)
    requires k in Targets(docs, id)
    ensures e in docs && e.id == k && (k == id || Under(docs, e, id))
  {
    MovedListsTargets(docs, id);
    var ms := Moved(docs, id);
    var j :| 0 <= j < |ms| && Targets(docs, id)[j] == k;
    e := ms[j];
    if j > 0 {
      assert e in Descendants(docs, id);
      DescendantsMembers(docs, id, e);
    }
  }

  /** Every live document under `id` is archived with it. */
  lemma {:induction false} DocTarget(docs: seq<Doc>, id: Id, x: Doc)
    requires UniqueIds(docs) && Acyclic(docs) && x in docs && Under(docs, x, id)
    ensures x.id in Targets(docs, id)
  {
    var ds := Descendants(docs, id);
    DescendantsMembers(docs, id, x);
    var j :| 0 <= j < |ds| && ds[j] == x;
    assert Targets(docs, id)[j + 1] == x.id;
  }

  /**
   * After `archiveDoc(id)` with `id` live, none of the archived ids is live
   * and no live document has its parent among them.
   */
  lemma {:induction false} ArchiveClosed(s: State, id: Id)
    requires Inv(s) && Live(s.docs, id)
    ensures var r := ArchiveSpec(s, id);
      var T := IdSet(Targets(s.docs, id));
      && (forall t :: t in T ==> !Live(r.docs, t))
      && (forall x :: x in r.docs && x.parentId.Some? ==> x.parentId.value !in T)
  {
    ArchiveLive(s, id);
    UniqueParts(s.docs, s.trash);
    var r := ArchiveSpec(s, id);
    var T := IdSet(Targets(s.docs, id));
    var d := FindDoc(s.docs, id).value;
    forall x | x in r.docs && x.parentId.Some? ensures x.parentId.value !in T {
      var p := x.parentId.value;
      if p in T {
        var e := TargetDoc(s.docs, id, p);
        assert x in s.docs;
        UnderExtend(s.docs, x, e, id);
        DocTarget(s.docs, id, x);
        assert false;
      }
    }
  }

  /** Where a marked document comes from. */
  lemma {:induction false} MarkedFrom(ms: seq<Doc>, y: Doc) returns (k: nat)
    requires y in MarkAll(ms)
    ensures k < |ms| && y == Mark(ms[k]) && y.id == ms[k].id
  {
    MarkAllAt(ms);
    var j :| 0 <= j < |MarkAll(ms)| && MarkAll(ms)[j] == y;
    k := j;
  }

  /** Lists with unique ids and no id in common concatenate to a list with unique ids. */
  lemma {:induction false} AppendUnique(a: seq<Doc>, b: seq<Doc>)
    requires UniqueIds(a) && UniqueIds(b) && forall x, y :: x in a && y in b ==> x.id != y.id
    ensures UniqueIds(a + b)
  {
    forall i, j | 0 <= i < |a| && 0 <= j < |b| ensures a[i].id != b[j].id {
      assert a[i] in a && b[j] in b;
    }
    UniqueConcat(a, b);
  }

  /** Appending marked documents with fresh ids keeps the trash free of repeated ids. */
  lemma {:induction false} MarkedUnique(t: seq<Doc>, ms: seq<Doc>)
    requires UniqueIds(t) && UniqueIds(ms) && forall x, y :: x in ms && y in t ==> x.id != y.id
    ensures UniqueIds(t + MarkAll(ms))
  {
    MarkAllAt(ms);
    var m := MarkAll(ms);
    forall i, j | 0 <= i < j < |m| ensures m[i].id != m[j].id {
      assert m[i].id == ms[i].id && m[j].id == ms[j].id;
    }
    forall x, y | x in t && y in m ensures x.id != y.id {
      var k := MarkedFrom(ms, y);
      assert ms[k] in ms;
    }
    AppendUnique(t, m);
  }

  /** The two lists after `archiveDoc(id)` with `id` live, as filter and append. */
  lemma {:induction false} ArchiveParts(s: State, id: Id)
    requires Inv(s) && Live(s.docs, id)
    ensures ArchiveSpec(s, id).docs == FilterOut(s.docs, IdSet(Targets(s.docs, id)))
    ensures ArchiveSpec(s, id).trash == s.trash + MarkAll(Moved(s.docs, id))
  {
    UniqueParts(s.docs, s.trash);
    MovedListsTargets(s.docs, id);
    FoldMoves(s, Moved(s.docs, id));
  }

  /** `archiveDoc` keeps the invariant of the store. */
  lemma {:induction false} ArchiveKeepsInv(s: State, id: Id)
    requires Inv(s)
    ensures Inv(ArchiveSpec(s, id))
  {
    if !Live(s.docs, id) {
      ArchiveNotLive(s, id);
    } else {
      var r := ArchiveSpec(s, id);
      var T := IdSet(Targets(s.docs, id));
      var ms := Moved(s.docs, id);
      ArchiveParts(s, id);
      ArchiveClosed(s, id);
      UniqueParts(s.docs, s.trash);
      MovedListsTargets(s.docs, id);
      FilterOutUnique(s.docs, T);
      MarkedUnique(s.trash, ms);
      forall x, y | x in r.docs && y in r.trash ensures x.id != y.id {
        if y in s.trash {
        } else {
          var k := MarkedFrom(ms, y);
          assert Targets(s.docs, id)[k] == ms[k].id;
        }
      }
      AppendUnique(r.docs, r.trash);
      forall x | x in r.docs && x.parentId.Some? ensures Live(r.docs, x.parentId.value) {
        var p := FindDoc(s.docs, x.parentId.value).value;
        assert p in r.docs;
      }
      SubsetAcyclic(s.docs, r.docs);
    }
  }
}
