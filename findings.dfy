/**
 * `reattachOrphansFor` as app.js:298-310 writes it, a state from which
 * `restoreDoc` with that re-attachment closes a cycle in the live forest, and
 * the calls that reach that state from a plain chain of three documents.
 * The rest of the model uses the guarded `Restore.Reattach` instead.
 */
module Findings {
  import opened Wrappers
  import opened Documents
  import opened Forest
  import opened Shape
  import opened Normalize
  import opened Workspace
  import opened Restore
  import opened Archive
  import opened Move

  /** The test of the source: a live orphan whose `__origParentId` is `id`. */
  predicate WaitsAsWritten(id: Id, d: Doc)
  {
    d.restoredOrphan && d.origParent == Some(Some(id))
  }

  /** The loop of `reattachOrphansFor(id)` as written, before any renumbering. */
  function RejoinedAsWritten(docs: seq<Doc>, id: Id): (r: seq<Doc>)
    ensures |r| == |docs|
    ensures forall k :: 0 <= k < |docs| ==> r[k] == if WaitsAsWritten(id, docs[k]) then Rejoin(id, docs[k]) else docs[k]
  {
    seq(|docs|, k requires 0 <= k < |docs| => if WaitsAsWritten(id, docs[k]) then Rejoin(id, docs[k]) else docs[k])
  }

  /** `reattachOrphansFor(id)` as written. */
  function ReattachAsWritten(docs: seq<Doc>, id: Id): (r: seq<Doc>)
  {
    if exists k :: 0 <= k < |docs| && WaitsAsWritten(id, docs[k])
    then Renumber(RejoinedAsWritten(docs, id), Some(id))
    else docs
  }

  /** `restoreDoc(id)` ending with the re-attachment as written. */
  function RestoreAsWritten(s: State, id: Id): (r: State)
  {
    var i := IndexOf(s.trash, id);
    if i < 0 then s
    else
      var p := Pushed(s, i);
      State(ReattachAsWritten(p.docs, id), p.trash)
  }

  /** Three live documents, each the parent of the next, make the forest cyclic. */
  lemma ThreeCycle(docs: seq<Doc>, a: Doc, b: Doc, c: Doc)
    requires a in docs && b in docs && c in docs
    requires a.parentId == Some(b.id) && b.parentId == Some(c.id) && c.parentId == Some(a.id)
    ensures !Acyclic(docs)
  {
    forall rank: map<Id, nat> ensures !RankOk(docs, rank) {
      NoRank(docs, a, b, c, rank);
    }
  }

  lemma NoRank(docs: seq<Doc>, a: Doc, b: Doc, c: Doc, rank: map<Id, nat>)
    requires a in docs && b in docs && c in docs
    requires a.parentId == Some(b.id) && b.parentId == Some(c.id) && c.parentId == Some(a.id)
    ensures !RankOk(docs, rank)
  {
  }

  /**
   * The state reached by: X above T above O; archive X (all three go to the
   * trash); restore O (T is trashed, so O goes to the root as an orphan
   * waiting for T); restore X (to the root); move X inside O. T is still in
   * the trash, remembering X as its parent.
   */
  function BeforeRestore(): (r: State)
  {
    var o := Doc("o", "O", "", None, "", false, 0.0, 0, 0, Some(Some("t")), true);
    var x := Doc("x", "X", "", Some("o"), "", false, 0.0, 0, 0, Some(None), false);
    var t := Doc("t", "T", "", Some("x"), "", false, 0.0, 0, 0, Some(Some("x")), false);
    State([o, x], [t])
  }

  /**
   * That state satisfies the invariant of the store, yet restoring T with the
   * re-attachment as written re-parents O under T, which lies under X, which
   * lies under O: the live forest is no longer acyclic.
   */
  lemma CycleAsWritten()
    ensures Inv(BeforeRestore())
    ensures !Acyclic(RestoreAsWritten(BeforeRestore(), "t").docs)
  {
    BeforeInv();
    var p := PushedShape();
    assert RestoreAsWritten(BeforeRestore(), "t").docs == ReattachAsWritten(p, "t");
    CycleFrom(p);
  }

  /**
   * From the same state, `restoreDoc` with the guarded re-attachment keeps the
   * live forest acyclic: O stays at the root, still waiting for T.
   */
  lemma CycleCorrected()
    ensures Inv(BeforeRestore())
    ensures Acyclic(RestoreSpec(BeforeRestore(), "t").docs)
    ensures Live(RestoreSpec(BeforeRestore(), "t").docs, "t")
  {
    BeforeInv();
    RestoreKeepsInv(BeforeRestore(), "t");
    RestoreFields(BeforeRestore(), "t");
    var r := RestoreSpec(BeforeRestore(), "t").docs;
    assert r[2].id == "t" && r[2] in r;
  }

  /** Re-attaching O under T when T lies under X and X under O. */
  lemma CycleFrom(p: seq<Doc>)
    requires |p| == 3
    requires p[0].id == "o" && p[0].restoredOrphan && p[0].origParent == Some(Some("t"))
    requires p[1].id == "x" && p[1].parentId == Some("o") && !p[1].restoredOrphan
    requires p[2].id == "t" && p[2].parentId == Some("x") && !p[2].restoredOrphan
    ensures !Acyclic(ReattachAsWritten(p, "t"))
  {
    var m := RejoinedAsWritten(p, "t");
    assert m[0].parentId == Some("t") && m[1] == p[1] && m[2] == p[2];
    var r := Renumber(m, Some("t"));
    assert SameShape(m, r);
    assert WaitsAsWritten("t", p[0]);
    ThreeCycle(r, r[0], r[2], r[1]);
  }

  lemma BeforeInv()
    ensures Inv(BeforeRestore())
  {
    var s := BeforeRestore();
    assert RankOk(s.docs, map["o" := 0, "x" := 1]);
    assert Live(s.docs, "o") by { assert s.docs[0] in s.docs; }
  }

  /** Restoring T puts it under X, which is live; O still waits for T at the root. */
  lemma PushedShape() returns (p: seq<Doc>)
    ensures p == Pushed(BeforeRestore(), 0).docs && IndexOf(BeforeRestore().trash, "t") == 0
    ensures |p| == 3
    ensures p[0].id == "o" && p[0].restoredOrphan && p[0].origParent == Some(Some("t")) && p[0].parentId.None?
    ensures p[1].id == "x" && p[1].parentId == Some("o") && !p[1].restoredOrphan
    ensures p[2].id == "t" && p[2].parentId == Some("x") && !p[2].restoredOrphan
  {
    var s := BeforeRestore();
    assert Live(s.docs, "x") by { assert s.docs[1] in s.docs; }
    var v := Revive(s.docs, s.trash[0]);
    assert v.parentId == Some("x");
    p := Pushed(s, 0).docs;
    assert SameShape(s.docs + [v], p);
  }

  // ---------------------------------------------------------------------------
  // The state before the restore is reachable: X above T above O, then
  // archive X, restore O, restore X, move X inside O.

  function XDoc(): (r: Doc)
  {
    Doc("x", "X", "", None, "", false, 0.0, 0, 0, None, false)
  }

  function TDoc(): (r: Doc)
  {
    Doc("t", "T", "", Some("x"), "", false, 0.0, 0, 0, None, false)
  }

  function ODoc(): (r: Doc)
  {
    Doc("o", "O", "", Some("t"), "", false, 0.0, 0, 0, None, false)
  }

  /** Three live documents, each the parent of the next, and an empty trash. */
  function Start(): (r: State)
  {
    State([XDoc(), TDoc(), ODoc()], [])
  }

  lemma StartInv()
    ensures Inv(Start())
  {
    ChainInv(XDoc(), TDoc(), ODoc());
  }

  /** A root `a`, its child `b` and `b`'s child `c` form a store with an empty trash. */
  lemma ChainInv(a: Doc, b: Doc, c: Doc)
    requires a.id != b.id && b.id != c.id && a.id != c.id
    requires a.parentId == None && b.parentId == Some(a.id) && c.parentId == Some(b.id)
    ensures Inv(State([a, b, c], []))
  {
    var d := [a, b, c];
    assert d + [] == d;
    assert RankOk(d, map[a.id := 0, b.id := 1, c.id := 2]);
    assert d[0] in d && d[1] in d;
  }

  /** X's subtree in the start state: T, then O. */
  lemma StartDescendants()
    ensures Targets(Start().docs, "x") == ["x", "t", "o"]
  {
    ChainSiblings(XDoc(), TDoc(), ODoc());
    ChainTargets(XDoc(), TDoc(), ODoc());
  }

  /** In the chain `a` above `b` above `c`, each has the next as its only child. */
  lemma ChainSiblings(a: Doc, b: Doc, c: Doc)
    requires a.id != b.id && b.id != c.id && a.id != c.id
    requires a.parentId == None && b.parentId == Some(a.id) && c.parentId == Some(b.id)
    ensures Siblings([a, b, c], Some(a.id)) == [b]
    ensures Siblings([a, b, c], Some(b.id)) == [c]
    ensures Siblings([a, b, c], Some(c.id)) == []
  {
    var d := [a, b, c];
    assert d[1..] == [b, c] && d[1..][1..] == [c] && d[1..][1..][1..] == [];
    assert Siblings([c], Some(a.id)) == [] && Siblings([c], Some(c.id)) == [];
    assert Siblings([b, c], Some(a.id)) == [b] && Siblings([b, c], Some(c.id)) == [];
  }

  /** Archiving `a` archives the whole chain, top down. */
  lemma ChainTargets(a: Doc, b: Doc, c: Doc)
    requires Siblings([a, b, c], Some(a.id)) == [b]
    requires Siblings([a, b, c], Some(b.id)) == [c]
    requires Siblings([a, b, c], Some(c.id)) == []
    ensures Targets([a, b, c], a.id) == [a.id, b.id, c.id]
  {
    var d := [a, b, c];
    assert Tree(d, c, 1) == [c];
    assert Walk(d, [c], 2) == [c] by {
      assert Tree(d, c, 2) == [c];
    }
    assert Walk(d, [b], 3) == [b, c] by {
      assert Tree(d, b, 3) == [b, c];
    }
    assert Ids([b, c]) == [b.id, c.id];
  }

  lemma ArchiveFirst()
    ensures ArchiveStep(Start(), "x") == State([TDoc(), ODoc()], [Mark(XDoc())])
  {
    assert IndexOf(Start().docs, "x") == 0;
    assert Start().docs[1..] == [TDoc(), ODoc()];
  }

  lemma ArchiveSecond()
    ensures ArchiveStep(State([TDoc(), ODoc()], [Mark(XDoc())]), "t") == State([ODoc()], [Mark(XDoc()), Mark(TDoc())])
  {
    assert IndexOf([TDoc(), ODoc()], "t") == 0;
    assert [TDoc(), ODoc()][1..] == [ODoc()];
  }

  lemma ArchiveThird()
    ensures ArchiveStep(State([ODoc()], [Mark(XDoc()), Mark(TDoc())]), "o") == State([], [Mark(XDoc()), Mark(TDoc()), Mark(ODoc())])
  {
    assert IndexOf([ODoc()], "o") == 0;
  }

  /** Archiving X moves all three documents to the trash, X first. */
  lemma ArchivedAll()
    ensures ArchiveSpec(Start(), "x") == State([], [Mark(XDoc()), Mark(TDoc()), Mark(ODoc())])
  {
    StartDescendants();
    ArchiveFirst();
    ArchiveSecond();
    ArchiveThird();
    var ids: seq<Id> := ["x", "t", "o"];
    var s1 := ArchiveStep(Start(), "x");
    var s2 := ArchiveStep(s1, "t");
    var s3 := ArchiveStep(s2, "o");
    assert ids[1..] == ["t", "o"] && ids[1..][1..] == ["o"] && ids[1..][1..][1..] == [];
    assert ArchiveFold(s3, []) == s3;
    assert ArchiveFold(s2, ["o"]) == s3;
    assert ArchiveFold(s1, ["t", "o"]) == s3;
  }

  /** O back at the root, waiting for T. */
  function OOrphan(): (r: Doc)
  {
    Doc("o", "O", "", None, "", false, 0.0, 0, 0, Some(Some("t")), true)
  }

  /** X back at the root, second among the roots. */
  function XBack(): (r: Doc)
  {
    Doc("x", "X", "", None, "", false, 1.0, 0, 0, Some(None), false)
  }

  /** After archiving X: everything in the trash. */
  function Archived(): (r: State)
  {
    State([], [Mark(XDoc()), Mark(TDoc()), Mark(ODoc())])
  }

  /** After restoring O. */
  function RestoredO(): (r: State)
  {
    State([OOrphan()], [Mark(XDoc()), Mark(TDoc())])
  }

  /** After restoring X. */
  function RestoredX(): (r: State)
  {
    State([OOrphan(), XBack()], [Mark(TDoc())])
  }

  /** Renumbering a group with a single member gives it order 0 and leaves the rest alone. */
  lemma RenumberLone(docs: seq<Doc>, pid: Option<Id>, j: nat)
    requires UniqueIds(docs) && j < |docs| && docs[j].parentId == pid
    requires forall k :: 0 <= k < |docs| && k != j ==> docs[k].parentId != pid
    ensures |Renumber(docs, pid)| == |docs|
    ensures Renumber(docs, pid)[j] == docs[j].(order := 0.0)
    ensures forall k :: 0 <= k < |docs| && k != j ==> Renumber(docs, pid)[k] == docs[k]
  {
    var m := GroupPos(docs, pid, j);
    var kids := ChildrenOf(docs, pid);
    if m > 0 {
      ChildrenUnique(docs, pid);
      assert false;
    }
  }

  lemma ArchivedInv()
    ensures Inv(Archived())
  {
    var s := Archived();
    assert RankOk(s.docs, map[]);
  }

  /** Restoring O: T is in the trash, so O comes back at the root as an orphan. */
  lemma RestoreOStep()
    ensures Inv(Archived())
    ensures RestoreSpec(Archived(), "o") == RestoredO()
  {
    ArchivedInv();
    PushedO();
    ONotWaited();
    RestoreUnfold(Archived(), "o", 2, RestoredO());
  }

  /** O leaves the trash for the root, T being in the trash. */
  lemma PushedO()
    ensures IndexOf(Archived().trash, "o") == 2
    ensures Pushed(Archived(), 2) == RestoredO()
  {
    var s := Archived();
    assert IndexOf(s.trash, "o") == 2;
    assert Revive(s.docs, s.trash[2]) == OOrphan();
    RenumberLone([OOrphan()], None, 0);
    assert s.trash[..2] + s.trash[3..] == RestoredO().trash;
  }

  /** No orphan waits for O: O itself waits for T. */
  lemma ONotWaited()
    ensures Acyclic(RestoredO().docs) && !AnyWaits(RestoredO().docs, "o")
  {
    var d := RestoredO().docs;
    assert RankOk(d, map["o" := 0]);
    NoneWaits(d, "o");
  }

  /** Nobody waits for `id` when no live orphan remembers `id` as its parent. */
  lemma NoneWaits(docs: seq<Doc>, id: Id)
    requires Acyclic(docs)
    requires forall k :: 0 <= k < |docs| ==> !docs[k].restoredOrphan || docs[k].origParent != Some(Some(id))
    ensures !AnyWaits(docs, id)
  {
  }

  lemma RestoredOInv()
    ensures Inv(RestoredO())
  {
    RestoreOStep();
    RestoreKeepsInv(Archived(), "o");
  }

  /** X leaves the trash for the root, where it sorts after O. */
  lemma PushedX()
    ensures IndexOf(RestoredO().trash, "x") == 0
    ensures Pushed(RestoredO(), 0) == RestoredX()
  {
    var s := RestoredO();
    var x1 := Revive(s.docs, s.trash[0]);
    assert x1 == XBack().(order := 0.0);
    RootPair(x1);
    assert s.trash[1..] == RestoredX().trash;
  }

  /** Restoring X: it goes to the root, after O. */
  lemma RestoreXStep()
    ensures Inv(RestoredO())
    ensures RestoreSpec(RestoredO(), "x") == RestoredX()
  {
    RestoredOInv();
    PushedX();
    XNotWaited();
    RestoreUnfold(RestoredO(), "x", 0, RestoredX());
  }

  /** No orphan waits for X: O waits for T, and X is no orphan. */
  lemma XNotWaited()
    ensures Acyclic(RestoredX().docs) && !AnyWaits(RestoredX().docs, "x")
  {
    var d := RestoredX().docs;
    assert RankOk(d, map["o" := 0, "x" := 0]);
    NoneWaits(d, "x");
  }

  /** `restoreDoc` when no orphan waits for the restored id: the push is all there is. */
  lemma RestoreUnfold(s: State, id: Id, i: nat, p: State)
    requires Inv(s) && i < |s.trash| && IndexOf(s.trash, id) == i && Pushed(s, i) == p
    requires Acyclic(p.docs) && !AnyWaits(p.docs, id)
    ensures RestoreSpec(s, id) == p
  {
  }

  /** O sorts ahead of X among the roots, so X gets order 1. */
  lemma RootPair(x1: Doc)
    requires x1 == XBack().(order := 0.0)
    ensures Renumber([OOrphan(), x1], None) == [OOrphan(), XBack()]
  {
    var d := [OOrphan(), x1];
    PairSiblings(d, None);
    RootsSorted(x1);
    PairRenumber(d, None);
  }

  /** Two documents under the same parent are that parent's whole group. */
  lemma PairSiblings(d: seq<Doc>, pid: Option<Id>)
    requires |d| == 2 && d[0].parentId == pid && d[1].parentId == pid
    ensures Siblings(d, pid) == d
  {
    assert d[1..][1..] == [];
    assert Siblings(d[1..], pid) == d[1..];
  }

  /** A group of two, already in sorted order, is numbered 0 and 1. */
  lemma PairRenumber(d: seq<Doc>, pid: Option<Id>)
    requires |d| == 2 && d[0].id != d[1].id && d[0].parentId == pid && d[1].parentId == pid
    requires ChildrenOf(d, pid) == d
    ensures Renumber(d, pid) == [d[0].(order := 0.0), d[1].(order := 1.0)]
  {
    assert IndexOf(d, d[0].id) == 0 && IndexOf(d, d[1].id) == 1;
    var r := Renumber(d, pid);
    assert r[0] == Renum(d, d[0]);
    assert r[1] == Renum(d, d[1]);
  }

  lemma RootsSorted(x1: Doc)
    requires x1 == XBack().(order := 0.0)
    ensures SortByKey([OOrphan(), x1]) == [OOrphan(), x1]
  {
    var d := [OOrphan(), x1];
    assert d[1..] == [x1] && d[1..][1..] == [];
    assert SortByKey([x1]) == [x1];
    assert TitleLe("O", "X");
    assert KeyLe(OOrphan(), x1);
  }

  /** The guards of the move pass: both live, and O is a root, so not under X. */
  lemma MoveGuards()
    ensures Acyclic(RestoredX().docs)
    ensures Movable(RestoredX().docs, Some("x"), Some("o"))
    ensures IndexOf(RestoredX().docs, "x") == 1 && IndexOf(RestoredX().docs, "o") == 0
  {
    XNotWaited();
    RootMovable(RestoredX().docs);
  }

  /** Any document may move inside a root that is not itself. */
  lemma RootMovable(d: seq<Doc>)
    requires Acyclic(d) && |d| == 2 && d[0].id != d[1].id && d[0].parentId == None
    ensures Movable(d, Some(d[1].id), Some(d[0].id))
    ensures IndexOf(d, d[1].id) == 1 && IndexOf(d, d[0].id) == 0
  {
    assert Ancestry(d, d[0]) == [d[0]];
    assert d[0] in d && d[1] in d;
  }

  /** X moves under O; each of the two groups has one member, which gets order 0. */
  lemma PlaceX()
    ensures Place(RestoredX().docs, 1, 0, Inside) == [OOrphan(), XBack().(parentId := Some("o"), order := 0.0)]
  {
    var d := RestoredX().docs;
    var q := Placed(d, 1, 0, Inside);
    PlacedShape(d, 1, 0, Inside);
    LoneGroups(q);
  }

  /** A root at order 0 and its only child, renumbered as roots and then as children of the root. */
  lemma LoneGroups(q: seq<Doc>)
    requires |q| == 2 && q[0].id != q[1].id && q[0].order == 0.0
    requires q[0].parentId == None && q[1].parentId == Some(q[0].id)
    ensures Renumber(Renumber(q, None), Some(q[0].id)) == [q[0], q[1].(order := 0.0)]
  {
    RenumberLone(q, None, 0);
    assert Renumber(q, None) == q;
    RenumberLone(q, Some(q[0].id), 1);
  }

  /** Moving X inside O, at time 0: O keeps its place, X becomes O's only child. */
  lemma MoveStep()
    ensures Acyclic(RestoredX().docs)
    ensures MoveSpec(RestoredX().docs, Some("x"), Some("o"), Inside, 0) == BeforeRestore().docs
  {
    MoveGuards();
    MoveAt(RestoredX().docs, Some("x"), Some("o"), Inside, 0);
    PlaceX();
    StampSecond([OOrphan(), XBack().(parentId := Some("o"), order := 0.0)]);
  }

  /** Stamping the second of two documents with time 0 when it already carries it. */
  lemma StampSecond(p: seq<Doc>)
    requires |p| == 2 && p[1].updatedAt == 0
    ensures Stamp(p, 1, 0) == p
  {
  }

  lemma RestoredXInv()
    ensures Inv(RestoredX())
  {
    RestoreXStep();
    RestoreKeepsInv(RestoredO(), "x");
  }

  /**
   * `BeforeRestore` is reachable: from X above T above O, archiving X,
   * restoring O, restoring X and moving X inside O (at time 0) lead to it,
   * through states that all keep the invariant of the store.
   */
  lemma BeforeRestoreReachable()
    ensures Inv(Start()) && ArchiveSpec(Start(), "x") == Archived()
    ensures Inv(Archived()) && RestoreSpec(Archived(), "o") == RestoredO()
    ensures Inv(RestoredO()) && RestoreSpec(RestoredO(), "x") == RestoredX()
    ensures Inv(RestoredX())
    ensures State(MoveSpec(RestoredX().docs, Some("x"), Some("o"), Inside, 0), RestoredX().trash) == BeforeRestore()
  {
    StartInv();
    ArchivedAll();
    RestoreOStep();
    RestoreXStep();
    RestoredXInv();
    MoveStep();
  }
}
