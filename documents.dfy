/**
 * The document record of the note tree (app.js, `defaultDocs` and `createDoc`)
 * and the order in which `childrenOf` lists siblings.
 */
module Documents {
  import opened Wrappers
  import opened Lists

  /** Document ids are non-empty strings, so an id is falsy exactly when it is absent. */
  type Id = s: string | s != [] witness "a"

  /**
   * One document. `origParent` is the optional `__origParentId` slot, which is
   * undefined (`None`), `null` (`Some(None)`) or an id (`Some(Some(p))`);
   * `restoredOrphan` is the `__restoredOrphan` flag (a deleted flag reads `false`).
   */
  datatype Doc = Doc(
    id: Id,
    title: string,
    icon: string,
    parentId: Option<Id>,
    content: string,
    starred: bool,
    order: real,
    createdAt: int,
    updatedAt: int,
    origParent: Option<Option<Id>>,
    restoredOrphan: bool)

  /** The fields `updateDoc` may patch; `None` leaves the field as it is. */
  datatype Patch = Patch(
    title: Option<string>,
    icon: Option<string>,
    content: Option<string>,
    starred: Option<bool>)

  /**
   * Title comparison used when two siblings have equal `order`. The source uses
   * the locale-dependent `localeCompare`; this model compares code units
   * lexicographically, and the proofs only use that it is a total preorder.
   */
  predicate TitleLe(a: string, b: string)
  {
    if a == [] then true
    else if b == [] then false
    else if a[0] != b[0] then a[0] < b[0]
    else TitleLe(a[1..], b[1..])
  }

  lemma {:induction false} TitleLeTotal(a: string, b: string)
    ensures TitleLe(a, b) || TitleLe(b, a)
  {
    if a != [] && b != [] && a[0] == b[0] {
      TitleLeTotal(a[1..], b[1..]);
    }
  }

  lemma {:induction false} TitleLeTransitive(a: string, b: string, c: string)
    requires TitleLe(a, b) && TitleLe(b, c)
    ensures TitleLe(a, c)
  {
    if a != [] && b != [] && c != [] && a[0] == b[0] && b[0] == c[0] {
      TitleLeTransitive(a[1..], b[1..], c[1..]);
    }
  }

  /**
   * `a` may precede `b` among siblings: the comparator
   * `a.order - b.order || a.title.localeCompare(b.title)` is not positive.
   */
  predicate KeyLe(a: Doc, b: Doc)
  {
    a.order < b.order || (a.order == b.order && TitleLe(a.title, b.title))
  }

  lemma KeyLeTotal(a: Doc, b: Doc)
    ensures KeyLe(a, b) || KeyLe(b, a)
  {
    TitleLeTotal(a.title, b.title);
  }

  lemma KeyLeTransitive(a: Doc, b: Doc, c: Doc)
    requires KeyLe(a, b) && KeyLe(b, c)
    ensures KeyLe(a, c)
  {
    if a.order == b.order == c.order {
      TitleLeTransitive(a.title, b.title, c.title);
    }
  }

  ghost predicate Sorted(s: seq<Doc>)
  {
    forall i, j :: 0 <= i < j < |s| ==> KeyLe(s[i], s[j])
  }

  /** Orders strictly increase along `s`, as in a normalised sibling list. */
  ghost predicate StrictlyOrdered(s: seq<Doc>)
  {
    forall i, j :: 0 <= i < j < |s| ==> s[i].order < s[j].order
  }

  /** Places `x` before the first element it may precede, so earlier equal keys stay first. */
  function Insert(x: Doc, s: seq<Doc>): (r: seq<Doc>)
    ensures multiset(r) == multiset(s) + multiset{x}
    ensures |r| == |s| + 1
  {
    if s == [] then [x]
    else if KeyLe(x, s[0]) then [x] + s
    else
      assert s == [s[0]] + s[1..];
      [s[0]] + Insert(x, s[1..])
  }

  /** Inserting adds `x` and nothing else. */
  lemma {:induction false} InsertIn(x: Doc, s: seq<Doc>, y: Doc)
    ensures y in Insert(x, s) <==> y == x || y in s
  {
    if s != [] && !KeyLe(x, s[0]) {
      InsertIn(x, s[1..], y);
      assert s == [s[0]] + s[1..];
    }
  }

  /** A key no greater than every entry of a sorted list may head it. */
  lemma {:induction false} SortedCons(h: Doc, t: seq<Doc>)
    requires Sorted(t)
    requires forall j :: 0 <= j < |t| ==> KeyLe(h, t[j])
    ensures Sorted([h] + t)
  {
    var r := [h] + t;
    forall i, j | 0 <= i < j < |r| ensures KeyLe(r[i], r[j]) {
      assert r[j] == t[j - 1];
      if i > 0 {
        assert r[i] == t[i - 1];
      }
    }
  }

  lemma {:induction false} InsertSorted(x: Doc, s: seq<Doc>)
    requires Sorted(s)
    ensures Sorted(Insert(x, s))
  {
    if s == [] {
    } else if KeyLe(x, s[0]) {
      forall j | 0 <= j < |s| ensures KeyLe(x, s[j]) {
        if j > 0 {
          KeyLeTransitive(x, s[0], s[j]);
        }
      }
      SortedCons(x, s);
    } else {
      var s' := s[1..];
      forall i, j | 0 <= i < j < |s'| ensures KeyLe(s'[i], s'[j]) {
        assert s'[i] == s[i + 1] && s'[j] == s[j + 1];
      }
      InsertSorted(x, s');
      KeyLeTotal(x, s[0]);
      var t := Insert(x, s');
      forall j | 0 <= j < |t| ensures KeyLe(s[0], t[j]) {
        InsertIn(x, s', t[j]);
        if t[j] != x {
          var k :| 0 <= k < |s'| && s'[k] == t[j];
          assert s[k + 1] == t[j];
        }
      }
      SortedCons(s[0], t);
    }
  }

  /**
   * The stable sort `childrenOf` applies: insertion sort by `KeyLe`, in which
   * documents with equal keys keep their relative order (`SortStable`).
   */
  function SortByKey(s: seq<Doc>): (r: seq<Doc>)
    ensures multiset(r) == multiset(s)
    ensures |r| == |s|
    ensures Sorted(r)
  {
    if s == [] then []
    else
      assert s == [s[0]] + s[1..];
      InsertSorted(s[0], SortByKey(s[1..]));
      Insert(s[0], SortByKey(s[1..]))
  }

  /** The documents of `s` whose sort key is `(o, t)`, in the order they occur in `s`. */
  function KeyGroup(s: seq<Doc>, o: real, t: string): (r: seq<Doc>)
  {
    if s == [] then []
    else (if s[0].order == o && s[0].title == t then [s[0]] else []) + KeyGroup(s[1..], o, t)
  }

  lemma {:induction false} TitleLeReflexive(a: string)
    ensures TitleLe(a, a)
  {
    if a != [] {
      TitleLeReflexive(a[1..]);
    }
  }

  /**
   * `Insert` places `x` ahead of every document with the same key as `x`
   * and keeps the documents of each key in their order.
   */
  lemma {:induction false} InsertStable(x: Doc, u: seq<Doc>, o: real, t: string)
    ensures KeyGroup(Insert(x, u), o, t) == KeyGroup([x], o, t) + KeyGroup(u, o, t)
  {
    if u != [] && !KeyLe(x, u[0]) {
      InsertStable(x, u[1..], o, t);
      assert Insert(x, u) == [u[0]] + Insert(x, u[1..]);
      assert u == [u[0]] + u[1..];
      PassHead(x, u[0], Insert(x, u[1..]), u[1..], o, t);
    } else {
      assert Insert(x, u) == [x] + u;
      KeyGroupCons(x, u, o, t);
      KeyGroupSingle(x, o, t);
    }
  }

  /** The step of `InsertStable` where `x` goes past a head `h` that must precede it, so `h` has another key. */
  lemma {:induction false} PassHead(x: Doc, h: Doc, rest: seq<Doc>, tail: seq<Doc>, o: real, t: string)
    requires !KeyLe(x, h)
    requires KeyGroup(rest, o, t) == KeyGroup([x], o, t) + KeyGroup(tail, o, t)
    ensures KeyGroup([h] + rest, o, t) == KeyGroup([x], o, t) + KeyGroup([h] + tail, o, t)
  {
    var gx := KeyGroup([x], o, t);
    var g0 := if h.order == o && h.title == t then [h] else [];
    var k := KeyGroup(tail, o, t);
    KeyGroupCons(h, rest, o, t);
    KeyGroupCons(h, tail, o, t);
    assert g0 == [] || gx == [] by {
      KeyGroupSingle(x, o, t);
      TitleLeReflexive(x.title);
    }
    assert g0 + (gx + k) == gx + (g0 + k);
  }

  lemma {:induction false} KeyGroupSingle(x: Doc, o: real, t: string)
    ensures KeyGroup([x], o, t) == if x.order == o && x.title == t then [x] else []
  {
    KeyGroupCons(x, [], o, t);
    assert [x] + [] == [x];
  }

  lemma {:induction false} KeyGroupCons(h: Doc, u: seq<Doc>, o: real, t: string)
    ensures KeyGroup([h] + u, o, t) == (if h.order == o && h.title == t then [h] else []) + KeyGroup(u, o, t)
  {
    assert ([h] + u)[0] == h && ([h] + u)[1..] == u;
  }

  /**
   * The sort is stable: the documents that share a key (the same order and
   * the same title) come out in the order they went in.
   */
  lemma {:induction false} SortStable(s: seq<Doc>, o: real, t: string)
    ensures KeyGroup(SortByKey(s), o, t) == KeyGroup(s, o, t)
  {
    if s != [] {
      SortStable(s[1..], o, t);
      InsertStable(s[0], SortByKey(s[1..]), o, t);
      assert KeyGroup(s, o, t) == KeyGroup([s[0]], o, t) + KeyGroup(s[1..], o, t) by {
        KeyGroupSingle(s[0], o, t);
        KeyGroupCons(s[0], s[1..], o, t);
        assert s == [s[0]] + s[1..];
      }
    }
  }

  /** `f` leaves the sort key (order, then title) of every document as it is. */
  ghost predicate KeepsKey(f: Doc -> Doc)
  {
    forall d :: f(d).order == d.order && f(d).title == d.title
  }

  lemma {:induction false} InsertMap(f: Doc -> Doc, x: Doc, s: seq<Doc>)
    requires KeepsKey(f)
    ensures Insert(f(x), Map(f, s)) == Map(f, Insert(x, s))
  {
    if s != [] {
      assert Map(f, s) == [f(s[0])] + Map(f, s[1..]);
      assert KeyLe(f(x), f(s[0])) == KeyLe(x, s[0]);
      if !KeyLe(x, s[0]) {
        InsertMap(f, x, s[1..]);
        assert Map(f, s)[1..] == Map(f, s[1..]);
        assert Map(f, [s[0]] + Insert(x, s[1..])) == [f(s[0])] + Map(f, Insert(x, s[1..]));
      } else {
        assert Map(f, [x] + s) == [f(x)] + Map(f, s);
      }
    }
  }

  /** Sorting commutes with an edit that keeps every sort key. */
  lemma {:induction false} SortMap(f: Doc -> Doc, s: seq<Doc>)
    requires KeepsKey(f)
    ensures SortByKey(Map(f, s)) == Map(f, SortByKey(s))
  {
    if s != [] {
      var m := Map(f, s);
      assert m[0] == f(s[0]) && m[1..] == Map(f, s[1..]);
      SortMap(f, s[1..]);
      InsertMap(f, s[0], SortByKey(s[1..]));
    }
  }

  /**
   * A key-sorted list and a list with strictly increasing orders that hold the
   * same documents are the same list: sorting a normalised group cannot reorder it.
   */
  lemma {:induction false} SortedUnique(u: seq<Doc>, t: seq<Doc>)
    requires Sorted(u) && StrictlyOrdered(t)
    requires multiset(u) == multiset(t)
    ensures u == t
  {
    assert |u| == |t| by {
      assert |u| == |multiset(u)| && |t| == |multiset(t)|;
    }
    if t != [] {
      assert u[0] == t[0] by {
        SameHead(u, t);
      }
      assert Sorted(u[1..]) && multiset(u[1..]) == multiset(u) - multiset{u[0]} by {
        DropHead(u);
      }
      assert StrictlyOrdered(t[1..]) && multiset(t[1..]) == multiset(t) - multiset{t[0]} by {
        DropHead(t);
      }
      SortedUnique(u[1..], t[1..]);
      SameParts(u, t);
    }
  }

  /** Two non-empty lists with the same head and the same tail are equal. */
  lemma {:induction false} SameParts(u: seq<Doc>, t: seq<Doc>)
    requires u != [] && t != [] && u[0] == t[0] && u[1..] == t[1..]
    ensures u == t
  {
    assert u == [u[0]] + u[1..];
    assert t == [t[0]] + t[1..];
  }

  /** Both lists start with the document of least order. */
  lemma {:induction false} SameHead(u: seq<Doc>, t: seq<Doc>)
    requires Sorted(u) && StrictlyOrdered(t) && u != [] && t != []
    requires multiset(u) == multiset(t)
    ensures u[0] == t[0]
  {
    assert u[0] in multiset(t);
    var k :| 0 <= k < |t| && t[k] == u[0];
    assert t[0] in multiset(u);
    var j :| 0 <= j < |u| && u[j] == t[0];
    assert u[0].order <= u[j].order;
  }

  /** Dropping the head keeps either ordering and removes one copy from the multiset. */
  lemma {:induction false} DropHead(s: seq<Doc>)
    requires s != []
    ensures Sorted(s) ==> Sorted(s[1..])
    ensures StrictlyOrdered(s) ==> StrictlyOrdered(s[1..])
    ensures multiset(s[1..]) == multiset(s) - multiset{s[0]}
  {
    assert s == [s[0]] + s[1..];
    forall i, j | 0 <= i < j < |s| - 1 ensures s[1..][i] == s[i + 1] && s[1..][j] == s[j + 1] {
    }
  }
}
