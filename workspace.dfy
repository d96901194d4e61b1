/**
 * The `state` record of app.js (lines 55-58) reduced to the two lists the tree
 * engine works on, the invariant every operation keeps, and the list edits the
 * operations are built from.
 */
module Workspace {
  import opened Wrappers
  import opened Documents
  import opened Forest
  import opened Lists
  import opened Shape

  /** `state.docs` (the live documents) and `state.trash` (the archived ones). */
  datatype State = State(docs: seq<Doc>, trash: seq<Doc>)

  /**
   * No id occurs twice across both lists, every live parent reference names a
   * live document, and the live forest has no cycle.
   */
  ghost predicate Inv(s: State)
  {
    UniqueIds(s.docs + s.trash) && ParentsLive(s.docs) && Acyclic(s.docs)
  }

  lemma {:induction false} UniqueParts(a: seq<Doc>, b: seq<Doc>)
    requires UniqueIds(a + b)
    ensures UniqueIds(a) && UniqueIds(b)
    ensures forall x, y :: x in a && y in b ==> x.id != y.id
  {
    forall i, j | 0 <= i < j < |b| ensures b[i].id != b[j].id {
      assert b[i] == (a + b)[|a| + i] && b[j] == (a + b)[|a| + j];
    }
    forall i, j | 0 <= i < j < |a| ensures a[i].id != a[j].id {
      assert a[i] == (a + b)[i] && a[j] == (a + b)[j];
    }
    forall x, y | x in a && y in b ensures x.id != y.id {
      var i :| 0 <= i < |a| && a[i] == x;
      var j :| 0 <= j < |b| && b[j] == y;
      assert x == (a + b)[i] && y == (a + b)[|a| + j];
    }
  }

  /** Appending a document whose id is not live keeps ids unique. */
  lemma {:induction false} UniqueAppend(docs: seq<Doc>, n: Doc)
    requires UniqueIds(docs) && !Live(docs, n.id)
    ensures UniqueIds(docs + [n])
  {
    var d := docs + [n];
    forall i, j | 0 <= i < j < |d| ensures d[i].id != d[j].id {
      assert d[i] == docs[i] && d[i] in docs;
      if j < |docs| {
        assert d[j] == docs[j];
      }
    }
  }

  /** Replacing the live list by one with the same ids position by position keeps ids unique across both lists. */
  lemma {:induction false} SameIdsWith(a: seq<Doc>, b: seq<Doc>, t: seq<Doc>)
    requires SameIds(a, b) && UniqueIds(a + t)
    ensures UniqueIds(b + t)
  {
    forall i, j | 0 <= i < j < |b + t| ensures (b + t)[i].id != (b + t)[j].id {
      assert (b + t)[i].id == (a + t)[i].id && (b + t)[j].id == (a + t)[j].id;
    }
  }

  /** An edit of the live list that keeps its shape keeps the invariant. */
  lemma {:induction false} InvShape(s: State, docs: seq<Doc>)
    requires Inv(s) && SameShape(s.docs, docs)
    ensures Inv(State(docs, s.trash))
  {
    SameIdsWith(s.docs, docs, s.trash);
    SameShapeKeeps(s.docs, docs);
  }

  /**
   * A document with an id that is in neither list, placed at the root or under
   * a live document, can be appended to the live list.
   */
  lemma {:induction false} AddLeaf(s: State, d: Doc)
    requires Inv(s) && !Live(s.docs + s.trash, d.id)
    requires d.parentId.Some? ==> Live(s.docs, d.parentId.value)
    ensures Inv(State(s.docs + [d], s.trash))
  {
    var docs := s.docs + [d];
    UniqueParts(s.docs, s.trash);
    assert forall x :: x in docs <==> x in s.docs || x == d;
    forall i, j | 0 <= i < j < |docs + s.trash| ensures (docs + s.trash)[i].id != (docs + s.trash)[j].id {
      var u := docs + s.trash;
      if i < |s.docs| && j < |s.docs| {
        assert u[i] == (s.docs + s.trash)[i] && u[j] == (s.docs + s.trash)[j];
      } else if i < |s.docs| && j > |s.docs| {
        assert u[i] == (s.docs + s.trash)[i] && u[j] == (s.docs + s.trash)[j - 1];
      } else if i > |s.docs| {
        assert u[i] == (s.docs + s.trash)[i - 1] && u[j] == (s.docs + s.trash)[j - 1];
      } else if i == |s.docs| {
        assert u[i] == d && u[j] == (s.docs + s.trash)[j - 1];
        assert u[j] in s.docs + s.trash;
      } else {
        assert u[j] == d && u[i] in s.docs + s.trash;
      }
    }
    forall c | c in docs && c.parentId.Some? ensures Live(docs, c.parentId.value) {
    }
    var rank := RankOf(s.docs);
    var top: nat := if d.parentId.Some? then rank[FindDoc(s.docs, d.parentId.value).value.id] + 1 else 0;
    var rank' := rank[d.id := top];
    forall c | c in docs && c.parentId.Some? && c.parentId.value in rank'
      ensures rank'[c.parentId.value] < rank'[c.id]
    {
      if c != d {
        assert c.id != d.id;
        assert Live(s.docs, c.parentId.value);
        assert c.parentId.value != d.id;
      }
    }
    assert RankOk(docs, rank');
  }

  /** The entries of `s` whose ids are not in `ids`, in their original order. */
  function FilterOut(s: seq<Doc>, ids: set<Id>): (r: seq<Doc>)
    ensures forall x :: x in r <==> x in s && x.id !in ids
    ensures |r| <= |s|
  {
    if s == [] then []
    else
      assert forall x :: x in s <==> x == s[0] || x in s[1..];
      (if s[0].id in ids then [] else [s[0]]) + FilterOut(s[1..], ids)
  }

  /** Filtering distributes over concatenation, so it keeps the relative order of what it keeps. */
  lemma {:induction false} FilterOutConcat(a: seq<Doc>, b: seq<Doc>, ids: set<Id>)
    ensures FilterOut(a + b, ids) == FilterOut(a, ids) + FilterOut(b, ids)
  {
    if a != [] {
      assert (a + b)[0] == a[0] && (a + b)[1..] == a[1..] + b;
      FilterOutConcat(a[1..], b, ids);
      var h := if a[0].id in ids then [] else [a[0]];
      Assoc(h, FilterOut(a[1..], ids), FilterOut(b, ids));
    } else {
      assert a + b == b;
    }
  }

  /** Filtering a list with no entry in `ids` leaves it as it is. */
  lemma {:induction false} FilterOutNone(s: seq<Doc>, ids: set<Id>)
    requires forall x :: x in s ==> x.id !in ids
    ensures FilterOut(s, ids) == s
  {
    if s != [] {
      assert forall x :: x in s[1..] ==> x in s;
      FilterOutNone(s[1..], ids);
    }
  }

  /** Filtering by `a` and then by `b` is filtering by both at once. */
  lemma {:induction false} FilterOutTwice(s: seq<Doc>, a: set<Id>, b: set<Id>)
    ensures FilterOut(FilterOut(s, a), b) == FilterOut(s, a + b)
  {
    if s != [] {
      FilterOutTwice(s[1..], a, b);
      var h := if s[0].id in a then [] else [s[0]];
      FilterOutConcat(h, FilterOut(s[1..], a), b);
      if s[0].id !in a {
        assert FilterOut(h, b) == if s[0].id in b then [] else [s[0]] by {
          assert h[1..] == [];
        }
      }
    }
  }

  /** With unique ids, filtering out the id at position `i` removes exactly that position. */
  lemma {:induction false} FilterOutRemove(s: seq<Doc>, i: nat)
    requires UniqueIds(s) && i < |s|
    ensures FilterOut(s, {s[i].id}) == s[..i] + s[i + 1..]
  {
    var t := s[1..];
    UniqueTail(s);
    if i == 0 {
      forall x | x in t ensures x.id !in {s[0].id} {
        var k :| 0 <= k < |t| && t[k] == x;
        assert s[k + 1] == x;
      }
      FilterOutNone(t, {s[0].id});
    } else {
      assert t[i - 1] == s[i] && s[0].id != s[i].id;
      FilterOutRemove(t, i - 1);
      assert [s[0]] + (t[..i - 1] + t[i..]) == s[..i] + s[i + 1..];
    }
  }

  /** Filtering keeps ids unique. */
  lemma {:induction false} FilterOutUnique(s: seq<Doc>, ids: set<Id>)
    requires UniqueIds(s)
    ensures UniqueIds(FilterOut(s, ids))
  {
    if s != [] {
      UniqueTail(s);
      FilterOutUnique(s[1..], ids);
      var h := if s[0].id in ids then [] else [s[0]];
      var t := FilterOut(s[1..], ids);
      forall i, j | 0 <= i < |h| && 0 <= j < |t| ensures h[i].id != t[j].id {
        assert t[j] in s[1..];
        var k :| 0 <= k < |s[1..]| && s[1..][k] == t[j];
        assert s[k + 1] == t[j];
      }
      UniqueConcat(h, t);
    }
  }

  /** Removing one position keeps ids unique. */
  lemma {:induction false} UniqueRemove(s: seq<Doc>, i: nat)
    requires UniqueIds(s) && i < |s|
    ensures UniqueIds(s[..i] + s[i + 1..])
  {
    var r := s[..i] + s[i + 1..];
    forall a, b | 0 <= a < b < |r| ensures r[a].id != r[b].id {
      var a', b' := if a < i then a else a + 1, if b < i then b else b + 1;
      assert r[a] == s[a'] && r[b] == s[b'];
    }
  }

  /** `f` applied to the document with id `id`, every other document left alone. */
  function At(id: Id, f: Doc -> Doc): (r: Doc -> Doc)
  {
    (d: Doc) => if d.id == id then f(d) else d
  }

  /** With unique ids, editing one position is editing the document with that id. */
  lemma {:induction false} EditOne(docs: seq<Doc>, i: nat, f: Doc -> Doc)
    requires UniqueIds(docs) && i < |docs|
    ensures docs[i := f(docs[i])] == Map(At(docs[i].id, f), docs)
  {
    var l, r := docs[i := f(docs[i])], Map(At(docs[i].id, f), docs);
    forall j | 0 <= j < |docs| ensures l[j] == r[j] {
    }
  }
}
