/** Generic facts about sequences used by the document operations. */
module Lists {
  /** Applies `f` to each element, in order. */
  function Map<A, B>(f: A -> B, s: seq<A>): (r: seq<B>)
    ensures |r| == |s|
    ensures forall i :: 0 <= i < |s| ==> r[i] == f(s[i])
  {
    if s == [] then [] else [f(s[0])] + Map(f, s[1..])
  }

  /** The head of a non-empty sequence is one of its elements. */
  lemma HeadIn<A>(s: seq<A>)
    requires s != []
    ensures s[0] in s
  {
  }

  /** Concatenation regroups freely. */
  lemma Assoc<A>(a: seq<A>, b: seq<A>, c: seq<A>)
    ensures (a + b) + c == a + (b + c)
  {
  }

  /** Mapping a non-empty sequence maps its head, then its tail. */
  lemma {:induction false} MapCons<A, B>(f: A -> B, s: seq<A>)
    requires s != []
    ensures Map(f, s) == [f(s[0])] + Map(f, s[1..])
  {
    var l, r := Map(f, s), [f(s[0])] + Map(f, s[1..]);
    forall i | 0 <= i < |l| ensures l[i] == r[i] {
      if i > 0 {
        assert s[1..][i - 1] == s[i];
      }
    }
  }

  lemma {:induction false} MapConcat<A, B>(f: A -> B, a: seq<A>, b: seq<A>)
    ensures Map(f, a + b) == Map(f, a) + Map(f, b)
  {
    var l, r := Map(f, a + b), Map(f, a) + Map(f, b);
    assert |l| == |r|;
    forall i | 0 <= i < |l| ensures l[i] == r[i] {
      if i < |a| {
        assert (a + b)[i] == a[i];
      } else {
        assert (a + b)[i] == b[i - |a|];
      }
    }
  }

  /** Taking out one position takes one copy out of the multiset. */
  lemma {:induction false} MultisetRemove<A>(s: seq<A>, k: nat)
    requires k < |s|
    ensures multiset(s) == multiset(s[..k] + s[k + 1..]) + multiset{s[k]}
  {
    assert s == s[..k] + [s[k]] + s[k + 1..];
  }

  lemma {:induction false} MapRemove<A, B>(f: A -> B, s: seq<A>, k: nat)
    requires k < |s|
    ensures Map(f, s[..k] + s[k + 1..]) == Map(f, s)[..k] + Map(f, s)[k + 1..]
  {
    var l, r := Map(f, s[..k] + s[k + 1..]), Map(f, s)[..k] + Map(f, s)[k + 1..];
    assert |l| == |r|;
    forall i | 0 <= i < |l| ensures l[i] == r[i] {
      if i < k {
        assert (s[..k] + s[k + 1..])[i] == s[i];
      } else {
        assert (s[..k] + s[k + 1..])[i] == s[i + 1];
      }
    }
  }

  /** Mapping a permutation gives a permutation. */
  lemma {:induction false} MapPerm<A, B>(f: A -> B, a: seq<A>, b: seq<A>)
    requires multiset(a) == multiset(b)
    ensures multiset(Map(f, a)) == multiset(Map(f, b))
    decreases |a|
  {
    if a == [] {
      assert |b| == |multiset(b)| == 0;
    } else {
      assert a[0] in multiset(b);
      var k :| 0 <= k < |b| && b[k] == a[0];
      PermRemove(a, b, k);
      MapPerm(f, a[1..], b[..k] + b[k + 1..]);
      MapPermStep(f, a, b, k);
    }
  }

  lemma {:induction false} PermRemove<A>(a: seq<A>, b: seq<A>, k: nat)
    requires multiset(a) == multiset(b) && a != [] && k < |b| && b[k] == a[0]
    ensures multiset(a[1..]) == multiset(b[..k] + b[k + 1..])
  {
    var x, y := multiset(a[1..]), multiset(b[..k] + b[k + 1..]);
    MultisetRemove(b, k);
    assert a == [a[0]] + a[1..];
    assert x + multiset{a[0]} == y + multiset{a[0]};
    Cancel(x, y, multiset{a[0]});
  }

  lemma {:induction false} Cancel<A>(x: multiset<A>, y: multiset<A>, z: multiset<A>)
    requires x + z == y + z
    ensures x == y
  {
    assert forall v :: x[v] == (x + z)[v] - z[v];
    assert forall v :: y[v] == (y + z)[v] - z[v];
  }

  lemma {:induction false} MapPermStep<A, B>(f: A -> B, a: seq<A>, b: seq<A>, k: nat)
    requires a != [] && k < |b| && b[k] == a[0]
    requires multiset(Map(f, a[1..])) == multiset(Map(f, b[..k] + b[k + 1..]))
    ensures multiset(Map(f, a)) == multiset(Map(f, b))
  {
    MapRemove(f, b, k);
    MultisetRemove(Map(f, b), k);
    assert Map(f, a) == [f(a[0])] + Map(f, a[1..]);
  }

  /** No element occurs twice. */
  ghost predicate Distinct<A>(s: seq<A>)
  {
    forall i, j :: 0 <= i < j < |s| ==> s[i] != s[j]
  }

  /** Two positions holding the same element count twice. */
  lemma {:induction false} CountTwo<A>(s: seq<A>, i: nat, j: nat)
    requires i < j < |s| && s[i] == s[j]
    ensures multiset(s)[s[i]] >= 2
  {
    assert s == s[..j] + [s[j]] + s[j + 1..];
    assert s[..j][i] == s[i];
    assert s[i] in multiset(s[..j]);
  }

  /** In a list without repeats every element counts at most once. */
  lemma {:induction false} DistinctCount<A>(s: seq<A>, v: A)
    requires Distinct(s)
    ensures multiset(s)[v] <= 1
  {
    if s != [] {
      var t := s[1..];
      forall i, j | 0 <= i < j < |t| ensures t[i] != t[j] {
        assert t[i] == s[i + 1] && t[j] == s[j + 1];
      }
      DistinctCount(t, v);
      assert s == [s[0]] + t;
      if s[0] == v {
        assert v !in t by {
          forall k | 0 <= k < |t| ensures t[k] != v {
            assert t[k] == s[k + 1];
          }
        }
      }
    }
  }

  /** A permutation of a list without repeats has none either. */
  lemma {:induction false} DistinctPerm<A>(a: seq<A>, b: seq<A>)
    requires Distinct(a) && multiset(a) == multiset(b)
    ensures Distinct(b)
  {
    forall i, j | 0 <= i < j < |b| ensures b[i] != b[j] {
      if b[i] == b[j] {
        CountTwo(b, i, j);
        DistinctCount(a, b[i]);
      }
    }
  }
}
