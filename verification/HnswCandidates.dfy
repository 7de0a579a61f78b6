/** Scored candidates of the HNSW index: their order, the two heaps (as sets that give up their best or worst
    member), and ranking a set of candidates best first. */
module HnswCandidates {
  datatype Cand = Cand(score: real, node: nat)

  /** The higher score is better; ties go to the lower node. */
  predicate Better(a: Cand, b: Cand) {
    a.score > b.score || (a.score == b.score && a.node < b.node)
  }

  ghost predicate IsBest(c: Cand, s: set<Cand>) {
    c in s && forall x :: x in s && x != c ==> Better(c, x)
  }

  ghost predicate IsWorst(c: Cand, s: set<Cand>) {
    c in s && forall x :: x in s && x != c ==> Better(x, c)
  }

  ghost predicate Sorted(cs: seq<Cand>) {
    forall i, j :: 0 <= i < j < |cs| ==> Better(cs[i], cs[j])
  }

  /** What a max-heap gives up. */
  method PeekBest(s: set<Cand>) returns (c: Cand)
    requires s != {}
    ensures IsBest(c, s)
  {
    c :| c in s;
    var rest := s - {c};
    while rest != {}
      invariant rest <= s && c in s && c !in rest
      invariant forall x :: x in s && x !in rest && x != c ==> Better(c, x)
      decreases |rest|
    {
      var x :| x in rest;
      rest := rest - {x};
      if Better(x, c) {
        c := x;
      }
    }
  }

  /** What a min-heap gives up. */
  method PeekWorst(s: set<Cand>) returns (c: Cand)
    requires s != {}
    ensures IsWorst(c, s)
  {
    c :| c in s;
    var rest := s - {c};
    while rest != {}
      invariant rest <= s && c in s && c !in rest
      invariant forall x :: x in s && x !in rest && x != c ==> Better(x, c)
      decreases |rest|
    {
      var x :| x in rest;
      rest := rest - {x};
      if Better(c, x) {
        c := x;
      }
    }
  }

  lemma {:induction false} HasBest(s: set<Cand>)
    requires s != {}
    ensures exists c :: IsBest(c, s)
    decreases |s|
  {
    var x :| x in s;
    if s == {x} {
      assert IsBest(x, s);
    } else {
      HasBest(s - {x});
      var c :| IsBest(c, s - {x});
      var b := if Better(x, c) then x else c;
      forall y | y in s && y != b ensures Better(b, y) {
        assert y == x || y in s - {x};
      }
      assert IsBest(b, s);
    }
  }

  /** The members of a set, best first. */
  ghost function Ranking(s: set<Cand>): (r: seq<Cand>)
    ensures Sorted(r) && |r| == |s|
    ensures forall c :: c in r <==> c in s
    decreases |s|
  {
    if s == {} then []
    else
      HasBest(s);
      var c :| IsBest(c, s);
      [c] + Ranking(s - {c})
  }

  /** There is only one way to sort a set of candidates, because no two of them tie. */
  lemma {:induction false} SortedUnique(a: seq<Cand>, b: seq<Cand>)
    requires Sorted(a) && Sorted(b) && forall c :: c in a <==> c in b
    ensures a == b
    decreases |a|
  {
    assert a != [] ==> a[0] in a && a[0] in b;
    assert b != [] ==> b[0] in b && b[0] in a;
    if a != [] && b != [] {
      assert a[0] == b[0];
      forall c ensures c in a[1..] <==> c in b[1..] {
        assert c in a[1..] <==> c in a && c != a[0];
        assert c in b[1..] <==> c in b && c != b[0];
      }
      SortedUnique(a[1..], b[1..]);
      assert a == [a[0]] + a[1..] && b == [b[0]] + b[1..];
    }
  }

  /** Empties a heap into a sorted list. */
  method Drain(s: set<Cand>) returns (out: seq<Cand>)
    ensures out == Ranking(s) && Sorted(out)
  {
    out := [];
    var rest := s;
    while rest != {}
      invariant rest <= s && Sorted(out)
      invariant forall c :: c in out <==> c in s && c !in rest
      invariant forall x, y :: x in out && y in rest ==> Better(x, y)
      decreases |rest|
    {
      var c := PeekBest(rest);
      rest := rest - {c};
      out := out + [c];
    }
    SortedUnique(out, Ranking(s));
  }
}
