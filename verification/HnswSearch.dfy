/** Searching one layer of the HNSW graph: the greedy hill climb and the best-first beam with its two heaps,
    result admission, width, floor and budget. A layer is the list of neighbours of every node. */
module HnswSearch {
  import opened Counting
  import opened Vectors
  import opened HnswCandidates

  type Key = seq<real>

  type Layer = seq<seq<nat>>

  /** Everything a search keeps fixed: keys, the layer, the query, the start node, the beam width and the
      predicate that admits results. */
  datatype Walk = Walk(keys: seq<Key>, layer: Layer, q: Key, start: nat, ef: nat, accept: nat -> bool)

  ghost predicate Scorable(keys: seq<Key>, layer: Layer, q: Key) {
    && |keys| == |layer|
    && (forall n :: 0 <= n < |keys| ==> |keys[n]| == |q|)
    && (forall n, i :: 0 <= n < |layer| && 0 <= i < |layer[n]| ==> layer[n][i] < |layer|)
  }

  ghost predicate Legal(w: Walk) {
    Scorable(w.keys, w.layer, w.q) && w.start < |w.layer| && w.ef >= 1
  }

  function CandOf(keys: seq<Key>, q: Key, n: nat): Cand
    requires n < |keys| && |keys[n]| == |q|
  {
    Cand(Dot(q, keys[n]), n)
  }

  ghost predicate IsCand(w: Walk, c: Cand)
    requires Legal(w)
  {
    c.node < |w.layer| && c == CandOf(w.keys, w.q, c.node)
  }

  // ------------------------------------------------------------------ reachability

  /** A walk along links of the layer. */
  ghost predicate IsPath(layer: Layer, p: seq<nat>) {
    && p != []
    && (forall i :: 0 <= i < |p| ==> p[i] < |layer|)
    && (forall i :: 0 <= i < |p| - 1 ==> p[i + 1] in layer[p[i]])
  }

  ghost predicate Reaches(layer: Layer, a: nat, b: nat) {
    exists p :: IsPath(layer, p) && p[0] == a && p[|p| - 1] == b
  }

  lemma {:induction false} ReachesSelf(layer: Layer, a: nat)
    requires a < |layer|
    ensures Reaches(layer, a, a)
  {
    assert IsPath(layer, [a]);
  }

  lemma {:induction false} ReachesStep(layer: Layer, a: nat, b: nat, c: nat)
    requires Reaches(layer, a, b) && b < |layer| && c < |layer| && c in layer[b]
    ensures Reaches(layer, a, c)
  {
    var p :| IsPath(layer, p) && p[0] == a && p[|p| - 1] == b;
    assert IsPath(layer, p + [c]);
  }

  /** A set that holds `a` and every link out of its members holds all that `a` reaches. */
  lemma {:induction false} ReachesWithin(layer: Layer, a: nat, b: nat, s: set<nat>)
    requires a in s && Reaches(layer, a, b)
    requires forall x, y :: x in s && x < |layer| && y in layer[x] ==> y in s
    ensures b in s && b < |layer|
  {
    var p :| IsPath(layer, p) && p[0] == a && p[|p| - 1] == b;
    PathWithin(layer, p, |p| - 1, s);
  }

  lemma {:induction false} PathWithin(layer: Layer, p: seq<nat>, k: nat, s: set<nat>)
    requires IsPath(layer, p) && k < |p| && p[0] in s
    requires forall x, y :: x in s && x < |layer| && y in layer[x] ==> y in s
    ensures p[k] in s
  {
    if k > 0 {
      PathWithin(layer, p, k - 1, s);
      assert p[k - 1 + 1] in layer[p[k - 1]];
    }
  }

  // ------------------------------------------------------------------ what a beam returns

  /** A node with this score is above everything a full result list would refuse. */
  ghost predicate Above(ef: nat, out: seq<Cand>, score: real) {
    |out| < ef || (out != [] && score > out[|out| - 1].score)
  }

  /** A path from the start all of whose later nodes are above the worst result of a full list. */
  ghost predicate HighPath(w: Walk, out: seq<Cand>, p: seq<nat>)
    requires Legal(w)
  {
    && IsPath(w.layer, p) && p[0] == w.start
    && (forall i :: 0 < i < |p| ==> Above(w.ef, out, Dot(w.q, w.keys[p[i]])))
  }

  /** The results are sorted, without repetition, admitted, reachable and at most `ef`. */
  ghost predicate ResultsOk(w: Walk, out: seq<Cand>)
    requires Legal(w)
  {
    && Sorted(out) && |out| <= w.ef
    && (forall c :: c in out ==> IsCand(w, c) && w.accept(c.node) && Reaches(w.layer, w.start, c.node))
  }

  /** Nothing that the beam could see was missed: every admissible node at the end of a high path is a result,
      unless the list is full and it is no better than the worst of it. */
  ghost predicate Exhaustive(w: Walk, out: seq<Cand>)
    requires Legal(w)
  {
    forall p {:trigger HighPath(w, out, p)} :: HighPath(w, out, p) && w.accept(p[|p| - 1]) ==>
      var v := p[|p| - 1];
      CandOf(w.keys, w.q, v) in out || !Above(w.ef, out, Dot(w.q, w.keys[v]))
  }

  /** Every admissible neighbour of these nodes was considered. */
  ghost predicate Explored(w: Walk, out: seq<Cand>, nodes: set<nat>)
    requires Legal(w)
  {
    forall v, y :: v in nodes && v < |w.layer| && y in w.layer[v] && w.accept(y) ==>
      CandOf(w.keys, w.q, y) in out || !Above(w.ef, out, Dot(w.q, w.keys[y]))
  }

  /** The contract of one beam search. Only a budget smaller than the graph can cut it short, not before the
      floor is reached and not before the budget is spent on exploring. */
  ghost predicate BeamResult(w: Walk, floor: nat, budget: nat, out: seq<Cand>)
    requires Legal(w)
  {
    && ResultsOk(w, out)
    && (Exhaustive(w, out)
        || (budget < |w.layer| && |out| >= floor && exists nodes :: |nodes| >= budget && Explored(w, out, nodes)))
  }

  /** All admissible nodes the start reaches are results. */
  ghost predicate Complete(w: Walk, out: seq<Cand>)
    requires Legal(w)
  {
    forall v: nat :: v < |w.layer| && Reaches(w.layer, w.start, v) && w.accept(v) ==> CandOf(w.keys, w.q, v) in out
  }

  lemma {:induction false} NotFullIsComplete(w: Walk, out: seq<Cand>)
    requires Legal(w) && Exhaustive(w, out) && |out| < w.ef
    ensures Complete(w, out)
  {
    forall v: nat | v < |w.layer| && Reaches(w.layer, w.start, v) && w.accept(v)
      ensures CandOf(w.keys, w.q, v) in out
    {
      var p :| IsPath(w.layer, p) && p[0] == w.start && p[|p| - 1] == v;
      assert HighPath(w, out, p);
    }
  }

  /** Too few results means that there are no more. */
  lemma {:induction false} FewResultsAreAll(w: Walk, floor: nat, budget: nat, out: seq<Cand>)
    requires Legal(w) && BeamResult(w, floor, budget, out) && floor <= w.ef && |out| < floor
    ensures Complete(w, out)
  {
    NotFullIsComplete(w, out);
  }

  /** A beam at least as wide as the graph, on a budget at least as large, finds everything. */
  lemma {:induction false} WideBeamFindsAll(w: Walk, floor: nat, budget: nat, out: seq<Cand>)
    requires Legal(w) && BeamResult(w, floor, budget, out)
    requires w.ef >= |w.layer| && budget >= |w.layer|
    ensures Complete(w, out)
  {
    if |out| < w.ef {
      NotFullIsComplete(w, out);
    } else {
      var nodes := seq(|out|, i requires 0 <= i < |out| => out[i].node);
      forall i, j | 0 <= i < j < |nodes| ensures nodes[i] != nodes[j] {
        assert IsCand(w, out[i]) && IsCand(w, out[j]);
      }
      Pigeonhole(nodes, |w.layer|);
      forall v: nat | v < |w.layer| ensures CandOf(w.keys, w.q, v) in out {
        assert v in nodes;
        var i :| 0 <= i < |nodes| && nodes[i] == v;
        assert IsCand(w, out[i]);
      }
    }
  }

  // ------------------------------------------------------------------ the beam

  /** The state of a beam: nodes seen, nodes still to expand, results so far. */
  datatype Beam = Beam(visited: set<nat>, frontier: set<Cand>, accepted: set<Cand>)

  /** The results are full and none is worse than `v`. */
  ghost predicate Low(w: Walk, b: Beam, v: nat)
    requires Legal(w) && v < |w.layer|
  {
    |b.accepted| == w.ef && forall a :: a in b.accepted ==> a.score >= Dot(w.q, w.keys[v])
  }

  ghost predicate Expanded(w: Walk, b: Beam, v: nat)
    requires Legal(w) && v < |w.layer|
  {
    forall y :: y in w.layer[v] ==> y in b.visited
  }

  ghost predicate Seen(w: Walk, b: Beam)
    requires Legal(w)
  {
    && w.start in b.visited
    && (forall v :: v in b.visited ==> v < |w.layer| && Reaches(w.layer, w.start, v))
    && (forall c :: c in b.frontier ==> IsCand(w, c) && c.node in b.visited)
    && |b.accepted| <= w.ef
    && (forall c :: c in b.accepted ==> IsCand(w, c) && c.node in b.visited && w.accept(c.node))
  }

  /** Every admissible node seen so far is a result or is low. */
  ghost predicate NoneMissed(w: Walk, b: Beam)
    requires Legal(w) && Seen(w, b)
  {
    forall v :: v in b.visited && w.accept(v) ==> CandOf(w.keys, w.q, v) in b.accepted || Low(w, b, v)
  }

  /** Every node seen so far is waiting, is expanded, is low, or is the one being expanded. */
  ghost predicate NoneDropped(w: Walk, b: Beam, open: set<nat>)
    requires Legal(w) && Seen(w, b)
  {
    forall v :: v in b.visited && v !in open ==>
      CandOf(w.keys, w.q, v) in b.frontier || Expanded(w, b, v) || (v != w.start && Low(w, b, v))
  }

  ghost predicate BeamInv(w: Walk, b: Beam, open: set<nat>)
    requires Legal(w)
  {
    Seen(w, b) && NoneMissed(w, b) && NoneDropped(w, b, open)
  }

  /** One visit: a new node is seen, low nodes stay low, and whatever is refused or given up is low. */
  ghost predicate Advances(w: Walk, b: Beam, b': Beam, nb: nat)
    requires Legal(w) && nb < |w.layer|
  {
    var cand := CandOf(w.keys, w.q, nb);
    && b'.visited == b.visited + {nb}
    && (b'.frontier == b.frontier + {cand} || (b'.frontier == b.frontier && Low(w, b', nb) && nb != w.start))
    && |b'.accepted| <= w.ef && b'.accepted <= b.accepted + {cand}
    && (cand in b'.accepted ==> w.accept(nb))
    && (w.accept(nb) ==> cand in b'.accepted || Low(w, b', nb))
    && (forall v: nat :: v < |w.layer| && Low(w, b, v) ==> Low(w, b', v))
    && (forall v: nat :: v < |w.layer| && CandOf(w.keys, w.q, v) in b.accepted ==>
          CandOf(w.keys, w.q, v) in b'.accepted || Low(w, b', v))
  }

  /** What waits afterwards waited before or was not seen before. */
  ghost predicate OnlyNewWait(b: Beam, b': Beam) {
    forall x :: x in b'.frontier ==> x in b.frontier || x.node !in b.visited
  }

  lemma {:induction false} AdvanceSeen(w: Walk, b: Beam, b': Beam, nb: nat)
    requires Legal(w) && Seen(w, b) && nb < |w.layer| && Reaches(w.layer, w.start, nb)
    requires Advances(w, b, b', nb)
    ensures Seen(w, b')
  {
    forall c | c in b'.accepted ensures IsCand(w, c) && c.node in b'.visited && w.accept(c.node) {
      assert c in b.accepted || c == CandOf(w.keys, w.q, nb);
    }
  }

  lemma {:induction false} AdvanceMissesNone(w: Walk, b: Beam, b': Beam, nb: nat)
    requires Legal(w) && Seen(w, b) && NoneMissed(w, b) && nb < |w.layer|
    requires Advances(w, b, b', nb) && Seen(w, b')
    ensures NoneMissed(w, b')
  {
    forall v | v in b'.visited && w.accept(v) ensures CandOf(w.keys, w.q, v) in b'.accepted || Low(w, b', v) {
      if v != nb {
        assert CandOf(w.keys, w.q, v) in b.accepted || Low(w, b, v);
      }
    }
  }

  lemma {:induction false} AdvanceKeepsAll(w: Walk, b: Beam, b': Beam, nb: nat, open: set<nat>)
    requires Legal(w) && BeamInv(w, b, open) && nb < |w.layer|
    requires Advances(w, b, b', nb) && Seen(w, b')
    ensures NoneDropped(w, b', open)
  {
    forall v | v in b'.visited && v !in open
      ensures CandOf(w.keys, w.q, v) in b'.frontier || Expanded(w, b', v) || (v != w.start && Low(w, b', v))
    {
      if v in b.visited && Expanded(w, b, v) {
        assert Expanded(w, b', v);
      }
    }
  }

  /** Looks at one neighbour of a node that is being expanded. */
  method Visit(w: Walk, b: Beam, nb: nat, ghost from: nat, ghost open: set<nat>) returns (b': Beam)
    requires Legal(w) && BeamInv(w, b, open)
    requires from in b.visited && nb in w.layer[from]
    ensures BeamInv(w, b', open)
    ensures nb in b'.visited && b.visited <= b'.visited
    ensures nb in b.visited ==> b' == b
    ensures OnlyNewWait(b, b')
    ensures |b'.visited| >= |b.visited| && |b'.frontier| - |b.frontier| <= |b'.visited| - |b.visited|
  {
    if nb in b.visited {
      return b;
    }
    ReachesStep(w.layer, w.start, from, nb);
    var cand := CandOf(w.keys, w.q, nb);
    b' := VisitNew(w, b, cand);
    AdvanceSeen(w, b, b', nb);
    AdvanceMissesNone(w, b, b', nb);
    AdvanceKeepsAll(w, b, b', nb, open);
  }

  method VisitNew(w: Walk, b: Beam, cand: Cand) returns (b': Beam)
    requires Legal(w) && Seen(w, b) && IsCand(w, cand) && cand.node !in b.visited
    ensures Advances(w, b, b', cand.node)
    ensures |b'.frontier| <= |b.frontier| + 1 && |b'.visited| == |b.visited| + 1
  {
    var visited := b.visited + {cand.node};
    if |b.accepted| >= w.ef {
      var worst := PeekWorst(b.accepted);
      if cand.score <= worst.score {
        b' := b.(visited := visited);
        assert Low(w, b', cand.node);
        return;
      }
      assert worst in b.accepted && worst.score < cand.score;
    }
    if !w.accept(cand.node) {
      b' := b.(visited := visited, frontier := b.frontier + {cand});
    } else {
      var accepted := Admit(w.ef, b.accepted, cand);
      b' := Beam(visited, b.frontier + {cand}, accepted);
      AdmitAdvances(w, b, b', cand);
    }
  }

  lemma {:induction false} AdmitAdvances(w: Walk, b: Beam, b': Beam, cand: Cand)
    requires Legal(w) && Seen(w, b) && IsCand(w, cand) && cand.node !in b.visited && w.accept(cand.node)
    requires b'.visited == b.visited + {cand.node} && b'.frontier == b.frontier + {cand}
    requires |b.accepted| == w.ef ==> exists a :: a in b.accepted && a.score < cand.score && IsWorst(a, b.accepted)
    requires Admitted(w.ef, b.accepted, cand, b'.accepted)
    ensures Advances(w, b, b', cand.node)
  {
    if |b.accepted| == w.ef {
      var worst :| IsWorst(worst, b.accepted + {cand}) && b'.accepted == b.accepted + {cand} - {worst};
      forall v: nat | v < |w.layer| && Low(w, b, v) ensures Low(w, b', v) {
      }
    }
  }

  /** The results with one more; a list that was full gives up its worst. */
  ghost predicate Admitted(ef: nat, before: set<Cand>, cand: Cand, after: set<Cand>) {
    if |before| < ef then after == before + {cand} && |after| == |before| + 1
    else |after| == ef && exists worst :: IsWorst(worst, before + {cand}) && after == before + {cand} - {worst}
  }

  method Admit(ef: nat, before: set<Cand>, cand: Cand) returns (accepted: set<Cand>)
    requires cand !in before && |before| <= ef && ef >= 1
    ensures Admitted(ef, before, cand, accepted)
  {
    accepted := before + {cand};
    if |accepted| > ef {
      var worst := PeekWorst(accepted);
      accepted := accepted - {worst};
    }
  }

  // ------------------------------------------------------------------ searching a layer

  /** When nothing that waits can still improve the results, they are exhaustive. */
  lemma {:induction false} FinishedIsExhaustive(w: Walk, b: Beam, out: seq<Cand>)
    requires Legal(w) && BeamInv(w, b, {})
    requires forall c :: c in b.frontier ==> c.node != w.start && Low(w, b, c.node)
    requires Sorted(out) && |out| == |b.accepted| && forall c :: c in out <==> c in b.accepted
    ensures Exhaustive(w, out)
  {
    forall p {:trigger HighPath(w, out, p)} | HighPath(w, out, p) && w.accept(p[|p| - 1])
      ensures
        var v := p[|p| - 1];
        CandOf(w.keys, w.q, v) in out || !Above(w.ef, out, Dot(w.q, w.keys[v]))
    {
      var v := p[|p| - 1];
      HighPathSeen(w, b, out, p, |p| - 1);
      if Low(w, b, v) {
        LowIsNotAbove(w, b, out, v);
      }
    }
  }

  lemma {:induction false} LowIsNotAbove(w: Walk, b: Beam, out: seq<Cand>, v: nat)
    requires Legal(w) && v < |w.layer| && Low(w, b, v)
    requires |out| == |b.accepted| && forall c :: c in out <==> c in b.accepted
    ensures !Above(w.ef, out, Dot(w.q, w.keys[v]))
  {
    assert out[|out| - 1] in out;
  }

  lemma {:induction false} HighPathSeen(w: Walk, b: Beam, out: seq<Cand>, p: seq<nat>, k: nat)
    requires Legal(w) && BeamInv(w, b, {}) && HighPath(w, out, p) && k < |p|
    requires forall c :: c in b.frontier ==> c.node != w.start && Low(w, b, c.node)
    requires |out| == |b.accepted| && forall c :: c in out <==> c in b.accepted
    ensures p[k] in b.visited
  {
    if k > 0 {
      var v := p[k - 1];
      HighPathSeen(w, b, out, p, k - 1);
      if v != w.start && Low(w, b, v) {
        LowIsNotAbove(w, b, out, v);
        assert false;
      }
      assert CandOf(w.keys, w.q, v) !in b.frontier;
      assert Expanded(w, b, v);
      assert p[k - 1 + 1] in w.layer[v];
    }
  }

  /** Expands a node: looks at each of its neighbours. */
  method Expand(w: Walk, b: Beam, c: Cand) returns (b': Beam)
    requires Legal(w) && BeamInv(w, b, {c.node}) && c.node in b.visited
    ensures BeamInv(w, b', {}) && b.visited <= b'.visited && Expanded(w, b', c.node)
    ensures OnlyNewWait(b, b')
    ensures |b'.visited| >= |b.visited| && |b'.frontier| - |b.frontier| <= |b'.visited| - |b.visited|
  {
    hide NoneMissed, NoneDropped, Reaches, Dot;
    b' := b;
    var nbs := w.layer[c.node];
    for i := 0 to |nbs|
      invariant BeamInv(w, b', {c.node}) && b.visited <= b'.visited
      invariant forall j :: 0 <= j < i ==> nbs[j] in b'.visited
      invariant OnlyNewWait(b, b')
      invariant |b'.visited| >= |b.visited| && |b'.frontier| - |b.frontier| <= |b'.visited| - |b.visited|
    {
      b' := Visit(w, b', nbs[i], c.node, {c.node});
    }
    AllSeen(w, b', c.node);
  }

  lemma {:induction false} AllSeen(w: Walk, b: Beam, v: nat)
    requires Legal(w) && v < |w.layer| && BeamInv(w, b, {v})
    requires forall j :: 0 <= j < |w.layer[v]| ==> w.layer[v][j] in b.visited
    ensures BeamInv(w, b, {}) && Expanded(w, b, v)
  {
    assert Expanded(w, b, v);
  }

  function StartBeam(w: Walk): Beam
    requires Legal(w)
  {
    var entry := CandOf(w.keys, w.q, w.start);
    Beam({w.start}, {entry}, if w.accept(w.start) then {entry} else {})
  }

  lemma {:induction false} StartBeamOk(w: Walk)
    requires Legal(w)
    ensures BeamInv(w, StartBeam(w), {})
  {
    ReachesSelf(w.layer, w.start);
  }

  lemma {:induction false} Popped(w: Walk, b: Beam, c: Cand)
    requires Legal(w) && BeamInv(w, b, {}) && c in b.frontier
    ensures BeamInv(w, b.(frontier := b.frontier - {c}), {c.node})
  {
    var b' := b.(frontier := b.frontier - {c});
    assert Seen(w, b') && NoneMissed(w, b');
    forall v | v in b'.visited && v !in {c.node}
      ensures CandOf(w.keys, w.q, v) in b'.frontier || Expanded(w, b', v) || (v != w.start && Low(w, b', v))
    {
      if Expanded(w, b, v) {
        assert Expanded(w, b', v);
      }
    }
  }

  /** The list is full and the best waiting node is below its worst. */
  method CannotImprove(w: Walk, b: Beam, c: Cand) returns (stop: bool)
    requires Legal(w) && Seen(w, b) && IsBest(c, b.frontier)
    ensures stop ==> |b.accepted| == w.ef && b.accepted != {} && forall x, a :: x in b.frontier && a in b.accepted ==> x.score < a.score
    ensures |b.accepted| < w.ef ==> !stop
  {
    stop := false;
    if |b.accepted| >= w.ef {
      var worst := PeekWorst(b.accepted);
      stop := c.score < worst.score;
    }
  }

  lemma {:induction false} StoppedIsExhaustive(w: Walk, b: Beam)
    requires Legal(w) && BeamInv(w, b, {}) && CandOf(w.keys, w.q, w.start) !in b.frontier
    requires b.frontier != {} ==> |b.accepted| == w.ef
    requires forall x, a :: x in b.frontier && a in b.accepted ==> x.score < a.score
    ensures Exhaustive(w, Ranking(b.accepted))
  {
    forall c | c in b.frontier ensures c.node != w.start && Low(w, b, c.node) {
      assert IsCand(w, c);
    }
    FinishedIsExhaustive(w, b, Ranking(b.accepted));
  }

  /** These nodes were expanded and no longer wait. */
  ghost predicate Done(w: Walk, b: Beam, popped: set<nat>)
    requires Legal(w)
  {
    forall v :: v in popped ==>
      v in b.visited && v < |w.layer| && Expanded(w, b, v) && CandOf(w.keys, w.q, v) !in b.frontier
  }

  lemma {:induction false} DoneNone(w: Walk, b: Beam)
    requires Legal(w)
    ensures Done(w, b, {})
  {
  }

  lemma {:induction false} StartIsDone(w: Walk, b: Beam, popped: set<nat>)
    requires Legal(w) && Done(w, b, popped) && w.start in popped
    ensures CandOf(w.keys, w.q, w.start) !in b.frontier
  {
  }

  lemma {:induction false} DoneMore(w: Walk, b: Beam, b': Beam, popped: set<nat>, c: Cand)
    requires Legal(w) && BeamInv(w, b, {}) && BeamInv(w, b', {}) && Done(w, b, popped) && c in b.frontier
    requires b.visited <= b'.visited && Expanded(w, b', c.node) && OnlyNewWait(b.(frontier := b.frontier - {c}), b')
    ensures c.node !in popped && Done(w, b', popped + {c.node})
  {
    assert IsCand(w, c);
    forall v | v in popped + {c.node}
      ensures v in b'.visited && v < |w.layer| && Expanded(w, b', v) && CandOf(w.keys, w.q, v) !in b'.frontier
    {
      if v != c.node {
        assert Expanded(w, b, v);
      }
    }
  }

  lemma {:induction false} DoneIsExplored(w: Walk, b: Beam, popped: set<nat>)
    requires Legal(w) && BeamInv(w, b, {}) && Done(w, b, popped)
    ensures Explored(w, Ranking(b.accepted), popped)
  {
    forall v, y | v in popped && v < |w.layer| && y in w.layer[v] && w.accept(y)
      ensures CandOf(w.keys, w.q, y) in Ranking(b.accepted)
              || !Above(w.ef, Ranking(b.accepted), Dot(w.q, w.keys[y]))
    {
      assert y in b.visited;
      if Low(w, b, y) {
        LowIsNotAbove(w, b, Ranking(b.accepted), y);
      }
    }
  }

  lemma {:induction false} SeenIsOk(w: Walk, b: Beam)
    requires Legal(w) && Seen(w, b)
    ensures ResultsOk(w, Ranking(b.accepted))
  {
  }

  /** Best-first search of one layer. */
  method SearchLayer(w: Walk, floor: nat, budget: nat) returns (out: seq<Cand>)
    requires Legal(w) && budget >= 1
    ensures BeamResult(w, floor, budget, out)
  {
    hide NoneMissed, NoneDropped, Explored, Exhaustive, ResultsOk, Expanded, OnlyNewWait, Reaches, Done, Dot;
    var b := StartBeam(w);
    StartBeamOk(w);
    var pops := 0;
    ghost var entry := CandOf(w.keys, w.q, w.start);
    ghost var exhaustive, popped := true, {};
    DoneNone(w, b);
    while b.frontier != {}
      invariant BeamInv(w, b, {})
      invariant pops == 0 ==> b.frontier == {entry} && b.accepted <= {entry}
      invariant pops > 0 ==> w.start in popped
      invariant |popped| == pops && Done(w, b, popped)
      invariant pops + |b.frontier| <= |b.visited| <= |w.layer|
      decreases |w.layer| - |b.visited|, |b.frontier|
    {
      var c := PeekBest(b.frontier);
      var stop := CannotImprove(w, b, c);
      if stop {
        ghost var a :| a in b.accepted;
        assert c.score < a.score;
        break;
      }
      if pops >= budget && |b.accepted| >= floor {
        assert |b.frontier| >= 1;
        DoneIsExplored(w, b, popped);
        exhaustive := false;
        break;
      }
      pops := pops + 1;
      Popped(w, b, c);
      var b' := Expand(w, b.(frontier := b.frontier - {c}), c);
      DoneMore(w, b, b', popped, c);
      b, popped := b', popped + {c.node};
      SubsetSize(b.visited, Below(|w.layer|));
    }
    if exhaustive {
      if w.start in popped {
        StartIsDone(w, b, popped);
      }
      StoppedIsExhaustive(w, b);
    }
    SeenIsOk(w, b);
    out := Drain(b.accepted);
  }

  // ------------------------------------------------------------------ hill climbing

  /** No neighbour scores strictly more. */
  ghost predicate LocalBest(keys: seq<Key>, layer: Layer, q: Key, n: nat)
    requires Scorable(keys, layer, q) && n < |layer|
  {
    forall y :: y in layer[n] ==> Dot(q, keys[y]) <= Dot(q, keys[n])
  }

  ghost function Higher(keys: seq<Key>, layer: Layer, q: Key, score: real): set<nat>
    requires Scorable(keys, layer, q)
  {
    set x: nat | x in Below(|layer|) && Dot(q, keys[x]) > score
  }

  /** Moves to better neighbours until there is none. Every neighbour of the node a round starts from is looked
      at, also after the round has moved on. */
  method HillClimb(keys: seq<Key>, layer: Layer, q: Key, start: Cand) returns (cur: Cand)
    requires Scorable(keys, layer, q) && start.node < |layer| && start == CandOf(keys, q, start.node)
    ensures cur.node < |layer| && cur == CandOf(keys, q, cur.node)
    ensures Reaches(layer, start.node, cur.node) && start.score <= cur.score
    ensures LocalBest(keys, layer, q, cur.node)
  {
    cur := start;
    ReachesSelf(layer, start.node);
    var improved := true;
    while improved
      invariant cur.node < |layer| && cur == CandOf(keys, q, cur.node)
      invariant Reaches(layer, start.node, cur.node) && start.score <= cur.score
      invariant !improved ==> LocalBest(keys, layer, q, cur.node)
      decreases Higher(keys, layer, q, cur.score), improved
    {
      improved := false;
      var from := cur;
      var nbs := layer[from.node];
      for i := 0 to |nbs|
        invariant cur.node < |layer| && cur == CandOf(keys, q, cur.node)
        invariant Reaches(layer, start.node, cur.node)
        invariant if improved then cur.score > from.score else cur == from
        invariant forall j :: 0 <= j < i ==> Dot(q, keys[nbs[j]]) <= cur.score
      {
        var nb := nbs[i];
        var s := Dot(q, keys[nb]);
        if s > cur.score {
          ReachesStep(layer, start.node, from.node, nb);
          cur := Cand(s, nb);
          improved := true;
        }
      }
      if improved {
        assert cur.node in Higher(keys, layer, q, from.score);
        assert Higher(keys, layer, q, cur.score) < Higher(keys, layer, q, from.score);
      }
    }
  }
}
