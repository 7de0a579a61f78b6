/** The HNSW index: insert, delete and filtered search over the layered graph, tombstones and the id map.
    Keys are kept one per node; levels come from the caller (the hash and logarithm that draw them are not
    modelled); scores are real dot products. */
module HnswIndex {
  import opened Wrappers
  import opened Counting
  import opened Vectors
  import opened HnswCandidates
  import opened HnswSearch
  import opened HnswGraph

  const WIDEN_FACTOR: nat := 8
  const USIZE_MAX: nat := 0xFFFF_FFFF_FFFF_FFFF

  type Id = x: nat | x < 0x1_0000_0000

  datatype Error =
    | DimensionMismatch(expected: nat, got: nat)
    | DuplicateKey(id: Id)
    | KeyNotFound(id: Id)
    | InvalidArgument

  type Filter = Option<Id -> bool>

  // ------------------------------------------------------------------ descending through layers

  /** A climb on one layer: from `a` along links of the layer to `b`, which no neighbour there beats. */
  ghost predicate Climbs(links: Links, keys: seq<Key>, q: Key, l: nat, a: nat, b: nat) {
    && Scorable(keys, LayerOf(links, l), q) && a < |links| && b < |links|
    && Reaches(LayerOf(links, l), a, b) && LocalBest(keys, LayerOf(links, l), q, b)
    && Dot(q, keys[a]) <= Dot(q, keys[b])
  }

  /** The nodes a greedy descent stands on: one climb on every layer, from `from` down to `to`. */
  ghost predicate Descent(links: Links, keys: seq<Key>, q: Key, way: seq<nat>, from: nat, to: nat)
    requires from >= to
    decreases from - to
  {
    && |way| == from - to + 2
    && Climbs(links, keys, q, to, way[|way| - 2], way[|way| - 1])
    && (from > to ==> Descent(links, keys, q, way[..|way| - 1], from, to + 1))
  }

  lemma {:induction false} ReachedHasLayer(m: nat, links: Links, l: nat, a: nat, b: nat)
    requires LinksOk(m, links) && HasLayer(links, a, l) && Reaches(LayerOf(links, l), a, b)
    ensures HasLayer(links, b, l)
  {
    forall x: nat | HasLayer(links, x, l) ensures |links| !in links[x][l] {
      assert ListOk(m, links, x, l, links[x][l]);
    }
    ReachesOnLayer(m, links, l, a, b, |links|);
  }

  method ClimbLayer(ghost m: nat, links: Links, keys: seq<Key>, q: Key, cur: Cand, layer: nat) returns (next: Cand)
    requires LinksOk(m, links) && |links| == |keys| && Dimension(keys, |q|)
    requires HasLayer(links, cur.node, layer) && cur == CandOf(keys, q, cur.node)
    ensures HasLayer(links, next.node, layer) && next == CandOf(keys, q, next.node)
    ensures Climbs(links, keys, q, layer, cur.node, next.node)
  {
    LayerScorable(m, links, keys, q, layer);
    next := HillClimb(keys, LayerOf(links, layer), q, cur);
    ReachedHasLayer(m, links, layer, cur.node, next.node);
  }

  lemma {:induction false} DescentMore(links: Links, keys: seq<Key>, q: Key, way: seq<nat>, from: nat, to: nat,
                                       next: nat)
    requires from >= to && |way| == from - to + 1 && Climbs(links, keys, q, to, way[|way| - 1], next)
    requires to < from ==> Descent(links, keys, q, way, from, to + 1)
    ensures Descent(links, keys, q, way + [next], from, to)
  {
    hide Climbs;
    assert (way + [next])[..|way + [next]| - 1] == way;
  }

  method GreedyAtLayers(ghost m: nat, links: Links, keys: seq<Key>, q: Key, start: Cand, from: nat, to: nat)
    returns (cur: Cand, ghost way: seq<nat>)
    requires LinksOk(m, links) && |links| == |keys| && Dimension(keys, |q|) && from >= to
    requires HasLayer(links, start.node, from) && start == CandOf(keys, q, start.node)
    ensures HasLayer(links, cur.node, to) && cur == CandOf(keys, q, cur.node)
    ensures Descent(links, keys, q, way, from, to) && way[0] == start.node && way[|way| - 1] == cur.node
  {
    hide LinksOk;
    hide Climbs;
    cur := start;
    way := [start.node];
    var layer := from;
    while true
      invariant to <= layer <= from && HasLayer(links, cur.node, layer) && cur == CandOf(keys, q, cur.node)
      invariant |way| == from - layer + 1 && way[0] == start.node && way[|way| - 1] == cur.node
      invariant layer < from ==> Descent(links, keys, q, way, from, layer + 1)
      decreases layer
    {
      var next := ClimbLayer(m, links, keys, q, cur, layer);
      DescentMore(links, keys, q, way, from, layer, next.node);
      cur, way := next, way + [next.node];
      if layer == to {
        break;
      }
      layer := layer - 1;
    }
  }

  // ------------------------------------------------------------------ what an insertion does to the graph

  datatype Policy = Policy(selection: Selection, m: nat, ef: nat)

  function Everyone(n: nat): bool {
    true
  }

  /** One layer of an insertion: where the beam started, what it found, and the neighbours chosen from it. */
  datatype LayerVisit = LayerVisit(start: nat, beam: seq<Cand>, chosen: seq<nat>)

  ghost predicate VisitOk(p: Policy, keys: seq<Key>, grown: Links, node: nat, k: nat, v: LayerVisit)
    requires |keys| == |grown| && node < |keys|
  {
    var w := Walk(keys, LayerOf(grown, k), keys[node], v.start, p.ef, Everyone);
    && Legal(w) && HasLayer(grown, v.start, k) && v.start != node
    && BeamResult(w, 0, USIZE_MAX, v.beam)
    && Known(keys, v.beam, node)
    && v.chosen == SelectNeighbors(p.selection, keys, v.beam, node, p.m)
  }

  /** The beam below layer `k` starts at the best node of the beam on layer `k`. */
  ghost predicate Chained(visits: map<nat, LayerVisit>, k: nat) {
    && k >= 1 && k in visits && k - 1 in visits
    && visits[k].beam != [] && visits[k - 1].start == visits[k].beam[0].node
  }

  /** Every layer from `lo` up to but not including `hi` was searched, each beam starting where the beam above
      ended. */
  ghost predicate Visited(p: Policy, keys: seq<Key>, grown: Links, node: nat, lo: nat, hi: nat,
                          visits: map<nat, LayerVisit>)
    requires |keys| == |grown| && node < |keys|
  {
    && (forall k :: lo <= k < hi ==> k in visits && VisitOk(p, keys, grown, node, k, visits[k]))
    && (forall k :: lo < k < hi ==> Chained(visits, k))
  }

  /** On those layers the new node is connected to the neighbours chosen there; everything else is as it was. */
  ghost predicate Linked(p: Policy, keys: seq<Key>, grown: Links, after: Links, node: nat, lo: nat, hi: nat,
                         visits: map<nat, LayerVisit>)
    requires |keys| == |grown| && InRange(grown) && node < |keys| && Dimension(keys, |keys[node]|)
    requires forall k :: lo <= k < hi ==> k in visits
  {
    && SameShape(grown, after)
    && forall x: nat, k: nat :: HasLayer(grown, x, k) ==>
      after[x][k] ==
        if lo <= k < hi then ConnectedList(p.selection, keys, grown[x][k], x, node, DegreeCap(p.m, k),
                                           visits[k].chosen, visits[k].chosen)
        else grown[x][k]
  }

  ghost predicate Inserted(p: Policy, keys: seq<Key>, grown: Links, after: Links, node: nat, lo: nat, hi: nat,
                           visits: map<nat, LayerVisit>)
    requires |keys| == |grown| && InRange(grown) && node < |keys| && Dimension(keys, |keys[node]|)
  {
    Visited(p, keys, grown, node, lo, hi, visits) && Linked(p, keys, grown, after, node, lo, hi, visits)
  }

  /** The graph with a node that has no links yet. */
  function Grow(links: Links, level: nat): (r: Links)
    ensures |r| == |links| + 1 && |r[|links|]| == level + 1
    ensures forall x :: 0 <= x < |links| ==> r[x] == links[x]
    ensures forall l :: 0 <= l <= level ==> r[|links|][l] == []
  {
    links + [seq(level + 1, _ => [])]
  }

  lemma {:induction false} GrowOk(m: nat, links: Links, level: nat)
    requires LinksOk(m, links)
    ensures LinksOk(m, Grow(links, level))
    ensures forall x: nat, l: nat :: HasLayer(Grow(links, level), x, l) ==> |links| !in Grow(links, level)[x][l]
  {
    var grown := Grow(links, level);
    forall x: nat, l: nat | HasLayer(grown, x, l)
      ensures ListOk(m, grown, x, l, grown[x][l]) && |links| !in grown[x][l]
    {
      if x < |links| {
        assert HasLayer(links, x, l) && ListOk(m, links, x, l, links[x][l]);
        forall y | y in grown[x][l] ensures HasLayer(grown, y, l) {
          assert HasLayer(links, y, l);
        }
      }
    }
  }

  lemma {:induction false} SameLayer(a: Links, b: Links, l: nat)
    requires SameShape(a, b) && forall x: nat :: HasLayer(a, x, l) ==> a[x][l] == b[x][l]
    ensures LayerOf(a, l) == LayerOf(b, l)
  {
    forall x | 0 <= x < |a| ensures LayerOf(a, l)[x] == LayerOf(b, l)[x] {
      assert l < |a[x]| ==> HasLayer(a, x, l);
    }
  }

  /** A beam finds different nodes, and finds at least the one it starts from when everyone is admitted. */
  lemma {:induction false} BeamNodes(w: Walk, floor: nat, budget: nat, beam: seq<Cand>)
    requires Legal(w) && BeamResult(w, floor, budget, beam)
    ensures Distinct(Nodes(beam))
    ensures w.accept(w.start) && budget >= |w.layer| ==> beam != []
  {
    forall i, j | 0 <= i < j < |beam| ensures Nodes(beam)[i] != Nodes(beam)[j] {
      assert IsCand(w, beam[i]) && IsCand(w, beam[j]);
    }
    if beam == [] && w.accept(w.start) && budget >= |w.layer| {
      assert HighPath(w, beam, [w.start]);
    }
  }

  lemma {:induction false} VisitedMore(p: Policy, keys: seq<Key>, grown: Links, node: nat, layer: nat, hi: nat,
                                       visits: map<nat, LayerVisit>, v: LayerVisit)
    requires |keys| == |grown| && node < |keys|
    requires layer < hi && Visited(p, keys, grown, node, layer + 1, hi, visits)
    requires VisitOk(p, keys, grown, node, layer, v)
    requires layer + 1 < hi ==> visits[layer + 1].beam != [] && v.start == visits[layer + 1].beam[0].node
    ensures Visited(p, keys, grown, node, layer, hi, visits[layer := v])
  {
    var more := visits[layer := v];
    hide VisitOk;
    forall k | layer < k < hi ensures Chained(more, k) {
      if k > layer + 1 {
        assert Chained(visits, k);
      }
    }
  }

  lemma {:induction false} LinkedMore(p: Policy, keys: seq<Key>, grown: Links, links: Links, after: Links, node: nat,
                                      layer: nat, hi: nat, visits: map<nat, LayerVisit>, v: LayerVisit)
    requires |keys| == |grown| && InRange(grown) && InRange(links) && node < |keys| && Dimension(keys, |keys[node]|)
    requires layer < hi && forall k :: layer + 1 <= k < hi ==> k in visits
    requires Linked(p, keys, grown, links, node, layer + 1, hi, visits)
    requires Connected(p.selection, keys, p.m, links, after, node, layer, v.chosen, v.chosen)
    ensures Linked(p, keys, grown, after, node, layer, hi, visits[layer := v])
  {
    var more := visits[layer := v];
    forall x: nat, k: nat | HasLayer(grown, x, k)
      ensures after[x][k] ==
        if layer <= k < hi then ConnectedList(p.selection, keys, grown[x][k], x, node, DegreeCap(p.m, k),
                                              more[k].chosen, more[k].chosen)
        else grown[x][k]
    {
      assert HasLayer(links, x, k);
    }
  }

  /** What the beam on a layer finds can be connected: it is on the layer and does not know the new node. */
  lemma {:induction false} ChosenOk(p: Policy, keys: seq<Key>, grown: Links, node: nat, k: nat, v: LayerVisit)
    requires |keys| == |grown| && node < |keys| && p.m >= 2 && LinksOk(p.m, grown)
    requires forall x: nat :: HasLayer(grown, x, k) ==> node !in grown[x][k]
    requires VisitOk(p, keys, grown, node, k, v)
    ensures ListOk(p.m, grown, node, k, v.chosen)
    ensures forall c :: c in v.beam ==> HasLayer(grown, c.node, k) && c.node != node
  {
    var w := Walk(keys, LayerOf(grown, k), keys[node], v.start, p.ef, Everyone);
    forall c | c in v.beam ensures HasLayer(grown, c.node, k) && c.node != node {
      ReachesOnLayer(p.m, grown, k, v.start, c.node, node);
    }
    BeamNodes(w, 0, USIZE_MAX, v.beam);
    SelectionOk(p.selection, keys, v.beam, node, p.m);
    forall y | y in v.chosen ensures HasLayer(grown, y, k) && y != node {
      var i :| 0 <= i < |v.beam| && Nodes(v.beam)[i] == y;
      assert v.beam[i] in v.beam;
    }
  }

  /** Finds the neighbours of the new node on one layer. */
  method VisitLayer(p: Policy, keys: seq<Key>, links: Links, node: nat, start: nat, layer: nat) returns (v: LayerVisit)
    requires |keys| == |links| && node < |keys| && p.m >= 2 && p.ef >= 1 && LinksOk(p.m, links)
    requires Dimension(keys, |keys[node]|) && |links| <= USIZE_MAX
    requires HasLayer(links, start, layer) && start != node
    ensures VisitOk(p, keys, links, node, layer, v) && v.start == start && v.beam != []
  {
    LayerScorable(p.m, links, keys, keys[node], layer);
    var w := Walk(keys, LayerOf(links, layer), keys[node], start, p.ef, Everyone);
    var beam := SearchLayer(w, 0, USIZE_MAX);
    BeamNodes(w, 0, USIZE_MAX, beam);
    assert Known(keys, beam, node) by {
      forall i | 0 <= i < |beam| ensures beam[i].node < |keys| {
        assert IsCand(w, beam[i]);
      }
    }
    var chosen := Select(p.selection, keys, beam, node, p.m);
    v := LayerVisit(start, beam, chosen);
  }

  /** A visit of a layer that is still as it was is a visit of the original graph. */
  lemma {:induction false} VisitUnchanged(p: Policy, keys: seq<Key>, grown: Links, links: Links, node: nat, k: nat,
                                          v: LayerVisit)
    requires |keys| == |grown| && node < |keys| && SameShape(grown, links)
    requires forall x: nat :: HasLayer(grown, x, k) ==> grown[x][k] == links[x][k]
    requires VisitOk(p, keys, links, node, k, v)
    ensures VisitOk(p, keys, grown, node, k, v)
  {
    SameLayer(grown, links, k);
  }

  /** The connection of layers above `layer`, and where the next beam starts. */
  ghost predicate Building(p: Policy, keys: seq<Key>, grown: Links, links: Links, node: nat, layer: nat, hi: nat,
                           visits: map<nat, LayerVisit>, start: nat, cur: nat)
    requires |keys| == |grown| && InRange(grown) && node < |keys| && Dimension(keys, |keys[node]|)
  {
    && LinksOk(p.m, links) && Inserted(p, keys, grown, links, node, layer, hi, visits)
    && (layer > 0 ==> HasLayer(grown, cur, layer - 1) && cur != node)
    && (if layer == hi then cur == start
        else layer < hi && hi - 1 in visits && visits[hi - 1].start == start
             && layer in visits && visits[layer].beam != [] && cur == visits[layer].beam[0].node)
  }

  /** One round of the loop over layers. */
  method ConnectLayer(p: Policy, keys: seq<Key>, ghost grown: Links, links: Links, node: nat, layer: nat, ghost hi: nat,
                      ghost visits: map<nat, LayerVisit>, ghost start: nat, cur: nat)
    returns (links': Links, ghost visits': map<nat, LayerVisit>, cur': nat)
    requires |keys| == |grown| && node < |keys| && p.m >= 2 && p.ef >= 1 && LinksOk(p.m, grown) && InRange(grown)
    requires Dimension(keys, |keys[node]|) && |grown| <= USIZE_MAX && layer < hi && HasLayer(grown, node, layer)
    requires forall x: nat, l: nat :: HasLayer(grown, x, l) ==> node !in grown[x][l]
    requires Building(p, keys, grown, links, node, layer + 1, hi, visits, start, cur)
    ensures Building(p, keys, grown, links', node, layer, hi, visits', start, cur')
  {
    hide *;
    BuildingOpen(p, keys, grown, links, node, layer, hi, visits, start, cur);
    OkIsInRange(p.m, links);
    var v := VisitLayer(p, keys, links, node, cur, layer);
    VisitUnchanged(p, keys, grown, links, node, layer, v);
    ChosenOk(p, keys, grown, node, layer, v);
    ChosenOk(p, keys, links, node, layer, v);
    ListOkParts(p.m, links, node, layer, v.chosen);
    links' := Connect(p.selection, keys, p.m, links, node, layer, v.chosen);
    ConnectedOk(p.selection, keys, p.m, links, links', node, layer, v.chosen);
    VisitedMore(p, keys, grown, node, layer, hi, visits, v);
    LinkedMore(p, keys, grown, links, links', node, layer, hi, visits, v);
    visits' := visits[layer := v];
    assert v.beam[0] in v.beam;
    cur' := v.beam[0].node;
    BuildingClose(p, keys, grown, links', node, layer, hi, visits', start, cur');
  }

  lemma {:induction false} BuildingOpen(p: Policy, keys: seq<Key>, grown: Links, links: Links, node: nat, layer: nat,
                                        hi: nat, visits: map<nat, LayerVisit>, start: nat, cur: nat)
    requires |keys| == |grown| && InRange(grown) && node < |keys| && Dimension(keys, |keys[node]|)
    requires layer < hi && HasLayer(grown, node, layer)
    requires forall x: nat, l: nat :: HasLayer(grown, x, l) ==> node !in grown[x][l]
    requires Building(p, keys, grown, links, node, layer + 1, hi, visits, start, cur)
    ensures LinksOk(p.m, links) && SameShape(grown, links) && Visited(p, keys, grown, node, layer + 1, hi, visits)
    ensures forall k :: layer + 1 <= k < hi ==> k in visits
    ensures Linked(p, keys, grown, links, node, layer + 1, hi, visits)
    ensures HasLayer(links, cur, layer) && cur != node && HasLayer(links, node, layer)
    ensures if layer + 1 == hi then cur == start
            else layer + 1 in visits && hi - 1 in visits && visits[hi - 1].start == start
                 && visits[layer + 1].beam != [] && cur == visits[layer + 1].beam[0].node
    ensures forall x: nat :: HasLayer(grown, x, layer) ==> grown[x][layer] == links[x][layer]
    ensures forall x: nat :: HasLayer(links, x, layer) ==> node !in links[x][layer]
  {
    forall x: nat | HasLayer(links, x, layer) ensures node !in links[x][layer] {
      assert HasLayer(grown, x, layer);
    }
  }

  lemma {:induction false} ListOkParts(m: nat, links: Links, x: nat, l: nat, list: seq<nat>)
    requires ListOk(m, links, x, l, list)
    ensures x !in list && Distinct(list) && forall y :: y in list ==> HasLayer(links, y, l)
  {
  }

  lemma {:induction false} BuildingClose(p: Policy, keys: seq<Key>, grown: Links, links: Links, node: nat, layer: nat,
                                         hi: nat, visits: map<nat, LayerVisit>, start: nat, cur: nat)
    requires |keys| == |grown| && InRange(grown) && node < |keys| && Dimension(keys, |keys[node]|) && layer < hi
    requires LinksOk(p.m, links) && Visited(p, keys, grown, node, layer, hi, visits)
    requires forall k :: layer <= k < hi ==> k in visits
    requires Linked(p, keys, grown, links, node, layer, hi, visits)
    requires visits[hi - 1].start == start && visits[layer].beam != [] && cur == visits[layer].beam[0].node
    requires HasLayer(grown, cur, layer) && cur != node
    ensures Building(p, keys, grown, links, node, layer, hi, visits, start, cur)
  {
  }

  /** Connects the new node to every layer from `top` down. */
  method ConnectLayers(p: Policy, keys: seq<Key>, grown: Links, node: nat, start: nat, top: nat)
    returns (links: Links, ghost visits: map<nat, LayerVisit>)
    requires |keys| == |grown| && node < |keys| && p.m >= 2 && p.ef >= 1 && LinksOk(p.m, grown) && InRange(grown)
    requires Dimension(keys, |keys[node]|) && |grown| <= USIZE_MAX
    requires HasLayer(grown, start, top) && start != node && HasLayer(grown, node, top)
    requires forall x: nat, l: nat :: HasLayer(grown, x, l) ==> node !in grown[x][l]
    ensures LinksOk(p.m, links) && SameShape(grown, links)
    ensures Inserted(p, keys, grown, links, node, 0, top + 1, visits)
    ensures top in visits && visits[top].start == start
  {
    hide *;
    links, visits := grown, map[];
    var cur := start;
    BuildingStarts(p, keys, grown, node, start, top);
    for layer := top + 1 downto 0
      invariant Building(p, keys, grown, links, node, layer, top + 1, visits, start, cur)
    {
      assert HasLayer(grown, node, layer) by {
        LowerLayer(grown, node, top, layer);
      }
      links, visits, cur := ConnectLayer(p, keys, grown, links, node, layer, top + 1, visits, start, cur);
    }
    BuildingEnds(p, keys, grown, links, node, top + 1, visits, start, cur);
  }

  lemma {:induction false} LowerLayer(links: Links, x: nat, l: nat, k: nat)
    requires HasLayer(links, x, l) && k <= l
    ensures HasLayer(links, x, k)
  {
  }

  lemma {:induction false} BuildingStarts(p: Policy, keys: seq<Key>, grown: Links, node: nat, start: nat, top: nat)
    requires |keys| == |grown| && InRange(grown) && node < |keys| && Dimension(keys, |keys[node]|)
    requires LinksOk(p.m, grown) && HasLayer(grown, start, top) && start != node
    ensures Building(p, keys, grown, grown, node, top + 1, top + 1, map[], start, start)
  {
  }

  lemma {:induction false} BuildingEnds(p: Policy, keys: seq<Key>, grown: Links, links: Links, node: nat, hi: nat,
                                        visits: map<nat, LayerVisit>, start: nat, cur: nat)
    requires |keys| == |grown| && InRange(grown) && node < |keys| && Dimension(keys, |keys[node]|) && hi > 0
    requires Building(p, keys, grown, links, node, 0, hi, visits, start, cur)
    ensures LinksOk(p.m, links) && SameShape(grown, links) && Inserted(p, keys, grown, links, node, 0, hi, visits)
    ensures hi - 1 in visits && visits[hi - 1].start == start
  {
  }

  // ------------------------------------------------------------------ ids and tombstones

  ghost predicate OneToOne(ids: seq<Id>, idToNode: map<Id, nat>) {
    && (forall n :: 0 <= n < |ids| ==> ids[n] in idToNode && idToNode[ids[n]] == n)
    && (forall id :: id in idToNode ==> idToNode[id] < |ids| && ids[idToNode[id]] == id)
  }

  /** An id that is still free leaves room for one more node number in 32 bits. */
  lemma {:induction false} NodeFits(ids: seq<Id>, idToNode: map<Id, nat>, id: Id)
    requires OneToOne(ids, idToNode) && id !in idToNode
    ensures |ids| < 0x1_0000_0000
  {
    forall i, j | 0 <= i < j < |ids| ensures ids[i] != ids[j] {
      assert idToNode[ids[i]] == i && idToNode[ids[j]] == j;
    }
    Pigeonhole(ids, 0x1_0000_0000);
    assert id !in ids;
  }

  lemma {:induction false} StorageGrows(keys: seq<Key>, d: nat, key: Key, ids: seq<Id>, idToNode: map<Id, nat>, id: Id)
    requires Dimension(keys, d) && |key| == d
    requires OneToOne(ids, idToNode) && id !in idToNode
    ensures Dimension(keys + [key], d) && OneToOne(ids + [id], idToNode[id := |ids|])
  {
  }

  ghost function CountDeleted(deleted: seq<bool>): nat {
    if deleted == [] then 0
    else CountDeleted(deleted[..|deleted| - 1]) + (if deleted[|deleted| - 1] then 1 else 0)
  }

  lemma {:induction false} CountAppend(deleted: seq<bool>)
    ensures CountDeleted(deleted + [false]) == CountDeleted(deleted)
  {
    assert (deleted + [false])[..|deleted|] == deleted;
  }

  lemma {:induction false} CountSet(deleted: seq<bool>, n: nat)
    requires n < |deleted| && !deleted[n]
    ensures CountDeleted(deleted[n := true]) == CountDeleted(deleted) + 1
  {
    var last := |deleted| - 1;
    if n == last {
      assert deleted[n := true][..last] == deleted[..last];
    } else {
      CountSet(deleted[..last], n);
      assert deleted[n := true][..last] == deleted[..last][n := true];
    }
  }

  lemma {:induction false} CountAtMost(deleted: seq<bool>)
    ensures CountDeleted(deleted) <= |deleted|
  {
    if deleted != [] {
      CountAtMost(deleted[..|deleted| - 1]);
    }
  }

  // ------------------------------------------------------------------ search results

  /** Live and let through by the filter, which sees external ids. */
  predicate Admissible(ids: seq<Id>, deleted: seq<bool>, filter: Filter, n: nat) {
    n < |ids| && n < |deleted| && !deleted[n] && (filter.Some? ==> filter.value(ids[n]))
  }

  function Admission(ids: seq<Id>, deleted: seq<bool>, filter: Filter): nat -> bool {
    (n: nat) => Admissible(ids, deleted, filter, n)
  }

  /** `ef_target * 8` without overflowing, or no limit when nothing is filtered. */
  function Budget(efTarget: nat, filter: Filter): nat {
    if filter.None? then USIZE_MAX
    else if efTarget * WIDEN_FACTOR <= USIZE_MAX then efTarget * WIDEN_FACTOR
    else USIZE_MAX
  }

  function External(ids: seq<Id>, cands: seq<Cand>): (r: seq<(Id, real)>)
    requires forall i :: 0 <= i < |cands| ==> cands[i].node < |ids|
    ensures |r| == |cands| && forall i :: 0 <= i < |r| ==> r[i] == (ids[cands[i].node], cands[i].score)
  {
    seq(|cands|, i requires 0 <= i < |cands| => (ids[cands[i].node], cands[i].score))
  }

  /** The first `k` of a beam over layer 0, under external ids. */
  ghost predicate FirstK(w: Walk, ids: seq<Id>, k: nat, budget: nat, beam: seq<Cand>, out: seq<(Id, real)>)
    requires Legal(w) && |ids| == |w.layer|
  {
    && BeamResult(w, k, budget, beam)
    && |out| == (if |beam| <= k then |beam| else k)
    && forall i :: 0 <= i < |out| ==> beam[i].node < |ids| && out[i] == (ids[beam[i].node], beam[i].score)
  }

  function Truncated(w: Walk, ids: seq<Id>, k: nat, ghost budget: nat, beam: seq<Cand>): (out: seq<(Id, real)>)
    requires Legal(w) && |ids| == |w.layer| && BeamResult(w, k, budget, beam)
    ensures FirstK(w, ids, k, budget, beam, out)
  {
    assert forall i :: 0 <= i < |beam| ==> IsCand(w, beam[i]);
    External(ids, beam[..if |beam| <= k then |beam| else k])
  }

  /** The index holds the id, has no tombstone on its node, and the filter, asked about the id, lets it through. */
  ghost predicate MayShow(idToNode: map<Id, nat>, deleted: seq<bool>, filter: Filter, id: Id) {
    && id in idToNode && idToNode[id] < |deleted| && deleted[idToNode[id]] == false
    && (filter == None || filter.value(id) == true)
  }

  /** The order of results: the higher score first, and of equal ones the one inserted earlier. */
  ghost predicate InFront(idToNode: map<Id, nat>, a: (Id, real), b: (Id, real)) {
    && a.0 in idToNode && b.0 in idToNode && a.0 != b.0
    && (a.1 > b.1 || (a.1 == b.1 && idToNode[a.0] < idToNode[b.0]))
  }

  /** Every result is live, passes the filter, carries its score, and no id comes twice; better ones first. */
  lemma {:induction false} ResultsAreAdmissible(w: Walk, ids: seq<Id>, idToNode: map<Id, nat>, deleted: seq<bool>,
                                                filter: Filter, k: nat, budget: nat, beam: seq<Cand>,
                                                out: seq<(Id, real)>)
    requires Legal(w) && |ids| == |w.layer| && OneToOne(ids, idToNode) && FirstK(w, ids, k, budget, beam, out)
    requires w.accept == Admission(ids, deleted, filter)
    ensures |out| <= k
    ensures forall i :: 0 <= i < |out| ==>
      MayShow(idToNode, deleted, filter, out[i].0) && out[i].1 == Dot(w.q, w.keys[idToNode[out[i].0]])
    ensures forall i, j :: 0 <= i < j < |out| ==> InFront(idToNode, out[i], out[j])
  {
    forall i | 0 <= i < |out|
      ensures MayShow(idToNode, deleted, filter, out[i].0)
              && out[i].1 == Dot(w.q, w.keys[idToNode[out[i].0]]) && idToNode[out[i].0] == beam[i].node
    {
      assert beam[i] in beam;
      assert IsCand(w, beam[i]) && w.accept(beam[i].node);
    }
    forall i, j | 0 <= i < j < |out| ensures InFront(idToNode, out[i], out[j]) {
      assert Better(beam[i], beam[j]);
      assert IsCand(w, beam[i]) && IsCand(w, beam[j]);
    }
  }

  /** Fewer than `k` results: every live node let through that layer 0 reaches from the end of the descent is there. */
  lemma {:induction false} FewMeansAll(w: Walk, ids: seq<Id>, idToNode: map<Id, nat>, deleted: seq<bool>, filter: Filter,
                                       k: nat, budget: nat, beam: seq<Cand>, out: seq<(Id, real)>, v: nat)
    requires Legal(w) && |ids| == |w.layer| && FirstK(w, ids, k, budget, beam, out) && k <= w.ef
    requires OneToOne(ids, idToNode) && w.accept == Admission(ids, deleted, filter)
    requires |out| < k && v < |ids| && Reaches(w.layer, w.start, v) && MayShow(idToNode, deleted, filter, ids[v])
    ensures (ids[v], Dot(w.q, w.keys[v])) in out
  {
    FewResultsAreAll(w, k, budget, beam);
    assert CandOf(w.keys, w.q, v) in beam;
    var i :| 0 <= i < |beam| && beam[i] == CandOf(w.keys, w.q, v);
    assert out[i] == (ids[v], Dot(w.q, w.keys[v]));
  }

  /** A beam as wide as the index: a live node let through that layer 0 reaches is either a result, or `k` results
      are at least as good. */
  lemma {:induction false} WideIsTopK(w: Walk, ids: seq<Id>, idToNode: map<Id, nat>, deleted: seq<bool>, filter: Filter,
                                      k: nat, beam: seq<Cand>, out: seq<(Id, real)>, v: nat)
    requires Legal(w) && |ids| == |w.layer| <= USIZE_MAX && FirstK(w, ids, k, Budget(w.ef, filter), beam, out)
    requires OneToOne(ids, idToNode) && w.accept == Admission(ids, deleted, filter)
    requires w.ef >= |ids| && v < |ids| && Reaches(w.layer, w.start, v) && MayShow(idToNode, deleted, filter, ids[v])
    ensures (ids[v], Dot(w.q, w.keys[v])) in out
            || (|out| == k && forall i :: 0 <= i < |out| ==> out[i].1 >= Dot(w.q, w.keys[v]))
  {
    WideBeamFindsAll(w, k, Budget(w.ef, filter), beam);
    assert CandOf(w.keys, w.q, v) in beam;
    var j :| 0 <= j < |beam| && beam[j] == CandOf(w.keys, w.q, v);
    if j < |out| {
      assert out[j] == (ids[v], Dot(w.q, w.keys[v]));
    } else {
      forall i | 0 <= i < |out| ensures out[i].1 >= Dot(w.q, w.keys[v]) {
        assert Better(beam[i], beam[j]);
      }
    }
  }

  // ------------------------------------------------------------------ whole steps on the graph

  /** A descent from the entry down to layer `to`, or the entry itself when it is already below. */
  ghost predicate DescendsTo(links: Links, keys: seq<Key>, q: Key, entry: nat, topLevel: nat, to: nat, way: seq<nat>) {
    && |way| >= 1 && way[0] == entry
    && if topLevel >= to then Descent(links, keys, q, way, topLevel, to) else way == [entry]
  }

  method DescendTo(ghost m: nat, links: Links, keys: seq<Key>, q: Key, entry: nat, topLevel: nat, to: nat)
    returns (cur: Cand, ghost way: seq<nat>)
    requires LinksOk(m, links) && |links| == |keys| && Dimension(keys, |q|)
    requires HasLayer(links, entry, topLevel)
    ensures DescendsTo(links, keys, q, entry, topLevel, to, way) && way[|way| - 1] == cur.node
    ensures HasLayer(links, cur.node, if to <= topLevel then to else topLevel)
    ensures cur.node < |keys| && cur == CandOf(keys, q, cur.node)
  {
    hide LinksOk;
    cur := CandOf(keys, q, entry);
    way := [cur.node];
    if topLevel >= to {
      cur, way := GreedyAtLayers(m, links, keys, q, cur, topLevel, to);
    }
  }

  /** What an insertion into a non-empty graph does: a descent to the layer above the new node's, then one
      search and one connection per layer from there down. */
  ghost predicate InsertedBelow(p: Policy, keys: seq<Key>, grown: Links, after: Links, node: nat, entry: nat,
                                topLevel: nat, level: nat, way: seq<nat>, visits: map<nat, LayerVisit>)
    requires |keys| == |grown| && InRange(grown) && node < |keys| && Dimension(keys, |keys[node]|)
  {
    var top := if level <= topLevel then level else topLevel;
    && DescendsTo(grown, keys, keys[node], entry, topLevel, level + 1, way)
    && Inserted(p, keys, grown, after, node, 0, top + 1, visits)
    && top in visits && visits[top].start == way[|way| - 1]
  }

  /** What an insertion does to the lists, list by list: on the layers of the new node, it has the neighbours chosen from
      the whole of what a beam of the build width finds there; they have it added, or, when they are full, choose again;
      every other list is as it was. A node has at most twice `m` neighbours on layer 0 and `m` above. */
  ghost predicate ListAfter(p: Policy, keys: seq<Key>, node: nat, layers: nat, visits: map<nat, LayerVisit>,
                            x: nat, k: nat, before: seq<nat>, after: seq<nat>)
    requires x < |keys| && node < |keys| && Dimension(keys, |keys[node]|) && AllBelow(before, |keys|)
  {
    var cap := if k == 0 then 2 * p.m else p.m;
    if k >= layers then after == before
    else
      k in visits &&
      if x == node then
        Known(keys, visits[k].beam, node) &&
        match p.selection
        case KeepBest => BestOf(keys, node, Nodes(visits[k].beam), p.m, after)
        case Diversity => SpreadOf(keys, node, visits[k].beam, p.m, after)
      else if x !in visits[k].chosen then after == before
      else if |before| < cap then after == before + [node]
      else
        var ranked := Ranking(Scored(keys, x, before + [node]));
        Known(keys, ranked, x) &&
        match p.selection
        case KeepBest => BestOf(keys, x, before + [node], cap, after)
        case Diversity => SpreadOf(keys, x, ranked, cap, after)
  }

  lemma {:induction false} InsertLinks(p: Policy, keys: seq<Key>, grown: Links, after: Links, node: nat, hi: nat,
                                       visits: map<nat, LayerVisit>, x: nat, k: nat)
    requires |keys| == |grown| <= USIZE_MAX && InRange(grown) && node < |keys| && Dimension(keys, |keys[node]|)
    requires p.m >= 2 && LinksOk(p.m, grown)
    requires forall y: nat, l: nat :: HasLayer(grown, y, l) ==> node !in grown[y][l]
    requires Inserted(p, keys, grown, after, node, 0, hi, visits) && HasLayer(grown, x, k)
    ensures AllBelow(grown[x][k], |keys|)
    ensures ListAfter(p, keys, node, hi, visits, x, k, grown[x][k], after[x][k])
    ensures k < hi && x == node ==> after[x][k] == visits[k].chosen
  {
    hide BestOf, SpreadOf, LinksOk;
    if k < hi && x == node {
      var v := visits[k];
      assert VisitOk(p, keys, grown, node, k, v);
      BeamScored(p, keys, grown, node, k, v);
      KeepsBest(keys, v.beam, node, p.m);
      SpreadsOut(keys, v.beam, node, p.m);
    } else if k < hi && x in visits[k].chosen {
      ListKnown(p.m, grown, x, k);
      BacklinkIs(keys, x, grown[x][k], node, if k == 0 then 2 * p.m else p.m);
    }
  }

  lemma {:induction false} ListKnown(m: nat, links: Links, x: nat, k: nat)
    requires LinksOk(m, links) && HasLayer(links, x, k)
    ensures Distinct(links[x][k])
  {
    assert ListOk(m, links, x, k, links[x][k]);
  }

  lemma {:induction false} BeamScored(p: Policy, keys: seq<Key>, grown: Links, node: nat, k: nat, v: LayerVisit)
    requires |keys| == |grown| && node < |keys| && Dimension(keys, |keys[node]|)
    requires VisitOk(p, keys, grown, node, k, v)
    ensures ScoredFor(keys, v.beam, node) && Sorted(v.beam) && Distinct(Nodes(v.beam))
  {
    var w := Walk(keys, LayerOf(grown, k), keys[node], v.start, p.ef, Everyone);
    forall i | 0 <= i < |v.beam|
      ensures v.beam[i].node < |keys| && v.beam[i] == CandOf(keys, keys[node], v.beam[i].node)
    {
      assert v.beam[i] in v.beam && IsCand(w, v.beam[i]);
    }
    SortedDistinct(keys, v.beam, node);
  }

  ghost predicate ListsAfter(p: Policy, keys: seq<Key>, grown: Links, after: Links, node: nat, layers: nat,
                             visits: map<nat, LayerVisit>)
    requires |keys| == |grown| && node < |keys| && Dimension(keys, |keys[node]|)
  {
    && SameShape(grown, after)
    && forall x: nat, k: nat :: HasLayer(grown, x, k) ==>
         AllBelow(grown[x][k], |keys|) && ListAfter(p, keys, node, layers, visits, x, k, grown[x][k], after[x][k])
  }

  lemma {:induction false} InsertLists(p: Policy, keys: seq<Key>, grown: Links, after: Links, node: nat, hi: nat,
                                       visits: map<nat, LayerVisit>)
    requires |keys| == |grown| <= USIZE_MAX && InRange(grown) && node < |keys| && Dimension(keys, |keys[node]|)
    requires p.m >= 2 && LinksOk(p.m, grown)
    requires forall y: nat, l: nat :: HasLayer(grown, y, l) ==> node !in grown[y][l]
    requires Inserted(p, keys, grown, after, node, 0, hi, visits)
    ensures ListsAfter(p, keys, grown, after, node, hi, visits)
  {
    hide ListAfter, LinksOk;
    forall x: nat, k: nat | HasLayer(grown, x, k)
      ensures AllBelow(grown[x][k], |keys|) && ListAfter(p, keys, node, hi, visits, x, k, grown[x][k], after[x][k])
    {
      InsertLinks(p, keys, grown, after, node, hi, visits, x, k);
    }
  }

  method InsertBelow(p: Policy, keys: seq<Key>, links: Links, entry: nat, topLevel: nat, level: nat)
    returns (after: Links, ghost way: seq<nat>, ghost visits: map<nat, LayerVisit>)
    requires |keys| == |links| + 1 <= USIZE_MAX && p.m >= 2 && p.ef >= 1 && LinksOk(p.m, links)
    requires Dimension(keys, |keys[|links|]|) && entry < |links| && |links[entry]| == topLevel + 1
    ensures InRange(Grow(links, level)) && LinksOk(p.m, after) && SameShape(Grow(links, level), after)
    ensures InsertedBelow(p, keys, Grow(links, level), after, |links|, entry, topLevel, level, way, visits)
    ensures ListsAfter(p, keys, Grow(links, level), after, |links|, 1 + if level <= topLevel then level else topLevel,
                       visits)
  {
    hide LinksOk;
    hide InRange;
    hide Inserted;
    hide Descent;
    hide Dimension;
    var grown := Grow(links, level);
    GrowOk(p.m, links, level);
    OkIsInRange(p.m, grown);
    var cur;
    cur, way := DescendTo(p.m, grown, keys, keys[|links|], entry, topLevel, level + 1);
    assert cur.node != |links| && HasLayer(grown, |links|, level);
    var top := if level <= topLevel then level else topLevel;
    after, visits := ConnectLayers(p, keys, grown, |links|, cur.node, top);
    InsertLists(p, keys, grown, after, |links|, top + 1, visits);
  }

  lemma {:induction false} EntryTop(links: Links, entry: nat, topLevel: nat)
    requires EntryOk(links, entry, topLevel)
    ensures entry < |links| && |links[entry]| == topLevel + 1
  {
  }

  lemma {:induction false} FirstEntry(level: nat)
    ensures EntryOk(Grow([], level), 0, level)
  {
  }

  lemma {:induction false} EntryGrows(links: Links, after: Links, entry: nat, topLevel: nat, level: nat)
    requires EntryOk(links, entry, topLevel) && SameShape(Grow(links, level), after)
    ensures if level > topLevel then EntryOk(after, |links|, level) else EntryOk(after, entry, topLevel)
  {
    var grown := Grow(links, level);
    forall x | 0 <= x < |after| ensures 1 <= |after[x]| <= Max(topLevel, level) + 1 {
      assert |after[x]| == |grown[x]|;
    }
  }

  // ------------------------------------------------------------------ the index

  class HnswIndex {
    const d: nat
    const m: nat
    const efConstruction: nat
    var selection: Selection
    var keys: seq<Key>
    var ids: seq<Id>
    var links: Links
    var deleted: seq<bool>
    var deletedCount: nat
    var idToNode: map<Id, nat>
    var entry: Option<nat>
    var topLevel: nat

    ghost predicate Valid()
      reads this
    {
      && m >= 2 && efConstruction >= 1
      && |keys| == |ids| == |links| == |deleted| <= 0x1_0000_0000
      && Dimension(keys, d) && OneToOne(ids, idToNode)
      && deletedCount == CountDeleted(deleted)
      && LinksOk(m, links) && InRange(links)
      && (entry.None? <==> links == [])
      && (entry.Some? ==> EntryOk(links, entry.value, topLevel))
    }

    constructor (d: nat, m: nat, efConstruction: nat)
      ensures Valid() && ids == [] && selection == KeepBest
      ensures this.d == d && this.m == (if m < 2 then 2 else m)
      ensures this.efConstruction == (if efConstruction < 1 then 1 else efConstruction)
    {
      this.d, this.m, this.efConstruction := d, Max(m, 2), Max(efConstruction, 1);
      selection := KeepBest;
      keys, ids, links, deleted := [], [], [], [];
      deletedCount, idToNode, entry, topLevel := 0, map[], None, 0;
    }

    /** Only an empty index can change its policy. */
    method SetSelection(s: Selection) returns (r: Result<(), Error>)
      requires Valid()
      modifies this`selection
      ensures Valid()
      ensures if ids == [] then r == Ok(()) && selection == s else r == Err(InvalidArgument) && selection == old(selection)
    {
      if |ids| != 0 {
        return Err(InvalidArgument);
      }
      selection := s;
      r := Ok(());
    }

    /** Number of live vectors. */
    method Len() returns (n: nat)
      requires Valid()
      ensures n + CountDeleted(deleted) == |ids|
    {
      CountAtMost(deleted);
      n := |ids| - deletedCount;
    }

    /** Inserts a key under a new id, on a level drawn by the caller, who never draws one above 24. */
    method Insert(id: Id, key: Key, level: nat)
      returns (r: Result<(), Error>, ghost way: seq<nat>, ghost visits: map<nat, LayerVisit>)
      requires Valid() && level <= 24
      modifies this
      ensures Valid() && selection == old(selection)
      ensures |key| != d ==> r == Err(DimensionMismatch(d, |key|))
      ensures |key| == d && id in old(idToNode) ==> r == Err(DuplicateKey(id))
      ensures r.Ok? <==> |key| == d && id !in old(idToNode)
      ensures r.Err? ==> unchanged(this)
      ensures r.Ok? ==>
        && ids == old(ids) + [id] && keys == old(keys) + [key] && deleted == old(deleted) + [false]
        && deletedCount == old(deletedCount) && idToNode == old(idToNode)[id := |old(ids)|]
      ensures r.Ok? && old(entry).None? ==> links == Grow([], level) && entry == Some(0) && topLevel == level
      ensures r.Ok? && old(entry).Some? ==>
        && topLevel == (if level > old(topLevel) then level else old(topLevel))
        && entry == (if level > old(topLevel) then Some(|old(ids)|) else old(entry))
        && InRange(Grow(old(links), level))
        && InsertedBelow(Policy(selection, m, efConstruction), keys, Grow(old(links), level), links, |old(ids)|,
                         old(entry).value, old(topLevel), level, way, visits)
        && ListsAfter(Policy(selection, m, efConstruction), keys, Grow(old(links), level), links, |old(ids)|,
                      1 + if level <= old(topLevel) then level else old(topLevel), visits)
    {
      hide LinksOk;
      hide InRange;
      hide InsertedBelow;
      hide ListsAfter;
      hide OneToOne;
      hide Dimension;
      hide CountDeleted;
      hide EntryOk;
      way, visits := [], map[];
      if |key| != d {
        return Err(DimensionMismatch(d, |key|)), way, visits;
      }
      if id in idToNode {
        return Err(DuplicateKey(id)), way, visits;
      }
      NodeFits(ids, idToNode, id);
      CountAppend(deleted);
      StorageGrows(keys, d, key, ids, idToNode, id);
      ghost var before := links;
      var node := |ids|;
      keys := keys + [key];
      ids := ids + [id];
      deleted := deleted + [false];
      idToNode := idToNode[id := node];
      r := Ok(());
      if entry == None {
        GrowOk(m, links, level);
        links := Grow(links, level);
        OkIsInRange(m, links);
        FirstEntry(level);
        entry, topLevel := Some(node), level;
        return;
      }
      EntryTop(links, entry.value, topLevel);
      links, way, visits :=
        InsertBelow(Policy(selection, m, efConstruction), keys, links, entry.value, topLevel, level);
      OkIsInRange(m, links);
      EntryGrows(before, links, entry.value, topLevel, level);
      if level > topLevel {
        topLevel, entry := level, Some(node);
      }
    }

    /** Hides a key from all later results; it stays in the graph. */
    method Delete(id: Id) returns (r: Result<(), Error>)
      requires Valid()
      modifies this`deleted, this`deletedCount
      ensures Valid()
      ensures r.Ok? <==> id in idToNode && !old(deleted)[idToNode[id]]
      ensures r.Ok? ==> deleted == old(deleted)[idToNode[id] := true] && deletedCount == old(deletedCount) + 1
      ensures r.Err? ==> r == Err(KeyNotFound(id)) && unchanged(this)
    {
      if id in idToNode && !deleted[idToNode[id]] {
        CountSet(deleted, idToNode[id]);
        deleted := deleted[idToNode[id] := true];
        deletedCount := deletedCount + 1;
        r := Ok(());
      } else {
        r := Err(KeyNotFound(id));
      }
    }

    /** The best admissible keys found by a descent to layer 1 and a beam over layer 0. */
    method Search(query: Key, k: nat, ef: nat, filter: Filter)
      returns (r: Result<seq<(Id, real)>, Error>, ghost way: seq<nat>, ghost beam: seq<Cand>)
      requires Valid()
      ensures |query| != d ==> r == Err(DimensionMismatch(d, |query|))
      ensures |query| == d ==> r.Ok?
      ensures |query| == d && (ids == [] || k == 0) ==> r == Ok([])
      ensures |query| == d && ids != [] && k > 0 ==>
        && DescendsTo(links, keys, query, entry.value, topLevel, 1, way)
        && var width := if ef > k then ef else k;
           var w := Walk(keys, LayerOf(links, 0), query, way[|way| - 1], width, Admission(ids, deleted, filter));
           var budget := if filter.None? || 8 * width > 0xFFFF_FFFF_FFFF_FFFF then 0xFFFF_FFFF_FFFF_FFFF else 8 * width;
           Legal(w) && FirstK(w, ids, k, budget, beam, r.value)
      ensures |query| == d ==>
        && |r.value| <= k
        && (forall i :: 0 <= i < |r.value| ==>
              && r.value[i].0 in idToNode && !deleted[idToNode[r.value[i].0]]
              && (filter.Some? ==> filter.value(r.value[i].0))
              && r.value[i].1 == Dot(query, keys[idToNode[r.value[i].0]]))
        && (forall i, j :: 0 <= i < j < |r.value| ==> InFront(idToNode, r.value[i], r.value[j]))
      ensures |query| == d && |r.value| < k ==>
        forall id :: id in idToNode && Reaches(LayerOf(links, 0), way[|way| - 1], idToNode[id])
                     && !deleted[idToNode[id]] && (filter.Some? ==> filter.value(id))
          ==> (id, Dot(query, keys[idToNode[id]])) in r.value
    {
      hide LinksOk, InRange, Descent, CountDeleted, FirstK, Reaches;
      way, beam := [], [];
      if |query| != d {
        return Err(DimensionMismatch(d, |query|)), way, beam;
      }
      if entry == None || k == 0 {
        return Ok([]), way, beam;
      }
      var efTarget := Max(ef, k);
      var cur;
      cur, way := DescendTo(m, links, keys, query, entry.value, topLevel, 1);
      LayerScorable(m, links, keys, query, 0);
      var w := Walk(keys, LayerOf(links, 0), query, cur.node, efTarget, Admission(ids, deleted, filter));
      var acc := SearchLayer(w, k, Budget(efTarget, filter));
      r := Ok(Truncated(w, ids, k, Budget(efTarget, filter), acc));
      beam := acc;
      ResultsAreAdmissible(w, ids, idToNode, deleted, filter, k, Budget(efTarget, filter), acc, r.value);
      forall id | id in idToNode && Reaches(w.layer, w.start, idToNode[id]) && MayShow(idToNode, deleted, filter, id)
                  && |r.value| < k
        ensures (id, Dot(query, keys[idToNode[id]])) in r.value
      {
        FewMeansAll(w, ids, idToNode, deleted, filter, k, Budget(efTarget, filter), acc, r.value, idToNode[id]);
      }
    }
  }
}
