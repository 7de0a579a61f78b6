/** The layered graph of the HNSW index as a value: neighbour selection, backlink pruning, what connecting a
    node to one layer does to the graph, and the invariant that every such step keeps. */
module HnswGraph {
  import opened Counting
  import opened Vectors
  import opened HnswCandidates
  import opened HnswSearch

  /** `links[node][layer]` is the list of neighbours of `node` on `layer`. */
  type Links = seq<seq<seq<nat>>>

  datatype Selection = KeepBest | Diversity

  // ------------------------------------------------------------------ neighbour selection

  function Nodes(cands: seq<Cand>): (r: seq<nat>)
    ensures |r| == |cands| && forall i :: 0 <= i < |r| ==> r[i] == cands[i].node
  {
    seq(|cands|, i requires 0 <= i < |cands| => cands[i].node)
  }

  ghost predicate Dimension(keys: seq<Key>, d: nat) {
    forall n :: 0 <= n < |keys| ==> |keys[n]| == d
  }

  /** All nodes have keys of one dimension and the candidates are among them. */
  ghost predicate Known(keys: seq<Key>, cands: seq<Cand>, base: nat) {
    && base < |keys|
    && (forall n :: 0 <= n < |keys| ==> |keys[n]| == |keys[base]|)
    && (forall i :: 0 <= i < |cands| ==> cands[i].node < |keys|)
  }

  /** Some admitted node is closer to `c` than the base is. */
  predicate Dominated(keys: seq<Key>, c: nat, admitted: seq<nat>, base: nat)
    requires c < |keys| && base < |keys| && |keys[c]| == |keys[base]|
    requires forall k :: 0 <= k < |admitted| ==> admitted[k] < |keys| && |keys[admitted[k]]| == |keys[c]|
  {
    exists k :: 0 <= k < |admitted| && Dot(keys[c], keys[admitted[k]]) > Dot(keys[c], keys[base])
  }

  /** What Algorithm 4 has admitted after looking at the first `i` candidates. */
  function Diverse(keys: seq<Key>, cands: seq<Cand>, i: nat, base: nat, cap: nat): (out: seq<nat>)
    requires Known(keys, cands, base) && i <= |cands|
    ensures |out| <= cap && forall k :: 0 <= k < |out| ==> out[k] < |keys|
  {
    if i == 0 then []
    else
      var out := Diverse(keys, cands, i - 1, base, cap);
      var c := cands[i - 1].node;
      if |out| >= cap || c == base || Dominated(keys, c, out, base) then out else out + [c]
  }

  method IsDominated(keys: seq<Key>, c: nat, admitted: seq<nat>, base: nat) returns (dominated: bool)
    requires c < |keys| && base < |keys| && |keys[c]| == |keys[base]|
    requires forall k :: 0 <= k < |admitted| ==> admitted[k] < |keys| && |keys[admitted[k]]| == |keys[c]|
    ensures dominated == Dominated(keys, c, admitted, base)
  {
    var toBase := Dot(keys[c], keys[base]);
    for j := 0 to |admitted|
      invariant forall k :: 0 <= k < j ==> Dot(keys[c], keys[admitted[k]]) <= toBase
    {
      if Dot(keys[c], keys[admitted[j]]) > toBase {
        return true;
      }
    }
    dominated := false;
  }

  function SelectNeighbors(selection: Selection, keys: seq<Key>, cands: seq<Cand>, base: nat, cap: nat): seq<nat>
    requires Known(keys, cands, base)
  {
    if |cands| <= cap then Nodes(cands)
    else if selection == KeepBest then Nodes(cands[..cap])
    else Diverse(keys, cands, |cands|, base, cap)
  }

  ghost predicate Distinct(s: seq<nat>) {
    forall i, j :: 0 <= i < j < |s| ==> s[i] != s[j]
  }

  /** Algorithm 4 admits different candidates, never the base. */
  lemma {:induction false} DiverseDistinct(keys: seq<Key>, cands: seq<Cand>, i: nat, base: nat, cap: nat)
    requires Known(keys, cands, base) && i <= |cands| && Distinct(Nodes(cands))
    ensures
      var out := Diverse(keys, cands, i, base, cap);
      Distinct(out) && forall k :: 0 <= k < |out| ==> out[k] != base && exists j :: 0 <= j < i && cands[j].node == out[k]
  {
    hide Dominated, Known;
    if i > 0 {
      DiverseDistinct(keys, cands, i - 1, base, cap);
      var out := Diverse(keys, cands, i - 1, base, cap);
      forall k | 0 <= k < |out| ensures out[k] != cands[i - 1].node {
        var j :| 0 <= j < i - 1 && cands[j].node == out[k];
        assert Nodes(cands)[j] != Nodes(cands)[i - 1];
      }
    }
  }

  /** Nothing it admits is closer to an earlier admitted node than to the base. */
  lemma {:induction false} DiverseSpread(keys: seq<Key>, cands: seq<Cand>, i: nat, base: nat, cap: nat, a: nat, b: nat)
    requires Known(keys, cands, base) && i <= |cands|
    requires a < b < |Diverse(keys, cands, i, base, cap)|
    ensures
      var out := Diverse(keys, cands, i, base, cap);
      Dot(keys[out[b]], keys[out[a]]) <= Dot(keys[out[b]], keys[base])
  {
    var out := Diverse(keys, cands, i - 1, base, cap);
    if b < |out| {
      DiverseSpread(keys, cands, i - 1, base, cap, a, b);
    } else {
      assert !Dominated(keys, cands[i - 1].node, out, base);
    }
  }

  lemma {:induction false} DiverseGrows(keys: seq<Key>, cands: seq<Cand>, i: nat, k: nat, base: nat, cap: nat)
    requires Known(keys, cands, base) && k <= i <= |cands|
    ensures Diverse(keys, cands, k, base, cap) <= Diverse(keys, cands, i, base, cap)
  {
    if k < i {
      DiverseGrows(keys, cands, i - 1, k, base, cap);
    }
  }

  /** And it refuses a candidate only because it is the base, because a better candidate that was admitted is closer to it
      than the base is, or because `cap` better candidates were admitted. */
  lemma {:induction false} DiverseRefuses(keys: seq<Key>, cands: seq<Cand>, i: nat, base: nat, cap: nat, k: nat)
    requires Known(keys, cands, base) && i <= |cands| && k < i && Distinct(Nodes(cands))
    requires cands[k].node !in Diverse(keys, cands, i, base, cap)
    ensures LeftOut(keys, base, cands, cap, Diverse(keys, cands, i, base, cap), k)
  {
    var c, out := cands[k].node, Diverse(keys, cands, k, base, cap);
    DiverseGrows(keys, cands, i, k, base, cap);
    DiverseGrows(keys, cands, i, k + 1, base, cap);
    DiverseDistinct(keys, cands, k, base, cap);
    assert c !in Diverse(keys, cands, k + 1, base, cap);
    if c != base && Dominated(keys, c, out, base) {
      var r :| 0 <= r < |out| && Dot(keys[c], keys[out[r]]) > Dot(keys[c], keys[base]);
      var j :| 0 <= j < k && cands[j].node == out[r];
      assert out[r] in out && out[r] in Diverse(keys, cands, i, base, cap);
    }
  }

  /** The `cap` members of the pool that score best against the base, or the whole pool when it is not larger: nobody
      outside scores higher than a member, nor the same with a lower number. */
  ghost predicate BestOf(keys: seq<Key>, base: nat, pool: seq<nat>, cap: nat, kept: seq<nat>) {
    && base < |keys| && Dimension(keys, |keys[base]|) && AllBelow(pool, |keys|)
    && Distinct(kept) && |kept| == (if |pool| < cap then |pool| else cap) && (forall y :: y in kept ==> y in pool)
    && forall y, z :: y in kept && z in pool && z !in kept ==>
         var sy, sz := Dot(keys[base], keys[y]), Dot(keys[base], keys[z]);
         sy > sz || (sy == sz && y < z)
  }

  /** The candidates that Algorithm 4 keeps, best first: all of them when there is room; otherwise never the base, none
      closer to a better one kept than to the base, and one is left out only for that reason or for want of room. */
  ghost predicate SpreadOf(keys: seq<Key>, base: nat, cands: seq<Cand>, cap: nat, kept: seq<nat>)
    requires Known(keys, cands, base)
  {
    && Distinct(kept) && |kept| <= cap && (forall y :: y in kept ==> y in Nodes(cands))
    && (|cands| <= cap ==> kept == Nodes(cands))
    && (|cands| > cap ==>
          && base !in kept
          && (forall a, b :: 0 <= a < b < |kept| ==>
                kept[a] < |keys| && kept[b] < |keys| && Dot(keys[kept[b]], keys[kept[a]]) <= Dot(keys[kept[b]], keys[base]))
          && (forall k :: 0 <= k < |cands| && cands[k].node !in kept ==> LeftOut(keys, base, cands, cap, kept, k)))
  }

  /** Why a candidate is left out: it is the base, a better candidate that was kept is closer to it than the base is, or
      `cap` better candidates were kept. */
  ghost predicate LeftOut(keys: seq<Key>, base: nat, cands: seq<Cand>, cap: nat, kept: seq<nat>, k: nat)
    requires Known(keys, cands, base) && k < |cands|
  {
    var c := cands[k].node;
    || c == base
    || (exists j :: 0 <= j < k && cands[j].node in kept && Dot(keys[c], keys[cands[j].node]) > Dot(keys[c], keys[base]))
    || (|kept| == cap && forall r :: r in kept ==> exists j :: 0 <= j < k && cands[j].node == r)
  }

  /** The candidates carry their scores against the base. */
  ghost predicate ScoredFor(keys: seq<Key>, cands: seq<Cand>, base: nat) {
    && base < |keys| && Dimension(keys, |keys[base]|)
    && forall i :: 0 <= i < |cands| ==> cands[i].node < |keys| && cands[i] == CandOf(keys, keys[base], cands[i].node)
  }

  lemma {:induction false} SortedDistinct(keys: seq<Key>, cands: seq<Cand>, base: nat)
    requires ScoredFor(keys, cands, base) && Sorted(cands)
    ensures Distinct(Nodes(cands))
  {
  }

  /** Algorithm 4 spreads the links out. */
  lemma {:induction false} SpreadsOut(keys: seq<Key>, cands: seq<Cand>, base: nat, cap: nat)
    requires Known(keys, cands, base) && Distinct(Nodes(cands))
    ensures SpreadOf(keys, base, cands, cap, SelectNeighbors(Diversity, keys, cands, base, cap))
  {
    hide LeftOut, Diverse;
    var n, kept := |cands|, SelectNeighbors(Diversity, keys, cands, base, cap);
    SelectionOk(Diversity, keys, cands, base, cap);
    if n > cap {
      DiverseDistinct(keys, cands, n, base, cap);
      forall a, b | 0 <= a < b < |kept|
        ensures Dot(keys[kept[b]], keys[kept[a]]) <= Dot(keys[kept[b]], keys[base])
      {
        DiverseSpread(keys, cands, n, base, cap, a, b);
      }
      forall k | 0 <= k < n && cands[k].node !in kept ensures LeftOut(keys, base, cands, cap, kept, k) {
        DiverseRefuses(keys, cands, n, base, cap, k);
      }
    }
  }

  /** Keeping the best keeps the best. */
  lemma {:induction false} KeepsBest(keys: seq<Key>, cands: seq<Cand>, base: nat, cap: nat)
    requires ScoredFor(keys, cands, base) && Sorted(cands)
    ensures Known(keys, cands, base)
    ensures BestOf(keys, base, Nodes(cands), cap, SelectNeighbors(KeepBest, keys, cands, base, cap))
  {
    var n := if |cands| <= cap then |cands| else cap;
    var kept := SelectNeighbors(KeepBest, keys, cands, base, cap);
    SortedDistinct(keys, cands, base);
    var rest := Nodes(cands)[n..];
    assert kept == Nodes(cands)[..n] && Nodes(cands) == kept + rest;
    forall y, z | y in kept && z in Nodes(cands) && z !in kept
      ensures Dot(keys[base], keys[y]) > Dot(keys[base], keys[z])
              || (Dot(keys[base], keys[y]) == Dot(keys[base], keys[z]) && y < z)
    {
      var i :| 0 <= i < n && kept[i] == y;
      var j :| 0 <= j < |rest| && rest[j] == z;
      assert Better(cands[i], cands[n + j]);
    }
  }

  /** Under either policy the selection is at most `cap` different candidates. */
  lemma {:induction false} SelectionOk(selection: Selection, keys: seq<Key>, cands: seq<Cand>, base: nat, cap: nat)
    requires Known(keys, cands, base) && Distinct(Nodes(cands))
    ensures
      var out := SelectNeighbors(selection, keys, cands, base, cap);
      |out| <= cap && Distinct(out) && forall r :: r in out ==> r in Nodes(cands)
  {
    if |cands| > cap && selection == Diversity {
      DiverseDistinct(keys, cands, |cands|, base, cap);
      var out := Diverse(keys, cands, |cands|, base, cap);
      forall k | 0 <= k < |out| ensures out[k] in Nodes(cands) {
        var j :| 0 <= j < |cands| && cands[j].node == out[k];
        assert Nodes(cands)[j] == out[k];
      }
    } else if |cands| > cap {
      assert Nodes(cands[..cap]) == Nodes(cands)[..cap];
    }
  }

  method Select(selection: Selection, keys: seq<Key>, cands: seq<Cand>, base: nat, cap: nat) returns (out: seq<nat>)
    requires Known(keys, cands, base)
    ensures out == SelectNeighbors(selection, keys, cands, base, cap)
  {
    if selection == KeepBest {
      return Nodes(cands[..if |cands| <= cap then |cands| else cap]);
    }
    if |cands| <= cap {
      return Nodes(cands);
    }
    out := [];
    for i := 0 to |cands|
      invariant out == Diverse(keys, cands, i, base, cap)
    {
      var c := cands[i].node;
      if |out| < cap && c != base {
        var dominated := IsDominated(keys, c, out, base);
        if !dominated {
          out := out + [c];
        }
      }
    }
  }

  // ------------------------------------------------------------------ the invariant of the graph

  ghost predicate HasLayer(links: Links, x: nat, l: nat) {
    x < |links| && l < |links[x]|
  }

  function DegreeCap(m: nat, l: nat): nat {
    if l == 0 then 2 * m else m
  }

  /** At most the cap, no repetition, no self-link, and every neighbour has the layer. */
  ghost predicate ListOk(m: nat, links: Links, x: nat, l: nat, list: seq<nat>) {
    && |list| <= DegreeCap(m, l) && Distinct(list) && x !in list
    && forall y :: y in list ==> HasLayer(links, y, l)
  }

  ghost predicate LinksOk(m: nat, links: Links) {
    forall x: nat, l: nat :: HasLayer(links, x, l) ==> ListOk(m, links, x, l, links[x][l])
  }

  /** The entry is on the top level, and no node is above it. */
  ghost predicate EntryOk(links: Links, entry: nat, topLevel: nat) {
    && entry < |links| && |links[entry]| == topLevel + 1
    && forall x :: 0 <= x < |links| ==> 1 <= |links[x]| <= topLevel + 1
  }

  /** One layer of the graph; a node that does not have the layer has no neighbours there. */
  function LayerOf(links: Links, l: nat): (r: Layer)
    ensures |r| == |links|
    ensures forall x :: 0 <= x < |r| ==> r[x] == if l < |links[x]| then links[x][l] else []
  {
    seq(|links|, x requires 0 <= x < |links| => if l < |links[x]| then links[x][l] else [])
  }

  lemma {:induction false} LayerScorable(m: nat, links: Links, keys: seq<Key>, q: Key, l: nat)
    requires LinksOk(m, links) && |keys| == |links| && Dimension(keys, |q|)
    ensures Scorable(keys, LayerOf(links, l), q)
  {
    var layer := LayerOf(links, l);
    forall n, i | 0 <= n < |layer| && 0 <= i < |layer[n]| ensures layer[n][i] < |layer| {
      assert HasLayer(links, n, l);
      assert ListOk(m, links, n, l, links[n][l]);
      assert layer[n][i] in links[n][l];
    }
  }

  /** Links never lead out of a layer, nor to a node that nobody on the layer links to. */
  lemma {:induction false} ReachesOnLayer(m: nat, links: Links, l: nat, a: nat, b: nat, outsider: nat)
    requires LinksOk(m, links) && HasLayer(links, a, l) && Reaches(LayerOf(links, l), a, b)
    requires a != outsider && forall x: nat :: HasLayer(links, x, l) && x != outsider ==> outsider !in links[x][l]
    ensures HasLayer(links, b, l) && b != outsider
  {
    var layer := LayerOf(links, l);
    var s := set x: nat | x in Below(|links|) && HasLayer(links, x, l) && x != outsider;
    forall x, y | x in s && x < |layer| && y in layer[x] ensures y in s {
      assert ListOk(m, links, x, l, links[x][l]);
    }
    ReachesWithin(layer, a, b, s);
  }

  // ------------------------------------------------------------------ connecting a node to a layer

  /** The scored members of a list. */
  ghost function Scored(keys: seq<Key>, base: nat, list: seq<nat>): set<Cand>
    requires base < |keys| && Dimension(keys, |keys[base]|) && AllBelow(list, |keys|)
  {
    set x | x in list :: CandOf(keys, keys[base], x)
  }

  /** The list of `nb` after `node` is appended and, past the cap, the policy is applied again. */
  ghost function Backlink(selection: Selection, keys: seq<Key>, nb: nat, list: seq<nat>, node: nat, cap: nat): seq<nat>
    requires nb < |keys| && Dimension(keys, |keys[nb]|) && node < |keys| && AllBelow(list, |keys|)
  {
    var longer := list + [node];
    if |longer| <= cap then longer
    else
      ScoredKnown(keys, nb, longer);
      SelectNeighbors(selection, keys, Ranking(Scored(keys, nb, longer)), nb, cap)
  }

  lemma {:induction false} ScoredKnown(keys: seq<Key>, base: nat, list: seq<nat>)
    requires base < |keys| && Dimension(keys, |keys[base]|) && AllBelow(list, |keys|)
    ensures
      var ranked := Ranking(Scored(keys, base, list));
      Known(keys, ranked, base) && Distinct(Nodes(ranked)) && forall y :: y in Nodes(ranked) ==> y in list
  {
    var s := Scored(keys, base, list);
    var ranked := Ranking(s);
    forall i | 0 <= i < |ranked| ensures ranked[i].node in list && ranked[i] == CandOf(keys, keys[base], ranked[i].node) {
      assert ranked[i] in ranked;
    }
  }

  /** A node linked back to keeps its list when there is room, and otherwise, under the first policy, the best of it and
      the new node. */
  lemma {:induction false} BacklinkIs(keys: seq<Key>, nb: nat, list: seq<nat>, node: nat, cap: nat)
    requires nb < |keys| && Dimension(keys, |keys[nb]|) && node < |keys| && AllBelow(list, |keys|)
    requires Distinct(list) && node !in list
    ensures |list| < cap ==> forall s: Selection :: Backlink(s, keys, nb, list, node, cap) == list + [node]
    ensures |list| >= cap ==> BestOf(keys, nb, list + [node], cap, Backlink(KeepBest, keys, nb, list, node, cap))
    ensures
      var ranked := Ranking(Scored(keys, nb, list + [node]));
      |list| >= cap ==> Known(keys, ranked, nb)
                        && SpreadOf(keys, nb, ranked, cap, Backlink(Diversity, keys, nb, list, node, cap))
  {
    hide SpreadOf;
    var longer := list + [node];
    if |longer| > cap {
      ScoredKnown(keys, nb, longer);
      SpreadsOut(keys, Ranking(Scored(keys, nb, longer)), nb, cap);
      var s := Scored(keys, nb, longer);
      var ranked := Ranking(s);
      forall i | 0 <= i < |ranked| ensures ranked[i].node < |keys| && ranked[i] == CandOf(keys, keys[nb], ranked[i].node) {
        assert ranked[i] in s;
      }
      KeepsBest(keys, ranked, nb, cap);
      forall y | y in longer ensures y in Nodes(ranked) {
        assert CandOf(keys, keys[nb], y) in ranked;
        var i :| 0 <= i < |ranked| && ranked[i] == CandOf(keys, keys[nb], y);
        assert Nodes(ranked)[i] == y;
      }
      SameSize(longer, Nodes(ranked));
    }
  }

  lemma {:induction false} SameSize(a: seq<nat>, b: seq<nat>)
    requires Distinct(a) && Distinct(b) && forall x :: x in a <==> x in b
    ensures |a| == |b|
  {
    DistinctSize(a);
    DistinctSize(b);
    assert Members(a) == Members(b);
  }

  lemma {:induction false} BacklinkOk(selection: Selection, keys: seq<Key>, nb: nat, list: seq<nat>, node: nat,
                                      cap: nat)
    requires nb < |keys| && Dimension(keys, |keys[nb]|) && node < |keys| && AllBelow(list, |keys|)
    requires Distinct(list) && node !in list && nb !in list && nb != node
    ensures
      var out := Backlink(selection, keys, nb, list, node, cap);
      |out| <= cap && Distinct(out) && nb !in out && forall y :: y in out ==> y in list || y == node
  {
    var longer := list + [node];
    if |longer| > cap {
      ScoredKnown(keys, nb, longer);
      SelectionOk(selection, keys, Ranking(Scored(keys, nb, longer)), nb, cap);
    }
  }

  method Relink(selection: Selection, keys: seq<Key>, nb: nat, list: seq<nat>, node: nat, cap: nat)
    returns (kept: seq<nat>)
    requires nb < |keys| && Dimension(keys, |keys[nb]|) && node < |keys| && AllBelow(list, |keys|)
    ensures kept == Backlink(selection, keys, nb, list, node, cap)
  {
    var longer := list + [node];
    if |longer| <= cap {
      return longer;
    }
    var scored: set<Cand> := {};
    for i := 0 to |longer|
      invariant scored == Scored(keys, nb, longer[..i])
    {
      assert longer[..i + 1] == longer[..i] + [longer[i]];
      scored := scored + {CandOf(keys, keys[nb], longer[i])};
    }
    assert longer[..|longer|] == longer;
    ScoredKnown(keys, nb, longer);
    var ranked := Drain(scored);
    kept := Select(selection, keys, ranked, nb, cap);
  }

  /** The list of `x` on the layer once `node` has the neighbours `own` there and has been linked back from
      the nodes in `linked`. */
  ghost function ConnectedList(selection: Selection, keys: seq<Key>, list: seq<nat>, x: nat, node: nat, cap: nat,
                               own: seq<nat>, linked: seq<nat>): seq<nat>
    requires x < |keys| && node < |keys| && Dimension(keys, |keys[x]|) && AllBelow(list, |keys|)
  {
    if x == node then own
    else if x in linked then Backlink(selection, keys, x, list, node, cap)
    else list
  }

  ghost predicate SameShape(a: Links, b: Links) {
    |a| == |b| && forall x :: 0 <= x < |a| ==> |a[x]| == |b[x]|
  }

  /** Every list names nodes of the graph. */
  ghost predicate InRange(links: Links) {
    forall x: nat, l: nat :: HasLayer(links, x, l) ==> AllBelow(links[x][l], |links|)
  }

  /** What connecting `node` to layer `l` does to the whole graph. */
  ghost predicate Connected(selection: Selection, keys: seq<Key>, m: nat, before: Links, after: Links,
                            node: nat, l: nat, own: seq<nat>, linked: seq<nat>)
    requires |before| == |keys| && InRange(before) && node < |keys| && Dimension(keys, |keys[node]|)
  {
    && SameShape(before, after)
    && forall x: nat, k: nat :: HasLayer(before, x, k) ==>
      after[x][k] == if k == l then ConnectedList(selection, keys, before[x][k], x, node, DegreeCap(m, l), own, linked)
                     else before[x][k]
  }

  /** The graph with one list replaced. */
  function WithList(links: Links, x: nat, l: nat, list: seq<nat>): (r: Links)
    requires x < |links| && l < |links[x]|
    ensures SameShape(links, r)
    ensures forall y: nat, k: nat :: HasLayer(links, y, k) ==> r[y][k] == if y == x && k == l then list else links[y][k]
  {
    links[x := links[x][l := list]]
  }

  method Connect(selection: Selection, keys: seq<Key>, m: nat, before: Links, node: nat, l: nat, own: seq<nat>)
    returns (links: Links)
    requires |before| == |keys| && InRange(before) && node < |keys| && Dimension(keys, |keys[node]|)
    requires HasLayer(before, node, l) && node !in own && Distinct(own) && forall y :: y in own ==> HasLayer(before, y, l)
    ensures Connected(selection, keys, m, before, links, node, l, own, own)
  {
    links := WithList(before, node, l, own);
    for i := 0 to |own|
      invariant Connected(selection, keys, m, before, links, node, l, own, own[..i])
    {
      var nb := own[i];
      assert nb in own && HasLayer(before, nb, l) && nb !in own[..i];
      assert links[nb][l] == before[nb][l];
      var kept := Relink(selection, keys, nb, links[nb][l], node, DegreeCap(m, l));
      ConnectOne(selection, keys, m, before, links, node, l, own, i, kept);
      links := WithList(links, nb, l, kept);
    }
    assert own[..|own|] == own;
  }

  lemma {:induction false} ConnectOne(selection: Selection, keys: seq<Key>, m: nat, before: Links, links: Links,
                                      node: nat, l: nat, own: seq<nat>, i: nat, kept: seq<nat>)
    requires |before| == |keys| && InRange(before) && node < |keys| && Dimension(keys, |keys[node]|)
    requires i < |own| && own[i] != node && HasLayer(before, own[i], l) && own[i] !in own[..i]
    requires Connected(selection, keys, m, before, links, node, l, own, own[..i])
    requires kept == Backlink(selection, keys, own[i], before[own[i]][l], node, DegreeCap(m, l))
    ensures Connected(selection, keys, m, before, WithList(links, own[i], l, kept), node, l, own, own[..i + 1])
  {
    var after := WithList(links, own[i], l, kept);
    assert own[..i + 1] == own[..i] + [own[i]];
    forall x: nat, k: nat | HasLayer(before, x, k)
      ensures after[x][k] == if k == l
        then ConnectedList(selection, keys, before[x][k], x, node, DegreeCap(m, l), own, own[..i + 1])
        else before[x][k]
    {
      assert HasLayer(links, x, k);
    }
  }

  /** Connecting keeps the invariant, provided the new neighbours have the layer and nobody there knew `node`. */
  lemma {:induction false} ConnectedOk(selection: Selection, keys: seq<Key>, m: nat, before: Links, after: Links,
                    node: nat, l: nat, own: seq<nat>)
    requires |before| == |keys| && InRange(before) && HasLayer(before, node, l) && Dimension(keys, |keys[node]|)
    requires LinksOk(m, before) && ListOk(m, before, node, l, own)
    requires forall x: nat :: HasLayer(before, x, l) ==> node !in before[x][l]
    requires Connected(selection, keys, m, before, after, node, l, own, own)
    ensures LinksOk(m, after)
  {
    forall x: nat, k: nat | HasLayer(after, x, k) ensures ListOk(m, after, x, k, after[x][k]) {
      assert HasLayer(before, x, k) && ListOk(m, before, x, k, before[x][k]);
      if k == l && x != node && x in own {
        BacklinkOk(selection, keys, x, before[x][k], node, DegreeCap(m, l));
      }
      forall y | y in after[x][k] ensures HasLayer(after, y, k) {
        assert HasLayer(before, y, k);
      }
    }
  }

  lemma {:induction false} OkIsInRange(m: nat, links: Links)
    requires LinksOk(m, links)
    ensures InRange(links)
  {
    forall x: nat, l: nat | HasLayer(links, x, l) ensures AllBelow(links[x][l], |links|) {
      assert ListOk(m, links, x, l, links[x][l]);
      forall i | 0 <= i < |links[x][l]| ensures links[x][l][i] < |links| {
        assert links[x][l][i] in links[x][l];
      }
    }
  }
}
