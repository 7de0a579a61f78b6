/** A climb seen as its turns: on which side of its sibling the node is, level by level, levels where it is promoted left
    out. The turns decide what a climb computes, so they decide what an index stands for, also one that is out of range. */
module MerkleTurns {
  import opened Wrappers
  import opened MerkleTree

  /** True where the node is on the left. */
  function Turns(i: nat, n: nat): seq<bool>
    decreases n
  {
    if n <= 1 then []
    else (if Promoted(i, n) then [] else [i % 2 == 0]) + Turns(i / 2, (n + 1) / 2)
  }

  function Joined<T>(hh: T, left: bool, p: T): (T, T) {
    if left then (hh, p) else (p, hh)
  }

  /** What the turns make of a node hash and the siblings. */
  function Value<T>(g: (T, T) -> T, hh: T, turns: seq<bool>, proof: seq<T>): T
    requires |turns| <= |proof|
    decreases |turns|
  {
    if turns == [] then hh
    else
      var t := |turns| - 1;
      var p := Joined(Value(g, hh, turns[..t], proof), turns[t], proof[t]);
      g(p.0, p.1)
  }

  ghost function ValuePairs<T>(g: (T, T) -> T, hh: T, turns: seq<bool>, proof: seq<T>): set<(T, T)>
    requires |turns| <= |proof|
    decreases |turns|
  {
    if turns == [] then {}
    else
      var t := |turns| - 1;
      ValuePairs(g, hh, turns[..t], proof) + {Joined(Value(g, hh, turns[..t], proof), turns[t], proof[t])}
  }

  /** The first turn first. */
  lemma {:induction false} ValueFront<T>(g: (T, T) -> T, hh: T, left: bool, turns: seq<bool>, proof: seq<T>)
    requires |turns| < |proof|
    ensures
      var p := Joined(hh, left, proof[0]);
      && Value(g, hh, [left] + turns, proof) == Value(g, g(p.0, p.1), turns, proof[1..])
      && ValuePairs(g, hh, [left] + turns, proof) == {p} + ValuePairs(g, g(p.0, p.1), turns, proof[1..])
    decreases |turns|
  {
    var all := [left] + turns;
    if turns == [] {
      assert all == [left] && all[..0] == [];
      assert Value(g, hh, all[..0], proof) == hh;
    } else {
      var t := |turns| - 1;
      assert all[..t + 1] == [left] + turns[..t] && all[t + 1] == turns[t] && proof[t + 1] == proof[1..][t];
      ValueFront(g, hh, left, turns[..t], proof);
    }
  }

  /** What the verifier computes depends on the index only through its turns. */
  lemma {:induction false} ClimbIsValue<T>(g: (T, T) -> T, hh: T, i: nat, n: nat, proof: seq<T>)
    ensures Climb(g, hh, i, n, proof)
            == if |Turns(i, n)| <= |proof| then Some(Value(g, hh, Turns(i, n), proof)) else None
    ensures |Turns(i, n)| <= |proof| ==> ClimbPairs(g, hh, i, n, proof) == ValuePairs(g, hh, Turns(i, n), proof)
    decreases n
  {
    if n >= 2 {
      var rest := Turns(i / 2, (n + 1) / 2);
      if Promoted(i, n) {
        assert Turns(i, n) == rest;
        ClimbIsValue(g, hh, i / 2, (n + 1) / 2, proof);
      } else if proof != [] {
        var p := StepPair(hh, i, proof[0]);
        ClimbIsValue(g, g(p.0, p.1), i / 2, (n + 1) / 2, proof[1..]);
        if |rest| < |proof| {
          ValueFront(g, hh, i % 2 == 0, rest, proof);
        }
      }
    }
  }

  // ------------------------------------------------------------------ the turns of a leaf

  /** The turns read off the recursive tree: the last one tells the half. */
  function TreeTurns(m: nat, n: nat): seq<bool>
    requires m < n
    decreases n
  {
    if n == 1 then []
    else
      var k := Split(n);
      if m < k then TreeTurns(m, k) + [true] else TreeTurns(m - k, n - k) + [false]
  }

  function FirstTurn(m: nat, n: nat): seq<bool> {
    if Promoted(m, n) then [] else [m % 2 == 0]
  }

  lemma {:induction false} TreeTurnsUp(m: nat, n: nat)
    requires n >= 2 && m < n
    ensures TreeTurns(m, n) == FirstTurn(m, n) + TreeTurns(m / 2, (n + 1) / 2)
    decreases n
  {
    var k := Split(n);
    if n == 2 {
      assert k == 1 && TreeTurns(0, 1) == [];
    } else {
      SplitHalves(n);
      var h := k / 2;
      assert k == 2 * h && Split((n + 1) / 2) == h;
      if m < k {
        TreeTurnsUp(m, k);
        assert FirstTurn(m, k) == FirstTurn(m, n);
        assert (FirstTurn(m, n) + TreeTurns(m / 2, h)) + [true] == FirstTurn(m, n) + (TreeTurns(m / 2, h) + [true]);
      } else {
        assert (m - k) / 2 == m / 2 - h && (n - k + 1) / 2 == (n + 1) / 2 - h && (m - k) % 2 == m % 2;
        if n - k >= 2 {
          TreeTurnsUp(m - k, n - k);
          assert FirstTurn(m - k, n - k) == FirstTurn(m, n);
          var up := TreeTurns(m / 2 - h, (n + 1) / 2 - h);
          assert (FirstTurn(m, n) + up) + [false] == FirstTurn(m, n) + (up + [false]);
        }
      }
    }
  }

  lemma {:induction false} TurnsOfLeaf(m: nat, n: nat)
    requires m < n
    ensures Turns(m, n) == TreeTurns(m, n)
    decreases n
  {
    if n >= 2 {
      TreeTurnsUp(m, n);
      TurnsOfLeaf(m / 2, (n + 1) / 2);
    }
  }

  /** Different leaves have different turns. */
  lemma {:induction false} TurnsApart(a: nat, b: nat, n: nat)
    requires a < n && b < n && TreeTurns(a, n) == TreeTurns(b, n)
    ensures a == b
    decreases n
  {
    if n >= 2 {
      var k := Split(n);
      var s, t := TreeTurns(a, n), TreeTurns(b, n);
      assert s[|s| - 1] == (a < k) && t[|t| - 1] == (b < k);
      assert s[..|s| - 1] == t[..|t| - 1];
      if a < k {
        assert TreeTurns(a, k) == s[..|s| - 1] && TreeTurns(b, k) == t[..|t| - 1];
        TurnsApart(a, b, k);
      } else {
        assert TreeTurns(a - k, n - k) == s[..|s| - 1] && TreeTurns(b - k, n - k) == t[..|t| - 1];
        TurnsApart(a - k, b - k, n - k);
      }
    }
  }

  // ------------------------------------------------------------------ soundness for any turns

  lemma {:induction false} NoTurns<T>(g: (T, T) -> T, leaves: seq<T>)
    requires leaves != []
    ensures |leaves| == 1 ==> TreeTurns(0, 1) == [] && Path(g, 0, leaves) == []
  {
  }

  /** Turns that arrive at the tree hash are those of a leaf, started there and read its audit path, or there is evidence of
      a clash. */
  lemma {:induction false} ValueSound<T(!new)>(g: (T, T) -> T, hh: T, turns: seq<bool>, proof: seq<T>, leaves: seq<T>)
    returns (e: Evidence<T>, k: nat)
    requires leaves != [] && |turns| <= |proof| && Value(g, hh, turns, proof) == Mth(g, leaves)
    ensures Supported(g, e, Elements(leaves) + {hh}, Pairs(g, leaves) + ValuePairs(g, hh, turns, proof))
    ensures e.Agree? ==>
      k < |leaves| && hh == leaves[k] && TreeTurns(k, |leaves|) == turns && Path(g, k, leaves) == proof[..|turns|]
    decreases |leaves|
  {
    hide TreeTurns, Path;
    NoTurns(g, leaves);
    k := 0;
    if turns == [] {
      if |leaves| == 1 {
        e := Agree;
      } else {
        var s := Split(|leaves|);
        e := LeafIsNode(hh, (Mth(g, leaves[..s]), Mth(g, leaves[s..])));
      }
    } else {
      var t := |turns| - 1;
      var p := Joined(Value(g, hh, turns[..t], proof), turns[t], proof[t]);
      if |leaves| == 1 {
        e := LeafIsNode(leaves[0], p);
      } else {
        var s := Split(|leaves|);
        var q := (Mth(g, leaves[..s]), Mth(g, leaves[s..]));
        if p != q {
          e := PairClash(Clash(p, q));
        } else {
          var half := if turns[t] then leaves[..s] else leaves[s..];
          e, k := ValueSound(g, hh, turns[..t], proof, half);
          SupportedByMore(g, e, Elements(half) + {hh}, Elements(leaves) + {hh},
                          Pairs(g, half) + ValuePairs(g, hh, turns[..t], proof),
                          Pairs(g, leaves) + ValuePairs(g, hh, turns, proof));
          if e.Agree? {
            OneLevelUp(g, turns, proof, leaves, k);
            k := if turns[t] then k else k + s;
          }
        }
      }
    }
  }

  lemma {:induction false} SupportedByMore<T(!new)>(g: (T, T) -> T, e: Evidence<T>, leaves: set<T>, leaves': set<T>,
                                                    pairs: set<(T, T)>, pairs': set<(T, T)>)
    requires Supported(g, e, leaves, pairs) && leaves <= leaves' && pairs <= pairs'
    ensures Supported(g, e, leaves', pairs')
  {
  }

  /** A leaf of one half, with the sibling half's hash as the last of the path. */
  lemma {:induction false} OneLevelUp<T>(g: (T, T) -> T, turns: seq<bool>, proof: seq<T>, leaves: seq<T>, k: nat)
    requires |leaves| >= 2 && turns != [] && |turns| <= |proof|
    requires
      var t, s := |turns| - 1, Split(|leaves|);
      var half := if turns[t] then leaves[..s] else leaves[s..];
      && k < |half| && TreeTurns(k, |half|) == turns[..t] && Path(g, k, half) == proof[..t]
      && proof[t] == Mth(g, if turns[t] then leaves[s..] else leaves[..s])
    ensures
      var t, s := |turns| - 1, Split(|leaves|);
      var m := if turns[t] then k else k + s;
      m < |leaves| && TreeTurns(m, |leaves|) == turns && Path(g, m, leaves) == proof[..|turns|]
  {
    hide Mth;
    var t := |turns| - 1;
    assert proof[..t + 1] == proof[..t] + [proof[t]] && turns == turns[..t] + [turns[t]];
  }
}
