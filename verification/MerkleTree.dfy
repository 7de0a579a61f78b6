/** Section 2.1 of RFC 6962 on an arbitrary pairing function: the Merkle Tree Hash, the audit path of
    section 2.1.1, the level-by-level computation that agrees with both, and the climb of a verifier.
    Which strings are hashed is left to `MerkleAuditLog`. */
module MerkleTree {
  import opened Wrappers

  // ------------------------------------------------------------------ the split point

  ghost predicate PowerOfTwo(k: nat) {
    k == 1 || (k > 1 && k % 2 == 0 && PowerOfTwo(k / 2))
  }

  function SplitFrom(n: nat, k: nat): (r: nat)
    requires 0 < k < n
    ensures k <= r < n
    decreases n - k
  {
    if 2 * k < n then SplitFrom(n, 2 * k) else k
  }

  /** The largest power of two smaller than `n`. */
  function Split(n: nat): (k: nat)
    requires n >= 2
    ensures 0 < k < n
  {
    SplitFrom(n, 1)
  }

  lemma {:induction false} SplitFromIsPower(n: nat, k: nat)
    requires 0 < k < n && PowerOfTwo(k)
    ensures n <= 2 * SplitFrom(n, k) && PowerOfTwo(SplitFrom(n, k))
    decreases n - k
  {
    if 2 * k < n {
      assert 2 * k / 2 == k && 2 * k % 2 == 0;
      SplitFromIsPower(n, 2 * k);
    }
  }

  /** `Split(n)` is the power of two that section 2.1 asks for, and the only one. */
  lemma {:induction false} SplitIsLargestPower(n: nat, k: nat)
    requires n >= 2
    ensures PowerOfTwo(k) && k < n <= 2 * k <==> k == Split(n)
  {
    SplitFromIsPower(n, 1);
    if PowerOfTwo(k) && k < n <= 2 * k {
      if k < Split(n) {
        PowersApart(k, Split(n));
      } else if Split(n) < k {
        PowersApart(Split(n), k);
      }
    }
  }

  lemma {:induction false} PowersApart(a: nat, b: nat)
    requires PowerOfTwo(a) && PowerOfTwo(b) && a < b
    ensures 2 * a <= b
  {
    if a > 1 {
      PowersApart(a / 2, b / 2);
    }
  }

  /** Halving the number of leaves halves the split point. */
  lemma {:induction false} SplitHalves(n: nat)
    requires n >= 3
    ensures Split(n) % 2 == 0 && Split((n + 1) / 2) == Split(n) / 2
  {
    SplitIsLargestPower(n, Split(n));
    SplitIsLargestPower((n + 1) / 2, Split(n) / 2);
  }

  // ------------------------------------------------------------------ MTH and PATH

  /** `MTH` over at least one leaf hash. */
  function Mth<T>(g: (T, T) -> T, leaves: seq<T>): T
    requires leaves != []
    decreases |leaves|
  {
    if |leaves| == 1 then leaves[0]
    else
      var k := Split(|leaves|);
      g(Mth(g, leaves[..k]), Mth(g, leaves[k..]))
  }

  /** `PATH(m, D[n])`. */
  function Path<T>(g: (T, T) -> T, m: nat, leaves: seq<T>): seq<T>
    requires m < |leaves|
    decreases |leaves|
  {
    if |leaves| == 1 then []
    else
      var k := Split(|leaves|);
      if m < k then Path(g, m, leaves[..k]) + [Mth(g, leaves[k..])]
      else Path(g, m - k, leaves[k..]) + [Mth(g, leaves[..k])]
  }

  /** `PATH` and `MTH` over a sequence given as the two parts it splits into. */
  lemma {:induction false} SplitParts<T>(g: (T, T) -> T, m: nat, a: seq<T>, b: seq<T>)
    requires a != [] && b != [] && Split(|a| + |b|) == |a| && m < |a| + |b|
    ensures Mth(g, a + b) == g(Mth(g, a), Mth(g, b))
    ensures Path(g, m, a + b) == if m < |a| then Path(g, m, a) + [Mth(g, b)] else Path(g, m - |a|, b) + [Mth(g, a)]
  {
    assert (a + b)[..|a|] == a && (a + b)[|a|..] == b;
  }

  // ------------------------------------------------------------------ one level up

  function UpAt<T>(g: (T, T) -> T, level: seq<T>, i: nat): T
    requires 2 * i < |level|
  {
    if 2 * i + 1 < |level| then g(level[2 * i], level[2 * i + 1]) else level[2 * i]
  }

  /** The next level: neighbours paired, an odd last node promoted. */
  function Up<T>(g: (T, T) -> T, level: seq<T>): (next: seq<T>)
    ensures |next| == (|level| + 1) / 2
  {
    seq((|level| + 1) / 2, i requires 0 <= i < (|level| + 1) / 2 => UpAt(g, level, i))
  }

  /** An even cut of a level is a cut of the level above it. */
  lemma {:induction false} UpCut<T>(g: (T, T) -> T, level: seq<T>, h: nat)
    requires 2 * h <= |level|
    ensures Up(g, level) == Up(g, level[..2 * h]) + Up(g, level[2 * h..])
    ensures |Up(g, level[..2 * h])| == h
  {
    var lo, hi := level[..2 * h], level[2 * h..];
    assert |Up(g, lo)| == h;
    forall i | 0 <= i < |Up(g, level)| ensures Up(g, level)[i] == (Up(g, lo) + Up(g, hi))[i] {
      if i < h {
        assert UpAt(g, level, i) == UpAt(g, lo, i);
      } else {
        assert UpAt(g, level, i) == UpAt(g, hi, i - h);
      }
    }
  }

  /** The level above splits where this level splits; returns half the split point. */
  lemma {:induction false} UpSplits<T>(g: (T, T) -> T, level: seq<T>) returns (h: nat)
    requires |level| >= 3
    ensures Split(|level|) == 2 * h && Split(|Up(g, level)|) == h
    ensures Up(g, level) == Up(g, level[..2 * h]) + Up(g, level[2 * h..])
    ensures |Up(g, level[..2 * h])| == h
  {
    SplitHalves(|level|);
    h := Split(|level|) / 2;
    UpSplitsAt(g, level, h);
  }

  lemma {:induction false} UpSplitsAt<T>(g: (T, T) -> T, level: seq<T>, h: nat)
    requires |level| >= 3 && Split(|level|) == 2 * h
    ensures Split(|Up(g, level)|) == h
    ensures Up(g, level) == Up(g, level[..2 * h]) + Up(g, level[2 * h..])
    ensures |Up(g, level[..2 * h])| == h
  {
    SplitHalves(|level|);
    UpCut(g, level, h);
  }

  lemma {:induction false} UpOfOne<T>(g: (T, T) -> T, level: seq<T>)
    requires |level| == 1
    ensures Up(g, level) == level
  {
    assert Up(g, level)[0] == level[0];
  }

  lemma {:induction false} UpOfTwo<T>(g: (T, T) -> T, level: seq<T>)
    requires |level| == 2
    ensures Up(g, level) == [g(level[0], level[1])]
    ensures Split(2) == 1
  {
    assert Up(g, level)[0] == g(level[0], level[1]);
  }

  /** Going one level up does not change the tree hash. */
  lemma {:induction false} MthUp<T>(g: (T, T) -> T, level: seq<T>)
    requires |level| >= 1
    ensures Mth(g, Up(g, level)) == Mth(g, level)
    decreases |level|
  {
    if |level| == 1 {
      UpOfOne(g, level);
    } else if |level| == 2 {
      UpOfTwo(g, level);
    } else {
      var h := UpSplits(g, level);
      MthUp(g, level[..2 * h]);
      MthUp(g, level[2 * h..]);
      SplitParts(g, 0, Up(g, level[..2 * h]), Up(g, level[2 * h..]));
    }
  }

  /** The sibling read at one level, if there is one. */
  function Sibling<T>(level: seq<T>, m: nat): seq<T>
    requires m < |level|
  {
    if m % 2 == 1 then [level[m - 1]]
    else if m + 1 < |level| then [level[m + 1]]
    else []
  }

  lemma {:induction false} SiblingCut<T>(level: seq<T>, m: nat, k: nat)
    requires m < |level| && k < |level| && k % 2 == 0
    ensures m < k ==> Sibling(level[..k], m) == Sibling(level, m)
    ensures m >= k ==> Sibling(level[k..], m - k) == Sibling(level, m)
  {
  }

  lemma {:induction false} Regroup<T>(a: seq<T>, b: seq<T>, c: seq<T>)
    ensures (a + b) + c == a + (b + c)
  {
  }

  /** The audit path is the sibling at the bottom level followed by the audit path one level up. */
  lemma {:induction false} PathUp<T>(g: (T, T) -> T, m: nat, level: seq<T>)
    requires |level| >= 2 && m < |level|
    ensures Path(g, m, level) == Sibling(level, m) + Path(g, m / 2, Up(g, level))
    decreases |level|
  {
    hide *;
    if |level| == 2 {
      PathOfTwo(g, m, level);
      assert Sibling(level, m) + [] == Sibling(level, m);
    } else {
      var h := UpSplits(g, level);
      PathOfUp(g, m / 2, level, h);
      if m < 2 * h {
        PathUpLeft(g, m, level, h);
      } else {
        PathUpRight(g, m, level, h);
      }
    }
  }

  lemma {:induction false} PathOfTwo<T>(g: (T, T) -> T, m: nat, level: seq<T>)
    requires |level| == 2 && m < 2
    ensures Path(g, m, level) == Sibling(level, m) && Path(g, m / 2, Up(g, level)) == []
  {
    UpOfTwo(g, level);
    assert level[..1] == [level[0]] && level[1..] == [level[1]];
  }

  lemma {:induction false} PathUpLeft<T>(g: (T, T) -> T, m: nat, level: seq<T>, h: nat)
    requires |level| >= 3 && m < 2 * h == Split(|level|)
    ensures Path(g, m, level) == Sibling(level, m) + (Path(g, m / 2, Up(g, level[..2 * h])) + [Mth(g, level[2 * h..])])
    decreases |level|, 0
  {
    SiblingCut(level, m, 2 * h);
    PathUp(g, m, level[..2 * h]);
    Regroup(Sibling(level, m), Path(g, m / 2, Up(g, level[..2 * h])), [Mth(g, level[2 * h..])]);
  }

  lemma {:induction false} PathRight<T>(g: (T, T) -> T, m: nat, level: seq<T>, k: nat)
    requires |level| >= 2 && k == Split(|level|) && k <= m < |level|
    ensures Path(g, m, level) == Path(g, m - k, level[k..]) + [Mth(g, level[..k])]
  {
  }

  lemma {:induction false} HalfCut(m: nat, h: nat)
    requires 2 * h <= m
    ensures (m - 2 * h) / 2 == m / 2 - h && h <= m / 2
  {
  }

  lemma {:induction false} SiblingOfOne<T>(level: seq<T>)
    requires |level| == 1
    ensures Sibling(level, 0) == []
  {
  }

  lemma {:induction false} PathOfOne<T>(g: (T, T) -> T, level: seq<T>)
    requires |level| == 1
    ensures Path(g, 0, level) == []
  {
  }

  lemma {:induction false} PathUpRight<T>(g: (T, T) -> T, m: nat, level: seq<T>, h: nat)
    requires |level| >= 3 && Split(|level|) == 2 * h <= m < |level|
    ensures Path(g, m - 2 * h, level[2 * h..]) == Sibling(level, m) + Path(g, m / 2 - h, Up(g, level[2 * h..]))
    ensures Path(g, m, level)
            == Sibling(level, m) + (Path(g, m / 2 - h, Up(g, level[2 * h..])) + [Mth(g, level[..2 * h])])
    decreases |level|, 0
  {
    hide *;
    var hi := level[2 * h..];
    PathRight(g, m, level, 2 * h);
    HalfCut(m, h);
    SiblingCut(level, m, 2 * h);
    if |hi| >= 2 {
      PathUp(g, m - 2 * h, hi);
    } else {
      UpOfOne(g, hi);
      PathOfOne(g, hi);
      SiblingOfOne(hi);
    }
    Regroup(Sibling(level, m), Path(g, m / 2 - h, Up(g, hi)), [Mth(g, level[..2 * h])]);
  }

  /** Reading one sibling and going one level up leaves the audit path of what is still to be read. */
  lemma {:induction false} PathStep<T>(g: (T, T) -> T, done: seq<T>, m: nat, level: seq<T>)
    requires |level| >= 2 && m < |level|
    ensures (done + Sibling(level, m)) + Path(g, m / 2, Up(g, level)) == done + Path(g, m, level)
  {
    PathUp(g, m, level);
    Regroup(done, Sibling(level, m), Path(g, m / 2, Up(g, level)));
  }

  /** `PATH` one level up, split where the lower level splits. */
  lemma {:induction false} PathOfUp<T>(g: (T, T) -> T, q: nat, level: seq<T>, h: nat)
    requires |level| >= 3 && Split(|level|) == 2 * h && q < |Up(g, level)|
    ensures Path(g, q, Up(g, level)) ==
      if q < h then Path(g, q, Up(g, level[..2 * h])) + [Mth(g, level[2 * h..])]
      else Path(g, q - h, Up(g, level[2 * h..])) + [Mth(g, level[..2 * h])]
  {
    var lo, hi := level[..2 * h], level[2 * h..];
    UpSplitsAt(g, level, h);
    MthUp(g, lo);
    MthUp(g, hi);
    SplitParts(g, q, Up(g, lo), Up(g, hi));
  }

  // ------------------------------------------------------------------ the pairs that are hashed

  /** Every pair that is combined in the tree over `leaves`. */
  ghost function Pairs<T>(g: (T, T) -> T, leaves: seq<T>): set<(T, T)>
    decreases |leaves|
  {
    if |leaves| < 2 then {}
    else
      var k := Split(|leaves|);
      {(Mth(g, leaves[..k]), Mth(g, leaves[k..]))} + Pairs(g, leaves[..k]) + Pairs(g, leaves[k..])
  }

  /** The pairs of the level above, and the pair under each of its nodes, are all among them. */
  lemma {:induction false} PairsUp<T>(g: (T, T) -> T, level: seq<T>)
    requires |level| >= 2
    ensures Pairs(g, Up(g, level)) <= Pairs(g, level)
    decreases |level|
  {
    if |level| == 2 {
      UpOfTwo(g, level);
    } else {
      var h := UpSplits(g, level);
      var lo, hi := level[..2 * h], level[2 * h..];
      MthUp(g, lo);
      MthUp(g, hi);
      assert Up(g, level)[..h] == Up(g, lo) && Up(g, level)[h..] == Up(g, hi);
      PairsUp(g, lo);
      if |hi| >= 2 {
        PairsUp(g, hi);
      } else {
        UpOfOne(g, hi);
      }
    }
  }

  lemma {:induction false} BottomPairs<T>(g: (T, T) -> T, level: seq<T>, i: nat)
    requires 2 * i + 1 < |level|
    ensures (level[2 * i], level[2 * i + 1]) in Pairs(g, level)
    decreases |level|
  {
    if |level| == 2 {
      UpOfTwo(g, level);
      assert level[..1] == [level[0]] && level[1..] == [level[1]];
    } else {
      var h := UpSplits(g, level);
      if i < h {
        BottomPairs(g, level[..2 * h], i);
      } else {
        BottomPairs(g, level[2 * h..], i - h);
      }
    }
  }

  /** Two different pairs with the same image. */
  datatype Clash<T> = Clash(p: (T, T), q: (T, T))

  ghost predicate Collides<T>(g: (T, T) -> T, c: Clash<T>) {
    c.p != c.q && g(c.p.0, c.p.1) == g(c.q.0, c.q.1)
  }

  // ------------------------------------------------------------------ climbing a proof

  predicate Promoted(i: nat, n: nat) {
    i % 2 == 0 && i + 1 >= n
  }

  /** The pair a verifier combines at this level. */
  function StepPair<T>(hh: T, i: nat, p: T): (T, T) {
    if i % 2 == 0 then (hh, p) else (p, hh)
  }

  /** What the verifier computes from a node hash: the root it implies, or nothing when the proof is too
      short. */
  function Climb<T>(g: (T, T) -> T, hh: T, i: nat, n: nat, proof: seq<T>): Option<T>
    decreases n
  {
    if n <= 1 then Some(hh)
    else if Promoted(i, n) then Climb(g, hh, i / 2, (n + 1) / 2, proof)
    else if proof == [] then None
    else
      var p := StepPair(hh, i, proof[0]);
      Climb(g, g(p.0, p.1), i / 2, (n + 1) / 2, proof[1..])
  }

  /** The pairs the verifier combines on the way. */
  ghost function ClimbPairs<T>(g: (T, T) -> T, hh: T, i: nat, n: nat, proof: seq<T>): set<(T, T)>
    decreases n
  {
    if n <= 1 then {}
    else if Promoted(i, n) then ClimbPairs(g, hh, i / 2, (n + 1) / 2, proof)
    else if proof == [] then {}
    else
      var p := StepPair(hh, i, proof[0]);
      {p} + ClimbPairs(g, g(p.0, p.1), i / 2, (n + 1) / 2, proof[1..])
  }

  /** Completeness: the audit path, with anything after it, climbs from the `m`-th leaf to the tree hash. */
  lemma {:induction false} ClimbComplete<T>(g: (T, T) -> T, m: nat, level: seq<T>, extra: seq<T>)
    requires m < |level|
    ensures Climb(g, level[m], m, |level|, Path(g, m, level) + extra) == Some(Mth(g, level))
    decreases |level|
  {
    if |level| >= 2 {
      var up := Up(g, level);
      PathUp(g, m, level);
      MthUp(g, level);
      ClimbComplete(g, m / 2, up, extra);
      Regroup(Sibling(level, m), Path(g, m / 2, up), extra);
      ClimbOne(g, m, level, Path(g, m / 2, up) + extra);
    }
  }

  /** The first step of a climb along the right sibling arrives at the node above. */
  lemma {:induction false} ClimbOne<T>(g: (T, T) -> T, m: nat, level: seq<T>, rest: seq<T>)
    requires m < |level| && |level| >= 2
    ensures Climb(g, level[m], m, |level|, Sibling(level, m) + rest)
            == Climb(g, Up(g, level)[m / 2], m / 2, (|level| + 1) / 2, rest)
  {
    assert Up(g, level)[m / 2] == UpAt(g, level, m / 2);
    if Promoted(m, |level|) {
      assert Sibling(level, m) + rest == rest;
    } else {
      assert (Sibling(level, m) + rest)[1..] == rest;
    }
  }

  /** Soundness, by reduction: a climb that arrives at the tree hash started at the `m`-th leaf and read the
      audit path, or else it exhibits a collision between a pair it combined and a pair of the tree. */
  lemma {:induction false} ClimbSound<T>(g: (T, T) -> T, hh: T, m: nat, level: seq<T>, proof: seq<T>)
    returns (clash: Option<Clash<T>>)
    requires m < |level| && Climb(g, hh, m, |level|, proof) == Some(Mth(g, level))
    ensures clash.None? ==> hh == level[m] && Path(g, m, level) <= proof
    ensures clash.Some? ==> Collides(g, clash.value)
                            && clash.value.p in ClimbPairs(g, hh, m, |level|, proof) && clash.value.q in Pairs(g, level)
    decreases |level|
  {
    clash := None;
    if |level| >= 2 {
      var up := Up(g, level);
      MthUp(g, level);
      PairsUp(g, level);
      if Promoted(m, |level|) {
        clash := ClimbSound(g, hh, m / 2, up, proof);
        PathUp(g, m, level);
        assert up[m / 2] == UpAt(g, level, m / 2);
      } else {
        var p := StepPair(hh, m, proof[0]);
        clash := ClimbSound(g, g(p.0, p.1), m / 2, up, proof[1..]);
        if clash == None {
          clash := StepSound(g, hh, m, level, proof);
        }
      }
    }
  }

  /** The same for the first level, given that the rest of the climb was the audit path. */
  lemma {:induction false} StepSound<T>(g: (T, T) -> T, hh: T, m: nat, level: seq<T>, proof: seq<T>)
    returns (clash: Option<Clash<T>>)
    requires m < |level| && |level| >= 2 && !Promoted(m, |level|) && proof != []
    requires var p := StepPair(hh, m, proof[0]); g(p.0, p.1) == Up(g, level)[m / 2]
    requires Path(g, m / 2, Up(g, level)) <= proof[1..]
    ensures clash.None? ==> hh == level[m] && Path(g, m, level) <= proof
    ensures clash.Some? ==> Collides(g, clash.value) && clash.value.p == StepPair(hh, m, proof[0])
                            && clash.value.q in Pairs(g, level)
  {
    var q := m / 2;
    var pair := (level[2 * q], level[2 * q + 1]);
    assert g(pair.0, pair.1) == UpAt(g, level, q) == Up(g, level)[q];
    if StepPair(hh, m, proof[0]) == pair {
      clash := None;
      PathUp(g, m, level);
      RightPair(hh, m, level, proof[0]);
      PrefixCons(proof[0], Path(g, q, Up(g, level)), proof);
    } else {
      BottomPairs(g, level, q);
      clash := Some(Clash(StepPair(hh, m, proof[0]), pair));
    }
  }

  lemma {:induction false} RightPair<T>(hh: T, m: nat, level: seq<T>, p0: T)
    requires m < |level| && !Promoted(m, |level|)
    requires StepPair(hh, m, p0) == (level[2 * (m / 2)], level[2 * (m / 2) + 1])
    ensures hh == level[m] && [p0] == Sibling(level, m)
  {
  }

  lemma {:induction false} PrefixCons<T>(x: T, rest: seq<T>, all: seq<T>)
    requires all != [] && all[0] == x && rest <= all[1..]
    ensures [x] + rest <= all
  {
    assert all == [x] + all[1..];
  }

  // ------------------------------------------------------------------ what a tree hash determines

  /** Why two computations of one hash may disagree: two pairs collide, or a leaf is also a node. */
  datatype Evidence<T> = Agree | PairClash(clash: Clash<T>) | LeafIsNode(leaf: T, node: (T, T))

  ghost predicate Supported<T(!new)>(g: (T, T) -> T, e: Evidence<T>, leaves: set<T>, pairs: set<(T, T)>) {
    match e
    case Agree => true
    case PairClash(c) => Collides(g, c) && c.p in pairs && c.q in pairs
    case LeafIsNode(leaf, node) => leaf in leaves && node in pairs && leaf == g(node.0, node.1)
  }

  ghost function Elements<T>(s: seq<T>): set<T> {
    set x | x in s
  }

  /** Two trees of any sizes with one tree hash have the same leaves, or there is evidence of a clash. */
  lemma {:induction false} SameTree<T(!new)>(g: (T, T) -> T, a: seq<T>, b: seq<T>) returns (e: Evidence<T>)
    requires a != [] && b != [] && Mth(g, a) == Mth(g, b)
    ensures e.Agree? ==> a == b
    ensures Supported(g, e, Elements(a) + Elements(b), Pairs(g, a) + Pairs(g, b))
    decreases |a|
  {
    if |a| == 1 || |b| == 1 {
      e := OneLeaf(g, a, b);
    } else {
      var i, j := Split(|a|), Split(|b|);
      var p, q := (Mth(g, a[..i]), Mth(g, a[i..])), (Mth(g, b[..j]), Mth(g, b[j..]));
      if p != q {
        e := PairClash(Clash(p, q));
      } else {
        e := SameTree(g, a[..i], b[..j]);
        if e.Agree? {
          e := SameTree(g, a[i..], b[j..]);
          SameParts(a, i, b, j);
        }
      }
    }
  }

  lemma {:induction false} SameParts<T>(a: seq<T>, i: nat, b: seq<T>, j: nat)
    requires i <= |a| && j <= |b|
    ensures a[..i] == b[..j] && a[i..] == b[j..] ==> a == b
  {
    assert a == a[..i] + a[i..] && b == b[..j] + b[j..];
  }

  lemma {:induction false} OneLeaf<T(!new)>(g: (T, T) -> T, a: seq<T>, b: seq<T>) returns (e: Evidence<T>)
    requires a != [] && b != [] && (|a| == 1 || |b| == 1) && Mth(g, a) == Mth(g, b)
    ensures e.Agree? ==> a == b
    ensures Supported(g, e, Elements(a) + Elements(b), Pairs(g, a) + Pairs(g, b))
  {
    if |a| == |b| {
      e := Agree;
    } else if |a| == 1 {
      var j := Split(|b|);
      e := LeafIsNode(a[0], (Mth(g, b[..j]), Mth(g, b[j..])));
    } else {
      var i := Split(|a|);
      e := LeafIsNode(b[0], (Mth(g, a[..i]), Mth(g, a[i..])));
    }
  }

  // ------------------------------------------------------------------ a climb from any index

  /** The combinations of a climb, first one first. */
  ghost function Steps<T>(g: (T, T) -> T, hh: T, i: nat, n: nat, proof: seq<T>): seq<(T, T)>
    decreases n
  {
    if n <= 1 then []
    else if Promoted(i, n) then Steps(g, hh, i / 2, (n + 1) / 2, proof)
    else if proof == [] then []
    else
      var p := StepPair(hh, i, proof[0]);
      [p] + Steps(g, g(p.0, p.1), i / 2, (n + 1) / 2, proof[1..])
  }

  /** A chain of combinations: each one uses the result of the one before it. */
  ghost predicate Chain<T>(g: (T, T) -> T, hh: T, steps: seq<(T, T)>, top: T)
    decreases |steps|
  {
    if steps == [] then hh == top
    else
      var p := steps[|steps| - 1];
      top == g(p.0, p.1) && (Chain(g, hh, steps[..|steps| - 1], p.0) || Chain(g, hh, steps[..|steps| - 1], p.1))
  }

  lemma {:induction false} ChainFirst<T>(g: (T, T) -> T, hh: T, p: (T, T), rest: seq<(T, T)>, top: T)
    requires (hh == p.0 || hh == p.1) && Chain(g, g(p.0, p.1), rest, top)
    ensures Chain(g, hh, [p] + rest, top)
    decreases |rest|
  {
    var all := [p] + rest;
    if rest == [] {
      assert all == [p] && all[..0] == [];
    } else {
      var q := rest[|rest| - 1];
      var most := rest[..|rest| - 1];
      assert all[..|all| - 1] == [p] + most;
      if Chain(g, g(p.0, p.1), most, q.0) {
        ChainFirst(g, hh, p, most, q.0);
      } else {
        ChainFirst(g, hh, p, most, q.1);
      }
    }
  }

  /** A finished climb, from any index, is a chain of the pairs it combined. */
  lemma {:induction false} ClimbIsChain<T>(g: (T, T) -> T, hh: T, i: nat, n: nat, proof: seq<T>)
    requires Climb(g, hh, i, n, proof).Some?
    ensures Chain(g, hh, Steps(g, hh, i, n, proof), Climb(g, hh, i, n, proof).value)
    ensures forall p :: p in Steps(g, hh, i, n, proof) ==> p in ClimbPairs(g, hh, i, n, proof)
    decreases n
  {
    if n >= 2 {
      if Promoted(i, n) {
        ClimbIsChain(g, hh, i / 2, (n + 1) / 2, proof);
      } else {
        var p := StepPair(hh, i, proof[0]);
        ClimbIsChain(g, g(p.0, p.1), i / 2, (n + 1) / 2, proof[1..]);
        ChainFirst(g, hh, p, Steps(g, g(p.0, p.1), i / 2, (n + 1) / 2, proof[1..]), Climb(g, hh, i, n, proof).value);
      }
    }
  }

  /** A chain that ends at a tree hash starts at one of the leaves, or there is evidence of a clash. */
  lemma {:induction false} ChainFromLeaf<T(!new)>(g: (T, T) -> T, hh: T, steps: seq<(T, T)>, leaves: seq<T>)
    returns (e: Evidence<T>)
    requires leaves != [] && Chain(g, hh, steps, Mth(g, leaves))
    ensures e.Agree? ==> hh in leaves
    ensures Supported(g, e, Elements(leaves) + {hh}, Pairs(g, leaves) + Elements(steps))
    decreases |steps|
  {
    if steps == [] {
      if |leaves| == 1 {
        e := Agree;
      } else {
        var k := Split(|leaves|);
        e := LeafIsNode(hh, (Mth(g, leaves[..k]), Mth(g, leaves[k..])));
      }
    } else {
      var p := steps[|steps| - 1];
      if |leaves| == 1 {
        e := LeafIsNode(leaves[0], p);
      } else {
        var k := Split(|leaves|);
        var q := (Mth(g, leaves[..k]), Mth(g, leaves[k..]));
        if p != q {
          e := PairClash(Clash(p, q));
        } else if Chain(g, hh, steps[..|steps| - 1], q.0) {
          e := ChainFromLeaf(g, hh, steps[..|steps| - 1], leaves[..k]);
        } else {
          e := ChainFromLeaf(g, hh, steps[..|steps| - 1], leaves[k..]);
        }
      }
    }
  }
}
