/** The append-only audit log: leaves hashed with a 0x00 prefix, nodes with a 0x01 prefix, a root, inclusion
    proofs, and a verifier that sees only a payload, an index, a size, a proof and a root.

    The hash function is a parameter. It is never assumed injective (32-byte results make that impossible):
    every guarantee is stated on the finite set of strings that the parties involved really hash. */
module MerkleAuditLog {
  import opened Wrappers
  import opened Bytes
  import opened MerkleTree
  import opened MerkleTurns

  type Hash = s: bytes | |s| == 32 witness seq(32, _ => 0)

  type Hasher = bytes -> Hash

  function LeafInput(payload: bytes): bytes {
    [0] + payload
  }

  function NodeInput(l: Hash, r: Hash): bytes {
    [1] + l + r
  }

  function LeafHash(h: Hasher, payload: bytes): Hash {
    h(LeafInput(payload))
  }

  function NodeHash(h: Hasher): (Hash, Hash) -> Hash {
    (l, r) => h(NodeInput(l, r))
  }

  function LeafHashes(h: Hasher, payloads: seq<bytes>): (r: seq<Hash>)
    ensures |r| == |payloads|
    ensures forall i :: 0 <= i < |r| ==> r[i] == LeafHash(h, payloads[i])
  {
    seq(|payloads|, i requires 0 <= i < |payloads| => LeafHash(h, payloads[i]))
  }

  /** The Merkle Tree Hash of section 2.1 of RFC 6962 over a list of entries, the empty one included. */
  function TreeHash(h: Hasher, payloads: seq<bytes>): Hash {
    if payloads == [] then h([]) else Mth(NodeHash(h), LeafHashes(h, payloads))
  }

  /** `PATH(m, D[n])` of section 2.1.1 of RFC 6962. */
  function AuditPath(h: Hasher, m: nat, payloads: seq<bytes>): seq<Hash>
    requires m < |payloads|
  {
    Path(NodeHash(h), m, LeafHashes(h, payloads))
  }

  /** Section 2.1 of RFC 6962 written out in bytes: the hash of the empty string for no entries, 0x00 in front of one entry,
      and otherwise 0x01 in front of the hash of the left part and then that of the right part. */
  ghost function Mth6962(h: Hasher, d: seq<bytes>): Hash
    decreases |d|
  {
    if |d| == 0 then h([])
    else if |d| == 1 then h([0] + d[0])
    else h([1] + Mth6962(h, d[..Split(|d|)]) + Mth6962(h, d[Split(|d|)..]))
  }

  /** Section 2.1.1: the path inside one's own part, and then the hash of the other part. */
  ghost function Path6962(h: Hasher, m: nat, d: seq<bytes>): seq<Hash>
    requires m < |d|
    decreases |d|
  {
    if |d| == 1 then []
    else if m < Split(|d|) then Path6962(h, m, d[..Split(|d|)]) + [Mth6962(h, d[Split(|d|)..])]
    else Path6962(h, m - Split(|d|), d[Split(|d|)..]) + [Mth6962(h, d[..Split(|d|)])]
  }

  lemma {:induction false} LeafHashesSplit(h: Hasher, d: seq<bytes>, k: nat)
    requires k <= |d|
    ensures LeafHashes(h, d)[..k] == LeafHashes(h, d[..k]) && LeafHashes(h, d)[k..] == LeafHashes(h, d[k..])
  {
  }

  /** The log's root is the one RFC 6962 gives, byte for byte. */
  lemma {:induction false} TreeHashIs(h: Hasher, d: seq<bytes>)
    ensures TreeHash(h, d) == Mth6962(h, d)
    decreases |d|
  {
    if |d| >= 2 {
      var k, g, leaves := Split(|d|), NodeHash(h), LeafHashes(h, d);
      LeafHashesSplit(h, d, k);
      TreeHashIs(h, d[..k]);
      TreeHashIs(h, d[k..]);
      var l, r := Mth6962(h, d[..k]), Mth6962(h, d[k..]);
      assert Mth(g, leaves[..k]) == l && Mth(g, leaves[k..]) == r;
      assert Mth(g, leaves) == g(l, r) == h(NodeInput(l, r));
      assert Mth6962(h, d) == h([1] + l + r);
    }
  }

  /** And its proofs are the paths of RFC 6962. */
  lemma {:induction false} AuditPathIs(h: Hasher, m: nat, d: seq<bytes>)
    requires m < |d|
    ensures AuditPath(h, m, d) == Path6962(h, m, d)
    decreases |d|
  {
    if |d| >= 2 {
      var k := Split(|d|);
      LeafHashesSplit(h, d, k);
      TreeHashIs(h, d[..k]);
      TreeHashIs(h, d[k..]);
      if m < k {
        AuditPathIs(h, m, d[..k]);
      } else {
        AuditPathIs(h, m - k, d[k..]);
      }
    }
  }

  /** What the verifier decides. */
  predicate Accepts(h: Hasher, payload: bytes, idx: nat, n: nat, proof: seq<Hash>, root: Hash) {
    n > 0 && Climb(NodeHash(h), LeafHash(h, payload), idx, n, proof) == Some(root)
  }

  // ------------------------------------------------------------------ the strings that are hashed

  ghost function NodeInputs(pairs: set<(Hash, Hash)>): set<bytes> {
    set p | p in pairs :: NodeInput(p.0, p.1)
  }

  ghost function LeafInputs(payloads: seq<bytes>): set<bytes> {
    set i | 0 <= i < |payloads| :: LeafInput(payloads[i])
  }

  /** Every string hashed for the root of a log. */
  ghost function HashedByLog(h: Hasher, payloads: seq<bytes>): set<bytes> {
    if payloads == [] then {[]}
    else LeafInputs(payloads) + NodeInputs(Pairs(NodeHash(h), LeafHashes(h, payloads)))
  }

  /** Every string hashed by one verification. */
  ghost function HashedByVerify(h: Hasher, payload: bytes, idx: nat, n: nat, proof: seq<Hash>): set<bytes> {
    {LeafInput(payload)} + NodeInputs(ClimbPairs(NodeHash(h), LeafHash(h, payload), idx, n, proof))
  }

  /** No two different strings of `strings` have one hash. */
  ghost predicate NoCollision(h: Hasher, strings: set<bytes>) {
    forall x, y :: x in strings && y in strings && h(x) == h(y) ==> x == y
  }

  lemma {:induction false} NodeInputInjective(a: (Hash, Hash), b: (Hash, Hash))
    requires NodeInput(a.0, a.1) == NodeInput(b.0, b.1)
    ensures a == b
  {
    var x, y := NodeInput(a.0, a.1), NodeInput(b.0, b.1);
    assert x[1..33] == a.0 && y[1..33] == b.0;
    assert x[33..] == a.1 && y[33..] == b.1;
  }

  lemma {:induction false} LeafInputInjective(a: bytes, b: bytes)
    requires LeafInput(a) == LeafInput(b)
    ensures a == b
  {
    assert LeafInput(a)[1..] == a && LeafInput(b)[1..] == b;
  }

  /** Without a collision there is no clash between the two pairs. */
  lemma {:induction false} PairsDoNotClash(h: Hasher, strings: set<bytes>, c: Clash<Hash>, pairs: set<(Hash, Hash)>)
    requires NoCollision(h, strings) && NodeInputs(pairs) <= strings && c.p in pairs && c.q in pairs
    ensures !Collides(NodeHash(h), c)
  {
    var x, y := NodeInput(c.p.0, c.p.1), NodeInput(c.q.0, c.q.1);
    assert x in NodeInputs(pairs) && y in NodeInputs(pairs);
    if x == y {
      NodeInputInjective(c.p, c.q);
    }
  }

  /** Without a collision no leaf hash is a node hash: the first byte keeps the two kinds apart. */
  lemma {:induction false} LeafIsNoNode(h: Hasher, strings: set<bytes>, payload: bytes, p: (Hash, Hash))
    requires NoCollision(h, strings) && LeafInput(payload) in strings && NodeInput(p.0, p.1) in strings
    ensures LeafHash(h, payload) != NodeHash(h)(p.0, p.1)
  {
    assert LeafInput(payload)[0] == 0 && NodeInput(p.0, p.1)[0] == 1;
  }

  /** Without a collision every piece of evidence of a clash is refuted. */
  lemma {:induction false} NoEvidence(h: Hasher, strings: set<bytes>, e: Evidence<Hash>, payloads: seq<bytes>,
                                      leaves: set<Hash>, pairs: set<(Hash, Hash)>)
    requires NoCollision(h, strings) && LeafInputs(payloads) + NodeInputs(pairs) <= strings
    requires leaves <= Elements(LeafHashes(h, payloads))
    requires Supported(NodeHash(h), e, leaves, pairs)
    ensures e.Agree?
  {
    match e
    case Agree =>
    case PairClash(c) =>
      PairsDoNotClash(h, strings, c, pairs);
    case LeafIsNode(leaf, node) =>
      var i :| 0 <= i < |payloads| && LeafHashes(h, payloads)[i] == leaf;
      assert LeafInput(payloads[i]) in LeafInputs(payloads);
      assert NodeInput(node.0, node.1) in NodeInputs(pairs);
      LeafIsNoNode(h, strings, payloads[i], node);
  }

  lemma {:induction false} SameLeavesSamePayloads(h: Hasher, strings: set<bytes>, a: seq<bytes>, b: seq<bytes>)
    requires NoCollision(h, strings) && LeafInputs(a) <= strings && LeafInputs(b) <= strings
    requires LeafHashes(h, a) == LeafHashes(h, b)
    ensures a == b
  {
    assert |a| == |LeafHashes(h, a)| == |b|;
    forall i | 0 <= i < |a| ensures a[i] == b[i] {
      assert LeafHashes(h, a)[i] == LeafHashes(h, b)[i];
      assert LeafInput(a[i]) in LeafInputs(a) && LeafInput(b[i]) in LeafInputs(b);
      LeafInputInjective(a[i], b[i]);
    }
  }

  // ------------------------------------------------------------------ the guarantees

  /** Completeness: the proof of an entry is accepted, whatever follows it. */
  lemma {:induction false} ProofIsAccepted(h: Hasher, payloads: seq<bytes>, m: nat, extra: seq<Hash>)
    requires m < |payloads|
    ensures Accepts(h, payloads[m], m, |payloads|, AuditPath(h, m, payloads) + extra, TreeHash(h, payloads))
  {
    ClimbComplete(NodeHash(h), m, LeafHashes(h, payloads), extra);
  }

  /** Soundness and completeness: for an index inside the log, the verifier accepts exactly the logged payload
      with the audit path, up to trailing proof entries that it never reads. */
  lemma {:induction false} AcceptsExactly(h: Hasher, payloads: seq<bytes>, payload: bytes, idx: nat, proof: seq<Hash>)
    requires idx < |payloads|
    requires NoCollision(h, HashedByLog(h, payloads) + HashedByVerify(h, payload, idx, |payloads|, proof))
    ensures Accepts(h, payload, idx, |payloads|, proof, TreeHash(h, payloads))
            <==> payload == payloads[idx] && AuditPath(h, idx, payloads) <= proof
  {
    var leaves := LeafHashes(h, payloads);
    if payload == payloads[idx] && AuditPath(h, idx, payloads) <= proof {
      var path := AuditPath(h, idx, payloads);
      assert proof == path + proof[|path|..];
      ProofIsAccepted(h, payloads, idx, proof[|path|..]);
    }
    if Accepts(h, payload, idx, |payloads|, proof, TreeHash(h, payloads)) {
      AcceptedAtIndex(h, payloads, payload, idx, proof);
    }
  }

  lemma {:induction false} AcceptedAtIndex(h: Hasher, payloads: seq<bytes>, payload: bytes, idx: nat, proof: seq<Hash>)
    requires idx < |payloads|
    requires NoCollision(h, HashedByLog(h, payloads) + HashedByVerify(h, payload, idx, |payloads|, proof))
    requires Accepts(h, payload, idx, |payloads|, proof, TreeHash(h, payloads))
    ensures payload == payloads[idx] && AuditPath(h, idx, payloads) <= proof
  {
    var g, leaves := NodeHash(h), LeafHashes(h, payloads);
    var strings := HashedByLog(h, payloads) + HashedByVerify(h, payload, idx, |payloads|, proof);
    var clash := ClimbSound(g, LeafHash(h, payload), idx, leaves, proof);
    if clash.Some? {
      var pairs := Pairs(g, leaves) + ClimbPairs(g, LeafHash(h, payload), idx, |payloads|, proof);
      PairsDoNotClash(h, strings, clash.value, pairs);
    }
    assert LeafInput(payloads[idx]) in LeafInputs(payloads);
    LeafInputInjective(payload, payloads[idx]);
  }

  /** The verifier does not compare the index with the size, and acceptance for an index outside the log says
      nothing about that index; but whatever the index, the payload is one that was logged. */
  lemma {:induction false} AcceptedWasLogged(h: Hasher, payloads: seq<bytes>, payload: bytes, idx: nat,
                                             proof: seq<Hash>)
    requires payloads != []
    requires NoCollision(h, HashedByLog(h, payloads) + HashedByVerify(h, payload, idx, |payloads|, proof))
    requires Accepts(h, payload, idx, |payloads|, proof, TreeHash(h, payloads))
    ensures payload in payloads
  {
    var g, leaves, hh := NodeHash(h), LeafHashes(h, payloads), LeafHash(h, payload);
    var strings := HashedByLog(h, payloads) + HashedByVerify(h, payload, idx, |payloads|, proof);
    var steps := Steps(g, hh, idx, |payloads|, proof);
    ClimbIsChain(g, hh, idx, |payloads|, proof);
    var e := ChainFromLeaf(g, hh, steps, leaves);
    var pairs := Pairs(g, leaves) + Elements(steps);
    AlsoHashed(h, payloads, payload);
    assert NodeInputs(pairs) <= strings;
    NoEvidence(h, strings, e, payloads + [payload], Elements(leaves) + {hh}, pairs);
    var i :| 0 <= i < |leaves| && leaves[i] == hh;
    assert LeafInput(payloads[i]) in LeafInputs(payloads);
    LeafInputInjective(payload, payloads[i]);
  }

  lemma {:induction false} AlsoHashed(h: Hasher, payloads: seq<bytes>, payload: bytes)
    ensures LeafInputs(payloads + [payload]) <= LeafInputs(payloads) + {LeafInput(payload)}
    ensures Elements(LeafHashes(h, payloads)) + {LeafHash(h, payload)} <= Elements(LeafHashes(h, payloads + [payload]))
  {
    assert LeafHashes(h, payloads + [payload]) == LeafHashes(h, payloads) + [LeafHash(h, payload)];
  }

  /** What an index and a claimed size are accepted for, whatever they are: exactly the payload of the entry that has the
      same turns, with that entry's audit path. Where no entry of the log turns like that, nothing is accepted. */
  lemma {:induction false} AcceptsIff(h: Hasher, payloads: seq<bytes>, payload: bytes, idx: nat, n: nat,
                                      proof: seq<Hash>)
    requires NoCollision(h, HashedByLog(h, payloads) + HashedByVerify(h, payload, idx, n, proof))
    ensures Accepts(h, payload, idx, n, proof, TreeHash(h, payloads))
            <==> n > 0 && exists k :: 0 <= k < |payloads| && Turns(idx, n) == Turns(k, |payloads|)
                                      && payload == payloads[k] && AuditPath(h, k, payloads) <= proof
  {
    hide Turns, Climb, Value, TreeTurns;
    if n > 0 {
      if k :| 0 <= k < |payloads| && Turns(idx, n) == Turns(k, |payloads|)
              && payload == payloads[k] && AuditPath(h, k, payloads) <= proof {
        SameTurns(h, payloads, payload, idx, n, k, proof);
      }
      if Accepts(h, payload, idx, n, proof, TreeHash(h, payloads)) {
        if payloads == [] {
          NotOfEmpty(h, payload, idx, n, proof);
        } else {
          var k := AcceptedFor(h, payloads, payload, idx, n, proof);
        }
      }
    }
  }

  /** The root of the empty log is the hash of the empty string, which a climb does not hash. */
  lemma {:induction false} NotOfEmpty(h: Hasher, payload: bytes, idx: nat, n: nat, proof: seq<Hash>)
    requires NoCollision(h, HashedByLog(h, []) + HashedByVerify(h, payload, idx, n, proof))
    ensures !Accepts(h, payload, idx, n, proof, TreeHash(h, []))
  {
    var g, hh, turns := NodeHash(h), LeafHash(h, payload), Turns(idx, n);
    ClimbIsValue(g, hh, idx, n, proof);
    assert LeafInput(payload) != [];
    if turns != [] && |turns| <= |proof| {
      var t := |turns| - 1;
      var p := Joined(Value(g, hh, turns[..t], proof), turns[t], proof[t]);
      assert p in ValuePairs(g, hh, turns, proof);
      assert NodeInput(p.0, p.1) in NodeInputs(ClimbPairs(g, hh, idx, n, proof));
      assert NodeInput(p.0, p.1) != [];
    }
  }

  lemma {:induction false} SameTurns(h: Hasher, payloads: seq<bytes>, payload: bytes, idx: nat, n: nat, k: nat,
                                     proof: seq<Hash>)
    requires n > 0 && k < |payloads| && Turns(idx, n) == Turns(k, |payloads|)
    requires payload == payloads[k] && AuditPath(h, k, payloads) <= proof
    ensures Accepts(h, payload, idx, n, proof, TreeHash(h, payloads))
  {
    var path := AuditPath(h, k, payloads);
    assert proof == path + proof[|path|..];
    ProofIsAccepted(h, payloads, k, proof[|path|..]);
    ClimbIsValue(NodeHash(h), LeafHash(h, payload), idx, n, proof);
    ClimbIsValue(NodeHash(h), LeafHash(h, payload), k, |payloads|, proof);
  }

  lemma {:induction false} AcceptedFor(h: Hasher, payloads: seq<bytes>, payload: bytes, idx: nat, n: nat,
                                       proof: seq<Hash>) returns (k: nat)
    requires payloads != []
    requires NoCollision(h, HashedByLog(h, payloads) + HashedByVerify(h, payload, idx, n, proof))
    requires Accepts(h, payload, idx, n, proof, TreeHash(h, payloads))
    ensures k < |payloads| && Turns(idx, n) == Turns(k, |payloads|)
    ensures payload == payloads[k] && AuditPath(h, k, payloads) <= proof
  {
    var g, leaves, hh := NodeHash(h), LeafHashes(h, payloads), LeafHash(h, payload);
    var turns, strings := Turns(idx, n), HashedByLog(h, payloads) + HashedByVerify(h, payload, idx, n, proof);
    ClimbIsValue(g, hh, idx, n, proof);
    var e;
    e, k := ValueSound(g, hh, turns, proof, leaves);
    var pairs := Pairs(g, leaves) + ValuePairs(g, hh, turns, proof);
    AlsoHashed(h, payloads, payload);
    assert NodeInputs(pairs) <= strings;
    NoEvidence(h, strings, e, payloads + [payload], Elements(leaves) + {hh}, pairs);
    TurnsOfLeaf(k, |payloads|);
    assert LeafInput(payloads[k]) in LeafInputs(payloads);
    LeafInputInjective(payload, payloads[k]);
  }

  /** Indices outside the log: in a log of two, the index 3 passes for the index 1, and the index 2 for none. */
  lemma {:induction false} IndexUnchecked(h: Hasher, a: bytes, b: bytes, payload: bytes, proof: seq<Hash>)
    ensures Accepts(h, b, 3, 2, [LeafHash(h, a)], TreeHash(h, [a, b]))
    ensures NoCollision(h, HashedByLog(h, [a, b]) + HashedByVerify(h, payload, 2, 2, proof)) ==>
      !Accepts(h, payload, 2, 2, proof, TreeHash(h, [a, b]))
  {
    var log := [a, b];
    assert Turns(3, 2) == Turns(1, 2) == [false] && Turns(0, 2) == [true] && Turns(2, 2) == [] by {
      assert Turns(1, 1) == Turns(0, 1) == [];
    }
    assert AuditPath(h, 1, log) == [LeafHash(h, a)] by {
      assert Split(2) == 1 && LeafHashes(h, log)[..1] == [LeafHash(h, a)];
      assert Path(NodeHash(h), 0, LeafHashes(h, log)[1..]) == [];
    }
    SameTurns(h, log, b, 3, 2, 1, [LeafHash(h, a)]);
    if NoCollision(h, HashedByLog(h, log) + HashedByVerify(h, payload, 2, 2, proof)) {
      AcceptsIff(h, log, payload, 2, 2, proof);
    }
  }

  /** The only entry of a log of one is accepted for every index. */
  lemma {:induction false} AnyIndexOfOne(h: Hasher, payload: bytes, idx: nat, proof: seq<Hash>)
    ensures Accepts(h, payload, idx, 1, proof, TreeHash(h, [payload]))
  {
    assert LeafHashes(h, [payload])[0] == LeafHash(h, payload);
  }

  /** Logs of any lengths with one root are the same log. */
  lemma {:induction false} RootsDistinct(h: Hasher, a: seq<bytes>, b: seq<bytes>)
    requires NoCollision(h, HashedByLog(h, a) + HashedByLog(h, b))
    ensures TreeHash(h, a) == TreeHash(h, b) <==> a == b
  {
    if TreeHash(h, a) == TreeHash(h, b) {
      if a == [] && b != [] {
        EmptyRootDistinct(h, b);
      } else if a != [] && b == [] {
        EmptyRootDistinct(h, a);
      } else if a != [] {
        NonEmptyRoots(h, a, b);
      }
    }
  }

  lemma {:induction false} EmptyRootDistinct(h: Hasher, a: seq<bytes>)
    requires a != [] && NoCollision(h, HashedByLog(h, []) + HashedByLog(h, a))
    ensures TreeHash(h, a) != h([])
  {
    var g, leaves := NodeHash(h), LeafHashes(h, a);
    if |a| == 1 {
      assert LeafInput(a[0]) in LeafInputs(a);
    } else {
      var k := Split(|a|);
      var p := (Mth(g, leaves[..k]), Mth(g, leaves[k..]));
      assert p in Pairs(g, leaves);
      assert NodeInput(p.0, p.1) in NodeInputs(Pairs(g, leaves));
    }
  }

  lemma {:induction false} NonEmptyRoots(h: Hasher, a: seq<bytes>, b: seq<bytes>)
    requires a != [] && b != [] && NoCollision(h, HashedByLog(h, a) + HashedByLog(h, b))
    requires TreeHash(h, a) == TreeHash(h, b)
    ensures a == b
  {
    var g, la, lb := NodeHash(h), LeafHashes(h, a), LeafHashes(h, b);
    var e := SameTree(g, la, lb);
    var strings := HashedByLog(h, a) + HashedByLog(h, b);
    HashedTogether(h, a, b);
    NoEvidence(h, strings, e, a + b, Elements(la) + Elements(lb), Pairs(g, la) + Pairs(g, lb));
    SameLeavesSamePayloads(h, strings, a, b);
  }

  lemma {:induction false} HashedTogether(h: Hasher, a: seq<bytes>, b: seq<bytes>)
    requires a != [] && b != []
    ensures
      var g, la, lb := NodeHash(h), LeafHashes(h, a), LeafHashes(h, b);
      && LeafInputs(a + b) + NodeInputs(Pairs(g, la) + Pairs(g, lb)) <= HashedByLog(h, a) + HashedByLog(h, b)
      && Elements(la) + Elements(lb) <= Elements(LeafHashes(h, a + b))
  {
    var la, lb := LeafHashes(h, a), LeafHashes(h, b);
    assert LeafInputs(a + b) <= LeafInputs(a) + LeafInputs(b);
    assert LeafHashes(h, a + b) == la + lb;
  }

  // ------------------------------------------------------------------ the log

  class MerkleAuditLog {
    const h: Hasher
    var leaves: seq<Hash>
    /** The entries themselves are not kept, only their hashes. */
    ghost var payloads: seq<bytes>

    ghost predicate Valid()
      reads this
    {
      leaves == LeafHashes(h, payloads)
    }

    constructor (h: Hasher)
      ensures Valid() && this.h == h && payloads == []
    {
      this.h := h;
      leaves, payloads := [], [];
    }

    method Append(payload: bytes) returns (idx: nat)
      requires Valid()
      modifies this
      ensures Valid()
      ensures idx == |old(payloads)| && payloads == old(payloads) + [payload]
    {
      idx := |leaves|;
      leaves := leaves + [LeafHash(h, payload)];
      payloads := payloads + [payload];
    }

    method Root() returns (root: Hash)
      requires Valid()
      ensures root == TreeHash(h, payloads) == Mth6962(h, payloads)
    {
      TreeHashIs(h, payloads);
      if |leaves| == 0 {
        return h([]);
      }
      var level := leaves;
      while |level| > 1
        invariant level != [] && Mth(NodeHash(h), level) == Mth(NodeHash(h), leaves)
        decreases |level|
      {
        MthUp(NodeHash(h), level);
        level := NextLevel(level);
      }
      root := level[0];
    }

    /** Pairs neighbours; an odd last node is promoted. */
    method NextLevel(level: seq<Hash>) returns (next: seq<Hash>)
      ensures next == Up(NodeHash(h), level)
    {
      next := [];
      var i := 0;
      while i + 1 < |level|
        invariant i == 2 * |next| && i <= |level|
        invariant forall j :: 0 <= j < |next| ==> next[j] == UpAt(NodeHash(h), level, j)
      {
        next := next + [h(NodeInput(level[i], level[i + 1]))];
        i := i + 2;
      }
      if i < |level| {
        next := next + [level[i]];
      }
    }

    /** The siblings on the way up, or nothing when the index is out of range. */
    method Proof(idx: nat) returns (proof: Option<seq<Hash>>)
      requires Valid()
      ensures proof == if idx < |payloads| then Some(Path6962(h, idx, payloads)) else None
    {
      if idx >= |leaves| {
        return None;
      }
      AuditPathIs(h, idx, payloads);
      var path, i, level := [], idx, leaves;
      while |level| > 1
        invariant 0 <= i < |level|
        invariant path + Path(NodeHash(h), i, level) == AuditPath(h, idx, payloads)
        decreases |level|
      {
        PathStep(NodeHash(h), path, i, level);
        ghost var before := path;
        if i % 2 == 0 {
          if i + 1 < |level| {
            path := path + [level[i + 1]];
          }
        } else {
          path := path + [level[i - 1]];
        }
        assert path == before + Sibling(level, i);
        level := NextLevel(level);
        i := i / 2;
      }
      assert Path(NodeHash(h), i, level) == [] && path + [] == path;
      proof := Some(path);
    }

    static method Verify(h: Hasher, payload: bytes, idx: nat, n: nat, proof: seq<Hash>, root: Hash) returns (ok: bool)
      ensures ok == Accepts(h, payload, idx, n, proof, root)
    {
      if n == 0 {
        return false;
      }
      var hh, i, levelSize, p := LeafHash(h, payload), idx, n, 0;
      while levelSize > 1
        invariant levelSize >= 1 && p <= |proof|
        invariant Accepts(h, payload, idx, n, proof, root)
                  == (Climb(NodeHash(h), hh, i, levelSize, proof[p..]) == Some(root))
        decreases levelSize
      {
        if i % 2 == 0 {
          if i + 1 < levelSize {
            if p >= |proof| {
              return false;
            }
            assert proof[p..][1..] == proof[p + 1..];
            hh := h(NodeInput(hh, proof[p]));
            p := p + 1;
          }
        } else {
          if p >= |proof| {
            return false;
          }
          assert proof[p..][1..] == proof[p + 1..];
          hh := h(NodeInput(proof[p], hh));
          p := p + 1;
        }
        i := i / 2;
        levelSize := (levelSize + 1) / 2;
      }
      ok := hh == root;
    }
  }
}
