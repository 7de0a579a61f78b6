/** The streaming three-way chain join R(a, b), S(b, c), T(c, d): the running total kept per arrival is the number of
    joining row triples, whatever the order of arrival. */
module StreamingJoin {
  import Bags

  datatype Arrival<K> = R(a: K, b: K) | S(b: K, c: K) | T(c: K, d: K)

  // ------------------------------------------------------------------ what has arrived

  /** The parts that the elements of a sequence contribute, in order. */
  function Collect<X, Y>(f: X -> seq<Y>, h: seq<X>): seq<Y> {
    if h == [] then [] else Collect(f, h[..|h| - 1]) + f(h[|h| - 1])
  }

  function PartR<K>(x: Arrival<K>): seq<K> {
    if x.R? then [x.b] else []
  }

  function PartA<K>(x: Arrival<K>): seq<K> {
    if x.R? then [x.a] else []
  }

  function PartS<K>(x: Arrival<K>): seq<(K, K)> {
    if x.S? then [(x.b, x.c)] else []
  }

  function PartT<K>(x: Arrival<K>): seq<K> {
    if x.T? then [x.c] else []
  }

  /** The join keys of the rows of R, of S and of T, by row number. */
  function RowsR<K>(h: seq<Arrival<K>>): seq<K> {
    Collect(PartR, h)
  }

  function RowsS<K>(h: seq<Arrival<K>>): seq<(K, K)> {
    Collect(PartS, h)
  }

  function RowsT<K>(h: seq<Arrival<K>>): seq<K> {
    Collect(PartT, h)
  }

  /** The answer: the row triples that agree on `b` and on `c`. */
  ghost function Triples<K(!new)>(rs: seq<K>, ss: seq<(K, K)>, ts: seq<K>): set<(nat, nat, nat)> {
    set i: nat, j: nat, k: nat | i < |rs| && j < |ss| && k < |ts| && rs[i] == ss[j].0 && ss[j].1 == ts[k] :: (i, j, k)
  }

  ghost function Answer<K(!new)>(h: seq<Arrival<K>>): nat {
    |Triples(RowsR(h), RowsS(h), RowsT(h))|
  }

  lemma {:induction false} CollectAppend<X, Y>(f: X -> seq<Y>, h: seq<X>, x: X)
    ensures Collect(f, h + [x]) == Collect(f, h) + f(x)
  {
    assert (h + [x])[..|h|] == h;
  }

  lemma {:induction false} CollectConcat<X, Y>(f: X -> seq<Y>, g: seq<X>, h: seq<X>)
    ensures Collect(f, g + h) == Collect(f, g) + Collect(f, h)
    decreases |h|
  {
    if h == [] {
      assert g + h == g;
    } else {
      var most, last := h[..|h| - 1], h[|h| - 1];
      CollectConcat(f, g, most);
      assert Collect(f, h) == Collect(f, most) + f(last);
      hide Collect;
      assert g + h == g + most + [last];
      CollectAppend(f, g + most, last);
    }
  }

  lemma {:induction false} CollectPermutation<X, Y>(f: X -> seq<Y>, g: seq<X>, h: seq<X>)
    requires multiset(g) == multiset(h)
    ensures multiset(Collect(f, g)) == multiset(Collect(f, h))
    decreases |g|
  {
    if g == [] {
      assert |multiset(h)| == 0;
    } else {
      var n := |g| - 1;
      var k := Bags.FindLast(g, h);
      CollectPermutation(f, g[..n], h[..k] + h[k + 1..]);
      assert Collect(f, g) == Collect(f, g[..n]) + f(g[n]);
      hide Collect;
      CollectConcat(f, h[..k], h[k + 1..]);
      assert h == h[..k] + [h[k]] + h[k + 1..];
      CollectConcat(f, h[..k] + [h[k]], h[k + 1..]);
      CollectAppend(f, h[..k], h[k]);
    }
  }

  // ------------------------------------------------------------------ counting the triples

  function Times(x: nat, y: nat): nat {
    x * y
  }

  lemma {:induction false} OneMore(x: nat, y: nat)
    ensures Times(x + 1, y) == Times(x, y) + y
  {
  }

  lemma {:induction false} TimesCommutes(x: nat, y: nat)
    ensures Times(x, y) == Times(y, x)
  {
  }

  /** Every row of S joins each row of R with its `b` to each row of T with its `c`. */
  ghost function Weight<K>(rs: multiset<K>, ss: seq<(K, K)>, ts: multiset<K>): nat {
    if ss == [] then 0
    else Weight(rs, ss[..|ss| - 1], ts) + Times(rs[ss[|ss| - 1].0], ts[ss[|ss| - 1].1])
  }

  ghost function Having<K(!new)>(keys: seq<K>, x: K): set<nat> {
    set i: nat | i < |keys| && keys[i] == x
  }

  lemma {:induction false} HavingSize<K(!new)>(keys: seq<K>, x: K)
    ensures |Having(keys, x)| == multiset(keys)[x]
  {
    if keys != [] {
      var n := |keys| - 1;
      HavingSize(keys[..n], x);
      assert keys == keys[..n] + [keys[n]];
      if keys[n] == x {
        assert Having(keys, x) == Having(keys[..n], x) + {n};
      } else {
        assert Having(keys, x) == Having(keys[..n], x);
      }
    }
  }

  ghost function Product(a: set<nat>, j: nat, b: set<nat>): set<(nat, nat, nat)> {
    set i, k | i in a && k in b :: (i, j, k)
  }

  ghost function Slice(i: nat, j: nat, b: set<nat>): set<(nat, nat, nat)> {
    set k | k in b :: (i, j, k)
  }

  lemma {:induction false} SliceSize(i: nat, j: nat, b: set<nat>)
    ensures |Slice(i, j, b)| == |b|
  {
    if b != {} {
      var k :| k in b;
      SliceSize(i, j, b - {k});
      assert Slice(i, j, b) == Slice(i, j, b - {k}) + {(i, j, k)};
    }
  }

  lemma {:induction false} ProductParts(a: set<nat>, i: nat, j: nat, b: set<nat>)
    requires i in a
    ensures Product(a, j, b) == Product(a - {i}, j, b) + Slice(i, j, b) && Product(a - {i}, j, b) !! Slice(i, j, b)
  {
  }

  lemma {:induction false} ProductSize(a: set<nat>, j: nat, b: set<nat>)
    ensures |Product(a, j, b)| == |a| * |b|
  {
    if a != {} {
      var i :| i in a;
      ProductSize(a - {i}, j, b);
      SliceSize(i, j, b);
      ProductParts(a, i, j, b);
      hide Product, Slice;
      assert (|a| - 1) * |b| + |b| == |a| * |b|;
    } else {
      assert Product(a, j, b) == {};
    }
  }

  lemma {:induction false} TriplesWeigh<K(!new)>(rs: seq<K>, ss: seq<(K, K)>, ts: seq<K>)
    ensures |Triples(rs, ss, ts)| == Weight(multiset(rs), ss, multiset(ts))
    decreases |ss|
  {
    if ss == [] {
      assert Triples(rs, ss, ts) == {};
    } else {
      var n := |ss| - 1;
      TriplesWeigh(rs, ss[..n], ts);
      LastRowOfS(rs, ss, ts);
      ProductSize(Having(rs, ss[n].0), n, Having(ts, ss[n].1));
      HavingSize(rs, ss[n].0);
      HavingSize(ts, ss[n].1);
    }
  }

  lemma {:induction false} LastRowOfS<K(!new)>(rs: seq<K>, ss: seq<(K, K)>, ts: seq<K>)
    requires ss != []
    ensures
      var n := |ss| - 1;
      var x := Product(Having(rs, ss[n].0), n, Having(ts, ss[n].1));
      Triples(rs, ss, ts) == Triples(rs, ss[..n], ts) + x && Triples(rs, ss[..n], ts) !! x
  {
  }

  lemma {:induction false} WeightAppend<K>(rs: multiset<K>, ss: seq<(K, K)>, s: (K, K), ts: multiset<K>)
    ensures Weight(rs, ss + [s], ts) == Weight(rs, ss, ts) + Times(rs[s.0], ts[s.1])
  {
    assert (ss + [s])[..|ss|] == ss;
  }

  lemma {:induction false} WeightConcat<K>(rs: multiset<K>, ss: seq<(K, K)>, us: seq<(K, K)>, ts: multiset<K>)
    ensures Weight(rs, ss + us, ts) == Weight(rs, ss, ts) + Weight(rs, us, ts)
    decreases |us|
  {
    if us == [] {
      assert ss + us == ss;
    } else {
      var most, last := us[..|us| - 1], us[|us| - 1];
      WeightConcat(rs, ss, most, ts);
      assert ss + us == ss + most + [last];
      WeightAppend(rs, ss + most, last, ts);
    }
  }

  lemma {:induction false} WeightPermutation<K>(rs: multiset<K>, ss: seq<(K, K)>, us: seq<(K, K)>, ts: multiset<K>)
    requires multiset(ss) == multiset(us)
    ensures Weight(rs, ss, ts) == Weight(rs, us, ts)
    decreases |ss|
  {
    if ss == [] {
      assert |multiset(us)| == 0;
    } else {
      var n := |ss| - 1;
      var k := Bags.FindLast(ss, us);
      WeightPermutation(rs, ss[..n], us[..k] + us[k + 1..], ts);
      WeightConcat(rs, us[..k], us[k + 1..], ts);
      assert us == us[..k] + [us[k]] + us[k + 1..];
      WeightConcat(rs, us[..k] + [us[k]], us[k + 1..], ts);
      WeightAppend(rs, us[..k], us[k], ts);
    }
  }

  /** The answer depends on which rows have arrived and not on the order of arrival. */
  lemma {:induction false} OrderIrrelevant<K(!new)>(g: seq<Arrival<K>>, h: seq<Arrival<K>>)
    requires multiset(g) == multiset(h)
    ensures Answer(g) == Answer(h)
  {
    CollectPermutation(PartR, g, h);
    CollectPermutation(PartS, g, h);
    CollectPermutation(PartT, g, h);
    TriplesWeigh(RowsR(g), RowsS(g), RowsT(g));
    TriplesWeigh(RowsR(h), RowsS(h), RowsT(h));
    WeightPermutation(multiset(RowsR(g)), RowsS(g), RowsS(h), multiset(RowsT(g)));
  }

  // ------------------------------------------------------------------ the lists by key

  /** The row numbers that carry `x`, in order of arrival. */
  function IdsOf<K(==)>(keys: seq<K>, x: K): seq<nat> {
    if keys == [] then []
    else IdsOf(keys[..|keys| - 1], x) + (if keys[|keys| - 1] == x then [|keys| - 1] else [])
  }

  /** The other key and the row number of every row of S that carries `x` first. */
  function Others<K(==)>(ss: seq<(K, K)>, x: K): seq<(K, nat)> {
    if ss == [] then []
    else Others(ss[..|ss| - 1], x) + (if ss[|ss| - 1].0 == x then [(ss[|ss| - 1].1, |ss| - 1)] else [])
  }

  function Swap<K>(s: (K, K)): (K, K) {
    (s.1, s.0)
  }

  function Swapped<K>(ss: seq<(K, K)>): (r: seq<(K, K)>)
    ensures |r| == |ss|
  {
    Bags.Map(Swap, ss)
  }

  lemma {:induction false} IdsAppend<K>(keys: seq<K>, y: K, x: K)
    ensures IdsOf(keys + [y], x) == IdsOf(keys, x) + if y == x then [|keys|] else []
  {
    assert (keys + [y])[..|keys|] == keys;
  }

  lemma {:induction false} OthersAppend<K>(ss: seq<(K, K)>, s: (K, K), x: K)
    ensures Others(ss + [s], x) == Others(ss, x) + if s.0 == x then [(s.1, |ss|)] else []
  {
    assert (ss + [s])[..|ss|] == ss;
  }

  lemma {:induction false} IdsCount<K>(keys: seq<K>, x: K)
    ensures |IdsOf(keys, x)| == multiset(keys)[x]
  {
    if keys != [] {
      var n := |keys| - 1;
      IdsCount(keys[..n], x);
      assert keys == keys[..n] + [keys[n]];
    }
  }

  /** What a list of S rows contributes: for each the rows of T at its other key. */
  ghost function Across<K>(list: seq<(K, nat)>, ts: multiset<K>, n: nat): nat
    requires n <= |list|
  {
    if n == 0 then 0 else Across(list, ts, n - 1) + ts[list[n - 1].0]
  }

  /** One more row of R with key `b` adds what the S rows at `b` contribute. */
  lemma {:induction false} AnotherRow<K>(rs: multiset<K>, b: K, ss: seq<(K, K)>, ts: multiset<K>)
    ensures Weight(rs + multiset{b}, ss, ts) == Weight(rs, ss, ts) + Across(Others(ss, b), ts, |Others(ss, b)|)
  {
    hide Times;
    if ss == [] {
      NothingAcross(Others(ss, b), ts);
    } else {
      var most, last := ss[..|ss| - 1], ss[|ss| - 1];
      AnotherRow(rs, b, most, ts);
      hide Weight, Others, Across;
      assert ss == most + [last];
      WeightAppend(rs, most, last, ts);
      WeightAppend(rs + multiset{b}, most, last, ts);
      OthersAppend(most, last, b);
      if last.0 == b {
        AcrossAppend(Others(most, b), (last.1, |most|), ts);
        assert (rs + multiset{b})[b] == rs[b] + 1;
        OneMore(rs[b], ts[last.1]);
      } else {
        assert (rs + multiset{b})[last.0] == rs[last.0];
        assert Others(ss, b) == Others(most, b);
      }
    }
  }

  lemma {:induction false} AcrossAppend<K>(list: seq<(K, nat)>, x: (K, nat), ts: multiset<K>)
    ensures Across(list + [x], ts, |list| + 1) == Across(list, ts, |list|) + ts[x.0]
  {
    AcrossPrefix(list, x, ts, |list|);
  }

  lemma {:induction false} AcrossPrefix<K>(list: seq<(K, nat)>, x: (K, nat), ts: multiset<K>, n: nat)
    requires n <= |list|
    ensures Across(list + [x], ts, n) == Across(list, ts, n)
  {
    if n > 0 {
      AcrossPrefix(list, x, ts, n - 1);
    }
  }

  lemma {:induction false} NothingAcross<K>(list: seq<(K, nat)>, ts: multiset<K>)
    requires list == []
    ensures Across(list, ts, |list|) == 0
  {
  }

  /** Reading the chain from the other end counts the same triples. */
  lemma {:induction false} WeightSwapped<K>(rs: multiset<K>, ss: seq<(K, K)>, ts: multiset<K>)
    ensures Weight(rs, ss, ts) == Weight(ts, Swapped(ss), rs)
  {
    hide Times;
    if ss != [] {
      var n := |ss| - 1;
      WeightSwapped(rs, ss[..n], ts);
      TimesCommutes(rs[ss[n].0], ts[ss[n].1]);
      assert Swapped(ss)[..n] == Swapped(ss[..n]);
    }
  }

  // ------------------------------------------------------------------ the running state

  function Look<K(==), V>(m: map<K, seq<V>>, k: K): seq<V> {
    if k in m then m[k] else []
  }

  class StreamingChainJoin<K(==, !new)> {
    var rByB: map<K, seq<nat>>
    var sByB: map<K, seq<(K, nat)>>
    var sByC: map<K, seq<(K, nat)>>
    var tByC: map<K, seq<nat>>
    var rAForId: seq<K>
    var nEmit: nat
    ghost var arrived: seq<Arrival<K>>

    ghost predicate Valid()
      reads this
    {
      && rAForId == Collect(PartA, arrived)
      && (forall k :: Look(rByB, k) == IdsOf(RowsR(arrived), k))
      && (forall k :: Look(sByB, k) == Others(RowsS(arrived), k))
      && (forall k :: Look(sByC, k) == Others(Swapped(RowsS(arrived)), k))
      && (forall k :: Look(tByC, k) == IdsOf(RowsT(arrived), k))
      && nEmit == Answer(arrived)
    }

    constructor ()
      ensures Valid() && arrived == []
    {
      rByB, sByB, sByC, tByC := map[], map[], map[], map[];
      rAForId, nEmit, arrived := [], 0, [];
      new;
      TriplesWeigh<K>([], [], []);
    }

    /** A row of R arrives; the answers it creates are counted and added. */
    method ArriveR(a: K, b: K) returns (created: nat)
      requires Valid()
      modifies this
      ensures Valid() && arrived == old(arrived) + [R(a, b)]
      ensures nEmit == old(nEmit) + created
    {
      hide Collect, IdsOf, Others, Triples, Weight, Across, Answer;
      ghost var was := arrived;
      GrowR(was, a, b);
      var id := |rAForId|;
      rAForId := rAForId + [a];
      rByB := rByB[b := Look(rByB, b) + [id]];
      created := 0;
      if b in sByB {
        created := SumAcross(sByB[b], tByC, RowsT(was));
      } else {
        NothingAcross(Others(RowsS(was), b), multiset(RowsT(was)));
      }
      nEmit := nEmit + created;
      arrived := was + [R(a, b)];
      forall k ensures Look(rByB, k) == IdsOf(RowsR(arrived), k) {
        IdsAppend(RowsR(was), b, k);
      }
    }

    /** A row of S arrives. */
    method ArriveS(b: K, c: K) returns (created: nat)
      requires Valid()
      modifies this
      ensures Valid() && arrived == old(arrived) + [S(b, c)]
      ensures nEmit == old(nEmit) + created
    {
      hide Collect, IdsOf, Others, Triples, Weight, Across, Answer, Swapped;
      ghost var was := arrived;
      GrowS(was, b, c);
      var id := CountRows(sByB, RowsS(was));
      sByB := sByB[b := Look(sByB, b) + [(c, id)]];
      sByC := sByC[c := Look(sByC, c) + [(b, id)]];
      IdsCount(RowsR(was), b);
      IdsCount(RowsT(was), c);
      created := |Look(rByB, b)| * |Look(tByC, c)|;
      nEmit := nEmit + created;
      arrived := was + [S(b, c)];
      forall k ensures Look(sByB, k) == Others(RowsS(arrived), k) {
        OthersAppend(RowsS(was), (b, c), k);
      }
      forall k ensures Look(sByC, k) == Others(Swapped(RowsS(arrived)), k) {
        OthersAppend(Swapped(RowsS(was)), (c, b), k);
      }
    }

    /** A row of T arrives. */
    method ArriveT(c: K, d: K) returns (created: nat)
      requires Valid()
      modifies this
      ensures Valid() && arrived == old(arrived) + [T(c, d)]
      ensures nEmit == old(nEmit) + created
    {
      hide Collect, IdsOf, Others, Triples, Weight, Across, Answer, Swapped;
      ghost var was := arrived;
      GrowT(was, c, d);
      var id := CountIds(tByC, RowsT(was));
      tByC := tByC[c := Look(tByC, c) + [id]];
      created := 0;
      if c in sByC {
        created := SumAcross(sByC[c], rByB, RowsR(was));
      } else {
        NothingAcross(Others(Swapped(RowsS(was)), c), multiset(RowsR(was)));
      }
      nEmit := nEmit + created;
      arrived := was + [T(c, d)];
      forall k ensures Look(tByC, k) == IdsOf(RowsT(arrived), k) {
        IdsAppend(RowsT(was), c, k);
      }
    }
  }

  // ------------------------------------------------------------------ one arrival

  lemma {:induction false} GrowR<K(!new)>(h: seq<Arrival<K>>, a: K, b: K)
    ensures RowsR(h + [R(a, b)]) == RowsR(h) + [b] && RowsS(h + [R(a, b)]) == RowsS(h)
    ensures RowsT(h + [R(a, b)]) == RowsT(h) && Collect(PartA, h + [R(a, b)]) == Collect(PartA, h) + [a]
    ensures |Collect(PartA, h)| == |RowsR(h)|
    ensures
      var list := Others(RowsS(h), b);
      Answer(h + [R(a, b)]) == Answer(h) + Across(list, multiset(RowsT(h)), |list|)
  {
    hide Collect, Triples, Weight, Across, Others;
    AppendAll(h, R(a, b));
    AsManyA(h);
    AnotherRow(multiset(RowsR(h)), b, RowsS(h), multiset(RowsT(h)));
    assert multiset(RowsR(h) + [b]) == multiset(RowsR(h)) + multiset{b};
    TriplesWeigh(RowsR(h), RowsS(h), RowsT(h));
    TriplesWeigh(RowsR(h) + [b], RowsS(h), RowsT(h));
  }

  lemma {:induction false} GrowS<K(!new)>(h: seq<Arrival<K>>, b: K, c: K)
    ensures RowsS(h + [S(b, c)]) == RowsS(h) + [(b, c)] && RowsR(h + [S(b, c)]) == RowsR(h)
    ensures RowsT(h + [S(b, c)]) == RowsT(h) && Collect(PartA, h + [S(b, c)]) == Collect(PartA, h)
    ensures Swapped(RowsS(h + [S(b, c)])) == Swapped(RowsS(h)) + [(c, b)]
    ensures Answer(h + [S(b, c)]) == Answer(h) + multiset(RowsR(h))[b] * multiset(RowsT(h))[c]
  {
    hide Collect, Triples, Weight;
    AppendAll(h, S(b, c));
    WeightAppend(multiset(RowsR(h)), RowsS(h), (b, c), multiset(RowsT(h)));
    TriplesWeigh(RowsR(h), RowsS(h), RowsT(h));
    TriplesWeigh(RowsR(h), RowsS(h) + [(b, c)], RowsT(h));
  }

  lemma {:induction false} GrowT<K(!new)>(h: seq<Arrival<K>>, c: K, d: K)
    ensures RowsT(h + [T(c, d)]) == RowsT(h) + [c] && RowsR(h + [T(c, d)]) == RowsR(h)
    ensures RowsS(h + [T(c, d)]) == RowsS(h) && Collect(PartA, h + [T(c, d)]) == Collect(PartA, h)
    ensures
      var list := Others(Swapped(RowsS(h)), c);
      Answer(h + [T(c, d)]) == Answer(h) + Across(list, multiset(RowsR(h)), |list|)
  {
    hide Collect, Triples, Weight, Across, Others, Swapped;
    var rs, ss, ts := multiset(RowsR(h)), RowsS(h), multiset(RowsT(h));
    AppendAll(h, T(c, d));
    AnotherRow(ts, c, Swapped(ss), rs);
    assert multiset(RowsT(h) + [c]) == ts + multiset{c};
    WeightSwapped(rs, ss, ts);
    WeightSwapped(rs, ss, ts + multiset{c});
    TriplesWeigh(RowsR(h), ss, RowsT(h));
    TriplesWeigh(RowsR(h), ss, RowsT(h) + [c]);
  }

  lemma {:induction false} AppendAll<K>(h: seq<Arrival<K>>, x: Arrival<K>)
    ensures RowsR(h + [x]) == RowsR(h) + PartR(x) && RowsS(h + [x]) == RowsS(h) + PartS(x)
    ensures RowsT(h + [x]) == RowsT(h) + PartT(x) && Collect(PartA, h + [x]) == Collect(PartA, h) + PartA(x)
  {
    CollectAppend(PartR, h, x);
    CollectAppend(PartS, h, x);
    CollectAppend(PartT, h, x);
    CollectAppend(PartA, h, x);
  }

  lemma {:induction false} AsManyA<K>(h: seq<Arrival<K>>)
    ensures |Collect(PartA, h)| == |RowsR(h)|
  {
    if h != [] {
      AsManyA(h[..|h| - 1]);
    }
  }

  /** The rows at the other keys of a list, looked up key by key. */
  method SumAcross<K(==, !new)>(list: seq<(K, nat)>, byKey: map<K, seq<nat>>, ghost keys: seq<K>) returns (acc: nat)
    requires forall k :: Look(byKey, k) == IdsOf(keys, k)
    ensures acc == Across(list, multiset(keys), |list|)
  {
    hide IdsOf;
    acc := 0;
    for i := 0 to |list|
      invariant acc == Across(list, multiset(keys), i)
    {
      IdsCount(keys, list[i].0);
      if list[i].0 in byKey {
        acc := acc + |byKey[list[i].0]|;
      }
    }
  }

  // ------------------------------------------------------------------ row numbers

  /** How many of the rows carry one of the given keys. */
  ghost function Within<K>(keys: seq<K>, s: set<K>): nat {
    if keys == [] then 0 else Within(keys[..|keys| - 1], s) + if keys[|keys| - 1] in s then 1 else 0
  }

  lemma {:induction false} WithinLess<K>(keys: seq<K>, s: set<K>, k: K)
    requires k in s
    ensures Within(keys, s) == Within(keys, s - {k}) + |IdsOf(keys, k)|
  {
    if keys != [] {
      WithinLess(keys[..|keys| - 1], s, k);
    }
  }

  lemma {:induction false} WithinNone<K>(keys: seq<K>)
    ensures Within(keys, {}) == 0
  {
    if keys != [] {
      WithinNone(keys[..|keys| - 1]);
    }
  }

  lemma {:induction false} WithinAll<K>(keys: seq<K>, s: set<K>)
    requires forall i :: 0 <= i < |keys| ==> keys[i] in s
    ensures Within(keys, s) == |keys|
  {
    if keys != [] {
      WithinAll(keys[..|keys| - 1], s);
    }
  }

  lemma {:induction false} IdsFound<K>(keys: seq<K>, i: nat)
    requires i < |keys|
    ensures IdsOf(keys, keys[i]) != []
  {
    if i < |keys| - 1 {
      IdsFound(keys[..|keys| - 1], i);
    }
  }

  /** The lengths of the lists add up to the number of rows, which is the number of the next row. */
  method CountIds<K(==, !new), V>(byKey: map<K, seq<V>>, ghost keys: seq<K>) returns (n: nat)
    requires forall k :: |Look(byKey, k)| == |IdsOf(keys, k)|
    ensures n == |keys|
  {
    hide IdsOf, Within;
    forall i | 0 <= i < |keys| ensures keys[i] in byKey.Keys {
      IdsFound(keys, i);
      assert |Look(byKey, keys[i])| != 0;
    }
    WithinAll(keys, byKey.Keys);
    n := 0;
    var rest := byKey.Keys;
    while rest != {}
      invariant rest <= byKey.Keys && n + Within(keys, rest) == |keys|
    {
      var k :| k in rest;
      WithinLess(keys, rest, k);
      assert |Look(byKey, k)| == |byKey[k]|;
      n := n + |byKey[k]|;
      rest := rest - {k};
    }
    WithinNone(keys);
  }

  function First<K>(s: (K, K)): K {
    s.0
  }

  lemma {:induction false} OthersCount<K>(ss: seq<(K, K)>, x: K)
    ensures |Others(ss, x)| == |IdsOf(Bags.Map(First, ss), x)|
  {
    if ss != [] {
      var n := |ss| - 1;
      OthersCount(ss[..n], x);
      assert Bags.Map(First, ss)[..n] == Bags.Map(First, ss[..n]);
    }
  }

  method CountRows<K(==, !new)>(byKey: map<K, seq<(K, nat)>>, ghost ss: seq<(K, K)>) returns (n: nat)
    requires forall k :: Look(byKey, k) == Others(ss, k)
    ensures n == |ss|
  {
    hide IdsOf, Others;
    forall k ensures |Look(byKey, k)| == |IdsOf(Bags.Map(First, ss), k)| {
      OthersCount(ss, k);
    }
    n := CountIds(byKey, Bags.Map(First, ss));
  }
}
