/** Fixed-width integers as bytes, in both byte orders. */
module Words {
  import opened Bytes

  function Pow256(k: nat): (r: nat)
    ensures r >= 1
  {
    if k == 0 then 1 else 256 * Pow256(k - 1)
  }

  /** The `k` bytes of `v`, most significant first; higher bytes are cut off. */
  function Be(v: nat, k: nat): (r: bytes)
    ensures |r| == k
  {
    if k == 0 then [] else Be(v / 256, k - 1) + [v % 256]
  }

  function FromBe(s: bytes): (v: nat)
    ensures v < Pow256(|s|)
  {
    if s == [] then 0 else FromBe(s[..|s| - 1]) * 256 + s[|s| - 1]
  }

  lemma {:induction false} Powers()
    ensures Pow256(1) == 0x100 && Pow256(2) == 0x1_0000 && Pow256(4) == 0x1_0000_0000
    ensures Pow256(8) == 0x1_0000_0000_0000_0000
  {
    assert Pow256(2) == 256 * Pow256(1);
    assert Pow256(3) == 256 * Pow256(2);
    assert Pow256(4) == 256 * Pow256(3);
    assert Pow256(5) == 256 * Pow256(4);
    assert Pow256(6) == 256 * Pow256(5);
    assert Pow256(7) == 256 * Pow256(6);
    assert Pow256(8) == 256 * Pow256(7);
  }

  lemma {:induction false} AddPower(a: nat, k: nat, p: nat, rest: nat, b: nat)
    requires p == Pow256(k)
    ensures (a * p + rest) * 256 + b == a * Pow256(k + 1) + (rest * 256 + b)
  {
    assert Pow256(k + 1) == 256 * p;
    assert (a * p) * 256 == a * (256 * p);
  }

  /** The first byte is the most significant one. */
  lemma {:induction false} FirstByteCounts(s: bytes)
    requires s != []
    ensures FromBe(s) == s[0] * Pow256(|s| - 1) + FromBe(s[1..])
  {
    var n := |s| - 1;
    if n == 0 {
      assert s[..0] == [] && s[1..] == [];
    } else {
      var most := s[..n];
      FirstByteCounts(most);
      assert most[1..] == s[1..][..n - 1];
      AddPower(s[0], n - 1, Pow256(n - 1), FromBe(most[1..]), s[n]);
    }
  }

  /** Or, in the other order, the last byte. */
  lemma {:induction false} LastByteCounts(s: bytes)
    requires s != []
    ensures FromLe(s) == FromLe(s[..|s| - 1]) + s[|s| - 1] * Pow256(|s| - 1)
  {
    var n := |s| - 1;
    if n == 0 {
      assert s[..0] == [] && s[1..] == [];
    } else {
      var rest := s[1..];
      LastByteCounts(rest);
      assert s[..n][1..] == rest[..n - 1];
      AddPower(s[n], n - 1, Pow256(n - 1), FromLe(rest[..n - 1]), s[0]);
    }
  }

  lemma {:induction false} BeRoundTrip(v: nat, k: nat)
    ensures FromBe(Be(v, k)) == v % Pow256(k)
    ensures v < Pow256(k) ==> FromBe(Be(v, k)) == v
  {
    if k > 0 {
      BeRoundTrip(v / 256, k - 1);
      assert Be(v, k)[..k - 1] == Be(v / 256, k - 1);
      CutLow(v, Pow256(k - 1));
      if v < Pow256(k) {
        assert v / 256 < Pow256(k - 1);
      }
    } else {
      assert v % 1 == 0;
    }
  }

  /** Reading back and writing again. */
  lemma {:induction false} BytesOfBe(s: bytes)
    ensures Be(FromBe(s), |s|) == s
  {
    if s != [] {
      var v := FromBe(s[..|s| - 1]);
      BytesOfBe(s[..|s| - 1]);
      assert (v * 256 + s[|s| - 1]) / 256 == v && (v * 256 + s[|s| - 1]) % 256 == s[|s| - 1];
      assert s == s[..|s| - 1] + [s[|s| - 1]];
    }
  }

  /** Cutting a number above its lowest byte. */
  lemma {:induction false} CutLow(v: nat, p: nat)
    requires p >= 1
    ensures (v / 256 % p) * 256 + v % 256 == v % (256 * p)
  {
    var q, r := v / 256, v % 256;
    var a, b := q / p, q % p;
    assert q == a * p + b;
    assert v == a * (256 * p) + (b * 256 + r) by {
      assert v == q * 256 + r;
      assert q * 256 == a * p * 256 + b * 256;
      assert a * p * 256 == a * (256 * p);
    }
    assert b * 256 + r < 256 * p;
    Remainder(v, 256 * p, a, b * 256 + r);
  }

  lemma {:induction false} Remainder(v: nat, m: nat, a: nat, r: nat)
    requires m >= 1 && r < m && v == a * m + r
    ensures v % m == r
  {
    var q := v / m;
    assert v == q * m + v % m;
    assert q < a ==> (q + 1) * m <= a * m;
    assert q > a ==> (a + 1) * m <= q * m;
  }

  /** Two's complement. */
  function Signed(v: nat, k: nat): (x: int)
    requires v < Pow256(k)
    ensures -(Pow256(k) as int) <= 2 * x < Pow256(k) && (x == v || x == v - Pow256(k))
  {
    if 2 * v >= Pow256(k) then v - Pow256(k) else v
  }

  function Unsigned(x: int, k: nat): (v: nat)
    requires -(Pow256(k) as int) <= 2 * x < Pow256(k)
    ensures v < Pow256(k) && Signed(v, k) == x
  {
    if x < 0 then x + Pow256(k) else x
  }

  /** The `k` bytes of `v`, least significant first; higher bytes are cut off. */
  function Le(v: nat, k: nat): (r: bytes)
    ensures |r| == k
  {
    if k == 0 then [] else [v % 256] + Le(v / 256, k - 1)
  }

  function FromLe(s: bytes): (v: nat)
    ensures v < Pow256(|s|)
  {
    if s == [] then 0 else s[0] + 256 * FromLe(s[1..])
  }

  lemma {:induction false} BytesOfLe(s: bytes)
    ensures Le(FromLe(s), |s|) == s
  {
    if s != [] {
      var v := FromLe(s[1..]);
      BytesOfLe(s[1..]);
      assert (s[0] + 256 * v) / 256 == v && (s[0] + 256 * v) % 256 == s[0];
      assert s == [s[0]] + s[1..];
    }
  }

  lemma {:induction false} LeRoundTrip(v: nat, k: nat)
    ensures FromLe(Le(v, k)) == v % Pow256(k)
    ensures v < Pow256(k) ==> FromLe(Le(v, k)) == v
  {
    if k > 0 {
      LeRoundTrip(v / 256, k - 1);
      assert Le(v, k)[1..] == Le(v / 256, k - 1);
      CutLow(v, Pow256(k - 1));
      if v < Pow256(k) {
        assert v / 256 < Pow256(k - 1);
      }
    } else {
      assert v % 1 == 0;
    }
  }
}
