/** FNV-1a over bytes, with 64 bits. */
module Fnv {
  import opened Bytes

  const OFFSET: nat := 0xCBF2_9CE4_8422_2325
  const PRIME: nat := 0x0000_0100_0000_01B3
  const MOD: nat := 0x1_0000_0000_0000_0000
  /** The inverse of the prime modulo `MOD`: `PRIME * INVERSE == 0xCE_9650_590F * MOD + 1`. */
  const INVERSE: nat := 0xCE96_5057_AFF6_957B

  function Power2(k: nat): nat {
    if k == 0 then 1 else 2 * Power2(k - 1)
  }

  /** Exclusive or of the lowest `k` bits. */
  function XorBits(a: nat, b: nat, k: nat): (r: nat)
    ensures r < Power2(k)
  {
    if k == 0 then 0 else (a % 2 + b % 2) % 2 + 2 * XorBits(a / 2, b / 2, k - 1)
  }

  function XorByte(a: byte, b: byte): byte {
    assert Power2(8) == 256;
    XorBits(a, b, 8)
  }

  /** Exclusive or with a byte touches the low byte only. */
  function Xor(h: nat, b: byte): nat {
    h / 256 * 256 + XorByte(h % 256, b)
  }

  function Fnv1a(s: bytes): (h: nat)
    ensures h < MOD
  {
    if s == [] then OFFSET else Xor(Fnv1a(s[..|s| - 1]), s[|s| - 1]) * PRIME % MOD
  }

  /** Bit `i` of a number. */
  ghost function Bit(n: nat, i: nat): nat {
    if i == 0 then n % 2 else Bit(n / 2, i - 1)
  }

  lemma {:induction false} XorBitsAre(a: nat, b: nat, k: nat, i: nat)
    requires i < k
    ensures Bit(XorBits(a, b, k), i) == if Bit(a, i) != Bit(b, i) then 1 else 0
  {
    Halves(XorBits(a / 2, b / 2, k - 1), (a % 2 + b % 2) % 2);
    if i > 0 {
      XorBitsAre(a / 2, b / 2, k - 1, i - 1);
    }
  }

  /** Each bit of the byte flips the bit of the state at its place, and the state above its low byte stays. */
  lemma {:induction false} XorIs(h: nat, b: byte, i: nat)
    requires i < 8
    ensures Xor(h, b) / 256 == h / 256
    ensures Bit(Xor(h, b) % 256, i) == if Bit(h % 256, i) != Bit(b, i) then 1 else 0
  {
    XorBitsAre(h % 256, b, 8, i);
    assert XorByte(h % 256, b) < 256;
  }

  lemma {:induction false} LowByte()
    ensures XorByte(0x25, 0x61) == 0x44
  {
    assert XorBits(0, 0, 1) == 0;
    assert XorBits(0, 1, 2) == 1;
    assert XorBits(1, 3, 3) == 2;
    assert XorBits(2, 6, 4) == 4;
    assert XorBits(4, 12, 5) == 8;
    assert XorBits(9, 24, 6) == 17;
    assert XorBits(18, 48, 7) == 34;
  }

  lemma {:induction false} XorAt(h: nat, high: nat, low: byte, b: byte)
    requires h == 256 * high + low
    ensures Xor(h, b) == 256 * high + XorByte(low, b)
  {
    hide XorByte;
  }

  lemma {:induction false} FirstProduct()
    ensures 0xCBF2_9CE4_8422_2344 * PRIME % MOD == 0xAF63_DC4C_8601_EC8C
  {
    ModUnique(0xCBF2_9CE4_8422_2344 * PRIME, 0xcbf29ce5de, 0xAF63_DC4C_8601_EC8C);
  }

  /** The checksums of the empty text and of the letter a that the authors of FNV publish. */
  lemma {:induction false} Published()
    ensures Fnv1a([]) == 0xCBF2_9CE4_8422_2325 && Fnv1a(['a' as int]) == 0xAF63_DC4C_8601_EC8C
  {
    LowByte();
    XorAt(OFFSET, 0xCB_F29C_E484_2223, 0x25, 0x61);
    FirstProduct();
    hide Xor, XorByte;
    var s: bytes := [97];
    assert s[..0] == [] && Fnv1a(s[..0]) == OFFSET;
  }

  lemma {:induction false} XorInjective(h: nat, g: nat, a: byte, b: byte)
    requires Xor(h, a) == Xor(g, b)
    ensures a == b ==> h == g
    ensures h == g ==> a == b
  {
    var x, y := XorByte(h % 256, a), XorByte(g % 256, b);
    assert h / 256 == g / 256 && x == y;
    if a == b {
      XorTwice(h % 256, a);
      XorTwice(g % 256, b);
    }
    if h == g {
      XorTwice(a, h % 256);
      XorTwice(b, g % 256);
      XorCommutes(h % 256, a);
      XorCommutes(g % 256, b);
    }
  }

  lemma {:induction false} XorTwice(a: byte, b: byte)
    ensures XorByte(XorByte(a, b), b) == a
  {
    assert Power2(8) == 256;
    XorBitsTwice(a, b, 8);
  }

  lemma {:induction false} XorBitsTwice(a: nat, b: nat, k: nat)
    requires a < Power2(k)
    ensures XorBits(XorBits(a, b, k), b, k) == a
  {
    if k > 0 {
      XorBitsTwice(a / 2, b / 2, k - 1);
      var high := XorBits(a / 2, b / 2, k - 1);
      Halves(high, (a % 2 + b % 2) % 2);
      BitTwice(a % 2, b % 2);
    }
  }

  lemma {:induction false} Halves(high: nat, low: nat)
    requires low < 2
    ensures (low + 2 * high) / 2 == high && (low + 2 * high) % 2 == low
  {
  }

  lemma {:induction false} BitTwice(x: nat, y: nat)
    requires x < 2 && y < 2
    ensures ((x + y) % 2 + y) % 2 == x
  {
  }

  lemma {:induction false} XorCommutes(a: byte, b: byte)
    ensures XorByte(a, b) == XorByte(b, a)
  {
    XorBitsCommute(a, b, 8);
  }

  lemma {:induction false} XorBitsCommute(a: nat, b: nat, k: nat)
    ensures XorBits(a, b, k) == XorBits(b, a, k)
  {
    if k > 0 {
      XorBitsCommute(a / 2, b / 2, k - 1);
    }
  }

  /** Multiplying by the prime can be undone. */
  lemma {:induction false} TimesInjective(x: nat, y: nat)
    requires x < MOD && y < MOD && x * PRIME % MOD == y * PRIME % MOD
    ensures x == y
  {
    Undo(x);
    Undo(y);
  }

  lemma {:induction false} Undo(x: nat)
    requires x < MOD
    ensures (x * PRIME % MOD) * INVERSE % MOD == x
  {
    var q, r := x * PRIME / MOD, x * PRIME % MOD;
    UndoBy(x, q, r);
    ModUnique(r * INVERSE, x * 0xCE_9650_590F - q * INVERSE, x);
  }

  lemma {:induction false} UndoBy(x: nat, q: nat, r: nat)
    requires x * PRIME == q * MOD + r
    ensures r * INVERSE == (x * 0xCE_9650_590F - q * INVERSE) * MOD + x
  {
  }

  lemma {:induction false} ModUnique(v: nat, a: int, x: nat)
    requires x < MOD && v == a * MOD + x
    ensures v % MOD == x
  {
  }

  lemma {:induction false} XorBelow(h: nat, b: byte)
    requires h < MOD
    ensures Xor(h, b) < MOD
  {
  }

  /** One more byte: different states stay different under the same byte, and different bytes make one state
      different. */
  lemma {:induction false} StepInjective(h: nat, g: nat, a: byte, b: byte)
    requires h < MOD && g < MOD && Xor(h, a) * PRIME % MOD == Xor(g, b) * PRIME % MOD
    ensures a == b ==> h == g
    ensures h == g ==> a == b
  {
    XorBelow(h, a);
    XorBelow(g, b);
    TimesInjective(Xor(h, a), Xor(g, b));
    XorInjective(h, g, a, b);
  }

  /** Changing one byte always changes the checksum. */
  lemma {:induction false} OneByteChanges(s: bytes, i: nat, b: byte)
    requires i < |s| && b != s[i]
    ensures Fnv1a(s[i := b]) != Fnv1a(s)
    decreases |s|
  {
    hide Xor;
    var last := |s| - 1;
    var t := s[i := b];
    if i == last {
      assert t[..last] == s[..last];
      if Fnv1a(t) == Fnv1a(s) {
        StepInjective(Fnv1a(t[..last]), Fnv1a(s[..last]), t[last], s[last]);
      }
    } else {
      assert t[..last] == s[..last][i := b];
      OneByteChanges(s[..last], i, b);
      if Fnv1a(t) == Fnv1a(s) {
        StepInjective(Fnv1a(t[..last]), Fnv1a(s[..last]), t[last], s[last]);
      }
    }
  }
}
