/** UTF-8 as section 4 of RFC 3629 defines it, and the lossy conversion that puts U+FFFD in the place of everything
    that is not UTF-8: one for each longest stretch that begins a character and does not complete it, and one for
    each byte that begins none. A string is the bytes of its UTF-8 form. */
module Utf8 {
  import opened Bytes

  /** U+FFFD. */
  const REPLACEMENT: bytes := [0xEF, 0xBF, 0xBD]

  /** How many bytes a character has that starts with `lead`; zero when none does. */
  function Width(lead: byte): nat {
    if lead < 0x80 then 1
    else if 0xC2 <= lead <= 0xDF then 2
    else if 0xE0 <= lead <= 0xEF then 3
    else if 0xF0 <= lead <= 0xF4 then 4
    else 0
  }

  /** `b` may be byte `k` of a character that starts with `lead`: no overlong forms, no surrogates, nothing above
      U+10FFFF. */
  predicate Continues(lead: byte, k: nat, b: byte) {
    if k == 1 && lead == 0xE0 then 0xA0 <= b <= 0xBF
    else if k == 1 && lead == 0xED then 0x80 <= b <= 0x9F
    else if k == 1 && lead == 0xF0 then 0x90 <= b <= 0xBF
    else if k == 1 && lead == 0xF4 then 0x80 <= b <= 0x8F
    else 0x80 <= b <= 0xBF
  }

  function Extend(s: bytes, k: nat): (n: nat)
    requires 1 <= k <= |s|
    ensures k <= n <= |s|
    decreases |s| - k
  {
    if k < |s| && k < Width(s[0]) && Continues(s[0], k, s[k]) then Extend(s, k + 1) else k
  }

  /** How far a character that starts here gets; one byte when none starts here. */
  function Reach(s: bytes): (n: nat)
    requires s != []
    ensures 1 <= n <= |s|
  {
    Extend(s, 1)
  }

  /** A whole character stands in front. */
  predicate Whole(s: bytes) {
    s != [] && Reach(s) == Width(s[0])
  }

  predicate Valid(s: bytes)
    decreases |s|
  {
    s == [] || (Whole(s) && Valid(s[Reach(s)..]))
  }

  function Lossy(s: bytes): bytes
    decreases |s|
  {
    if s == [] then []
    else (if Whole(s) then s[..Reach(s)] else REPLACEMENT) + Lossy(s[Reach(s)..])
  }

  lemma {:induction false} ExtendLocal(s: bytes, t: bytes, k: nat, n: nat)
    requires 1 <= k <= n <= |s| && n <= |t| && Extend(s, k) == n && s[..n] == t[..n]
    requires n == Width(s[0])
    ensures Extend(t, k) == n
    decreases n - k
  {
    assert s[..n][0] == t[..n][0];
    if k < n {
      assert s[..n][k] == t[..n][k];
      ExtendLocal(s, t, k + 1, n);
    }
  }

  /** A whole character is one whatever follows it. */
  lemma {:induction false} WholeInFront(s: bytes, t: bytes)
    requires Whole(s) && Reach(s) <= |t| && s[..Reach(s)] == t[..Reach(s)]
    ensures Whole(t) && Reach(t) == Reach(s)
  {
    assert s[..Reach(s)][0] == t[..Reach(s)][0];
    ExtendLocal(s, t, 1, Reach(s));
  }

  lemma {:induction false} ValidCons(a: bytes, rest: bytes)
    requires Whole(a) && Reach(a) == |a|
    ensures Valid(a + rest) == Valid(rest)
  {
    assert (a + rest)[..|a|] == a[..|a|];
    WholeInFront(a, a + rest);
    assert (a + rest)[|a|..] == rest;
  }

  /** What comes out of the conversion is UTF-8. */
  lemma {:induction false} LossyIsValid(s: bytes)
    ensures Valid(Lossy(s))
    decreases |s|
  {
    if s != [] {
      var n := Reach(s);
      LossyIsValid(s[n..]);
      if Whole(s) {
        WholeInFront(s, s[..n]);
        ValidCons(s[..n], Lossy(s[n..]));
      } else {
        ReplacementIsWhole();
        ValidCons(REPLACEMENT, Lossy(s[n..]));
      }
    }
  }

  lemma {:induction false} ReplacementIsWhole()
    ensures Whole(REPLACEMENT) && Reach(REPLACEMENT) == 3
  {
    assert Extend(REPLACEMENT, 2) == Extend(REPLACEMENT, 3) == 3;
  }

  lemma {:induction false} ValidIsKept(s: bytes)
    requires Valid(s)
    ensures Lossy(s) == s
    decreases |s|
  {
    if s != [] {
      ValidIsKept(s[Reach(s)..]);
      assert s == s[..Reach(s)] + s[Reach(s)..];
    }
  }

  /** A text survives the conversion if and only if it is UTF-8. */
  lemma {:induction false} SurvivesIff(s: bytes)
    ensures Lossy(s) == s <==> Valid(s)
  {
    LossyIsValid(s);
    if Valid(s) {
      ValidIsKept(s);
    }
  }

  // ------------------------------------------------------------------ against the grammar

  ghost predicate Tail(b: byte) {
    0x80 <= b <= 0xBF
  }

  /** One character, as the grammar in section 4 of RFC 3629 spells it out. */
  ghost predicate Character(c: bytes) {
    || (|c| == 1 && c[0] <= 0x7F)
    || (|c| == 2 && 0xC2 <= c[0] <= 0xDF && Tail(c[1]))
    || (|c| == 3 && c[0] == 0xE0 && 0xA0 <= c[1] <= 0xBF && Tail(c[2]))
    || (|c| == 3 && 0xE1 <= c[0] <= 0xEC && Tail(c[1]) && Tail(c[2]))
    || (|c| == 3 && c[0] == 0xED && 0x80 <= c[1] <= 0x9F && Tail(c[2]))
    || (|c| == 3 && 0xEE <= c[0] <= 0xEF && Tail(c[1]) && Tail(c[2]))
    || (|c| == 4 && c[0] == 0xF0 && 0x90 <= c[1] <= 0xBF && Tail(c[2]) && Tail(c[3]))
    || (|c| == 4 && 0xF1 <= c[0] <= 0xF3 && Tail(c[1]) && Tail(c[2]) && Tail(c[3]))
    || (|c| == 4 && c[0] == 0xF4 && 0x80 <= c[1] <= 0x8F && Tail(c[2]) && Tail(c[3]))
  }

  /** Characters one after the other. */
  ghost predicate Characters(s: bytes)
    decreases |s|
  {
    s == [] || exists n :: 1 <= n <= |s| && Character(s[..n]) && Characters(s[n..])
  }

  /** The stretch begins a character. */
  ghost predicate Begins(p: bytes) {
    exists c :: Character(c) && p <= c
  }

  /** The bytes follow each other as they may. */
  ghost predicate Follows(p: bytes) {
    p != [] && |p| <= Width(p[0]) && forall k :: 1 <= k < |p| ==> Continues(p[0], k, p[k])
  }

  lemma {:induction false} CharacterIff(c: bytes)
    ensures Character(c) <==> Follows(c) && |c| == Width(c[0])
  {
    if Follows(c) {
      assert |c| > 1 ==> Continues(c[0], 1, c[1]);
      assert |c| > 2 ==> Continues(c[0], 2, c[2]);
      assert |c| > 3 ==> Continues(c[0], 3, c[3]);
    }
  }

  /** A byte that may come next. */
  ghost function NextByte(lead: byte, k: nat): byte {
    if k == 1 && lead == 0xE0 then 0xA0 else if k == 1 && lead == 0xF0 then 0x90 else 0x80
  }

  lemma {:induction false} Completed(p: bytes) returns (c: bytes)
    requires Follows(p)
    ensures Character(c) && p <= c
    decreases Width(p[0]) - |p|
  {
    if |p| == Width(p[0]) {
      c := p;
      CharacterIff(c);
    } else {
      var q := p + [NextByte(p[0], |p|)];
      assert q[0] == p[0];
      c := Completed(q);
      assert p <= q;
    }
  }

  lemma {:induction false} BeginsIff(p: bytes)
    requires p != []
    ensures Begins(p) <==> Follows(p)
  {
    if Begins(p) {
      var c :| Character(c) && p <= c;
      CharacterIff(c);
      assert forall k :: 0 <= k < |p| ==> p[k] == c[k];
    }
    if Follows(p) {
      var c := Completed(p);
    }
  }

  lemma {:induction false} ExtendFollows(s: bytes, k: nat)
    requires 1 <= k <= |s| && Follows(s[..k])
    ensures Follows(s[..Extend(s, k)])
    ensures Extend(s, k) < |s| ==> !Follows(s[..Extend(s, k) + 1])
    decreases |s| - k
  {
    assert s[..k][0] == s[0];
    if k < |s| {
      var more := s[..k + 1];
      assert more == s[..k] + [s[k]];
      if Follows(more) {
        assert Continues(more[0], k, more[k]);
      }
      if k < Width(s[0]) && Continues(s[0], k, s[k]) {
        ExtendFollows(s, k + 1);
      }
    }
  }

  /** A stretch is as long as it can be: it begins a character and one byte more does not, or it is a byte that begins
      none. */
  lemma {:induction false} ReachIs(s: bytes)
    requires s != []
    ensures Begins(s[..1]) ==> Begins(s[..Reach(s)]) && (Reach(s) < |s| ==> !Begins(s[..Reach(s) + 1]))
    ensures !Begins(s[..1]) ==> Reach(s) == 1
  {
    BeginsIff(s[..1]);
    BeginsIff(s[..Reach(s)]);
    assert s[..1][0] == s[0];
    if Reach(s) < |s| {
      BeginsIff(s[..Reach(s) + 1]);
    }
    if Follows(s[..1]) {
      ExtendFollows(s, 1);
    }
  }

  lemma {:induction false} WholeIff(s: bytes, n: nat)
    requires 1 <= n <= |s|
    ensures Character(s[..n]) <==> Whole(s) && Reach(s) == n
  {
    var c := s[..n];
    assert c[0] == s[0];
    CharacterIff(c);
    if Character(c) {
      FollowsReach(s, n, 1);
    }
    if Whole(s) {
      assert s[..1][0] == s[0];
      ExtendFollows(s, 1);
    }
  }

  lemma {:induction false} FollowsReach(s: bytes, n: nat, k: nat)
    requires 1 <= k <= n <= |s| && Follows(s[..n]) && n == Width(s[0])
    ensures Extend(s, k) == n
    decreases n - k
  {
    assert s[..n][0] == s[0];
    if k < n {
      assert Continues(s[..n][0], k, s[..n][k]);
      FollowsReach(s, n, k + 1);
    }
  }

  /** UTF-8 is a sequence of characters of the grammar. */
  lemma {:induction false} ValidIff(s: bytes)
    ensures Valid(s) <==> Characters(s)
    decreases |s|
  {
    if s != [] {
      if Valid(s) {
        WholeIff(s, Reach(s));
        ValidIff(s[Reach(s)..]);
      }
      if Characters(s) {
        var n :| 1 <= n <= |s| && Character(s[..n]) && Characters(s[n..]);
        WholeIff(s, n);
        ValidIff(s[n..]);
      }
    }
  }

  /** The conversion takes the text apart into characters and stretches, keeps the characters, and puts the three bytes
      of U+FFFD in the place of every stretch. */
  lemma {:induction false} LossyIs(s: bytes)
    requires s != []
    ensures
      var n := Reach(s);
      Lossy(s) == (if Character(s[..n]) then s[..n] else [0xEF, 0xBF, 0xBD]) + Lossy(s[n..])
  {
    WholeIff(s, Reach(s));
  }

  /** Two texts that are not UTF-8 may become one: here two labels of one byte each. */
  lemma {:induction false} TextsMerge()
    ensures [0xE9] != [0xE8] && Lossy([0xE9]) == Lossy([0xE8]) == REPLACEMENT
  {
    var a: bytes, b: bytes := [0xE9], [0xE8];
    assert a[1..] == [] && b[1..] == [] && Lossy([]) == [];
    assert REPLACEMENT + [] == REPLACEMENT;
    assert a[0] != b[0];
  }
}
