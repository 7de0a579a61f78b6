/** Bytes as numbers, shared by the modules that describe a wire format or a file. */
module Bytes {
  type byte = b: int | 0 <= b < 256
  type bytes = seq<byte>

  /** `s` stands in `buf` at `pos`. */
  ghost predicate Stands(buf: bytes, pos: nat, s: bytes) {
    pos + |s| <= |buf| && buf[pos..pos + |s|] == s
  }

  lemma {:induction false} StandsSplit(buf: bytes, pos: nat, a: bytes, b: bytes)
    requires Stands(buf, pos, a + b)
    ensures Stands(buf, pos, a) && Stands(buf, pos + |a|, b)
  {
    var s := buf[pos..pos + |a + b|];
    assert s[..|a|] == a && s[|a|..] == b;
  }
}
