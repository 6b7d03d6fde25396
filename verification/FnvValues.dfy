/** Known values of the hash: published ones of FNV-1a, and the buckets of the first two pages. */
module FnvValues {
  import opened Arith
  import opened Config
  import opened Fnv

  /** q followed by so many zero bits. */
  function Shifted(q: nat, bits: nat): nat {
    if bits == 0 then q else 2 * Shifted(q, bits - 1)
  }

  lemma {:induction false} XorLowBits(q: nat, r: nat, b: nat, bits: nat)
    requires r < Pow2(bits) && b < Pow2(bits)
    ensures Xor(Shifted(q, bits) + r, b) == Shifted(q, bits) + Xor(r, b)
  {
    if bits == 0 {
      XorNothing(q);
    } else {
      XorLowBits(q, r / 2, b / 2, bits - 1);
      var x := Shifted(q, bits) + r;
      assert x / 2 == Shifted(q, bits - 1) + r / 2 && x % 2 == r % 2;
    }
  }

  /** A round by its last byte. */
  lemma RoundIs(hash: uint64, q: nat, r: byte, b: byte, x: byte, next: uint64)
    requires hash == 256 * q + r && Xor(r, b) == x
    requires (256 * q + x) * 1099511628211 % 0x1_0000_0000_0000_0000 == next
    ensures Step(hash, b) == next
  {
    EightMoreBits(0);
    XorLowBits(q, r, b, 8);
    ShiftedByte(q);
  }

  lemma ShiftedByte(q: nat)
    ensures Shifted(q, 8) == 256 * q
  {
    assert Shifted(q, 0) == q;
    assert Shifted(q, 1) == 2 * Shifted(q, 0);
    assert Shifted(q, 2) == 2 * Shifted(q, 1);
    assert Shifted(q, 3) == 2 * Shifted(q, 2);
    assert Shifted(q, 4) == 2 * Shifted(q, 3);
    assert Shifted(q, 5) == 2 * Shifted(q, 4);
    assert Shifted(q, 6) == 2 * Shifted(q, 5);
    assert Shifted(q, 7) == 2 * Shifted(q, 6);
    assert Shifted(q, 8) == 2 * Shifted(q, 7);
  }

  lemma FoldNext(hash: uint64, b: byte, rest: seq<byte>)
    ensures Fold(hash, [b] + rest) == Fold(Step(hash, b), rest)
  {
    assert ([b] + rest)[1..] == rest;
  }

  lemma FoldNothing(hash: uint64)
    ensures Fold(hash, []) == hash
  {}

  lemma BasisIs()
    ensures FNV_OFFSET_BASIS == 0xcbf29ce484222325
  {}

  lemma XorBit(x: nat, y: nat, v: nat)
    requires Xor(x / 2, y / 2) == v
    ensures Xor(x, y) == 2 * v + (if x % 2 == y % 2 then 0 else 1)
  {}

  lemma XorZeros()
    ensures Xor(0, 0) == 0
  {}

  /** The published value for the one-byte string "a". */
  lemma HashOfA()
    ensures Fold(0xcbf29ce484222325, [0x61]) == 0xaf63dc4c8601ec8c && FNV_OFFSET_BASIS == 0xcbf29ce484222325
  {
    BasisIs();
    hide *;
    XorZeros();
    XorBit(0, 1, 0);
    XorBit(1, 3, 1);
    XorBit(2, 6, 2);
    XorBit(4, 12, 4);
    XorBit(9, 24, 8);
    XorBit(18, 48, 17);
    XorBit(37, 97, 34);
    RoundIs(14695981039346656037, 57406175934947875, 37, 97, 68, 12638187200555641996);
    FoldNext(14695981039346656037, 97, []);
    assert [0x61] + [] == [0x61];
    FoldNothing(12638187200555641996);
  }

  lemma IndexIs(off: uint64)
    ensures Index(off) == Fold(FNV_OFFSET_BASIS, Bytes(off)) / PAGE_SIZE % HASH_SIZE && PAGE_SIZE == 4096
        && HASH_SIZE == 2048
  {}

  /** After k bytes the state is this. */
  ghost predicate At(bytes: seq<byte>, k: nat, hash: uint64) {
    k <= |bytes| && Fold(FNV_OFFSET_BASIS, bytes) == Fold(hash, bytes[k..])
  }

  lemma AtFirst(bytes: seq<byte>)
    ensures At(bytes, 0, 0xcbf29ce484222325)
  {
    assert bytes[0..] == bytes;
  }

  lemma AtNext(bytes: seq<byte>, k: nat, hash: uint64, next: uint64)
    requires At(bytes, k, hash) && k < |bytes| && Step(hash, bytes[k]) == next
    ensures At(bytes, k + 1, next)
  {
    assert bytes[k..][1..] == bytes[k + 1..];
  }

  lemma AtZero(bytes: seq<byte>, k: nat, hash: uint64, next: uint64)
    requires At(bytes, k, hash) && k < |bytes| && bytes[k] == 0
    requires hash * 1099511628211 % 0x1_0000_0000_0000_0000 == next
    ensures At(bytes, k + 1, next)
  {
    XorNothing(hash);
    AtNext(bytes, k, hash, next);
  }

  lemma AtLast(bytes: seq<byte>, hash: uint64)
    requires At(bytes, |bytes|, hash)
    ensures Fold(FNV_OFFSET_BASIS, bytes) == hash
  {}

  lemma BytesOf0()
    ensures forall i :: 0 <= i < 8 ==> Bytes(0)[i] == 0
  {}

  lemma BytesOf4096()
    ensures forall i :: 0 <= i < 8 ==> Bytes(4096)[i] == if i == 1 then 16 else 0
  {
    EightMoreBits(0);
    EightMoreBits(8);
    PowersGrow();
  }

  lemma PowersGrow()
    ensures Pow2(8) == 256 && Pow2(16) == 65536 && forall i :: 2 <= i < 8 ==> Pow2(8 * i) >= 65536
  {
    hide Pow2;
    assert Pow2(0) == 1 by { PowZero(); }
    EightMoreBits(0); EightMoreBits(8); EightMoreBits(16); EightMoreBits(24);
    EightMoreBits(32); EightMoreBits(40); EightMoreBits(48);
  }

  lemma PowZero()
    ensures Pow2(0) == 1
  {}

  /** The bucket of the first page. */
  lemma IndexOf0()
    ensures Index(0) == 419
  {
    hide *;
    var bytes := Bytes(0);
    BytesOf0();
    IndexIs(0);
    AtFirst(bytes);
    AtZero(bytes, 0, 14695981039346656037, 12638153115695167455);
    AtZero(bytes, 1, 12638153115695167455, 590684067820433389);
    AtZero(bytes, 2, 590684067820433389, 15658191375538532279);
    AtZero(bytes, 3, 15658191375538532279, 5558979605539197941);
    AtZero(bytes, 4, 5558979605539197941, 16482136530319305039);
    AtZero(bytes, 5, 16482136530319305039, 15556837164214743357);
    AtZero(bytes, 6, 15556837164214743357, 8614007388540201639);
    AtZero(bytes, 7, 8614007388540201639, 12161962213042174405);
    AtLast(bytes, 12161962213042174405);
  }

  /** And of the second. */
  lemma IndexOf4096()
    ensures Index(4096) == 1488
  {
    hide *;
    var bytes := Bytes(4096);
    BytesOf4096();
    IndexIs(4096);
    AtFirst(bytes);
    AtZero(bytes, 0, 14695981039346656037, 12638153115695167455);
    XorZeros();
    XorBit(1, 0, 0);
    XorBit(3, 0, 1);
    XorBit(6, 0, 3);
    XorBit(13, 1, 6);
    XorBit(27, 2, 12);
    XorBit(55, 4, 25);
    XorBit(111, 8, 51);
    XorBit(223, 16, 103);
    RoundIs(12638153115695167455, 49367785608184247, 223, 16, 207, 590666475634382013);
    AtNext(bytes, 1, 12638153115695167455, 590666475634382013);
    AtZero(bytes, 2, 590666475634382013, 15642886173676862759);
    AtZero(bytes, 3, 15642886173676862759, 14019079465167890757);
    AtZero(bytes, 4, 14019079465167890757, 16506131699186278463);
    AtZero(bytes, 5, 16506131699186278463, 934156427682302733);
    AtZero(bytes, 6, 934156427682302733, 12548390744411014935);
    AtZero(bytes, 7, 12548390744411014935, 6025886176426920981);
    AtLast(bytes, 6025886176426920981);
  }
}
