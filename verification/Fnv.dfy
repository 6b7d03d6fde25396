/** The page cache's bucket index: 64-bit FNV-1a over the eight bytes of a page offset. */
module Fnv {
  import opened Arith
  import opened Config

  const FNV_OFFSET_BASIS: uint64 := 14695981039346656037

  // 2^64 and the prime are written out below: the solver multiplies and divides by literals.

  lemma EightMoreBits(n: nat)
    ensures Pow2(n + 8) == 256 * Pow2(n)
  {
    assert Pow2(n + 2) == 4 * Pow2(n);
    assert Pow2(n + 4) == 4 * Pow2(n + 2);
    assert Pow2(n + 6) == 4 * Pow2(n + 4);
  }

  lemma WordSize()
    ensures Pow2(64) == 0x1_0000_0000_0000_0000
  {
    EightMoreBits(0); EightMoreBits(8); EightMoreBits(16); EightMoreBits(24);
    EightMoreBits(32); EightMoreBits(40); EightMoreBits(48); EightMoreBits(56);
  }

  /** Bitwise exclusive or. */
  function Xor(x: nat, y: nat): nat
    decreases x + y
  {
    if x == 0 && y == 0 then 0
    else 2 * Xor(x / 2, y / 2) + (if x % 2 == y % 2 then 0 else 1)
  }

  lemma {:induction false} XorBelow(x: nat, y: nat, bits: nat)
    requires x < Pow2(bits) && y < Pow2(bits)
    ensures Xor(x, y) < Pow2(bits)
  {
    if bits > 0 {
      XorBelow(x / 2, y / 2, bits - 1);
    }
  }

  /** A word xor a byte is a word. */
  function XorByte(x: uint64, b: byte): uint64 {
    WordSize();
    XorBelow(x, b, 64);
    Xor(x, b)
  }

  /** One round of FNV-1a: xor the byte in, then multiply by the prime modulo 2^64. */
  function Step(hash: uint64, b: byte): uint64 {
    XorByte(hash, b) * 1099511628211 % 0x1_0000_0000_0000_0000
  }

  /** Undoes a round: multiply by the prime's inverse modulo 2^64, then xor the byte out. */
  function Unstep(hash: uint64, b: byte): uint64 {
    XorByte(hash * 14886173955864302971 % 0x1_0000_0000_0000_0000, b)
  }

  function Fold(hash: uint64, bytes: seq<byte>): uint64
    decreases |bytes|
  {
    if bytes == [] then hash else Fold(Step(hash, bytes[0]), bytes[1..])
  }

  /** The offset as it lies in memory on a little-endian host. */
  function Bytes(off: uint64): (bytes: seq<byte>)
    ensures |bytes| == 8
  {
    seq(8, i requires 0 <= i < 8 => off / Pow2(8 * i) % 256)
  }

  function Hash(off: uint64): uint64 {
    Fold(FNV_OFFSET_BASIS, Bytes(off))
  }

  function Index(off: uint64): (index: nat)
    ensures index < HASH_SIZE
  {
    Hash(off) / PAGE_SIZE % HASH_SIZE
  }

  lemma FoldAppend(hash: uint64, bytes: seq<byte>, b: byte)
    ensures Fold(hash, bytes + [b]) == Step(Fold(hash, bytes), b)
    decreases |bytes|
  {
    if bytes == [] {
      assert [] + [b] == [b];
    } else {
      assert (bytes + [b])[1..] == bytes[1..] + [b];
      FoldAppend(Step(hash, bytes[0]), bytes[1..], b);
    }
  }

  /** The loop of the C function computes the index. */
  method HashFunc(off: uint64) returns (index: nat)
    ensures index == Index(off)
  {
    var bytes := Bytes(off);
    var hash := FNV_OFFSET_BASIS;
    for i := 0 to |bytes|
      invariant hash == Fold(FNV_OFFSET_BASIS, bytes[..i])
    {
      assert bytes[..i + 1] == bytes[..i] + [bytes[i]];
      FoldAppend(FNV_OFFSET_BASIS, bytes[..i], bytes[i]);
      hash := XorByte(hash, bytes[i]);
      hash := hash * 1099511628211 % 0x1_0000_0000_0000_0000;
    }
    assert bytes[..|bytes|] == bytes;
    index := hash / PAGE_SIZE % HASH_SIZE;
  }

  lemma {:induction false} XorCancels(x: nat, y: nat)
    ensures Xor(Xor(x, y), y) == x
    decreases x + y
  {
    if x != 0 || y != 0 {
      XorCancels(x / 2, y / 2);
      assert Xor(x, y) / 2 == Xor(x / 2, y / 2);
    }
  }

  lemma {:induction false} XorCommutes(x: nat, y: nat)
    ensures Xor(x, y) == Xor(y, x)
    decreases x + y
  {
    if x != 0 || y != 0 {
      XorCommutes(x / 2, y / 2);
    }
  }

  lemma XorSeparatesBytes(x: uint64, b: byte, c: byte)
    requires b != c
    ensures XorByte(x, b) != XorByte(x, c)
  {
    XorCommutes(x, b);
    XorCommutes(x, c);
    XorCancels(b, x);
    XorCancels(c, x);
  }

  /** A product's low word times the inverse's low word is the word itself. */
  lemma ReduceMultiple(x: uint64, t: int)
    ensures (x + t * 0x1_0000_0000_0000_0000) % 0x1_0000_0000_0000_0000 == x
  {}

  lemma MultiplyUndone(x: uint64)
    ensures x * 1099511628211 % 0x1_0000_0000_0000_0000 * 14886173955864302971 % 0x1_0000_0000_0000_0000 == x
  {
    var q := x * 1099511628211 / 0x1_0000_0000_0000_0000;
    Cancel(x, x * 1099511628211 % 0x1_0000_0000_0000_0000, q, 1099511628211, 14886173955864302971);
  }

  lemma MultiplyRedone(x: uint64)
    ensures x * 14886173955864302971 % 0x1_0000_0000_0000_0000 * 1099511628211 % 0x1_0000_0000_0000_0000 == x
  {
    var q := x * 14886173955864302971 / 0x1_0000_0000_0000_0000;
    Cancel(x, x * 14886173955864302971 % 0x1_0000_0000_0000_0000, q, 14886173955864302971, 1099511628211);
  }

  lemma Cancel(x: uint64, r: int, q: int, a: int, b: int)
    requires (a == 1099511628211 && b == 14886173955864302971) || (b == 1099511628211 && a == 14886173955864302971)
    requires x * a == q * 0x1_0000_0000_0000_0000 + r
    ensures r * b % 0x1_0000_0000_0000_0000 == x
  {
    var k := 1099511628211 * 14886173955864302971 / 0x1_0000_0000_0000_0000;
    assert 1099511628211 * 14886173955864302971 == 1 + k * 0x1_0000_0000_0000_0000;
    ReduceMultiple(x, x * k - q * b);
    assert r * b == x + (x * k - q * b) * 0x1_0000_0000_0000_0000;
  }

  /** For every byte, a round is a bijection of the 64-bit states. */
  lemma StepIsBijective(hash: uint64, b: byte)
    ensures Unstep(Step(hash, b), b) == hash
    ensures Step(Unstep(hash, b), b) == hash
  {
    MultiplyUndone(XorByte(hash, b));
    XorCancels(hash, b);
    XorCancels(hash * 14886173955864302971 % 0x1_0000_0000_0000_0000, b);
    MultiplyRedone(hash);
  }

  /** From one state, different bytes lead to different states. */
  lemma StepSeparatesBytes(hash: uint64, b: byte, c: byte)
    requires b != c
    ensures Step(hash, b) != Step(hash, c)
  {
    XorSeparatesBytes(hash, b, c);
    MultiplyUndone(XorByte(hash, b));
    MultiplyUndone(XorByte(hash, c));
  }

  /** Reading the same bytes keeps different states different. */
  lemma {:induction false} FoldInjective(hash: uint64, hash': uint64, bytes: seq<byte>)
    requires hash != hash'
    ensures Fold(hash, bytes) != Fold(hash', bytes)
    decreases |bytes|
  {
    if bytes != [] {
      StepIsBijective(hash, bytes[0]);
      StepIsBijective(hash', bytes[0]);
      FoldInjective(Step(hash, bytes[0]), Step(hash', bytes[0]), bytes[1..]);
    }
  }

  /** Byte strings of one length that differ in exactly one place never collide. */
  lemma {:induction false} OneByteApart(hash: uint64, s: seq<byte>, t: seq<byte>, k: nat)
    requires |s| == |t| && k < |s| && s[k] != t[k]
    requires forall i :: 0 <= i < |s| && i != k ==> s[i] == t[i]
    ensures Fold(hash, s) != Fold(hash, t)
    decreases |s|
  {
    if k == 0 {
      assert s[1..] == t[1..];
      StepSeparatesBytes(hash, s[0], t[0]);
      FoldInjective(Step(hash, s[0]), Step(hash, t[0]), s[1..]);
    } else {
      OneByteApart(Step(hash, s[0]), s[1..], t[1..], k - 1);
    }
  }

  /** Two offsets that differ in exactly one byte have different 64-bit hashes. */
  lemma OffsetsOneByteApart(off: uint64, off': uint64, k: nat)
    requires k < 8 && Bytes(off)[k] != Bytes(off')[k]
    requires forall i :: 0 <= i < 8 && i != k ==> Bytes(off)[i] == Bytes(off')[i]
    ensures Hash(off) != Hash(off')
  {
    OneByteApart(FNV_OFFSET_BASIS, Bytes(off), Bytes(off'), k);
  }

  lemma {:induction false} XorNothing(x: nat)
    ensures Xor(x, 0) == x
  {
    if x != 0 { XorNothing(x / 2); }
  }
}
