/** Byte buffers, and the memory primitives the C code is written with. */
module ByteStrings {

  type byte = bv8
  type Bytes = seq<byte>

  const MAX_RESPONSE: nat := 4096   // NXPSC_MAX_RESPONSE

  function Zeros(n: nat): (z: Bytes) {
    seq(n, _ => 0)
  }

  function Xor(a: Bytes, b: Bytes): (r: Bytes)
    requires |a| == |b|
    ensures |r| == |a|
  {
    seq(|a|, i requires 0 <= i < |a| => a[i] ^ b[i])
  }

  /** `s` with the bytes from `at` on replaced by `t`: the effect of memcpy. */
  function Splice(s: Bytes, at: nat, t: Bytes): (r: Bytes)
    requires at + |t| <= |s|
    ensures |r| == |s|
  {
    s[..at] + t + s[at + |t|..]
  }

  function RotateLeft(s: Bytes): (r: Bytes)
    requires |s| > 0
    ensures |r| == |s|
  {
    s[1..] + [s[0]]
  }

  function Min(a: int, b: int): int {
    if a < b then a else b
  }

  function Max(a: int, b: int): int {
    if a < b then b else a
  }

  // The operations on one byte that proofs leave uninterpreted.
  function Num(b: byte): (n: nat)
    ensures n < 256
  {
    b as nat
  }

  /** The byte of a small number. */
  function Byte(n: nat): (b: byte)
    requires n < 256
    ensures Num(b) == n
  {
    ByteNum(n);
    n as byte
  }

  lemma ByteNum(n: nat)
    requires n < 256
    ensures Num(n as byte) == n
  {}

  /** Three bytes, least significant first (put_u24 and get_u24). */
  function U24(n: nat): (b: Bytes)
    requires n < 0x1000000
    ensures |b| == 3 && FromU24(b) == n
  {
    hide Byte, Num;
    ThreeDigits(n);
    [Byte(n % 256), Byte(n / 256 % 256), Byte(n / 65536)]
  }

  lemma ThreeDigits(n: nat)
    requires n < 0x1000000
    ensures n / 65536 < 256 && n / 256 % 256 < 256 && n % 256 < 256
    ensures n % 256 + 256 * (n / 256 % 256) + 65536 * (n / 65536) == n
  {
    var q := n / 256;
    assert q / 256 == n / 65536;
  }

  function FromU24(b: Bytes): (n: nat)
    requires |b| == 3
    ensures n < 0x1000000
  {
    Num(b[0]) + 256 * Num(b[1]) + 65536 * Num(b[2])
  }

  /** Least significant byte first. */
  lemma U24Little(n: nat)
    requires n < 0x1000000
    ensures Num(U24(n)[0]) == n % 0x100 && Num(U24(n)[1]) == n / 0x100 % 0x100 && Num(U24(n)[2]) == n / 0x10000
  {
    hide Byte, Num;
    ThreeDigits(n);
  }

  /** To the left: every byte moves one place down, the first becomes the last. */
  lemma RotatedAt(s: Bytes, i: nat)
    requires i < |s|
    ensures RotateLeft(s)[i] == if i + 1 == |s| then s[0] else s[i + 1]
  {}

  function X8(a: byte, b: byte): byte { a ^ b }

  /** Big-endian number of a byte string. */
  function Value(s: Bytes): nat {
    if s == [] then 0 else 256 * Value(s[..|s| - 1]) + Num(s[|s| - 1])
  }

  lemma ValueSnoc(s: Bytes, b: byte)
    ensures Value(s + [b]) == 256 * Value(s) + Num(b)
  {
    assert (s + [b])[..|s|] == s;
  }

  lemma XorSelf(a: Bytes, b: Bytes)
    requires |a| == |b|
    ensures Xor(Xor(a, b), b) == a
    ensures Xor(b, Xor(b, a)) == a
    ensures Xor(a, b) == Xor(b, a)
  {
    assert forall i | 0 <= i < |a| :: (a[i] ^ b[i]) ^ b[i] == a[i];
  }

  lemma SpliceExtend(s: Bytes, at: nat, a: Bytes, b: Bytes)
    requires at + |a| + |b| <= |s|
    ensures Splice(Splice(s, at, a), at + |a|, b) == Splice(s, at, a + b)
  {}

  lemma SpliceAt(s: Bytes, at: nat, t: Bytes)
    requires at + |t| <= |s|
    ensures forall i | 0 <= i < |s| :: Splice(s, at, t)[i] == if at <= i < at + |t| then t[i - at] else s[i]
    ensures Splice(s, at, t)[at..at + |t|] == t
    ensures Splice(s, at, t)[..at] == s[..at] && Splice(s, at, t)[at + |t|..] == s[at + |t|..]
    ensures Splice(s, at, []) == s
  {}

  lemma SpliceAll(s: Bytes, t: Bytes)
    requires |s| == |t|
    ensures Splice(s, 0, t) == t
  {}

  /** memcpy from a value into a buffer. */
  method Blit(dst: array<byte>, at: nat, src: Bytes)
    requires at + |src| <= dst.Length
    modifies dst
    ensures dst[..] == Splice(old(dst[..]), at, src)
  {
    for i := 0 to |src|
      invariant forall j | 0 <= j < dst.Length ::
          dst[j] == if at <= j < at + i then src[j - at] else old(dst[j])
    {
      dst[at + i] := src[i];
    }
  }

  /** nxpsc_xor. */
  method XorInto(dst: array<byte>, at: nat, src: Bytes)
    requires at + |src| <= dst.Length
    modifies dst
    ensures dst[..] == Splice(old(dst[..]), at, Xor(old(dst[at..at + |src|]), src))
  {
    for i := 0 to |src|
      invariant forall j | 0 <= j < dst.Length ::
          dst[j] == if at <= j < at + i then old(dst[j]) ^ src[j - at] else old(dst[j])
    {
      dst[at + i] := dst[at + i] ^ src[i];
    }
  }

  /** calloc. */
  method Calloc(n: nat) returns (a: array<byte>)
    ensures fresh(a) && a.Length == n && a[..] == Zeros(n)
  {
    a := new byte[n](_ => 0);
  }
}
