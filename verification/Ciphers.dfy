/** The block ciphers underneath: AES and DES are abstract pairs of inverse
    permutations, triple DES is built from DES. */
module Ciphers {
  import opened ByteStrings

  datatype KeyType = DES | TwoKeyTdea | ThreeKeyTdea | AES128 | AES256

  function KeySize(t: KeyType): nat {
    match t
    case DES => 8
    case TwoKeyTdea => 16
    case ThreeKeyTdea => 24
    case AES128 => 16
    case AES256 => 32
  }

  function BlockSize(t: KeyType): nat {
    if t.AES128? || t.AES256? then 16 else 8
  }

  /** Key and block lengths in bytes. */
  lemma Lengths()
    ensures KeySize(DES) == 8 && KeySize(TwoKeyTdea) == 16 && KeySize(ThreeKeyTdea) == 24 && KeySize(AES128) == 16 && KeySize(AES256) == 32
    ensures BlockSize(DES) == BlockSize(TwoKeyTdea) == BlockSize(ThreeKeyTdea) == 8 && BlockSize(AES128) == BlockSize(AES256) == 16
  {}

  predicate IsAes(t: KeyType) {
    t.AES128? || t.AES256?
  }

  /** Encryption and decryption of one block, each taking key and block. */
  datatype RawPrimitives = RawPrimitives(
    aesE: (Bytes, Bytes) -> Bytes, aesD: (Bytes, Bytes) -> Bytes,
    desE: (Bytes, Bytes) -> Bytes, desD: (Bytes, Bytes) -> Bytes)

  ghost predicate Undoes(f: (Bytes, Bytes) -> Bytes, g: (Bytes, Bytes) -> Bytes, n: nat) {
    forall k, x {:trigger f(k, x)} :: |x| == n ==> |f(k, x)| == n && g(k, f(k, x)) == x
  }

  ghost predicate Invertible(p: RawPrimitives) {
    && Undoes(p.aesE, p.aesD, 16) && Undoes(p.aesD, p.aesE, 16)
    && Undoes(p.desE, p.desD, 8) && Undoes(p.desD, p.desE, 8)
  }

  type Primitives = p: RawPrimitives | Invertible(p)
    witness RawPrimitives((k, x) => x, (k, x) => x, (k, x) => x, (k, x) => x)

  /** A cipher with its key, the first three arguments of every C routine. */
  datatype RawCipher = RawCipher(p: Primitives, kind: KeyType, key: Bytes)

  type Cipher = c: RawCipher | |c.key| == KeySize(c.kind)
    witness RawCipher(RawPrimitives((k, x) => x, (k, x) => x, (k, x) => x, (k, x) => x), DES, Zeros(8))

  /** The C code passes key buffers of NXPSC_MAX_KEY_SIZE bytes. */
  function Keyed(p: Primitives, kind: KeyType, buffer: Bytes): Cipher
    requires |buffer| >= KeySize(kind)
  {
    RawCipher(p, kind, buffer[..KeySize(kind)])
  }

  function Block(c: Cipher): nat {
    BlockSize(c.kind)
  }

  /** Encrypt-decrypt-encrypt with three DES keys (NIST SP 800-67), or its
      inverse. */
  function TripleDes(p: Primitives, k1: Bytes, k2: Bytes, k3: Bytes, x: Bytes, encrypt: bool): (y: Bytes)
    requires |x| == 8
    ensures |y| == 8
  {
    if encrypt then p.desE(k3, p.desD(k2, p.desE(k1, x)))
    else p.desD(k1, p.desE(k2, p.desD(k3, x)))
  }

  /** nxpsc_ecb_encrypt_block and nxpsc_ecb_decrypt_block. */
  function Ecb(c: Cipher, x: Bytes, encrypt: bool): (y: Bytes)
    requires |x| == Block(c)
    ensures |y| == Block(c)
  {
    match c.kind
    case DES => if encrypt then c.p.desE(c.key, x) else c.p.desD(c.key, x)
    case TwoKeyTdea => TripleDes(c.p, c.key[..8], c.key[8..], c.key[..8], x, encrypt)
    case ThreeKeyTdea => TripleDes(c.p, c.key[..8], c.key[8..16], c.key[16..], x, encrypt)
    case _ => if encrypt then c.p.aesE(c.key, x) else c.p.aesD(c.key, x)
  }

  lemma EcbInverse(c: Cipher, x: Bytes, encrypt: bool)
    requires |x| == Block(c)
    ensures Ecb(c, Ecb(c, x, encrypt), !encrypt) == x
  {}

  /** AES and DES under the whole key; and the key parts of triple DES in the order of
      NIST SP 800-67: the first enciphers, the second deciphers, the third, or the first
      again, enciphers. */
  lemma EcbIs(p: Primitives, k1: Bytes, k2: Bytes, k3: Bytes, x: Bytes, key: Bytes, y: Bytes)
    requires |k1| == |k2| == |k3| == |x| == 8 && |y| == 16
    ensures |key| == 16 ==> Ecb(RawCipher(p, AES128, key), y, true) == p.aesE(key, y)
    ensures |key| == 32 ==> Ecb(RawCipher(p, AES256, key), y, true) == p.aesE(key, y)
    ensures Ecb(RawCipher(p, DES, k1), x, true) == p.desE(k1, x)
    ensures Ecb(RawCipher(p, ThreeKeyTdea, k1 + k2 + k3), x, true) == p.desE(k3, p.desD(k2, p.desE(k1, x)))
    ensures Ecb(RawCipher(p, TwoKeyTdea, k1 + k2), x, true) == p.desE(k1, p.desD(k2, p.desE(k1, x)))
  {
    var three, two := k1 + k2 + k3, k1 + k2;
    assert three[..8] == k1 && three[8..16] == k2 && three[16..] == k3 && two[..8] == k1 && two[8..] == k2;
  }

  /** A two-key key whose halves are equal is a single DES key. */
  lemma DegradedBlock(p: Primitives, k: Bytes, x: Bytes, encrypt: bool)
    requires |k| == 8 && |x| == 8
    ensures Ecb(RawCipher(p, TwoKeyTdea, k + k), x, encrypt) == Ecb(RawCipher(p, DES, k), x, encrypt)
  {
    assert (k + k)[..8] == k && (k + k)[8..] == k;
  }
}
