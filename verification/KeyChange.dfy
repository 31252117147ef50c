/** ChangeKey: what the reader builds, what the card makes of it, and that the
    two never disagree about the stored key bytes. */
module KeyChange {
  import opened ByteStrings
  import opened Results
  import opened Ciphers
  import opened Sessions
  import opened Crc
  import opened Handshakes

  //--------------------------------------------------------------------------
  // key versions
  //--------------------------------------------------------------------------

  function Marked(b: byte, bit: bool): byte { (b & 0xFE) | (if bit then 1 else 0) }
  predicate LowBit(b: byte) { b & 1 == 1 }
  predicate BitOf(version: byte, n: nat) requires n < 8 { (version >> (7 - n)) & 1 == 1 }
  function Weight(bit: bool, n: nat): byte requires n < 8 { if bit then 1 << (7 - n) else 0 }

  function Assembled(b0: bool, b1: bool, b2: bool, b3: bool, b4: bool, b5: bool, b6: bool, b7: bool): byte {
    Weight(b0, 0) | Weight(b1, 1) | Weight(b2, 2) | Weight(b3, 3)
    | Weight(b4, 4) | Weight(b5, 5) | Weight(b6, 6) | Weight(b7, 7)
  }

  /** nxpsc_des_key_set_version: bit `n` of the version, from the top, goes into
      the low bit of every byte whose position is `n` modulo 8. */
  function SetVersion(key: Bytes, version: byte): (r: Bytes)
    ensures |r| == |key|
  {
    seq(|key|, i requires 0 <= i < |key| => Marked(key[i], BitOf(version, i % 8)))
  }

  /** nxpsc_des_key_get_version */
  function GetVersion(key: Bytes): byte
    requires |key| >= 8
  {
    Assembled(LowBit(key[0]), LowBit(key[1]), LowBit(key[2]), LowBit(key[3]),
              LowBit(key[4]), LowBit(key[5]), LowBit(key[6]), LowBit(key[7]))
  }

  lemma MarkedLow(b: byte, bit: bool)
    ensures LowBit(Marked(b, bit)) == bit
  {}

  lemma MarkedSame(a: byte, b: byte, bit: bool)
    ensures Marked(a, bit) == Marked(b, bit) <==> a | 1 == b | 1
  {}

  lemma BitsMake(v: byte)
    ensures v == Assembled(BitOf(v, 0), BitOf(v, 1), BitOf(v, 2), BitOf(v, 3),
                           BitOf(v, 4), BitOf(v, 5), BitOf(v, 6), BitOf(v, 7))
  {}

  /** The version read back is the version written. */
  lemma VersionRoundTrip(key: Bytes, version: byte)
    requires |key| >= 8
    ensures GetVersion(SetVersion(key, version)) == version
  {
    hide Marked, LowBit, BitOf, Assembled;
    BitsMake(version);
    var k := SetVersion(key, version);
    forall n | 0 <= n < 8 ensures LowBit(k[n]) == BitOf(version, n) {
      MarkedLow(key[n], BitOf(version, n));
    }
  }

  /** The two nested loops of nxpsc_des_key_set_version. */
  method SetVersionInto(key: array<byte>, len: nat, version: byte)
    requires len <= key.Length
    modifies key
    ensures key[..] == SetVersion(old(key[..len]), version) + old(key[len..])
  {
    hide Marked, BitOf;
    for n := 0 to 8
      invariant forall i | 0 <= i < key.Length ::
          key[i] == if i < len && i % 8 < n then Marked(old(key[i]), BitOf(version, i % 8)) else old(key[i])
    {
      var bit := BitOf(version, n);
      var k := n;
      while k < len
        invariant k % 8 == n
        invariant forall i | 0 <= i < key.Length ::
            key[i] == if i < len && (i % 8 < n || (i % 8 == n && i < k)) then Marked(old(key[i]), BitOf(version, i % 8))
                      else old(key[i])
      {
        key[k] := Marked(key[k], bit);
        k := k + 8;
      }
    }
  }

  //--------------------------------------------------------------------------
  // what the card stores
  //--------------------------------------------------------------------------

  /** A single DES key travels and is stored as a two-key key. */
  function StoredLength(kind: KeyType): (n: nat) {
    if kind.DES? then 16 else KeySize(kind)
  }

  function Normalised(key: Key): (b: Bytes)
    ensures |b| == KeySize(key.kind)
  {
    var d := key.data[..KeySize(key.kind)];
    if IsAes(key.kind) then d else SetVersion(d, key.version)
  }

  /** The bytes the card stores for a key, in a 32-byte buffer: version bits set
      first, then a DES key doubled. */
  function Stored(key: Key): (b: Bytes)
    ensures |b| == 32
  {
    hide Normalised;
    var n := Normalised(key);
    (if key.kind.DES? then n + n else n) + Zeros(32 - StoredLength(key.kind))
  }

  /** The version the card reports: its own byte for AES, the low bits else. */
  function StoredVersion(kind: KeyType, stored: Bytes, byteGiven: byte): byte
    requires |stored| >= 8
  {
    if IsAes(kind) then byteGiven else GetVersion(stored)
  }

  lemma StoredVersionIs(key: Key)
    ensures StoredVersion(key.kind, Stored(key), key.version) == key.version
  {
    hide GetVersion, SetVersion;
    if !IsAes(key.kind) {
      var d := key.data[..KeySize(key.kind)];
      VersionRoundTrip(d, key.version);
      SameVersion(Normalised(key), Stored(key));
    }
  }

  lemma SameVersion(a: Bytes, b: Bytes)
    requires |a| >= 8 && |b| >= 8 && a[..8] == b[..8]
    ensures GetVersion(a) == GetVersion(b)
  {
    hide LowBit, Assembled;
    assert forall i | 0 <= i < 8 :: a[i] == a[..8][i] && b[i] == b[..8][i];
  }

  /** A stored DES key has equal halves. */
  lemma DesHalvesEqual(key: Key)
    requires key.kind.DES?
    ensures Stored(key)[..8] == Stored(key)[8..16]
  {
    hide Normalised;
  }

  /** For a two-key key the card sees equal halves exactly if the caller's halves
      are equal up to the lowest bits of their bytes. */
  lemma TwoKeyHalves(key: Key)
    requires key.kind.TwoKeyTdea?
    ensures Stored(key)[..8] == Stored(key)[8..16] <==> forall i | 0 <= i < 8 :: key.data[i] | 1 == key.data[i + 8] | 1
  {
    hide Marked, BitOf;
    var s := Stored(key);
    forall i | 0 <= i < 8 ensures s[i] == s[i + 8] <==> key.data[i] | 1 == key.data[i + 8] | 1 {
      assert (i + 8) % 8 == i;
      MarkedSame(key.data[i], key.data[i + 8], BitOf(key.version, i));
    }
    if s[..8] == s[8..16] {
      forall i | 0 <= i < 8 ensures s[i] == s[i + 8] {
        assert s[..8][i] == s[8..16][i];
      }
    }
  }

  /** The reader derives a DES session exactly when the card does, unless the
      caller's halves differ in nothing but low bits: auth_legacy compares the
      bytes as given, the card the bytes it stored. */
  lemma HalvesCheckAgrees(key: Key)
    requires key.kind.TwoKeyTdea?
    ensures (EqualHalves(key) <==> Stored(key)[..8] == Stored(key)[8..16])
       <==> (key.data[..8] == key.data[8..16] || exists i | 0 <= i < 8 :: key.data[i] | 1 != key.data[i + 8] | 1)
  {
    hide Stored;
    TwoKeyHalves(key);
    if key.data[..8] == key.data[8..16] {
      forall i | 0 <= i < 8 ensures key.data[i] == key.data[i + 8] {
        assert key.data[..8][i] == key.data[8..16][i];
      }
    }
  }

  /** Such a key exists. */
  lemma LowBitsOnly()
    ensures var key := RawKey(TwoKeyTdea, Zeros(32)[8 := 1], 0);
            !EqualHalves(key) && Stored(key)[..8] == Stored(key)[8..16]
  {
    hide Stored;
    var key := RawKey(TwoKeyTdea, Zeros(32)[8 := 1], 0);
    TwoKeyHalves(key);
    assert key.data[..8][0] != key.data[8..16][0];
  }

  //--------------------------------------------------------------------------
  // the payload
  //--------------------------------------------------------------------------

  const CHANGE_KEY: byte := 0xC4
  const CHANGE_KEY_EV2: byte := 0xC6

  /** keytype_to_card */
  function TypeBits(kind: KeyType): byte {
    if kind.ThreeKeyTdea? then 0x40 else if IsAes(kind) then 0x80 else 0x00
  }

  /** The key number byte; the PICC master key carries its type there. */
  function KeyNoData(keyNo: byte, kind: KeyType, picc: bool): byte {
    (keyNo & 0x3F) | (if picc && keyNo == 0 then TypeBits(kind) else 0x00)
  }

  /** How a card reads the byte. */
  function KeyNumber(b: byte): byte { b & 0x3F }
  function TypeField(b: byte): byte { b & 0xC0 }

  /** Number and type field are read back; a number from 0x40 up is read as its
      low six bits. */
  lemma KeyNoRoundTrip(keyNo: byte, kind: KeyType, picc: bool)
    ensures var b := KeyNoData(keyNo, kind, picc);
            && KeyNumber(b) == KeyNumber(keyNo)
            && TypeField(b) == if picc && keyNo == 0 then TypeBits(kind) else 0x00
    ensures KeyNumber(keyNo) == keyNo <==> keyNo < 0x40
  {}

  /** New key bytes, XORed with the old ones unless the key is its own session's
      key, and the version byte of AES. */
  function KeyText(newStored: Bytes, oldStored: Bytes, kind: KeyType, version: byte, same: bool): (b: Bytes)
    requires |newStored| == |oldStored| == 32
    ensures |b| == StoredLength(kind) + if IsAes(kind) then 1 else 0
  {
    var n := StoredLength(kind);
    (if same then newStored[..n] else Xor(newStored[..n], oldStored[..n])) + if IsAes(kind) then [version] else []
  }

  /** The checksums behind it, which differ per channel. */
  function Checksums(channel: Channel, prefix: Bytes, text: Bytes, newKey: Bytes, same: bool): (b: Bytes)
    ensures |b| <= 8
  {
    match channel
    case D40 => CrcOf(W16, text) + if same then [] else CrcOf(W16, newKey)
    case EV1 => CrcOf(W32, prefix + text) + if same then [] else CrcOf(W32, newKey)
    case _ => if same then [] else CrcOf(W32, newKey)
  }

  function Payload(channel: Channel, prefix: Bytes, newStored: Bytes, oldStored: Bytes, kind: KeyType, version: byte,
                   same: bool): (b: Bytes)
    requires |newStored| == |oldStored| == 32
  {
    hide CrcOf;
    var text := KeyText(newStored, oldStored, kind, version, same);
    text + Checksums(channel, prefix, text, newStored[..StoredLength(kind)], same)
  }

  /** The 48-byte frame holds command, key number and every payload. */
  lemma FrameFits(channel: Channel, prefix: Bytes, newStored: Bytes, oldStored: Bytes, kind: KeyType, version: byte, same: bool)
    requires |newStored| == |oldStored| == 32
    ensures 2 + |Payload(channel, prefix, newStored, oldStored, kind, version, same)| <= 48
  {
    hide CrcOf;
  }

  //--------------------------------------------------------------------------
  // the card
  //--------------------------------------------------------------------------

  /** A stored key: how it is stored, its bytes, its version. */
  datatype KeySlot = KeySlot(kind: KeyType, bytes: Bytes, version: byte)

  /** A single DES key is stored as a two-key key, and then is one to the card. */
  function StoredKind(kind: KeyType): KeyType {
    if kind.DES? then TwoKeyTdea else kind
  }

  function SlotFor(key: Key): KeySlot {
    KeySlot(StoredKind(key.kind), Stored(key), key.version)
  }

  /** The card undoes the XOR with the bytes it stores, checks every checksum,
      and takes the version from its byte or from the key. */
  function Accepted(channel: Channel, prefix: Bytes, payload: Bytes, stored: Bytes, kind: KeyType, same: bool): Result<KeySlot>
    requires |stored| == 32
  {
    hide CrcOf, GetVersion;
    var n := StoredLength(kind);
    var t := n + if IsAes(kind) then 1 else 0;
    if |payload| < t then Err(Length)
    else
      var key := if same then payload[..n] else Xor(payload[..n], stored[..n]);
      if payload[t..] != Checksums(channel, prefix, payload[..t], key, same) then Err(Error.Crypto)
      else
        var bytes := key + Zeros(32 - n);
        Ok(KeySlot(kind, bytes, StoredVersion(kind, bytes, if IsAes(kind) then payload[n] else 0)))
  }

  lemma StoredTail(key: Key)
    ensures Stored(key)[..StoredLength(key.kind)] + Zeros(32 - StoredLength(key.kind)) == Stored(key)
  {
    hide Normalised;
  }

  /** From the payload the card recovers exactly the normalised new key and its
      version, on every channel, for every key type, for the session's own key
      and for any other. */
  lemma CardRecoversKey(channel: Channel, prefix: Bytes, newKey: Key, oldStored: Bytes, same: bool)
    requires |oldStored| == 32
    ensures Accepted(channel, prefix, Payload(channel, prefix, Stored(newKey), oldStored, newKey.kind, newKey.version, same),
                     oldStored, StoredKind(newKey.kind), same)
            == Ok(SlotFor(newKey))
  {
    hide CrcOf, GetVersion, Normalised, Stored;
    var n, s := StoredLength(newKey.kind), Stored(newKey);
    var text := KeyText(s, oldStored, newKey.kind, newKey.version, same);
    var sums := Checksums(channel, prefix, text, s[..n], same);
    XorSelf(s[..n], oldStored[..n]);
    StoredVersionIs(newKey);
    StoredTail(newKey);
    assert (text + sums)[..|text|] == text && (text + sums)[|text|..] == sums;
    assert text[..n] == if same then s[..n] else Xor(s[..n], oldStored[..n]);
    assert (text + sums)[..n] == text[..n];
  }

  /** A payload for another key type, or one that is not combined with the old key
      as the card expects, has the wrong length: it is refused. */
  lemma CardRefuses(channel: Channel, prefix: Bytes, newKey: Key, oldStored: Bytes, same: bool, kind: KeyType, cardSame: bool)
    requires |oldStored| == 32 && !kind.DES? && (same ==> cardSame)
    requires StoredKind(newKey.kind) != kind || same != cardSame
    ensures Accepted(channel, prefix, Payload(channel, prefix, Stored(newKey), oldStored, newKey.kind, newKey.version, same),
                     oldStored, kind, cardSame).Err?
  {
    hide CrcOf, GetVersion, Stored, Xor;
  }

  //--------------------------------------------------------------------------
  // what the payload holds, and what its checksums cover
  //--------------------------------------------------------------------------

  /** Every byte keeps its upper seven bits; its lowest one is the bit of the version
      that its position names, the highest for the first byte. */
  lemma VersionBits(key: Bytes, version: byte, i: nat)
    requires i < |key|
    ensures SetVersion(key, version)[i] & 0xFE == key[i] & 0xFE
    ensures SetVersion(key, version)[i] & 1 == (version >> (7 - i % 8)) & 1
  {
    BitBack(version, i % 8, key[i]);
  }

  lemma BitBack(version: byte, n: nat, b: byte)
    requires n < 8
    ensures Marked(b, BitOf(version, n)) & 0xFE == b & 0xFE
    ensures Marked(b, BitOf(version, n)) & 1 == (version >> (7 - n)) & 1
  {
    BitOnly(version >> (7 - n));
  }

  lemma BitOnly(b: byte)
    ensures b & 1 == 0 || b & 1 == 1
  {}

  /** AES keys are stored as they are, others with the version in them, a DES key twice;
      zeros behind. */
  lemma StoredHolds(key: Key)
    ensures var s, d := Stored(key), key.data;
            match key.kind
            case DES => s[..8] == s[8..16] == SetVersion(d[..8], key.version) && s[16..] == Zeros(16)
            case TwoKeyTdea => s[..16] == SetVersion(d[..16], key.version) && s[16..] == Zeros(16)
            case ThreeKeyTdea => s[..24] == SetVersion(d[..24], key.version) && s[24..] == Zeros(8)
            case AES128 => s[..16] == d[..16] && s[16..] == Zeros(16)
            case AES256 => s == d
  {
    hide SetVersion;
  }

  /** The key as the card stores it, byte by byte combined with the old one unless it is
      the session's own; the version behind an AES key; and the checksums: on D40 a CRC16
      over all that, on EV1 a CRC32 over all that and the command and number byte in front,
      and on every channel, for another key than the session's, one over the new key. */
  lemma PayloadHolds(channel: Channel, prefix: Bytes, newKey: Key, oldStored: Bytes, same: bool)
    requires |oldStored| == 32
    ensures var s, p := Stored(newKey), Payload(channel, prefix, Stored(newKey), oldStored, newKey.kind, newKey.version, same);
            var n := if newKey.kind.DES? then 16 else KeySize(newKey.kind);
            var t := n + if newKey.kind.AES128? || newKey.kind.AES256? then 1 else 0;
            && t <= |p| && (forall i | 0 <= i < n :: p[i] == if same then s[i] else s[i] ^ oldStored[i])
            && (t > n ==> p[n] == newKey.version)
            && p[t..] == (if channel == D40 then CrcOf(W16, p[..t])
                          else if channel == EV1 then CrcOf(W32, prefix + p[..t]) else [])
                         + (if same then [] else CrcOf(if channel == D40 then W16 else W32, s[..n]))
  {
    hide CrcOf, Stored;
    var s, n := Stored(newKey), StoredLength(newKey.kind);
    var text := KeyText(s, oldStored, newKey.kind, newKey.version, same);
    var sums := Checksums(channel, prefix, text, s[..n], same);
    assert (text + sums)[..|text|] == text && (text + sums)[|text|..] == sums;
  }

  /** The width of the checksums of a channel. */
  function SumWidth(channel: Channel): Width {
    if channel == D40 then W16 else W32
  }

  lemma Refused(channel: Channel, prefix: Bytes, payload: Bytes, stored: Bytes, kind: KeyType, same: bool)
    requires |stored| == 32
    requires var n := StoredLength(kind);
             var t := n + if IsAes(kind) then 1 else 0;
             && t <= |payload|
             && var key := if same then payload[..n] else Xor(payload[..n], stored[..n]);
                payload[t..] != Checksums(channel, prefix, payload[..t], key, same)
    ensures Accepted(channel, prefix, payload, stored, kind, same) == Err(Error.Crypto)
  {
    hide CrcOf, GetVersion;
  }

  /** On EV1 the CRC32 binds the payload to command and key number: built under one
      prefix it is refused under every other one. */
  lemma OtherPrefixRefused(prefix: Bytes, other: Bytes, newKey: Key, oldStored: Bytes, same: bool)
    requires |oldStored| == 32 && |prefix| == |other| <= 4 && prefix != other
    ensures Accepted(EV1, other, Payload(EV1, prefix, Stored(newKey), oldStored, newKey.kind, newKey.version, same),
                     oldStored, StoredKind(newKey.kind), same)
         == Err(Error.Crypto)
  {
    hide CrcOf, GetVersion, Stored, Accepted;
    var s, n, kind := Stored(newKey), StoredLength(newKey.kind), StoredKind(newKey.kind);
    var text := KeyText(s, oldStored, newKey.kind, newKey.version, same);
    var sums := Checksums(EV1, prefix, text, s[..n], same);
    BurstDetected(W32, [], prefix, other, text);
    assert [] + prefix + text == prefix + text && [] + other + text == other + text;
    var p := text + sums;
    assert p[..|text|] == text && p[|text|..] == sums;
    assert sums[..4] == CrcOf(W32, prefix + text);
    assert forall key :: Checksums(EV1, other, text, key, same)[..4] == CrcOf(W32, other + text);
    Refused(EV1, other, p, oldStored, kind, same);
  }

  /** On D40 and EV1 so is a payload whose text was changed within as many bytes as the
      checksum has. */
  lemma AlteredRefused(channel: Channel, prefix: Bytes, a: Bytes, x: Bytes, y: Bytes, b: Bytes, sums: Bytes, newKey: Bytes,
                       stored: Bytes, kind: KeyType, same: bool)
    requires channel == D40 || channel == EV1
    requires |stored| == 32 && |x| == |y| <= Size(SumWidth(channel)) && x != y
    requires |a + x + b| == StoredLength(kind) + if IsAes(kind) then 1 else 0
    requires sums == Checksums(channel, prefix, a + x + b, newKey, same)
    ensures Accepted(channel, prefix, a + y + b + sums, stored, kind, same) == Err(Error.Crypto)
  {
    hide CrcOf, GetVersion, Accepted;
    var w, front := SumWidth(channel), if channel == EV1 then prefix else [];
    BurstDetected(w, front + a, x, y, b);
    assert front + a + x + b == front + (a + x + b) && front + a + y + b == front + (a + y + b);
    var p, t := a + y + b + sums, |a + y + b|;
    assert p[..t] == a + y + b && p[t..] == sums;
    var n := StoredLength(kind);
    SumsStart(channel, prefix, a + x + b, newKey, same);
    SumsStart(channel, prefix, a + y + b, if same then p[..n] else Xor(p[..n], stored[..n]), same);
    Refused(channel, prefix, p, stored, kind, same);
  }

  /** The first checksum is the one over the text, on EV1 behind the prefix. */
  lemma SumsStart(channel: Channel, prefix: Bytes, text: Bytes, newKey: Bytes, same: bool)
    requires channel == D40 || channel == EV1
    ensures var c, w := Checksums(channel, prefix, text, newKey, same), SumWidth(channel);
            |c| >= Size(w) && c[..Size(w)] == CrcOf(w, (if channel == EV1 then prefix else []) + text)
  {
    hide CrcOf;
    assert [] + text == text;
  }

  /** For another key than the session's, so is a payload combined with an old key that
      differs from the card's within as many bytes, on every channel. */
  lemma WrongOldKeyRefused(channel: Channel, prefix: Bytes, newKey: Key, a: Bytes, x: Bytes, y: Bytes, b: Bytes)
    requires |a + x + b| == 32 && |x| == |y| <= Size(SumWidth(channel)) && x != y
    requires |a + x| <= StoredLength(newKey.kind)
    ensures Accepted(channel, prefix, Payload(channel, prefix, Stored(newKey), a + x + b, newKey.kind, newKey.version, false),
                     a + y + b, StoredKind(newKey.kind), false)
         == Err(Error.Crypto)
  {
    hide CrcOf, GetVersion, Stored, Accepted;
    var s, n, kind, w := Stored(newKey), StoredLength(newKey.kind), StoredKind(newKey.kind), SumWidth(channel);
    var text := KeyText(s, a + x + b, newKey.kind, newKey.version, false);
    var sums := Checksums(channel, prefix, text, s[..n], false);
    var p := text + sums;
    assert p[..|text|] == text && p[|text|..] == sums && p[..n] == text[..n] == Xor(s[..n], (a + x + b)[..n]);
    var got := Xor(p[..n], (a + y + b)[..n]);
    var i, j := |a|, |a + x|;
    WindowDiffers(s, a, x, y, b, n);
    assert s[..n] == s[..i] + s[i..j] + s[j..n];
    BurstDetected(w, s[..i], s[i..j], Xor(Xor(s[i..j], x), y), s[j..n]);
    SumsEnd(channel, prefix, text, s[..n]);
    SumsEnd(channel, prefix, text, got);
    Refused(channel, prefix, p, a + y + b, kind, false);
  }

  /** The last checksum is the one over the new key. */
  lemma SumsEnd(channel: Channel, prefix: Bytes, text: Bytes, newKey: Bytes)
    ensures var c, n := Checksums(channel, prefix, text, newKey, false), Size(SumWidth(channel));
            |c| >= n && c[|c| - n..] == CrcOf(SumWidth(channel), newKey)
  {
    hide CrcOf;
  }

  /** Undoing the exclusive or with another key changes just that window. */
  lemma WindowDiffers(s: Bytes, a: Bytes, x: Bytes, y: Bytes, b: Bytes, n: nat)
    requires |s| == |a + x + b| && |x| == |y| && |a + x| <= n <= |s| && x != y
    ensures var i, j := |a|, |a + x|;
            && Xor(Xor(s[i..j], x), y) != s[i..j]
            && Xor(Xor(s[..n], (a + x + b)[..n]), (a + y + b)[..n]) == s[..i] + Xor(Xor(s[i..j], x), y) + s[j..n]
  {
    hide Xor;
    var i, j := |a|, |a + x|;
    var u, v, w, c := s[..i], s[i..j], s[j..n], b[..n - j];
    assert s[..n] == u + v + w && (a + x + b)[..n] == a + x + c && (a + y + b)[..n] == a + y + c;
    XorParts(u, v, w, a, x, c);
    XorParts(Xor(u, a), Xor(v, x), Xor(w, c), a, y, c);
    XorSelf(u, a);
    XorSelf(w, c);
    XorChanged(v, x, y);
  }

  lemma XorParts(u: Bytes, v: Bytes, w: Bytes, a: Bytes, x: Bytes, c: Bytes)
    requires |u| == |a| && |v| == |x| && |w| == |c|
    ensures Xor(u + v + w, a + x + c) == Xor(u, a) + Xor(v, x) + Xor(w, c)
  {}

  lemma XorChanged(v: Bytes, x: Bytes, y: Bytes)
    requires |v| == |x| == |y| && x != y
    ensures Xor(Xor(v, x), y) != v
  {
    if Xor(Xor(v, x), y) == v {
      forall k | 0 <= k < |x| ensures x[k] == y[k] {
        assert Xor(Xor(v, x), y)[k] == v[k];
        XorTwice(v[k], x[k], y[k]);
      }
    }
  }

  lemma XorTwice(s: byte, x: byte, y: byte)
    ensures (s ^ x) ^ y == s <==> x == y
  {}

  //--------------------------------------------------------------------------
  // runs
  //--------------------------------------------------------------------------

  /** Key set 0 is the active one. */
  datatype Slot = Slot(keySet: byte, keyNo: byte)

  /** One ChangeKey, or ChangeKeyEV2, in a session built on key `authKeyNo`. */
  datatype Change = Change(channel: Channel, authKeyNo: byte, ev2: bool, keySet: byte, keyNo: byte, newKey: Key, picc: bool)

  /** The slot the wire names. */
  function SlotOf(c: Change): Slot {
    Slot(if c.ev2 then c.keySet else 0, KeyNumber(c.keyNo))
  }

  /** The reader leaves out the XOR with the old key for the session's own key. */
  predicate SameKey(c: Change) {
    c.keyNo == c.authKeyNo && !c.ev2
  }

  function Prefix(c: Change): (p: Bytes)
    ensures |p| == 2
  {
    [if c.ev2 then CHANGE_KEY_EV2 else CHANGE_KEY, KeyNoData(c.keyNo, c.newKey.kind, c.picc)]
  }

  /** What the reader sends for a change, given the key it believes is there. */
  function PayloadOf(c: Change, oldKey: Key): Bytes {
    Payload(c.channel, Prefix(c), Stored(c.newKey), Stored(oldKey), c.newKey.kind, c.newKey.version, SameKey(c))
  }

  /** The data field of the command. */
  function DataOf(c: Change, oldKey: Key): Bytes {
    hide PayloadOf;
    (if c.ev2 then [c.keySet] else []) + Prefix(c)[1..] + PayloadOf(c, oldKey)
  }

  /** What the card knows of its own when the command arrives. */
  datatype View = View(channel: Channel, keyNo: byte, picc: bool)

  /** The mock cut the number of the session's key to six bits when the
      authentication began (tests/mockcard.c:1246 and 1251). */
  function ViewOf(c: Change): View {
    View(c.channel, KeyNumber(c.authKeyNo), c.picc)
  }

  /** The type the card takes the new key for: the type of the slot, but for the
      PICC master key the one in the key number byte, where the length tells the
      two AES types apart. */
  function KindRead(v: View, b: byte, known: KeyType, payload: Bytes): KeyType {
    if !v.picc || KeyNumber(b) != 0 then known
    else if TypeField(b) == 0x40 then ThreeKeyTdea
    else if TypeField(b) == 0x80 then (if |payload| >= 33 then AES256 else AES128)
    else TwoKeyTdea
  }

  /** The card reads slot and type off the data field, knows by its session's key
      number whether it is the session's own key, and takes the key out of the
      rest. A change it cannot accept changes nothing. */
  function CardAfter(store: map<Slot, KeySlot>, v: View, cmd: byte, data: Bytes): Result<map<Slot, KeySlot>>
    requires forall s <- store.Keys :: |store[s].bytes| == 32
  {
    hide Accepted, KindRead, KeyNumber;
    var ev2 := cmd == CHANGE_KEY_EV2;
    var n := if ev2 then 1 else 0;
    if |data| <= n then Err(Length)
    else
      var b, payload := data[n], data[n + 1..];
      var slot := Slot(if ev2 then data[0] else 0, KeyNumber(b));
      if slot !in store.Keys then Err(Error.Card)
      else
        var r := Accepted(v.channel, [cmd, b], payload, store[slot].bytes, KindRead(v, b, store[slot].kind, payload),
                          KeyNumber(b) == v.keyNo && !ev2);
        if r.Err? then Err(r.error) else Ok(store[slot := r.value])
  }

  /** Reader and card mean the same by "the session's own key": they do not where
      two numbers differ above the six bits that travel. */
  predicate ReadsAlike(c: Change) {
    c.ev2 || c.keyNo == c.authKeyNo || KeyNumber(c.keyNo) != KeyNumber(c.authKeyNo)
  }

  /** The new key has the type of the slot, or its type travels with it: that is
      the PICC master key, and under a number like 0x40 only the type whose field
      is zero. */
  predicate TypeTold(c: Change, known: KeyType) {
    if c.picc && KeyNumber(c.keyNo) == 0 then c.keyNo == 0 || StoredKind(c.newKey.kind).TwoKeyTdea?
    else StoredKind(c.newKey.kind) == known
  }

  lemma KindReadRight(c: Change, known: KeyType, oldKey: Key)
    ensures var k := KindRead(ViewOf(c), Prefix(c)[1], known, PayloadOf(c, oldKey));
            && (k == StoredKind(c.newKey.kind) <==> TypeTold(c, known))
            && (!known.DES? ==> !k.DES?)
  {
    hide CrcOf, Stored, KeyNumber, TypeField, KeyNoData, Xor;
    KeyNoRoundTrip(c.keyNo, c.newKey.kind, c.picc);
    TypeValues();
    NumberZero();
  }

  lemma TypeValues()
    ensures 0x00 as byte != 0x40 && 0x00 as byte != 0x80 && 0x40 as byte != 0x80
  {}

  lemma NumberZero()
    ensures KeyNumber(0) == 0
  {}

  lemma DataParts(c: Change, oldKey: Key)
    ensures var data, n := DataOf(c, oldKey), if c.ev2 then 1 else 0;
            && |data| > n && data[n] == Prefix(c)[1] && data[n + 1..] == PayloadOf(c, oldKey)
            && (c.ev2 ==> data[0] == c.keySet)
            && (Prefix(c)[0] == CHANGE_KEY_EV2 <==> c.ev2) && Prefix(c) == [Prefix(c)[0], Prefix(c)[1]]
  {
    hide PayloadOf, KeyNoData;
  }

  /** The command, and its data field: the key set for ChangeKeyEV2, the number byte with
      the type of a PICC master key in its upper two bits, and the payload. */
  lemma DataHolds(c: Change, oldKey: Key)
    ensures Prefix(c)[0] == if c.ev2 then 0xC6 else 0xC4
    ensures var d, n := DataOf(c, oldKey), if c.ev2 then 1 else 0;
            && |d| > n && (c.ev2 ==> d[0] == c.keySet) && d[n] & 0x3F == c.keyNo & 0x3F
            && d[n] & 0xC0 == (if !c.picc || c.keyNo != 0 then 0x00
                               else if c.newKey.kind.ThreeKeyTdea? then 0x40
                               else if c.newKey.kind.AES128? || c.newKey.kind.AES256? then 0x80 else 0x00)
            && d[n + 1..] == Payload(c.channel, [Prefix(c)[0], d[n]], Stored(c.newKey), Stored(oldKey), c.newKey.kind,
                                     c.newKey.version, c.keyNo == c.authKeyNo && !c.ev2)
  {
    hide Payload, Stored, KeyNoData, TypeField, KeyNumber;
    DataParts(c, oldKey);
    NumberByte(c.keyNo, c.newKey.kind, c.picc);
  }

  lemma NumberByte(keyNo: byte, kind: KeyType, picc: bool)
    ensures var b := KeyNoData(keyNo, kind, picc);
            && b & 0x3F == keyNo & 0x3F
            && b & 0xC0 == (if !picc || keyNo != 0 then 0x00
                            else if kind.ThreeKeyTdea? then 0x40 else if kind.AES128? || kind.AES256? then 0x80 else 0x00)
  {}

  /** The card stores exactly the reader's keys, version-normalised. */
  ghost predicate InSync(keys: map<Slot, Key>, store: map<Slot, KeySlot>) {
    keys.Keys == store.Keys
    && forall s <- keys.Keys :: store[s] == SlotFor(keys[s])
  }

  /** A change of a key the reader knows is carried out exactly if the two sides
      mean the same by the session's own key and the card can tell the type; then
      the card stores the normalised new key, and otherwise it refuses. */
  lemma ChangeInSync(keys: map<Slot, Key>, store: map<Slot, KeySlot>, c: Change)
    requires InSync(keys, store) && SlotOf(c) in keys
    ensures forall s <- store.Keys :: |store[s].bytes| == 32
    ensures var r := CardAfter(store, ViewOf(c), Prefix(c)[0], DataOf(c, keys[SlotOf(c)]));
            var works := ReadsAlike(c) && TypeTold(c, StoredKind(keys[SlotOf(c)].kind));
            && (r.Ok? <==> works)
            && (works ==> r == Ok(store[SlotOf(c) := SlotFor(c.newKey)]) && InSync(keys[SlotOf(c) := c.newKey], r.value))
  {
    hide Accepted, Stored, Payload, KindRead, KeyNumber, TypeField, KeyNoData, TypeTold, DataOf;
    var was := keys[SlotOf(c)];
    var known := StoredKind(was.kind);
    DataParts(c, was);
    KeyNoRoundTrip(c.keyNo, c.newKey.kind, c.picc);
    KindReadRight(c, known, was);
    var same := KeyNumber(c.keyNo) == KeyNumber(c.authKeyNo) && !c.ev2;
    var kind := KindRead(ViewOf(c), Prefix(c)[1], known, PayloadOf(c, was));
    CardRecoversKey(c.channel, Prefix(c), c.newKey, Stored(was), SameKey(c));
    if !(ReadsAlike(c) && TypeTold(c, known)) {
      CardRefuses(c.channel, Prefix(c), c.newKey, Stored(was), SameKey(c), kind, same);
    }
  }

  /** Reader and card after a run of changes to existing keys; the reader learns
      from the status whether a change was carried out. */
  function AfterAll(keys: map<Slot, Key>, store: map<Slot, KeySlot>, changes: seq<Change>): (map<Slot, Key>, map<Slot, KeySlot>)
    requires forall c <- changes :: SlotOf(c) in keys
    requires InSync(keys, store)
    decreases |changes|
  {
    hide CardAfter, DataOf, SlotOf, Prefix, ViewOf, InSync, ReadsAlike, TypeTold;
    if changes == [] then (keys, store)
    else
      var c := changes[0];
      ChangeInSync(keys, store, c);
      var r := CardAfter(store, ViewOf(c), Prefix(c)[0], DataOf(c, keys[SlotOf(c)]));
      if r.Ok? then AfterAll(keys[SlotOf(c) := c.newKey], r.value, changes[1..]) else AfterAll(keys, store, changes[1..])
  }

  /** After any sequence of key changes, carried out or refused, on any channels
      and from any sessions, every key the card stores is the normalised key the
      reader last wrote there. */
  lemma {:induction false} StaysInSync(keys: map<Slot, Key>, store: map<Slot, KeySlot>, changes: seq<Change>)
    requires InSync(keys, store) && forall c <- changes :: SlotOf(c) in keys
    ensures var r := AfterAll(keys, store, changes); InSync(r.0, r.1)
    decreases |changes|
  {
    hide CardAfter, DataOf, SlotOf, Prefix, ViewOf, InSync, ReadsAlike, TypeTold;
    if changes != [] {
      var c := changes[0];
      ChangeInSync(keys, store, c);
      var r := CardAfter(store, ViewOf(c), Prefix(c)[0], DataOf(c, keys[SlotOf(c)]));
      if r.Ok? {
        StaysInSync(keys[SlotOf(c) := c.newKey], r.value, changes[1..]);
      } else {
        StaysInSync(keys, store, changes[1..]);
      }
    }
  }

  /** A change that is refused, whatever the keys: key number 0x41 in a session on
      key 1. The reader combines the new key with the old one, the card reads the
      number of its session's key and does not. */
  lemma NumberCutOff(keys: map<Slot, Key>, store: map<Slot, KeySlot>, channel: Channel, newKey: Key, picc: bool)
    requires InSync(keys, store) && Slot(0, 1) in keys
    ensures forall s <- store.Keys :: |store[s].bytes| == 32
    ensures var c := Change(channel, 1, false, 0, 0x41, newKey, picc);
            && SlotOf(c) == Slot(0, 1) && !SameKey(c)
            && CardAfter(store, ViewOf(c), Prefix(c)[0], DataOf(c, keys[Slot(0, 1)])).Err?
  {
    hide CardAfter, DataOf, TypeTold, Prefix;
    ChangeInSync(keys, store, Change(channel, 1, false, 0, 0x41, newKey, picc));
  }
}
