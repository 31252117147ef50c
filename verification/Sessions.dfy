/** The session part of nxpsc_card_t as a value, and the command tables. */
module Sessions {
  import opened ByteStrings
  import opened Ciphers

  datatype Channel = NoChannel | D40 | EV1 | EV2 | LRP

  /** nxpsc_mode_t */
  datatype Mode = Plain | Mac | Enc | EncPadded | EncPlain

  const S_OK: byte := 0x00
  const S_SIGNATURE: byte := 0x90
  const S_ADDITIONAL_FRAME: byte := 0xAF

  datatype RawSession = RawSession(
    p: Primitives,
    legacyCard: bool,          // card type MF3ICD40
    channel: Channel,          // NoChannel while there is no session
    authenticated: bool,
    lost: bool,                // the PICC aborted secure messaging under us
    mode: Mode,
    keyType: KeyType,
    keyNo: byte,
    iv: Bytes,
    enc: Bytes,                // session keys, in buffers of NXPSC_MAX_KEY_SIZE
    mac: Bytes,
    ti: Bytes,
    ctr: bv16,
    lastCmd: byte,
    lastZeroLen: bool,         // the last request had nothing to encipher
    macMismatch: bool)

  predicate Sized(s: RawSession) {
    |s.iv| == 16 && |s.enc| == 32 && |s.mac| == 32 && |s.ti| == 4
  }

  type Session = s: RawSession | Sized(s)
    witness RawSession(RawPrimitives((k, x) => x, (k, x) => x, (k, x) => x, (k, x) => x), false, NoChannel,
                       false, false, Plain, DES, 0, Zeros(16), Zeros(32), Zeros(32), Zeros(4), 0, 0, false, false)

  function EncCipher(s: Session): Cipher { Keyed(s.p, s.keyType, s.enc) }
  function MacCipher(s: Session): Cipher { Keyed(s.p, s.keyType, s.mac) }
  function AesEnc(s: Session): (c: Cipher) ensures Block(c) == 16 { Keyed(s.p, AES128, s.enc) }
  function AesMac(s: Session): (c: Cipher) ensures Block(c) == 16 { Keyed(s.p, AES128, s.mac) }

  /** The first `n` bytes of the 16-byte IV buffer replaced. */
  function WithIv(s: Session, v: Bytes): Session
    requires |v| <= 16
  {
    s.(iv := Splice(s.iv, 0, v))
  }

  function WithMode(s: Session, m: Mode): Session {
    s.(mode := m)
  }

  /** The MAC of an answer did not verify. */
  function Rejecting(s: Session): Session {
    s.(macMismatch := true)
  }

  /** nxpsc_mac_length */
  function MacLength(c: Channel): nat {
    match c
    case NoChannel => 0
    case D40 => 4
    case _ => 8
  }

  /** cmd_header_len: how many leading payload bytes stay in the clear. */
  function HeaderLength(cmd: byte, len: nat): nat {
    if cmd == 0xCA || cmd == 0xDA then len                          // Create-, DeleteApplication
    else if cmd == 0xC6 then 2                                      // ChangeKeyEV2
    else if cmd == 0xCE then 5                                      // CreateTransactionMACFile
    else if cmd == 0xDB then 10                                     // UpdateRecord
    else if cmd == 0xBD || cmd == 0x3D || cmd == 0xBB || cmd == 0x3B then 7
    else if cmd == 0xC4 || cmd == 0x5C || cmd == 0xF5 || cmd == 0x5F
         || cmd == 0x6C || cmd == 0x0C || cmd == 0xDC || cmd == 0x1C then 1
    else 0
  }

  function Header(cmd: byte, len: nat): (h: nat)
    ensures h <= len
  {
    Min(HeaderLength(cmd, len), len)
  }

  /** transmits_mac: on D40 and EV1 only some commands send their MAC. */
  predicate TransmitsMac(c: Channel, cmd: byte) {
    (c != D40 && c != EV1)
    || cmd == 0x3D || cmd == 0x0C || cmd == 0xDC || cmd == 0x1C || cmd == 0x3B || cmd == 0xDB
    || cmd == 0xC8 || cmd == 0x56 || cmd == 0x55 || cmd == 0x57
  }

  /** receives_mac: on D40 only reads are answered with a MAC. */
  predicate ReceivesMac(c: Channel, cmd: byte) {
    c != D40 || cmd == 0xBD || cmd == 0xBB || cmd == 0x6C
  }

  /** nxpsc_status_ends_session */
  predicate StatusEndsSession(status: byte) {
    status != S_OK && status != S_SIGNATURE && status != S_ADDITIONAL_FRAME
  }

  /** uint16_t counters wrap. */
  function Counted(c: bv16): bv16 { c + 1 }

  /** Upwards, but from the last number to zero, and no number is reached twice: that
      is to the next one. */
  lemma CounterRises(c: bv16)
    ensures c != 0xFFFF ==> Counted(c) > c
  {}

  lemma CounterWraps(c: bv16)
    ensures Counted(c) == 0 <==> c == 0xFFFF
  {}

  lemma CounterInjective(c: bv16, d: bv16)
    ensures Counted(c) == Counted(d) ==> c == d
  {}

  /** At the next command counter, modulo 2^16. */
  function Next(s: Session): Session {
    s.(ctr := Counted(s.ctr))
  }

  /** nxpsc_reset_channel */
  function Reset(s: Session): Session {
    s.(channel := NoChannel, authenticated := false, lost := false, ctr := 0,
       ti := Zeros(4), iv := Zeros(16), enc := Zeros(32), mac := Zeros(32))
  }
}
