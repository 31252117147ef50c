/** What nxpsc_channel_encode puts on the wire and what nxpsc_channel_decode
    makes of an answer, as functions of the session. Each result pairs the
    outcome with the session afterwards. */
module Codecs {
  import opened ByteStrings
  import opened Results
  import opened Ciphers
  import opened Sessions
  import opened Crc
  import opened CrcSearch
  import Cbc
  import Cmac
  import Lrp

  datatype Outcome = Outcome(result: Result<Bytes>, session: Session)

  /** Zero padding to whole blocks (nxpsc_padded_len over a cleared buffer). */
  function ZeroPadded(b: Bytes, block: nat): (r: Bytes)
    requires block == 8 || block == 16
    ensures |r| == Cmac.RoundUp(|b|, block) && b <= r
  {
    b + Zeros(Cmac.RoundUp(|b|, block) - |b|)
  }

  //--------------------------------------------------------------------------
  // EV2 and LRP primitives
  //--------------------------------------------------------------------------

  function CtrBytes(ctr: bv16): (b: Bytes)
    ensures |b| == 2
  {
    [(ctr & 0xFF) as byte, ((ctr >> 8) & 0xFF) as byte]
  }

  /** nxpsc_ev2_fill_iv */
  function Ev2Iv(s: Session, forCommand: bool): (iv: Bytes)
    ensures |iv| == 16
  {
    var tag: Bytes := if forCommand then [0xA5, 0x5A] else [0x5A, 0xA5];
    Ecb(AesEnc(s), tag + s.ti + CtrBytes(s.ctr) + Zeros(8), true)
  }

  /** Cmd || CmdCtr || TI || data */
  function Ev2Input(s: Session, cmd: byte, data: Bytes): (m: Bytes) {
    [cmd] + CtrBytes(s.ctr) + s.ti + data
  }

  /** nxpsc_ev2_cmac */
  function Ev2Mac(s: Session, cmd: byte, data: Bytes): (mac: Bytes)
    ensures |mac| == 8
  {
    var input := Ev2Input(s, cmd, data);
    Cmac.Truncated(if s.channel == LRP then Lrp.MacOf(LrpMacContext(s), input)
                   else Cmac.MacOf(AesMac(s), Zeros(16), input, 0))
  }

  function LrpMacContext(s: Session): Lrp.Context {
    Lrp.RawContext(s.p, s.mac[..16], 0)
  }

  function LrpEncContext(s: Session): Lrp.Context {
    Lrp.RawContext(s.p, s.enc[..16], 1)
  }

  /** The LRP counter: four bytes kept in the IV buffer, in a 64-byte context. */
  function LrpCounter(s: Session): (c: Bytes)
    ensures |c| == 64
  {
    s.iv[..4] + Zeros(60)
  }

  /** Ciphering whole blocks on EV2 (CBC under a fresh IV) or LRP (counter mode,
      the counter kept in the IV buffer). */
  function Ev2Crypt(s: Session, forCommand: bool, data: Bytes, encrypt: bool): (r: (Bytes, Session))
    requires |data| % 16 == 0
    ensures |r.0| == |data| && r.1 == s.(iv := r.1.iv)
  {
    if s.channel == LRP then
      var e := Lrp.Crypt(LrpEncContext(s), LrpCounter(s), 8, data, encrypt);
      (e.0, WithIv(s, e.1[..4]))
    else
      (Cbc.Crypt(AesEnc(s), Ev2Iv(s, forCommand), data, encrypt).0, s)
  }

  /** Padding method 2 of ISO/IEC 9797-1. */
  function Padded2(b: Bytes): (r: Bytes)
    ensures |r| % 16 == 0 && |r| == Cmac.RoundUp(|b| + 1, 16)
  {
    ZeroPadded(b + [0x80], 16)
  }

  /** iso9797_m2_len: length before the padding, 0 if there is none. */
  function Unpadded2(data: Bytes): (n: nat)
    ensures n <= |data|
  {
    if data == [] then 0
    else
      var n := |data| - 1;
      if data[n] == 0x80 then n else if data[n] != 0 then 0 else Unpadded2(data[..n])
  }

  //--------------------------------------------------------------------------
  // encode
  //--------------------------------------------------------------------------

  /** Clear header, enciphered rest. */
  function Ev2Body(s: Session, h: nat, src: Bytes): (r: (Bytes, Session))
    requires h <= |src|
    ensures |r.0| == h + Cmac.RoundUp(|src| - h + 1, 16) && r.1 == s.(iv := r.1.iv)
  {
    hide Ev2Crypt;
    var e := Ev2Crypt(s, true, Padded2(src[h..]), true);
    (src[..h] + e.0, e.1)
  }

  /** encode_ev2 */
  function EncodeEv2(s: Session, cmd: byte, src: Bytes, cap: nat): Outcome {
    hide Ev2Mac, Ev2Body;
    var h := Header(cmd, |src|);
    if |src| > cap then Outcome(Err(Length), s)
    else if s.mode.Mac? then
      if |src| + 8 > cap then Outcome(Err(Length), s) else Outcome(Ok(src + Ev2Mac(s, cmd, src)), s)
    else if s.mode.Plain? then Outcome(Ok(src), s)
    else if |src| <= h then
      if h + 8 > cap then Outcome(Err(Length), s) else Outcome(Ok(src + Ev2Mac(s, cmd, src)), WithMode(s, Enc))
    else
      if h + Cmac.RoundUp(|src| - h + 1, 16) + 8 > cap then Outcome(Err(Length), s)
      else
        var e := Ev2Body(s, h, src);
        Outcome(Ok(e.0 + Ev2Mac(s, cmd, e.0)), WithMode(e.1, Enc))
  }

  /** The four-byte D40 MAC: the final value of CBC over zero-padded data. */
  function D40Mac(s: Session, data: Bytes): (mac: Bytes)
    ensures |mac| == 4
  {
    Cbc.Run(MacCipher(s), Zeros(Block(MacCipher(s))), ZeroPadded(data, Block(MacCipher(s))), true, true).1[..4]
  }

  /** D40 enciphering: chained like CBC to send, but with the decrypt primitive. */
  function D40Cipher(s: Session, data: Bytes): (w: Bytes)
    requires Cbc.Whole(EncCipher(s), data)
    ensures |w| == |data|
  {
    Cbc.Run(EncCipher(s), Zeros(Block(EncCipher(s))), data, true, false).0
  }

  /** Payload, checksum, and the 0x80 byte the padded mode adds. */
  function Protected(data: Bytes, crc: Bytes, padded: bool): Bytes {
    data + crc + if padded then [0x80] else []
  }

  /** What D40 enciphers: the bare data in the ChangeKey style mode, else with
      CRC16 and, in the padded mode, 0x80. Zero padding to whole blocks. */
  function D40Plain(s: Session, data: Bytes): (b: Bytes)
    ensures Cbc.Whole(EncCipher(s), b)
  {
    ZeroPadded(if s.mode.EncPlain? then data else Protected(data, CrcOf(W16, data), s.mode.EncPadded?),
               Block(EncCipher(s)))
  }

  /** encode_d40 */
  function EncodeD40(s: Session, cmd: byte, src: Bytes, cap: nat): Outcome {
    hide D40Mac, EncodeD40Enciphered;
    var h := Header(cmd, |src|);
    if |src| > cap then Outcome(Err(Length), s)
    else if s.mode.Mac? || (s.mode.Enc? && |src| <= h) then
      if |src| == h || !TransmitsMac(s.channel, cmd) then Outcome(Ok(src), s)
      else if |src| + 4 > cap then Outcome(Err(Length), s)
      else Outcome(Ok(src + D40Mac(s, src[h..])), s)
    else if s.mode.Plain? || |src| <= h then Outcome(Ok(src), s)
    else EncodeD40Enciphered(s, h, src, cap)
  }

  function EncodeD40Enciphered(s: Session, h: nat, src: Bytes, cap: nat): Outcome
    requires h <= |src|
  {
    hide D40Plain, D40Cipher;
    var plain := D40Plain(s, src[h..]);
    if h + |plain| > cap then Outcome(Err(Length), s)
    else Outcome(Ok(src[..h] + D40Cipher(s, plain)), if s.mode.EncPlain? then WithMode(s, Enc) else s)
  }

  /** EV1: the CMAC over cmd || payload that every command advances the IV by. */
  function Ev1Mac(s: Session, data: Bytes): (mac: Bytes)
    ensures |mac| == Block(MacCipher(s))
  {
    Cmac.MacOf(MacCipher(s), s.iv[..Block(MacCipher(s))], data, 0)
  }

  /** What EV1 enciphers; its CRC32 covers the command byte and all of `src`. */
  function Ev1Plain(s: Session, cmd: byte, src: Bytes, h: nat): (b: Bytes)
    requires h <= |src|
    ensures Cbc.Whole(EncCipher(s), b)
  {
    ZeroPadded(if s.mode.EncPlain? then src[h..]
               else Protected(src[h..], CrcOf(W32, [cmd] + src), s.mode.EncPadded?),
               Block(EncCipher(s)))
  }

  /** Enciphering along the EV1 chain. */
  function Ev1Cipher(s: Session, data: Bytes): (r: (Bytes, Session))
    requires Cbc.Whole(EncCipher(s), data)
    ensures |r.0| == |data| && r.1 == s.(iv := r.1.iv)
  {
    var e := Cbc.Crypt(EncCipher(s), s.iv[..Block(EncCipher(s))], data, true);
    (e.0, WithIv(s, e.1))
  }

  /** encode_ev1 */
  function EncodeEv1(s: Session, cmd: byte, src: Bytes, cap: nat): Outcome {
    hide EncodeEv1Clear, EncodeEv1Enciphered;
    var h := Header(cmd, |src|);
    if |src| > cap then Outcome(Err(Length), s)
    else if s.mode.Plain? || s.mode.Mac? || (s.mode.Enc? && |src| <= h) then EncodeEv1Clear(s, cmd, src, cap)
    else if s.mode.EncPlain? && |src| <= h then Outcome(Ok(src), s)
    else EncodeEv1Enciphered(s, cmd, h, src, cap)
  }

  function EncodeEv1Clear(s: Session, cmd: byte, src: Bytes, cap: nat): Outcome {
    hide Ev1Mac;
    var mac := Ev1Mac(s, [cmd] + src);
    var t := WithIv(s, mac);
    if !s.mode.Mac? || !TransmitsMac(s.channel, cmd) then Outcome(Ok(src), t)
    else if |src| + 8 > cap then Outcome(Err(Length), t)
    else Outcome(Ok(src + mac[..8]), t)
  }

  function EncodeEv1Enciphered(s: Session, cmd: byte, h: nat, src: Bytes, cap: nat): Outcome
    requires h <= |src|
  {
    hide Ev1Plain, Ev1Cipher;
    var plain := Ev1Plain(s, cmd, src, h);
    if h + |plain| > cap then Outcome(Err(Length), s)
    else
      var e := Ev1Cipher(s, plain);
      Outcome(Ok(src[..h] + e.0), WithMode(e.1, Enc))
  }

  /** nxpsc_channel_encode */
  function Encode(s: Session, cmd: byte, src: Bytes, cap: nat): Outcome {
    var t := s.(lastCmd := cmd, lastZeroLen := |src| <= HeaderLength(cmd, |src|));
    match s.channel
    case D40 => EncodeD40(t, cmd, src, cap)
    case EV1 => EncodeEv1(t, cmd, src, cap)
    case NoChannel => Outcome(if |src| > cap then Err(Length) else Ok(src), t)
    case _ => EncodeEv2(t, cmd, src, cap)
  }

  //--------------------------------------------------------------------------
  // decode
  //--------------------------------------------------------------------------

  /** copy_output */
  function Copied(data: Bytes, cap: nat): Result<Bytes> {
    if |data| > cap then Err(Length) else Ok(data)
  }

  /** decode_d40 */
  function DecodeD40(s: Session, src: Bytes, status: byte, cap: nat): Outcome {
    hide D40Mac, DecipherD40;
    if s.mode.Mac? then
      if !ReceivesMac(s.channel, s.lastCmd) then Outcome(Copied(src, cap), s)
      else if |src| <= 4 then Outcome(Err(Length), s)
      else
        var n := |src| - 4;
        if D40Mac(s, src[..n]) != src[n..] then Outcome(Err(Error.Crypto), Rejecting(s))
        else Outcome(Copied(src[..n], cap), s)
    else if s.mode.Enc? || s.mode.EncPadded? then Outcome(DecipherD40(s, src, status, cap), s)
    else Outcome(Copied(src, cap), s)
  }

  function DecipherD40(s: Session, src: Bytes, status: byte, cap: nat): Result<Bytes> {
    hide Cbc.Run;
    var c := EncCipher(s);
    if |src| < Block(c) then Copied(src, cap)
    else if !Cbc.Whole(c, src) then Err(Length)
    else
      var plain := Cbc.Crypt(c, Zeros(Block(c)), src, false).0;
      var pure16 := CrcPos(W16, plain, status);
      var pure := if pure16 == 0 && !s.legacyCard then CrcPos(W32, plain, status) else pure16;
      if pure == 0 then Err(Error.Crypto) else Copied(plain[..pure], cap)
  }

  /** decode_ev1 */
  function DecodeEv1(s: Session, src: Bytes, status: byte, cap: nat): Outcome {
    hide VerifyEv1, DecipherEv1;
    if s.mode.Plain? || s.mode.Mac? || (s.mode.Enc? && !s.lastZeroLen) then VerifyEv1(s, src, status, cap)
    else if s.mode.Enc? || s.mode.EncPadded? then Outcome(DecipherEv1(s, src, status, cap), s)
    else Outcome(Copied(src, cap), s)
  }

  function VerifyEv1(s: Session, src: Bytes, status: byte, cap: nat): Outcome {
    hide Ev1Mac;
    if |src| < 8 then Outcome(Err(Length), s)
    else
      var n := |src| - 8;
      var mac := Ev1Mac(s, src[..n] + [status]);
      var t := WithIv(s, mac);
      if mac[..8] != src[n..] then Outcome(Err(Error.Crypto), Rejecting(t))
      else Outcome(Copied(src[..n], cap), t)
  }

  /** Deciphers with a copy of the IV, which stays where it was. */
  function DecipherEv1(s: Session, src: Bytes, status: byte, cap: nat): Result<Bytes> {
    hide Cbc.Run;
    var c := EncCipher(s);
    if |src| < Block(c) then Copied(src, cap)
    else if !Cbc.Whole(c, src) then Err(Length)
    else
      var plain := Cbc.Crypt(c, s.iv[..Block(c)], src, false).0;
      var pure := CrcPos(W32, plain, status);
      if pure == 0 then Err(Error.Crypto) else Copied(plain[..pure], cap)
  }

  /** The part of decode_ev2 behind the MAC check. */
  function DecodeBody(s: Session, data: Bytes, cap: nat): Outcome {
    hide Ev2Crypt;
    if s.mode.Mac? || |data| < 16 then Outcome(Copied(data, cap), s)
    else if |data| % 16 != 0 then Outcome(Err(Length), s)
    else
      var e := Ev2Crypt(s, false, data, false);
      var pure := Unpadded2(e.0);
      if pure == 0 then Outcome(Err(Error.Crypto), e.1) else Outcome(Copied(e.0[..pure], cap), e.1)
  }

  /** decode_ev2 */
  function DecodeEv2(s: Session, src: Bytes, cap: nat): Outcome {
    hide Ev2Mac, DecodeBody;
    if s.mode.Plain? || s.mode.EncPlain? then Outcome(Copied(src, cap), s)
    else if |src| < 8 then Outcome(Err(Length), s)
    else
      var n := |src| - 8;
      if Ev2Mac(s, 0x00, src[..n]) != src[n..] then Outcome(Err(Error.Crypto), Rejecting(s))
      else DecodeBody(s, src[..n], cap)
  }

  /** nxpsc_channel_decode */
  function Decode(s: Session, src: Bytes, status: byte, cap: nat): Outcome {
    match s.channel
    case D40 => DecodeD40(s, src, status, cap)
    case EV1 => DecodeEv1(s, src, status, cap)
    case NoChannel => Outcome(Copied(src, cap), s)
    case _ => DecodeEv2(s, src, cap)
  }
}
