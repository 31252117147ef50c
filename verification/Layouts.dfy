/** What goes into every MAC, initial value, checksum and enciphered block, by
    position. Round trips and lockstep hold of whatever both sides compute alike;
    here is what they compute. */
module Layouts {
  import opened ByteStrings
  import opened Results
  import opened Ciphers
  import opened Sessions
  import opened Codecs
  import opened Crc
  import opened CrcSearch
  import opened Peer
  import opened PeerLegacy
  import Cbc
  import Cmac
  import Gate
  import Lrp

  //--------------------------------------------------------------------------
  // the command counter
  //--------------------------------------------------------------------------

  /** Two bytes, least significant first. */
  lemma CounterLittle(c: bv16)
    ensures (CtrBytes(c)[0] as bv16) | ((CtrBytes(c)[1] as bv16) << 8) == c
  {}

  //--------------------------------------------------------------------------
  // EV2 and LRP
  //--------------------------------------------------------------------------

  /** The MAC covers command, counter, TI and data, each at its place: `m` is what
      it is computed over, under the MAC key, CMAC from zero on EV2 and LRP-CMAC
      under updated key 0 on LRP. */
  lemma MacCovers(s: Session, cmd: byte, data: Bytes) returns (m: Bytes)
    ensures |m| == 7 + |data| && m[0] == cmd && (m[1] as bv16) | ((m[2] as bv16) << 8) == s.ctr
    ensures m[3..7] == s.ti && m[7..] == data
    ensures Ev2Mac(s, cmd, data)
         == Cmac.Truncated(if s.channel == LRP then Lrp.MacOf(Lrp.RawContext(s.p, s.mac[..16], 0), m)
                           else Cmac.MacOf(RawCipher(s.p, AES128, s.mac[..16]), Zeros(16), m, 0))
  {
    hide Cmac.MacOf, Lrp.MacOf, CtrBytes;
    CounterLittle(s.ctr);
    m := Ev2Input(s, cmd, data);
  }

  /** Nothing of it can be told apart from another command, counter, TI or data
      without telling the inputs apart. */
  lemma MacInputTells(s: Session, t: Session, cmd: byte, other: byte, data: Bytes, more: Bytes)
    requires Ev2Input(s, cmd, data) == Ev2Input(t, other, more)
    ensures cmd == other && s.ctr == t.ctr && s.ti == t.ti && data == more
  {
    hide CtrBytes;
    var m, n := Ev2Input(s, cmd, data), Ev2Input(t, other, more);
    assert m[0] == cmd && m[1..3] == CtrBytes(s.ctr) && m[3..7] == s.ti && m[7..] == data;
    assert n[0] == other && n[1..3] == CtrBytes(t.ctr) && n[3..7] == t.ti && n[7..] == more;
    CounterBytes(s.ctr, t.ctr);
  }

  /** So on EV2 the same data under another command, counter or TI always has another
      CMAC, under every key; the eight bytes sent are the odd ones of it. */
  lemma EveryFieldTells(s: Session, t: Session, cmd: byte, other: byte, data: Bytes)
    requires cmd != other || s.ctr != t.ctr || s.ti != t.ti
    ensures var c, m, n := RawCipher(s.p, AES128, s.mac[..16]), Ev2Input(s, cmd, data), Ev2Input(t, other, data);
            && Cmac.MacOf(c, Zeros(16), m, 0) != Cmac.MacOf(c, Zeros(16), n, 0)
            && (s.channel == EV2 ==> Ev2Mac(s, cmd, data) == Cmac.Truncated(Cmac.MacOf(c, Zeros(16), m, 0)))
  {
    hide Cmac.MacOf, Lrp.MacOf, Ev2Input, Cmac.Truncated;
    var c, m, n := RawCipher(s.p, AES128, s.mac[..16]), Ev2Input(s, cmd, data), Ev2Input(t, other, data);
    if m == n {
      MacInputTells(s, t, cmd, other, data, data);
    }
    InputFront(s, cmd, data);
    InputFront(t, other, data);
    Cmac.BlockTells(c, Zeros(16), [], m, n);
    assert [] + m == m && [] + n == n;
  }

  /** All that is not data is in the first block. */
  lemma InputFront(s: Session, cmd: byte, data: Bytes)
    ensures var m := Ev2Input(s, cmd, data); |m| == 7 + |data| && (|m| > 16 ==> m[16..] == data[9..])
  {
    hide CtrBytes;
  }

  /** The enciphered block an EV2 initial value is: a tag for the direction, TI,
      counter, zeros. */
  lemma IvHolds(s: Session, forCommand: bool)
    ensures var b := Ecb(RawCipher(s.p, AES128, s.enc[..16]), Ev2Iv(s, forCommand), false);
            && (if forCommand then b[0] == 0xA5 && b[1] == 0x5A else b[0] == 0x5A && b[1] == 0xA5)
            && b[2..6] == s.ti && (b[6] as bv16) | ((b[7] as bv16) << 8) == s.ctr && b[8..] == Zeros(8)
  {
    hide Ecb, CtrBytes;
    CounterLittle(s.ctr);
    var tag: Bytes := if forCommand then [0xA5, 0x5A] else [0x5A, 0xA5];
    var x := tag + s.ti + CtrBytes(s.ctr) + Zeros(8);
    EcbInverse(AesEnc(s), x, true);
    assert x[0] == tag[0] && x[1] == tag[1] && x[2..6] == s.ti && x[8..] == Zeros(8);
    assert x[6] == CtrBytes(s.ctr)[0] && x[7] == CtrBytes(s.ctr)[1];
  }

  /** Padding method 2 of ISO/IEC 9797-1: 0x80, then zeros to the next whole block. */
  lemma PaddingBehind(b: Bytes)
    ensures var p := Padded2(b);
            && b <= p && p[|b|] == 0x80 && (forall i | |b| < i < |p| :: p[i] == 0)
            && |p| % 16 == 0 && |b| < |p| <= |b| + 16
  {}

  /** Under the encryption key: CBC from the initial value of that direction on EV2;
      counter mode under updated key 1 on LRP, from the four counter bytes at the
      front of the IV buffer. */
  lemma CipherIs(s: Session, forCommand: bool, data: Bytes, encrypt: bool)
    requires |data| % 16 == 0
    ensures var r, key := Ev2Crypt(s, forCommand, data, encrypt), s.enc[..16];
            if s.channel == LRP then
              var e := Lrp.Crypt(Lrp.RawContext(s.p, key, 1), s.iv[..4] + Zeros(60), 8, data, encrypt);
              r.0 == e.0 && r.1 == s.(iv := e.1[..4] + s.iv[4..])
            else r == (Cbc.Run(RawCipher(s.p, AES128, key), Ev2Iv(s, forCommand), data, encrypt, encrypt).0, s)
  {
    hide Cbc.Run, Lrp.Crypt, Ev2Iv;
    var e := Lrp.Crypt(LrpEncContext(s), LrpCounter(s), 8, data, encrypt).1[..4];
    assert Splice(s.iv, 0, e) == e + s.iv[4..];
  }

  /** A protected request ends in the MAC over what is in front of it, under its own
      command byte. In front are the data, in MAC mode or when all of it is header;
      else the header and, enciphered as a command, the padded rest. It goes out
      exactly if it fits. */
  lemma RequestHolds(s: Session, cmd: byte, src: Bytes, cap: nat) returns (body: Bytes)
    requires OnEv2(s) && !s.mode.Plain?
    ensures if s.mode.Mac? || |src| <= HeaderLength(cmd, |src|) then body == src
            else var h := HeaderLength(cmd, |src|);
                 h <= |body| && body[..h] == src[..h] && body[h..] == Ev2Crypt(s, true, Padded2(src[h..]), true).0
    ensures EncodeEv2(s, cmd, src, cap).result
         == if |src| > cap || |body| + 8 > cap then Err(Length) else Ok(body + Ev2Mac(s, cmd, body))
  {
    hide Ev2Mac, Ev2Crypt, Padded2;
    body := if s.mode.Mac? || |src| <= HeaderLength(cmd, |src|) then src else Ev2Body(s, Header(cmd, |src|), src).0;
  }

  /** A number of bytes is found in front of 0x80 and zeros, or none. */
  lemma UnpaddedIs(data: Bytes, k: nat)
    requires 0 < k < |data|
    ensures Unpadded2(data) == k <==> data[k] == 0x80 && forall i | k < i < |data| :: data[i] == 0
  {
    hide Unpadded2;
    if data[k] == 0x80 && forall i | k < i < |data| :: data[i] == 0 {
      UnpaddedZeros(data[..k], |data| - k - 1);
      assert data == data[..k] + [0x80] + Zeros(|data| - k - 1);
    } else if Unpadded2(data) == k {
      UnpaddedEnds(data);
    }
  }

  lemma {:induction false} UnpaddedEnds(data: Bytes)
    ensures var n := Unpadded2(data); n > 0 ==> n < |data| && data[n] == 0x80 && forall i | n < i < |data| :: data[i] == 0
    decreases |data|
  {
    if data != [] {
      UnpaddedEnds(data[..|data| - 1]);
    }
  }

  /** A protected answer is accepted exactly if it ends in the MAC over what is in
      front of it, under command byte zero; from one block on that is enciphered as
      an answer, and what the padding leaves of it is returned. */
  lemma AnswerChecked(s: Session, src: Bytes, cap: nat)
    requires OnEv2(s) && !s.mode.Plain? && !s.mode.EncPlain?
    ensures var d, n := DecodeEv2(s, src, cap), |src| - 8;
            if n < 0 then d == Outcome(Err(Length), s)
            else if src[n..] != Ev2Mac(s, 0x00, src[..n]) then d == Outcome(Err(Error.Crypto), s.(macMismatch := true))
            else if s.mode.Mac? || n < 16 then d == Outcome(if n > cap then Err(Length) else Ok(src[..n]), s)
            else if n % 16 != 0 then d == Outcome(Err(Length), s)
            else
              var e := Ev2Crypt(s, false, src[..n], false);
              var k := Unpadded2(e.0);
              d == Outcome(if k == 0 then Err(Error.Crypto) else if k > cap then Err(Length) else Ok(e.0[..k]), e.1)
  {
    hide Ev2Mac, Ev2Crypt, Unpadded2;
  }

  /** The card opens a protected request only if it ends in the MAC over what is in front
      of it; otherwise nothing of it is used and the session stays as it was. */
  lemma CardChecksEv2(k: Session, cmd: byte, wire: Bytes, mode: Mode)
    requires !mode.Plain?
    ensures var o, n := OpenEv2(k, cmd, wire, mode), |wire| - 8;
            if n < 0 then o == Outcome(Err(Length), k)
            else if wire[n..] != Ev2Mac(k, cmd, wire[..n]) then o == Outcome(Err(Error.Crypto), k)
            else if mode.Mac? || n <= HeaderLength(cmd, n) then o == Outcome(Ok(wire[..n]), k)
            else
              var h := HeaderLength(cmd, n);
              o.result.Ok? ==>
                (n - h) % 16 == 0
                && var p := Ev2Crypt(k, true, wire[h..n], false).0; o.result == Ok(wire[..h] + p[..Unpadded2(p)])
  {
    hide Ev2Mac, Ev2Crypt, HeaderLength, Unpadded2;
    var n := |wire| - 8;
    if n >= 0 && HeaderLength(cmd, n) <= n {
      assert wire[..n][HeaderLength(cmd, n)..] == wire[HeaderLength(cmd, n)..n];
      assert wire[..n][..HeaderLength(cmd, n)] == wire[..HeaderLength(cmd, n)];
    }
  }

  //--------------------------------------------------------------------------
  // the ciphers of a session
  //--------------------------------------------------------------------------

  /** Each under its own key, the leading bytes of the buffer that make a key of the
      session's type. */
  lemma SessionCiphers(s: Session)
    ensures EncCipher(s) == RawCipher(s.p, s.keyType, s.enc[..KeySize(s.keyType)])
    ensures MacCipher(s) == RawCipher(s.p, s.keyType, s.mac[..KeySize(s.keyType)])
    ensures AesEnc(s) == RawCipher(s.p, AES128, s.enc[..16]) && AesMac(s) == RawCipher(s.p, AES128, s.mac[..16])
    ensures Block(EncCipher(s)) == Block(MacCipher(s)) == BlockSize(s.keyType)
  {}

  /** The front of the IV buffer holds a new value, the rest is as before. */
  lemma IvReplaced(s: Session, v: Bytes)
    requires |v| <= 16
    ensures WithIv(s, v) == s.(iv := v + s.iv[|v|..])
  {
    assert Splice(s.iv, 0, v) == v + s.iv[|v|..];
  }

  //--------------------------------------------------------------------------
  // EV1
  //--------------------------------------------------------------------------

  /** Without enciphering a command moves the chain on by the CMAC over command byte
      and data, under the MAC key; eight bytes of it are sent in MAC mode where the
      command sends one. */
  lemma Ev1ClearHolds(s: Session, cmd: byte, src: Bytes, cap: nat)
    requires s.channel == EV1 && (s.mode.Plain? || s.mode.Mac? || (s.mode.Enc? && |src| <= HeaderLength(cmd, |src|)))
    ensures var c := MacCipher(s);
            var mac := Cmac.MacOf(c, s.iv[..Block(c)], [cmd] + src, 0);
            EncodeEv1(s, cmd, src, cap)
            == if |src| > cap then Outcome(Err(Length), s)
               else Outcome(if !(s.mode.Mac? && TransmitsMac(EV1, cmd)) then Ok(src)
                            else if |src| + 8 > cap then Err(Length) else Ok(src + mac[..8]), WithIv(s, mac))
  {
    hide Cmac.MacOf, HeaderLength, TransmitsMac, MacCipher, WithIv;
  }

  /** An answer on the chain is accepted exactly if it ends in eight bytes of the
      CMAC over what is in front and the status. */
  lemma Ev1AnswerChecked(s: Session, src: Bytes, status: byte, cap: nat)
    requires s.mode.Plain? || s.mode.Mac? || (s.mode.Enc? && !s.lastZeroLen)
    ensures var d, n, c := DecodeEv1(s, src, status, cap), |src| - 8, MacCipher(s);
            if n < 0 then d == Outcome(Err(Length), s)
            else
              var mac := Cmac.MacOf(c, s.iv[..Block(c)], src[..n] + [status], 0);
              var t := WithIv(s, mac);
              d == if mac[..8] != src[n..] then Outcome(Err(Error.Crypto), t.(macMismatch := true))
                   else Outcome(if n > cap then Err(Length) else Ok(src[..n]), t)
  {
    hide Cmac.MacOf, MacCipher, WithIv;
  }

  /** What EV1 enciphers: the data behind the header; in the ChangeKey style mode
      nothing else, else the CRC32 over command byte, header and data, and in the
      padded mode 0x80; then zeros to the next whole block. */
  lemma Ev1PlainHolds(s: Session, cmd: byte, src: Bytes, h: nat)
    requires h <= |src|
    ensures var p, n, crc := Ev1Plain(s, cmd, src, h), |src| - h, CrcOf(W32, [cmd] + src);
            var m := if s.mode.EncPlain? then n else if s.mode.EncPadded? then n + 5 else n + 4;
            && |p| % BlockSize(s.keyType) == 0 && m <= |p| < m + BlockSize(s.keyType)
            && p[..n] == src[h..] && (forall i | m <= i < |p| :: p[i] == 0)
            && (!s.mode.EncPlain? ==> p[n..n + 4] == crc) && (s.mode.EncPadded? ==> p[n + 4] == 0x80)
  {
    hide CrcOf;
  }

  /** It goes out behind the header if it fits, as the next blocks of the chain, which
      stands at the last of them afterwards. */
  lemma Ev1EncipheredHolds(s: Session, cmd: byte, src: Bytes, h: nat, cap: nat)
    requires h == Header(cmd, |src|) && s.channel == EV1
    requires s.mode.EncPadded? || ((s.mode.Enc? || s.mode.EncPlain?) && |src| > HeaderLength(cmd, |src|))
    ensures var c, p := EncCipher(s), Ev1Plain(s, cmd, src, h);
            var e := Cbc.Run(c, s.iv[..Block(c)], p, true, true);
            EncodeEv1(s, cmd, src, cap)
            == if |src| > cap || h + |p| > cap then Outcome(Err(Length), s)
               else Outcome(Ok(src[..h] + e.0), WithIv(s, e.1).(mode := Enc))
  {
    hide Ev1Plain, Cbc.Run, Header, EncCipher, WithIv, Ev1Cipher;
    Ev1CipherIs(s, Ev1Plain(s, cmd, src, h));
    HeaderReached(cmd, |src|);
  }

  lemma HeaderReached(cmd: byte, n: nat)
    ensures n > HeaderLength(cmd, n) ==> Header(cmd, n) == HeaderLength(cmd, n)
    ensures n <= HeaderLength(cmd, n) ==> Header(cmd, n) == n
  {
    hide HeaderLength;
  }

  lemma Ev1CipherIs(s: Session, data: Bytes)
    requires Cbc.Whole(EncCipher(s), data)
    ensures var c := EncCipher(s);
            var e := Cbc.Run(c, s.iv[..Block(c)], data, true, true);
            Ev1Cipher(s, data) == (e.0, WithIv(s, e.1))
  {
    hide Cbc.Run, EncCipher, WithIv;
  }

  /** In the ChangeKey style mode there may be nothing to encipher; and its answers are
      taken as they are. */
  lemma Ev1Bare(s: Session, cmd: byte, src: Bytes, status: byte, cap: nat)
    requires s.channel == EV1 && s.mode.EncPlain?
    ensures |src| <= HeaderLength(cmd, |src|) ==>
              EncodeEv1(s, cmd, src, cap) == Outcome(if |src| > cap then Err(Length) else Ok(src), s)
    ensures DecodeEv1(s, src, status, cap) == Outcome(if |src| > cap then Err(Length) else Ok(src), s)
  {
    hide HeaderLength;
  }

  /** The CRC32 binds an enciphered request to its command: under another one with
      as long a header the card refuses it. */
  lemma OtherCommandRefused(r: Session, k: Session, cmd: byte, other: byte, src: Bytes, cap: nat)
    requires Agree(r, k) && r.mode == k.mode && r.channel == EV1 && (r.mode.Enc? || r.mode.EncPadded?)
    requires cmd != other && HeaderLength(cmd, |src|) == HeaderLength(other, |src|)
    requires r.mode.Enc? ==> |src| > HeaderLength(cmd, |src|)
    requires EncodeEv1(r, cmd, src, cap).result.Ok?
    ensures OpenEv1(k, other, EncodeEv1(r, cmd, src, cap).result.value, |src|).result == Err(Error.Crypto)
  {
    hide CrcOf, Cbc.Run, ZeroPadded, HeaderLength, Ev1Plain, EncodeEv1, EncCipher, WithIv;
    var h := Header(cmd, |src|);
    Ev1EncipheredHolds(r, cmd, src, h, cap);
    var wire := EncodeEv1(r, cmd, src, cap).result.value;
    assert wire[..h] == src[..h] && wire[h..] == Ev1Cipher(r, Ev1Plain(r, cmd, src, h)).0;
    ReceivedPlain(r, k, cmd, src, h);
    assert src[..h] + src[h..] == src;
    OtherPlain(k, cmd, other, src, h);
  }

  lemma ReceivedPlain(r: Session, k: Session, cmd: byte, src: Bytes, h: nat)
    requires Agree(r, k) && r.mode == k.mode && h <= |src|
    ensures var p := Ev1Plain(k, cmd, src, h);
            var w := Ev1Cipher(r, Ev1Plain(r, cmd, src, h)).0;
            && |src| - h <= |p| && p[..|src| - h] == src[h..] && Cbc.Whole(EncCipher(k), w)
            && Cbc.Crypt(EncCipher(k), k.iv[..Block(EncCipher(k))], w, false).0 == p
  {
    hide CrcOf, Cbc.Run, ZeroPadded, Ev1Plain;
    SameEv1(r, k, [], cmd, src, h);
    PlainStarts(k, cmd, src, h);
    Cbc.ReceiveUndoesSend(EncCipher(k), k.iv[..Block(EncCipher(k))], Ev1Plain(k, cmd, src, h), true);
  }

  lemma OtherPlain(s: Session, cmd: byte, other: byte, src: Bytes, h: nat)
    requires cmd != other && h <= |src| && !s.mode.EncPlain?
    ensures Ev1Plain(s, cmd, src, h) != Ev1Plain(s, other, src, h)
  {
    hide Ev1Plain, CrcOf;
    Ev1PlainHolds(s, cmd, src, h);
    Ev1PlainHolds(s, other, src, h);
    BurstDetected(W32, [], [cmd], [other], src);
    assert [] + [cmd] + src == [cmd] + src && [] + [other] + src == [other] + src;
  }

  /** An enciphered answer is deciphered from the chain value with the encryption key
      and ends where the CRC32 matches; less than a block is taken as it is. */
  lemma Ev1Deciphered(s: Session, src: Bytes, status: byte, cap: nat)
    requires s.mode.EncPadded? || (s.mode.Enc? && s.lastZeroLen)
    ensures var d, c := DecodeEv1(s, src, status, cap), EncCipher(s);
            if |src| < Block(c) then d == Outcome(if |src| > cap then Err(Length) else Ok(src), s)
            else if |src| % Block(c) != 0 then d == Outcome(Err(Length), s)
            else
              var p := Cbc.Run(c, s.iv[..Block(c)], src, false, false).0;
              var k := CrcPos(W32, p, status);
              d == Outcome(if k == 0 then Err(Error.Crypto) else if k > cap then Err(Length) else Ok(p[..k]), s)
  {
    hide Cbc.Run, CrcPos, EncCipher;
  }

  //--------------------------------------------------------------------------
  // D40
  //--------------------------------------------------------------------------

  /** The MAC is the front half of the last block of CBC from zero over the data
      with zeros to a whole block, under the MAC key. */
  lemma D40MacIs(s: Session, data: Bytes) returns (p: Bytes)
    ensures data <= p && |p| % BlockSize(s.keyType) == 0 && |p| < |data| + BlockSize(s.keyType)
    ensures forall i | |data| <= i < |p| :: p[i] == 0
    ensures D40Mac(s, data) == Cbc.Run(MacCipher(s), Zeros(Block(MacCipher(s))), p, true, true).1[..4]
  {
    hide Cbc.Run;
    p := ZeroPadded(data, Block(MacCipher(s)));
  }

  /** In MAC mode, or when all of it is header: four bytes of MAC over what is behind
      the header, where the command sends one. */
  lemma D40ClearHolds(s: Session, cmd: byte, src: Bytes, cap: nat)
    requires s.channel == D40 && (s.mode.Plain? || s.mode.Mac? || |src| <= HeaderLength(cmd, |src|))
    ensures var h := HeaderLength(cmd, |src|);
            EncodeD40(s, cmd, src, cap)
            == Outcome(if |src| > cap then Err(Length)
                       else if s.mode.Plain? || |src| <= h || !TransmitsMac(D40, cmd) then Ok(src)
                       else if |src| + 4 > cap then Err(Length)
                       else Ok(src + D40Mac(s, src[h..])), s)
  {
    hide D40Mac, HeaderLength, TransmitsMac;
  }

  /** What D40 enciphers: as on EV1, but with the CRC16 over the data alone. */
  lemma D40PlainHolds(s: Session, data: Bytes)
    ensures var p, n := D40Plain(s, data), |data|;
            var m := if s.mode.EncPlain? then n else if s.mode.EncPadded? then n + 3 else n + 2;
            && |p| % BlockSize(s.keyType) == 0 && m <= |p| < m + BlockSize(s.keyType)
            && p[..n] == data && (forall i | m <= i < |p| :: p[i] == 0)
            && (!s.mode.EncPlain? ==> p[n..n + 2] == CrcOf(W16, data)) && (s.mode.EncPadded? ==> p[n + 2] == 0x80)
  {
    hide CrcOf;
  }

  /** It goes out behind the header if it fits, deciphered along a chain from zero
      under the encryption key. */
  lemma D40EncipheredHolds(s: Session, cmd: byte, src: Bytes, cap: nat)
    requires s.channel == D40 && !s.mode.Plain? && !s.mode.Mac? && |src| > HeaderLength(cmd, |src|)
    ensures var h, c := Header(cmd, |src|), EncCipher(s);
            var p := D40Plain(s, src[h..]);
            EncodeD40(s, cmd, src, cap)
            == if |src| > cap || h + |p| > cap then Outcome(Err(Length), s)
               else Outcome(Ok(src[..h] + Cbc.Run(c, Zeros(Block(c)), p, true, false).0),
                            s.(mode := if s.mode.EncPlain? then Enc else s.mode))
  {
    hide D40Plain, Cbc.Run, HeaderLength, EncCipher;
  }

  /** In MAC mode an answer to a command that is answered with a MAC is accepted
      exactly if it ends in the MAC over what is in front; to another one it is taken as
      it is, as in the plain modes. */
  lemma D40AnswerChecked(s: Session, src: Bytes, status: byte, cap: nat)
    requires s.channel == D40 && !s.mode.Enc? && !s.mode.EncPadded?
    ensures var d, n := DecodeD40(s, src, status, cap), |src| - 4;
            if !s.mode.Mac? || !ReceivesMac(D40, s.lastCmd) then d == Outcome(if |src| > cap then Err(Length) else Ok(src), s)
            else if n <= 0 then d == Outcome(Err(Length), s)
            else if D40Mac(s, src[..n]) != src[n..] then d == Outcome(Err(Error.Crypto), s.(macMismatch := true))
            else d == Outcome(if n > cap then Err(Length) else Ok(src[..n]), s)
  {
    hide D40Mac, ReceivesMac;
  }

  /** An enciphered answer is deciphered from zero; it ends where the CRC16 matches,
      or, on all but the first silicon, where the CRC32 does. */
  lemma D40Deciphered(s: Session, src: Bytes, status: byte, cap: nat)
    requires s.mode.Enc? || s.mode.EncPadded?
    ensures var d, c := DecodeD40(s, src, status, cap), EncCipher(s);
            if |src| < Block(c) then d == Outcome(if |src| > cap then Err(Length) else Ok(src), s)
            else if |src| % Block(c) != 0 then d == Outcome(Err(Length), s)
            else
              var p := Cbc.Run(c, Zeros(Block(c)), src, false, false).0;
              var k := if CrcPos(W16, p, status) != 0 || s.legacyCard then CrcPos(W16, p, status) else CrcPos(W32, p, status);
              d == Outcome(if k == 0 then Err(Error.Crypto) else if k > cap then Err(Length) else Ok(p[..k]), s)
  {
    hide Cbc.Run, CrcPos, EncCipher;
  }

  /** What the card asks of a request of `n` bytes before it opens it, on EV1: the MAC
      where one is sent, and behind enciphered data the checksum and padding the reader
      would have put there. */
  lemma CardChecksEv1(k: Session, cmd: byte, wire: Bytes, n: nat, h: nat)
    requires h == Header(cmd, n) && OpenEv1(k, cmd, wire, n).result.Ok?
    ensures k.mode.Mac? ==>
              if TransmitsMac(EV1, cmd) then |wire| == n + 8 && wire[n..] == Ev1Mac(k, [cmd] + wire[..n])[..8] else |wire| == n
    ensures var c, src := EncCipher(k), OpenEv1(k, cmd, wire, n).result.value;
            k.mode.EncPadded? || (!k.mode.Plain? && !k.mode.Mac? && n > h) ==>
              |src| == n && h <= |wire| && Cbc.Whole(c, wire[h..])
              && Cbc.Run(c, k.iv[..Block(c)], wire[h..], false, false).0 == Ev1Plain(k, cmd, src, h)
  {
    hide HeaderLength, TransmitsMac, Ev1Mac, Ev1Plain, EncCipher, Cbc.Run, WithIv;
  }

  /** The same on D40. */
  lemma CardChecksD40(k: Session, cmd: byte, wire: Bytes, n: nat, h: nat)
    requires h == Header(cmd, n) && OpenD40(k, cmd, wire, n).Ok?
    ensures k.mode.Mac? ==>
              if n > h && TransmitsMac(D40, cmd) then |wire| == n + 4 && wire[n..] == D40Mac(k, wire[h..n]) else |wire| == n
    ensures var c, src := EncCipher(k), OpenD40(k, cmd, wire, n).value;
            !k.mode.Plain? && !k.mode.Mac? && n > h ==>
              |src| == n && h <= |wire| && Cbc.Whole(c, wire[h..])
              && Cbc.Run(c, Zeros(Block(c)), wire[h..], false, true).0 == D40Plain(k, src[h..])
  {
    hide HeaderLength, TransmitsMac, D40Mac, D40Plain, EncCipher, Cbc.Run;
    if !k.mode.Plain? && !k.mode.Mac? && n > h {
      var d := RecoverD40(k, wire[h..], n - h);
      assert (wire[..h] + d.value)[h..] == d.value;
    }
  }

  //--------------------------------------------------------------------------
  // what is kept and what is cleared
  //--------------------------------------------------------------------------

  /** The encoder notes the command and whether there was anything to encipher; the
      answer is read by both. */
  lemma Noted(s: Session, cmd: byte, src: Bytes, cap: nat)
    ensures var t := Encode(s, cmd, src, cap).session;
            t.lastCmd == cmd && (t.lastZeroLen <==> |src| <= HeaderLength(cmd, |src|))
  {
    hide HeaderLength, EncodeD40, EncodeEv1, EncodeEv2;
    NotedBefore(s, cmd, |src| <= HeaderLength(cmd, |src|));
    var u := s.(lastCmd := cmd, lastZeroLen := |src| <= HeaderLength(cmd, |src|));
    match s.channel
    case D40 => NotedD40(u, cmd, src, cap);
    case EV1 => NotedEv1(u, cmd, src, cap);
    case NoChannel =>
    case EV2 => NotedEv2(u, cmd, src, cap);
    case LRP => NotedEv2(u, cmd, src, cap);
  }

  lemma NotedBefore(s: Session, cmd: byte, zero: bool)
    ensures var u := s.(lastCmd := cmd, lastZeroLen := zero); u.lastCmd == cmd && u.lastZeroLen == zero
  {}

  lemma NotedD40(s: Session, cmd: byte, src: Bytes, cap: nat)
    ensures var t := EncodeD40(s, cmd, src, cap).session; t.lastCmd == s.lastCmd && t.lastZeroLen == s.lastZeroLen
  {
    hide EncodeD40;
    Gate.EncodeD40Keeps(s, cmd, src, cap);
  }

  lemma NotedEv1(s: Session, cmd: byte, src: Bytes, cap: nat)
    ensures var t := EncodeEv1(s, cmd, src, cap).session; t.lastCmd == s.lastCmd && t.lastZeroLen == s.lastZeroLen
  {
    hide EncodeEv1, Ev1Mac, Ev1Plain, Ev1Cipher, Splice, Header;
    Gate.EncodeEv1Sessions(s, cmd, src, cap);
    var e := Ev1Cipher(s, Ev1Plain(s, cmd, src, Header(cmd, |src|))).1;
  }

  lemma NotedEv2(s: Session, cmd: byte, src: Bytes, cap: nat)
    ensures var t := EncodeEv2(s, cmd, src, cap).session; t.lastCmd == s.lastCmd && t.lastZeroLen == s.lastZeroLen
  {
    hide EncodeEv2, Ev2Body, Header;
    Gate.EncodeEv2Sessions(s, cmd, src, cap);
  }

  /** A reset forgets the session and keeps what is not part of it. */
  lemma ResetClears(s: Session)
    ensures var t := Reset(s);
            && t.channel == NoChannel && !t.authenticated && !t.lost && t.ctr == 0 && t.ti == Zeros(4) && t.iv == Zeros(16)
            && t.enc == Zeros(32) && t.mac == Zeros(32)
            && t.p == s.p && t.legacyCard == s.legacyCard && t.mode == s.mode && t.keyType == s.keyType && t.keyNo == s.keyNo
            && t.lastCmd == s.lastCmd && t.lastZeroLen == s.lastZeroLen && t.macMismatch == s.macMismatch
  {}

  //--------------------------------------------------------------------------
  // the tables
  //--------------------------------------------------------------------------

  /** How much of the data of a command stays in the clear. */
  lemma HeaderTable(cmd: byte, len: nat)
    ensures Header(cmd, len) == Min(HeaderLength(cmd, len), len)
    ensures cmd in [0xCA, 0xDA] ==> HeaderLength(cmd, len) == len
    ensures cmd in [0xC4, 0x5C, 0xF5, 0x5F, 0x6C, 0x0C, 0xDC, 0x1C] ==> HeaderLength(cmd, len) == 1
    ensures cmd == 0xC6 ==> HeaderLength(cmd, len) == 2
    ensures cmd == 0xCE ==> HeaderLength(cmd, len) == 5
    ensures cmd in [0xBD, 0x3D, 0xBB, 0x3B] ==> HeaderLength(cmd, len) == 7
    ensures cmd == 0xDB ==> HeaderLength(cmd, len) == 10
    ensures cmd !in [0xCA, 0xDA, 0xC4, 0x5C, 0xF5, 0x5F, 0x6C, 0x0C, 0xDC, 0x1C, 0xC6, 0xCE, 0xBD, 0x3D, 0xBB, 0x3B, 0xDB]
            ==> HeaderLength(cmd, len) == 0
  {}

  /** Which commands send a MAC, which are answered with one, how long it is, and
      which statuses leave a session standing. */
  lemma MacTables(c: Channel, cmd: byte)
    ensures TransmitsMac(c, cmd) <==> c == D40 || c == EV1 ==> cmd in [0x3D, 0x0C, 0xDC, 0x1C, 0x3B, 0xDB, 0xC8, 0x56, 0x55, 0x57]
    ensures ReceivesMac(c, cmd) <==> c == D40 ==> cmd in [0xBD, 0xBB, 0x6C]
    ensures MacLength(c) == if c == NoChannel then 0 else if c == D40 then 4 else 8
    ensures StatusEndsSession(cmd) <==> cmd !in [0x00, 0x90, 0xAF]
  {}
}
