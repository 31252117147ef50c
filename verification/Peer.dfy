/** The card side of the secure channels. It keeps the same session values as
    the reader, opens what encode_* sealed and seals what decode_* opens. */
module Peer {
  import opened ByteStrings
  import opened Results
  import opened Ciphers
  import opened Sessions
  import opened Codecs
  import opened Crc
  import opened CrcSearch
  import Cbc
  import Cmac
  import Lrp

  /** Reader and card hold the same channel, keys, TI, IV and counter. */
  ghost predicate Agree(r: Session, k: Session) {
    && r.p == k.p && r.channel == k.channel && r.keyType == k.keyType
    && r.enc == k.enc && r.mac == k.mac && r.ti == k.ti && r.iv == k.iv && r.ctr == k.ctr
  }

  predicate OnEv2(s: Session) {
    s.channel == EV2 || s.channel == LRP
  }

  //--------------------------------------------------------------------------
  // EV2 and LRP
  //--------------------------------------------------------------------------

  /** The card deciphers a request behind the MAC check. */
  function OpenBody(k: Session, cmd: byte, body: Bytes, mode: Mode): (r: Outcome)
    ensures r.session == k.(iv := r.session.iv)
  {
    hide Ev2Crypt;
    var h := HeaderLength(cmd, |body|);
    if mode.Mac? || |body| <= h then Outcome(Ok(body), k)
    else if (|body| - h) % 16 != 0 then Outcome(Err(Length), k)
    else
      var e := Ev2Crypt(k, true, body[h..], false);
      Outcome(Ok(body[..h] + e.0[..Unpadded2(e.0)]), e.1)
  }

  /** The card opens a request whose communication mode it knows. */
  function OpenEv2(k: Session, cmd: byte, wire: Bytes, mode: Mode): (r: Outcome)
    ensures r.session == k.(iv := r.session.iv)
  {
    hide Ev2Mac, OpenBody;
    if mode.Plain? then Outcome(Ok(wire), k)
    else if |wire| < 8 then Outcome(Err(Length), k)
    else
      var n := |wire| - 8;
      if Ev2Mac(k, cmd, wire[..n]) != wire[n..] then Outcome(Err(Error.Crypto), k)
      else OpenBody(k, cmd, wire[..n], mode)
  }

  /** mock_secure_reply on EV2 and LRP: the answer is computed at the counter
      after the command. On LRP the card keeps its counter too. */
  function SealEv2(k: Session, comm: Mode, payload: Bytes): (r: (Bytes, Session)) {
    hide Ev2Mac, Ev2Crypt;
    var next := Next(k);
    if comm.Plain? then (payload, k)
    else if comm.Mac? then (payload + Ev2Mac(next, 0x00, payload), k)
    else
      var e := Ev2Crypt(next, false, Padded2(payload), true);
      (e.0 + Ev2Mac(next, 0x00, e.0), k.(iv := e.1.iv))
  }

  lemma {:induction false} UnpaddedZeros(b: Bytes, z: nat)
    ensures Unpadded2(b + [0x80] + Zeros(z)) == |b|
    decreases z
  {
    var d := b + [0x80] + Zeros(z);
    if z == 0 {
      assert d[|d| - 1] == 0x80;
    } else {
      assert d[|d| - 1] == 0 && d[..|d| - 1] == b + [0x80] + Zeros(z - 1);
      UnpaddedZeros(b, z - 1);
    }
  }

  /** Padding method 2 is undone by the backward search, for every string. */
  lemma UnpadPad(b: Bytes)
    ensures Unpadded2(Padded2(b)) == |b| && Padded2(b)[..|b|] == b
  {
    UnpaddedZeros(b, |Padded2(b)| - |b| - 1);
  }

  /** Deciphering by the other side gives the data back and moves both IV
      buffers alike. */
  lemma CryptRoundTrip(a: Session, b: Session, forCommand: bool, data: Bytes)
    requires Agree(a, b) && |data| % 16 == 0
    ensures var sent := Ev2Crypt(a, forCommand, data, true);
            var got := Ev2Crypt(b, forCommand, sent.0, false);
            got.0 == data && got.1 == WithIvBuffer(b, sent.1.iv) && sent.1 == WithIvBuffer(a, sent.1.iv)
  {
    hide Lrp.Crypt, Cbc.Run;
    if a.channel == LRP {
      Lrp.DecryptUndoesEncrypt(LrpEncContext(a), LrpCounter(a), 8, data);
    } else {
      Cbc.ReceiveUndoesSend(AesEnc(a), Ev2Iv(a, forCommand), data, true);
    }
  }

  function WithIvBuffer(s: Session, iv: Bytes): Session
    requires |iv| == 16
  {
    s.(iv := iv)
  }

  /** A body with its MAC passes the card's check. */
  lemma OpenSealed(r: Session, k: Session, cmd: byte, body: Bytes, mode: Mode)
    requires Agree(r, k) && !mode.Plain?
    ensures OpenEv2(k, cmd, body + Ev2Mac(r, cmd, body), mode) == OpenBody(k, cmd, body, mode)
  {
    hide Ev2Mac, OpenBody;
    MacDependsOnAgreement(r, k, cmd, body);
    var wire := body + Ev2Mac(r, cmd, body);
    assert wire[..|wire| - 8] == body && wire[|wire| - 8..] == Ev2Mac(r, cmd, body);
  }

  lemma OpenBodyUndoes(r: Session, k: Session, cmd: byte, src: Bytes, mode: Mode)
    requires Agree(r, k) && !mode.Plain? && !mode.Mac? && HeaderLength(cmd, |src|) < |src|
    ensures var e := Ev2Body(r, HeaderLength(cmd, |src|), src);
            OpenBody(k, cmd, e.0, mode) == Outcome(Ok(src), WithIvBuffer(k, e.1.iv))
  {
    hide Ev2Crypt, Padded2, Unpadded2;
    var h := HeaderLength(cmd, |src|);
    var c := Ev2Crypt(r, true, Padded2(src[h..]), true).0;
    var e := Ev2Body(r, h, src);
    assert e.0[..h] == src[..h] && e.0[h..] == c;
    CryptRoundTrip(r, k, true, Padded2(src[h..]));
    UnpadPad(src[h..]);
    assert src[..h] + src[h..] == src;
  }

  lemma MacDependsOnAgreement(r: Session, k: Session, cmd: byte, data: Bytes)
    requires Agree(r, k)
    ensures Ev2Mac(r, cmd, data) == Ev2Mac(k, cmd, data)
  {}

  /** Every request that goes out is opened by the card to exactly the payload,
      its MAC verifies, and both IV buffers end equal. */
  lemma RequestRoundTrip(r: Session, k: Session, cmd: byte, src: Bytes, cap: nat)
    requires Agree(r, k) && OnEv2(r)
    requires EncodeEv2(r, cmd, src, cap).result.Ok?
    ensures var e := EncodeEv2(r, cmd, src, cap);
            OpenEv2(k, cmd, e.result.value, r.mode) == Outcome(Ok(src), WithIvBuffer(k, e.session.iv))
  {
    hide Ev2Mac, Ev2Body, EncodeEv2, OpenEv2, OpenBody, WithIvBuffer;
    SameIv(k);
    EncodeEv2Ok(r, cmd, src, cap);
    if r.mode.Plain? {
      OpenPlain(k, cmd, src);
    } else if r.mode.Mac? || |src| <= HeaderLength(cmd, |src|) {
      OpenSealed(r, k, cmd, src, r.mode);
      OpenClear(k, cmd, src, r.mode);
    } else {
      OpenSealed(r, k, cmd, Ev2Body(r, Header(cmd, |src|), src).0, r.mode);
      OpenBodyUndoes(r, k, cmd, src, r.mode);
    }
  }

  lemma SameIv(k: Session)
    ensures WithIvBuffer(k, k.iv) == k
  {}

  lemma OpenClear(k: Session, cmd: byte, body: Bytes, mode: Mode)
    requires mode.Mac? || |body| <= HeaderLength(cmd, |body|)
    ensures OpenBody(k, cmd, body, mode) == Outcome(Ok(body), k)
  {}

  /** What a successful encode_ev2 sends. */
  lemma EncodeEv2Ok(r: Session, cmd: byte, src: Bytes, cap: nat)
    requires EncodeEv2(r, cmd, src, cap).result.Ok?
    ensures var e := EncodeEv2(r, cmd, src, cap);
            && e.result.value == (if r.mode.Plain? then src
                                  else if r.mode.Mac? || |src| <= HeaderLength(cmd, |src|) then src + Ev2Mac(r, cmd, src)
                                  else var b := Ev2Body(r, Header(cmd, |src|), src).0; b + Ev2Mac(r, cmd, b))
            && e.session.iv == (if r.mode.Plain? || r.mode.Mac? || |src| <= HeaderLength(cmd, |src|) then r.iv
                                else Ev2Body(r, Header(cmd, |src|), src).1.iv)
  {
    hide Ev2Mac, Ev2Body;
  }

  lemma OpenPlain(k: Session, cmd: byte, wire: Bytes)
    ensures OpenEv2(k, cmd, wire, Plain) == Outcome(Ok(wire), k)
  {}

  /** A body with its MAC passes the reader's check. */
  lemma DecodeSealed(r: Session, k: Session, body: Bytes, cap: nat)
    requires Agree(r, k) && !r.mode.Plain? && !r.mode.EncPlain?
    ensures DecodeEv2(r, body + Ev2Mac(k, 0x00, body), cap) == DecodeBody(r, body, cap)
  {
    hide Ev2Mac, DecodeBody;
    MacDependsOnAgreement(r, k, 0x00, body);
    var wire := body + Ev2Mac(k, 0x00, body);
    assert wire[..|wire| - 8] == body && wire[|wire| - 8..] == Ev2Mac(k, 0x00, body);
  }

  lemma DecodeBodyUndoes(r: Session, k: Session, payload: Bytes, cap: nat)
    requires Agree(r, k) && (r.mode.Enc? || r.mode.EncPadded?)
    ensures var e := Ev2Crypt(k, false, Padded2(payload), true);
            && DecodeBody(r, e.0, cap).result == (if payload == [] then Err(Error.Crypto) else Copied(payload, cap))
            && DecodeBody(r, e.0, cap).session == WithIvBuffer(r, e.1.iv)
  {
    hide Ev2Crypt, Padded2, Unpadded2;
    CryptRoundTrip(k, r, false, Padded2(payload));
    UnpadPad(payload);
  }

  lemma AnswerClear(r: Session, k: Session, payload: Bytes, cap: nat)
    requires Agree(r, Next(k)) && (r.mode.Plain? || r.mode.Mac?)
    ensures DecodeEv2(r, SealEv2(k, r.mode, payload).0, cap) == Outcome(Copied(payload, cap), r)
  {
    hide Ev2Mac, Ev2Crypt;
    if r.mode.Mac? {
      DecodeSealed(r, Next(k), payload, cap);
    }
  }

  lemma AnswerEnciphered(r: Session, k: Session, payload: Bytes, cap: nat)
    requires Agree(r, Next(k)) && (r.mode.Enc? || r.mode.EncPadded?)
    ensures var a := SealEv2(k, r.mode, payload);
            && DecodeEv2(r, a.0, cap).session == WithIvBuffer(r, a.1.iv)
            && DecodeEv2(r, a.0, cap).result
               == if payload == [] then Err(Error.Crypto) else Copied(payload, cap)
  {
    hide Ev2Mac, Ev2Crypt, Padded2, DecodeEv2, DecodeBody, WithIvBuffer;
    DecodeSealed(r, Next(k), Ev2Crypt(Next(k), false, Padded2(payload), true).0, cap);
    DecodeBodyUndoes(r, Next(k), payload, cap);
  }

  /** The answer of an agreeing card: in MAC mode every payload comes back; in
      enciphered mode every payload but the empty one, which the padding search
      reports as an error. Either way the MAC is accepted. */
  lemma AnswerRoundTrip(r: Session, k: Session, payload: Bytes, cap: nat)
    requires OnEv2(r) && Agree(r, Next(k)) && !r.mode.EncPlain?
    ensures var a := SealEv2(k, r.mode, payload);
            && DecodeEv2(r, a.0, cap).session == WithIvBuffer(r, a.1.iv)
            && DecodeEv2(r, a.0, cap).result
               == if (r.mode.Enc? || r.mode.EncPadded?) && payload == [] then Err(Error.Crypto)
                  else Copied(payload, cap)
  {
    hide Ev2Mac, Ev2Crypt, DecodeEv2;
    if r.mode.Plain? || r.mode.Mac? {
      SameIv(r);
      AnswerClear(r, k, payload, cap);
    } else {
      hide SealEv2;
      AnswerEnciphered(r, k, payload, cap);
    }
  }

  lemma CounterBytes(a: bv16, b: bv16)
    ensures CtrBytes(a) == CtrBytes(b) ==> a == b
  {
    var x, y := CtrBytes(a), CtrBytes(b);
    assert x == y ==> x[0] == y[0] && x[1] == y[1];
  }

  /** In one EV2 session no two messages share an IV, until the counter wraps:
      it differs between a command and its answer, and between any two counter
      values. */
  lemma IvsDistinct(s: Session, t: Session, f: bool, g: bool)
    requires s.p == t.p && s.enc == t.enc && s.ti == t.ti && (f != g || s.ctr != t.ctr)
    ensures Ev2Iv(s, f) != Ev2Iv(t, g)
  {
    hide Ecb, CtrBytes;
    var a: Bytes := if f then [0xA5, 0x5A] else [0x5A, 0xA5];
    var b: Bytes := if g then [0xA5, 0x5A] else [0x5A, 0xA5];
    var x, y := a + s.ti + CtrBytes(s.ctr) + Zeros(8), b + t.ti + CtrBytes(t.ctr) + Zeros(8);
    EcbInverse(AesEnc(s), x, true);
    EcbInverse(AesEnc(s), y, true);
    CounterBytes(s.ctr, t.ctr);
    assert x[0] == a[0] && y[0] == b[0] && x[6..8] == CtrBytes(s.ctr) && y[6..8] == CtrBytes(t.ctr);
  }
}
