/** The three pass authentications, both sides. Nonces, the transaction
    identifier and the capability bytes are parameters. */
module Handshakes {
  import opened ByteStrings
  import opened Results
  import opened Ciphers
  import opened Sessions
  import opened Codecs
  import opened Framing
  import Cbc
  import Cmac
  import Lrp

  /** nxpsc_key_t: the key material in a buffer of NXPSC_MAX_KEY_SIZE bytes. */
  datatype RawKey = RawKey(kind: KeyType, data: Bytes, version: byte)
  type Key = k: RawKey | |k.data| == 32 witness RawKey(DES, Zeros(32), 0)

  /** What the reader carries from its second frame to the last answer. */
  datatype Pending = Pending(send: Bytes, rndB: Bytes, iv: Bytes)

  /** What the card makes of the second frame: its answer, and RndA. */
  datatype Opened = Opened(answer: Bytes, rndA: Bytes)

  function KeyCipher(p: Primitives, key: Key): Cipher {
    Keyed(p, key.kind, key.data)
  }

  function AesCipher(p: Primitives, key: Key): (c: Cipher)
    ensures Block(c) == 16
  {
    Keyed(p, AES128, key.data)
  }

  function NonceLength(kind: KeyType): (n: nat) {
    if kind.DES? || kind.TwoKeyTdea? then 8 else 16
  }

  lemma NonceWhole(c: Cipher, a: Bytes, b: Bytes)
    requires |a| == |b| == NonceLength(c.kind)
    ensures Cbc.Whole(c, a) && Cbc.Whole(c, a + b)
  {}

  /** The session entered by a successful authentication. */
  function Enter(s: Session, channel: Channel, kind: KeyType, keyNo: byte, enc: Bytes, mac: Bytes): Session
    requires |enc| <= 32 && |mac| <= 32
  {
    s.(channel := channel, authenticated := true, keyType := kind, keyNo := keyNo, iv := Zeros(16),
       enc := Splice(s.enc, 0, enc), mac := Splice(s.mac, 0, mac))
  }

  //--------------------------------------------------------------------------
  // D40 and EV1
  //--------------------------------------------------------------------------

  /** nxpsc_session_key_d40 */
  function SessionKeyD40(kind: KeyType, a: Bytes, b: Bytes): (k: Bytes)
    requires |a| == |b| >= NonceLength(kind)
    ensures |k| <= KeySize(kind)
  {
    match kind
    case DES => a[..4] + b[..4]
    case TwoKeyTdea => a[..4] + b[..4] + a[4..8] + b[4..8]
    case ThreeKeyTdea => a[..4] + b[..4] + a[6..10] + b[6..10] + a[12..16] + b[12..16]
    case _ => a[..4] + b[..4] + a[12..16] + b[12..16]
  }

  predicate EqualHalves(key: Key) {
    key.kind.TwoKeyTdea? && key.data[..8] == key.data[8..16]
  }

  /** Both sides: a two-key key with equal halves is a DES key, so its session
      key is the eight DES bytes, kept twice. */
  function LegacyKey(key: Key, a: Bytes, b: Bytes): (k: Bytes)
    requires |a| == |b| == NonceLength(key.kind)
    ensures |k| == KeySize(key.kind)
  {
    var m := if EqualHalves(key) then SessionKeyD40(DES, a, b) + SessionKeyD40(DES, a, b)
             else SessionKeyD40(key.kind, a, b);
    m + Zeros(KeySize(key.kind) - |m|)
  }

  /** The reader's answer to the challenge, in auth_legacy. */
  function LegacyReply(p: Primitives, key: Key, d40: bool, a: Answer, rndA: Bytes): (r: Result<Pending>)
    requires |rndA| == NonceLength(key.kind)
    ensures r.Ok? ==> |r.value.rndB| == |rndA| && |r.value.iv| == Block(KeyCipher(p, key))
  {
    hide Cbc.Run;
    var c := KeyCipher(p, key);
    if a.status != S_ADDITIONAL_FRAME || |a.data| != |rndA| then Err(Auth)
    else
      NonceWhole(c, rndA, a.data);
      NonceWhole(c, a.data, rndA);
      var d := Cbc.Run(c, Zeros(Block(c)), a.data, false, false);
      var rot := RotateLeft(d.0);
      if d40 then
        var encA := Cbc.Run(c, Zeros(Block(c)), rndA, true, false).0;
        var encB := Cbc.Run(c, Zeros(Block(c)), Xor(rot, encA), true, false).0;
        Ok(Pending(encA + encB, d.0, Zeros(Block(c))))
      else
        NonceWhole(c, rndA, rot);
        var e := Cbc.Run(c, d.1, rndA + rot, true, true);
        Ok(Pending(e.0, d.0, e.1))
  }

  /** The reader's check of the last answer, in auth_legacy. */
  function LegacyFinish(s: Session, keyNo: byte, key: Key, d40: bool, rndA: Bytes, m: Pending, a: Answer): Outcome
    requires |rndA| == |m.rndB| == NonceLength(key.kind) && |m.iv| == Block(KeyCipher(s.p, key))
  {
    hide Cbc.Run, Enter, LegacyKey;
    var c := KeyCipher(s.p, key);
    if a.status != S_OK || |a.data| != |rndA| then Outcome(Err(Auth), s)
    else
      NonceWhole(c, a.data, rndA);
      if Cbc.Run(c, m.iv, a.data, false, false).0 != RotateLeft(rndA) then Outcome(Err(Auth), s)
      else
        var k := LegacyKey(key, rndA, m.rndB);
        Outcome(Ok([]), Enter(s, if d40 then D40 else EV1, key.kind, keyNo, k, k))
  }

  /** auth_begin_legacy: the enciphered RndB, and where it leaves the chain. */
  function LegacyChallenge(p: Primitives, key: Key, rndB: Bytes): (r: (Bytes, Bytes))
    requires |rndB| == NonceLength(key.kind)
    ensures |r.0| == |rndB| && |r.1| == Block(KeyCipher(p, key))
  {
    var c := KeyCipher(p, key);
    NonceWhole(c, rndB, rndB);
    Cbc.Run(c, Zeros(Block(c)), rndB, true, true)
  }

  /** The card deciphers RndA and RndB', checks RndB' and returns RndA'. On D40
      a card only ever enciphers; on EV1 one chain runs through all messages. */
  function LegacyOpen(p: Primitives, key: Key, d40: bool, chain: Bytes, rndB: Bytes, both: Bytes): Result<Opened>
    requires |rndB| == NonceLength(key.kind) && |chain| == Block(KeyCipher(p, key))
  {
    hide Cbc.Run;
    var c := KeyCipher(p, key);
    var n := |rndB|;
    if |both| != 2 * n then Err(Length)
    else
      NonceWhole(c, both[..n], both[n..]);
      NonceWhole(c, both[n..], both[..n]);
      assert both[..n] + both[n..] == both;
      var first := Zeros(Block(c));
      var d := if d40 then Cbc.Run(c, first, both[..n], false, true).0
                           + Xor(Cbc.Run(c, first, both[n..], false, true).0, both[..n])
               else Cbc.Run(c, chain, both, false, false).0;
      var iv := if d40 then first else Cbc.Run(c, chain, both, false, false).1;
      var rndA := d[..n];
      NonceWhole(c, RotateLeft(rndA), rndA);
      if d[n..] != RotateLeft(rndB) then Err(Auth)
      else Ok(Opened(Cbc.Run(c, iv, RotateLeft(rndA), true, true).0, rndA))
  }

  /** How the card ends a handshake: the RndA it recovered, its answer, and its
      session. */
  datatype Admission = Admission(heard: Result<Bytes>, answer: Answer, session: Session)

  /** A wrong nonce is an AUTHENTICATION_ERROR; otherwise the card enters a session
      with the key of both nonces (mock_secure_establish_legacy). */
  function LegacyAdmits(k: Session, keyNo: byte, key: Key, d40: bool, chain: Bytes, rndB: Bytes, both: Bytes): Admission
    requires |rndB| == NonceLength(key.kind) && |chain| == Block(KeyCipher(k.p, key))
  {
    hide LegacyOpen, LegacyKey, Enter;
    var o := LegacyOpen(k.p, key, d40, chain, rndB, both);
    if o.Err? || |o.value.rndA| != |rndB| then Admission(Err(Auth), Answer(0xAE, []), k)
    else
      var m := LegacyKey(key, o.value.rndA, rndB);
      Admission(Ok(o.value.rndA), Answer(S_OK, o.value.answer),
                Enter(k, if d40 then D40 else EV1, key.kind, keyNo, m, m))
  }

  /** Reader and honest card with the same key: the card recovers RndA and
      accepts, the reader recovers RndB and accepts, and both enter the session of
      the same key. */
  lemma LegacyAgrees(s: Session, k: Session, keyNo: byte, key: Key, d40: bool, rndA: Bytes, rndB: Bytes)
    requires |rndA| == |rndB| == NonceLength(key.kind) && s.p == k.p
    ensures var ch := LegacyChallenge(k.p, key, rndB);
            var m := LegacyReply(s.p, key, d40, Answer(S_ADDITIONAL_FRAME, ch.0), rndA);
            && m.Ok? && m.value.rndB == rndB
            && var c := LegacyAdmits(k, keyNo, key, d40, ch.1, rndB, m.value.send);
               var f := LegacyFinish(s, keyNo, key, d40, rndA, m.value, c.answer);
               var channel, enc := if d40 then D40 else EV1, LegacyKey(key, rndA, rndB);
               && c.heard == Ok(rndA) && c.session == Enter(k, channel, key.kind, keyNo, enc, enc)
               && f == Outcome(Ok([]), Enter(s, channel, key.kind, keyNo, enc, enc))
  {
    hide Cbc.Run, Enter, LegacyKey, LegacyOpen, LegacyChallenge, LegacyReply, LegacyFinish;
    LegacyAccepted(s, keyNo, key, d40, rndA, rndB);
  }

  /** From cleared buffers the two sessions are one. */
  lemma SameEntered(s: Session, k: Session, channel: Channel, kind: KeyType, keyNo: byte, enc: Bytes)
    requires s.p == k.p && s.enc == k.enc && s.mac == k.mac && s.ti == k.ti && s.ctr == k.ctr && |enc| <= 32
    ensures var t, u := Enter(s, channel, kind, keyNo, enc, enc), Enter(k, channel, kind, keyNo, enc, enc);
            && t.p == u.p && t.channel == u.channel == channel && t.authenticated && u.authenticated
            && t.keyType == u.keyType && t.keyNo == u.keyNo && t.enc == u.enc && t.mac == u.mac
            && t.ti == u.ti && t.iv == u.iv && t.ctr == u.ctr
  {
    hide Splice;
  }

  lemma LegacyAccepted(s: Session, keyNo: byte, key: Key, d40: bool, rndA: Bytes, rndB: Bytes)
    requires |rndA| == |rndB| == NonceLength(key.kind)
    ensures var ch := LegacyChallenge(s.p, key, rndB);
            var m := LegacyReply(s.p, key, d40, Answer(S_ADDITIONAL_FRAME, ch.0), rndA);
            && m.Ok? && m.value.rndB == rndB
            && var o := LegacyOpen(s.p, key, d40, ch.1, rndB, m.value.send);
               && o.Ok? && o.value.rndA == rndA
               && LegacyFinish(s, keyNo, key, d40, rndA, m.value, Answer(S_OK, o.value.answer))
                  == Outcome(Ok([]), Enter(s, if d40 then D40 else EV1, key.kind, keyNo,
                                           LegacyKey(key, rndA, rndB), LegacyKey(key, rndA, rndB)))
  {
    hide Cbc.Run, Enter, LegacyKey;
    var c := KeyCipher(s.p, key);
    var n, zero := |rndA|, Zeros(Block(c));
    var rot := RotateLeft(rndB);
    NonceWhole(c, rndB, rndA);
    NonceWhole(c, rndA, rot);
    NonceWhole(c, RotateLeft(rndA), rndA);
    Cbc.ReceiveUndoesSend(c, zero, rndB, true);
    var ch := LegacyChallenge(s.p, key, rndB);
    var m := LegacyReply(s.p, key, d40, Answer(S_ADDITIONAL_FRAME, ch.0), rndA).value;
    if d40 {
      var encA := Cbc.Run(c, zero, rndA, true, false).0;
      var encB := Cbc.Run(c, zero, Xor(rot, encA), true, false).0;
      Cbc.ReceiveUndoesSend(c, zero, rndA, false);
      Cbc.ReceiveUndoesSend(c, zero, Xor(rot, encA), false);
      XorSelf(rot, encA);
      assert m.send[..n] == encA && m.send[n..] == encB;
      Cbc.ReceiveUndoesSend(c, zero, RotateLeft(rndA), true);
      assert (rndA + rot)[..n] == rndA && (rndA + rot)[n..] == rot;
    } else {
      Cbc.ReceiveUndoesSend(c, ch.1, rndA + rot, true);
      Cbc.ReceiveUndoesSend(c, m.iv, RotateLeft(rndA), true);
      assert (rndA + rot)[..n] == rndA && (rndA + rot)[n..] == rot;
    }
  }

  //--------------------------------------------------------------------------
  // EV2, first and non-first
  //--------------------------------------------------------------------------

  /** nxpsc_session_key_ev2: CMAC over the session vector. */
  function SessionKeyEv2(p: Primitives, key: Key, a: Bytes, b: Bytes, enc: bool): (k: Bytes)
    requires |a| == |b| == 16
    ensures |k| == 16
  {
    var tag: Bytes := if enc then [0xA5, 0x5A] else [0x5A, 0xA5];
    Cmac.MacOf(AesCipher(p, key), Zeros(16),
               tag + [0x00, 0x01, 0x00, 0x80] + a[..2] + Xor(a[2..8], b[..6]) + b[6..] + a[8..], 0)
  }

  function Ev2Reply(p: Primitives, key: Key, a: Answer, rndA: Bytes): (r: Result<Pending>)
    requires |rndA| == 16
    ensures r.Ok? ==> |r.value.rndB| == 16
  {
    hide Cbc.Run;
    var n := |a.data|;
    if a.status != S_ADDITIONAL_FRAME then Err(Auth)
    else if n == 17 && a.data[0] != 0x00 then Err(Auth)
    else if n != 16 && n != 17 then Err(Length)
    else
      var c := AesCipher(p, key);
      var rndB := Cbc.Crypt(c, Zeros(16), a.data[n - 16..], false).0;
      Ok(Pending(Cbc.Crypt(c, Zeros(16), rndA + RotateLeft(rndB), true).0, rndB, Zeros(16)))
  }

  /** The session after AuthenticateEV2First or -NonFirst. */
  function Ev2Session(s: Session, keyNo: byte, key: Key, first: bool, a: Bytes, b: Bytes, ti: Bytes): Session
    requires |a| == |b| == 16 && |ti| == 4
  {
    hide SessionKeyEv2;
    var t := Enter(s, EV2, key.kind, keyNo, SessionKeyEv2(s.p, key, a, b, true), SessionKeyEv2(s.p, key, a, b, false));
    if first then t.(ti := ti, ctr := 0) else t
  }

  function Ev2Finish(s: Session, keyNo: byte, key: Key, first: bool, rndA: Bytes, m: Pending, a: Answer): Outcome
    requires |rndA| == |m.rndB| == 16
  {
    hide Cbc.Run, Ev2Session;
    if a.status != S_OK then Outcome(Err(Auth), s)
    else if |a.data| != (if first then 32 else 16) then Outcome(Err(Length), s)
    else
      var d := Cbc.Crypt(AesCipher(s.p, key), Zeros(16), a.data, false).0;
      var back := if first then [d[19]] + d[4..19] else [d[15]] + d[..15];
      if back != rndA then Outcome(Err(Auth), s)
      else Outcome(Ok([]), Ev2Session(s, keyNo, key, first, rndA, m.rndB, if first then d[..4] else s.ti))
  }

  function Ev2Challenge(p: Primitives, key: Key, rndB: Bytes): (r: Bytes)
    requires |rndB| == 16
    ensures |r| == 16
  {
    Cbc.Crypt(AesCipher(p, key), Zeros(16), rndB, true).0
  }

  /** auth_continue_ev2, with the card's check of RndB'. */
  function Ev2Open(p: Primitives, key: Key, first: bool, ti: Bytes, caps: Bytes, rndB: Bytes, both: Bytes): Result<Opened>
    requires |rndB| == 16 && |ti| == 4 && |caps| == 12
  {
    hide Cbc.Run;
    if |both| != 32 then Err(Length)
    else
      var c := AesCipher(p, key);
      var d := Cbc.Crypt(c, Zeros(16), both, false).0;
      var rndA := d[..16];
      var plain := if first then ti + RotateLeft(rndA) + caps else RotateLeft(rndA);
      if d[16..] != RotateLeft(rndB) then Err(Auth)
      else Ok(Opened(Cbc.Crypt(c, Zeros(16), plain, true).0, rndA))
  }

  lemma RotateBack(a: Bytes)
    requires |a| == 16
    ensures [RotateLeft(a)[15]] + RotateLeft(a)[..15] == a
  {}

  /** Reader and honest card with the same key both accept, and the reader ends
      in the session of the card's own parameters. */
  lemma Ev2Agrees(s: Session, keyNo: byte, key: Key, first: bool, rndA: Bytes, rndB: Bytes, ti: Bytes, caps: Bytes)
    requires |rndA| == |rndB| == 16 && |ti| == 4 && |caps| == 12
    ensures var m := Ev2Reply(s.p, key, Answer(S_ADDITIONAL_FRAME, Ev2Challenge(s.p, key, rndB)), rndA);
            && m.Ok? && m.value.rndB == rndB
            && var o := Ev2Open(s.p, key, first, ti, caps, rndB, m.value.send);
               && o.Ok? && o.value.rndA == rndA
               && Ev2Finish(s, keyNo, key, first, rndA, m.value, Answer(S_OK, o.value.answer))
                  == Outcome(Ok([]), Ev2Session(s, keyNo, key, first, rndA, rndB, if first then ti else s.ti))
  {
    hide Cbc.Run, Ev2Session;
    var c, zero := AesCipher(s.p, key), Zeros(16);
    var rot := RotateLeft(rndB);
    Cbc.ReceiveUndoesSend(c, zero, rndB, true);
    Cbc.ReceiveUndoesSend(c, zero, rndA + rot, true);
    assert (rndA + rot)[..16] == rndA && (rndA + rot)[16..] == rot;
    RotateBack(rndA);
    var back := RotateLeft(rndA);
    var plain := if first then ti + back + caps else back;
    Cbc.ReceiveUndoesSend(c, zero, plain, true);
    var ch := Ev2Challenge(s.p, key, rndB);
    assert ch[0..] == ch;
    if first {
      assert plain[..4] == ti && plain[4..19] == back[..15] && plain[19] == back[15];
    }
  }

  //--------------------------------------------------------------------------
  // LRP, first and non-first
  //--------------------------------------------------------------------------

  function SessionKeyLrp(p: Primitives, key: Key, a: Bytes, b: Bytes): (k: Bytes)
    requires |a| == |b| == 16
    ensures |k| == 16
  {
    Lrp.MacOf(Lrp.RawContext(p, key.data[..16], 0),
              [0x00, 0x01, 0x00, 0x80] + a[..2] + Xor(a[2..8], b[..6]) + b[6..] + a[8..] + [0x96, 0x69])
  }

  function LrpMac(p: Primitives, session: Bytes, data: Bytes): (mac: Bytes)
    requires |session| == 16
    ensures |mac| == 16
  {
    Lrp.MacOf(Lrp.RawContext(p, session, 0), data)
  }

  /** The identifier block, one block of counter mode from counter zero. */
  function LrpTi(p: Primitives, session: Bytes, block: Bytes, encrypt: bool): (r: (Bytes, Bytes))
    requires |session| == |block| == 16
    ensures |r.0| == 16 && |r.1| == 64
  {
    Lrp.Crypt(Lrp.RawContext(p, session, 1), Zeros(64), 8, block, encrypt)
  }

  function LrpReply(p: Primitives, key: Key, a: Answer, rndA: Bytes): (r: Result<Pending>)
    requires |rndA| == 16
    ensures r.Ok? ==> |r.value.rndB| == 16
  {
    hide LrpMac, SessionKeyLrp;
    if a.status != S_ADDITIONAL_FRAME || |a.data| != 17 || a.data[0] != 0x01 then Err(Auth)
    else
      var rndB := a.data[1..];
      Ok(Pending(rndA + LrpMac(p, SessionKeyLrp(p, key, rndA, rndB), rndA + rndB), rndB, Zeros(16)))
  }

  function LrpSession(s: Session, keyNo: byte, key: Key, first: bool, a: Bytes, b: Bytes, ti: Bytes, chain: Bytes): Session
    requires |a| == |b| == 16 && |ti| == |chain| == 4
  {
    hide SessionKeyLrp;
    var k := SessionKeyLrp(s.p, key, a, b);
    var t := Enter(s, LRP, key.kind, keyNo, k, k);
    if first then WithIv(t, chain).(ti := ti, ctr := 0) else t
  }

  /** A refused last answer leaves the IV cleared. */
  function LrpFinish(s: Session, keyNo: byte, key: Key, first: bool, rndA: Bytes, m: Pending, a: Answer): Outcome
    requires |rndA| == |m.rndB| == 16
  {
    hide LrpMac, SessionKeyLrp, LrpTi, LrpSession;
    if a.status != S_OK || |a.data| < 16 then Outcome(Err(Auth), s)
    else if first && |a.data| < 32 then Outcome(Err(Length), s.(iv := Zeros(16)))
    else
      var k := SessionKeyLrp(s.p, key, rndA, m.rndB);
      var block := if first then a.data[..16] else [];
      var got := if first then a.data[16..32] else a.data[..16];
      if LrpMac(s.p, k, m.rndB + rndA + block) != got then Outcome(Err(Auth), s.(iv := Zeros(16)))
      else if first then
        var t := LrpTi(s.p, k, block, false);
        Outcome(Ok([]), LrpSession(s, keyNo, key, first, rndA, m.rndB, t.0[..4], t.1[..4]))
      else Outcome(Ok([]), LrpSession(s, keyNo, key, first, rndA, m.rndB, s.ti, Zeros(4)))
  }

  /** The card's side: check the reader's MAC, answer with the enciphered
      identifier (first only) and a MAC over both nonces. */
  function LrpOpen(p: Primitives, key: Key, first: bool, ti: Bytes, caps: Bytes, rndB: Bytes, both: Bytes): Result<Opened>
    requires |rndB| == 16 && |ti| == 4 && |caps| == 12
  {
    hide LrpMac, SessionKeyLrp, LrpTi;
    if |both| != 32 then Err(Length)
    else
      var rndA := both[..16];
      var k := SessionKeyLrp(p, key, rndA, rndB);
      if both[16..] != LrpMac(p, k, rndA + rndB) then Err(Auth)
      else
        var block := if first then LrpTi(p, k, ti + caps, true).0 else [];
        Ok(Opened(block + LrpMac(p, k, rndB + rndA + block), rndA))
  }

  lemma TiRoundTrip(p: Primitives, session: Bytes, block: Bytes)
    requires |session| == |block| == 16
    ensures var sent := LrpTi(p, session, block, true); LrpTi(p, session, sent.0, false) == (block, sent.1)
  {
    hide Lrp.Crypt;
    Lrp.DecryptUndoesEncrypt(Lrp.RawContext(p, session, 1), Zeros(64), 8, block);
  }

  lemma LrpAgrees(s: Session, keyNo: byte, key: Key, first: bool, rndA: Bytes, rndB: Bytes, ti: Bytes, caps: Bytes)
    requires |rndA| == |rndB| == 16 && |ti| == 4 && |caps| == 12
    ensures var m := LrpReply(s.p, key, Answer(S_ADDITIONAL_FRAME, [0x01] + rndB), rndA);
            && m.Ok? && m.value.rndB == rndB
            && var o := LrpOpen(s.p, key, first, ti, caps, rndB, m.value.send);
               && o.Ok? && o.value.rndA == rndA
               && LrpFinish(s, keyNo, key, first, rndA, m.value, Answer(S_OK, o.value.answer))
                  == Outcome(Ok([]), LrpSession(s, keyNo, key, first, rndA, rndB, if first then ti else s.ti,
                                                if first then LrpTi(s.p, SessionKeyLrp(s.p, key, rndA, rndB), ti + caps, true).1[..4]
                                                else Zeros(4)))
  {
    hide LrpMac, SessionKeyLrp, LrpTi, LrpSession;
    var k := SessionKeyLrp(s.p, key, rndA, rndB);
    var mac := LrpMac(s.p, k, rndA + rndB);
    assert ([0x01] + rndB)[1..] == rndB;
    assert (rndA + mac)[..16] == rndA && (rndA + mac)[16..] == mac;
    if first {
      var sent := LrpTi(s.p, k, ti + caps, true);
      TiRoundTrip(s.p, k, ti + caps);
      var answer := sent.0 + LrpMac(s.p, k, rndB + rndA + sent.0);
      assert answer[..16] == sent.0 && answer[16..32] == answer[16..];
      assert (ti + caps)[..4] == ti;
    } else {
      var answer := [] + LrpMac(s.p, k, rndB + rndA + []);
      assert answer[..16] == answer;
    }
  }
}
