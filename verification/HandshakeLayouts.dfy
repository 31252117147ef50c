/** What the messages of the authentications hold, and how the session keys come out
    of the two nonces, by position. */
module HandshakeLayouts {
  import opened ByteStrings
  import opened Results
  import opened Ciphers
  import opened Sessions
  import opened Codecs
  import opened Framing
  import opened Handshakes
  import opened Exchanges
  import Cbc
  import Cmac
  import Lockstep
  import Lrp

  //--------------------------------------------------------------------------
  // session keys
  //--------------------------------------------------------------------------

  /** D40 and EV1: four bytes of each nonce in turn, from the front, and for longer
      keys from the middle and the end. */
  lemma LegacyKeyBytes(key: Key, a: Bytes, b: Bytes)
    requires |a| == |b| == NonceLength(key.kind)
    ensures var k := LegacyKey(key, a, b);
            && |k| == KeySize(key.kind) && k[..4] == a[..4] && k[4..8] == b[..4]
            && (key.kind.TwoKeyTdea? ==>
                  if key.data[..8] == key.data[8..16] then k[8..16] == k[..8] else k[8..12] == a[4..8] && k[12..16] == b[4..8])
            && (key.kind.ThreeKeyTdea? ==>
                  k[8..12] == a[6..10] && k[12..16] == b[6..10] && k[16..20] == a[12..16] && k[20..24] == b[12..16])
            && (key.kind.AES128? || key.kind.AES256? ==>
                  k[8..12] == a[12..16] && k[12..16] == b[12..16] && k[16..] == Zeros(|k| - 16))
  {}

  /** The nonces as both vectors mix them, 26 bytes. */
  ghost predicate Mixed(v: Bytes, a: Bytes, b: Bytes)
    requires |v| == 26 && |a| == |b| == 16
  {
    && v[..2] == a[..2] && (forall i | 2 <= i < 8 :: v[i] == a[i] ^ b[i - 2])
    && v[8..18] == b[6..] && v[18..] == a[8..]
  }

  lemma MixtureMixed(a: Bytes, b: Bytes)
    requires |a| == |b| == 16
    ensures Mixed(a[..2] + Xor(a[2..8], b[..6]) + b[6..] + a[8..], a, b)
  {
    var v := a[..2] + Xor(a[2..8], b[..6]) + b[6..] + a[8..];
    forall i | 2 <= i < 8 ensures v[i] == a[i] ^ b[i - 2] {
      assert v[i] == Xor(a[2..8], b[..6])[i - 2];
    }
  }

  /** With one nonce the vector determines the other. */
  lemma MixedTells(v: Bytes, a: Bytes, b: Bytes, c: Bytes, d: Bytes)
    requires |v| == 26 && |a| == |b| == |c| == |d| == 16 && Mixed(v, a, b) && Mixed(v, c, d)
    ensures a == c <==> b == d
  {
    forall i | 2 <= i < 8 ensures a[i] == c[i] <==> b[i - 2] == d[i - 2] {
      SameXor(a[i], b[i - 2], c[i], d[i - 2]);
    }
    assert a == v[..2] + a[2..8] + v[18..] && c == v[..2] + c[2..8] + v[18..];
    assert b == b[..6] + v[8..18] && d == d[..6] + v[8..18];
    if a == c {
      forall i | 0 <= i < 6 ensures b[i] == d[i] {
        assert a[i + 2] == c[i + 2];
      }
      assert b[..6] == d[..6];
    }
  }

  lemma SameXor(x: byte, y: byte, z: byte, w: byte)
    requires x ^ y == z ^ w
    ensures x == z <==> y == w
  {}

  /** EV2: the CMAC under the authentication key over a tag, the constant bytes 00 01
      00 80, and the mixed nonces. */
  lemma Ev2KeyVector(p: Primitives, key: Key, a: Bytes, b: Bytes, enc: bool) returns (v: Bytes)
    requires |a| == |b| == 16
    ensures |v| == 32 && (if enc then v[0] == 0xA5 && v[1] == 0x5A else v[0] == 0x5A && v[1] == 0xA5)
    ensures v[2..6] == [0x00, 0x01, 0x00, 0x80] && Mixed(v[6..], a, b)
    ensures SessionKeyEv2(p, key, a, b, enc) == Cmac.MacOf(RawCipher(p, AES128, key.data[..16]), Zeros(16), v, 0)
  {
    hide Cmac.MacOf, Mixed, Xor;
    var tag: Bytes := if enc then [0xA5, 0x5A] else [0x5A, 0xA5];
    var x := Xor(a[2..8], b[..6]);
    v := tag + [0x00, 0x01, 0x00, 0x80] + a[..2] + x + b[6..] + a[8..];
    assert v[6..] == a[..2] + x + b[6..] + a[8..];
    MixtureMixed(a, b);
  }

  /** The two vectors differ in the tag alone, so encryption and MAC key of a session
      are never the same, whatever the authentication key and the nonces. */
  lemma Ev2KeysDiffer(p: Primitives, key: Key, a: Bytes, b: Bytes)
    requires |a| == |b| == 16
    ensures SessionKeyEv2(p, key, a, b, true) != SessionKeyEv2(p, key, a, b, false)
  {
    hide SessionKeyEv2, Cmac.MacOf;
    var v := Ev2KeyVector(p, key, a, b, true);
    var w := Ev2KeyVector(p, key, a, b, false);
    MixedOnce(v[6..], w[6..], a, b);
    assert v[16..] == v[6..][10..] && w[16..] == w[6..][10..];
    Cmac.BlockTells(RawCipher(p, AES128, key.data[..16]), Zeros(16), [], v, w);
    assert [] + v == v && [] + w == w;
  }

  lemma MixedOnce(v: Bytes, w: Bytes, a: Bytes, b: Bytes)
    requires |v| == |w| == 26 && |a| == |b| == 16 && Mixed(v, a, b) && Mixed(w, a, b)
    ensures v == w
  {
    assert v == v[..2] + v[2..8] + v[8..18] + v[18..] && w == w[..2] + w[2..8] + w[8..18] + w[18..];
    assert v[2..8] == w[2..8];
  }

  /** LRP: one key for both, over the same mixture between 00 01 00 80 and 96 69. */
  lemma LrpKeyVector(p: Primitives, key: Key, a: Bytes, b: Bytes) returns (v: Bytes)
    requires |a| == |b| == 16
    ensures |v| == 32 && v[..4] == [0x00, 0x01, 0x00, 0x80] && Mixed(v[4..30], a, b) && v[30..] == [0x96, 0x69]
    ensures SessionKeyLrp(p, key, a, b) == Lrp.MacOf(Lrp.RawContext(p, key.data[..16], 0), v)
  {
    hide Lrp.MacOf, Mixed, Xor;
    var x := Xor(a[2..8], b[..6]);
    v := [0x00, 0x01, 0x00, 0x80] + a[..2] + x + b[6..] + a[8..] + [0x96, 0x69];
    assert v[4..30] == a[..2] + x + b[6..] + a[8..];
    MixtureMixed(a, b);
  }

  //--------------------------------------------------------------------------
  // where the keys go
  //--------------------------------------------------------------------------

  /** What an authentication leaves alone. */
  ghost predicate Elsewhere(t: Session, s: Session) {
    && t.p == s.p && t.legacyCard == s.legacyCard && t.lost == s.lost && t.mode == s.mode
    && t.lastCmd == s.lastCmd && t.lastZeroLen == s.lastZeroLen && t.macMismatch == s.macMismatch
  }

  lemma LegacyEntered(s: Session, channel: Channel, keyNo: byte, key: Key, a: Bytes, b: Bytes)
    requires |a| == |b| == NonceLength(key.kind)
    ensures var k := LegacyKey(key, a, b);
            var t := Enter(s, channel, key.kind, keyNo, k, k);
            && t.channel == channel && t.authenticated && t.keyType == key.kind && t.keyNo == keyNo && t.iv == Zeros(16)
            && t.enc[..|k|] == k && t.mac[..|k|] == k && t.ti == s.ti && t.ctr == s.ctr && Elsewhere(t, s)
  {
    hide LegacyKey;
    var k := LegacyKey(key, a, b);
    SpliceAt(s.enc, 0, k);
    SpliceAt(s.mac, 0, k);
  }

  /** EV2: a first authentication sets TI and starts the counter, another keeps both. */
  lemma Ev2Entered(s: Session, keyNo: byte, key: Key, first: bool, a: Bytes, b: Bytes, ti: Bytes)
    requires |a| == |b| == 16 && |ti| == 4
    ensures var t := Ev2Session(s, keyNo, key, first, a, b, ti);
            && t.channel == EV2 && t.authenticated && t.keyType == key.kind && t.keyNo == keyNo && t.iv == Zeros(16)
            && t.enc[..16] == SessionKeyEv2(s.p, key, a, b, true) && t.mac[..16] == SessionKeyEv2(s.p, key, a, b, false)
            && t.ti == (if first then ti else s.ti) && t.ctr == (if first then 0 else s.ctr) && Elsewhere(t, s)
  {
    hide SessionKeyEv2;
    SpliceAt(s.enc, 0, SessionKeyEv2(s.p, key, a, b, true));
    SpliceAt(s.mac, 0, SessionKeyEv2(s.p, key, a, b, false));
  }

  /** LRP: the same, and the four counter bytes behind the identifier block stay. */
  lemma LrpEntered(s: Session, keyNo: byte, key: Key, first: bool, a: Bytes, b: Bytes, ti: Bytes, chain: Bytes)
    requires |a| == |b| == 16 && |ti| == |chain| == 4
    ensures var t, k := LrpSession(s, keyNo, key, first, a, b, ti, chain), SessionKeyLrp(s.p, key, a, b);
            && t.channel == LRP && t.authenticated && t.keyType == key.kind && t.keyNo == keyNo
            && t.iv == (if first then chain + Zeros(12) else Zeros(16)) && t.enc[..16] == k && t.mac[..16] == k
            && t.ti == (if first then ti else s.ti) && t.ctr == (if first then 0 else s.ctr) && Elsewhere(t, s)
  {
    hide SessionKeyLrp;
    SpliceAt(s.enc, 0, SessionKeyLrp(s.p, key, a, b));
    SpliceAt(s.mac, 0, SessionKeyLrp(s.p, key, a, b));
  }

  //--------------------------------------------------------------------------
  // D40 and EV1
  //--------------------------------------------------------------------------

  /** RndB is the challenge deciphered from zero. On EV1 the answer is, on the chain
      that the challenge has moved to its last block, RndA and RndB turned by one byte;
      on D40 the two are deciphered, each from zero, the second one combined with the
      first as sent. */
  lemma LegacyReplyHolds(p: Primitives, key: Key, d40: bool, a: Answer, rndA: Bytes)
    requires |rndA| == NonceLength(key.kind)
    ensures var r, c, n := LegacyReply(p, key, d40, a, rndA), KeyCipher(p, key), |rndA|;
            if a.status != 0xAF || |a.data| != n then r == Err(Auth)
            else
              && Cbc.Whole(c, a.data) && Block(c) <= n && r.Ok? && |r.value.send| == 2 * n
              && r.value.rndB == Cbc.Run(c, Zeros(Block(c)), a.data, false, false).0
              && var send, rot := r.value.send, RotateLeft(r.value.rndB);
                 if d40 then
                   && Cbc.Whole(c, send[..n]) && Cbc.Whole(c, send[n..])
                   && Cbc.Run(c, Zeros(Block(c)), send[..n], false, true).0 == rndA
                   && Cbc.Run(c, Zeros(Block(c)), send[n..], false, true).0 == Xor(rot, send[..n])
                 else
                   Cbc.Whole(c, send) && Cbc.Run(c, a.data[n - Block(c)..], send, false, false).0 == rndA + rot
    ensures var r, c := LegacyReply(p, key, d40, a, rndA), KeyCipher(p, key);
            r.Ok? ==>
              && Block(c) <= |r.value.send|
              && r.value.iv == if d40 then Zeros(Block(c)) else r.value.send[|r.value.send| - Block(c)..]
  {
    hide Cbc.Run;
    var c, n, zero := KeyCipher(p, key), |rndA|, Zeros(Block(KeyCipher(p, key)));
    if a.status == 0xAF && |a.data| == n {
      NonceWhole(c, a.data, rndA);
      NonceWhole(c, rndA, a.data);
      ChainAfter(c, zero, a.data);
      var rot := RotateLeft(LegacyReply(p, key, d40, a, rndA).value.rndB);
      NonceWhole(c, rndA, rot);
      NonceWhole(c, rot, rndA);
      if d40 {
        var encA := Cbc.Run(c, zero, rndA, true, false).0;
        var encB := Cbc.Run(c, zero, Xor(rot, encA), true, false).0;
        Cbc.ReceiveUndoesSend(c, zero, rndA, false);
        Cbc.ReceiveUndoesSend(c, zero, Xor(rot, encA), false);
        assert (encA + encB)[..n] == encA && (encA + encB)[n..] == encB;
      } else {
        Cbc.ReceiveUndoesSend(c, a.data[n - Block(c)..], rndA + rot, true);
        Cbc.FinalIv(c, a.data[n - Block(c)..], rndA + rot, true);
      }
    }
  }

  /** Receiving leaves the last block received as the chaining value. */
  lemma {:induction false} ChainAfter(c: Cipher, iv: Bytes, data: Bytes)
    requires |iv| == Block(c) && Cbc.Whole(c, data) && data != []
    ensures |data| >= Block(c)
    ensures Cbc.Run(c, iv, data, false, false).1 == data[|data| - Block(c)..]
    decreases |data|
  {
    var n := Block(c);
    if |data| > n {
      ChainAfter(c, data[..n], data[n..]);
      assert data[n..][|data| - n - n..] == data[|data| - n..];
    } else {
      assert data[..n] == data && data[n..] == [];
    }
  }
  /** Of all answers exactly one is accepted: RndA turned by one byte, enciphered from
      where the chain stands. Then both keys are the session key of the two nonces. */
  lemma LegacyOneAnswer(s: Session, keyNo: byte, key: Key, d40: bool, rndA: Bytes, m: Pending, a: Answer)
    requires |rndA| == |m.rndB| == NonceLength(key.kind) && |m.iv| == Block(KeyCipher(s.p, key))
    ensures Cbc.Whole(KeyCipher(s.p, key), RotateLeft(rndA))
    ensures var k := LegacyKey(key, rndA, m.rndB);
            LegacyFinish(s, keyNo, key, d40, rndA, m, a)
            == if a == Answer(0x00, Cbc.Run(KeyCipher(s.p, key), m.iv, RotateLeft(rndA), true, true).0)
               then Outcome(Ok([]), Enter(s, if d40 then D40 else EV1, key.kind, keyNo, k, k))
               else Outcome(Err(Auth), s)
  {
    hide Cbc.Run, Enter, LegacyKey;
    var c := KeyCipher(s.p, key);
    NonceWhole(c, RotateLeft(rndA), rndA);
    Cbc.ReceiveUndoesSend(c, m.iv, RotateLeft(rndA), true);
    if |a.data| == |rndA| {
      NonceWhole(c, a.data, rndA);
      Cbc.SendUndoesReceive(c, m.iv, a.data, false);
    }
  }

  /** The card accepts exactly if what it deciphers ends in the RndB it sent, turned by
      one byte, and answers with what is in front of it, turned likewise. */
  lemma LegacyCardHolds(p: Primitives, key: Key, d40: bool, chain: Bytes, rndB: Bytes, both: Bytes)
    requires |rndB| == NonceLength(key.kind) && |chain| == Block(KeyCipher(p, key)) && |both| == 2 * |rndB|
    ensures var o, c, n := LegacyOpen(p, key, d40, chain, rndB, both), KeyCipher(p, key), |rndB|;
            && Cbc.Whole(c, both) && Cbc.Whole(c, both[..n]) && Cbc.Whole(c, both[n..]) && Block(c) <= n
            && var d := if d40 then Cbc.Run(c, Zeros(Block(c)), both[..n], false, true).0
                                    + Xor(Cbc.Run(c, Zeros(Block(c)), both[n..], false, true).0, both[..n])
                        else Cbc.Run(c, chain, both, false, false).0;
               if d[n..] != RotateLeft(rndB) then o == Err(Auth)
               else
                 && o.Ok? && o.value.rndA == d[..n] && Cbc.Whole(c, o.value.answer)
                 && Cbc.Run(c, if d40 then Zeros(Block(c)) else both[n..][n - Block(c)..], o.value.answer, false, false).0
                    == RotateLeft(d[..n])
    ensures var c, ch := KeyCipher(p, key), LegacyChallenge(p, key, rndB);
            Cbc.Whole(c, ch.0) && Cbc.Run(c, Zeros(Block(c)), ch.0, false, false) == (rndB, ch.1)
  {
    hide Cbc.Run;
    var c, n := KeyCipher(p, key), |rndB|;
    NonceWhole(c, both[..n], both[n..]);
    NonceWhole(c, both[n..], both[..n]);
    NonceWhole(c, rndB, rndB);
    assert both[..n] + both[n..] == both && both[n..][n - Block(c)..] == both[2 * n - Block(c)..];
    ChainAfter(c, chain, both);
    Cbc.ReceiveUndoesSend(c, Zeros(Block(c)), rndB, true);
    var o := LegacyOpen(p, key, d40, chain, rndB, both);
    if o.Ok? {
      var rot := RotateLeft(o.value.rndA);
      NonceWhole(c, rot, rot);
      Cbc.ReceiveUndoesSend(c, if d40 then Zeros(Block(c)) else both[2 * n - Block(c)..], rot, true);
    }
  }

  //--------------------------------------------------------------------------
  // EV2
  //--------------------------------------------------------------------------

  /** A challenge is one block, or a zero byte and one block; both messages are
      enciphered from zero. */
  lemma Ev2ReplyHolds(p: Primitives, key: Key, a: Answer, rndA: Bytes)
    requires |rndA| == 16
    ensures var r, c, n := Ev2Reply(p, key, a, rndA), RawCipher(p, AES128, key.data[..16]), |a.data|;
            if a.status != 0xAF || (n == 17 && a.data[0] != 0x00) then r == Err(Auth)
            else if n != 16 && n != 17 then r == Err(Length)
            else
              && r.Ok? && |r.value.send| == 32
              && r.value.rndB == Cbc.Run(c, Zeros(16), a.data[n - 16..], false, false).0
              && Cbc.Run(c, Zeros(16), r.value.send, false, false).0 == rndA + RotateLeft(r.value.rndB)
  {
    hide Cbc.Run;
    var r := Ev2Reply(p, key, a, rndA);
    if r.Ok? {
      Cbc.ReceiveUndoesSend(AesCipher(p, key), Zeros(16), rndA + RotateLeft(r.value.rndB), true);
    }
  }

  /** A first answer holds TI in front of RndA, turned by one byte; another one is
      nothing but that, and exactly one is accepted. */
  lemma Ev2FinishHolds(s: Session, keyNo: byte, key: Key, first: bool, rndA: Bytes, m: Pending, a: Answer)
    requires |rndA| == |m.rndB| == 16
    ensures var f, c, n := Ev2Finish(s, keyNo, key, first, rndA, m, a), RawCipher(s.p, AES128, key.data[..16]), |a.data|;
            if a.status != 0x00 then f == Outcome(Err(Auth), s)
            else if n != (if first then 32 else 16) then f == Outcome(Err(Length), s)
            else
              var d := Cbc.Run(c, Zeros(16), a.data, false, false).0;
              f == if (if first then d[4..20] else d) != RotateLeft(rndA) then Outcome(Err(Auth), s)
                   else Outcome(Ok([]), Ev2Session(s, keyNo, key, first, rndA, m.rndB, if first then d[..4] else s.ti))
    ensures !first ==> (Ev2Finish(s, keyNo, key, first, rndA, m, a).result.Ok?
                        <==> a == Answer(0x00, Ev2Challenge(s.p, key, RotateLeft(rndA))))
  {
    hide Cbc.Run, Ev2Session;
    var c := AesCipher(s.p, key);
    Cbc.ReceiveUndoesSend(c, Zeros(16), RotateLeft(rndA), true);
    if a.status == 0x00 && |a.data| == if first then 32 else 16 {
      var d := Cbc.Crypt(c, Zeros(16), a.data, false).0;
      TurnedBack(if first then d[4..20] else d, rndA);
      if first {
        assert [d[19]] + d[4..19] == [d[4..20][15]] + d[4..20][..15];
      } else {
        Cbc.SendUndoesReceive(c, Zeros(16), a.data, false);
      }
    }
  }

  lemma TurnedBack(x: Bytes, a: Bytes)
    requires |x| == |a| == 16
    ensures [x[15]] + x[..15] == a <==> x == RotateLeft(a)
  {
    if [x[15]] + x[..15] == a {
      assert x == a[1..] + [a[0]];
    } else if x == RotateLeft(a) {
      RotateBack(a);
    }
  }

  /** What the card sends: the challenge is RndB enciphered from zero, the answer TI,
      RndA turned by one byte and the capability bytes, or RndA alone. */
  lemma Ev2CardHolds(p: Primitives, key: Key, first: bool, ti: Bytes, caps: Bytes, rndB: Bytes, both: Bytes)
    requires |rndB| == 16 && |ti| == 4 && |caps| == 12
    ensures Cbc.Run(RawCipher(p, AES128, key.data[..16]), Zeros(16), Ev2Challenge(p, key, rndB), false, false).0 == rndB
    ensures var o, c := Ev2Open(p, key, first, ti, caps, rndB, both), RawCipher(p, AES128, key.data[..16]);
            if |both| != 32 then o == Err(Length)
            else
              var d := Cbc.Run(c, Zeros(16), both, false, false).0;
              if d[16..] != RotateLeft(rndB) then o == Err(Auth)
              else
                && o.Ok? && o.value.rndA == d[..16] && |o.value.answer| == (if first then 32 else 16)
                && var e := Cbc.Run(c, Zeros(16), o.value.answer, false, false).0;
                   if first then e[..4] == ti && e[4..20] == RotateLeft(d[..16]) && e[20..] == caps else e == RotateLeft(d[..16])
  {
    hide Cbc.Run;
    var c := AesCipher(p, key);
    Cbc.ReceiveUndoesSend(c, Zeros(16), rndB, true);
    if |both| == 32 {
      var rot := RotateLeft(Cbc.Crypt(c, Zeros(16), both, false).0[..16]);
      Cbc.ReceiveUndoesSend(c, Zeros(16), ti + rot + caps, true);
      Cbc.ReceiveUndoesSend(c, Zeros(16), rot, true);
    }
  }

  //--------------------------------------------------------------------------
  // LRP
  //--------------------------------------------------------------------------

  /** The challenge is RndB behind 0x01. The answer is RndA and the MAC over both
      nonces under the new session key. */
  lemma LrpReplyHolds(p: Primitives, key: Key, a: Answer, rndA: Bytes)
    requires |rndA| == 16
    ensures var r := LrpReply(p, key, a, rndA);
            if a.status != 0xAF || |a.data| != 17 || a.data[0] != 0x01 then r == Err(Auth)
            else
              var k := SessionKeyLrp(p, key, rndA, a.data[1..]);
              && r.Ok? && r.value.rndB == a.data[1..] && |r.value.send| == 32 && r.value.send[..16] == rndA
              && r.value.send[16..] == Lrp.MacOf(Lrp.RawContext(p, k, 0), rndA + a.data[1..])
  {
    hide Lrp.MacOf, SessionKeyLrp;
  }

  /** The last answer: the identifier block, in a first authentication, and the MAC
      over RndB, RndA and that block. TI and the counter behind it come from deciphering
      the block at counter zero. */
  lemma LrpFinishHolds(s: Session, keyNo: byte, key: Key, first: bool, rndA: Bytes, m: Pending, a: Answer)
    requires |rndA| == |m.rndB| == 16
    ensures var f, k := LrpFinish(s, keyNo, key, first, rndA, m, a), SessionKeyLrp(s.p, key, rndA, m.rndB);
            var cleared := s.(iv := Zeros(16));
            if a.status != 0x00 || |a.data| < 16 then f == Outcome(Err(Auth), s)
            else if first && |a.data| < 32 then f == Outcome(Err(Length), cleared)
            else if first then
              var block := a.data[..16];
              if a.data[16..32] != Lrp.MacOf(Lrp.RawContext(s.p, k, 0), m.rndB + rndA + block) then f == Outcome(Err(Auth), cleared)
              else
                var t := Lrp.Crypt(Lrp.RawContext(s.p, k, 1), Zeros(64), 8, block, false);
                f == Outcome(Ok([]), LrpSession(s, keyNo, key, true, rndA, m.rndB, t.0[..4], t.1[..4]))
            else if a.data[..16] != Lrp.MacOf(Lrp.RawContext(s.p, k, 0), m.rndB + rndA) then f == Outcome(Err(Auth), cleared)
            else f == Outcome(Ok([]), LrpSession(s, keyNo, key, false, rndA, m.rndB, s.ti, Zeros(4)))
  {
    hide Lrp.MacOf, Lrp.Crypt, SessionKeyLrp, LrpSession;
    assert m.rndB + rndA + [] == m.rndB + rndA;
  }

  /** The card accepts exactly if the MAC over both nonces is right. */
  lemma LrpCardHolds(p: Primitives, key: Key, first: bool, ti: Bytes, caps: Bytes, rndB: Bytes, both: Bytes)
    requires |rndB| == 16 && |ti| == 4 && |caps| == 12 && |both| == 32
    ensures var o, k := LrpOpen(p, key, first, ti, caps, rndB, both), SessionKeyLrp(p, key, both[..16], rndB);
            if both[16..] != Lrp.MacOf(Lrp.RawContext(p, k, 0), both[..16] + rndB) then o == Err(Auth)
            else
              && o.Ok? && o.value.rndA == both[..16]
              && var block := if first then Lrp.Crypt(Lrp.RawContext(p, k, 1), Zeros(64), 8, ti + caps, true).0 else [];
                 o.value.answer == block + Lrp.MacOf(Lrp.RawContext(p, k, 0), rndB + both[..16] + block)
  {
    hide Lrp.MacOf, Lrp.Crypt, SessionKeyLrp;
  }

  //--------------------------------------------------------------------------
  // the first frame
  //--------------------------------------------------------------------------

  /** Command byte and data, by scheme and key type; and the key as the handshakes use
      it. */
  lemma OpeningFrame(p: Primitives, key: Key, kind: KeyType, keyNo: byte)
    ensures KeyCipher(p, key) == RawCipher(p, key.kind, key.data[..KeySize(key.kind)])
    ensures Opening(Legacy(true), kind, keyNo) == (0x0A, [keyNo])
    ensures Opening(Legacy(false), kind, keyNo) == (if kind.AES128? || kind.AES256? then 0xAA else 0x1A, [keyNo])
    ensures Opening(Ev2(true), kind, keyNo) == (0x71, [keyNo, 0x00]) && Opening(LrpAuth(true), kind, keyNo) == (0x71, [keyNo, 0x01, 0x02])
    ensures Opening(Ev2(false), kind, keyNo) == Opening(LrpAuth(false), kind, keyNo) == (0x77, [keyNo])
    ensures NonceLength(kind) == if kind.DES? || kind.TwoKeyTdea? then 8 else 16
  {}
  /** Whoever sends the wrong nonce or MAC gets an AUTHENTICATION_ERROR, and the card is
      left without a session. */
  lemma ImpostorDropped(k: Session, first: bool, keyNo: byte, key: Key, rndB: Bytes, ti: Bytes, caps: Bytes, both: Bytes)
    requires |rndB| == 16 && |ti| == 4 && |caps| == 12 && |both| == 32
    ensures Cbc.Run(RawCipher(k.p, AES128, key.data[..16]), Zeros(16), both, false, false).0[16..] != RotateLeft(rndB) ==>
              Lockstep.Admits(k, Ev2(first), keyNo, key, rndB, ti, caps, both)
              == Lockstep.CardStep(Err(Auth), Answer(0xAE, []), Reset(k))
    ensures both[16..] != Lrp.MacOf(Lrp.RawContext(k.p, SessionKeyLrp(k.p, key, both[..16], rndB), 0), both[..16] + rndB) ==>
              Lockstep.Admits(k, LrpAuth(first), keyNo, key, rndB, ti, caps, both)
              == Lockstep.CardStep(Err(Auth), Answer(0xAE, []), Reset(k))
  {
    hide Ev2Open, LrpOpen, Ev2Session, LrpSession, LrpTi, SessionKeyLrp, Cbc.Run, Lrp.MacOf, Lrp.Crypt, Reset;
    Ev2CardHolds(k.p, key, first, ti, caps, rndB, both);
    LrpCardHolds(k.p, key, first, ti, caps, rndB, both);
  }

  function ChannelOf(scheme: Scheme): Channel {
    match scheme
    case Legacy(d40) => if d40 then D40 else EV1
    case Ev2(_) => EV2
    case LrpAuth(_) => LRP
  }

  /** A success enters the channel of the scheme, with this key number. */
  lemma FinishEnters(s: Session, keyNo: byte, scheme: Scheme, key: Key, rndA: Bytes, m: Pending, a: Answer)
    requires |rndA| == |m.rndB| == NonceOf(scheme, key.kind)
    requires scheme.Legacy? ==> |m.iv| == Block(KeyCipher(s.p, key))
    requires Finish(s, keyNo, scheme, key, rndA, m, a).result.Ok?
    ensures var t := Finish(s, keyNo, scheme, key, rndA, m, a).session;
            t.authenticated && t.channel == ChannelOf(scheme) && t.keyNo == keyNo
  {
    hide LegacyFinish, Ev2Finish, LrpFinish, Enter, LegacyKey, Cbc.Run, Splice;
    match scheme
    case Legacy(d40) =>
      LegacyOneAnswer(s, keyNo, key, d40, rndA, m, a);
      LegacyEntered(s, ChannelOf(scheme), keyNo, key, rndA, m.rndB);
    case Ev2(first) => Ev2Enters(s, keyNo, key, first, rndA, m, a);
    case LrpAuth(first) => LrpEnters(s, keyNo, key, first, rndA, m, a);
  }

  lemma Ev2Enters(s: Session, keyNo: byte, key: Key, first: bool, rndA: Bytes, m: Pending, a: Answer)
    requires |rndA| == |m.rndB| == 16 && Ev2Finish(s, keyNo, key, first, rndA, m, a).result.Ok?
    ensures var t := Ev2Finish(s, keyNo, key, first, rndA, m, a).session; t.authenticated && t.channel == EV2 && t.keyNo == keyNo
  {
    hide Ev2Finish, Ev2Session, Cbc.Run, SessionKeyEv2, Elsewhere;
    Ev2FinishHolds(s, keyNo, key, first, rndA, m, a);
    var d := Cbc.Run(AesCipher(s.p, key), Zeros(16), a.data, false, false).0;
    Ev2Entered(s, keyNo, key, first, rndA, m.rndB, if first then d[..4] else s.ti);
  }

  lemma LrpEnters(s: Session, keyNo: byte, key: Key, first: bool, rndA: Bytes, m: Pending, a: Answer)
    requires |rndA| == |m.rndB| == 16 && LrpFinish(s, keyNo, key, first, rndA, m, a).result.Ok?
    ensures var t := LrpFinish(s, keyNo, key, first, rndA, m, a).session; t.authenticated && t.channel == LRP && t.keyNo == keyNo
  {
    hide LrpFinish, LrpSession, Lrp.Crypt, Lrp.MacOf, SessionKeyLrp, Elsewhere;
    LrpFinishHolds(s, keyNo, key, first, rndA, m, a);
    if first {
      var t := Lrp.Crypt(Lrp.RawContext(s.p, SessionKeyLrp(s.p, key, rndA, m.rndB), 1), Zeros(64), 8, a.data[..16], false);
      LrpEntered(s, keyNo, key, true, rndA, m.rndB, t.0[..4], t.1[..4]);
    } else {
      LrpEntered(s, keyNo, key, false, rndA, m.rndB, s.ti, Zeros(4));
    }
  }

  /** A handshake sends its opening frame first, and a success enters the channel. */
  lemma HandshakeGoesOut(link: Link, cs: CmdSet, log: seq<Frame>, s: Session, keyNo: byte, scheme: Scheme, key: Key, rndA: Bytes)
    requires |rndA| == NonceOf(scheme, key.kind)
    ensures var st, open := Handshake(link, cs, log, s, keyNo, scheme, key, rndA), Opening(scheme, key.kind, keyNo);
            && log + [Wrap(cs, open.0, open.1)] <= st.log
            && (st.result.Ok? ==> st.session.authenticated && st.session.channel == ChannelOf(scheme) && st.session.keyNo == keyNo)
  {
    hide Wrap, Reply, Finish, SendChunks, Chunks, RequestFrames, Opening, AnswerTo, ChannelOf;
    var open := Opening(scheme, key.kind, keyNo);
    ShortOpening(scheme, key.kind, keyNo);
    OpeningOnly(link, cs, log, open.0, open.1);
    var r1 := SendChunks(link, cs, log, open.0, open.1, AUTH_CAP);
    if r1.result.Ok? {
      var m := Reply(s.p, scheme, key, r1.result.value, rndA);
      if m.Ok? {
        ChunksGoOut(link, cs, r1.log, MORE, m.value.send, AUTH_CAP);
        var r2 := SendChunks(link, cs, r1.log, MORE, m.value.send, AUTH_CAP);
        if r2.result.Ok? && Finish(s, keyNo, scheme, key, rndA, m.value, r2.result.value).result.Ok? {
          FinishEnters(s, keyNo, scheme, key, rndA, m.value, r2.result.value);
        }
      }
    }
  }

  lemma ShortOpening(scheme: Scheme, kind: KeyType, keyNo: byte)
    ensures |Opening(scheme, kind, keyNo).1| <= 3
  {}

  lemma OpeningOnly(link: Link, cs: CmdSet, log: seq<Frame>, cmd: byte, data: Bytes)
    requires |data| <= TX_FRAME_MAX
    ensures SendChunks(link, cs, log, cmd, data, AUTH_CAP).log == log + [Wrap(cs, cmd, data)]
  {
    hide Wrap, Parse;
    assert data[..|data|] == data;
  }

  /** nxpsc_authenticate forgets the session, whatever becomes of the new one. What it
      does not refuse opens with the frame of the channel and, when it succeeds, leaves a
      session on that channel, with that key number. */
  lemma LoginGoesOut(link: Link, cs: CmdSet, log: seq<Frame>, s: Session, keyNo: byte, key: Key, channel: Channel, random: Bytes)
    requires |random| == 16
    ensures var st, aes := Authenticate(link, cs, log, s, keyNo, key, channel, random), key.kind.AES128? || key.kind.AES256?;
            if channel.NoChannel? then st == Step(Err(Param), Reset(s), log)
            else if (channel.EV2? || channel.LRP?) && !key.kind.AES128? then st == Step(Err(Unsupported), Reset(s), log)
            else
              && (match channel
                  case D40 => log + [Wrap(cs, 0x0A, [keyNo])] <= st.log
                  case EV1 => log + [Wrap(cs, if aes then 0xAA else 0x1A, [keyNo])] <= st.log
                  case EV2 => log + [Wrap(cs, 0x71, [keyNo, 0x00])] <= st.log
                  case _ => log + [Wrap(cs, 0x71, [keyNo, 0x01, 0x02])] <= st.log)
              && (st.result.Ok? ==> st.session.authenticated && st.session.channel == channel && st.session.keyNo == keyNo)
  {
    hide Handshake, Wrap, Reset;
    OpeningFrame(s.p, key, key.kind, keyNo);
    var n := NonceLength(key.kind);
    match channel
    case NoChannel =>
    case D40 => HandshakeGoesOut(link, cs, log, Reset(s), keyNo, Legacy(true), key, random[..n]);
    case EV1 => HandshakeGoesOut(link, cs, log, Reset(s), keyNo, Legacy(false), key, random[..n]);
    case EV2 => HandshakeGoesOut(link, cs, log, Reset(s), keyNo, Ev2(true), key, random);
    case LRP => HandshakeGoesOut(link, cs, log, Reset(s), keyNo, LrpAuth(true), key, random);
  }

  /** nxpsc_authenticate_nonfirst: inside an EV2 or LRP session alone, which it stays in. */
  lemma NonFirstGoesOut(link: Link, cs: CmdSet, log: seq<Frame>, s: Session, keyNo: byte, key: Key, random: Bytes)
    requires |random| == 16
    ensures var st := AuthenticateNonFirst(link, cs, log, s, keyNo, key, random);
            if !s.authenticated then st == Step(Err(Auth), s, log)
            else if !s.channel.EV2? && !s.channel.LRP? then st == Step(Err(Unsupported), s, log)
            else
              && log + [Wrap(cs, 0x77, [keyNo])] <= st.log
              && (st.result.Ok? ==> st.session.authenticated && st.session.channel == s.channel && st.session.keyNo == keyNo)
  {
    hide Handshake, Wrap;
    OpeningFrame(s.p, key, key.kind, keyNo);
    HandshakeGoesOut(link, cs, log, s, keyNo, Ev2(false), key, random);
    HandshakeGoesOut(link, cs, log, s, keyNo, LrpAuth(false), key, random);
  }
}
