/** The authentications on the card object: auth_legacy, auth_ev2 and auth_lrp
    with their local buffers, and what they leave in the session. */
module CardAuth {
  import opened ByteStrings
  import opened Results
  import opened Ciphers
  import opened Sessions
  import opened Codecs
  import opened Framing
  import opened Handshakes
  import opened Exchanges
  import opened Cards
  import opened LrpContext
  import Cbc
  import Cmac
  import Lrp

  /** rol */
  method Rol(data: array<byte>)
    requires data.Length > 0
    modifies data
    ensures data[..] == RotateLeft(old(data[..]))
  {
    var first := data[0];
    Blit(data, 0, data[1..]);
    data[data.Length - 1] := first;
  }

  /** nxpsc_cbc_crypt_ex on a local buffer, the IV carried along. */
  method Process(c: Cipher, chain: array<byte>, data: Bytes, send: bool, encrypt: bool) returns (output: Bytes)
    requires chain.Length == 16 && data != [] && Cbc.Whole(c, data)
    modifies chain
    ensures var r := Cbc.Run(c, old(chain[..Block(c)]), data, send, encrypt);
            output == r.0 && chain[..Block(c)] == r.1
  {
    hide Cbc.Run, Splice;
    var buf := Calloc(|data|);
    Blit(buf, 0, data);
    SpliceAll(Zeros(|data|), data);
    assert buf[0..|data|] == data;
    ghost var r := Cbc.Run(c, chain[..Block(c)], data, send, encrypt);
    SpliceAll(data, r.0);
    SpliceAt(chain[..], 0, r.1);
    var ok := Cbc.CryptInto(c, chain, buf, 0, |data|, buf, 0, send, encrypt);
    output := buf[..];
  }

  method Rotated(data: Bytes) returns (r: Bytes)
    requires data != []
    ensures r == RotateLeft(data)
  {
    var a := Calloc(|data|);
    Blit(a, 0, data);
    SpliceAll(Zeros(|data|), data);
    Rol(a);
    r := a[..];
  }

  //--------------------------------------------------------------------------
  // session keys
  //--------------------------------------------------------------------------

  /** nxpsc_session_key_d40: four bytes of each nonce in turn. */
  method PutSessionKeyD40(kind: KeyType, a: Bytes, b: Bytes, output: array<byte>)
    requires |a| == |b| >= NonceLength(kind) && output.Length == 32
    modifies output
    ensures output[..] == Splice(old(output[..]), 0, SessionKeyD40(kind, a, b))
  {
    hide Splice;
    ghost var before, m := output[..], a[..4] + b[..4];
    Blit(output, 0, a[..4]);
    Blit(output, 4, b[..4]);
    SpliceExtend(before, 0, a[..4], b[..4]);
    match kind {
      case DES =>
      case TwoKeyTdea =>
        PutPair(output, 8, before, m, a[4..8], b[4..8]);
      case ThreeKeyTdea =>
        PutPair(output, 8, before, m, a[6..10], b[6..10]);
        PutPair(output, 16, before, m + a[6..10] + b[6..10], a[12..16], b[12..16]);
      case _ =>
        PutPair(output, 8, before, m, a[12..16], b[12..16]);
    }
  }

  /** Four bytes of each nonce behind what is there. */
  method PutPair(output: array<byte>, at: nat, ghost before: Bytes, ghost m: Bytes, x: Bytes, y: Bytes)
    requires |before| == output.Length && at == |m| && at + |x| + |y| <= output.Length && output[..] == Splice(before, 0, m)
    modifies output
    ensures output[..] == Splice(before, 0, m + x + y)
  {
    hide Splice;
    Blit(output, at, x);
    SpliceExtend(before, 0, m, x);
    Blit(output, at + |x|, y);
    SpliceExtend(before, 0, m + x, y);
  }

  /** The session key of auth_legacy, doubled for a two-key key that is really a
      DES key. */
  method DeriveLegacy(key: Key, a: Bytes, b: Bytes) returns (k: Bytes)
    requires |a| == |b| == NonceLength(key.kind)
    ensures k == LegacyKey(key, a, b)
  {
    hide SessionKeyD40, Splice;
    var session := Calloc(32);
    if key.kind.TwoKeyTdea? && key.data[..8] == key.data[8..16] {
      ghost var m := SessionKeyD40(DES, a, b);
      PutSessionKeyD40(DES, a, b, session);
      DesKeyLength(a, b);
      SpliceAt(Zeros(32), 0, m);
      Blit(session, 8, session[..8]);
      SpliceExtend(Zeros(32), 0, m, m);
      SpliceAt(Zeros(32), 0, m + m);
      k := session[..16];
      assert k == m + m + Zeros(0);
    } else {
      ghost var m := SessionKeyD40(key.kind, a, b);
      PutSessionKeyD40(key.kind, a, b, session);
      SpliceAt(Zeros(32), 0, m);
      k := session[..KeySize(key.kind)];
      assert session[|m|..] == Zeros(32 - |m|);
      assert k == m + Zeros(KeySize(key.kind) - |m|);
    }
  }

  lemma DesKeyLength(a: Bytes, b: Bytes)
    requires |a| == |b| >= 8
    ensures |SessionKeyD40(DES, a, b)| == 8
  {}

  /** The part both session vectors share. */
  function Mixture(a: Bytes, b: Bytes): (m: Bytes)
    requires |a| == |b| == 16
    ensures |m| == 26
  {
    a[..2] + Xor(a[2..8], b[..6]) + b[6..] + a[8..]
  }

  /** The memcpy and nxpsc_xor calls that mix the nonces, from `at` on. */
  method PutNonces(data: array<byte>, at: nat, a: Bytes, b: Bytes)
    requires |a| == |b| == 16 && at + 26 <= data.Length
    modifies data
    ensures data[..] == Splice(old(data[..]), at, Mixture(a, b))
  {
    hide Xor, Splice;
    ghost var before := data[..];
    Blit(data, at, a[..8]);
    SpliceAt(before, at, a[..8]);
    assert data[at + 2..at + 8] == a[2..8];
    XorInto(data, at + 2, b[..6]);
    Blit(data, at + 8, b[6..]);
    Blit(data, at + 18, a[8..]);
    Mixed(before, at, a, b, Xor(a[2..8], b[..6]), data[..]);
  }

  lemma Mixed(before: Bytes, at: nat, a: Bytes, b: Bytes, x: Bytes, after: Bytes)
    requires |a| == |b| == 16 && |x| == 6 && at + 26 <= |before|
    requires after == Splice(Splice(Splice(Splice(before, at, a[..8]), at + 2, x), at + 8, b[6..]), at + 18, a[8..])
    ensures after == Splice(before, at, a[..2] + x + b[6..] + a[8..])
  {
    var one := Splice(Splice(before, at, a[..8]), at + 2, x);
    assert one == Splice(before, at, a[..2] + x);
    SpliceExtend(before, at, a[..2] + x, b[6..]);
    SpliceExtend(before, at, a[..2] + x + b[6..], a[8..]);
  }

  lemma Flattened(head: Bytes, a: Bytes, b: Bytes)
    requires |a| == |b| == 16
    ensures head + Mixture(a, b) == head + a[..2] + Xor(a[2..8], b[..6]) + b[6..] + a[8..]
  {
    hide Xor;
  }

  /** The vector of nxpsc_session_key_ev2. */
  method VectorEv2(a: Bytes, b: Bytes, enc: bool) returns (sv: Bytes)
    requires |a| == |b| == 16
    ensures sv == (if enc then [0xA5, 0x5A] else [0x5A, 0xA5]) + [0x00, 0x01, 0x00, 0x80] + Mixture(a, b)
  {
    hide Mixture;
    var data := Calloc(32);
    if enc {
      data[0] := 0xA5;
      data[1] := 0x5A;
    } else {
      data[0] := 0x5A;
      data[1] := 0xA5;
    }
    data[3] := 0x01;
    data[5] := 0x80;
    ghost var head := data[..6];
    PutNonces(data, 6, a, b);
    sv := data[..];
    assert sv == head + Mixture(a, b);
  }

  /** nxpsc_session_key_ev2 */
  method DeriveEv2(p: Primitives, key: Key, a: Bytes, b: Bytes, enc: bool) returns (k: Bytes)
    requires |a| == |b| == 16
    ensures k == SessionKeyEv2(p, key, a, b, enc)
  {
    hide Cmac.MacOf, Xor, Mixture;
    var sv := VectorEv2(a, b, enc);
    Flattened((if enc then [0xA5, 0x5A] else [0x5A, 0xA5]) + [0x00, 0x01, 0x00, 0x80], a, b);
    k := Cmac.Mac(AesCipher(p, key), null, sv, 0);
  }

  /** The vector of nxpsc_session_key_lrp. */
  method VectorLrp(a: Bytes, b: Bytes) returns (sv: Bytes)
    requires |a| == |b| == 16
    ensures sv == [0x00, 0x01, 0x00, 0x80] + Mixture(a, b) + [0x96, 0x69]
  {
    hide Mixture;
    var data := Calloc(32);
    data[1] := 0x01;
    data[3] := 0x80;
    PutNonces(data, 4, a, b);
    data[30] := 0x96;
    data[31] := 0x69;
    sv := data[..];
  }

  /** nxpsc_session_key_lrp */
  method DeriveLrp(p: Primitives, key: Key, a: Bytes, b: Bytes) returns (k: Bytes)
    requires |a| == |b| == 16
    ensures k == SessionKeyLrp(p, key, a, b)
  {
    hide Lrp.MacOf, Lrp.Table, Lrp.UpdatedKeys, Xor, Mixture;
    var sv := VectorLrp(a, b);
    Flattened([0x00, 0x01, 0x00, 0x80], a, b);
    var ctx := new LrpCtx(p, key.data[..16], 0, true);
    k := ctx.Mac(sv);
  }

  //--------------------------------------------------------------------------
  // D40 and EV1
  //--------------------------------------------------------------------------

  /** auth_legacy between its two exchanges. */
  method ReplyLegacy(p: Primitives, key: Key, d40: bool, a: Answer, rndA: Bytes) returns (r: Result<Pending>)
    requires |rndA| == NonceLength(key.kind)
    ensures r == LegacyReply(p, key, d40, a, rndA)
  {
    hide Cbc.Run;
    var c := KeyCipher(p, key);
    if a.status != S_ADDITIONAL_FRAME || |a.data| != |rndA| {
      return Err(Auth);
    }
    NonceWhole(c, rndA, a.data);
    NonceWhole(c, a.data, rndA);
    var chain := Calloc(16);
    var n := Block(c);
    assert Zeros(16)[..n] == Zeros(n);
    var rndB := Process(c, chain, a.data, false, false);
    var rotB := Rotated(rndB);
    if d40 {
      Blit(chain, 0, Zeros(16));
      SpliceAll(chain[..], Zeros(16));
      var encA := Process(c, chain, rndA, true, false);
      rotB := Xor(rotB, encA);
      Blit(chain, 0, Zeros(16));
      SpliceAll(chain[..], Zeros(16));
      var encB := Process(c, chain, rotB, true, false);
      r := Ok(Pending(encA + encB, rndB, Zeros(n)));
    } else {
      NonceWhole(c, rndA, rotB);
      var both := Process(c, chain, rndA + rotB, true, true);
      r := Ok(Pending(both, rndB, chain[..n]));
    }
  }

  /** The fields a successful authentication sets. */
  method EnterInto(card: Card, channel: Channel, kind: KeyType, keyNo: byte, enc: Bytes, mac: Bytes)
    requires card.Valid() && |enc| <= 32 && |mac| <= 32
    modifies card.Repr()
    ensures card.State() == Enter(old(card.State()), channel, kind, keyNo, enc, mac) && card.log == old(card.log)
  {
    hide Splice;
    card.channel := channel;
    card.keyType := kind;
    card.keyNo := keyNo;
    Blit(card.enc, 0, enc);
    Blit(card.mac, 0, mac);
    Blit(card.iv, 0, Zeros(16));
    SpliceAll(old(card.iv[..]), Zeros(16));
    card.authenticated := true;
  }

  /** auth_legacy behind its second exchange. */
  method FinishLegacy(card: Card, keyNo: byte, key: Key, d40: bool, rndA: Bytes, m: Pending, a: Answer)
    returns (r: Result<Bytes>)
    requires card.Valid() && |rndA| == |m.rndB| == NonceLength(key.kind) && |m.iv| == Block(KeyCipher(card.p, key))
    modifies card.Repr()
    ensures card.log == old(card.log)
    ensures Outcome(r, card.State()) == LegacyFinish(old(card.State()), keyNo, key, d40, rndA, m, a)
  {
    hide Cbc.Run, Enter, LegacyKey;
    var c := KeyCipher(card.p, key);
    if a.status != S_OK || |a.data| != |rndA| {
      return Err(Auth);
    }
    NonceWhole(c, a.data, rndA);
    var chain := Calloc(16);
    Blit(chain, 0, m.iv);
    assert chain[..Block(c)] == m.iv;
    var back := Process(c, chain, a.data, false, false);
    var k := DeriveLegacy(key, rndA, m.rndB);
    var rotA := Rotated(rndA);
    if rotA != back {
      return Err(Auth);
    }
    EnterInto(card, if d40 then D40 else EV1, key.kind, keyNo, k, k);
    r := Ok([]);
  }

  //--------------------------------------------------------------------------
  // EV2
  //--------------------------------------------------------------------------

  method ReplyEv2(p: Primitives, key: Key, a: Answer, rndA: Bytes) returns (r: Result<Pending>)
    requires |rndA| == 16
    ensures r == Ev2Reply(p, key, a, rndA)
  {
    hide Cbc.Run;
    if a.status != S_ADDITIONAL_FRAME {
      return Err(Auth);
    }
    var offset := 0;
    if |a.data| == 17 {
      if a.data[0] != 0x00 {
        return Err(Auth);
      }
      offset := 1;
    } else if |a.data| != 16 {
      return Err(Length);
    }
    var c := AesCipher(p, key);
    var iv := Calloc(16);
    assert iv[..16] == Zeros(16);
    var rndB := Process(c, iv, a.data[offset..offset + 16], false, false);
    assert a.data[offset..offset + 16] == a.data[|a.data| - 16..];
    var rotB := Rotated(rndB);
    Blit(iv, 0, Zeros(16));
    SpliceAll(iv[..], Zeros(16));
    assert iv[..16] == Zeros(16);
    var both := Process(c, iv, rndA + rotB, true, true);
    r := Ok(Pending(both, rndB, Zeros(16)));
  }

  /** Session keys, counter and TI of an EV2 session. */
  method EnterEv2(card: Card, keyNo: byte, key: Key, first: bool, rndA: Bytes, rndB: Bytes, ti: Bytes)
    requires card.Valid() && |rndA| == |rndB| == 16 && |ti| == 4
    modifies card.Repr()
    ensures card.State() == Ev2Session(old(card.State()), keyNo, key, first, rndA, rndB, ti) && card.log == old(card.log)
  {
    hide SessionKeyEv2, Enter;
    var enc := DeriveEv2(card.p, key, rndA, rndB, true);
    var mac := DeriveEv2(card.p, key, rndA, rndB, false);
    EnterInto(card, EV2, key.kind, keyNo, enc, mac);
    if first {
      SetTi(card, ti);
    }
  }

  method SetTi(card: Card, ti: Bytes)
    requires card.Valid() && |ti| == 4
    modifies card`ctr, card.ti
    ensures card.State() == old(card.State()).(ti := ti, ctr := 0)
  {
    card.ctr := 0;
    Blit(card.ti, 0, ti);
    SpliceAll(old(card.ti[..]), ti);
  }

  method FinishEv2(card: Card, keyNo: byte, key: Key, first: bool, rndA: Bytes, m: Pending, a: Answer)
    returns (r: Result<Bytes>)
    requires card.Valid() && |rndA| == |m.rndB| == 16
    modifies card.Repr()
    ensures card.log == old(card.log)
    ensures Outcome(r, card.State()) == Ev2Finish(old(card.State()), keyNo, key, first, rndA, m, a)
  {
    hide Cbc.Run, Ev2Session;
    if a.status != S_OK {
      return Err(Auth);
    }
    var need := if first then 32 else 16;
    if |a.data| != need {
      return Err(Length);
    }
    var iv := Calloc(16);
    assert iv[..16] == Zeros(16);
    var data := Process(AesCipher(card.p, key), iv, a.data, false, false);
    var back := if first then [data[19]] + data[4..19] else [data[15]] + data[..15];
    if rndA != back {
      return Err(Auth);
    }
    EnterEv2(card, keyNo, key, first, rndA, m.rndB, if first then data[..4] else card.ti[..]);
    r := Ok([]);
  }

  //--------------------------------------------------------------------------
  // LRP
  //--------------------------------------------------------------------------

  method MacLrp(p: Primitives, session: Bytes, data: Bytes) returns (mac: Bytes)
    requires |session| == 16
    ensures mac == LrpMac(p, session, data)
  {
    hide Lrp.MacOf, Lrp.Table, Lrp.UpdatedKeys;
    var ctx := new LrpCtx(p, session, 0, true);
    mac := ctx.Mac(data);
  }

  method ReplyLrp(p: Primitives, key: Key, a: Answer, rndA: Bytes) returns (r: Result<Pending>)
    requires |rndA| == 16
    ensures r == LrpReply(p, key, a, rndA)
  {
    hide LrpMac, SessionKeyLrp;
    if a.status != S_ADDITIONAL_FRAME || |a.data| != 17 || a.data[0] != 0x01 {
      return Err(Auth);
    }
    var rndB := a.data[1..];
    var session := DeriveLrp(p, key, rndA, rndB);
    var mac := MacLrp(p, session, rndA + rndB);
    r := Ok(Pending(rndA + mac, rndB, Zeros(16)));
  }

  /** The identifier block deciphered, and the counter bytes it leaves. */
  method OpenTi(p: Primitives, session: Bytes, block: Bytes) returns (ti: Bytes, counter: Bytes)
    requires |session| == |block| == 16
    ensures var t := LrpTi(p, session, block, false); ti == t.0[..4] && counter == t.1[..4]
  {
    hide Lrp.Crypt, Lrp.Table, Lrp.UpdatedKeys;
    var ctx := new LrpCtx(p, session, 1, false);
    ctx.SetCounter(Zeros(16), 8);
    assert ctx.counter[..] == Zeros(64);
    var data := Calloc(16);
    var n := ctx.DecodeInto(block, data);
    assert data[..16] == data[..];
    ti := data[..4];
    counter := ctx.counter[..4];
  }

  method EnterLrp(card: Card, keyNo: byte, key: Key, first: bool, rndA: Bytes, rndB: Bytes, ti: Bytes, chain: Bytes)
    requires card.Valid() && |rndA| == |rndB| == 16 && |ti| == |chain| == 4
    modifies card.Repr()
    ensures card.State() == LrpSession(old(card.State()), keyNo, key, first, rndA, rndB, ti, chain)
    ensures card.log == old(card.log)
  {
    hide SessionKeyLrp, Enter, Splice;
    var k := DeriveLrp(card.p, key, rndA, rndB);
    EnterInto(card, LRP, key.kind, keyNo, k, k);
    if first {
      Blit(card.iv, 0, chain);
      SetTi(card, ti);
    }
  }

  method ClearIv(card: Card)
    requires card.Valid()
    modifies card.iv
    ensures card.State() == old(card.State()).(iv := Zeros(16))
  {
    Blit(card.iv, 0, Zeros(16));
    SpliceAll(old(card.iv[..]), Zeros(16));
  }

  method FinishLrp(card: Card, keyNo: byte, key: Key, first: bool, rndA: Bytes, m: Pending, a: Answer)
    returns (r: Result<Bytes>)
    requires card.Valid() && |rndA| == |m.rndB| == 16
    modifies card.Repr()
    ensures card.log == old(card.log)
    ensures Outcome(r, card.State()) == LrpFinish(old(card.State()), keyNo, key, first, rndA, m, a)
  {
    hide LrpMac, SessionKeyLrp, LrpTi, LrpSession;
    if a.status != S_OK || |a.data| < 16 {
      return Err(Auth);
    }
    var k := DeriveLrp(card.p, key, rndA, m.rndB);
    var block := if first then a.data[..16] else [];
    var mac := MacLrp(card.p, k, m.rndB + rndA + block);
    if first && |a.data| < 32 {
      ClearIv(card);
      return Err(Length);
    }
    var received := if first then a.data[16..32] else a.data[..16];
    if received != mac {
      ClearIv(card);
      return Err(Auth);
    }
    var ti, chain := card.ti[..], Zeros(4);
    if first {
      ti, chain := OpenTi(card.p, k, block);
    }
    EnterLrp(card, keyNo, key, first, rndA, m.rndB, ti, chain);
    r := Ok([]);
  }

  //--------------------------------------------------------------------------
  // over the wire
  //--------------------------------------------------------------------------

  method ReplyTo(p: Primitives, scheme: Scheme, key: Key, a: Answer, rndA: Bytes) returns (r: Result<Pending>)
    requires |rndA| == NonceOf(scheme, key.kind)
    ensures r == Reply(p, scheme, key, a, rndA)
  {
    hide LegacyReply, Ev2Reply, LrpReply;
    match scheme {
      case Legacy(d40) => r := ReplyLegacy(p, key, d40, a, rndA);
      case Ev2(_) => r := ReplyEv2(p, key, a, rndA);
      case LrpAuth(_) => r := ReplyLrp(p, key, a, rndA);
    }
  }

  method FinishWith(card: Card, keyNo: byte, scheme: Scheme, key: Key, rndA: Bytes, m: Pending, a: Answer)
    returns (r: Result<Bytes>)
    requires card.Valid() && |rndA| == |m.rndB| == NonceOf(scheme, key.kind)
    requires scheme.Legacy? ==> |m.iv| == Block(KeyCipher(card.p, key))
    modifies card.Repr()
    ensures card.log == old(card.log)
    ensures Outcome(r, card.State()) == Finish(old(card.State()), keyNo, scheme, key, rndA, m, a)
  {
    hide LegacyFinish, Ev2Finish, LrpFinish;
    match scheme {
      case Legacy(d40) => r := FinishLegacy(card, keyNo, key, d40, rndA, m, a);
      case Ev2(first) => r := FinishEv2(card, keyNo, key, first, rndA, m, a);
      case LrpAuth(first) => r := FinishLrp(card, keyNo, key, first, rndA, m, a);
    }
  }

  /** One frame of a handshake and its answer. */
  method Pass(card: Card, cmd: byte, data: Bytes) returns (r: Result<Answer>)
    requires card.Valid()
    modifies card`log
    ensures Raw(r, card.log) == SendChunks(card.link, card.cmdset, old(card.log), cmd, data, AUTH_CAP)
  {
    hide SendChunks;
    var resp := Calloc(AUTH_CAP);
    var rc, got, frames := RawExchangeInto(card.link, card.cmdset, card.log, cmd, data, resp, false);
    card.log := frames;
    r := if rc.Ok? then Ok(Answer(rc.value, resp[..got])) else Err(rc.error);
  }

  /** auth_legacy, auth_ev2 and auth_lrp from the first frame to the last. */
  method Shake(card: Card, keyNo: byte, scheme: Scheme, key: Key, rndA: Bytes) returns (r: Result<Bytes>)
    requires card.Valid() && |rndA| == NonceOf(scheme, key.kind)
    modifies card.Repr()
    ensures Step(r, card.State(), card.log)
         == Handshake(card.link, card.cmdset, old(card.log), old(card.State()), keyNo, scheme, key, rndA)
  {
    hide SendChunks, Reply, Finish;
    var open := Opening(scheme, key.kind, keyNo);
    var a := Pass(card, open.0, open.1);
    if a.Err? {
      return Err(a.error);
    }
    var m := ReplyTo(card.p, scheme, key, a.value, rndA);
    if m.Err? {
      return Err(m.error);
    }
    var b := Pass(card, MORE, m.value.send);
    if b.Err? {
      return Err(b.error);
    }
    r := FinishWith(card, keyNo, scheme, key, rndA, m.value, b.value);
  }

  /** nxpsc_authenticate, with the channel already chosen. */
  method Login(card: Card, keyNo: byte, key: Key, channel: Channel, random: Bytes) returns (r: Result<Bytes>)
    requires card.Valid() && |random| == 16
    modifies card.Repr()
    ensures Step(r, card.State(), card.log)
         == Authenticate(card.link, card.cmdset, old(card.log), old(card.State()), keyNo, key, channel, random)
  {
    hide Handshake, Reset;
    card.ResetChannel();
    match channel {
      case NoChannel => r := Err(Param);
      case D40 => r := Shake(card, keyNo, Legacy(true), key, random[..NonceLength(key.kind)]);
      case EV1 => r := Shake(card, keyNo, Legacy(false), key, random[..NonceLength(key.kind)]);
      case EV2 =>
        if !key.kind.AES128? {
          return Err(Unsupported);
        }
        r := Shake(card, keyNo, Ev2(true), key, random);
      case LRP =>
        if !key.kind.AES128? {
          return Err(Unsupported);
        }
        r := Shake(card, keyNo, LrpAuth(true), key, random);
    }
  }

  /** nxpsc_authenticate_nonfirst */
  method LoginNonFirst(card: Card, keyNo: byte, key: Key, random: Bytes) returns (r: Result<Bytes>)
    requires card.Valid() && |random| == 16
    modifies card.Repr()
    ensures Step(r, card.State(), card.log)
         == AuthenticateNonFirst(card.link, card.cmdset, old(card.log), old(card.State()), keyNo, key, random)
  {
    hide Handshake;
    if !card.authenticated {
      return Err(Auth);
    }
    if card.channel == LRP {
      r := Shake(card, keyNo, LrpAuth(false), key, random);
    } else if card.channel == EV2 {
      r := Shake(card, keyNo, Ev2(false), key, random);
    } else {
      r := Err(Unsupported);
    }
  }
}
