/** A session key of two equal halves is a DES key: a reader that holds it twice
    under the two-key type and a card that uses single DES exchange the same
    bytes, over every run of commands. */
module Degraded {
  import opened ByteStrings
  import opened Results
  import opened Ciphers
  import opened Sessions
  import opened Codecs
  import opened Crc
  import opened CrcSearch
  import opened Framing
  import opened Handshakes
  import opened Exchanges
  import Gate
  import Cbc
  import Cmac

  predicate Doubled(s: Session) {
    && s.keyType == TwoKeyTdea && s.channel != EV2 && s.channel != LRP
    && s.enc[..8] == s.enc[8..16] && s.mac[..8] == s.mac[8..16]
  }

  /** The same session under single DES. */
  function AsDes(s: Session): Session {
    s.(keyType := DES)
  }

  function DesOutcome(o: Outcome): Outcome {
    Outcome(o.result, AsDes(o.session))
  }

  lemma CiphersOf(s: Session)
    requires Doubled(s)
    ensures EncCipher(s) == RawCipher(s.p, TwoKeyTdea, s.enc[..8] + s.enc[..8])
    ensures EncCipher(AsDes(s)) == RawCipher(s.p, DES, s.enc[..8])
    ensures MacCipher(s) == RawCipher(s.p, TwoKeyTdea, s.mac[..8] + s.mac[..8])
    ensures MacCipher(AsDes(s)) == RawCipher(s.p, DES, s.mac[..8])
  {
    assert s.enc[..16] == s.enc[..8] + s.enc[8..16] && s.mac[..16] == s.mac[..8] + s.mac[8..16];
  }

  lemma SameCbc(s: Session, iv: Bytes, data: Bytes, send: bool, encrypt: bool)
    requires Doubled(s) && |iv| == 8 && |data| % 8 == 0
    ensures Block(EncCipher(s)) == Block(EncCipher(AsDes(s))) == 8
    ensures Cbc.Run(EncCipher(s), iv, data, send, encrypt) == Cbc.Run(EncCipher(AsDes(s)), iv, data, send, encrypt)
    ensures Cbc.Run(MacCipher(s), iv, data, send, encrypt) == Cbc.Run(MacCipher(AsDes(s)), iv, data, send, encrypt)
  {
    hide Cbc.Run;
    CiphersOf(s);
    Cbc.DegradedRun(s.p, s.enc[..8], iv, data, send, encrypt);
    Cbc.DegradedRun(s.p, s.mac[..8], iv, data, send, encrypt);
  }

  lemma SameBlocks(s: Session)
    requires Doubled(s)
    ensures Block(EncCipher(s)) == Block(EncCipher(AsDes(s))) == Block(MacCipher(s)) == Block(MacCipher(AsDes(s))) == 8
  {}

  lemma DesCommutes(s: Session, m: Mode, v: Bytes)
    requires |v| <= 16
    ensures WithMode(AsDes(s), m) == AsDes(WithMode(s, m))
    ensures WithIv(AsDes(s), v) == AsDes(WithIv(s, v))
    ensures Rejecting(AsDes(s)) == AsDes(Rejecting(s))
    ensures var d := AsDes(s);
            d.mode == s.mode && d.channel == s.channel && d.lastCmd == s.lastCmd && d.lastZeroLen == s.lastZeroLen
            && d.legacyCard == s.legacyCard && d.iv == s.iv
  {
    hide Splice;
  }

  //--------------------------------------------------------------------------
  // D40
  //--------------------------------------------------------------------------

  lemma SameD40Mac(s: Session, data: Bytes)
    requires Doubled(s)
    ensures D40Mac(AsDes(s), data) == D40Mac(s, data)
  {
    hide Cbc.Run;
    SameBlocks(s);
    SameCbc(s, Zeros(8), ZeroPadded(data, 8), true, true);
  }

  lemma SameD40Cipher(s: Session, data: Bytes)
    requires Doubled(s)
    ensures D40Plain(AsDes(s), data) == D40Plain(s, data)
    ensures D40Cipher(AsDes(s), D40Plain(s, data)) == D40Cipher(s, D40Plain(s, data))
  {
    hide Cbc.Run, CrcOf;
    SameBlocks(s);
    SameCbc(s, Zeros(8), D40Plain(s, data), true, false);
  }

  lemma EncipherD40AsDes(s: Session, h: nat, src: Bytes, cap: nat)
    requires Doubled(s) && h <= |src|
    ensures EncodeD40Enciphered(AsDes(s), h, src, cap) == DesOutcome(EncodeD40Enciphered(s, h, src, cap))
  {
    hide D40Plain, D40Cipher, AsDes, WithMode;
    SameD40Cipher(s, src[h..]);
    DesCommutes(s, Enc, []);
  }

  lemma EncodeD40AsDes(s: Session, cmd: byte, src: Bytes, cap: nat)
    requires Doubled(s)
    ensures EncodeD40(AsDes(s), cmd, src, cap) == DesOutcome(EncodeD40(s, cmd, src, cap))
  {
    hide D40Mac, EncodeD40Enciphered, Header, TransmitsMac, AsDes, Doubled, Sized;
    SameD40Mac(s, src[Header(cmd, |src|)..]);
    EncipherD40AsDes(s, Header(cmd, |src|), src, cap);
    DesCommutes(s, Enc, []);
  }

  lemma DecipherD40AsDes(s: Session, src: Bytes, status: byte, cap: nat)
    requires Doubled(s)
    ensures DecipherD40(AsDes(s), src, status, cap) == DecipherD40(s, src, status, cap)
  {
    hide Cbc.Run, CrcPos, Copied;
    SameBlocks(s);
    if |src| % 8 == 0 {
      SameCbc(s, Zeros(8), src, false, false);
    }
  }

  lemma DecodeD40AsDes(s: Session, src: Bytes, status: byte, cap: nat)
    requires Doubled(s)
    ensures DecodeD40(AsDes(s), src, status, cap) == DesOutcome(DecodeD40(s, src, status, cap))
  {
    hide D40Mac, DecipherD40, Copied, ReceivesMac, AsDes, Rejecting, Doubled, Sized;
    DecipherD40AsDes(s, src, status, cap);
    if |src| >= 4 {
      SameD40Mac(s, src[..|src| - 4]);
    }
    DesCommutes(s, Enc, []);
  }

  //--------------------------------------------------------------------------
  // EV1
  //--------------------------------------------------------------------------

  lemma SameEv1Mac(s: Session, data: Bytes)
    requires Doubled(s)
    ensures Ev1Mac(AsDes(s), data) == Ev1Mac(s, data)
  {
    hide Cmac.MacOf;
    CiphersOf(s);
    Cmac.DegradedMac(s.p, s.mac[..8], s.iv[..8], data, 0);
  }

  lemma SameEv1Cipher(s: Session, cmd: byte, src: Bytes, h: nat)
    requires Doubled(s) && h <= |src|
    ensures Ev1Plain(AsDes(s), cmd, src, h) == Ev1Plain(s, cmd, src, h)
    ensures Cbc.Whole(EncCipher(AsDes(s)), Ev1Plain(s, cmd, src, h))
    ensures var p := Ev1Plain(s, cmd, src, h);
            Ev1Cipher(AsDes(s), p) == (Ev1Cipher(s, p).0, AsDes(Ev1Cipher(s, p).1))
  {
    hide Cbc.Run, CrcOf, Splice;
    SameBlocks(s);
    SameCbc(s, s.iv[..8], Ev1Plain(s, cmd, src, h), true, true);
  }

  lemma EncipherEv1AsDes(s: Session, cmd: byte, h: nat, src: Bytes, cap: nat)
    requires Doubled(s) && h <= |src|
    ensures EncodeEv1Enciphered(AsDes(s), cmd, h, src, cap) == DesOutcome(EncodeEv1Enciphered(s, cmd, h, src, cap))
  {
    hide Ev1Plain, Ev1Cipher, AsDes, WithMode, EncCipher, Cbc.Whole;
    SameEv1Cipher(s, cmd, src, h);
    DesCommutes(Ev1Cipher(s, Ev1Plain(s, cmd, src, h)).1, Enc, []);
  }

  lemma ClearEv1AsDes(s: Session, cmd: byte, src: Bytes, cap: nat)
    requires Doubled(s)
    ensures EncodeEv1Clear(AsDes(s), cmd, src, cap) == DesOutcome(EncodeEv1Clear(s, cmd, src, cap))
  {
    hide Ev1Mac, TransmitsMac, MacCipher, AsDes, WithIv;
    SameEv1Mac(s, [cmd] + src);
    DesCommutes(s, Enc, Ev1Mac(s, [cmd] + src));
  }

  lemma EncodeEv1AsDes(s: Session, cmd: byte, src: Bytes, cap: nat)
    requires Doubled(s)
    ensures EncodeEv1(AsDes(s), cmd, src, cap) == DesOutcome(EncodeEv1(s, cmd, src, cap))
  {
    hide EncodeEv1Clear, EncodeEv1Enciphered, Header, AsDes;
    ClearEv1AsDes(s, cmd, src, cap);
    EncipherEv1AsDes(s, cmd, Header(cmd, |src|), src, cap);
    DesCommutes(s, Enc, []);
  }

  lemma VerifyEv1AsDes(s: Session, src: Bytes, status: byte, cap: nat)
    requires Doubled(s)
    ensures VerifyEv1(AsDes(s), src, status, cap) == DesOutcome(VerifyEv1(s, src, status, cap))
  {
    hide Ev1Mac, Copied, MacCipher, AsDes, Rejecting, WithIv;
    var mac := Ev1Mac(s, src[..Max(0, |src| - 8)] + [status]);
    SameEv1Mac(s, src[..Max(0, |src| - 8)] + [status]);
    DesCommutes(s, Enc, mac);
    DesCommutes(WithIv(s, mac), Enc, []);
  }

  lemma DecipherEv1AsDes(s: Session, src: Bytes, status: byte, cap: nat)
    requires Doubled(s)
    ensures DecipherEv1(AsDes(s), src, status, cap) == DecipherEv1(s, src, status, cap)
  {
    hide Cbc.Run, CrcPos, Copied;
    SameBlocks(s);
    if |src| % 8 == 0 {
      SameCbc(s, s.iv[..8], src, false, false);
    }
  }

  lemma DecodeEv1AsDes(s: Session, src: Bytes, status: byte, cap: nat)
    requires Doubled(s)
    ensures DecodeEv1(AsDes(s), src, status, cap) == DesOutcome(DecodeEv1(s, src, status, cap))
  {
    hide VerifyEv1, DecipherEv1, Copied, AsDes;
    VerifyEv1AsDes(s, src, status, cap);
    DecipherEv1AsDes(s, src, status, cap);
    DesCommutes(s, Enc, []);
  }

  //--------------------------------------------------------------------------
  // runs
  //--------------------------------------------------------------------------

  /** The session encode_* is called on. */
  function Noted(s: Session, cmd: byte, len: nat): Session {
    s.(lastCmd := cmd, lastZeroLen := len <= HeaderLength(cmd, len))
  }

  lemma NotedAsDes(s: Session, cmd: byte, len: nat)
    requires Doubled(s)
    ensures Noted(AsDes(s), cmd, len) == AsDes(Noted(s, cmd, len)) && Doubled(Noted(s, cmd, len))
    ensures AsDes(s).channel == s.channel
  {
    hide HeaderLength;
  }

  lemma EncodeOnChannel(s: Session, cmd: byte, src: Bytes, cap: nat)
    requires s.channel != EV2 && s.channel != LRP
    ensures var t := Noted(s, cmd, |src|);
            Encode(s, cmd, src, cap) == if s.channel == D40 then EncodeD40(t, cmd, src, cap)
                                        else if s.channel == EV1 then EncodeEv1(t, cmd, src, cap)
                                        else Outcome(if |src| > cap then Err(Length) else Ok(src), t)
  {
    hide EncodeD40, EncodeEv1, EncodeEv2, HeaderLength;
  }

  lemma EncodeAsDes(s: Session, cmd: byte, src: Bytes, cap: nat)
    requires Doubled(s)
    ensures Encode(AsDes(s), cmd, src, cap) == DesOutcome(Encode(s, cmd, src, cap))
  {
    hide Encode, EncodeD40, EncodeEv1, Noted, AsDes;
    NotedAsDes(s, cmd, |src|);
    EncodeOnChannel(s, cmd, src, cap);
    EncodeOnChannel(AsDes(s), cmd, src, cap);
    EncodeD40AsDes(Noted(s, cmd, |src|), cmd, src, cap);
    EncodeEv1AsDes(Noted(s, cmd, |src|), cmd, src, cap);
  }

  lemma DecodeAsDes(s: Session, src: Bytes, status: byte, cap: nat)
    requires Doubled(s)
    ensures Decode(AsDes(s), src, status, cap) == DesOutcome(Decode(s, src, status, cap))
  {
    hide DecodeD40, DecodeEv1, DecodeEv2, Copied;
    DecodeD40AsDes(s, src, status, cap);
    DecodeEv1AsDes(s, src, status, cap);
  }

  lemma StillDoubled(s: Session, t: Session)
    requires Doubled(s) && Gate.SameSession(t, s)
    ensures Doubled(t)
  {}

  lemma BeginAsDes(s: Session, cmd: byte, data: Bytes, tx: Mode, rx: Mode)
    requires Doubled(s)
    ensures Begin(AsDes(s), cmd, data, tx, rx) == DesOutcome(Begin(s, cmd, data, tx, rx))
    ensures Doubled(Begin(s, cmd, data, tx, rx).session)
  {
    hide Encode;
    var t := s.(mode := tx, macMismatch := false);
    EncodeAsDes(t, cmd, data, MAX_RESPONSE);
    Gate.BeginKeeps(s, cmd, data, tx, rx);
    StillDoubled(s, Begin(s, cmd, data, tx, rx).session);
  }

  /** Only EV2 and LRP count commands. */
  lemma NoCounter(s: Session, status: byte)
    requires s.channel != EV2 && s.channel != LRP
    ensures Advanced(s, status) == s
  {}

  lemma DesMode(s: Session, rx: Mode)
    requires Doubled(s)
    ensures Doubled(s.(mode := rx)) && AsDes(s).(mode := rx) == AsDes(s.(mode := rx))
    ensures AsDes(s).authenticated == s.authenticated && AsDes(s).channel == s.channel
    ensures AsDes(s).(lost := true) == AsDes(s.(lost := true))
  {}

  lemma EndAsDes(s: Session, a: Answer, rx: Mode, cap: nat)
    requires Doubled(s)
    ensures End(AsDes(s), a, rx, cap) == DesOutcome(End(s, a, rx, cap))
  {
    hide Decode, StatusEndsSession, Advanced, AsDes, Reset;
    DesMode(s, rx);
    NoCounter(s, a.status);
    NoCounter(AsDes(s), a.status);
    if StatusEndsSession(a.status) {
      ResetDoubled(s);
    } else {
      DecodeAsDes(s.(mode := rx), a.data, a.status, cap);
    }
  }

  lemma EndDoubled(s: Session, a: Answer, rx: Mode, cap: nat)
    requires Doubled(s)
    ensures Doubled(End(s, a, rx, cap).session)
  {
    hide Decode, StatusEndsSession, Advanced;
    NoCounter(s, a.status);
    if StatusEndsSession(a.status) {
      ResetDoubled(s);
    } else {
      Gate.DecodeKeeps(s.(mode := rx), a.data, a.status, cap);
      StillDoubled(s, Decode(s.(mode := rx), a.data, a.status, cap).session);
    }
  }

  lemma ResetDoubled(s: Session)
    requires Doubled(s)
    ensures Doubled(Reset(s).(lost := true))
    ensures Reset(AsDes(s)).(lost := true) == AsDes(Reset(s).(lost := true))
  {
    assert Zeros(32)[..8] == Zeros(32)[8..16];
  }

  function DesStep(r: Step): Step {
    Step(r.result, AsDes(r.session), r.log)
  }

  /** One command: the same frames go out, the same result comes back, and the
      two sessions still differ in nothing but the key type. */
  lemma ExchangeAsDes(link: Link, cs: CmdSet, log: seq<Frame>, s: Session, cmd: byte, data: Bytes,
                      tx: Mode, rx: Mode, cap: nat)
    requires NeverStalls(link, cs) && Doubled(s)
    ensures Exchange(link, cs, log, AsDes(s), cmd, data, tx, rx, cap)
            == DesStep(Exchange(link, cs, log, s, cmd, data, tx, rx, cap))
    ensures Doubled(Exchange(link, cs, log, s, cmd, data, tx, rx, cap).session)
  {
    hide Begin, End, RawExchange, AsDes, Doubled;
    BeginAsDes(s, cmd, data, tx, rx);
    var b := Begin(s, cmd, data, tx, rx);
    if b.result.Ok? {
      var r := RawExchange(link, cs, log, cmd, b.result.value, MAX_RESPONSE, true);
      if r.result.Ok? {
        EndAsDes(b.session, r.result.value, rx, cap);
        EndDoubled(b.session, r.result.value, rx, cap);
      }
    }
  }

  datatype Use = Use(cmd: byte, data: Bytes, tx: Mode, rx: Mode, cap: nat)

  /** The results of a run of commands, and the frames it sent. */
  datatype Trace = Trace(results: seq<Result<Bytes>>, log: seq<Frame>)

  ghost function Observed(link: Link, cs: CmdSet, log: seq<Frame>, s: Session, uses: seq<Use>): Trace
    requires NeverStalls(link, cs)
    decreases |uses|
  {
    hide Exchange;
    if uses == [] then Trace([], log)
    else
      var u := uses[0];
      var r := Exchange(link, cs, log, s, u.cmd, u.data, u.tx, u.rx, u.cap);
      var rest := Observed(link, cs, r.log, r.session, uses[1..]);
      Trace([r.result] + rest.results, rest.log)
  }

  /** Over every run, against every card: holding the DES session key twice
      cannot be told from holding it once. */
  lemma {:induction false} SameSessions(link: Link, cs: CmdSet, log: seq<Frame>, s: Session, uses: seq<Use>)
    requires NeverStalls(link, cs) && Doubled(s)
    ensures Observed(link, cs, log, AsDes(s), uses) == Observed(link, cs, log, s, uses)
    decreases |uses|
  {
    hide Exchange, AsDes, Doubled;
    if uses != [] {
      var u := uses[0];
      ExchangeAsDes(link, cs, log, s, u.cmd, u.data, u.tx, u.rx, u.cap);
      var r := Exchange(link, cs, log, s, u.cmd, u.data, u.tx, u.rx, u.cap);
      SameSessions(link, cs, r.log, r.session, uses[1..]);
    }
  }

  /** Authenticating with a two-key key of equal halves enters such a session. */
  lemma EqualHalvesEnterDoubled(s: Session, keyNo: byte, key: Key, d40: bool, rndA: Bytes, rndB: Bytes)
    requires EqualHalves(key) && |rndA| == |rndB| == 8
    ensures var k := LegacyKey(key, rndA, rndB); Doubled(Enter(s, if d40 then D40 else EV1, key.kind, keyNo, k, k))
    ensures LegacyKey(key, rndA, rndB)[..8] == SessionKeyD40(DES, rndA, rndB)
  {
    var k := LegacyKey(key, rndA, rndB);
    assert k[..8] == k[8..16] == SessionKeyD40(DES, rndA, rndB);
  }
}
