/** The session gate: over every run of calls, against any card, a session that
    the card threw away never carries a protected command, and never has one
    sent in the clear instead. */
module Gate {
  import opened ByteStrings
  import opened Results
  import opened Ciphers
  import opened Sessions
  import opened Codecs
  import opened Framing
  import opened Handshakes
  import opened Exchanges
  import opened CrcSearch
  import Cbc
  import Cmac
  import Lrp

  /** Equal but for IV, mode, and what encode and decode leave behind. */
  ghost predicate SameSession(a: Session, b: Session) {
    && a.p == b.p && a.legacyCard == b.legacyCard && a.channel == b.channel
    && a.authenticated == b.authenticated && a.lost == b.lost && a.keyType == b.keyType && a.keyNo == b.keyNo
    && a.enc == b.enc && a.mac == b.mac && a.ti == b.ti && a.ctr == b.ctr
  }

  ghost predicate Coherent(s: Session) {
    && (s.authenticated <==> s.channel != NoChannel)
    && (s.lost ==> !s.authenticated && s.enc == Zeros(32) && s.mac == Zeros(32))
  }

  /** A call on the DESFire layer. Data and file commands state the protection
      they want; Eff turns it into the modes of the exchange. */
  datatype Call =
    | Command(cmd: byte, data: Bytes, tx: Mode, rx: Mode, cap: nat)
    | SelectApplication(aid: nat)
    | ResetChannel
    | Login(keyNo: byte, key: Key, channel: Channel, random: Bytes)
    | LoginNonFirst(keyNo: byte, key: Key, random: Bytes)

  predicate WellFormed(c: Call) {
    match c
    case Login(_, _, _, random) => |random| == 16
    case LoginNonFirst(_, _, random) => |random| == 16
    case _ => true
  }

  datatype State = State(session: Session, log: seq<Frame>)

  ghost function Do(link: Link, cs: CmdSet, st: State, c: Call): State
    requires NeverStalls(link, cs) && WellFormed(c)
  {
    hide Exchange, Select, Authenticate, AuthenticateNonFirst, Reset, Eff;
    match c
    case Command(cmd, data, tx, rx, cap) =>
      var r := Exchange(link, cs, st.log, st.session, cmd, data, Eff(st.session, tx), Eff(st.session, rx), cap);
      State(r.session, r.log)
    case SelectApplication(aid) =>
      var r := Select(link, cs, st.log, st.session, aid);
      State(r.session, r.log)
    case ResetChannel => State(Reset(st.session), st.log)
    case Login(keyNo, key, channel, random) =>
      var r := Authenticate(link, cs, st.log, st.session, keyNo, key, channel, random);
      State(r.session, r.log)
    case LoginNonFirst(keyNo, key, random) =>
      var r := AuthenticateNonFirst(link, cs, st.log, st.session, keyNo, key, random);
      State(r.session, r.log)
  }

  ghost function Run(link: Link, cs: CmdSet, st: State, calls: seq<Call>): State
    requires NeverStalls(link, cs) && forall c <- calls :: WellFormed(c)
    decreases |calls|
  {
    hide Do, WellFormed;
    if calls == [] then st else Run(link, cs, Do(link, cs, st, calls[0]), calls[1..])
  }

  //--------------------------------------------------------------------------
  // each step keeps the invariant
  //--------------------------------------------------------------------------

  lemma EncodeKeeps(s: Session, cmd: byte, src: Bytes, cap: nat)
    ensures SameSession(Encode(s, cmd, src, cap).session, s)
  {
    hide HeaderLength, EncodeD40, EncodeEv1, EncodeEv2, SameSession;
    var zero := |src| <= HeaderLength(cmd, |src|);
    var t := s.(lastCmd := cmd, lastZeroLen := zero);
    NotedKeeps(s, cmd, zero, Encode(s, cmd, src, cap).session);
    match s.channel
    case D40 => EncodeD40Same(t, cmd, src, cap);
    case EV1 => EncodeEv1Keeps(t, cmd, src, cap);
    case NoChannel =>
    case EV2 => EncodeEv2Keeps(t, cmd, src, cap);
    case LRP => EncodeEv2Keeps(t, cmd, src, cap);
  }

  lemma NotedKeeps(s: Session, cmd: byte, zero: bool, a: Session)
    ensures var t := s.(lastCmd := cmd, lastZeroLen := zero); SameSession(t, t) && (SameSession(a, t) ==> SameSession(a, s))
  {}

  lemma EncodeD40Same(s: Session, cmd: byte, src: Bytes, cap: nat)
    ensures SameSession(EncodeD40(s, cmd, src, cap).session, s)
  {
    hide EncodeD40;
    EncodeD40Keeps(s, cmd, src, cap);
  }

  lemma EncodeD40Keeps(s: Session, cmd: byte, src: Bytes, cap: nat)
    ensures var t := EncodeD40(s, cmd, src, cap).session; t == s || t == WithMode(s, Enc)
  {
    hide D40Mac, D40Plain, D40Cipher, Header, TransmitsMac;
  }

  lemma EncodeEv1Keeps(s: Session, cmd: byte, src: Bytes, cap: nat)
    ensures SameSession(EncodeEv1(s, cmd, src, cap).session, s)
  {
    hide EncodeEv1, Ev1Cipher, Ev1Mac, Ev1Plain, Splice, Header;
    var e := Ev1Cipher(s, Ev1Plain(s, cmd, src, Header(cmd, |src|))).1;
    EncodeEv1Sessions(s, cmd, src, cap);
  }

  lemma EncodeEv1Sessions(s: Session, cmd: byte, src: Bytes, cap: nat)
    ensures var t := EncodeEv1(s, cmd, src, cap).session;
            || t == s || t == WithIv(s, Ev1Mac(s, [cmd] + src))
            || t == WithMode(Ev1Cipher(s, Ev1Plain(s, cmd, src, Header(cmd, |src|))).1, Enc)
  {
    hide Ev1Mac, Ev1Plain, Ev1Cipher, Header, TransmitsMac, WithIv;
  }

  lemma EncodeEv2Keeps(s: Session, cmd: byte, src: Bytes, cap: nat)
    ensures SameSession(EncodeEv2(s, cmd, src, cap).session, s)
  {
    hide EncodeEv2, Ev2Crypt, Padded2, Header;
    EncodeEv2Sessions(s, cmd, src, cap);
    var e := Ev2Body(s, Header(cmd, |src|), src).1;
    EncipheringKeeps(s, e.iv);
  }

  lemma EncipheringKeeps(s: Session, iv: Bytes)
    requires |iv| == 16
    ensures SameSession(s, s) && SameSession(WithMode(s, Enc), s) && SameSession(WithMode(s.(iv := iv), Enc), s)
  {}

  lemma EncodeEv2Sessions(s: Session, cmd: byte, src: Bytes, cap: nat)
    ensures var e := EncodeEv2(s, cmd, src, cap);
            || e.session == s || e.session == WithMode(s, Enc)
            || (e.result.Ok? && e.session == WithMode(Ev2Body(s, Header(cmd, |src|), src).1, Enc))
    ensures EncodeEv2(s, cmd, src, cap).result.Err? ==> EncodeEv2(s, cmd, src, cap).session == s
  {
    hide Ev2Mac, Ev2Body, Header;
  }

  lemma DecodeKeeps(s: Session, src: Bytes, status: byte, cap: nat)
    ensures SameSession(Decode(s, src, status, cap).session, s)
  {
    hide DecodeD40, DecodeEv1, DecodeEv2, Copied;
    DecodeD40Keeps(s, src, status, cap);
    DecodeEv1Keeps(s, src, status, cap);
    DecodeEv2Keeps(s, src, cap);
  }

  lemma DecodeD40Keeps(s: Session, src: Bytes, status: byte, cap: nat)
    ensures var t := DecodeD40(s, src, status, cap).session; t == s || t == Rejecting(s)
  {
    hide D40Mac, Cbc.Crypt, CrcPos, Copied, ReceivesMac, EncCipher;
  }

  lemma DecodeEv1Keeps(s: Session, src: Bytes, status: byte, cap: nat)
    ensures SameSession(DecodeEv1(s, src, status, cap).session, s)
  {
    hide DecodeEv1, Ev1Mac, Splice;
    DecodeEv1Sessions(s, src, status, cap);
  }

  lemma DecodeEv1Sessions(s: Session, src: Bytes, status: byte, cap: nat)
    ensures var t := DecodeEv1(s, src, status, cap).session;
            var u := WithIv(s, Ev1Mac(s, src[..Max(0, |src| - 8)] + [status]));
            t == s || t == u || t == Rejecting(u)
  {
    hide Ev1Mac, Cbc.Crypt, CrcPos, Copied, WithIv, EncCipher, MacCipher;
  }

  lemma DecodeEv2Keeps(s: Session, src: Bytes, cap: nat)
    ensures SameSession(DecodeEv2(s, src, cap).session, s)
  {
    hide Ev2Mac, DecodeBody;
    if |src| >= 8 {
      DecodeBodyKeeps(s, src[..|src| - 8], cap);
    }
  }

  lemma DecodeBodyKeeps(s: Session, data: Bytes, cap: nat)
    ensures SameSession(DecodeBody(s, data, cap).session, s)
  {
    hide Ev2Crypt, Copied, Unpadded2;
  }

  lemma BeginKeeps(s: Session, cmd: byte, data: Bytes, tx: Mode, rx: Mode)
    ensures SameSession(Begin(s, cmd, data, tx, rx).session, s)
    ensures Coherent(s) ==> Coherent(Begin(s, cmd, data, tx, rx).session)
  {
    hide Encode;
    EncodeKeeps(s.(mode := tx, macMismatch := false), cmd, data, MAX_RESPONSE);
  }

  lemma EndKeeps(s: Session, a: Answer, rx: Mode, cap: nat)
    requires Coherent(s)
    ensures Coherent(End(s, a, rx, cap).session)
    ensures s.lost ==> End(s, a, rx, cap).session.lost
  {
    hide Decode;
    DecodeKeeps(Advanced(s, a.status).(mode := rx), a.data, a.status, cap);
  }

  lemma ExchangeKeeps(link: Link, cs: CmdSet, log: seq<Frame>, s: Session, cmd: byte, data: Bytes,
                      tx: Mode, rx: Mode, cap: nat)
    requires NeverStalls(link, cs) && Coherent(s)
    ensures Coherent(Exchange(link, cs, log, s, cmd, data, tx, rx, cap).session)
    ensures s.lost ==> Exchange(link, cs, log, s, cmd, data, tx, rx, cap).session.lost
  {
    hide Encode, Decode, RawExchange, Begin, End, Coherent;
    var b := Begin(s, cmd, data, tx, rx);
    BeginKeeps(s, cmd, data, tx, rx);
    if b.result.Ok? {
      var r := RawExchange(link, cs, log, cmd, b.result.value, MAX_RESPONSE, true);
      if r.result.Ok? {
        EndKeeps(b.session, r.result.value, rx, cap);
      }
    }
  }

  //--------------------------------------------------------------------------
  // when a refusal ends the session
  //--------------------------------------------------------------------------

  /** The newest frame was refused. */
  predicate RefusedLast(link: Link, cs: CmdSet, log: seq<Frame>)
    requires log != []
  {
    hide Latest;
    var n := Latest(link, cs, log);
    n.Ok? && StatusEndsSession(n.value.status)
  }

  lemma EndStays(s: Session, a: Answer, rx: Mode, cap: nat)
    requires s.authenticated
    ensures End(s, a, rx, cap).session.authenticated <==> !StatusEndsSession(a.status)
  {
    hide Decode, StatusEndsSession;
    DecodeKeeps(Advanced(s, a.status).(mode := rx), a.data, a.status, cap);
  }

  /** The newest frame was refused after the whole request was out and before the
      buffer was full. */
  ghost predicate Dropped(link: Link, cs: CmdSet, full: seq<Frame>, log: seq<Frame>)
    requires log != [] && full != []
  {
    hide Gathered, RefusedLast;
    RefusedLast(link, cs, log) && full <= log && |Gathered(link, cs, log, |full| - 1)| <= MAX_RESPONSE
  }

  lemma Decided(link: Link, cs: CmdSet, log: seq<Frame>, full: seq<Frame>, r: Raw, s: Session, rx: Mode, cap: nat)
    requires |full| > 0 && s.authenticated && Conserved(link, cs, log, full, MAX_RESPONSE, r)
    ensures var e := Arrived(s, r.result, rx, cap);
            && (e.session.authenticated <==> !Dropped(link, cs, full, r.log))
            && (Dropped(link, cs, full, r.log) ==> e == Outcome(Err(Error.Card), Reset(s).(lost := true)))
            && (RefusedLast(link, cs, r.log) && !Dropped(link, cs, full, r.log) ==>
                  e == Outcome(Err(if full <= r.log then Length else Error.Card), s))
  {
    hide End, Reset, StatusEndsSession, Gathered, AnswerTo, Wrap;
    if r.result.Ok? {
      EndStays(s, r.result.value, rx, cap);
      if StatusEndsSession(r.result.value.status) {
        EndOnRefusal(s, r.result.value, rx, cap);
      }
    }
  }

  /** A refusal ends the reader's session exactly if the whole request was out
      and the answers up to the refusal fit the buffer, whether it answers the
      last request frame or a continuation frame. A refusal of an earlier part
      is reported too, but the session stands; and nothing else ends it. */
  lemma RefusalEnds(link: Link, cs: CmdSet, log: seq<Frame>, s: Session, cmd: byte, data: Bytes,
                    tx: Mode, rx: Mode, cap: nat)
    requires NeverStalls(link, cs) && s.authenticated && Begin(s, cmd, data, tx, rx).result.Ok?
    ensures var b, e := Begin(s, cmd, data, tx, rx), Exchange(link, cs, log, s, cmd, data, tx, rx, cap);
            var full := log + RequestFrames(cs, cmd, Chunks(b.result.value));
            && e.log != [] && full != []
            && (e.session.authenticated <==> !Dropped(link, cs, full, e.log))
            && (Dropped(link, cs, full, e.log) ==> e == Step(Err(Error.Card), Reset(b.session).(lost := true), e.log))
            && (RefusedLast(link, cs, e.log) && !Dropped(link, cs, full, e.log) ==>
                  e == Step(Err(if full <= e.log then Length else Error.Card), b.session, e.log))
  {
    hide Begin, RawExchange, Chunks, RequestFrames, Gathered, End, Arrived, RefusedLast, Dropped, Reset, NeverStalls;
    var b := Begin(s, cmd, data, tx, rx);
    BeginKeeps(s, cmd, data, tx, rx);
    Conservation(link, cs, log, cmd, b.result.value, MAX_RESPONSE);
    var r := RawExchange(link, cs, log, cmd, b.result.value, MAX_RESPONSE, true);
    Decided(link, cs, log, log + RequestFrames(cs, cmd, Chunks(b.result.value)), r, b.session, rx, cap);
  }

  /** A card that refuses every frame. */
  function Refusing(status: byte): Link {
    _ => Ok([status])
  }

  lemma RefusingEnds(status: byte)
    requires status != MORE
    ensures NeverStalls(Refusing(status), Native)
    ensures forall log | log != [] :: Latest(Refusing(status), Native, log) == Ok(Answer(status, []))
  {
    var b: Bytes := [status];
    assert b[1..] == [];
    forall log ensures !StallsAfter(Refusing(status), Native, log) {
      assert !Stalling(Refusing(status), Native, log, 1) by { hide Asked; }
    }
  }

  /** Sixty bytes in the clear, two frames: a card that refuses the first with a
      LENGTH_ERROR has ended the command, and the reader's session stands. */
  lemma RefusedPartStands(log: seq<Frame>, s: Session, cmd: byte, cap: nat)
    requires s.authenticated && s.channel == EV2
    ensures NeverStalls(Refusing(0x7E), Native)
    ensures var e := Exchange(Refusing(0x7E), Native, log, s, cmd, Zeros(60), Plain, Plain, cap);
            && e.result == Err(Error.Card) && |e.log| == |log| + 1 && RefusedLast(Refusing(0x7E), Native, e.log)
            && e.session.authenticated
  {
    hide NeverStalls, RawExchange, Begin, Arrived, Chunks, RequestFrames, Wrap, Parse;
    RefusingEnds(0x7E);
    PlainEv2GoesOut(s, cmd, Zeros(60));
    BeginKeeps(s, cmd, Zeros(60), Plain, Plain);
    FirstRefused(Refusing(0x7E), log, cmd, Zeros(60), MAX_RESPONSE, Answer(0x7E, []));
    ArrivedError(Begin(s, cmd, Zeros(60), Plain, Plain).session, Error.Card, Plain, cap);
  }

  lemma PlainEv2GoesOut(s: Session, cmd: byte, data: Bytes)
    requires s.channel == EV2 && |data| <= MAX_RESPONSE
    ensures Begin(s, cmd, data, Plain, Plain).result == Ok(data)
  {
    hide HeaderLength, Ev2Mac, Ev2Body;
  }

  lemma ArrivedError(s: Session, e: Error, rx: Mode, cap: nat)
    ensures Arrived(s, Err(e), rx, cap) == Outcome(Err(e), s)
  {}

  lemma FirstRefused(link: Link, log: seq<Frame>, cmd: byte, data: Bytes, cap: nat, a: Answer)
    requires NeverStalls(link, Native) && |data| > TX_FRAME_MAX && a.status != MORE
    requires forall l | l != [] :: Latest(link, Native, l) == Ok(a)
    ensures var r := RawExchange(link, Native, log, cmd, data, cap, true);
            r.result == Err(Error.Card) && |r.log| == |log| + 1
  {
    hide NeverStalls, Wrap, Parse;
    var sent := log + [Wrap(Native, cmd, data[..TX_FRAME_MAX])];
    assert sent[..|sent|] == sent && Latest(link, Native, sent) == Ok(a);
  }

  lemma FinishKeeps(s: Session, keyNo: byte, scheme: Scheme, key: Key, rndA: Bytes, m: Pending, a: Answer)
    requires |rndA| == |m.rndB| == NonceOf(scheme, key.kind)
    requires scheme.Legacy? ==> |m.iv| == Block(KeyCipher(s.p, key))
    ensures Concludes(Finish(s, keyNo, scheme, key, rndA, m, a), s)
  {
    hide LegacyFinish, Ev2Finish, LrpFinish, Concludes;
    match scheme
    case Legacy(d40) => LegacyConcludes(s, keyNo, key, d40, rndA, m, a);
    case Ev2(first) => Ev2Concludes(s, keyNo, key, first, rndA, m, a);
    case LrpAuth(first) => LrpConcludes(s, keyNo, key, first, rndA, m, a);
  }

  /** Success enters a session, failure keeps what was there. */
  ghost predicate Concludes(o: Outcome, s: Session) {
    if o.result.Ok? then Entered(o.session, s)
    else SameSession(o.session, s)
  }

  ghost predicate Entered(t: Session, s: Session) {
    t.authenticated && t.channel != NoChannel && t.lost == s.lost
  }

  lemma LegacyConcludes(s: Session, keyNo: byte, key: Key, d40: bool, rndA: Bytes, m: Pending, a: Answer)
    requires |rndA| == |m.rndB| == NonceLength(key.kind) && |m.iv| == Block(KeyCipher(s.p, key))
    ensures Concludes(LegacyFinish(s, keyNo, key, d40, rndA, m, a), s)
  {
    hide Cbc.Run, Splice, LegacyKey, RotateLeft;
  }

  lemma Ev2Concludes(s: Session, keyNo: byte, key: Key, first: bool, rndA: Bytes, m: Pending, a: Answer)
    requires |rndA| == |m.rndB| == 16
    ensures Concludes(Ev2Finish(s, keyNo, key, first, rndA, m, a), s)
  {
    hide Cbc.Crypt, Splice, SessionKeyEv2;
  }

  lemma LrpConcludes(s: Session, keyNo: byte, key: Key, first: bool, rndA: Bytes, m: Pending, a: Answer)
    requires |rndA| == |m.rndB| == 16
    ensures Concludes(LrpFinish(s, keyNo, key, first, rndA, m, a), s)
  {
    hide SessionKeyLrp, LrpMac, LrpTi, LrpSession, Entered;
    forall ti: Bytes, chain: Bytes | |ti| == |chain| == 4
      ensures Entered(LrpSession(s, keyNo, key, first, rndA, m.rndB, ti, chain), s)
    {
      LrpEnters(s, keyNo, key, first, rndA, m.rndB, ti, chain);
    }
  }

  lemma LrpEnters(s: Session, keyNo: byte, key: Key, first: bool, a: Bytes, b: Bytes, ti: Bytes, chain: Bytes)
    requires |a| == |b| == 16 && |ti| == |chain| == 4
    ensures Entered(LrpSession(s, keyNo, key, first, a, b, ti, chain), s)
  {
    hide Splice, SessionKeyLrp;
  }

  lemma HandshakeKeeps(link: Link, cs: CmdSet, log: seq<Frame>, s: Session, keyNo: byte, scheme: Scheme, key: Key, rndA: Bytes)
    requires |rndA| == NonceOf(scheme, key.kind) && Coherent(s) && !s.lost
    ensures Coherent(Handshake(link, cs, log, s, keyNo, scheme, key, rndA).session)
  {
    hide Reply, Finish, SendChunks;
    var open := Opening(scheme, key.kind, keyNo);
    var r1 := SendChunks(link, cs, log, open.0, open.1, AUTH_CAP);
    if r1.result.Ok? {
      var m := Reply(s.p, scheme, key, r1.result.value, rndA);
      if m.Ok? {
        var r2 := SendChunks(link, cs, r1.log, MORE, m.value.send, AUTH_CAP);
        if r2.result.Ok? {
          FinishKeeps(s, keyNo, scheme, key, rndA, m.value, r2.result.value);
        }
      }
    }
  }

  lemma StepKeeps(link: Link, cs: CmdSet, st: State, c: Call)
    requires NeverStalls(link, cs) && WellFormed(c) && Coherent(st.session)
    ensures Coherent(Do(link, cs, st, c).session)
  {
    hide Exchange, Handshake;
    var s := st.session;
    match c
    case Command(cmd, data, tx, rx, cap) =>
      ExchangeKeeps(link, cs, st.log, s, cmd, data, Eff(s, tx), Eff(s, rx), cap);
    case SelectApplication(aid) =>
      if aid < 0x1000000 {
        var d := U24(aid);
        ExchangeKeeps(link, cs, st.log, Reset(s), 0x5A, d, Plain, Plain, 8);
      }
    case ResetChannel =>
    case Login(keyNo, key, channel, random) =>
      var t := Reset(s);
      var short := random[..NonceLength(key.kind)];
      HandshakeKeeps(link, cs, st.log, t, keyNo, Legacy(true), key, short);
      HandshakeKeeps(link, cs, st.log, t, keyNo, Legacy(false), key, short);
      HandshakeKeeps(link, cs, st.log, t, keyNo, Ev2(true), key, random);
      HandshakeKeeps(link, cs, st.log, t, keyNo, LrpAuth(true), key, random);
    case LoginNonFirst(keyNo, key, random) =>
      if s.authenticated {
        HandshakeKeeps(link, cs, st.log, s, keyNo, Ev2(false), key, random);
        HandshakeKeeps(link, cs, st.log, s, keyNo, LrpAuth(false), key, random);
      }
  }

  /** Over every run, against every card: authenticated exactly when a channel
      is set, and a lost session is unauthenticated with cleared keys. */
  lemma {:induction false} AlwaysCoherent(link: Link, cs: CmdSet, st: State, calls: seq<Call>)
    requires NeverStalls(link, cs) && Coherent(st.session) && forall c <- calls :: WellFormed(c)
    ensures Coherent(Run(link, cs, st, calls).session)
    decreases |calls|
  {
    hide Do, Coherent, WellFormed;
    if calls != [] {
      StepKeeps(link, cs, st, calls[0]);
      AlwaysCoherent(link, cs, Do(link, cs, st, calls[0]), calls[1..]);
    }
  }

  //--------------------------------------------------------------------------
  // inside a session, and without one
  //--------------------------------------------------------------------------

  /** The frames of a command with this data field: nothing else has gone out, and
      not less than its first part. */
  ghost predicate Sends(cs: CmdSet, log: seq<Frame>, cmd: byte, wire: Result<Bytes>, after: seq<Frame>) {
    hide RequestFrames, Chunks;
    if wire.Err? then after == log
    else
      var full := log + RequestFrames(cs, cmd, Chunks(wire.value));
      log < after && (after <= full || full <= after)
  }

  lemma ExchangeSends(link: Link, cs: CmdSet, log: seq<Frame>, s: Session, cmd: byte, data: Bytes, tx: Mode, rx: Mode, cap: nat)
    requires NeverStalls(link, cs)
    ensures Sends(cs, log, cmd, Begin(s, cmd, data, tx, rx).result, Exchange(link, cs, log, s, cmd, data, tx, rx, cap).log)
  {
    hide Begin, RawExchange, Chunks, RequestFrames, Arrived, NeverStalls, Latest, Gathered, AnswerTo;
    var b := Begin(s, cmd, data, tx, rx);
    if b.result.Ok? {
      Conservation(link, cs, log, cmd, b.result.value, MAX_RESPONSE);
    }
  }

  /** Inside a session every command goes out in exactly the mode the caller asked
      for: its frames are those of the channel's encoder in that mode, and the
      answer is taken in the mode asked for. */
  lemma LiveKeepsModes(link: Link, cs: CmdSet, st: State, c: Call)
    requires NeverStalls(link, cs) && Coherent(st.session) && st.session.authenticated && c.Command?
    ensures var e := Exchange(link, cs, st.log, st.session, c.cmd, c.data, c.tx, c.rx, c.cap);
            Do(link, cs, st, c) == State(e.session, e.log)
    ensures Sends(cs, st.log, c.cmd,
                  Encode(st.session.(mode := c.tx, macMismatch := false), c.cmd, c.data, MAX_RESPONSE).result,
                  Do(link, cs, st, c).log)
  {
    hide Exchange, Encode, Sends;
    ExchangeSends(link, cs, st.log, st.session, c.cmd, c.data, c.tx, c.rx, c.cap);
  }

  /** Without one, and without a loss, it goes out in the clear, whatever was asked
      for. */
  lemma SessionlessIsPlain(link: Link, cs: CmdSet, st: State, c: Call)
    requires NeverStalls(link, cs) && Coherent(st.session) && !st.session.authenticated && !st.session.lost && c.Command?
    ensures Sends(cs, st.log, c.cmd, if |c.data| > MAX_RESPONSE then Err(Length) else Ok(c.data), Do(link, cs, st, c).log)
  {
    hide Exchange, Sends, EncodeD40, EncodeEv1, EncodeEv2, HeaderLength;
    ExchangeSends(link, cs, st.log, st.session, c.cmd, c.data, Plain, Plain, c.cap);
  }

  /** A selection forgets the session and sends the identifier in the clear, least
      significant byte first. */
  lemma SelectGoesOut(link: Link, cs: CmdSet, st: State, aid: nat)
    requires NeverStalls(link, cs)
    ensures var after := Do(link, cs, st, SelectApplication(aid));
            if aid >= 0x1000000 then after == st
            else
              exists data :: |data| == 3 && Num(data[0]) + 0x100 * Num(data[1]) + 0x10000 * Num(data[2]) == aid
                             && Sends(cs, st.log, 0x5A, Ok(data), after.log) && !after.session.authenticated
  {
    hide Exchange, Sends, EncodeD40, EncodeEv1, EncodeEv2, HeaderLength, U24, Num, Coherent;
    if aid < 0x1000000 {
      var data := U24(aid);
      ExchangeSends(link, cs, st.log, Reset(st.session), 0x5A, data, Plain, Plain, 8);
      StaysOut(link, cs, st.log, Reset(st.session), 0x5A, data, 8);
    }
  }

  /** An exchange does not enter a session. */
  lemma StaysOut(link: Link, cs: CmdSet, log: seq<Frame>, s: Session, cmd: byte, data: Bytes, cap: nat)
    requires NeverStalls(link, cs) && !s.authenticated
    ensures !Exchange(link, cs, log, s, cmd, data, Plain, Plain, cap).session.authenticated
  {
    hide Encode, Decode, RawExchange, Begin, Coherent;
    var b := Begin(s, cmd, data, Plain, Plain);
    BeginKeeps(s, cmd, data, Plain, Plain);
    if b.result.Ok? {
      var r := RawExchange(link, cs, log, cmd, b.result.value, MAX_RESPONSE, true);
      if r.result.Ok? {
        var a := r.result.value;
        DecodeKeeps(Advanced(b.session, a.status).(mode := Plain), a.data, a.status, cap);
      }
    }
  }

  /** After a command inside a session the reader is in it, or knows that it is lost. */
  lemma StandsOrLost(link: Link, cs: CmdSet, log: seq<Frame>, s: Session, cmd: byte, data: Bytes, tx: Mode, rx: Mode, cap: nat)
    requires NeverStalls(link, cs) && s.authenticated
    ensures var t := Exchange(link, cs, log, s, cmd, data, tx, rx, cap).session; t.authenticated || t.lost
  {
    hide Begin, RawExchange, Chunks, RequestFrames, Arrived, NeverStalls, Dropped, RefusedLast, Coherent, Reset;
    BeginKeeps(s, cmd, data, tx, rx);
    if Begin(s, cmd, data, tx, rx).result.Ok? {
      RefusalEnds(link, cs, log, s, cmd, data, tx, rx, cap);
    }
  }

  //--------------------------------------------------------------------------
  // after a loss
  //--------------------------------------------------------------------------

  /** What does not end the lost state. */
  predicate Ordinary(c: Call) {
    c.Command? || c.LoginNonFirst?
  }

  predicate AsksProtection(c: Call) {
    c.Command? && (!c.tx.Plain? || !c.rx.Plain?)
  }

  function Unprotected(calls: seq<Call>): (r: seq<Call>)
    ensures forall c <- r :: c in calls
  {
    if calls == [] then []
    else (if AsksProtection(calls[0]) then [] else [calls[0]]) + Unprotected(calls[1..])
  }

  /** States that differ only in what the next exchange sets anew. */
  ghost predicate Alike(a: State, b: State) {
    && a.log == b.log
    && a.session == b.session.(mode := a.session.mode, macMismatch := a.session.macMismatch)
  }

  lemma {:induction false} LostStep(link: Link, cs: CmdSet, st: State, c: Call)
    requires NeverStalls(link, cs) && WellFormed(c) && Coherent(st.session) && st.session.lost && Ordinary(c)
    ensures Do(link, cs, st, c).session.lost
    ensures AsksProtection(c) ==> Alike(Do(link, cs, st, c), st)
  {
    hide Encode, End, RawExchange, Handshake;
    if c.Command? {
      ExchangeKeeps(link, cs, st.log, st.session, c.cmd, c.data, Eff(st.session, c.tx), Eff(st.session, c.rx), c.cap);
    }
  }

  lemma AlikeStep(link: Link, cs: CmdSet, a: State, b: State, c: Call)
    requires NeverStalls(link, cs) && WellFormed(c) && Alike(a, b) && Ordinary(c) && !a.session.authenticated
    ensures Alike(Do(link, cs, a, c), Do(link, cs, b, c))
  {
    hide Encode, End, RawExchange, Handshake;
    if c.Command? {
      var tx := Eff(a.session, c.tx);
      assert a.session.(mode := tx, macMismatch := false) == b.session.(mode := tx, macMismatch := false);
    }
  }

  /** From a loss until reset, select or authentication, the wire carries
      exactly the frames of the calls that asked for no protection: a protected
      call puts nothing on it, neither sealed nor in the clear. */
  lemma {:induction false} LostSendsNothingProtected(link: Link, cs: CmdSet, a: State, b: State, calls: seq<Call>)
    requires NeverStalls(link, cs) && Alike(a, b) && Coherent(a.session) && a.session.lost
    requires forall c <- calls :: WellFormed(c) && Ordinary(c)
    ensures Run(link, cs, a, calls).session.lost
    ensures Alike(Run(link, cs, a, calls), Run(link, cs, b, Unprotected(calls)))
    decreases |calls|
  {
    hide Do, WellFormed, AsksProtection, Ordinary;
    if calls != [] {
      var c := calls[0];
      LostStep(link, cs, a, c);
      StepKeeps(link, cs, a, c);
      var rest := Unprotected(calls[1..]);
      if AsksProtection(c) {
        assert Unprotected(calls) == rest;
        LostSendsNothingProtected(link, cs, Do(link, cs, a, c), b, calls[1..]);
      } else {
        assert ([c] + rest)[1..] == rest;
        AlikeStep(link, cs, a, b, c);
        LostSendsNothingProtected(link, cs, Do(link, cs, a, c), Do(link, cs, b, c), calls[1..]);
      }
    }
  }
}
