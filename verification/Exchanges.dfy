/** nxpsc_exchange and the calls around it, on sessions and frame logs: what
    starts, advances and ends a session. */
module Exchanges {
  import opened ByteStrings
  import opened Results
  import opened Ciphers
  import opened Sessions
  import opened Codecs
  import opened Framing
  import opened Handshakes

  /** An outcome, the session afterwards and all frames sent so far. */
  datatype Step = Step(result: Result<Bytes>, session: Session, log: seq<Frame>)

  //--------------------------------------------------------------------------
  // one command
  //--------------------------------------------------------------------------

  /** Up to the frame: a session the card threw away refuses protected modes. */
  function Begin(s: Session, cmd: byte, data: Bytes, tx: Mode, rx: Mode): Outcome {
    hide Encode;
    var t := s.(mode := tx, macMismatch := false);
    if s.lost && (!tx.Plain? || !rx.Plain?) then Outcome(Err(Auth), t)
    else Encode(t, cmd, data, MAX_RESPONSE)
  }

  /** The counter moves only for a command the card carried out. */
  function Advanced(s: Session, status: byte): Session {
    if status != S_ADDITIONAL_FRAME && s.authenticated && (s.channel == EV2 || s.channel == LRP)
    then Next(s) else s
  }

  /** From the answer on. */
  function End(s: Session, a: Answer, rx: Mode, cap: nat): Outcome {
    hide Decode;
    if StatusEndsSession(a.status) then
      Outcome(Err(Error.Card), if s.authenticated then Reset(s).(lost := true) else s)
    else Decode(Advanced(s, a.status).(mode := rx), a.data, a.status, cap)
  }

  lemma EndOnRefusal(r: Session, a: Answer, rx: Mode, cap: nat)
    requires r.authenticated && StatusEndsSession(a.status)
    ensures End(r, a, rx, cap) == Outcome(Err(Error.Card), Reset(r).(lost := true))
  {
    hide Decode, Reset;
  }

  /** The command counter moves by one exactly if the command was carried out in an EV2
      or LRP session; the answer is decoded at that counter, in the mode asked for, with
      its own status. */
  lemma CounterMoves(s: Session, a: Answer, rx: Mode, cap: nat)
    requires !StatusEndsSession(a.status)
    ensures var at := s.(mode := rx, ctr := if a.status != 0xAF && s.authenticated && (s.channel == EV2 || s.channel == LRP)
                                            then Counted(s.ctr) else s.ctr);
            End(s, a, rx, cap) == Decode(at, a.data, a.status, cap)
  {
    hide Decode, Counted;
  }

  /** Behind the transport: its error, or End on the whole answer. */
  function Arrived(s: Session, r: Result<Answer>, rx: Mode, cap: nat): Outcome {
    hide End;
    if r.Err? then Outcome(Err(r.error), s) else End(s, r.value, rx, cap)
  }

  /** nxpsc_exchange */
  ghost function Exchange(link: Link, cs: CmdSet, log: seq<Frame>, s: Session, cmd: byte, data: Bytes,
                          tx: Mode, rx: Mode, cap: nat): Step
    requires NeverStalls(link, cs)
  {
    hide Begin, Arrived, RawExchange;
    var b := Begin(s, cmd, data, tx, rx);
    if b.result.Err? then Step(b.result, b.session, log)
    else
      var r := RawExchange(link, cs, log, cmd, b.result.value, MAX_RESPONSE, true);
      var e := Arrived(b.session, r.result, rx, cap);
      Step(e.result, e.session, r.log)
  }

  /** What the raw exchange makes of a whole answer. */
  function Fitting(a: Answer): Result<Answer> {
    if |a.data| > MAX_RESPONSE then Err(Length) else Ok(a)
  }

  /** When the card acknowledges every part of the request and answers, in one
      piece or in chained parts, the exchange is Begin, then End on the answer;
      an answer beyond the buffer is a length error that leaves the session as
      Begin left it. */
  lemma Delivered(link: Link, cs: CmdSet, log: seq<Frame>, s: Session, cmd: byte, data: Bytes,
                  tx: Mode, rx: Mode, cap: nat, a: Answer, parts: seq<Bytes>)
    requires NeverStalls(link, cs)
    requires var b := Begin(s, cmd, data, tx, rx);
             && b.result.Ok?
             && Replies(link, cs, |log|, log + RequestFrames(cs, cmd, Chunks(b.result.value)), a, parts)
    ensures var b, e := Begin(s, cmd, data, tx, rx), Exchange(link, cs, log, s, cmd, data, tx, rx, cap);
            && Outcome(e.result, e.session) == Arrived(b.session, Fitting(a), rx, cap)
            && (Fitting(a).Ok? ==>
                  e.log == Asked(cs, log + RequestFrames(cs, cmd, Chunks(b.result.value)), |parts| - 1))
  {
    hide Begin, Arrived, Chunks, RequestFrames, RawExchange, Replies, NeverStalls, Asked;
    Replied(link, cs, log, cmd, Begin(s, cmd, data, tx, rx).result.value, MAX_RESPONSE, a, parts);
  }

  /** The sessionless mode choice of the DESFire calls. */
  function Eff(s: Session, mode: Mode): Mode {
    if !s.authenticated && !s.lost then Plain else mode
  }

  //--------------------------------------------------------------------------
  // authentication over the wire
  //--------------------------------------------------------------------------

  datatype Scheme = Legacy(d40: bool) | Ev2(first: bool) | LrpAuth(first: bool)

  function NonceOf(scheme: Scheme, kind: KeyType): nat {
    if scheme.Legacy? then NonceLength(kind) else 16
  }

  function Opening(scheme: Scheme, kind: KeyType, keyNo: byte): (byte, Bytes) {
    match scheme
    case Legacy(d40) => (if d40 then 0x0A else if IsAes(kind) then 0xAA else 0x1A, [keyNo])
    case Ev2(first) => if first then (0x71, [keyNo, 0x00]) else (0x77, [keyNo])
    case LrpAuth(first) => if first then (0x71, [keyNo, 0x01, 0x02]) else (0x77, [keyNo])
  }

  function Reply(p: Primitives, scheme: Scheme, key: Key, a: Answer, rndA: Bytes): (r: Result<Pending>)
    requires |rndA| == NonceOf(scheme, key.kind)
    ensures r.Ok? ==> |r.value.rndB| == |rndA|
    ensures r.Ok? && scheme.Legacy? ==> |r.value.iv| == Block(KeyCipher(p, key))
  {
    hide LegacyReply, Ev2Reply, LrpReply;
    match scheme
    case Legacy(d40) => LegacyReply(p, key, d40, a, rndA)
    case Ev2(_) => Ev2Reply(p, key, a, rndA)
    case LrpAuth(_) => LrpReply(p, key, a, rndA)
  }

  function Finish(s: Session, keyNo: byte, scheme: Scheme, key: Key, rndA: Bytes, m: Pending, a: Answer): Outcome
    requires |rndA| == |m.rndB| == NonceOf(scheme, key.kind)
    requires scheme.Legacy? ==> |m.iv| == Block(KeyCipher(s.p, key))
  {
    hide LegacyFinish, Ev2Finish, LrpFinish;
    match scheme
    case Legacy(d40) => LegacyFinish(s, keyNo, key, d40, rndA, m, a)
    case Ev2(first) => Ev2Finish(s, keyNo, key, first, rndA, m, a)
    case LrpAuth(first) => LrpFinish(s, keyNo, key, first, rndA, m, a)
  }

  const AUTH_CAP := 64   // the response buffers of the auth_* functions

  /** auth_legacy, auth_ev2 and auth_lrp: two raw exchanges that do not follow
      MORE answers. */
  function Handshake(link: Link, cs: CmdSet, log: seq<Frame>, s: Session, keyNo: byte, scheme: Scheme, key: Key,
                     rndA: Bytes): Step
    requires |rndA| == NonceOf(scheme, key.kind)
  {
    hide Reply, Finish, SendChunks;
    var open := Opening(scheme, key.kind, keyNo);
    var r1 := SendChunks(link, cs, log, open.0, open.1, AUTH_CAP);
    if r1.result.Err? then Step(Err(r1.result.error), s, r1.log)
    else
      var m := Reply(s.p, scheme, key, r1.result.value, rndA);
      if m.Err? then Step(Err(m.error), s, r1.log)
      else
        var r2 := SendChunks(link, cs, r1.log, MORE, m.value.send, AUTH_CAP);
        if r2.result.Err? then Step(Err(r2.result.error), s, r2.log)
        else
          var o := Finish(s, keyNo, scheme, key, rndA, m.value, r2.result.value);
          Step(o.result, o.session, r2.log)
  }

  lemma OneFrame(link: Link, cs: CmdSet, log: seq<Frame>, cmd: byte, data: Bytes, cap: nat, a: Answer)
    requires |data| <= TX_FRAME_MAX && |a.data| <= cap && Parse(cs, link(log + [Wrap(cs, cmd, data)])) == Ok(a)
    ensures SendChunks(link, cs, log, cmd, data, cap) == Raw(Ok(a), log + [Wrap(cs, cmd, data)])
  {
    hide Wrap, Parse;
    assert data[..|data|] == data;
  }

  /** When the card answers both frames, the handshake is Reply on the first
      answer and Finish on the second. */
  lemma HandshakeDelivered(link: Link, cs: CmdSet, log: seq<Frame>, s: Session, keyNo: byte, scheme: Scheme, key: Key,
                           rndA: Bytes, a: Answer, b: Answer)
    requires |rndA| == NonceOf(scheme, key.kind) && |a.data| <= AUTH_CAP && |b.data| <= AUTH_CAP
    requires var open := Opening(scheme, key.kind, keyNo);
             Parse(cs, link(log + [Wrap(cs, open.0, open.1)])) == Ok(a)
    requires var open, m := Opening(scheme, key.kind, keyNo), Reply(s.p, scheme, key, a, rndA);
             && m.Ok? && |m.value.send| <= TX_FRAME_MAX
             && Parse(cs, link(log + [Wrap(cs, open.0, open.1)] + [Wrap(cs, MORE, m.value.send)])) == Ok(b)
    ensures var open, m := Opening(scheme, key.kind, keyNo), Reply(s.p, scheme, key, a, rndA).value;
            var f := Finish(s, keyNo, scheme, key, rndA, m, b);
            Handshake(link, cs, log, s, keyNo, scheme, key, rndA)
            == Step(f.result, f.session, log + [Wrap(cs, open.0, open.1)] + [Wrap(cs, MORE, m.send)])
  {
    hide Wrap, Parse, Reply, Finish, SendChunks;
    var open := Opening(scheme, key.kind, keyNo);
    OneFrame(link, cs, log, open.0, open.1, AUTH_CAP, a);
    OneFrame(link, cs, log + [Wrap(cs, open.0, open.1)], MORE, Reply(s.p, scheme, key, a, rndA).value.send, AUTH_CAP, b);
  }

  /** nxpsc_authenticate, with the channel already chosen. */
  function Authenticate(link: Link, cs: CmdSet, log: seq<Frame>, s: Session, keyNo: byte, key: Key, channel: Channel,
                        random: Bytes): Step
    requires |random| == 16
  {
    hide Handshake;
    var t := Reset(s);
    match channel
    case NoChannel => Step(Err(Param), t, log)
    case D40 => Handshake(link, cs, log, t, keyNo, Legacy(true), key, random[..NonceLength(key.kind)])
    case EV1 => Handshake(link, cs, log, t, keyNo, Legacy(false), key, random[..NonceLength(key.kind)])
    case EV2 => if !key.kind.AES128? then Step(Err(Unsupported), t, log)
                else Handshake(link, cs, log, t, keyNo, Ev2(true), key, random)
    case LRP => if !key.kind.AES128? then Step(Err(Unsupported), t, log)
                else Handshake(link, cs, log, t, keyNo, LrpAuth(true), key, random)
  }

  /** nxpsc_authenticate_nonfirst */
  function AuthenticateNonFirst(link: Link, cs: CmdSet, log: seq<Frame>, s: Session, keyNo: byte, key: Key, random: Bytes): Step
    requires |random| == 16
  {
    hide Handshake;
    if !s.authenticated then Step(Err(Auth), s, log)
    else if s.channel == LRP then Handshake(link, cs, log, s, keyNo, LrpAuth(false), key, random)
    else if s.channel == EV2 then Handshake(link, cs, log, s, keyNo, Ev2(false), key, random)
    else Step(Err(Unsupported), s, log)
  }

  /** nxpsc_select_application */
  ghost function Select(link: Link, cs: CmdSet, log: seq<Frame>, s: Session, aid: nat): Step
    requires NeverStalls(link, cs)
  {
    hide Exchange, Reset;
    if aid >= 0x1000000 then Step(Err(Length), s, log)
    else
      var data := U24(aid);
      Exchange(link, cs, log, Reset(s), 0x5A, data, Plain, Plain, 8)
  }
}
