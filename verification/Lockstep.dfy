/** EV2 and LRP sessions against an honest card: over every run of
    authentications, commands, refusals, selections and resets the two sides
    never disagree about an authenticated session. */
module Lockstep {
  import opened ByteStrings
  import opened Results
  import opened Ciphers
  import opened Sessions
  import opened Codecs
  import opened Framing
  import opened Handshakes
  import opened Exchanges
  import opened Peer
  import Gate
  import Cbc
  import Cmac
  import Lrp

  /** What the card's application decides about a command it received. */
  datatype Verdict = Accept(status: byte, comm: Mode, payload: Bytes) | Refuse(status: byte)

  datatype Event =
    | First(lrp: bool, keyNo: byte, key: Key, rndA: Bytes, rndB: Bytes, ti: Bytes, caps: Bytes)
    | NonFirst(keyNo: byte, key: Key, rndA: Bytes, rndB: Bytes)
    | Command(cmd: byte, data: Bytes, tx: Mode, rx: Mode, cap: nat, verdict: Verdict)
    | Select(aid: nat, verdict: Verdict)
    | ResetChannel

  /** Both sides, and what passed between the two applications last: the
      payload the card opened, and the answer the reader returned. */
  datatype Pair = Pair(reader: Session, card: Session, heard: Result<Bytes>, returned: Result<Bytes>)

  //--------------------------------------------------------------------------
  // the card
  //--------------------------------------------------------------------------

  /** The payload the card's application sees, the answer, and the session. */
  datatype CardStep = CardStep(heard: Result<Bytes>, answer: Answer, session: Session)

  /** An error answer throws the session away (mock_secure_abort); a command
      that was carried out advances the counter (mock_secure_advance). */
  function Answers(k: Session, cmd: byte, wire: Bytes, mode: Mode, v: Verdict): CardStep {
    hide OpenEv2, SealEv2, Reset;
    if !k.authenticated then
      CardStep(Ok(wire), if v.Accept? then Answer(v.status, v.payload) else Answer(v.status, []), k)
    else
      var o := OpenEv2(k, cmd, wire, mode);
      if o.result.Err? then CardStep(o.result, Answer(0x1E, []), Reset(k))   // INTEGRITY_ERROR
      else if v.Refuse? then CardStep(o.result, Answer(v.status, []), Reset(k))
      else
        var a := SealEv2(o.session, v.comm, v.payload);
        CardStep(o.result, Answer(v.status, a.0), Next(a.1))
  }

  //--------------------------------------------------------------------------
  // the system
  //--------------------------------------------------------------------------

  /** The card's first message of an authentication. */
  function Challenge(k: Session, scheme: Scheme, key: Key, rndB: Bytes): Answer
    requires |rndB| == 16
  {
    hide Ev2Challenge;
    Answer(S_ADDITIONAL_FRAME, if scheme.LrpAuth? then [0x01] + rndB else Ev2Challenge(k.p, key, rndB))
  }

  /** Its second one: a wrong nonce is an AUTHENTICATION_ERROR. */
  function Admits(k: Session, scheme: Scheme, keyNo: byte, key: Key, rndB: Bytes, ti: Bytes, caps: Bytes, both: Bytes): CardStep
    requires !scheme.Legacy? && |rndB| == 16 && |ti| == 4 && |caps| == 12
  {
    hide Ev2Open, LrpOpen, Ev2Session, LrpSession, LrpTi, SessionKeyLrp, Reset;
    var lrp := scheme.LrpAuth?;
    var o := if lrp then LrpOpen(k.p, key, scheme.first, ti, caps, rndB, both)
             else Ev2Open(k.p, key, scheme.first, ti, caps, rndB, both);
    if o.Err? || |o.value.rndA| != 16 then CardStep(Err(Auth), Answer(0xAE, []), Reset(k))
    else
      var ti' := if scheme.first then ti else k.ti;
      var t := if lrp then
                 var chain := LrpTi(k.p, SessionKeyLrp(k.p, key, o.value.rndA, rndB), ti + caps, true).1[..4];
                 LrpSession(k, keyNo, key, scheme.first, o.value.rndA, rndB, ti', if scheme.first then chain else Zeros(4))
               else Ev2Session(k, keyNo, key, scheme.first, o.value.rndA, rndB, ti');
      CardStep(Ok(o.value.rndA), Answer(S_OK, o.value.answer), t)
  }

  /** Both sides go through an authentication with the same key. */
  function Both(scheme: Scheme, keyNo: byte, key: Key, rndA: Bytes, rndB: Bytes, ti: Bytes, caps: Bytes,
                reader: Session, card: Session): Pair
    requires !scheme.Legacy? && |rndA| == |rndB| == 16 && |ti| == 4 && |caps| == 12
  {
    hide Reply, Finish, Challenge, Admits;
    var m := Reply(reader.p, scheme, key, Challenge(card, scheme, key, rndB), rndA);
    if m.Err? then Pair(reader, card, Err(m.error), Err(m.error))
    else
      var c := Admits(card, scheme, keyNo, key, rndB, ti, caps, m.value.send);
      var f := Finish(reader, keyNo, scheme, key, rndA, m.value, c.answer);
      Pair(f.session, c.session, c.heard, f.result)
  }

  /** A command from Begin to End, with the card between. An answer that does not
      fit the reader's buffer has been given all the same. */
  function Exchanged(st: Pair, cmd: byte, data: Bytes, tx: Mode, rx: Mode, cap: nat, v: Verdict): Pair {
    hide Begin, Answers, Arrived, Fitting;
    var b := Begin(st.reader, cmd, data, tx, rx);
    if b.result.Err? then Pair(b.session, st.card, b.result, b.result)
    else
      var c := Answers(st.card, cmd, b.result.value, tx, v);
      var e := Arrived(b.session, Fitting(c.answer), rx, cap);
      Pair(e.session, c.session, c.heard, e.result)
  }

  predicate WellFormed(e: Event) {
    match e
    case First(_, _, key, rndA, rndB, ti, caps) =>
      key.kind.AES128? && |rndA| == |rndB| == 16 && |ti| == 4 && |caps| == 12
    case NonFirst(_, key, rndA, rndB) => key.kind.AES128? && |rndA| == |rndB| == 16
    case _ => true
  }

  function After(st: Pair, e: Event): Pair
    requires WellFormed(e)
  {
    hide Both, Exchanged, Reset;
    match e
    case First(lrp, keyNo, key, rndA, rndB, ti, caps) =>
      Both(if lrp then LrpAuth(true) else Ev2(true), keyNo, key, rndA, rndB, ti, caps, Reset(st.reader), Reset(st.card))
    case NonFirst(keyNo, key, rndA, rndB) =>
      if !st.reader.authenticated then st.(returned := Err(Auth))
      else if !OnEv2(st.reader) then st.(returned := Err(Unsupported))
      else
        Both(if st.reader.channel == LRP then LrpAuth(false) else Ev2(false), keyNo, key, rndA, rndB,
             Zeros(4), Zeros(12), st.reader, st.card)
    case Command(cmd, data, tx, rx, cap, v) => Exchanged(st, cmd, data, tx, rx, cap, v)
    case Select(aid, v) =>
      if aid >= 0x1000000 then st.(returned := Err(Length))
      else
        var data := U24(aid);
        Exchanged(st.(reader := Reset(st.reader), card := Reset(st.card)), 0x5A, data, Plain, Plain, 8, v)
    case ResetChannel => st.(reader := Reset(st.reader), returned := Ok([]))
  }

  /** All states of a run. */
  function Run(st: Pair, events: seq<Event>): (r: seq<Pair>)
    requires forall e <- events :: WellFormed(e)
    ensures |r| == |events| + 1
    decreases |events|
  {
    hide After, WellFormed;
    if events == [] then [st] else [st] + Run(After(st, events[0]), events[1..])
  }

  //--------------------------------------------------------------------------
  // the invariant
  //--------------------------------------------------------------------------

  ghost predicate InStep(st: Pair) {
    && st.reader.p == st.card.p && !st.reader.macMismatch
    && (st.reader.authenticated ==> st.card.authenticated && !st.reader.lost && OnEv2(st.reader) && Agree(st.reader, st.card))
    && (!st.reader.authenticated ==> st.reader.channel == NoChannel)
  }

  /** Reader and card use the same protection for an answer. On EV2 it is enough
      that a MAC is sent when one is expected. */
  predicate Mirrored(channel: Channel, rx: Mode, comm: Mode) {
    if rx.Plain? || rx.EncPlain? then channel == LRP ==> comm.Plain? || comm.Mac?
    else !comm.Plain? && (channel == LRP ==> (comm.Mac? <==> rx.Mac?))
  }

  /** An honest card refuses with an error status and answers in the mode the
      reader expects. */
  predicate Proper(channel: Channel, rx: Mode, v: Verdict) {
    if v.Refuse? then StatusEndsSession(v.status)
    else (v.status == S_OK || v.status == S_SIGNATURE) && Mirrored(channel, rx, v.comm)
  }

  /** How long the answer to an accepted command is, whatever the session. */
  function AnswerLength(comm: Mode, payload: Bytes): nat {
    if comm.Plain? then |payload| else (if comm.Mac? then |payload| else Cmac.RoundUp(|payload| + 1, 16)) + 8
  }

  /** It fits the reader's buffer. */
  predicate Fits(v: Verdict) {
    v.Accept? ==> AnswerLength(v.comm, v.payload) <= MAX_RESPONSE
  }

  predicate Honest(channel: Channel, e: Event) {
    e.Command? ==> Proper(channel, e.rx, e.verdict) && Fits(e.verdict)
  }

  predicate AllHonest(st: Pair, events: seq<Event>)
    requires forall e <- events :: WellFormed(e)
    decreases |events|
  {
    hide After, Honest;
    events == [] || (Honest(st.reader.channel, events[0]) && AllHonest(After(st, events[0]), events[1..]))
  }

  //--------------------------------------------------------------------------
  // authentications
  //--------------------------------------------------------------------------

  lemma Ev2SessionsAgree(r: Session, k: Session, keyNo: byte, key: Key, first: bool, a: Bytes, b: Bytes, ti: Bytes)
    requires |a| == |b| == 16 && |ti| == 4
    requires r.p == k.p && r.enc == k.enc && r.mac == k.mac && (first || (r.ti == k.ti && r.ctr == k.ctr))
    ensures Agree(Ev2Session(r, keyNo, key, first, a, b, ti), Ev2Session(k, keyNo, key, first, a, b, ti))
    ensures var t := Ev2Session(r, keyNo, key, first, a, b, ti);
            t.authenticated && t.channel == EV2 && t.p == r.p && t.macMismatch == r.macMismatch && t.lost == r.lost
  {
    hide SessionKeyEv2, Splice;
  }

  lemma LrpSessionsAgree(r: Session, k: Session, keyNo: byte, key: Key, first: bool, a: Bytes, b: Bytes, ti: Bytes, chain: Bytes)
    requires |a| == |b| == 16 && |ti| == |chain| == 4
    requires r.p == k.p && r.enc == k.enc && r.mac == k.mac && (first || (r.ti == k.ti && r.ctr == k.ctr))
    ensures Agree(LrpSession(r, keyNo, key, first, a, b, ti, chain), LrpSession(k, keyNo, key, first, a, b, ti, chain))
    ensures var t := LrpSession(r, keyNo, key, first, a, b, ti, chain);
            t.authenticated && t.channel == LRP && t.p == r.p && t.macMismatch == r.macMismatch && t.lost == r.lost
  {
    hide SessionKeyLrp, Splice;
  }

  lemma Admitted(k: Session, scheme: Scheme, keyNo: byte, key: Key, rndA: Bytes, rndB: Bytes, ti: Bytes, caps: Bytes, both: Bytes)
    requires !scheme.Legacy? && |rndA| == |rndB| == 16 && |ti| == 4 && |caps| == 12
    requires var o := if scheme.LrpAuth? then LrpOpen(k.p, key, scheme.first, ti, caps, rndB, both)
                      else Ev2Open(k.p, key, scheme.first, ti, caps, rndB, both);
             o.Ok? && o.value.rndA == rndA
    ensures var o := if scheme.LrpAuth? then LrpOpen(k.p, key, scheme.first, ti, caps, rndB, both)
                     else Ev2Open(k.p, key, scheme.first, ti, caps, rndB, both);
            var t := if scheme.first then ti else k.ti;
            var chain := LrpTi(k.p, SessionKeyLrp(k.p, key, rndA, rndB), ti + caps, true).1[..4];
            Admits(k, scheme, keyNo, key, rndB, ti, caps, both)
            == CardStep(Ok(rndA), Answer(S_OK, o.value.answer),
                        if scheme.LrpAuth? then
                          LrpSession(k, keyNo, key, scheme.first, rndA, rndB, t, if scheme.first then chain else Zeros(4))
                        else Ev2Session(k, keyNo, key, scheme.first, rndA, rndB, t))
  {
    hide Ev2Open, LrpOpen, Ev2Session, LrpSession, LrpTi, SessionKeyLrp, Reset;
  }

  /** Every authentication with the same key succeeds on both sides and leaves
      them in the same session. */
  lemma BothAgree(scheme: Scheme, keyNo: byte, key: Key, rndA: Bytes, rndB: Bytes, ti: Bytes, caps: Bytes,
                  r: Session, k: Session)
    requires !scheme.Legacy? && |rndA| == |rndB| == 16 && |ti| == 4 && |caps| == 12
    requires r.p == k.p && r.enc == k.enc && r.mac == k.mac && !r.macMismatch && !r.lost
    requires scheme.first || (r.ti == k.ti && r.ctr == k.ctr)
    ensures var st := Both(scheme, keyNo, key, rndA, rndB, ti, caps, r, k);
            InStep(st) && st.reader.authenticated && st.heard == Ok(rndA) && st.returned == Ok([])
  {
    hide Ev2Reply, LrpReply, Ev2Finish, LrpFinish, Ev2Open, LrpOpen, Ev2Session, LrpSession, Ev2Challenge, LrpTi, SessionKeyLrp,
         Agree, Admits;
    var t := if scheme.first then ti else k.ti;
    if scheme.LrpAuth? {
      LrpAgrees(r, keyNo, key, scheme.first, rndA, rndB, ti, caps);
      var send := LrpReply(r.p, key, Answer(S_ADDITIONAL_FRAME, [0x01] + rndB), rndA).value.send;
      Admitted(k, scheme, keyNo, key, rndA, rndB, ti, caps, send);
      var chain := if scheme.first then LrpTi(k.p, SessionKeyLrp(k.p, key, rndA, rndB), ti + caps, true).1[..4] else Zeros(4);
      LrpSessionsAgree(r, k, keyNo, key, scheme.first, rndA, rndB, t, chain);
      LrpSessionsAgree(k, r, keyNo, key, scheme.first, rndA, rndB, t, chain);
    } else {
      Ev2Agrees(r, keyNo, key, scheme.first, rndA, rndB, ti, caps);
      var send := Ev2Reply(r.p, key, Answer(S_ADDITIONAL_FRAME, Ev2Challenge(r.p, key, rndB)), rndA).value.send;
      Admitted(k, scheme, keyNo, key, rndA, rndB, ti, caps, send);
      Ev2SessionsAgree(r, k, keyNo, key, scheme.first, rndA, rndB, t);
      Ev2SessionsAgree(k, r, keyNo, key, scheme.first, rndA, rndB, t);
    }
  }

  //--------------------------------------------------------------------------
  // commands
  //--------------------------------------------------------------------------

  /** What the card sends is a body with its MAC unless the mode is plain. */
  lemma Sealed(k: Session, comm: Mode, payload: Bytes)
    ensures var a := SealEv2(k, comm, payload);
            var e := Ev2Crypt(Next(k), false, Padded2(payload), true);
            var body := if comm.Plain? || comm.Mac? then payload else e.0;
            && a.0 == (if comm.Plain? then body else body + Ev2Mac(Next(k), 0x00, body))
            && a.1 == (if comm.Plain? || comm.Mac? then k else k.(iv := e.1.iv))
    ensures k.channel == EV2 ==> SealEv2(k, comm, payload).1 == k
  {
    hide Ev2Mac, Ev2Crypt, Padded2;
    Ev2KeepsIv(Next(k), false, Padded2(payload), true);
  }

  /** Decoding an honest answer keeps the two sides together, whatever it does
      with the payload, and never reports a wrong MAC. */
  lemma AnswerKeeps(r: Session, k: Session, comm: Mode, payload: Bytes, cap: nat)
    requires OnEv2(r) && Agree(r, Next(k)) && Mirrored(r.channel, r.mode, comm)
    ensures var a, d := SealEv2(k, comm, payload), DecodeEv2(r, SealEv2(k, comm, payload).0, cap).session;
            d == WithIvBuffer(r, a.1.iv) && a.1 == WithIvBuffer(k, a.1.iv)
  {
    Sealed(k, comm, payload);
    SameIv(r);
    SameIv(k);
    if r.mode.Plain? || r.mode.EncPlain? {
      hide SealEv2, Ev2Mac, Ev2Crypt, Padded2, Copied;
    } else if r.channel == LRP && !comm.Mac? {
      SameSeal(k, comm, r.mode, payload);
      AnswerEnciphered(r, k, payload, cap);
      hide SealEv2, DecodeEv2, Ev2Mac, Ev2Crypt, Padded2;
    } else {
      var body := if comm.Mac? then payload else Ev2Crypt(Next(k), false, Padded2(payload), true).0;
      DecodeSealed(r, Next(k), body, cap);
      BodyKeeps(r, body, cap);
      hide SealEv2, DecodeEv2, Ev2Mac, Ev2Crypt, Padded2, DecodeBody;
    }
  }

  lemma SameSeal(k: Session, a: Mode, b: Mode, payload: Bytes)
    requires !a.Plain? && !a.Mac? && !b.Plain? && !b.Mac?
    ensures SealEv2(k, a, payload) == SealEv2(k, b, payload)
  {}

  /** On EV2 the IV is derived for each message; nothing is kept. */
  lemma Ev2KeepsIv(s: Session, forCommand: bool, data: Bytes, encrypt: bool)
    requires |data| % 16 == 0
    ensures s.channel == EV2 ==> Ev2Crypt(s, forCommand, data, encrypt).1 == s
  {
    hide Cbc.Crypt, Lrp.Crypt, Ev2Iv;
  }

  lemma BodyKeeps(r: Session, body: Bytes, cap: nat)
    requires r.channel == EV2 || r.mode.Mac?
    ensures DecodeBody(r, body, cap).session == r
  {
    hide Ev2Crypt, Copied, Unpadded2;
    if |body| % 16 == 0 {
      Ev2KeepsIv(r, false, body, false);
    }
  }

  /** The reader's session behind a successful request: the IV moved on, the
      rest of what the two sides share is untouched. */
  lemma RequestKeeps(r: Session, k: Session, cmd: byte, data: Bytes, tx: Mode, rx: Mode)
    requires r.authenticated && OnEv2(r) && Agree(r, k) && !r.lost
    ensures var b := Begin(r, cmd, data, tx, rx);
            && Gate.SameSession(b.session, r) && !b.session.macMismatch
            && (b.result.Err? ==> b.session.iv == r.iv)
            && (b.result.Ok? ==> OpenEv2(k, cmd, b.result.value, tx)
                                 == Outcome(Ok(data), WithIvBuffer(k, b.session.iv)))
  {
    hide EncodeEv2, OpenEv2, WithIvBuffer, HeaderLength, Ev2Body;
    Gate.BeginKeeps(r, cmd, data, tx, rx);
    var t := r.(mode := tx, macMismatch := false);
    t := t.(lastCmd := cmd, lastZeroLen := |data| <= HeaderLength(cmd, |data|));
    Gate.EncodeEv2Sessions(t, cmd, data, MAX_RESPONSE);
    if EncodeEv2(t, cmd, data, MAX_RESPONSE).result.Ok? {
      RequestRoundTrip(t, k, cmd, data, MAX_RESPONSE);
    }
  }

  lemma NextKeeps(r: Session)
    ensures var t := Next(r);
            && t.channel == r.channel && t.authenticated == r.authenticated && t.mode == r.mode
            && t.macMismatch == r.macMismatch && t.iv == r.iv && t.lost == r.lost
    ensures forall k: Session | Agree(r, k) :: Agree(Next(r), Next(k))
  {}

  lemma NextCommutes(k: Session, iv: Bytes)
    requires |iv| == 16
    ensures Next(WithIvBuffer(k, iv)) == WithIvBuffer(Next(k), iv)
  {}

  lemma EndOnSuccess(r: Session, a: Answer, rx: Mode, cap: nat)
    requires OnEv2(r) && r.authenticated && (a.status == S_OK || a.status == S_SIGNATURE)
    ensures End(r, a, rx, cap) == DecodeEv2(Next(r).(mode := rx), a.data, cap)
  {
    hide DecodeEv2, DecodeEv1, DecodeD40, Copied, Reset, Next;
    NextKeeps(r);
  }

  /** An accepted command leaves both sides in step at the next counter. */
  lemma AcceptedInStep(r: Session, k: Session, rx: Mode, cap: nat, v: Verdict)
    requires r.authenticated && k.authenticated && OnEv2(r) && Agree(r, k) && !r.macMismatch && !r.lost
    requires v.Accept? && (v.status == S_OK || v.status == S_SIGNATURE) && Mirrored(r.channel, rx, v.comm)
    ensures var a := SealEv2(k, v.comm, v.payload);
            var e := End(r, Answer(v.status, a.0), rx, cap);
            && Agree(e.session, Next(a.1)) && e.session.authenticated && Next(a.1).authenticated
            && OnEv2(e.session) && !e.session.macMismatch && !e.session.lost
  {
    hide SealEv2, DecodeEv2, End, Mirrored, Next;
    NextKeeps(r);
    var t := Next(r).(mode := rx);
    var a := SealEv2(k, v.comm, v.payload);
    EndOnSuccess(r, Answer(v.status, a.0), rx, cap);
    AnswerKeeps(t, k, v.comm, v.payload, cap);
    NextKeeps(k);
    NextCommutes(k, a.1.iv);
  }

  lemma SealLength(k: Session, comm: Mode, payload: Bytes)
    ensures |SealEv2(k, comm, payload).0| == AnswerLength(comm, payload)
  {
    hide Ev2Mac, Ev2Crypt;
  }

  /** The parts of a command the card could open, put together. */
  lemma ExchangedParts(st: Pair, cmd: byte, data: Bytes, tx: Mode, rx: Mode, cap: nat, v: Verdict, k: Session)
    requires st.card.authenticated
    requires var b := Begin(st.reader, cmd, data, tx, rx);
             b.result.Ok? && OpenEv2(st.card, cmd, b.result.value, tx) == Outcome(Ok(data), k)
    ensures var b, a := Begin(st.reader, cmd, data, tx, rx), if v.Accept? then SealEv2(k, v.comm, v.payload) else ([], k);
            var e := if Fits(v) then End(b.session, Answer(v.status, a.0), rx, cap) else Outcome(Err(Length), b.session);
            Exchanged(st, cmd, data, tx, rx, cap, v)
            == Pair(e.session, if v.Accept? then Next(a.1) else Reset(st.card), Ok(data), e.result)
  {
    hide Begin, OpenEv2, SealEv2, End, Reset, Next, AnswerLength;
    if v.Accept? {
      SealLength(k, v.comm, v.payload);
    }
  }

  lemma BothDropped(r: Session, k: Session, heard: Result<Bytes>, returned: Result<Bytes>)
    requires r.p == k.p && !r.macMismatch
    ensures InStep(Pair(Reset(r).(lost := true), Reset(k), heard, returned))
  {}

  lemma StillInStep(r: Session, k: Session, heard: Result<Bytes>, returned: Result<Bytes>)
    requires Agree(r, k) && r.authenticated && k.authenticated && OnEv2(r) && !r.macMismatch && !r.lost
    ensures InStep(Pair(r, k, heard, returned))
  {}

  lemma NotSent(st: Pair, b: Outcome)
    requires InStep(st) && st.reader.authenticated && b.result.Err?
    requires Gate.SameSession(b.session, st.reader) && !b.session.macMismatch && b.session.iv == st.reader.iv
    ensures InStep(Pair(b.session, st.card, b.result, b.result))
  {}

  lemma Moved(r: Session, b: Session, k: Session)
    requires Gate.SameSession(b, r) && Agree(r, k)
    ensures Agree(b, WithIvBuffer(k, b.iv)) && b.p == k.p
  {}

  /** The counter the card answered at is one the reader never reached. */
  lemma OneBehind(r: Session, k: Session, b: Session, a: Session, comm: Mode, payload: Bytes)
    requires r.authenticated && Gate.SameSession(b, r) && r.ctr == k.ctr && a == SealEv2(k, comm, payload).1
    ensures b.ctr != Next(a).ctr && b.authenticated
  {
    Sealed(k, comm, payload);
    hide SealEv2, Ev2Crypt, Ev2Mac, Padded2;
  }

  /** A request whose MAC is wrong is not heard, and ends the card's session. */
  lemma ForgedIsDropped(k: Session, cmd: byte, wire: Bytes, mode: Mode, v: Verdict)
    requires k.authenticated && !mode.Plain? && |wire| >= 8 && wire[|wire| - 8..] != Ev2Mac(k, cmd, wire[..|wire| - 8])
    ensures Answers(k, cmd, wire, mode, v) == CardStep(Err(Error.Crypto), Answer(0x1E, []), Reset(k))
  {
    hide Ev2Mac, OpenBody, Reset;
  }

  /** A command keeps the two sides in step exactly if its answer fits the
      reader's buffer, or there is none: beyond it the card has carried the
      command out and counted it, while the reader reports a length error and
      stays at the old counter. Whatever the answer, the card's application got
      exactly the payload. */
  lemma CommandInStep(st: Pair, cmd: byte, data: Bytes, tx: Mode, rx: Mode, cap: nat, v: Verdict)
    requires InStep(st) && st.reader.authenticated && Proper(st.reader.channel, rx, v)
    ensures var b, u := Begin(st.reader, cmd, data, tx, rx), Exchanged(st, cmd, data, tx, rx, cap, v);
            && (InStep(u) <==> (b.result.Ok? ==> Fits(v)))
            && (b.result.Ok? ==> u.heard == Ok(data))
            && (b.result.Ok? && !Fits(v) ==>
                  && u.returned == Err(Length) && u.reader.authenticated && u.reader.ctr == st.reader.ctr
                  && u.card.ctr == Counted(st.reader.ctr))
            && (b.result.Ok? && v.Refuse? ==>
                  && u.returned == Err(Error.Card) && u.reader == Reset(b.session).(lost := true) && u.card == Reset(st.card))
  {
    hide Begin, End, SealEv2, OpenEv2, Mirrored, Reset, Next, AnswerLength;
    RequestKeeps(st.reader, st.card, cmd, data, tx, rx);
    var b := Begin(st.reader, cmd, data, tx, rx);
    if b.result.Ok? {
      var k := WithIvBuffer(st.card, b.session.iv);
      Moved(st.reader, b.session, st.card);
      ExchangedParts(st, cmd, data, tx, rx, cap, v, k);
      hide Exchanged;
      if !v.Accept? {
        EndOnRefusal(b.session, Answer(v.status, []), rx, cap);
        BothDropped(b.session, st.card, Ok(data), Err(Error.Card));
      } else {
        var a := SealEv2(k, v.comm, v.payload);
        if Fits(v) {
          AcceptedInStep(b.session, k, rx, cap, v);
          StillInStep(End(b.session, Answer(v.status, a.0), rx, cap).session, Next(a.1), Ok(data),
                      End(b.session, Answer(v.status, a.0), rx, cap).result);
        } else {
          OneBehind(st.reader, k, b.session, a.1, v.comm, v.payload);
          CardCounted(k, v.comm, v.payload);
        }
      }
    } else {
      NotSent(st, b);
    }
  }

  lemma CardCounted(k: Session, comm: Mode, payload: Bytes)
    ensures Next(SealEv2(k, comm, payload).1).ctr == Counted(k.ctr)
  {
    Sealed(k, comm, payload);
    hide SealEv2, Ev2Crypt, Ev2Mac, Padded2, Counted;
  }

  /** Such a command: a plain read of 4097 bytes, accepted by the card. */
  lemma TooLongToFollow(st: Pair, cmd: byte, cap: nat)
    requires InStep(st) && st.reader.authenticated && st.reader.channel == EV2
    ensures var v := Accept(S_OK, Plain, Zeros(MAX_RESPONSE + 1));
            && Proper(EV2, Plain, v) && !Fits(v)
            && !InStep(Exchanged(st, cmd, [], Plain, Plain, cap, v))
  {
    hide Begin, Exchanged;
    var v := Accept(S_OK, Plain, Zeros(MAX_RESPONSE + 1));
    CommandInStep(st, cmd, [], Plain, Plain, cap, v);
    PlainGoesOut(st.reader, cmd);
  }

  lemma PlainGoesOut(r: Session, cmd: byte)
    requires r.channel == EV2
    ensures Begin(r, cmd, [], Plain, Plain).result.Ok?
  {
    hide HeaderLength, Ev2Mac, Ev2Body;
  }

  //--------------------------------------------------------------------------
  // runs
  //--------------------------------------------------------------------------

  /** Without a session nothing is checked and nothing can go out of step. */
  lemma PlainInStep(st: Pair, cmd: byte, data: Bytes, tx: Mode, rx: Mode, cap: nat, v: Verdict)
    requires InStep(st) && !st.reader.authenticated
    ensures InStep(Exchanged(st, cmd, data, tx, rx, cap, v))
  {
    hide OpenEv2, SealEv2, Next, HeaderLength, Copied, Answers, Fitting;
    CardKeepsPrimitives(st.card, cmd, Begin(st.reader, cmd, data, tx, rx), tx, v);
  }

  lemma CardKeepsPrimitives(k: Session, cmd: byte, b: Outcome, mode: Mode, v: Verdict)
    ensures b.result.Ok? ==> Answers(k, cmd, b.result.value, mode, v).session.p == k.p
  {
    hide OpenEv2, SealEv2, Padded2, Ev2Crypt, Ev2Mac;
    if b.result.Ok? && v.Accept? {
      Sealed(OpenEv2(k, cmd, b.result.value, mode).session, v.comm, v.payload);
    }
  }

  lemma StepInStep(st: Pair, e: Event)
    requires WellFormed(e) && InStep(st) && Honest(st.reader.channel, e)
    ensures InStep(After(st, e))
  {
    hide Both, Exchanged;
    match e
    case First(lrp, keyNo, key, rndA, rndB, ti, caps) =>
      BothAgree(if lrp then LrpAuth(true) else Ev2(true), keyNo, key, rndA, rndB, ti, caps, Reset(st.reader), Reset(st.card));
    case NonFirst(keyNo, key, rndA, rndB) =>
      if st.reader.authenticated {
        BothAgree(if st.reader.channel == LRP then LrpAuth(false) else Ev2(false), keyNo, key, rndA, rndB,
                  Zeros(4), Zeros(12), st.reader, st.card);
      }
    case Command(cmd, data, tx, rx, cap, v) =>
      if st.reader.authenticated {
        CommandInStep(st, cmd, data, tx, rx, cap, v);
      } else {
        PlainInStep(st, cmd, data, tx, rx, cap, v);
      }
    case Select(aid, v) =>
      if aid < 0x1000000 {
        var data := U24(aid);
        PlainInStep(st.(reader := Reset(st.reader), card := Reset(st.card)), 0x5A, data, Plain, Plain, 8, v);
      }
    case ResetChannel =>
  }

  /** In every run against an honest card, at every moment: if the reader is
      authenticated, the card is too, with the same TI, session keys, IV and
      counter; and no answer's MAC has been rejected. */
  lemma {:induction false} AlwaysInStep(st: Pair, events: seq<Event>)
    requires forall e <- events :: WellFormed(e)
    requires InStep(st) && AllHonest(st, events)
    ensures forall i | 0 <= i <= |events| :: InStep(Run(st, events)[i])
    decreases |events|
  {
    hide After, WellFormed, InStep, Honest;
    if events != [] {
      StepInStep(st, events[0]);
      AlwaysInStep(After(st, events[0]), events[1..]);
      var rest := Run(After(st, events[0]), events[1..]);
      assert Run(st, events)[1..] == rest;
      forall i | 0 <= i <= |events| ensures InStep(Run(st, events)[i]) {
        if i > 0 {
          assert Run(st, events)[i] == rest[i - 1];
        }
      }
    }
  }

  /** What the two applications exchange in step: the card's gets the payload;
      the reader's gets the answer, except that an enciphered empty answer is
      reported as an error. */
  lemma Conveyed(st: Pair, cmd: byte, data: Bytes, tx: Mode, rx: Mode, cap: nat, v: Verdict)
    requires InStep(st) && st.reader.authenticated && !rx.EncPlain?
    requires v.Accept? && v.comm == rx && (v.status == S_OK || v.status == S_SIGNATURE) && Fits(v)
    requires Begin(st.reader, cmd, data, tx, rx).result.Ok?
    ensures var u := Exchanged(st, cmd, data, tx, rx, cap, v);
            && u.heard == Ok(data)
            && u.returned == if (rx.Enc? || rx.EncPadded?) && v.payload == [] then Err(Error.Crypto)
                             else Copied(v.payload, cap)
  {
    hide Begin, SealEv2, OpenEv2, Next, DecodeEv2, Copied, End, Exchanged, AnswerLength;
    RequestKeeps(st.reader, st.card, cmd, data, tx, rx);
    var b := Begin(st.reader, cmd, data, tx, rx);
    var k := WithIvBuffer(st.card, b.session.iv);
    var t := Next(b.session).(mode := rx);
    NextKeeps(b.session);
    ExchangedParts(st, cmd, data, tx, rx, cap, v, k);
    EndOnSuccess(b.session, Answer(v.status, SealEv2(k, rx, v.payload).0), rx, cap);
    AnswerRoundTrip(t, k, v.payload, cap);
  }
}
