/** EV1 sessions against an honest card: one CMAC chain runs through every
    command and every answer, and the two sides stay on it over every run. */
module Ev1Lockstep {
  import opened ByteStrings
  import opened Results
  import opened Ciphers
  import opened Sessions
  import opened Codecs
  import opened Framing
  import opened Handshakes
  import opened Exchanges
  import opened Peer
  import opened PeerLegacy
  import Gate
  import Cbc
  import Cmac

  /** One command and what the card answers. An error status is a refusal. */
  datatype Trade = Trade(cmd: byte, data: Bytes, tx: Mode, rx: Mode, cap: nat, payload: Bytes, status: byte)

  datatype Event = Login(keyNo: byte, key: Key, rndA: Bytes, rndB: Bytes) | Command(trade: Trade) | ResetChannel

  datatype Sides = Sides(reader: Session, card: Session, heard: Result<Bytes>, returned: Result<Bytes>)

  /** The payload the card's application sees, the answer, and the session. */
  datatype CardStep = CardStep(heard: Result<Bytes>, answer: Answer, session: Session)

  /** The card's second message of the handshake. */
  function Admits(k: Session, keyNo: byte, key: Key, chain: Bytes, rndB: Bytes, both: Bytes): CardStep
    requires |rndB| == NonceLength(key.kind) && |chain| == Block(KeyCipher(k.p, key))
  {
    hide LegacyAdmits;
    var a := LegacyAdmits(k, keyNo, key, false, chain, rndB, both);
    CardStep(a.heard, a.answer, a.session)
  }

  /** The three messages of the EV1 handshake between the two sides. */
  function LoggedIn(st: Sides, keyNo: byte, key: Key, rndA: Bytes, rndB: Bytes): Sides
    requires |rndA| == |rndB| == NonceLength(key.kind)
  {
    hide LegacyChallenge, LegacyReply, LegacyFinish, Admits, Reset;
    var r, k := Reset(st.reader), Reset(st.card);
    var ch := LegacyChallenge(k.p, key, rndB);
    var m := LegacyReply(r.p, key, false, Answer(S_ADDITIONAL_FRAME, ch.0), rndA);
    if m.Err? then Sides(r, k, Err(m.error), Err(m.error))
    else
      var c := Admits(k, keyNo, key, ch.1, rndB, m.value.send);
      var f := LegacyFinish(r, keyNo, key, false, rndA, m.value, c.answer);
      Sides(f.session, c.session, c.heard, f.result)
  }

  /** The card opens the request, moves on along the chain and answers with a
      MAC; an error answer drops its session. */
  function Answers(k: Session, wire: Bytes, t: Trade): (c: CardStep)
    ensures c.session.p == k.p
  {
    hide OpenEv1, SealEv1, StatusEndsSession;
    if !k.authenticated then
      CardStep(Ok(wire), Answer(t.status, if StatusEndsSession(t.status) then [] else t.payload), k)
    else
      var o := OpenEv1(k.(mode := t.tx), t.cmd, wire, |t.data|);
      if o.result.Err? then CardStep(o.result, Answer(0x1E, []), Reset(k))   // INTEGRITY_ERROR
      else if StatusEndsSession(t.status) then CardStep(o.result, Answer(t.status, []), Reset(k))
      else
        var a := SealEv1(o.session, t.payload, t.status);
        CardStep(o.result, Answer(t.status, a.0), a.1)
  }

  /** A command from Begin to End, with the card between. An answer that does not
      fit the reader's buffer has been given all the same. */
  function Traded(st: Sides, t: Trade): Sides {
    hide Begin, Answers, Arrived, Fitting;
    var b := Begin(st.reader, t.cmd, t.data, t.tx, t.rx);
    if b.result.Err? then Sides(b.session, st.card, b.result, b.result)
    else
      var c := Answers(st.card, b.result.value, t);
      var e := Arrived(b.session, Fitting(c.answer), t.rx, t.cap);
      Sides(e.session, c.session, c.heard, e.result)
  }

  predicate WellFormed(e: Event) {
    e.Login? ==> |e.rndA| == |e.rndB| == NonceLength(e.key.kind)
  }

  /** The answer takes the CMAC path and is no chained part. */
  predicate MacedAnswer(t: Trade) {
    && t.status != S_ADDITIONAL_FRAME
    && (t.rx.Plain? || t.rx.Mac? || (t.rx.Enc? && |t.data| > HeaderLength(t.cmd, |t.data|)))
  }

  /** The request fits the frame buffer, but not with the MAC it has to carry. */
  predicate TooLongByMac(t: Trade) {
    t.tx.Mac? && TransmitsMac(EV1, t.cmd) && |t.data| <= MAX_RESPONSE < |t.data| + 8
  }

  /** The answer with its MAC fits the reader's buffer; a refusal is bare. */
  predicate AnswerFits(t: Trade) {
    StatusEndsSession(t.status) || |t.payload| + 8 <= MAX_RESPONSE
  }

  /** The commands the chain is claimed for. */
  predicate OnChain(t: Trade) {
    MacedAnswer(t) && !TooLongByMac(t) && AnswerFits(t)
  }

  function After(st: Sides, e: Event): Sides
    requires WellFormed(e)
  {
    hide LoggedIn, Traded, Reset;
    match e
    case Login(keyNo, key, rndA, rndB) => LoggedIn(st, keyNo, key, rndA, rndB)
    case Command(t) => Traded(st, t)
    case ResetChannel => st.(reader := Reset(st.reader), returned := Ok([]))
  }

  function Run(st: Sides, events: seq<Event>): (r: seq<Sides>)
    requires forall e <- events :: WellFormed(e)
    ensures |r| == |events| + 1
    decreases |events|
  {
    hide After, WellFormed;
    if events == [] then [st] else [st] + Run(After(st, events[0]), events[1..])
  }

  ghost predicate InStep(st: Sides) {
    && st.reader.p == st.card.p && !st.reader.macMismatch
    && (st.reader.authenticated ==>
          st.card.authenticated && !st.reader.lost && st.reader.channel == EV1 && Agree(st.reader, st.card))
    && (!st.reader.authenticated ==> st.reader.channel == NoChannel)
  }

  //--------------------------------------------------------------------------
  // the steps
  //--------------------------------------------------------------------------

  lemma EnterAgrees(r: Session, k: Session, kind: KeyType, keyNo: byte, s: Bytes)
    requires |s| <= 32 && r.p == k.p && !r.macMismatch
    ensures InStep(Sides(Enter(Reset(r), EV1, kind, keyNo, s, s), Enter(Reset(k), EV1, kind, keyNo, s, s), Ok([]), Ok([])))
    ensures Enter(Reset(r), EV1, kind, keyNo, s, s).authenticated
  {
    hide Splice;
  }

  lemma ResetKeeps(s: Session)
    ensures Reset(s).p == s.p
  {}

  lemma LoginInStep(st: Sides, keyNo: byte, key: Key, rndA: Bytes, rndB: Bytes)
    requires |rndA| == |rndB| == NonceLength(key.kind) && InStep(st)
    ensures var u := LoggedIn(st, keyNo, key, rndA, rndB);
            InStep(u) && u.reader.authenticated && u.heard == Ok(rndA) && u.returned == Ok([])
  {
    hide LegacyChallenge, LegacyReply, LegacyAdmits, LegacyFinish, LegacyKey, Enter, Reset;
    ResetKeeps(st.card);
    ResetKeeps(st.reader);
    LegacyAgrees(Reset(st.reader), Reset(st.card), keyNo, key, false, rndA, rndB);
    EnterAgrees(st.reader, st.card, key.kind, keyNo, LegacyKey(key, rndA, rndB));
  }

  /** The session encode_ev1 is called on. */
  function Prepared(r: Session, t: Trade): Session {
    r.(mode := t.tx, macMismatch := false).(lastCmd := t.cmd, lastZeroLen := |t.data| <= HeaderLength(t.cmd, |t.data|))
  }

  lemma BeginEncodes(r: Session, t: Trade)
    requires r.channel == EV1 && !r.lost
    ensures Begin(r, t.cmd, t.data, t.tx, t.rx) == EncodeEv1(Prepared(r, t), t.cmd, t.data, MAX_RESPONSE)
  {
    hide EncodeEv1, EncodeEv2, EncodeD40, HeaderLength;
  }

  lemma PreparedAgrees(r: Session, k: Session, t: Trade)
    requires Agree(r, k)
    ensures var s := Prepared(r, t);
            && Agree(s, k.(mode := t.tx)) && s.mode == t.tx && s.channel == r.channel && !s.macMismatch && s.iv == r.iv
            && s.lastZeroLen == (|t.data| <= HeaderLength(t.cmd, |t.data|))
  {
    hide HeaderLength;
  }

  /** Where a request that is not sent leaves the reader's chain: where it was,
      but for one that is too long by its MAC, which has moved it. */
  function Unsent(r: Session, t: Trade): Bytes {
    hide Ev1Mac, TooLongByMac;
    if TooLongByMac(t) then WithIv(r, Ev1Mac(r, [t.cmd] + t.data)).iv else r.iv
  }

  lemma SameMac(r: Session, t: Trade)
    ensures var s := Prepared(r, t); Ev1Mac(s, [t.cmd] + t.data) == Ev1Mac(r, [t.cmd] + t.data) && s.iv == r.iv
  {
    hide Cmac.MacOf, HeaderLength;
  }

  lemma SameSplice(r: Session, s: Session, v: Bytes)
    requires r.iv == s.iv && |v| <= 16
    ensures WithIv(r, v).iv == WithIv(s, v).iv
  {
    hide Splice;
  }

  /** The reader's session behind a request: the card opens it to the payload
      and both chains stand at the same value. */
  lemma RequestKeeps(r: Session, k: Session, t: Trade)
    requires r.authenticated && r.channel == EV1 && Agree(r, k) && !r.lost
    ensures var b := Begin(r, t.cmd, t.data, t.tx, t.rx);
            && Gate.SameSession(b.session, r) && !b.session.macMismatch
            && b.session.lastZeroLen == (|t.data| <= HeaderLength(t.cmd, |t.data|))
            && (b.result.Err? ==> b.session.iv == Unsent(r, t))
            && (b.result.Ok? ==> OpenEv1(k.(mode := t.tx), t.cmd, b.result.value, |t.data|)
                                 == Outcome(Ok(t.data), WithIvBuffer(k.(mode := t.tx), b.session.iv)))
  {
    hide Begin, EncodeEv1, OpenEv1, WithIvBuffer, HeaderLength, Prepared, Agree, Gate.SameSession, TransmitsMac, Ev1Mac, WithIv;
    Gate.BeginKeeps(r, t.cmd, t.data, t.tx, t.rx);
    BeginEncodes(r, t);
    PreparedAgrees(r, k, t);
    var s := Prepared(r, t);
    EncodeEv1Keeps(s, t.cmd, t.data, MAX_RESPONSE);
    SameMac(r, t);
    SameSplice(r, s, Ev1Mac(r, [t.cmd] + t.data));
    if EncodeEv1(s, t.cmd, t.data, MAX_RESPONSE).result.Ok? {
      Ev1RequestRoundTrip(s, k.(mode := t.tx), t.cmd, t.data, MAX_RESPONSE);
    }
  }

  lemma EncodeEv1Keeps(s: Session, cmd: byte, src: Bytes, cap: nat)
    requires s.channel == EV1
    ensures var e := EncodeEv1(s, cmd, src, cap);
            && e.session.macMismatch == s.macMismatch && e.session.lastZeroLen == s.lastZeroLen
            && (e.result.Err? ==>
                  e.session.iv == if s.mode.Mac? && TransmitsMac(EV1, cmd) && |src| <= cap < |src| + 8
                                  then WithIv(s, Ev1Mac(s, [cmd] + src)).iv else s.iv)
  {
    hide Ev1Mac, Ev1Plain, Ev1Cipher, TransmitsMac, HeaderLength, Splice;
    Gate.EncodeEv1Sessions(s, cmd, src, cap);
  }

  lemma EndOnSuccess(r: Session, a: Answer, rx: Mode, cap: nat)
    requires r.channel == EV1 && !StatusEndsSession(a.status)
    ensures End(r, a, rx, cap) == DecodeEv1(r.(mode := rx), a.data, a.status, cap)
  {
    hide DecodeEv1, DecodeEv2, DecodeD40, Copied, Next, Reset;
  }

  /** A carried out command leaves both sides on the chain, and its answer is
      returned whole. */
  lemma AnswerKeeps(r: Session, k: Session, rx: Mode, cap: nat, payload: Bytes, status: byte)
    requires r.channel == EV1 && !StatusEndsSession(status) && Agree(r, k)
    requires rx.Plain? || rx.Mac? || (rx.Enc? && !r.lastZeroLen)
    ensures var a := SealEv1(k, payload, status);
            End(r, Answer(status, a.0), rx, cap) == Outcome(Copied(payload, cap), WithIvBuffer(r.(mode := rx), a.1.iv))
  {
    hide End, SealEv1, DecodeEv1, Copied, WithIvBuffer;
    EndOnSuccess(r, Answer(status, SealEv1(k, payload, status).0), rx, cap);
    Ev1AnswerRoundTrip(r.(mode := rx), k, payload, status, cap);
  }

  ghost predicate OnEv1(r: Session, k: Session) {
    r.authenticated && k.authenticated && !r.lost && r.channel == EV1 && Agree(r, k)
  }

  lemma MovedOn(r: Session, b: Session, k: Session, tx: Mode, rx: Mode, v: Bytes, w: Bytes)
    requires OnEv1(r, k) && Gate.SameSession(b, r) && !b.macMismatch && |v| == |w| == 16 && b.iv == v
    ensures b.channel == EV1 && Agree(b, WithIvBuffer(k.(mode := tx), v))
    ensures var x, y := WithIvBuffer(b.(mode := rx), w), WithIvBuffer(WithIvBuffer(k.(mode := tx), v), w);
            OnEv1(x, y) && !x.macMismatch && x.p == y.p
  {}

  lemma Accepted(r: Session, b: Session, k: Session, t: Trade)
    requires OnEv1(r, k) && Gate.SameSession(b, r) && !b.macMismatch && MacedAnswer(t) && !StatusEndsSession(t.status)
    requires b.lastZeroLen == (|t.data| <= HeaderLength(t.cmd, |t.data|))
    ensures var a := SealEv1(WithIvBuffer(k.(mode := t.tx), b.iv), t.payload, t.status);
            var e := End(b, Answer(t.status, a.0), t.rx, t.cap);
            && e.result == Copied(t.payload, t.cap)
            && OnEv1(e.session, a.1) && !e.session.macMismatch && e.session.p == a.1.p
  {
    hide SealEv1, End, HeaderLength, Copied, WithIvBuffer, OnEv1, StatusEndsSession;
    var q := WithIvBuffer(k.(mode := t.tx), b.iv);
    var a := SealEv1(q, t.payload, t.status);
    MovedOn(r, b, k, t.tx, t.rx, b.iv, a.1.iv);
    SealKeeps(q, t.payload, t.status);
    AnswerKeeps(b, q, t.rx, t.cap, t.payload, t.status);
  }

  /** The parts of a command the card could open, put together. */
  lemma TradedParts(st: Sides, t: Trade, q: Session)
    requires st.card.authenticated
    requires var b := Begin(st.reader, t.cmd, t.data, t.tx, t.rx);
             b.result.Ok? && OpenEv1(st.card.(mode := t.tx), t.cmd, b.result.value, |t.data|) == Outcome(Ok(t.data), q)
    ensures var b, a := Begin(st.reader, t.cmd, t.data, t.tx, t.rx), SealEv1(q, t.payload, t.status);
            var refused := StatusEndsSession(t.status);
            var e := if AnswerFits(t) then End(b.session, Answer(t.status, if refused then [] else a.0), t.rx, t.cap)
                     else Outcome(Err(Length), b.session);
            Traded(st, t) == Sides(e.session, if refused then Reset(st.card) else a.1, Ok(t.data), e.result)
  {
    hide Begin, OpenEv1, End, Reset, StatusEndsSession, Ev1Mac, WithIv;
  }

  lemma StillInStep(r: Session, k: Session, heard: Result<Bytes>, returned: Result<Bytes>)
    requires OnEv1(r, k) && !r.macMismatch && r.p == k.p
    ensures InStep(Sides(r, k, heard, returned))
  {}

  lemma BothDropped(r: Session, k: Session, heard: Result<Bytes>, returned: Result<Bytes>)
    requires r.p == k.p && !r.macMismatch
    ensures InStep(Sides(Reset(r).(lost := true), Reset(k), heard, returned))
  {}

  /** What an unanswered step needs to be harmless: a MAC that leaves the chain
      where it is. */
  ghost predicate Stands(s: Session, data: Bytes) {
    hide Ev1Mac;
    WithIv(s, Ev1Mac(s, data)).iv == s.iv
  }

  /** A command keeps the two sides in step exactly if its request is not too long
      by its MAC and its answer fits the reader's buffer; or if the one MAC that
      only one side computed happens to equal the chaining value it replaces.
      A command that goes out is opened to exactly the payload, and the reader
      returns the card's answer. */
  lemma TradeInStep(st: Sides, t: Trade)
    requires InStep(st) && st.reader.authenticated && MacedAnswer(t)
    ensures var b, u := Begin(st.reader, t.cmd, t.data, t.tx, t.rx), Traded(st, t);
            && (InStep(u) <==>
                  if b.result.Ok? then
                    AnswerFits(t) || Stands(WithIvBuffer(st.card, b.session.iv), t.payload + [t.status])
                  else !TooLongByMac(t) || Stands(st.reader, [t.cmd] + t.data))
            && (b.result.Ok? ==>
                  && u.heard == Ok(t.data)
                  && u.returned == if !AnswerFits(t) then Err(Length)
                                   else if StatusEndsSession(t.status) then Err(Error.Card) else Copied(t.payload, t.cap))
  {
    var b := Begin(st.reader, t.cmd, t.data, t.tx, t.rx);
    RequestKeeps(st.reader, st.card, t);
    if b.result.Ok? {
      var q := WithIvBuffer(st.card.(mode := t.tx), b.session.iv);
      hide Begin, OpenEv1, SealEv1, End, Copied, HeaderLength, StatusEndsSession, Traded, WithIvBuffer, Reset, TooLongByMac,
           Stands, AnswerFits, MacedAnswer, Unsent;
      TradedParts(st, t, q);
      if !AnswerFits(t) {
        Unheard(st, b.session, t);
      } else if StatusEndsSession(t.status) {
        EndOnRefusal(b.session, Answer(t.status, []), t.rx, t.cap);
        BothDropped(b.session, st.card, Ok(t.data), Err(Error.Card));
      } else {
        Accepted(st.reader, b.session, st.card, t);
        hide OnEv1, InStep;
        var a := SealEv1(q, t.payload, t.status);
        var e := End(b.session, Answer(t.status, a.0), t.rx, t.cap);
        StillInStep(e.session, a.1, Ok(t.data), e.result);
      }
    } else {
      hide Begin, OpenEv1, SealEv1, End, Copied, HeaderLength, WithIvBuffer, Reset, TooLongByMac, WithIv, Ev1Mac;
    }
  }

  /** The card has moved on by the MAC of an answer that never arrived. */
  lemma Unheard(st: Sides, b: Session, t: Trade)
    requires InStep(st) && st.reader.authenticated && Gate.SameSession(b, st.reader) && !b.macMismatch && !AnswerFits(t)
    ensures !StatusEndsSession(t.status)
    ensures var q := WithIvBuffer(st.card.(mode := t.tx), b.iv);
            InStep(Sides(b, SealEv1(q, t.payload, t.status).1, Ok(t.data), Err(Length)))
            <==> Stands(WithIvBuffer(st.card, b.iv), t.payload + [t.status])
  {
    hide Ev1Mac, StatusEndsSession, Splice;
    ModeFreeMac(st.card, t.tx, b.iv, t.payload + [t.status]);
  }

  lemma ModeFreeMac(k: Session, m: Mode, iv: Bytes, data: Bytes)
    requires |iv| == 16
    ensures Ev1Mac(WithIvBuffer(k.(mode := m), iv), data) == Ev1Mac(WithIvBuffer(k, iv), data)
  {
    hide Cmac.MacOf;
  }

  lemma SealKeeps(k: Session, payload: Bytes, status: byte)
    ensures var a := SealEv1(k, payload, status).1; a == WithIvBuffer(k, a.iv)
  {
    hide Ev1Mac, Splice;
  }

  lemma PlainInStep(st: Sides, t: Trade)
    requires InStep(st) && !st.reader.authenticated
    ensures InStep(Traded(st, t))
  {
    hide Begin, Answers, End, Fitting;
    var b := Begin(st.reader, t.cmd, t.data, t.tx, t.rx);
    PlainReader(st.reader, t);
    if b.result.Ok? && Fitting(Answers(st.card, b.result.value, t).answer).Ok? {
      FittingSame(Answers(st.card, b.result.value, t).answer);
      PlainEnd(b.session, Answers(st.card, b.result.value, t).answer, t.rx, t.cap);
    }
  }

  lemma FittingSame(a: Answer)
    ensures Fitting(a).Ok? ==> Fitting(a).value == a
  {}

  ghost predicate Sessionless(s: Session, r: Session) {
    s.p == r.p && !s.authenticated && s.channel == NoChannel && !s.macMismatch
  }

  lemma PlainReader(r: Session, t: Trade)
    requires !r.authenticated && r.channel == NoChannel
    ensures Sessionless(Begin(r, t.cmd, t.data, t.tx, t.rx).session, r)
  {
    hide EncodeEv1, EncodeEv2, EncodeD40, HeaderLength;
  }

  lemma PlainEnd(s: Session, a: Answer, rx: Mode, cap: nat)
    requires !s.authenticated && s.channel == NoChannel && !s.macMismatch
    ensures Sessionless(End(s, a, rx, cap).session, s)
  {
    hide DecodeEv1, DecodeEv2, DecodeD40, Copied, Next, Reset, StatusEndsSession;
  }

  lemma StepInStep(st: Sides, e: Event)
    requires WellFormed(e) && InStep(st) && (e.Command? ==> OnChain(e.trade))
    ensures InStep(After(st, e))
  {
    hide LoggedIn, Traded;
    match e
    case Login(keyNo, key, rndA, rndB) =>
      LoginInStep(st, keyNo, key, rndA, rndB);
    case Command(t) =>
      if st.reader.authenticated {
        TradeInStep(st, t);
      } else {
        PlainInStep(st, t);
      }
    case ResetChannel =>
  }

  /** In every run against an honest card, at every moment: if the reader is
      authenticated, the card is too, with the same session keys and the same
      IV; and no answer's MAC has been rejected. */
  lemma {:induction false} AlwaysInStep(st: Sides, events: seq<Event>)
    requires InStep(st) && forall e <- events :: WellFormed(e) && (e.Command? ==> OnChain(e.trade))
    ensures forall i | 0 <= i <= |events| :: InStep(Run(st, events)[i])
    decreases |events|
  {
    hide After, WellFormed, InStep, OnChain;
    if events != [] {
      StepInStep(st, events[0]);
      AlwaysInStep(After(st, events[0]), events[1..]);
      var rest := Run(After(st, events[0]), events[1..]);
      assert Run(st, events)[1..] == rest;
      forall i | 0 <= i <= |events| ensures InStep(Run(st, events)[i]) {
        if i > 0 {
          assert Run(st, events)[i] == rest[i - 1];
        }
      }
    }
  }

  //--------------------------------------------------------------------------
  // the chain is the CMAC of the transcript
  //--------------------------------------------------------------------------

  /** Each message's CMAC is the starting value of the next. */
  function Fold(c: Cipher, iv: Bytes, messages: seq<Bytes>): (v: Bytes)
    requires |iv| == Block(c)
    ensures |v| == Block(c)
    decreases |messages|
  {
    hide Cmac.MacOf;
    if messages == [] then iv else Fold(c, Cmac.MacOf(c, iv, messages[0], 0), messages[1..])
  }

  /** A request in clear that fits the frame buffer. */
  predicate GoesOut(t: Trade) {
    |t.data| + (if t.tx.Mac? && TransmitsMac(EV1, t.cmd) then 8 else 0) <= MAX_RESPONSE
  }

  /** Command and payload, then answer and status, for each command that went out. */
  function Transcript(trades: seq<Trade>): seq<Bytes> {
    hide GoesOut;
    if trades == [] then []
    else
      var t := trades[0];
      (if GoesOut(t) then [[t.cmd] + t.data, t.payload + [t.status]] else []) + Transcript(trades[1..])
  }

  function TradeAll(st: Sides, trades: seq<Trade>): Sides
    decreases |trades|
  {
    hide Traded;
    if trades == [] then st else TradeAll(Traded(st, trades[0]), trades[1..])
  }

  /** The two IVs are the fold over everything said since the starting point,
      whether the MACs themselves were sent or not. */
  lemma {:induction false} ChainIsTranscript(st: Sides, trades: seq<Trade>)
    requires InStep(st) && st.reader.authenticated
    requires forall t <- trades :: OnChain(t) && (t.tx.Plain? || t.tx.Mac?) && !StatusEndsSession(t.status)
    ensures var u, c := TradeAll(st, trades), MacCipher(st.reader);
            && InStep(u) && u.reader.authenticated && MacCipher(u.reader) == c
            && u.reader.iv[..Block(c)] == u.card.iv[..Block(c)]
            && u.reader.iv[..Block(c)] == Fold(c, st.reader.iv[..Block(c)], Transcript(trades))
    decreases |trades|
  {
    hide Traded, Cmac.MacOf, OnChain, GoesOut;
    if trades != [] {
      var t := trades[0];
      TradeFolds(st, t);
      ChainIsTranscript(Traded(st, t), trades[1..]);
      var m, rest := [[t.cmd] + t.data, t.payload + [t.status]], Transcript(trades[1..]);
      assert (m + rest)[1..] == [m[1]] + rest && ([m[1]] + rest)[1..] == rest;
      assert [] + rest == rest;
    }
  }

  /** A clear request that goes out moves the chain by the MAC over it. */
  lemma RequestFolds(r: Session, t: Trade)
    requires r.channel == EV1 && !r.lost && GoesOut(t) && (t.tx.Plain? || t.tx.Mac?)
    ensures var b, c := Begin(r, t.cmd, t.data, t.tx, t.rx), MacCipher(r);
            b.result.Ok? && b.session.iv == Splice(r.iv, 0, Cmac.MacOf(c, r.iv[..Block(c)], [t.cmd] + t.data, 0))
  {
    hide EncodeEv1, Begin, HeaderLength, Splice, TransmitsMac;
    var s := Prepared(r, t);
    BeginEncodes(r, t);
    ClearGoesOut(s, t.cmd, t.data, MAX_RESPONSE);
    assert Ev1Mac(s, [t.cmd] + t.data) == Ev1Mac(r, [t.cmd] + t.data) by { hide Cmac.MacOf, HeaderLength; }
  }

  lemma ClearGoesOut(s: Session, cmd: byte, src: Bytes, cap: nat)
    requires s.channel == EV1 && (s.mode.Plain? || s.mode.Mac?)
    requires |src| + (if s.mode.Mac? && TransmitsMac(EV1, cmd) then 8 else 0) <= cap
    ensures var e := EncodeEv1(s, cmd, src, cap); e.result.Ok? && e.session == WithIv(s, Ev1Mac(s, [cmd] + src))
  {
    hide Ev1Mac, Ev1Plain, Ev1Cipher, TransmitsMac, Header, WithIv;
  }

  lemma StaysHere(s: Session, cmd: byte, src: Bytes, cap: nat)
    requires s.channel == EV1 && (s.mode.Plain? || s.mode.Mac?)
    requires |src| + (if s.mode.Mac? && TransmitsMac(EV1, cmd) then 8 else 0) > cap
    ensures EncodeEv1(s, cmd, src, cap).result.Err?
  {
    hide Ev1Mac, Ev1Plain, Ev1Cipher, TransmitsMac, Header, WithIv;
  }

  lemma SpliceStart(iv: Bytes, m: Bytes)
    requires |m| <= |iv|
    ensures Splice(iv, 0, m)[..|m|] == m
  {}

  /** One command moves the chain by two MACs, or not at all. */
  lemma TradeFolds(st: Sides, t: Trade)
    requires InStep(st) && st.reader.authenticated
    requires OnChain(t) && (t.tx.Plain? || t.tx.Mac?) && !StatusEndsSession(t.status)
    ensures var u, c := Traded(st, t), MacCipher(st.reader);
            && InStep(u) && u.reader.authenticated && MacCipher(u.reader) == c
            && u.reader.iv[..Block(c)]
               == if GoesOut(t)
                  then Cmac.MacOf(c, Cmac.MacOf(c, st.reader.iv[..Block(c)], [t.cmd] + t.data, 0), t.payload + [t.status], 0)
                  else st.reader.iv[..Block(c)]
  {
    hide Traded, Begin, Cmac.MacOf, GoesOut, MacedAnswer, TooLongByMac, AnswerFits, StatusEndsSession, Copied;
    TradeInStep(st, t);
    if GoesOut(t) {
      SentFolds(st, t);
    } else {
      NotSentFolds(st, t);
    }
  }

  lemma NotSentFolds(st: Sides, t: Trade)
    requires InStep(st) && st.reader.authenticated
    requires OnChain(t) && (t.tx.Plain? || t.tx.Mac?) && !GoesOut(t)
    ensures var u := Traded(st, t); Gate.SameSession(u.reader, st.reader) && u.reader.iv == st.reader.iv
  {
    hide Begin, EncodeEv1, HeaderLength, TransmitsMac, StatusEndsSession, Answers, Arrived;
    var r := st.reader;
    BeginEncodes(r, t);
    StaysHere(Prepared(r, t), t.cmd, t.data, MAX_RESPONSE);
    RequestKeeps(r, st.card, t);
  }

  lemma SentFolds(st: Sides, t: Trade)
    requires InStep(st) && st.reader.authenticated && GoesOut(t)
    requires OnChain(t) && (t.tx.Plain? || t.tx.Mac?) && !StatusEndsSession(t.status)
    ensures var u, c := Traded(st, t), MacCipher(st.reader);
            && u.reader.authenticated && MacCipher(u.reader) == c
            && u.reader.iv[..Block(c)]
               == Cmac.MacOf(c, Cmac.MacOf(c, st.reader.iv[..Block(c)], [t.cmd] + t.data, 0), t.payload + [t.status], 0)
  {
    hide Traded, Begin, End, OpenEv1, Cmac.MacOf, Splice, MacedAnswer, TooLongByMac, GoesOut, StatusEndsSession, Copied, HeaderLength;
    var r, c := st.reader, MacCipher(st.reader);
    var b := Begin(r, t.cmd, t.data, t.tx, t.rx);
    var q := WithIvBuffer(st.card.(mode := t.tx), b.session.iv);
    var v := Cmac.MacOf(c, r.iv[..Block(c)], [t.cmd] + t.data, 0);
    RequestFolds(r, t);
    RequestKeeps(r, st.card, t);
    SpliceStart(r.iv, v);
    SpliceStart(q.iv, Ev1Mac(q, t.payload + [t.status]));
    TradedParts(st, t, q);
    Accepted(r, b.session, st.card, t);
    assert MacCipher(q) == c;
  }

  /** A request that is refused without a frame moves the reader's chain exactly
      if it fits the buffer without its MAC but not with it: then it stands at
      that MAC. */
  lemma RefusedYetMoved(r: Session, t: Trade)
    requires r.authenticated && r.channel == EV1 && !r.lost && Begin(r, t.cmd, t.data, t.tx, t.rx).result.Err?
    ensures Begin(r, t.cmd, t.data, t.tx, t.rx).session.iv
         == if TooLongByMac(t) then Splice(r.iv, 0, Cmac.MacOf(MacCipher(r), r.iv[..Block(MacCipher(r))], [t.cmd] + t.data, 0))
            else r.iv
  {
    hide Begin, OpenEv1, HeaderLength, Splice, TooLongByMac, Cmac.MacOf;
    RequestKeeps(r, r, t);
  }

  /** Every such request is refused. */
  lemma TooLongIsRefused(r: Session, t: Trade)
    requires r.channel == EV1 && !r.lost && TooLongByMac(t)
    ensures Begin(r, t.cmd, t.data, t.tx, t.rx).result == Err(Length)
  {
    hide EncodeEv1, Begin, HeaderLength, TransmitsMac;
    BeginEncodes(r, t);
    TooLong(Prepared(r, t), t.cmd, t.data, MAX_RESPONSE);
  }

  lemma TooLong(s: Session, cmd: byte, src: Bytes, cap: nat)
    requires s.channel == EV1 && s.mode.Mac? && TransmitsMac(EV1, cmd) && |src| <= cap < |src| + 8
    ensures EncodeEv1(s, cmd, src, cap) == Outcome(Err(Length), WithIv(s, Ev1Mac(s, [cmd] + src)))
  {
    hide Ev1Mac, Ev1Plain, Ev1Cipher, TransmitsMac, Header, WithIv;
  }

  //--------------------------------------------------------------------------
  // inputs that do put the two sides out of step
  //--------------------------------------------------------------------------

  /** Of two messages that differ in their last byte at most one has a MAC that
      leaves the chain where it is. */
  lemma StandsOnce(s: Session, a: Bytes, x: byte, y: byte)
    requires x != y
    ensures !Stands(s, a + [x]) || !Stands(s, a + [y])
  {
    var c := MacCipher(s);
    Cmac.LastByteTells(c, s.iv[..Block(c)], a, x, y);
    hide Cmac.MacOf;
    SpliceStart(s.iv, Ev1Mac(s, a + [x]));
    SpliceStart(s.iv, Ev1Mac(s, a + [y]));
  }

  /** In every EV1 session there is an answer that ends the agreement: 4089 zero
      bytes with status 0x00 or with status 0x90. */
  lemma AnswerEndsStep(st: Sides, cmd: byte, cap: nat) returns (t: Trade)
    requires InStep(st) && st.reader.authenticated
    ensures t == Trade(cmd, [], Plain, Plain, cap, Zeros(MAX_RESPONSE - 7), t.status) && t.status in {S_OK, S_SIGNATURE}
    ensures MacedAnswer(t) && !AnswerFits(t) && Begin(st.reader, cmd, [], Plain, Plain).result.Ok?
    ensures !InStep(Traded(st, t))
  {
    hide Traded, Begin, InStep, Stands, HeaderLength;
    t := Trade(cmd, [], Plain, Plain, cap, Zeros(MAX_RESPONSE - 7), S_OK);
    var u := t.(status := S_SIGNATURE);
    OnChannel(st);
    RequestFolds(st.reader, t);
    var b := Begin(st.reader, cmd, [], Plain, Plain);
    TradeInStep(st, t);
    TradeInStep(st, u);
    StandsOnce(WithIvBuffer(st.card, b.session.iv), t.payload, S_OK, S_SIGNATURE);
    if InStep(Traded(st, t)) {
      t := u;
    }
  }

  lemma OnChannel(st: Sides)
    requires InStep(st) && st.reader.authenticated
    ensures st.reader.channel == EV1 && !st.reader.lost
  {}

  /** In every EV1 session there is a request that is never sent and yet ends the
      agreement: a MACed WriteData of 4089 bytes, one of two. */
  lemma RequestEndsStep(st: Sides, cap: nat) returns (t: Trade)
    requires InStep(st) && st.reader.authenticated
    ensures t == Trade(0x3D, Zeros(MAX_RESPONSE - 8) + [0x00], Mac, Mac, cap, [], S_OK)
         || t == Trade(0x3D, Zeros(MAX_RESPONSE - 8) + [0x01], Mac, Mac, cap, [], S_OK)
    ensures TooLongByMac(t) && Begin(st.reader, t.cmd, t.data, t.tx, t.rx).result == Err(Length)
    ensures !InStep(Traded(st, t))
  {
    hide Traded, Begin, InStep, Stands, HeaderLength;
    var front := Zeros(MAX_RESPONSE - 8);
    t := Trade(0x3D, front + [0x00], Mac, Mac, cap, [], S_OK);
    var u := Trade(0x3D, front + [0x01], Mac, Mac, cap, [], S_OK);
    OnChannel(st);
    TooLongIsRefused(st.reader, t);
    TooLongIsRefused(st.reader, u);
    TradeInStep(st, t);
    TradeInStep(st, u);
    StandsOnce(st.reader, [0x3D] + front, 0x00, 0x01);
    assert [0x3D] + front + [0x00] == [0x3D] + (front + [0x00]) && [0x3D] + front + [0x01] == [0x3D] + (front + [0x01]);
    if InStep(Traded(st, t)) {
      t := u;
    }
  }
}
