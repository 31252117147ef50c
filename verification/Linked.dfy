/** The library itself on a link behind which an honest EV2 or LRP card sits: run
    by run it does what the two-party system of Lockstep does, so the two sides
    stay in step over frames, chaining and chained answers as well. */
module Linked {
  import opened ByteStrings
  import opened Results
  import opened Ciphers
  import opened Sessions
  import opened Codecs
  import opened Framing
  import opened Handshakes
  import opened Exchanges
  import opened Peer
  import opened Lockstep
  import Cbc
  import Cmac
  import Lrp

  //--------------------------------------------------------------------------
  // the library alone
  //--------------------------------------------------------------------------

  /** The library call of an event. */
  ghost function Call(link: Link, cs: CmdSet, log: seq<Frame>, s: Session, e: Event): Step
    requires NeverStalls(link, cs) && WellFormed(e)
  {
    hide Exchange, Authenticate, AuthenticateNonFirst, Exchanges.Select, Reset, NeverStalls;
    match e
    case First(lrp, keyNo, key, rndA, _, _, _) =>
      Authenticate(link, cs, log, s, keyNo, key, if lrp then LRP else EV2, rndA)
    case NonFirst(keyNo, key, rndA, _) => AuthenticateNonFirst(link, cs, log, s, keyNo, key, rndA)
    case Command(cmd, data, tx, rx, cap, _) => Exchange(link, cs, log, s, cmd, data, tx, rx, cap)
    case Select(aid, _) => Exchanges.Select(link, cs, log, s, aid)
    case ResetChannel => Step(Ok([]), Reset(s), log)
  }

  //--------------------------------------------------------------------------
  // the card behind the link
  //--------------------------------------------------------------------------

  /** A command: the card acknowledges the parts of what the reader sends, and
      gives the answer of Answers in one piece or in chained parts. */
  ghost predicate Serves(link: Link, cs: CmdSet, log: seq<Frame>, st: Pair, cmd: byte, data: Bytes, tx: Mode, rx: Mode,
                         v: Verdict)
  {
    hide Begin, Answers, Replies, Chunks, RequestFrames;
    var b := Begin(st.reader, cmd, data, tx, rx);
    b.result.Ok? ==>
      exists parts :: Replies(link, cs, |log|, log + RequestFrames(cs, cmd, Chunks(b.result.value)),
                              Answers(st.card, cmd, b.result.value, tx, v).answer, parts)
  }

  /** An authentication: its challenge answers the first frame, and what it makes
      of the second frame's data answers that. */
  ghost predicate Admitting(link: Link, cs: CmdSet, log: seq<Frame>, p: Primitives, card: Session, scheme: Scheme,
                            keyNo: byte, key: Key, rndA: Bytes, rndB: Bytes, ti: Bytes, caps: Bytes)
    requires !scheme.Legacy? && |rndA| == |rndB| == 16 && |ti| == 4 && |caps| == 12
  {
    hide Reply, Admits, Challenge, Parse, Wrap;
    var open, m := Opening(scheme, key.kind, keyNo), Reply(p, scheme, key, Challenge(card, scheme, key, rndB), rndA);
    var first := log + [Wrap(cs, open.0, open.1)];
    && Parse(cs, link(first)) == Ok(Challenge(card, scheme, key, rndB))
    && (m.Ok? ==> Parse(cs, link(first + [Wrap(cs, MORE, m.value.send)]))
                  == Ok(Admits(card, scheme, keyNo, key, rndB, ti, caps, m.value.send).answer))
  }

  /** The link answers the frames of this event as the card `st.card` does. */
  ghost predicate Plays(link: Link, cs: CmdSet, log: seq<Frame>, st: Pair, e: Event)
    requires WellFormed(e)
  {
    hide Serves, Admitting, Reset;
    match e
    case First(lrp, keyNo, key, rndA, rndB, ti, caps) =>
      Admitting(link, cs, log, st.reader.p, Reset(st.card), if lrp then LrpAuth(true) else Ev2(true), keyNo, key,
                rndA, rndB, ti, caps)
    case NonFirst(keyNo, key, rndA, rndB) =>
      st.reader.authenticated ==>
        Admitting(link, cs, log, st.reader.p, st.card, if st.reader.channel == LRP then LrpAuth(false) else Ev2(false),
                  keyNo, key, rndA, rndB, Zeros(4), Zeros(12))
    case Command(cmd, data, tx, rx, _, v) => Serves(link, cs, log, st, cmd, data, tx, rx, v)
    case Select(aid, v) =>
      aid < 0x1000000 ==>
        var data := U24(aid);
        Serves(link, cs, log, st.(reader := Reset(st.reader), card := Reset(st.card)), 0x5A, data, Plain, Plain, v)
    case ResetChannel => true
  }

  //--------------------------------------------------------------------------
  // one event
  //--------------------------------------------------------------------------

  /** nxpsc_exchange on such a link is the two-party step. */
  lemma CommandOverLink(link: Link, cs: CmdSet, log: seq<Frame>, st: Pair, cmd: byte, data: Bytes, tx: Mode, rx: Mode,
                        cap: nat, v: Verdict)
    requires NeverStalls(link, cs) && Serves(link, cs, log, st, cmd, data, tx, rx, v)
    ensures var e, u := Exchange(link, cs, log, st.reader, cmd, data, tx, rx, cap), Exchanged(st, cmd, data, tx, rx, cap, v);
            e.session == u.reader && e.result == u.returned
  {
    hide Begin, Answers, Replies, Chunks, RequestFrames, Arrived, Fitting, RawExchange, NeverStalls, Asked;
    var b := Begin(st.reader, cmd, data, tx, rx);
    if b.result.Ok? {
      var a := Answers(st.card, cmd, b.result.value, tx, v).answer;
      var parts :| Replies(link, cs, |log|, log + RequestFrames(cs, cmd, Chunks(b.result.value)), a, parts);
      Delivered(link, cs, log, st.reader, cmd, data, tx, rx, cap, a, parts);
    }
  }

  /** The messages of an authentication fit the frames and buffers used for it. */
  lemma HandshakeSizes(p: Primitives, card: Session, scheme: Scheme, keyNo: byte, key: Key, rndA: Bytes, rndB: Bytes,
                       ti: Bytes, caps: Bytes)
    requires !scheme.Legacy? && |rndA| == |rndB| == 16 && |ti| == 4 && |caps| == 12
    ensures var ch := Challenge(card, scheme, key, rndB);
            var m := Reply(p, scheme, key, ch, rndA);
            && |ch.data| <= AUTH_CAP
            && (m.Ok? ==> |m.value.send| == 32
                          && |Admits(card, scheme, keyNo, key, rndB, ti, caps, m.value.send).answer.data| <= AUTH_CAP)
  {
    hide Cbc.Run, Ev2Session, LrpSession, LrpMac, SessionKeyLrp, LrpTi, Reset;
  }

  /** An authentication over such a link is the two-party one. */
  lemma HandshakeOverLink(link: Link, cs: CmdSet, log: seq<Frame>, r: Session, k: Session, scheme: Scheme, keyNo: byte,
                          key: Key, rndA: Bytes, rndB: Bytes, ti: Bytes, caps: Bytes)
    requires !scheme.Legacy? && |rndA| == |rndB| == 16 && |ti| == 4 && |caps| == 12
    requires Admitting(link, cs, log, r.p, k, scheme, keyNo, key, rndA, rndB, ti, caps)
    requires Reply(r.p, scheme, key, Challenge(k, scheme, key, rndB), rndA).Ok?
    ensures var h, u := Handshake(link, cs, log, r, keyNo, scheme, key, rndA),
                        Both(scheme, keyNo, key, rndA, rndB, ti, caps, r, k);
            h.session == u.reader && h.result == u.returned
  {
    hide Reply, Finish, Admits, Challenge, Parse, Wrap, Handshake;
    HandshakeSizes(r.p, k, scheme, keyNo, key, rndA, rndB, ti, caps);
    var ch := Challenge(k, scheme, key, rndB);
    var m := Reply(r.p, scheme, key, ch, rndA).value;
    HandshakeDelivered(link, cs, log, r, keyNo, scheme, key, rndA, ch,
                       Admits(k, scheme, keyNo, key, rndB, ti, caps, m.send).answer);
  }

  /** The reader always replies to an honest challenge. */
  lemma Replying(p: Primitives, k: Session, scheme: Scheme, key: Key, rndA: Bytes, rndB: Bytes)
    requires !scheme.Legacy? && |rndA| == |rndB| == 16
    ensures Reply(p, scheme, key, Challenge(k, scheme, key, rndB), rndA).Ok?
  {
    hide Cbc.Run, LrpMac, SessionKeyLrp;
  }

  lemma FirstIsHandshake(link: Link, cs: CmdSet, log: seq<Frame>, s: Session, keyNo: byte, key: Key, lrp: bool, rndA: Bytes)
    requires |rndA| == 16 && key.kind.AES128?
    ensures Authenticate(link, cs, log, s, keyNo, key, if lrp then LRP else EV2, rndA)
         == Handshake(link, cs, log, Reset(s), keyNo, if lrp then LrpAuth(true) else Ev2(true), key, rndA)
  {
    hide Handshake, Reset;
  }

  lemma NonFirstIsHandshake(link: Link, cs: CmdSet, log: seq<Frame>, s: Session, keyNo: byte, key: Key, rndA: Bytes)
    requires |rndA| == 16 && key.kind.AES128? && s.authenticated && OnEv2(s)
    ensures AuthenticateNonFirst(link, cs, log, s, keyNo, key, rndA)
         == Handshake(link, cs, log, s, keyNo, if s.channel == LRP then LrpAuth(false) else Ev2(false), key, rndA)
  {
    hide Handshake;
  }

  lemma FirstOverLink(link: Link, cs: CmdSet, log: seq<Frame>, st: Pair, e: Event)
    requires NeverStalls(link, cs) && WellFormed(e) && e.First? && InStep(st) && Plays(link, cs, log, st, e)
    ensures var c, u := Call(link, cs, log, st.reader, e), After(st, e);
            c.session == u.reader && c.result == u.returned
  {
    hide Handshake, Both, Admitting, Reset, NeverStalls, Agree, Authenticate, Reply, Challenge;
    var scheme := if e.lrp then LrpAuth(true) else Ev2(true);
    var r, k := Reset(st.reader), Reset(st.card);
    ResetKeepsPrimitives(st.reader);
    Replying(r.p, k, scheme, e.key, e.rndA, e.rndB);
    HandshakeOverLink(link, cs, log, r, k, scheme, e.keyNo, e.key, e.rndA, e.rndB, e.ti, e.caps);
    FirstIsHandshake(link, cs, log, st.reader, e.keyNo, e.key, e.lrp, e.rndA);
  }

  lemma NonFirstOverLink(link: Link, cs: CmdSet, log: seq<Frame>, st: Pair, e: Event)
    requires NeverStalls(link, cs) && WellFormed(e) && e.NonFirst? && InStep(st) && Plays(link, cs, log, st, e)
    ensures var c, u := Call(link, cs, log, st.reader, e), After(st, e);
            c.session == u.reader && c.result == u.returned
  {
    hide Handshake, Both, Admitting, Reset, NeverStalls, Agree, Reply, Challenge;
    if st.reader.authenticated {
      hide AuthenticateNonFirst;
      var scheme := if st.reader.channel == LRP then LrpAuth(false) else Ev2(false);
      Replying(st.reader.p, st.card, scheme, e.key, e.rndA, e.rndB);
      HandshakeOverLink(link, cs, log, st.reader, st.card, scheme, e.keyNo, e.key, e.rndA, e.rndB, Zeros(4), Zeros(12));
      NonFirstIsHandshake(link, cs, log, st.reader, e.keyNo, e.key, e.rndA);
    }
  }

  lemma SelectOverLink(link: Link, cs: CmdSet, log: seq<Frame>, st: Pair, e: Event)
    requires NeverStalls(link, cs) && WellFormed(e) && e.Select? && Plays(link, cs, log, st, e)
    ensures var c, u := Call(link, cs, log, st.reader, e), After(st, e);
            c.session == u.reader && c.result == u.returned
  {
    hide Exchange, Exchanged, Serves, Reset, NeverStalls, U24;
    if e.aid < 0x1000000 {
      var data := U24(e.aid);
      CommandOverLink(link, cs, log, st.(reader := Reset(st.reader), card := Reset(st.card)), 0x5A, data, Plain, Plain, 8,
                      e.verdict);
    }
  }

  /** On such a link the library does what the two-party system does. */
  lemma StepOverLink(link: Link, cs: CmdSet, log: seq<Frame>, st: Pair, e: Event)
    requires NeverStalls(link, cs) && WellFormed(e) && InStep(st) && Plays(link, cs, log, st, e)
    ensures var c, u := Call(link, cs, log, st.reader, e), After(st, e);
            c.session == u.reader && c.result == u.returned
  {
    hide Exchange, Exchanged, Serves, Reset, NeverStalls, InStep;
    match e
    case First(_, _, _, _, _, _, _) => hide Call, After, Plays; FirstOverLink(link, cs, log, st, e);
    case NonFirst(_, _, _, _) => hide Call, After, Plays; NonFirstOverLink(link, cs, log, st, e);
    case Select(_, _) => hide Call, After, Plays; SelectOverLink(link, cs, log, st, e);
    case Command(cmd, data, tx, rx, cap, v) => CommandOverLink(link, cs, log, st, cmd, data, tx, rx, cap, v);
    case ResetChannel =>
  }

  lemma ResetKeepsPrimitives(s: Session)
    ensures Reset(s).p == s.p
  {}

  //--------------------------------------------------------------------------
  // runs
  //--------------------------------------------------------------------------

  /** The library calls of a run, one after the other on one link. */
  ghost function Calls(link: Link, cs: CmdSet, log: seq<Frame>, s: Session, events: seq<Event>): (r: seq<Step>)
    requires NeverStalls(link, cs) && forall e <- events :: WellFormed(e)
    ensures |r| == |events|
    decreases |events|
  {
    hide Call, WellFormed, NeverStalls;
    if events == [] then []
    else
      var c := Call(link, cs, log, s, events[0]);
      [c] + Calls(link, cs, c.log, c.session, events[1..])
  }

  /** The link answers every event as the card of the two-party system does, and
      that card is honest. */
  ghost predicate HonestLink(link: Link, cs: CmdSet, log: seq<Frame>, st: Pair, events: seq<Event>)
    requires NeverStalls(link, cs) && forall e <- events :: WellFormed(e)
    decreases |events|
  {
    hide Call, WellFormed, NeverStalls, After, Plays, Honest;
    events == []
    || (var e := events[0];
        && Honest(st.reader.channel, e) && Plays(link, cs, log, st, e)
        && HonestLink(link, cs, Call(link, cs, log, st.reader, e).log, After(st, e), events[1..]))
  }

  /** After each call the library's session and result are those of the
      two-party system, which is in step. */
  ghost predicate Tracks(calls: seq<Step>, states: seq<Pair>) {
    && |states| == |calls| + 1
    && forall i | 0 <= i < |calls| :: Tracked(calls[i], states[i + 1])
  }

  ghost predicate Tracked(c: Step, u: Pair) {
    c.session == u.reader && c.result == u.returned && InStep(u)
  }

  lemma TracksMore(c: Step, calls: seq<Step>, st: Pair, states: seq<Pair>)
    requires Tracks(calls, states) && Tracked(c, states[0])
    ensures Tracks([c] + calls, [st] + states)
  {
    hide Tracked;
    forall i | 0 <= i < |[c] + calls| ensures Tracked(([c] + calls)[i], ([st] + states)[i + 1]) {
      if i > 0 {
        var j := i - 1;
        assert Tracked(calls[j], states[j + 1]);
      }
    }
  }

  /** The library over a link to an honest card, at every moment of every run. */
  lemma {:induction false} AlwaysInStepOverLink(link: Link, cs: CmdSet, log: seq<Frame>, st: Pair, events: seq<Event>)
    requires NeverStalls(link, cs) && forall e <- events :: WellFormed(e)
    requires InStep(st) && HonestLink(link, cs, log, st, events)
    ensures Tracks(Calls(link, cs, log, st.reader, events), Run(st, events))
    decreases |events|
  {
    hide Call, WellFormed, NeverStalls, After, Plays, Honest, InStep, Tracks;
    if events == [] {
      TracksNone([st]);
    } else {
      var e := events[0];
      StepOverLink(link, cs, log, st, e);
      StepInStep(st, e);
      var c, u := Call(link, cs, log, st.reader, e), After(st, e);
      AlwaysInStepOverLink(link, cs, c.log, u, events[1..]);
      RunStarts(u, events[1..]);
      TracksMore(c, Calls(link, cs, c.log, u.reader, events[1..]), st, Run(u, events[1..]));
    }
  }

  lemma TracksNone(states: seq<Pair>)
    requires |states| == 1
    ensures Tracks([], states)
  {}

  lemma RunStarts(st: Pair, events: seq<Event>)
    requires forall e <- events :: WellFormed(e)
    ensures Run(st, events)[0] == st
  {
    hide After, WellFormed;
  }

  //--------------------------------------------------------------------------
  // such a link exists for every honest run
  //--------------------------------------------------------------------------

  /** How many frames an event takes. */
  ghost function FrameCount(st: Pair, e: Event): nat
    requires WellFormed(e)
  {
    hide Begin, Chunks, Reset;
    match e
    case First(_, _, _, _, _, _, _) => 2
    case NonFirst(_, _, _, _) => if st.reader.authenticated && OnEv2(st.reader) then 2 else 0
    case Command(cmd, data, tx, rx, _, _) =>
      var b := Begin(st.reader, cmd, data, tx, rx).result;
      if b.Ok? then |Chunks(b.value)| else 0
    case Select(aid, _) => if aid < 0x1000000 then 1 else 0
    case ResetChannel => 0
  }

  /** What the card answers to frame `i` of an event. */
  ghost function Scripted(cs: CmdSet, st: Pair, e: Event, i: nat): Result<Bytes>
    requires WellFormed(e)
  {
    hide Begin, Answers, Challenge, Admits, Reply, Reset, Chunks;
    match e
    case First(lrp, keyNo, key, rndA, rndB, ti, caps) =>
      HandshakeScript(cs, st.reader.p, Reset(st.card), if lrp then LrpAuth(true) else Ev2(true), keyNo, key, rndA, rndB, ti, caps, i)
    case NonFirst(keyNo, key, rndA, rndB) =>
      HandshakeScript(cs, st.reader.p, st.card, if st.reader.channel == LRP then LrpAuth(false) else Ev2(false), keyNo, key,
                      rndA, rndB, Zeros(4), Zeros(12), i)
    case Command(cmd, data, tx, rx, _, v) => CommandScript(cs, st, cmd, data, tx, rx, v, i)
    case Select(aid, v) =>
      if aid >= 0x1000000 then Err(Transport)
      else
        var data := U24(aid);
        CommandScript(cs, st.(reader := Reset(st.reader), card := Reset(st.card)), 0x5A, data, Plain, Plain, v, i)
    case ResetChannel => Err(Transport)
  }

  ghost function HandshakeScript(cs: CmdSet, p: Primitives, card: Session, scheme: Scheme, keyNo: byte, key: Key, rndA: Bytes, rndB: Bytes,
                                 ti: Bytes, caps: Bytes, i: nat): Result<Bytes>
    requires !scheme.Legacy? && |rndA| == |rndB| == 16 && |ti| == 4 && |caps| == 12
  {
    hide Challenge, Admits, Reply, Bare;
    var m := Reply(p, scheme, key, Challenge(card, scheme, key, rndB), rndA);
    if i == 0 then Bare(cs, Challenge(card, scheme, key, rndB))
    else if m.Ok? then Bare(cs, Admits(card, scheme, keyNo, key, rndB, ti, caps, m.value.send).answer)
    else Err(Transport)
  }

  ghost function CommandScript(cs: CmdSet, st: Pair, cmd: byte, data: Bytes, tx: Mode, rx: Mode, v: Verdict, i: nat): Result<Bytes> {
    hide Begin, Answers, Chunks, Bare;
    var b := Begin(st.reader, cmd, data, tx, rx).result;
    if b.Err? then Err(Transport)
    else if i + 1 < |Chunks(b.value)| then Bare(cs, Answer(MORE, []))
    else Bare(cs, Answers(st.card, cmd, b.value, tx, v).answer)
  }

  /** The card of a run as a link: the answer depends on how many frames there
      were, the first of the run being frame `from`. */
  ghost function Script(cs: CmdSet, st: Pair, from: nat, events: seq<Event>, n: nat): Result<Bytes>
    requires forall e <- events :: WellFormed(e)
    decreases |events|
  {
    hide FrameCount, Scripted, After, WellFormed;
    if events == [] || n < from then Err(Transport)
    else
      var c := FrameCount(st, events[0]);
      if n < from + c then Scripted(cs, st, events[0], n - from)
      else Script(cs, After(st, events[0]), from + c, events[1..], n)
  }

  /** The link answers as the script says, from frame `from` on. */
  ghost predicate Follows(link: Link, cs: CmdSet, st: Pair, from: nat, events: seq<Event>)
    requires forall e <- events :: WellFormed(e)
  {
    forall log | |log| > from :: link(log) == Script(cs, st, from, events, |log| - 1)
  }

  /** Select is answered for good and in a buffer's length. */
  predicate Answerable(e: Event) {
    e.Select? ==> e.verdict.status != MORE && Fits(e.verdict)
  }

  lemma SpeaksServes(link: Link, cs: CmdSet, log: seq<Frame>, st: Pair, cmd: byte, data: Bytes, tx: Mode, rx: Mode, cap: nat, v: Verdict)
    requires NeverStalls(link, cs) && Begin(st.reader, cmd, data, tx, rx).result.Ok?
    requires var wire := Begin(st.reader, cmd, data, tx, rx).result.value;
             var a := Answers(st.card, cmd, wire, tx, v).answer;
             Speaks(link, cs, |log|, |Chunks(wire)|, a) && a.status != MORE && |a.data| <= MAX_RESPONSE
    ensures Serves(link, cs, log, st, cmd, data, tx, rx, v)
    ensures |Exchange(link, cs, log, st.reader, cmd, data, tx, rx, cap).log|
         == |log| + |Chunks(Begin(st.reader, cmd, data, tx, rx).result.value)|
  {
    hide Begin, Answers, Chunks, RequestFrames, Exchange, Arrived, NeverStalls, Replies, Speaks, Wrap;
    var wire := Begin(st.reader, cmd, data, tx, rx).result.value;
    var a := Answers(st.card, cmd, wire, tx, v).answer;
    var full := log + RequestFrames(cs, cmd, Chunks(wire));
    SpeaksReplies(link, cs, |log|, full, a);
    Delivered(link, cs, log, st.reader, cmd, data, tx, rx, cap, a, [a.data]);
    AskedNext(cs, full, 0);
  }

  /** An honest answer is a final one and fits the buffer. */
  lemma AnswerGood(k: Session, cmd: byte, wire: Bytes, mode: Mode, v: Verdict)
    requires Fits(v) && v.status != MORE
    ensures var a := Answers(k, cmd, wire, mode, v).answer; a.status != MORE && |a.data| <= MAX_RESPONSE
  {
    hide OpenEv2, SealEv2, Reset, Next;
    if v.Accept? {
      SealLength(OpenEv2(k, cmd, wire, mode).session, v.comm, v.payload);
    }
  }

  lemma ProperStatus(channel: Channel, rx: Mode, v: Verdict)
    requires Proper(channel, rx, v)
    ensures v.status != MORE
  {
    hide Mirrored;
  }

  lemma CommandScripted(link: Link, cs: CmdSet, log: seq<Frame>, st: Pair, cmd: byte, data: Bytes, tx: Mode, rx: Mode, cap: nat, v: Verdict)
    requires NeverStalls(link, cs) && Fits(v) && v.status != MORE
    requires var b := Begin(st.reader, cmd, data, tx, rx).result;
             b.Ok? ==> forall l | |log| < |l| <= |log| + |Chunks(b.value)| ::
               link(l) == CommandScript(cs, st, cmd, data, tx, rx, v, |l| - |log| - 1)
    ensures Serves(link, cs, log, st, cmd, data, tx, rx, v)
    ensures var b := Begin(st.reader, cmd, data, tx, rx).result;
            |Exchange(link, cs, log, st.reader, cmd, data, tx, rx, cap).log|
            == |log| + if b.Ok? then |Chunks(b.value)| else 0
  {
    hide Begin, Answers, Chunks, NeverStalls, Fits, Bare, RawExchange, Arrived;
    var b := Begin(st.reader, cmd, data, tx, rx).result;
    if b.Ok? {
      var a := Answers(st.card, cmd, b.value, tx, v).answer;
      assert Speaks(link, cs, |log|, |Chunks(b.value)|, a);
      AnswerGood(st.card, cmd, b.value, tx, v);
      hide Speaks, Exchange, Serves;
      SpeaksServes(link, cs, log, st, cmd, data, tx, rx, cap, v);
    }
  }

  lemma HandshakeScripted(link: Link, cs: CmdSet, log: seq<Frame>, r: Session, k: Session, scheme: Scheme, keyNo: byte, key: Key,
                          rndA: Bytes, rndB: Bytes, ti: Bytes, caps: Bytes)
    requires !scheme.Legacy? && |rndA| == |rndB| == 16 && |ti| == 4 && |caps| == 12
    requires forall l | |log| < |l| <= |log| + 2 ::
        link(l) == HandshakeScript(cs, r.p, k, scheme, keyNo, key, rndA, rndB, ti, caps, |l| - |log| - 1)
    ensures Admitting(link, cs, log, r.p, k, scheme, keyNo, key, rndA, rndB, ti, caps)
    ensures |Handshake(link, cs, log, r, keyNo, scheme, key, rndA).log| == |log| + 2
  {
    hide Reply, Finish, Admits, Challenge, Parse, Wrap, Handshake, Bare;
    Replying(r.p, k, scheme, key, rndA, rndB);
    HandshakeSizes(r.p, k, scheme, keyNo, key, rndA, rndB, ti, caps);
    var ch := Challenge(k, scheme, key, rndB);
    var m := Reply(r.p, scheme, key, ch, rndA).value;
    var a := Admits(k, scheme, keyNo, key, rndB, ti, caps, m.send).answer;
    BareParsed(cs, ch);
    BareParsed(cs, a);
    HandshakeDelivered(link, cs, log, r, keyNo, scheme, key, rndA, ch, a);
  }

  lemma HandshakeEventScripted(link: Link, cs: CmdSet, log: seq<Frame>, st: Pair, e: Event)
    requires NeverStalls(link, cs) && WellFormed(e) && InStep(st) && (e.First? || e.NonFirst?)
    requires forall l | |log| < |l| <= |log| + FrameCount(st, e) :: link(l) == Scripted(cs, st, e, |l| - |log| - 1)
    ensures Plays(link, cs, log, st, e)
    ensures |Call(link, cs, log, st.reader, e).log| == |log| + FrameCount(st, e)
  {
    hide Exchange, Handshake, Serves, Admitting, Reset, NeverStalls, Agree, CommandScript, HandshakeScript, Chunks, Authenticate,
         Begin;
    match e
    case First(lrp, keyNo, key, rndA, rndB, ti, caps) =>
      FirstIsHandshake(link, cs, log, st.reader, keyNo, key, lrp, rndA);
      ResetKeepsPrimitives(st.reader);
      HandshakeScripted(link, cs, log, Reset(st.reader), Reset(st.card), if lrp then LrpAuth(true) else Ev2(true), keyNo, key,
                        rndA, rndB, ti, caps);
    case NonFirst(keyNo, key, rndA, rndB) =>
      if st.reader.authenticated {
        NonFirstIsHandshake(link, cs, log, st.reader, keyNo, key, rndA);
        HandshakeScripted(link, cs, log, st.reader, st.card, if st.reader.channel == LRP then LrpAuth(false) else Ev2(false),
                          keyNo, key, rndA, rndB, Zeros(4), Zeros(12));
      }
  }

  /** A link that follows the script of an event plays it, in as many frames. */
  lemma EventScripted(link: Link, cs: CmdSet, log: seq<Frame>, st: Pair, e: Event)
    requires NeverStalls(link, cs) && WellFormed(e) && InStep(st) && Honest(st.reader.channel, e) && Answerable(e)
    requires forall l | |log| < |l| <= |log| + FrameCount(st, e) :: link(l) == Scripted(cs, st, e, |l| - |log| - 1)
    ensures Plays(link, cs, log, st, e)
    ensures |Call(link, cs, log, st.reader, e).log| == |log| + FrameCount(st, e)
  {
    hide Exchange, Serves, Admitting, Reset, NeverStalls, InStep, CommandScript, HandshakeScript, Fits, Chunks, Authenticate,
         AuthenticateNonFirst, Begin, Proper;
    match e
    case First(_, _, _, _, _, _, _) =>
      hide Call, Plays, FrameCount, Scripted;
      HandshakeEventScripted(link, cs, log, st, e);
    case NonFirst(_, _, _, _) =>
      hide Call, Plays, FrameCount, Scripted;
      HandshakeEventScripted(link, cs, log, st, e);
    case Command(cmd, data, tx, rx, cap, v) =>
      ProperStatus(st.reader.channel, rx, v);
      CommandScripted(link, cs, log, st, cmd, data, tx, rx, cap, v);
    case Select(aid, v) =>
      if aid < 0x1000000 {
        var data := U24(aid);
        SelectGoesOut(st.reader, data);
        CommandScripted(link, cs, log, st.(reader := Reset(st.reader), card := Reset(st.card)), 0x5A, data, Plain, Plain, 8, v);
      }
    case ResetChannel =>
  }

  lemma SelectGoesOut(r: Session, data: Bytes)
    requires |data| == 3
    ensures var b := Begin(Reset(r), 0x5A, data, Plain, Plain).result; b == Ok(data) && |Chunks(data)| == 1
  {
    hide HeaderLength;
  }

  /** A link that follows the script of a run is an honest link for it. */
  lemma {:induction false} ScriptIsHonest(link: Link, cs: CmdSet, log: seq<Frame>, st: Pair, events: seq<Event>)
    requires NeverStalls(link, cs) && forall e <- events :: WellFormed(e) && Answerable(e)
    requires InStep(st) && AllHonest(st, events) && Follows(link, cs, st, |log|, events)
    ensures HonestLink(link, cs, log, st, events)
    decreases |events|
  {
    hide Call, WellFormed, NeverStalls, After, Plays, Honest, InStep, FrameCount, Scripted, Answerable;
    if events != [] {
      var e := events[0];
      EventScripted(link, cs, log, st, e);
      StepInStep(st, e);
      var c := Call(link, cs, log, st.reader, e);
      forall l | |l| > |c.log| ensures link(l) == Script(cs, After(st, e), |c.log|, events[1..], |l| - 1) {
        assert link(l) == Script(cs, st, |log|, events, |l| - 1);
      }
      ScriptIsHonest(link, cs, c.log, After(st, e), events[1..]);
    }
  }

  /** Behind its last frame a script has nothing to say. */
  lemma {:induction false} ScriptEnds(cs: CmdSet, st: Pair, from: nat, events: seq<Event>) returns (end: nat)
    requires forall e <- events :: WellFormed(e)
    ensures end >= from && forall n: nat | n >= end :: Script(cs, st, from, events, n) == Err(Transport)
    decreases |events|
  {
    hide After, WellFormed, FrameCount, Scripted;
    end := from;
    if events != [] {
      end := ScriptEnds(cs, After(st, events[0]), from + FrameCount(st, events[0]), events[1..]);
    }
  }

  ghost function ScriptLink(cs: CmdSet, st: Pair, from: nat, events: seq<Event>): Link
    requires forall e <- events :: WellFormed(e)
  {
    (log: seq<Frame>) => if |log| > from then Script(cs, st, from, events, |log| - 1) else Err(Transport)
  }

  /** Every honest run, with either framing, has a link that plays it: the theorem
      above is about something. */
  lemma HonestLinkExists(cs: CmdSet, log: seq<Frame>, st: Pair, events: seq<Event>) returns (link: Link)
    requires forall e <- events :: WellFormed(e) && Answerable(e)
    requires InStep(st) && AllHonest(st, events)
    ensures NeverStalls(link, cs) && HonestLink(link, cs, log, st, events)
  {
    hide Script, InStep, AllHonest, WellFormed, Answerable, Run;
    link := ScriptLink(cs, st, |log|, events);
    var end := ScriptEnds(cs, st, |log|, events);
    forall l ensures !StallsAfter(link, cs, l) {
      var n := end + 1;
      assert !Stalling(link, cs, l, n) by { hide Asked; }
    }
    ScriptIsHonest(link, cs, log, st, events);
  }
}
