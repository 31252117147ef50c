/** The library itself on a link behind which an honest EV1 card sits: run by run
    it does what the two-party system of Ev1Lockstep does. */
module LinkedEv1 {
  import opened ByteStrings
  import opened Results
  import opened Ciphers
  import opened Sessions
  import opened Codecs
  import opened Framing
  import opened Handshakes
  import opened Exchanges
  import opened Peer
  import opened PeerLegacy
  import opened Ev1Lockstep
  import Cbc
  import Cmac

  /** The library call of an event; of the sixteen random bytes the handshake
      uses as many as a nonce of the key has. */
  ghost function Call(link: Link, cs: CmdSet, log: seq<Frame>, s: Session, e: Event): Step
    requires NeverStalls(link, cs) && WellFormed(e)
  {
    hide Exchange, Authenticate, Reset, NeverStalls;
    match e
    case Login(keyNo, key, rndA, _) => Authenticate(link, cs, log, s, keyNo, key, EV1, rndA + Zeros(16 - |rndA|))
    case Command(t) => Exchange(link, cs, log, s, t.cmd, t.data, t.tx, t.rx, t.cap)
    case ResetChannel => Step(Ok([]), Reset(s), log)
  }

  /** The link answers the frames of this event as the card `st.card` does. */
  ghost predicate Plays(link: Link, cs: CmdSet, log: seq<Frame>, st: Sides, e: Event)
    requires WellFormed(e)
  {
    hide Serves, Admitting, Reset;
    match e
    case Login(keyNo, key, rndA, rndB) => Admitting(link, cs, log, Reset(st.reader), Reset(st.card), keyNo, key, rndA, rndB)
    case Command(t) => Serves(link, cs, log, st, t)
    case ResetChannel => true
  }

  /** A command: every part is acknowledged, and the answer of Answers comes in
      one piece or in chained parts. */
  ghost predicate Serves(link: Link, cs: CmdSet, log: seq<Frame>, st: Sides, t: Trade) {
    hide Begin, Answers, Replies, Chunks, RequestFrames;
    var b := Begin(st.reader, t.cmd, t.data, t.tx, t.rx);
    b.result.Ok? ==>
      exists parts :: Replies(link, cs, |log|, log + RequestFrames(cs, t.cmd, Chunks(b.result.value)),
                              Answers(st.card, b.result.value, t).answer, parts)
  }

  /** A handshake: the challenge answers the first frame, and what the card makes
      of the second frame's data answers that. */
  ghost predicate Admitting(link: Link, cs: CmdSet, log: seq<Frame>, r: Session, k: Session, keyNo: byte, key: Key,
                            rndA: Bytes, rndB: Bytes)
    requires |rndA| == |rndB| == NonceLength(key.kind)
  {
    hide LegacyChallenge, LegacyReply, Admits, Parse, Wrap;
    var open, ch := Opening(Legacy(false), key.kind, keyNo), LegacyChallenge(k.p, key, rndB);
    var m := LegacyReply(r.p, key, false, Answer(S_ADDITIONAL_FRAME, ch.0), rndA);
    var first := log + [Wrap(cs, open.0, open.1)];
    && Parse(cs, link(first)) == Ok(Answer(S_ADDITIONAL_FRAME, ch.0))
    && (m.Ok? ==> Parse(cs, link(first + [Wrap(cs, MORE, m.value.send)]))
                  == Ok(Admits(k, keyNo, key, ch.1, rndB, m.value.send).answer))
  }

  lemma CommandOverLink(link: Link, cs: CmdSet, log: seq<Frame>, st: Sides, t: Trade)
    requires NeverStalls(link, cs) && Serves(link, cs, log, st, t)
    ensures var e, u := Exchange(link, cs, log, st.reader, t.cmd, t.data, t.tx, t.rx, t.cap), Traded(st, t);
            e.session == u.reader && e.result == u.returned
  {
    hide Begin, Answers, Replies, Chunks, RequestFrames, Arrived, Fitting, RawExchange, NeverStalls, Asked;
    var b := Begin(st.reader, t.cmd, t.data, t.tx, t.rx);
    if b.result.Ok? {
      var a := Answers(st.card, b.result.value, t).answer;
      var parts :| Replies(link, cs, |log|, log + RequestFrames(cs, t.cmd, Chunks(b.result.value)), a, parts);
      Delivered(link, cs, log, st.reader, t.cmd, t.data, t.tx, t.rx, t.cap, a, parts);
    }
  }

  /** The messages of the handshake fit the frames and buffers used for it. */
  lemma HandshakeSizes(p: Primitives, k: Session, keyNo: byte, key: Key, rndA: Bytes, rndB: Bytes)
    requires |rndA| == |rndB| == NonceLength(key.kind)
    ensures var ch := LegacyChallenge(k.p, key, rndB);
            var m := LegacyReply(p, key, false, Answer(S_ADDITIONAL_FRAME, ch.0), rndA);
            && |ch.0| <= AUTH_CAP && m.Ok?
            && |m.value.send| <= 32 && |Admits(k, keyNo, key, ch.1, rndB, m.value.send).answer.data| <= AUTH_CAP
  {
    hide Cbc.Run, Enter, LegacyKey, Reset;
  }

  lemma LoginIsHandshake(link: Link, cs: CmdSet, log: seq<Frame>, s: Session, keyNo: byte, key: Key, rndA: Bytes)
    requires |rndA| == NonceLength(key.kind)
    ensures Authenticate(link, cs, log, s, keyNo, key, EV1, rndA + Zeros(16 - |rndA|))
         == Handshake(link, cs, log, Reset(s), keyNo, Legacy(false), key, rndA)
  {
    hide Handshake, Reset;
    assert (rndA + Zeros(16 - |rndA|))[..|rndA|] == rndA;
  }

  lemma LoginOverLink(link: Link, cs: CmdSet, log: seq<Frame>, st: Sides, keyNo: byte, key: Key, rndA: Bytes, rndB: Bytes)
    requires |rndA| == |rndB| == NonceLength(key.kind)
    requires Admitting(link, cs, log, Reset(st.reader), Reset(st.card), keyNo, key, rndA, rndB)
    ensures var h, u := Authenticate(link, cs, log, st.reader, keyNo, key, EV1, rndA + Zeros(16 - |rndA|)),
                        LoggedIn(st, keyNo, key, rndA, rndB);
            h.session == u.reader && h.result == u.returned
  {
    hide LegacyChallenge, LegacyReply, LegacyFinish, Admits, Reset, Parse, Wrap, Handshake, Authenticate;
    LoginIsHandshake(link, cs, log, st.reader, keyNo, key, rndA);
    var r, k := Reset(st.reader), Reset(st.card);
    HandshakeSizes(r.p, k, keyNo, key, rndA, rndB);
    var ch := LegacyChallenge(k.p, key, rndB);
    var a := Answer(S_ADDITIONAL_FRAME, ch.0);
    var m := LegacyReply(r.p, key, false, a, rndA).value;
    HandshakeDelivered(link, cs, log, r, keyNo, Legacy(false), key, rndA, a, Admits(k, keyNo, key, ch.1, rndB, m.send).answer);
  }

  /** On such a link the library does what the two-party system does. */
  lemma StepOverLink(link: Link, cs: CmdSet, log: seq<Frame>, st: Sides, e: Event)
    requires NeverStalls(link, cs) && WellFormed(e) && Plays(link, cs, log, st, e)
    ensures var c, u := Call(link, cs, log, st.reader, e), After(st, e);
            c.session == u.reader && c.result == u.returned
  {
    hide Exchange, Authenticate, Traded, LoggedIn, Serves, Admitting, Reset, NeverStalls;
    match e
    case Login(keyNo, key, rndA, rndB) => LoginOverLink(link, cs, log, st, keyNo, key, rndA, rndB);
    case Command(t) => CommandOverLink(link, cs, log, st, t);
    case ResetChannel =>
  }

  //--------------------------------------------------------------------------
  // runs
  //--------------------------------------------------------------------------

  /** The library calls of a run, one after the other on one link. */
  ghost function Calls(link: Link, cs: CmdSet, log: seq<Frame>, s: Session, events: seq<Event>): (r: seq<Step>)
    requires NeverStalls(link, cs) && forall e <- events :: WellFormed(e)
    ensures |r| == |events|
    decreases |events|
  {
    hide Call, WellFormed, NeverStalls;
    if events == [] then []
    else
      var c := Call(link, cs, log, s, events[0]);
      [c] + Calls(link, cs, c.log, c.session, events[1..])
  }

  /** The link answers every event as the card of the two-party system does, and
      the commands are those the chain is claimed for. */
  ghost predicate HonestLink(link: Link, cs: CmdSet, log: seq<Frame>, st: Sides, events: seq<Event>)
    requires NeverStalls(link, cs) && forall e <- events :: WellFormed(e)
    decreases |events|
  {
    hide Call, WellFormed, NeverStalls, After, Plays, OnChain;
    events == []
    || (var e := events[0];
        && (e.Command? ==> OnChain(e.trade)) && Plays(link, cs, log, st, e)
        && HonestLink(link, cs, Call(link, cs, log, st.reader, e).log, After(st, e), events[1..]))
  }

  /** After each call the library's session and result are those of the
      two-party system, which is in step. */
  ghost predicate Tracks(calls: seq<Step>, states: seq<Sides>) {
    && |states| == |calls| + 1
    && forall i | 0 <= i < |calls| :: Tracked(calls[i], states[i + 1])
  }

  ghost predicate Tracked(c: Step, u: Sides) {
    c.session == u.reader && c.result == u.returned && InStep(u)
  }

  lemma TracksMore(c: Step, calls: seq<Step>, st: Sides, states: seq<Sides>)
    requires Tracks(calls, states) && Tracked(c, states[0])
    ensures Tracks([c] + calls, [st] + states)
  {
    hide Tracked;
    forall i | 0 <= i < |[c] + calls| ensures Tracked(([c] + calls)[i], ([st] + states)[i + 1]) {
      if i > 0 {
        var j := i - 1;
        assert Tracked(calls[j], states[j + 1]);
      }
    }
  }

  lemma TracksNone(states: seq<Sides>)
    requires |states| == 1
    ensures Tracks([], states)
  {}

  lemma RunStarts(st: Sides, events: seq<Event>)
    requires forall e <- events :: WellFormed(e)
    ensures Run(st, events)[0] == st
  {
    hide After, WellFormed;
  }

  /** The library over a link to an honest EV1 card, at every moment of every run. */
  lemma {:induction false} AlwaysInStepOverLink(link: Link, cs: CmdSet, log: seq<Frame>, st: Sides, events: seq<Event>)
    requires NeverStalls(link, cs) && forall e <- events :: WellFormed(e)
    requires InStep(st) && HonestLink(link, cs, log, st, events)
    ensures Tracks(Calls(link, cs, log, st.reader, events), Run(st, events))
    decreases |events|
  {
    hide Call, WellFormed, NeverStalls, After, Plays, OnChain, InStep, Tracks;
    if events == [] {
      TracksNone([st]);
    } else {
      var e := events[0];
      StepOverLink(link, cs, log, st, e);
      StepInStep(st, e);
      var c, u := Call(link, cs, log, st.reader, e), After(st, e);
      AlwaysInStepOverLink(link, cs, c.log, u, events[1..]);
      RunStarts(u, events[1..]);
      TracksMore(c, Calls(link, cs, c.log, u.reader, events[1..]), st, Run(u, events[1..]));
    }
  }

  //--------------------------------------------------------------------------
  // such a link exists for every run
  //--------------------------------------------------------------------------

  /** How many frames an event takes. */
  ghost function FrameCount(st: Sides, e: Event): nat
    requires WellFormed(e)
  {
    hide Begin, Chunks;
    match e
    case Login(_, _, _, _) => 2
    case Command(t) =>
      var b := Begin(st.reader, t.cmd, t.data, t.tx, t.rx).result;
      if b.Ok? then |Chunks(b.value)| else 0
    case ResetChannel => 0
  }

  /** What the card answers to frame `i` of an event. */
  ghost function Scripted(cs: CmdSet, st: Sides, e: Event, i: nat): Result<Bytes>
    requires WellFormed(e)
  {
    hide HandshakeScript, CommandScript, Reset;
    match e
    case Login(keyNo, key, rndA, rndB) => HandshakeScript(cs, Reset(st.reader), Reset(st.card), keyNo, key, rndA, rndB, i)
    case Command(t) => CommandScript(cs, st, t, i)
    case ResetChannel => Err(Transport)
  }

  ghost function HandshakeScript(cs: CmdSet, r: Session, k: Session, keyNo: byte, key: Key, rndA: Bytes, rndB: Bytes, i: nat)
    : Result<Bytes>
    requires |rndA| == |rndB| == NonceLength(key.kind)
  {
    hide LegacyChallenge, LegacyReply, Admits, Bare;
    var ch := LegacyChallenge(k.p, key, rndB);
    var m := LegacyReply(r.p, key, false, Answer(S_ADDITIONAL_FRAME, ch.0), rndA);
    if i == 0 then Bare(cs, Answer(S_ADDITIONAL_FRAME, ch.0))
    else if m.Ok? then Bare(cs, Admits(k, keyNo, key, ch.1, rndB, m.value.send).answer)
    else Err(Transport)
  }

  ghost function CommandScript(cs: CmdSet, st: Sides, t: Trade, i: nat): Result<Bytes> {
    hide Begin, Answers, Chunks, Bare;
    var b := Begin(st.reader, t.cmd, t.data, t.tx, t.rx).result;
    if b.Err? then Err(Transport)
    else if i + 1 < |Chunks(b.value)| then Bare(cs, Answer(MORE, []))
    else Bare(cs, Answers(st.card, b.value, t).answer)
  }

  /** The card of a run as a link: the answer depends on how many frames there
      were, the first of the run being frame `from`. */
  ghost function Script(cs: CmdSet, st: Sides, from: nat, events: seq<Event>, n: nat): Result<Bytes>
    requires forall e <- events :: WellFormed(e)
    decreases |events|
  {
    hide FrameCount, Scripted, After, WellFormed;
    if events == [] || n < from then Err(Transport)
    else
      var c := FrameCount(st, events[0]);
      if n < from + c then Scripted(cs, st, events[0], n - from)
      else Script(cs, After(st, events[0]), from + c, events[1..], n)
  }

  /** The link answers as the script says, from frame `from` on. */
  ghost predicate Follows(link: Link, cs: CmdSet, st: Sides, from: nat, events: seq<Event>)
    requires forall e <- events :: WellFormed(e)
  {
    forall log | |log| > from :: link(log) == Script(cs, st, from, events, |log| - 1)
  }

  /** An answer of a command on the chain is a final one and fits the buffer. */
  lemma AnswerGood(k: Session, wire: Bytes, t: Trade)
    requires OnChain(t)
    ensures var a := Answers(k, wire, t).answer; a.status != MORE && |a.data| <= MAX_RESPONSE
  {
    hide OpenEv1, Reset, HeaderLength, TooLongByMac, Ev1Mac;
  }

  lemma CommandScripted(link: Link, cs: CmdSet, log: seq<Frame>, st: Sides, t: Trade)
    requires NeverStalls(link, cs) && OnChain(t)
    requires var b := Begin(st.reader, t.cmd, t.data, t.tx, t.rx).result;
             b.Ok? ==> forall l | |log| < |l| <= |log| + |Chunks(b.value)| :: link(l) == CommandScript(cs, st, t, |l| - |log| - 1)
    ensures Serves(link, cs, log, st, t)
    ensures var b := Begin(st.reader, t.cmd, t.data, t.tx, t.rx).result;
            |Exchange(link, cs, log, st.reader, t.cmd, t.data, t.tx, t.rx, t.cap).log|
            == |log| + if b.Ok? then |Chunks(b.value)| else 0
  {
    hide Begin, Answers, Chunks, NeverStalls, OnChain, Bare, RawExchange, Arrived;
    var b := Begin(st.reader, t.cmd, t.data, t.tx, t.rx).result;
    if b.Ok? {
      assert Speaks(link, cs, |log|, |Chunks(b.value)|, Answers(st.card, b.value, t).answer);
      AnswerGood(st.card, b.value, t);
      hide Speaks, Exchange, Serves;
      SpeaksServes(link, cs, log, st, t);
    }
  }

  lemma SpeaksServes(link: Link, cs: CmdSet, log: seq<Frame>, st: Sides, t: Trade)
    requires NeverStalls(link, cs) && Begin(st.reader, t.cmd, t.data, t.tx, t.rx).result.Ok?
    requires var wire := Begin(st.reader, t.cmd, t.data, t.tx, t.rx).result.value;
             var a := Answers(st.card, wire, t).answer;
             Speaks(link, cs, |log|, |Chunks(wire)|, a) && a.status != MORE && |a.data| <= MAX_RESPONSE
    ensures Serves(link, cs, log, st, t)
    ensures |Exchange(link, cs, log, st.reader, t.cmd, t.data, t.tx, t.rx, t.cap).log|
         == |log| + |Chunks(Begin(st.reader, t.cmd, t.data, t.tx, t.rx).result.value)|
  {
    hide Begin, Answers, Chunks, RequestFrames, Exchange, Arrived, NeverStalls, Replies, Speaks, Wrap;
    var wire := Begin(st.reader, t.cmd, t.data, t.tx, t.rx).result.value;
    var a := Answers(st.card, wire, t).answer;
    var full := log + RequestFrames(cs, t.cmd, Chunks(wire));
    SpeaksReplies(link, cs, |log|, full, a);
    Delivered(link, cs, log, st.reader, t.cmd, t.data, t.tx, t.rx, t.cap, a, [a.data]);
    AskedNext(cs, full, 0);
  }

  lemma HandshakeScripted(link: Link, cs: CmdSet, log: seq<Frame>, r: Session, k: Session, keyNo: byte, key: Key,
                          rndA: Bytes, rndB: Bytes)
    requires |rndA| == |rndB| == NonceLength(key.kind)
    requires forall l | |log| < |l| <= |log| + 2 :: link(l) == HandshakeScript(cs, r, k, keyNo, key, rndA, rndB, |l| - |log| - 1)
    ensures Admitting(link, cs, log, r, k, keyNo, key, rndA, rndB)
    ensures |Handshake(link, cs, log, r, keyNo, Legacy(false), key, rndA).log| == |log| + 2
  {
    hide LegacyChallenge, LegacyReply, LegacyFinish, Admits, Parse, Wrap, Handshake, Bare;
    HandshakeSizes(r.p, k, keyNo, key, rndA, rndB);
    var ch := LegacyChallenge(k.p, key, rndB);
    var a := Answer(S_ADDITIONAL_FRAME, ch.0);
    var m := LegacyReply(r.p, key, false, a, rndA).value;
    var b := Admits(k, keyNo, key, ch.1, rndB, m.send).answer;
    BareParsed(cs, a);
    BareParsed(cs, b);
    HandshakeDelivered(link, cs, log, r, keyNo, Legacy(false), key, rndA, a, b);
  }

  /** A link that follows the script of an event plays it, in as many frames. */
  lemma EventScripted(link: Link, cs: CmdSet, log: seq<Frame>, st: Sides, e: Event)
    requires NeverStalls(link, cs) && WellFormed(e) && (e.Command? ==> OnChain(e.trade))
    requires forall l | |log| < |l| <= |log| + FrameCount(st, e) :: link(l) == Scripted(cs, st, e, |l| - |log| - 1)
    ensures Plays(link, cs, log, st, e)
    ensures |Call(link, cs, log, st.reader, e).log| == |log| + FrameCount(st, e)
  {
    hide Exchange, Handshake, Authenticate, Serves, Admitting, Reset, NeverStalls, CommandScript, HandshakeScript, Chunks,
         Begin, OnChain;
    match e
    case Login(keyNo, key, rndA, rndB) =>
      LoginIsHandshake(link, cs, log, st.reader, keyNo, key, rndA);
      HandshakeScripted(link, cs, log, Reset(st.reader), Reset(st.card), keyNo, key, rndA, rndB);
    case Command(t) => CommandScripted(link, cs, log, st, t);
    case ResetChannel =>
  }

  /** A link that follows the script of a run is an honest link for it. */
  lemma {:induction false} ScriptIsHonest(link: Link, cs: CmdSet, log: seq<Frame>, st: Sides, events: seq<Event>)
    requires NeverStalls(link, cs) && forall e <- events :: WellFormed(e) && (e.Command? ==> OnChain(e.trade))
    requires Follows(link, cs, st, |log|, events)
    ensures HonestLink(link, cs, log, st, events)
    decreases |events|
  {
    hide Call, WellFormed, NeverStalls, After, Plays, OnChain, FrameCount, Scripted;
    if events != [] {
      var e := events[0];
      EventScripted(link, cs, log, st, e);
      var c := Call(link, cs, log, st.reader, e);
      forall l | |l| > |c.log| ensures link(l) == Script(cs, After(st, e), |c.log|, events[1..], |l| - 1) {
        assert link(l) == Script(cs, st, |log|, events, |l| - 1);
      }
      ScriptIsHonest(link, cs, c.log, After(st, e), events[1..]);
    }
  }

  /** Behind its last frame a script has nothing to say. */
  lemma {:induction false} ScriptEnds(cs: CmdSet, st: Sides, from: nat, events: seq<Event>) returns (end: nat)
    requires forall e <- events :: WellFormed(e)
    ensures end >= from && forall n: nat | n >= end :: Script(cs, st, from, events, n) == Err(Transport)
    decreases |events|
  {
    hide After, WellFormed, FrameCount, Scripted;
    end := from;
    if events != [] {
      end := ScriptEnds(cs, After(st, events[0]), from + FrameCount(st, events[0]), events[1..]);
    }
  }

  ghost function ScriptLink(cs: CmdSet, st: Sides, from: nat, events: seq<Event>): Link
    requires forall e <- events :: WellFormed(e)
  {
    (log: seq<Frame>) => if |log| > from then Script(cs, st, from, events, |log| - 1) else Err(Transport)
  }

  /** Every run of such commands, with either framing, has a link that plays it: the
      theorem above is about something. */
  lemma HonestLinkExists(cs: CmdSet, log: seq<Frame>, st: Sides, events: seq<Event>) returns (link: Link)
    requires forall e <- events :: WellFormed(e) && (e.Command? ==> OnChain(e.trade))
    ensures NeverStalls(link, cs) && HonestLink(link, cs, log, st, events)
  {
    hide Script, WellFormed, OnChain;
    link := ScriptLink(cs, st, |log|, events);
    var end := ScriptEnds(cs, st, |log|, events);
    forall l ensures !StallsAfter(link, cs, l) {
      var n := end + 1;
      assert !Stalling(link, cs, l, n) by { hide Asked; }
    }
    ScriptIsHonest(link, cs, log, st, events);
  }
}
