/** Native frames, their ISO 7816-4 wrapping, and 0xAF chaining in both
    directions. The transport is a strategy: its answer to the newest frame may
    depend on everything sent before. */
module Framing {
  import opened ByteStrings
  import opened Results

  datatype CmdSet = Native | NativeIso | Iso

  type Frame = Bytes
  type Link = seq<Frame> -> Result<Bytes>

  /** Status and data of an answer. */
  datatype Answer = Answer(status: byte, data: Bytes)

  /** Outcome of an exchange together with all frames sent so far. */
  datatype Raw = Raw(result: Result<Answer>, log: seq<Frame>)

  const MORE: byte := 0xAF           // DF_ADDITIONAL_FRAME, as command and as status
  const TX_FRAME_MAX: nat := 54      // NXPSC_TX_FRAME_MAX
  const MAX_APDU: nat := 264         // NXPSC_MAX_APDU

  /** One native frame, bare or in an ISO 7816-4 APDU. */
  function Wrap(cs: CmdSet, cmd: byte, data: Bytes): Frame {
    if cs.Native? then [cmd] + data
    else [0x90, cmd, 0x00, 0x00] + (if data == [] then [] else [Byte(|data| % 256)] + data) + [0x00]
  }

  /** What frame_exchange makes of the bytes that came back. */
  function Parse(cs: CmdSet, rx: Result<Bytes>): Result<Answer> {
    match rx
    case Err(e) => Err(e)
    case Ok(b) =>
      var n := |b|;
      if n == 0 then Err(Transport)
      else if cs.Native? then Ok(Answer(b[0], b[1..]))
      else if n < 2 then Err(Length)
      else if b[n - 2] != 0x91 then Err(Error.Card)
      else Ok(Answer(b[n - 1], b[..n - 2]))
  }

  /** The bytes of an APDU: class 90, the command, two zeros; the length and the data if
      there are any; and a zero. A native frame is command and data. */
  lemma WrapHolds(cs: CmdSet, cmd: byte, data: Bytes)
    ensures cs.Native? ==> |Wrap(cs, cmd, data)| == 1 + |data| && Wrap(cs, cmd, data)[0] == cmd && Wrap(cs, cmd, data)[1..] == data
    ensures var w, n := Wrap(cs, cmd, data), |data|;
            !cs.Native? ==>
              && |w| == (if n == 0 then 5 else 6 + n) && w[0] == 0x90 && w[1] == cmd && w[2] == 0x00 && w[3] == 0x00
              && w[|w| - 1] == 0x00 && (n > 0 ==> Num(w[4]) == n % 256 && w[5..5 + n] == data)
  {
    hide Num, Byte;
    if !cs.Native? && data != [] {
      assert Wrap(cs, cmd, data)[5..5 + |data|] == data;
    }
  }

  /** What is taken from a response: a status byte in front of the data, or 91 and the
      status byte behind. */
  lemma ParseHolds(cs: CmdSet, sw1: byte, status: byte, data: Bytes)
    ensures Parse(Native, Ok([status] + data)) == Ok(Answer(status, data))
    ensures !cs.Native? ==> Parse(cs, Ok(data + [sw1, status])) == if sw1 == 0x91 then Ok(Answer(status, data)) else Err(Error.Card)
    ensures Parse(cs, Ok([])) == Err(Transport) && (!cs.Native? ==> Parse(cs, Ok([status])) == Err(Length))
  {
    var n, w := [status] + data, data + [sw1, status];
    assert n[1..] == data && w[..|w| - 2] == data;
  }

  /** The frame sizes of the library, and the byte that asks for more. */
  lemma Limits()
    ensures TX_FRAME_MAX == 54 && MAX_APDU == 264 && MAX_RESPONSE == 4096 && MORE == 0xAF
  {}

  function FrameExchange(link: Link, cs: CmdSet, log: seq<Frame>, cmd: byte, data: Bytes): Raw {
    if |data| > MAX_APDU - 6 then Raw(Err(Length), log)
    else
      var sent := log + [Wrap(cs, cmd, data)];
      Raw(Parse(cs, link(sent)), sent)
  }

  /** unwrap_wrapped_native: the card side of the wrapping, into `cap` bytes. */
  function Unwrap(tx: Frame, cap: nat): Result<Bytes> {
    if |tx| < 5 || cap < 1 then Err(Param)
    else if |tx| == 5 then Ok([tx[1]])
    else
      var lc := Num(tx[4]);
      if lc == 0 || |tx| != 6 + lc || lc > cap - 1 then Err(Length)
      else Ok([tx[1]] + tx[5..5 + lc])
  }

  lemma UnwrapUndoesWrap(cs: CmdSet, cmd: byte, data: Bytes, cap: nat)
    requires !cs.Native? && |data| < cap && |data| < 256
    ensures Unwrap(Wrap(cs, cmd, data), cap) == Ok([cmd] + data)
  {
    hide Byte, Num, Unwrap;
    if data == [] {
      assert Wrap(cs, cmd, data) == [0x90, cmd, 0x00, 0x00, 0x00] && [cmd] + data == [cmd];
      UnwrapShort(cmd, cap);
    } else {
      var lc := Byte(|data|);
      assert |data| % 256 == |data|;
      assert Wrap(cs, cmd, data) == [0x90, cmd, 0x00, 0x00] + ([lc] + data) + [0x00];
      UnwrapLong(cmd, lc, data, cap);
    }
  }

  lemma UnwrapShort(cmd: byte, cap: nat)
    requires cap > 0
    ensures Unwrap([0x90, cmd, 0x00, 0x00, 0x00], cap) == Ok([cmd])
  {}

  lemma UnwrapLong(cmd: byte, lc: byte, data: Bytes, cap: nat)
    requires 0 < |data| < cap && Num(lc) == |data|
    ensures Unwrap([0x90, cmd, 0x00, 0x00] + ([lc] + data) + [0x00], cap) == Ok([cmd] + data)
  {
    hide Num;
    var tx := [0x90, cmd, 0x00, 0x00] + ([lc] + data) + [0x00];
    assert |tx| == 6 + |data| && tx[1] == cmd && tx[4] == lc && tx[5..5 + |data|] == data;
  }

  //--------------------------------------------------------------------------
  // nxpsc_raw_exchange_ex
  //--------------------------------------------------------------------------

  /** Command chaining: `data` from the current chunk on; every frame but the
      last has to be acknowledged with MORE. */
  function SendChunks(link: Link, cs: CmdSet, log: seq<Frame>, cmd: byte, data: Bytes, cap: nat): Raw
    decreases |data|
  {
    var take := Min(|data|, TX_FRAME_MAX);
    var r := FrameExchange(link, cs, log, cmd, data[..take]);
    if r.result.Err? then r
    else if take < |data| then
      if r.result.value.status != MORE then Raw(Err(Error.Card), r.log)
      else SendChunks(link, cs, r.log, MORE, data[take..], cap)
    else if |r.result.value.data| > cap then Raw(Err(Length), r.log)
    else r
  }

  /** The frames after `n` more continuation frames have been asked for. */
  function Asked(cs: CmdSet, log: seq<Frame>, n: nat): (r: seq<Frame>)
    ensures |r| == |log| + n
    decreases n
  {
    hide Wrap;
    if n == 0 then log else Asked(cs, log + [Wrap(cs, MORE, [])], n - 1)
  }

  /** The answer to the `n`th of them asks for another one and brings nothing. */
  predicate Stalling(link: Link, cs: CmdSet, log: seq<Frame>, n: nat) {
    Parse(cs, link(Asked(cs, log, n))) == Ok(Answer(MORE, []))
  }

  /** So do all answers from here on. */
  ghost predicate StallsAfter(link: Link, cs: CmdSet, log: seq<Frame>) {
    forall n: nat :: n >= 1 ==> Stalling(link, cs, log, n)
  }

  /** After no history does the card go on like that for ever. */
  ghost predicate NeverStalls(link: Link, cs: CmdSet) {
    forall log :: !StallsAfter(link, cs, log)
  }

  /** The first answer that is not empty, or not chained. */
  ghost function Patience(link: Link, cs: CmdSet, log: seq<Frame>): (n: nat)
    requires NeverStalls(link, cs)
    ensures n >= 1 && !Stalling(link, cs, log, n)
    ensures forall m | 1 <= m < n :: Stalling(link, cs, log, m)
  {
    hide Stalling;
    assert !StallsAfter(link, cs, log);
    var bound: nat :| bound >= 1 && !Stalling(link, cs, log, bound);
    FirstOf(link, cs, log, 1, bound)
  }

  ghost function FirstOf(link: Link, cs: CmdSet, log: seq<Frame>, from: nat, bound: nat): (n: nat)
    requires from <= bound && !Stalling(link, cs, log, bound)
    ensures from <= n <= bound && !Stalling(link, cs, log, n)
    ensures forall m | from <= m < n :: Stalling(link, cs, log, m)
    decreases bound - from
  {
    hide Stalling;
    if Stalling(link, cs, log, from) then FirstOf(link, cs, log, from + 1, bound) else from
  }

  lemma AskedNext(cs: CmdSet, log: seq<Frame>, n: nat)
    ensures Asked(cs, log, 0) == log
    ensures Asked(cs, log, n + 1) == Asked(cs, log + [Wrap(cs, MORE, [])], n)
  {
    hide Wrap;
  }

  lemma StallingNext(link: Link, cs: CmdSet, log: seq<Frame>, n: nat)
    ensures Stalling(link, cs, log, n + 1) <==> Stalling(link, cs, log + [Wrap(cs, MORE, [])], n)
    ensures Stalling(link, cs, log, 1) <==> FrameExchange(link, cs, log, MORE, []).result == Ok(Answer(MORE, []))
  {
    hide Wrap, Parse, Asked;
    AskedNext(cs, log, n);
    AskedNext(cs, log, 0);
    AskedNext(cs, log + [Wrap(cs, MORE, [])], 0);
  }

  /** Asking once more after an empty chained answer uses up patience. */
  lemma PatienceFalls(link: Link, cs: CmdSet, log: seq<Frame>)
    requires NeverStalls(link, cs)
    ensures var r := FrameExchange(link, cs, log, MORE, []);
            r.result == Ok(Answer(MORE, [])) ==> Patience(link, cs, r.log) < Patience(link, cs, log)
  {
    hide Wrap, Parse, Stalling, NeverStalls;
    var r := FrameExchange(link, cs, log, MORE, []);
    var n := Patience(link, cs, log);
    StallingNext(link, cs, log, n - 1);
    if r.result == Ok(Answer(MORE, [])) {
      assert n != 1;
      assert !Stalling(link, cs, r.log, n - 1);
    }
  }

  /** Response chaining. */
  ghost function Follow(link: Link, cs: CmdSet, log: seq<Frame>, a: Answer, cap: nat): Raw
    requires NeverStalls(link, cs) && |a.data| <= cap
    decreases cap - |a.data|, if a.status == MORE then 1 else 0, Patience(link, cs, log)
  {
    hide NeverStalls, Stalling;
    if a.status != MORE then Raw(Ok(a), log)
    else
      var r := FrameExchange(link, cs, log, MORE, []);
      if r.result.Err? then r
      else
        var b := r.result.value;
        if |a.data| + |b.data| > cap then Raw(Err(Length), r.log)
        else
          PatienceFalls(link, cs, log);
          Follow(link, cs, r.log, Answer(b.status, a.data + b.data), cap)
  }

  /** A card that stalls is only a danger to a caller that follows. */
  ghost function RawExchange(link: Link, cs: CmdSet, log: seq<Frame>, cmd: byte, data: Bytes, cap: nat, follow: bool): Raw
    requires follow ==> NeverStalls(link, cs)
  {
    var r := SendChunks(link, cs, log, cmd, data, cap);
    if r.result.Err? || !follow then r
    else
      SendFits(link, cs, log, cmd, data, cap);
      Follow(link, cs, r.log, r.result.value, cap)
  }

  lemma {:induction false} SendFits(link: Link, cs: CmdSet, log: seq<Frame>, cmd: byte, data: Bytes, cap: nat)
    ensures var r := SendChunks(link, cs, log, cmd, data, cap).result; r.Ok? ==> |r.value.data| <= cap
    decreases |data|
  {
    hide FrameExchange;
    var take := Min(|data|, TX_FRAME_MAX);
    if take < |data| {
      SendFits(link, cs, FrameExchange(link, cs, log, cmd, data[..take]).log, MORE, data[take..], cap);
    }
  }

  //--------------------------------------------------------------------------
  // what goes out and what comes back
  //--------------------------------------------------------------------------

  /** The chunks of a payload; an empty payload still takes one frame. */
  function Chunks(data: Bytes): (c: seq<Bytes>)
    ensures |c| == Max(1, (|data| + TX_FRAME_MAX - 1) / TX_FRAME_MAX)
    ensures forall i | 0 <= i < |c| :: |c[i]| <= TX_FRAME_MAX
    ensures Concat(c) == data
    decreases |data|
  {
    if |data| <= TX_FRAME_MAX then
      assert Concat([data]) == data + Concat([data][1..]);
      [data]
    else
      var rest := Chunks(data[TX_FRAME_MAX..]);
      assert ([data[..TX_FRAME_MAX]] + rest)[1..] == rest;
      [data[..TX_FRAME_MAX]] + rest
  }

  function Concat(c: seq<Bytes>): Bytes {
    if c == [] then [] else c[0] + Concat(c[1..])
  }

  /** The frames of a request: the command byte first, then only MORE. */
  function RequestFrames(cs: CmdSet, cmd: byte, c: seq<Bytes>): (f: seq<Frame>)
    ensures |f| == |c|
  {
    seq(|c|, i requires 0 <= i < |c| => Wrap(cs, if i == 0 then cmd else MORE, c[i]))
  }

  /** The answer to frame `i` of a log. */
  function AnswerTo(link: Link, cs: CmdSet, log: seq<Frame>, i: nat): Result<Answer>
    requires i < |log|
  {
    Parse(cs, link(log[..i + 1]))
  }

  /** The data of the answers to frames `from` and later. */
  function Gathered(link: Link, cs: CmdSet, log: seq<Frame>, from: nat): Bytes
    requires from <= |log|
    decreases |log| - from
  {
    if from == |log| then []
    else
      var a := AnswerTo(link, cs, log, from);
      (if a.Ok? then a.value.data else []) + Gathered(link, cs, log, from + 1)
  }

  predicate Acknowledged(a: Result<Answer>) {
    a.Ok? && a.value.status == MORE
  }

  /** Cutting off the first chunk cuts off the first frame. */
  lemma FirstFrame(cs: CmdSet, cmd: byte, data: Bytes)
    ensures var take := Min(|data|, TX_FRAME_MAX);
            RequestFrames(cs, cmd, Chunks(data))
            == [Wrap(cs, cmd, data[..take])]
               + if take < |data| then RequestFrames(cs, MORE, Chunks(data[take..])) else []
  {
    hide Wrap, Concat;
    if |data| > TX_FRAME_MAX {
      FramesOfRest(cs, cmd, data[..TX_FRAME_MAX], Chunks(data[TX_FRAME_MAX..]));
    } else {
      assert data[..|data|] == data;
      FramesOfRest(cs, cmd, data, []);
    }
  }

  lemma FramesOfRest(cs: CmdSet, cmd: byte, first: Bytes, rest: seq<Bytes>)
    ensures RequestFrames(cs, cmd, [first] + rest) == [Wrap(cs, cmd, first)] + RequestFrames(cs, MORE, rest)
  {
    hide Wrap;
  }

  /** Whatever the card answers, what goes out is a nonempty prefix of the
      request frames; every frame but the newest was acknowledged; and success
      means all were sent and the result is the answer to the last. */
  lemma {:induction false} ChunksGoOut(link: Link, cs: CmdSet, log: seq<Frame>, cmd: byte, data: Bytes, cap: nat)
    ensures var r, f := SendChunks(link, cs, log, cmd, data, cap), RequestFrames(cs, cmd, Chunks(data));
            && log < r.log <= log + f
            && (forall i | |log| <= i < |r.log| - 1 :: Acknowledged(AnswerTo(link, cs, r.log, i)))
            && (r.result.Ok? ==> r.log == log + f && r.result == AnswerTo(link, cs, r.log, |r.log| - 1))
    decreases |data|
  {
    hide Wrap, Parse, Chunks, RequestFrames;
    var take := Min(|data|, TX_FRAME_MAX);
    var r := FrameExchange(link, cs, log, cmd, data[..take]);
    FirstFrame(cs, cmd, data);
    assert r.log[..|r.log|] == r.log;
    var g := if take < |data| then RequestFrames(cs, MORE, Chunks(data[take..])) else [];
    OneFrame(log, Wrap(cs, cmd, data[..take]), g);
    if take < |data| && r.result.Ok? && r.result.value.status == MORE {
      ChunksGoOut(link, cs, r.log, MORE, data[take..], cap);
      var s := SendChunks(link, cs, r.log, MORE, data[take..], cap);
      assert s.log[..|log| + 1] == r.log;
    }
  }

  lemma OneFrame(log: seq<Frame>, w: Frame, g: seq<Frame>)
    ensures log < log + [w] <= log + ([w] + g) == (log + [w]) + g
  {}

  /** A card that acknowledges every intermediate frame gets the whole payload,
      and its last answer is the result if it fits. */
  lemma {:induction false} AllChunksTaken(link: Link, cs: CmdSet, log: seq<Frame>, cmd: byte, data: Bytes, cap: nat)
    requires var full := log + RequestFrames(cs, cmd, Chunks(data));
             && (forall i | |log| <= i < |full| - 1 :: Acknowledged(AnswerTo(link, cs, full, i)))
             && AnswerTo(link, cs, full, |full| - 1).Ok?
    ensures var full := log + RequestFrames(cs, cmd, Chunks(data));
            var last := AnswerTo(link, cs, full, |full| - 1);
            SendChunks(link, cs, log, cmd, data, cap) == Raw(if |last.value.data| > cap then Err(Length) else last, full)
    decreases |data|
  {
    hide Wrap, Parse, Chunks, RequestFrames;
    var full := log + RequestFrames(cs, cmd, Chunks(data));
    var take := Min(|data|, TX_FRAME_MAX);
    var r := FrameExchange(link, cs, log, cmd, data[..take]);
    FirstFrame(cs, cmd, data);
    assert full[..|log| + 1] == r.log;
    assert r.result == AnswerTo(link, cs, full, |log|);
    if take < |data| {
      var g := RequestFrames(cs, MORE, Chunks(data[take..]));
      assert r.log + g == full;
      AllChunksTaken(link, cs, r.log, MORE, data[take..], cap);
    }
  }

  function Latest(link: Link, cs: CmdSet, log: seq<Frame>): Result<Answer>
    requires log != []
  {
    AnswerTo(link, cs, log, |log| - 1)
  }

  /** How the loops over the request frames end: with the first answer that is
      an error or no acknowledgement, or with the answer to the last frame. */
  lemma {:induction false} SendOutcome(link: Link, cs: CmdSet, log: seq<Frame>, cmd: byte, data: Bytes, cap: nat)
    ensures var r, f := SendChunks(link, cs, log, cmd, data, cap), RequestFrames(cs, cmd, Chunks(data));
            && log < r.log <= log + f
            && var n := Latest(link, cs, r.log);
               && r.result == (if n.Err? then n
                               else if r.log < log + f then Err(Error.Card)
                               else if |n.value.data| > cap then Err(Length) else n)
               && (n.Ok? && r.log < log + f ==> n.value.status != MORE)
    decreases |data|
  {
    hide Wrap, Parse, Chunks, RequestFrames;
    var take := Min(|data|, TX_FRAME_MAX);
    var r := FrameExchange(link, cs, log, cmd, data[..take]);
    FirstFrame(cs, cmd, data);
    assert r.log[..|r.log|] == r.log;
    var g := if take < |data| then RequestFrames(cs, MORE, Chunks(data[take..])) else [];
    OneFrame(log, Wrap(cs, cmd, data[..take]), g);
    if take < |data| {
      SomeFrame(cs, MORE, data[take..]);
      if r.result.Ok? && r.result.value.status == MORE {
        SendOutcome(link, cs, r.log, MORE, data[take..], cap);
      }
    }
  }

  lemma SomeFrame(cs: CmdSet, cmd: byte, data: Bytes)
    ensures RequestFrames(cs, cmd, Chunks(data)) != []
  {}

  /** What following an answer has done: sent only empty MORE frames, each but
      the newest acknowledged, and collected exactly the data of their answers,
      in order, until one of them is an error, is the last, or does not fit. */
  ghost predicate Collects(link: Link, cs: CmdSet, log: seq<Frame>, a: Answer, cap: nat, r: Raw) {
    && log <= r.log
    && (forall i | |log| <= i < |r.log| :: r.log[i] == Wrap(cs, MORE, []))
    && (forall i | |log| <= i < |r.log| - 1 :: Acknowledged(AnswerTo(link, cs, r.log, i)))
    && (r.log == log <==> a.status != MORE)
    && (if r.log == log then r.result == Ok(a)
        else
          var n, g := Latest(link, cs, r.log), a.data + Gathered(link, cs, r.log, |log|);
          && r.result == (if n.Err? then n else if |g| > cap then Err(Length) else Ok(Answer(n.value.status, g)))
          && (r.result.Ok? ==> n.value.status != MORE))
  }

  lemma {:induction false} FollowCollects(link: Link, cs: CmdSet, log: seq<Frame>, a: Answer, cap: nat)
    requires NeverStalls(link, cs) && |a.data| <= cap
    ensures Collects(link, cs, log, a, cap, Follow(link, cs, log, a, cap))
    decreases cap - |a.data|, if a.status == MORE then 1 else 0, Patience(link, cs, log)
  {
    hide Wrap, Parse, NeverStalls, Stalling, Collects, FrameExchange;
    if a.status == MORE {
      var r := FrameExchange(link, cs, log, MORE, []);
      if r.result.Err? || |a.data| + |r.result.value.data| > cap {
        CollectsLast(link, cs, log, a, cap);
      } else {
        var b := r.result.value;
        PatienceFalls(link, cs, log);
        var c := Answer(b.status, a.data + b.data);
        FollowCollects(link, cs, r.log, c, cap);
        CollectsMore(link, cs, log, a, cap, Follow(link, cs, r.log, c, cap));
      }
    } else {
      CollectsNone(link, cs, log, a, cap);
    }
  }

  lemma CollectsNone(link: Link, cs: CmdSet, log: seq<Frame>, a: Answer, cap: nat)
    requires a.status != MORE
    ensures Collects(link, cs, log, a, cap, Raw(Ok(a), log))
  {}

  lemma CollectsLast(link: Link, cs: CmdSet, log: seq<Frame>, a: Answer, cap: nat)
    requires var r := FrameExchange(link, cs, log, MORE, []).result;
             a.status == MORE && (r.Err? || |a.data| + |r.value.data| > cap)
    ensures var r := FrameExchange(link, cs, log, MORE, []);
            Collects(link, cs, log, a, cap, if r.result.Err? then r else Raw(Err(Length), r.log))
  {
    hide Wrap, Parse;
    var r := FrameExchange(link, cs, log, MORE, []);
    assert r.log[..|r.log|] == r.log;
    OneGathered(link, cs, r.log);
  }

  lemma CollectsMore(link: Link, cs: CmdSet, log: seq<Frame>, a: Answer, cap: nat, s: Raw)
    requires a.status == MORE && FrameExchange(link, cs, log, MORE, []).result.Ok?
    requires var r := FrameExchange(link, cs, log, MORE, []);
             var b := r.result.value;
             |a.data| + |b.data| <= cap && Collects(link, cs, r.log, Answer(b.status, a.data + b.data), cap, s)
    ensures Collects(link, cs, log, a, cap, s)
  {
    hide Wrap, Parse, Gathered;
    var r := FrameExchange(link, cs, log, MORE, []);
    var b := r.result.value;
    assert s.log[..|log| + 1] == r.log;
    assert AnswerTo(link, cs, s.log, |log|) == Ok(b);
    GatheredFrom(link, cs, s.log, |log|);
    if s.log != r.log {
      var g := Gathered(link, cs, s.log, |r.log|);
      assert (a.data + b.data) + g == a.data + (b.data + g);
    }
  }

  lemma OneGathered(link: Link, cs: CmdSet, log: seq<Frame>)
    requires log != []
    ensures var n := Latest(link, cs, log);
            Gathered(link, cs, log, |log| - 1) == if n.Ok? then n.value.data else []
  {
    assert Gathered(link, cs, log, |log|) == [];
  }

  /** What an exchange has done with a card: a nonempty prefix of the request
      frames went out, or all of them and then only empty MORE frames, each but
      the newest acknowledged. The newest answer decides how it ended. */
  ghost predicate Conserved(link: Link, cs: CmdSet, log: seq<Frame>, full: seq<Frame>, cap: nat, r: Raw)
    requires |full| > 0
  {
    && log < r.log && (r.log < full || full <= r.log)
    && (forall i | |log| <= i < |r.log| - 1 :: Acknowledged(AnswerTo(link, cs, r.log, i)))
    && (forall i | |full| <= i < |r.log| :: r.log[i] == Wrap(cs, MORE, []))
    && var n := Latest(link, cs, r.log);
       && r.result == (if n.Err? then n
                       else if r.log < full then Err(Error.Card)
                       else
                         var g := Gathered(link, cs, r.log, |full| - 1);
                         if |g| > cap then Err(Length) else Ok(Answer(n.value.status, g)))
       && (r.result.Ok? ==> n.value.status != MORE)
  }

  /** Conservation, for every card. A call that succeeds has sent exactly the
      request frames and then empty MORE frames, and returns exactly the answer
      to the last request frame followed by all continuation answers; one that
      fails was stopped by the newest answer or by a full buffer. */
  lemma Conservation(link: Link, cs: CmdSet, log: seq<Frame>, cmd: byte, data: Bytes, cap: nat)
    requires NeverStalls(link, cs)
    ensures var full := log + RequestFrames(cs, cmd, Chunks(data));
            |full| > 0 && Conserved(link, cs, log, full, cap, RawExchange(link, cs, log, cmd, data, cap, true))
  {
    hide Wrap, Parse, Chunks, RequestFrames, Follow, SendChunks, Collects, Conserved;
    ChunksGoOut(link, cs, log, cmd, data, cap);
    SendOutcome(link, cs, log, cmd, data, cap);
    SendFits(link, cs, log, cmd, data, cap);
    var s := SendChunks(link, cs, log, cmd, data, cap);
    var full := log + RequestFrames(cs, cmd, Chunks(data));
    if s.result.Ok? {
      FollowCollects(link, cs, s.log, s.result.value, cap);
      assert s.log[..|s.log|] == s.log;
      AllSent(link, cs, log, full, cap, s.result.value, Follow(link, cs, s.log, s.result.value, cap));
    } else {
      NotAllSent(link, cs, log, full, cap, s);
    }
  }

  lemma NotAllSent(link: Link, cs: CmdSet, log: seq<Frame>, full: seq<Frame>, cap: nat, s: Raw)
    requires log < s.log <= full && s.result.Err?
    requires forall i | |log| <= i < |s.log| - 1 :: Acknowledged(AnswerTo(link, cs, s.log, i))
    requires var n := Latest(link, cs, s.log);
             s.result == if n.Err? then n else if s.log < full then Err(Error.Card)
                         else if |n.value.data| > cap then Err(Length) else n
    ensures Conserved(link, cs, log, full, cap, s)
  {
    hide Wrap, Parse;
    OneGathered(link, cs, s.log);
  }

  lemma AllSent(link: Link, cs: CmdSet, log: seq<Frame>, full: seq<Frame>, cap: nat, a: Answer, r: Raw)
    requires log < full && Latest(link, cs, full) == Ok(a) && |a.data| <= cap
    requires forall i | |log| <= i < |full| - 1 :: Acknowledged(AnswerTo(link, cs, full, i))
    requires Collects(link, cs, full, a, cap, r)
    ensures Conserved(link, cs, log, full, cap, r)
  {
    hide Wrap, Parse, Gathered;
    var last := |full| - 1;
    assert r.log[..last + 1] == full && full[..last + 1] == full;
    assert AnswerTo(link, cs, r.log, last) == Ok(a);
    forall i | |log| <= i < |r.log| - 1 ensures Acknowledged(AnswerTo(link, cs, r.log, i)) {
      if i < last {
        assert r.log[..i + 1] == full[..i + 1] && Acknowledged(AnswerTo(link, cs, full, i));
      } else if i == last {
        assert r.log != full;
      }
    }
    GatheredFrom(link, cs, r.log, last);
  }

  lemma GatheredFrom(link: Link, cs: CmdSet, log: seq<Frame>, from: nat)
    requires from < |log| && AnswerTo(link, cs, log, from).Ok?
    ensures Gathered(link, cs, log, from) == AnswerTo(link, cs, log, from).value.data + Gathered(link, cs, log, from + 1)
    ensures from + 1 == |log| ==> Gathered(link, cs, log, from) == AnswerTo(link, cs, log, from).value.data
  {}

  //--------------------------------------------------------------------------
  // a card that carries the command out
  //--------------------------------------------------------------------------

  /** From frame `from` on the card acknowledges every part of a request and then
      answers `a`: in one piece, or in parts that it hands out when asked for
      more. `full` is the log with the last request frame. */
  ghost predicate Replies(link: Link, cs: CmdSet, from: nat, full: seq<Frame>, a: Answer, parts: seq<Bytes>) {
    && |full| > 0 && parts != [] && Concat(parts) == a.data && a.status != MORE
    && (forall i | from <= i < |full| - 1 :: Acknowledged(AnswerTo(link, cs, full, i)))
    && HandsOut(link, cs, full, a.status, parts)
  }

  ghost predicate HandsOut(link: Link, cs: CmdSet, log: seq<Frame>, status: byte, parts: seq<Bytes>)
    requires log != []
  {
    forall j | 0 <= j < |parts| ::
        Latest(link, cs, Asked(cs, log, j)) == Ok(Answer(if j + 1 < |parts| then MORE else status, parts[j]))
  }

  /** An answer on the wire. */
  function Bare(cs: CmdSet, a: Answer): Result<Bytes> {
    Ok(if cs.Native? then [a.status] + a.data else a.data + [0x91, a.status])
  }

  lemma BareParsed(cs: CmdSet, a: Answer)
    ensures Parse(cs, Bare(cs, a)) == Ok(a)
  {
    if cs.Native? {
      assert ([a.status] + a.data)[1..] == a.data;
    } else {
      assert (a.data + [0x91, a.status])[..|a.data|] == a.data;
    }
  }

  /** From frame `from` on: acknowledgements, and `a` at the last of `count` frames. */
  ghost predicate Speaks(link: Link, cs: CmdSet, from: nat, count: nat, a: Answer) {
    forall l | from < |l| <= from + count :: link(l) == Bare(cs, if |l| < from + count then Answer(MORE, []) else a)
  }

  lemma SpeaksReplies(link: Link, cs: CmdSet, from: nat, full: seq<Frame>, a: Answer)
    requires from < |full| && a.status != MORE && Speaks(link, cs, from, |full| - from, a)
    ensures Replies(link, cs, from, full, a, [a.data])
  {
    hide Parse, Bare;
    BareParsed(cs, a);
    BareParsed(cs, Answer(MORE, []));
    AskedNext(cs, full, 0);
    assert full[..|full|] == full;
    assert Concat([a.data]) == a.data + Concat([a.data][1..]);
    forall i | from <= i < |full| - 1 ensures Acknowledged(AnswerTo(link, cs, full, i)) {
      assert |full[..i + 1]| == i + 1;
    }
  }

  /** Following such an answer puts the parts together, if they fit. */
  lemma {:induction false} FollowParts(link: Link, cs: CmdSet, log: seq<Frame>, got: Bytes, status: byte, parts: seq<Bytes>,
                                       cap: nat)
    requires NeverStalls(link, cs) && log != [] && parts != [] && status != MORE && |got| <= cap
    requires HandsOut(link, cs, log, status, parts)
    ensures var all := got + Concat(parts[1..]);
            var r := Follow(link, cs, log, Answer(if |parts| > 1 then MORE else status, got), cap);
            && r.result == (if |all| > cap then Err(Length) else Ok(Answer(status, all)))
            && (|all| <= cap ==> r.log == Asked(cs, log, |parts| - 1))
    decreases |parts|
  {
    hide Wrap, Parse, NeverStalls, Stalling, HandsOut, Asked;
    AskedNext(cs, log, 0);
    if |parts| == 1 {
      assert got + [] == got;
    } else {
      var next := log + [Wrap(cs, MORE, [])];
      HandsOutNext(link, cs, log, status, parts);
      var b := parts[1];
      assert Concat(parts[1..]) == b + Concat(parts[1..][1..]) && parts[1..][1..] == parts[2..];
      assert got + (b + Concat(parts[2..])) == (got + b) + Concat(parts[2..]);
      if |got| + |b| <= cap {
        FollowParts(link, cs, next, got + b, status, parts[1..], cap);
        AskedNext(cs, log, |parts| - 2);
      }
    }
  }

  lemma HandsOutNext(link: Link, cs: CmdSet, log: seq<Frame>, status: byte, parts: seq<Bytes>)
    requires log != [] && |parts| > 1 && HandsOut(link, cs, log, status, parts)
    ensures var next := log + [Wrap(cs, MORE, [])];
            && HandsOut(link, cs, next, status, parts[1..])
            && FrameExchange(link, cs, log, MORE, [])
               == Raw(Ok(Answer(if |parts| > 2 then MORE else status, parts[1])), next)
  {
    hide Wrap, Parse, Asked;
    var next := log + [Wrap(cs, MORE, [])];
    forall j | 0 <= j < |parts| - 1
      ensures Latest(link, cs, Asked(cs, next, j)) == Ok(Answer(if j + 1 < |parts| - 1 then MORE else status, parts[1..][j]))
    {
      AskedNext(cs, log, j);
      assert Latest(link, cs, Asked(cs, log, j + 1)).Ok?;
    }
    AskedNext(cs, next, 0);
    assert next[..|next|] == next;
    assert Latest(link, cs, Asked(cs, next, 0)).Ok?;
  }

  /** The whole request goes out and the whole answer comes back, unless it is
      longer than the buffer: then the card has carried the command out and the
      reader reports a length error. */
  lemma Replied(link: Link, cs: CmdSet, log: seq<Frame>, cmd: byte, data: Bytes, cap: nat, a: Answer, parts: seq<Bytes>)
    requires NeverStalls(link, cs)
    requires Replies(link, cs, |log|, log + RequestFrames(cs, cmd, Chunks(data)), a, parts)
    ensures var full, r := log + RequestFrames(cs, cmd, Chunks(data)), RawExchange(link, cs, log, cmd, data, cap, true);
            && r.result == (if |a.data| > cap then Err(Length) else Ok(a))
            && (|a.data| <= cap ==> r.log == Asked(cs, full, |parts| - 1))
  {
    hide Wrap, Parse, Chunks, RequestFrames, Follow, SendChunks, Asked, NeverStalls;
    var full := log + RequestFrames(cs, cmd, Chunks(data));
    AskedNext(cs, full, 0);
    assert Latest(link, cs, Asked(cs, full, 0)).Ok?;
    AllChunksTaken(link, cs, log, cmd, data, cap);
    SendFits(link, cs, log, cmd, data, cap);
    assert Concat(parts) == parts[0] + Concat(parts[1..]);
    if |parts[0]| <= cap {
      FollowParts(link, cs, full, parts[0], a.status, parts, cap);
    }
  }

  //--------------------------------------------------------------------------
  // when response chaining ends
  //--------------------------------------------------------------------------

  /** The loop over continuation frames cut off after `n` rounds. */
  function Rounds(link: Link, cs: CmdSet, log: seq<Frame>, a: Answer, cap: nat, n: nat): Option<Raw>
    decreases n
  {
    if a.status != MORE then Some(Raw(Ok(a), log))
    else if n == 0 then None
    else
      var r := FrameExchange(link, cs, log, MORE, []);
      if r.result.Err? then Some(r)
      else
        var b := r.result.value;
        if |a.data| + |b.data| > cap then Some(Raw(Err(Length), r.log))
        else Rounds(link, cs, r.log, Answer(b.status, a.data + b.data), cap, n - 1)
  }

  /** The loop ends, after some number of rounds. */
  ghost predicate Ends(link: Link, cs: CmdSet, log: seq<Frame>, a: Answer, cap: nat) {
    exists n: nat :: Rounds(link, cs, log, a, cap, n).Some?
  }

  lemma {:induction false} FollowEnds(link: Link, cs: CmdSet, log: seq<Frame>, a: Answer, cap: nat) returns (n: nat)
    requires NeverStalls(link, cs) && |a.data| <= cap
    ensures Rounds(link, cs, log, a, cap, n) == Some(Follow(link, cs, log, a, cap))
    decreases cap - |a.data|, if a.status == MORE then 1 else 0, Patience(link, cs, log)
  {
    hide FrameExchange, NeverStalls, Stalling;
    n := 1;
    if a.status == MORE {
      var r := FrameExchange(link, cs, log, MORE, []);
      if r.result.Ok? && |a.data| + |r.result.value.data| <= cap {
        var b := r.result.value;
        PatienceFalls(link, cs, log);
        var m := FollowEnds(link, cs, r.log, Answer(b.status, a.data + b.data), cap);
        n := m + 1;
      }
    }
  }

  /** Where every further answer is empty and chained, no number of rounds is
      enough. */
  lemma {:induction false} StallsForever(link: Link, cs: CmdSet, log: seq<Frame>, a: Answer, cap: nat, n: nat)
    requires StallsAfter(link, cs, log) && a.status == MORE && |a.data| <= cap
    ensures Rounds(link, cs, log, a, cap, n).None?
    decreases n
  {
    hide Wrap, Parse, Stalling;
    if n > 0 {
      assert Stalling(link, cs, log, 1);
      StallingNext(link, cs, log, 0);
      var next := log + [Wrap(cs, MORE, [])];
      forall m: nat | m >= 1 ensures Stalling(link, cs, next, m) {
        StallingNext(link, cs, log, m);
      }
      assert a.data + [] == a.data;
      StallsForever(link, cs, next, a, cap, n - 1);
    }
  }

  /** Response chaining ends after every history, whatever was collected before
      and whatever room there is, exactly if the card never stalls. */
  lemma EndsExactly(link: Link, cs: CmdSet)
    ensures (forall log: seq<Frame>, a: Answer, cap: nat | |a.data| <= cap :: Ends(link, cs, log, a, cap)) <==> NeverStalls(link, cs)
  {
    hide Rounds, Stalling, Patience;
    if NeverStalls(link, cs) {
      forall log: seq<Frame>, a: Answer, cap: nat | |a.data| <= cap ensures Ends(link, cs, log, a, cap) {
        var n := FollowEnds(link, cs, log, a, cap);
      }
    } else {
      var log :| StallsAfter(link, cs, log);
      forall n: nat ensures Rounds(link, cs, log, Answer(MORE, []), 0, n).None? {
        StallsForever(link, cs, log, Answer(MORE, []), 0, n);
      }
      assert !Ends(link, cs, log, Answer(MORE, []), 0);
    }
  }

  /** A card that answers every frame with a bare 0xAF is asked for ever. */
  lemma AskedForever(log: seq<Frame>, cap: nat, n: nat)
    ensures Rounds(_ => Ok([MORE]), Native, log, Answer(MORE, []), cap, n).None?
  {
    hide Rounds;
    var link: Link := _ => Ok([MORE]);
    var b: Bytes := [MORE];
    assert b[1..] == [];
    assert StallsAfter(link, Native, log);
    StallsForever(link, Native, log, Answer(MORE, []), cap, n);
  }

  /** nxpsc_raw_exchange_ex on a response buffer: `sent` and `total` move on as
      frames go out and answers come in. */
  method RawExchangeInto(link: Link, cs: CmdSet, before: seq<Frame>, cmd: byte, data: Bytes,
                         resp: array<byte>, follow: bool)
    returns (rc: Result<byte>, respLen: nat, log: seq<Frame>)
    requires follow ==> NeverStalls(link, cs)
    modifies resp
    ensures respLen <= resp.Length
    ensures var r := RawExchange(link, cs, before, cmd, data, resp.Length, follow);
            log == r.log && match r.result
                            case Ok(a) => rc == Ok(a.status) && resp[..respLen] == a.data
                            case Err(e) => rc == Err(e) && respLen == 0
  {
    hide FrameExchange, Splice, NeverStalls, Stalling;
    ghost var goal := SendChunks(link, cs, before, cmd, data, resp.Length);
    SendFits(link, cs, before, cmd, data, resp.Length);
    respLen, log := 0, before;
    var sent, total, status := 0, 0, MORE;
    var frameCmd := cmd;
    var sending := true;
    assert data[0..] == data;
    while sending
      invariant sent <= |data| && 0 <= total <= resp.Length
      invariant sending ==> goal == SendChunks(link, cs, log, frameCmd, data[sent..], resp.Length)
      invariant !sending ==> goal == Raw(Ok(Answer(status, resp[..total])), log)
      decreases sending, |data| - sent
    {
      var rest := data[sent..];
      var take := Min(|rest|, TX_FRAME_MAX);
      var r := FrameExchange(link, cs, log, frameCmd, rest[..take]);
      log := r.log;
      if r.result.Err? {
        return Err(r.result.error), 0, log;
      }
      status := r.result.value.status;
      sent := sent + take;
      frameCmd := MORE;
      if sent < |data| {
        assert data[sent..] == rest[take..];
        if status != MORE {
          return Err(Error.Card), 0, log;
        }
      } else {
        var got := r.result.value.data;
        if |got| > resp.Length {
          return Err(Length), 0, log;
        }
        Append(resp, 0, got);
        assert resp[..|got|] == got && Answer(status, got) == r.result.value;
        total := |got|;
        sending := false;
      }
    }
    ghost var whole := RawExchange(link, cs, before, cmd, data, resp.Length, follow);
    while follow && status == MORE
      invariant 0 <= total <= resp.Length && (follow ==> NeverStalls(link, cs))
      invariant follow ==> whole == Follow(link, cs, log, Answer(status, resp[..total]), resp.Length)
      invariant !follow ==> whole == Raw(Ok(Answer(status, resp[..total])), log)
      decreases resp.Length - total, if status == MORE then 1 else 0, if follow then Patience(link, cs, log) else 0
    {
      PatienceFalls(link, cs, log);
      var r := FrameExchange(link, cs, log, MORE, []);
      log := r.log;
      if r.result.Err? {
        return Err(r.result.error), 0, log;
      }
      var got := r.result.value.data;
      if total + |got| > resp.Length {
        return Err(Length), 0, log;
      }
      status := r.result.value.status;
      Append(resp, total, got);
      total := total + |got|;
    }
    rc, respLen := Ok(status), total;
  }

  /** Copying behind what is already there. */
  method Append(resp: array<byte>, total: nat, got: Bytes)
    requires total + |got| <= resp.Length
    modifies resp
    ensures resp[..total + |got|] == old(resp[..total]) + got
  {
    Blit(resp, total, got);
  }
}
