/** The card side of the D40 and EV1 channels, the mirror of the reader's
    encoder and decoder. Unlike on EV2, the card has to know the length of an
    enciphered request from the command: the zero padding carries none. */
module PeerLegacy {
  import opened ByteStrings
  import opened Results
  import opened Ciphers
  import opened Sessions
  import opened Codecs
  import opened Crc
  import opened CrcSearch
  import opened CrcExact
  import opened Peer
  import Cbc
  import Cmac

  //--------------------------------------------------------------------------
  // EV1 requests
  //--------------------------------------------------------------------------

  /** Nothing of the request is enciphered. */
  predicate InClear(mode: Mode, cmd: byte, n: nat) {
    mode.Plain? || mode.Mac? || (mode.Enc? && n <= Header(cmd, n))
  }

  /** Opens a request in clear: strips and checks a transmitted MAC, and moves
      the chain on by the MAC over command and payload either way. */
  function OpenEv1Clear(k: Session, cmd: byte, wire: Bytes, mode: Mode, n: nat): (r: Outcome)
    ensures r.session.p == k.p
  {
    hide Ev1Mac;
    var sends := mode.Mac? && TransmitsMac(EV1, cmd);
    if |wire| != n + (if sends then 8 else 0) then Outcome(Err(Length), k)
    else
      var mac := Ev1Mac(k, [cmd] + wire[..n]);
      if sends && mac[..8] != wire[n..] then Outcome(Err(Error.Crypto), k)
      else Outcome(Ok(wire[..n]), WithIv(k, mac))
  }

  /** Deciphers along the chain, takes the payload and checks that checksum and
      padding behind it are what the reader adds. */
  function OpenEv1Enciphered(k: Session, cmd: byte, wire: Bytes, n: nat): (r: Outcome)
    ensures r.session.p == k.p
  {
    hide Ev1Plain, Cbc.Crypt;
    var c := EncCipher(k);
    var h := Header(cmd, n);
    if |wire| < h || !Cbc.Whole(c, wire[h..]) then Outcome(Err(Length), k)
    else
      var d := Cbc.Crypt(c, k.iv[..Block(c)], wire[h..], false);
      if |d.0| < n - h then Outcome(Err(Length), k)
      else
        var src := wire[..h] + d.0[..n - h];
        if d.0 != Ev1Plain(k, cmd, src, h) then Outcome(Err(Error.Crypto), k)
        else Outcome(Ok(src), WithIv(k, d.1))
  }

  /** A request of `n` payload bytes, in the communication mode of the session. */
  function OpenEv1(k: Session, cmd: byte, wire: Bytes, n: nat): (r: Outcome)
    ensures r.session.p == k.p
  {
    hide OpenEv1Clear, OpenEv1Enciphered;
    if InClear(k.mode, cmd, n) then OpenEv1Clear(k, cmd, wire, k.mode, n)
    else if k.mode.EncPlain? && n <= Header(cmd, n) then Outcome(Ok(wire), k)
    else OpenEv1Enciphered(k, cmd, wire, n)
  }

  lemma SameEv1(r: Session, k: Session, data: Bytes, cmd: byte, src: Bytes, h: nat)
    requires Agree(r, k) && h <= |src|
    ensures Ev1Mac(r, data) == Ev1Mac(k, data)
    ensures r.mode == k.mode ==> Ev1Plain(r, cmd, src, h) == Ev1Plain(k, cmd, src, h)
  {
    hide Cmac.MacOf, CrcOf, ZeroPadded;
  }

  lemma ClearRoundTrip(r: Session, k: Session, cmd: byte, src: Bytes)
    requires Agree(r, k) && InClear(r.mode, cmd, |src|)
    ensures var mac := Ev1Mac(r, [cmd] + src);
            var wire := if r.mode.Mac? && TransmitsMac(EV1, cmd) then src + mac[..8] else src;
            OpenEv1Clear(k, cmd, wire, r.mode, |src|) == Outcome(Ok(src), WithIv(k, mac))
  {
    hide Cmac.MacOf, WithIv, Ev1Mac;
    var mac := Ev1Mac(r, [cmd] + src);
    SameEv1(r, k, [cmd] + src, cmd, [], 0);
    assert src[..|src|] == src;
    assert (src + mac[..8])[..|src|] == src && (src + mac[..8])[|src|..] == mac[..8];
  }

  /** The payload is in front of checksum and padding. */
  lemma PlainStarts(s: Session, cmd: byte, src: Bytes, h: nat)
    requires h <= |src|
    ensures src[h..] <= Ev1Plain(s, cmd, src, h)
  {
    hide CrcOf;
  }

  lemma EncipheredRoundTrip(r: Session, k: Session, cmd: byte, src: Bytes)
    requires Agree(r, k) && r.mode == k.mode
    ensures var h := Header(cmd, |src|);
            var e := Ev1Cipher(r, Ev1Plain(r, cmd, src, h));
            OpenEv1Enciphered(k, cmd, src[..h] + e.0, |src|) == Outcome(Ok(src), WithIvBuffer(k, e.1.iv))
  {
    hide CrcOf, Cbc.Run, ZeroPadded, HeaderLength, Protected, Ev1Plain;
    var h := Header(cmd, |src|);
    var plain := Ev1Plain(r, cmd, src, h);
    SameEv1(r, k, [], cmd, src, h);
    PlainStarts(r, cmd, src, h);
    var c := EncCipher(r);
    Cbc.ReceiveUndoesSend(c, r.iv[..Block(c)], plain, true);
    var e := Ev1Cipher(r, plain);
    var wire := src[..h] + e.0;
    assert wire[..h] == src[..h] && wire[h..] == e.0;
    assert src[..h] + src[h..] == src && plain[..|src| - h] == src[h..];
  }

  /** What a successful encode_ev1 sends, and the chain behind it. */
  lemma EncodeEv1Ok(r: Session, cmd: byte, src: Bytes, cap: nat)
    requires EncodeEv1(r, cmd, src, cap).result.Ok?
    ensures var e, h := EncodeEv1(r, cmd, src, cap), Header(cmd, |src|);
            if InClear(r.mode, cmd, |src|) then
              var mac := Ev1Mac(r, [cmd] + src);
              && e.session == WithIv(r, mac)
              && e.result.value == if r.mode.Mac? && TransmitsMac(r.channel, cmd) then src + mac[..8] else src
            else if r.mode.EncPlain? && |src| <= h then e == Outcome(Ok(src), r)
            else
              var c := Ev1Cipher(r, Ev1Plain(r, cmd, src, h));
              e.result.value == src[..h] + c.0 && e.session.iv == c.1.iv
  {
    hide Ev1Mac, Ev1Plain, Ev1Cipher, Header, TransmitsMac, WithIv;
  }

  /** Every EV1 request that goes out is opened by the card to exactly the
      payload, and both chains end at the same value. */
  lemma Ev1RequestRoundTrip(r: Session, k: Session, cmd: byte, src: Bytes, cap: nat)
    requires Agree(r, k) && r.mode == k.mode && r.channel == EV1
    requires EncodeEv1(r, cmd, src, cap).result.Ok?
    ensures var e := EncodeEv1(r, cmd, src, cap);
            OpenEv1(k, cmd, e.result.value, |src|) == Outcome(Ok(src), WithIvBuffer(k, e.session.iv))
  {
    hide Ev1Mac, Ev1Plain, Ev1Cipher, OpenEv1Clear, OpenEv1Enciphered, Header, TransmitsMac, EncodeEv1, InClear;
    EncodeEv1Ok(r, cmd, src, cap);
    if InClear(r.mode, cmd, |src|) {
      ClearRoundTrip(r, k, cmd, src);
      SameChain(r, k, Ev1Mac(r, [cmd] + src));
      hide WithIv;
    } else if !(r.mode.EncPlain? && |src| <= Header(cmd, |src|)) {
      EncipheredRoundTrip(r, k, cmd, src);
    } else {
      SameIv(k);
    }
  }

  lemma SameChain(r: Session, k: Session, v: Bytes)
    requires r.iv == k.iv && |v| <= 16
    ensures WithIv(k, v) == WithIvBuffer(k, WithIv(r, v).iv)
  {}

  //--------------------------------------------------------------------------
  // EV1 answers
  //--------------------------------------------------------------------------

  /** The reader takes the CMAC path for the answer. */
  predicate Maced(s: Session) {
    s.mode.Plain? || s.mode.Mac? || (s.mode.Enc? && !s.lastZeroLen)
  }

  /** mock_secure_reply on EV1: payload and MAC over payload and status. */
  function SealEv1(k: Session, payload: Bytes, status: byte): (r: (Bytes, Session))
    ensures r.1.p == k.p
  {
    hide Ev1Mac;
    var mac := Ev1Mac(k, payload + [status]);
    (payload + mac[..8], WithIv(k, mac))
  }

  /** Every payload, the empty one too, comes back from a MACed answer, and both
      chains end at that MAC. */
  lemma Ev1AnswerRoundTrip(r: Session, k: Session, payload: Bytes, status: byte, cap: nat)
    requires Agree(r, k) && Maced(r)
    ensures var a := SealEv1(k, payload, status);
            DecodeEv1(r, a.0, status, cap) == Outcome(Copied(payload, cap), WithIvBuffer(r, a.1.iv))
  {
    hide Cmac.MacOf, Ev1Mac, WithIv, Copied, Cbc.Crypt, CrcPos;
    var mac := Ev1Mac(k, payload + [status]);
    SameEv1(r, k, payload + [status], 0, [], 0);
    var wire := payload + mac[..8];
    assert wire[..|wire| - 8] == payload && wire[|wire| - 8..] == mac[..8];
    SameChain(k, r, mac);
  }

  /** An enciphered EV1 answer; the padded modes put 0x80 behind the checksum. */
  function SealEv1Enciphered(k: Session, payload: Bytes, status: byte, padded: bool): Bytes {
    hide CrcOf, Cbc.Crypt;
    var c := EncCipher(k);
    Cbc.Crypt(c, k.iv[..Block(c)], ZeroPadded(Protected(payload, Checksum(W32, payload, status), padded), Block(c)), true).0
  }

  /** A payload the CRC search finds: with the pad byte always, else what Exact16
      and Exact32 say. */
  predicate Findable(w: Width, payload: Bytes, status: byte, padded: bool)
    requires payload != []
  {
    if padded then |payload| <= MAX_RESPONSE
    else if w == W16 then |payload| <= MAX_RESPONSE && (|payload| == 1 || Checksum(W16, payload, status)[1] != 0)
    else Findable32(payload, status)
  }

  lemma Found(w: Width, payload: Bytes, status: byte, padded: bool, block: nat)
    requires payload != [] && (block == 8 || block == 16)
    ensures var plain := ZeroPadded(Protected(payload, Checksum(w, payload, status), padded), block);
            && (CrcPos(w, plain, status) == |payload| <==> Findable(w, payload, status, padded))
            && 0 < |payload| <= |plain| && plain[..|payload|] == payload
  {
    hide Checksum, CrcPos, Findable32;
    var c := Checksum(w, payload, status);
    var p := Protected(payload, c, padded);
    var z := Cmac.RoundUp(|p|, block) - |p|;
    if padded {
      if |payload| <= MAX_RESPONSE {
        ExactWithPadByte(w, payload, status, z);
      }
    } else {
      assert p + Zeros(z) == Enclosed(w, payload, status, z);
      if w == W16 {
        Exact16(payload, status, z);
      } else {
        Exact32(payload, status, z);
      }
    }
  }

  /** An enciphered EV1 answer comes back whole if and only if the search can
      find its end. */
  lemma Ev1EncipheredAnswer(r: Session, k: Session, payload: Bytes, status: byte, padded: bool, cap: nat)
    requires Agree(r, k) && !Maced(r) && (r.mode.Enc? || r.mode.EncPadded?) && 0 < |payload| <= cap
    ensures var d := DecodeEv1(r, SealEv1Enciphered(k, payload, status, padded), status, cap);
            d.session == r && (d.result == Ok(payload) <==> Findable(W32, payload, status, padded))
  {
    hide Cbc.Run, Checksum, CrcPos, ZeroPadded, Findable;
    var c := EncCipher(k);
    var plain := ZeroPadded(Protected(payload, Checksum(W32, payload, status), padded), Block(c));
    Found(W32, payload, status, padded, Block(c));
    Cbc.ReceiveUndoesSend(c, k.iv[..Block(c)], plain, true);
    BlocksLong(c, plain);
  }

  lemma BlocksLong(c: Cipher, plain: Bytes)
    requires Cbc.Whole(c, plain) && plain != []
    ensures |plain| >= Block(c)
  {}

  //--------------------------------------------------------------------------
  // D40
  //--------------------------------------------------------------------------

  /** `n` bytes behind the enciphering, checksum and padding checked. */
  function RecoverD40(k: Session, cipher: Bytes, n: nat): Result<Bytes> {
    hide D40Plain, Cbc.Run;
    var c := EncCipher(k);
    if !Cbc.Whole(c, cipher) then Err(Length)
    else
      var d := Cbc.Run(c, Zeros(Block(c)), cipher, false, true).0;
      if |d| < n then Err(Length)
      else if d != D40Plain(k, d[..n]) then Err(Error.Crypto)
      else Ok(d[..n])
  }

  /** A D40 request of `n` payload bytes. The card only enciphers: it undoes the
      reader's deciphering by enciphering in the receive direction. */
  function OpenD40(k: Session, cmd: byte, wire: Bytes, n: nat): Result<Bytes> {
    hide D40Mac, RecoverD40;
    var h := Header(cmd, n);
    if InClear(k.mode, cmd, n) || n <= h then
      var sends := (k.mode.Mac? || k.mode.Enc?) && n > h && TransmitsMac(D40, cmd);
      if |wire| != n + (if sends then 4 else 0) then Err(Length)
      else if sends && D40Mac(k, wire[h..n]) != wire[n..] then Err(Error.Crypto)
      else Ok(wire[..n])
    else if |wire| < h then Err(Length)
    else
      var d := RecoverD40(k, wire[h..], n - h);
      if d.Err? then d else Ok(wire[..h] + d.value)
  }

  /** mock_secure_reply on D40. Later silicon answers some commands with the
      checksum of EV1: `late`. */
  function SealD40(k: Session, payload: Bytes, mode: Mode, status: byte, late: bool): Bytes {
    hide D40Mac, Cbc.Run, CrcOf;
    var c := EncCipher(k);
    if mode.Plain? then payload
    else if mode.Mac? then payload + D40Mac(k, payload)
    else
      Cbc.Crypt(c, Zeros(Block(c)), D40AnswerPlain(k, payload, mode.EncPadded?, status, late), true).0
  }

  /** What such an answer enciphers. */
  function D40AnswerPlain(k: Session, payload: Bytes, padded: bool, status: byte, late: bool): (b: Bytes)
    ensures Cbc.Whole(EncCipher(k), b)
  {
    hide Checksum;
    ZeroPadded(Protected(payload, Checksum(if late then W32 else W16, payload, status), padded), Block(EncCipher(k)))
  }

  lemma SameD40(r: Session, k: Session, data: Bytes)
    requires Agree(r, k) && r.mode == k.mode
    ensures D40Mac(r, data) == D40Mac(k, data) && D40Plain(r, data) == D40Plain(k, data) && EncCipher(r) == EncCipher(k)
  {
    hide Cbc.Run, CrcOf, ZeroPadded;
  }

  /** Every D40 request that goes out is opened to exactly the payload. */
  lemma D40RequestRoundTrip(r: Session, k: Session, cmd: byte, src: Bytes, cap: nat)
    requires Agree(r, k) && r.mode == k.mode && r.channel == D40
    requires EncodeD40(r, cmd, src, cap).result.Ok?
    ensures OpenD40(k, cmd, EncodeD40(r, cmd, src, cap).result.value, |src|) == Ok(src)
  {
    hide EncodeD40, OpenD40, D40Mac, D40Plain, D40Cipher, Header, TransmitsMac, InClear;
    EncodeD40Ok(r, cmd, src, cap);
    if InClear(r.mode, cmd, |src|) || |src| <= Header(cmd, |src|) {
      OpenD40Clear(r, k, cmd, src);
    } else {
      OpenD40Enciphered(r, k, cmd, src);
    }
  }

  lemma OpenD40Clear(r: Session, k: Session, cmd: byte, src: Bytes)
    requires Agree(r, k) && r.mode == k.mode
    requires InClear(r.mode, cmd, |src|) || |src| <= Header(cmd, |src|)
    ensures var h := Header(cmd, |src|);
            var sends := (r.mode.Mac? || r.mode.Enc?) && |src| > h && TransmitsMac(D40, cmd);
            OpenD40(k, cmd, if sends then src + D40Mac(r, src[h..]) else src, |src|) == Ok(src)
  {
    hide D40Mac, HeaderLength, TransmitsMac, EncCipher;
    var h := Header(cmd, |src|);
    SameD40(r, k, src[h..]);
    D40Clear(src, D40Mac(r, src[h..]), h);
  }

  lemma OpenD40Enciphered(r: Session, k: Session, cmd: byte, src: Bytes)
    requires Agree(r, k) && r.mode == k.mode
    requires !InClear(r.mode, cmd, |src|) && |src| > Header(cmd, |src|)
    ensures var h := Header(cmd, |src|);
            OpenD40(k, cmd, src[..h] + D40Cipher(r, D40Plain(r, src[h..])), |src|) == Ok(src)
  {
    hide D40Mac, D40Plain, D40Cipher, Header, InClear, RecoverD40, TransmitsMac, Agree;
    var h := Header(cmd, |src|);
    D40Enciphered(r, k, src[h..]);
    OpenD40Body(k, cmd, src, D40Cipher(r, D40Plain(r, src[h..])));
  }

  lemma OpenD40Body(k: Session, cmd: byte, src: Bytes, cipher: Bytes)
    requires !InClear(k.mode, cmd, |src|) && |src| > Header(cmd, |src|)
    requires RecoverD40(k, cipher, |src| - Header(cmd, |src|)) == Ok(src[Header(cmd, |src|)..])
    ensures OpenD40(k, cmd, src[..Header(cmd, |src|)] + cipher, |src|) == Ok(src)
  {
    hide D40Mac, Header, InClear, RecoverD40, TransmitsMac;
    var h := Header(cmd, |src|);
    assert (src[..h] + cipher)[h..] == cipher && (src[..h] + cipher)[..h] == src[..h] && src[..h] + src[h..] == src;
  }

  lemma D40Clear(src: Bytes, mac: Bytes, h: nat)
    requires h <= |src|
    ensures src[..|src|] == src && (src + mac)[..|src|] == src && (src + mac)[|src|..] == mac
    ensures (src + mac)[h..|src|] == src[h..]
  {}

  lemma D40Enciphered(r: Session, k: Session, data: Bytes)
    requires Agree(r, k) && r.mode == k.mode
    ensures RecoverD40(k, D40Cipher(r, D40Plain(r, data)), |data|) == Ok(data)
  {
    hide Cbc.Run, CrcOf;
    SameD40(r, k, data);
    var c := EncCipher(r);
    var plain := D40Plain(r, data);
    Cbc.ReceiveUndoesSend(c, Zeros(Block(c)), plain, false);
    assert plain[..|data|] == data;
  }

  lemma EncodeD40Ok(r: Session, cmd: byte, src: Bytes, cap: nat)
    requires r.channel == D40 && EncodeD40(r, cmd, src, cap).result.Ok?
    ensures var h := Header(cmd, |src|);
            EncodeD40(r, cmd, src, cap).result.value ==
            if InClear(r.mode, cmd, |src|) || |src| <= h then
              if (r.mode.Mac? || r.mode.Enc?) && |src| > h && TransmitsMac(D40, cmd) then src + D40Mac(r, src[h..]) else src
            else src[..h] + D40Cipher(r, D40Plain(r, src[h..]))
  {
    hide D40Mac, D40Plain, D40Cipher, Header, TransmitsMac;
  }

  /** A D40 answer in the clear comes back always, one with a MAC unless it is
      empty. */
  lemma D40AnswerRoundTrip(r: Session, k: Session, payload: Bytes, status: byte, late: bool, cap: nat)
    requires Agree(r, k) && r.channel == D40 && (r.mode.Plain? || r.mode.Mac?)
    requires r.mode.Mac? ==> ReceivesMac(D40, r.lastCmd)
    ensures DecodeD40(r, SealD40(k, payload, r.mode, status, late), status, cap)
            == Outcome(if r.mode.Mac? && payload == [] then Err(Length) else Copied(payload, cap), r)
  {
    hide Cbc.Run, CrcOf, CrcPos, ZeroPadded, Findable, Copied, ReceivesMac;
    SameD40(r, k.(mode := r.mode), payload);
    if r.mode.Mac? {
      var wire := payload + D40Mac(r, payload);
      assert wire[..|wire| - 4] == payload && wire[|wire| - 4..] == D40Mac(r, payload);
      hide D40Mac;
    }
  }

  /** What the decoder makes of the deciphered bytes. */
  lemma D40Deciphered(r: Session, k: Session, payload: Bytes, status: byte, late: bool, cap: nat)
    requires Agree(r, k) && r.channel == D40 && (r.mode.Enc? || r.mode.EncPadded?) && payload != []
    ensures var d := DecodeD40(r, SealD40(k, payload, r.mode, status, late), status, cap);
            var plain := D40AnswerPlain(k, payload, r.mode.EncPadded?, status, late);
            var p16, p32 := CrcPos(W16, plain, status), CrcPos(W32, plain, status);
            var pure := if p16 == 0 && !r.legacyCard then p32 else p16;
            && d.session == r && payload <= plain && pure <= |plain|
            && d.result == if pure == 0 then Err(Error.Crypto) else Copied(plain[..pure], cap)
  {
    hide Cbc.Run, Checksum, CrcPos, ZeroPadded, Copied;
    var c := EncCipher(k);
    var plain := D40AnswerPlain(k, payload, r.mode.EncPadded?, status, late);
    Cbc.ReceiveUndoesSend(c, Zeros(Block(c)), plain, true);
    BlocksLong(c, plain);
    PositionInside(W16, plain, status);
    PositionInside(W32, plain, status);
  }

  lemma PositionInside(w: Width, data: Bytes, status: byte)
    ensures CrcPos(w, data, status) <= |data|
  {
    hide Checksum;
  }

  /** Where the CRC16 search finds nothing, the CRC32 search does not find the end
      of an answer with a CRC16 either. */
  lemma FallbackDoesNotHelp(payload: Bytes, status: byte, padded: bool, block: nat)
    requires payload != [] && (block == 8 || block == 16)
    ensures var plain := ZeroPadded(Protected(payload, Checksum(W16, payload, status), padded), block);
            CrcPos(W16, plain, status) == 0 ==> CrcPos(W32, plain, status) != |payload|
  {
    hide Checksum;
    var c, n := Checksum(W16, payload, status), |payload|;
    var p := Protected(payload, c, padded);
    var plain := ZeroPadded(p, block);
    assert plain[..n] == payload && plain[n..n + 2] == c;
    if CrcPos(W32, plain, status) == n {
      assert n <= MAX_RESPONSE && n <= ContentEnd(plain);
      assert ContentEnd(plain) <= n + 3;
      assert Matches(W16, plain, status, n);
    }
  }

  /** An enciphered D40 answer with a CRC16 comes back whole, on every card type,
      if and only if the CRC16 search can find its end. */
  lemma D40EncipheredAnswer(r: Session, k: Session, payload: Bytes, status: byte, cap: nat)
    requires Agree(r, k) && r.channel == D40 && (r.mode.Enc? || r.mode.EncPadded?) && 0 < |payload| <= cap
    ensures var d := DecodeD40(r, SealD40(k, payload, r.mode, status, false), status, cap);
            d.session == r && (d.result == Ok(payload) <==> Findable(W16, payload, status, r.mode.EncPadded?))
  {
    hide SealD40, DecodeD40, Checksum, CrcPos, ZeroPadded, Findable, Protected;
    D40Deciphered(r, k, payload, status, false, cap);
    FallbackDoesNotHelp(payload, status, r.mode.EncPadded?, Block(EncCipher(k)));
    Found(W16, payload, status, r.mode.EncPadded?, Block(EncCipher(k)));
  }

  /** A CRC16 of the first `k` bytes stands behind them, in `size` bytes of which
      those behind the body are zero. */
  predicate Mimics(body: Bytes, size: nat, k: nat) {
    hide CrcOf;
    k <= |body| && k + 2 <= size && k <= MAX_RESPONSE && CrcOf(W16, body[..k]) == (body[k..] + [0x00, 0x00])[..2]
  }

  /** The first of the positions behind which a CRC16 is looked for. */
  function WindowStart(end: nat): (from: nat)
    ensures from == Max(1, end - 3)
  {
    if end > 4 then end - 3 else 1
  }

  predicate NoneMimics(body: Bytes, size: nat, from: nat, to: int) {
    hide Mimics;
    forall j: nat | from <= j <= to :: !Mimics(body, size, j)
  }

  /** Which payloads come back from an answer with the CRC32 of later silicon, read
      off payload, checksum and sizes: those in whose last bytes, checksum
      included, no CRC16 stands, if the card is known as such and the CRC32 search
      finds them; or those whose own CRC16 happens to be the first one there. */
  predicate LateFindable(payload: Bytes, status: byte, padded: bool, block: nat, legacy: bool)
    requires payload != [] && (block == 8 || block == 16)
  {
    hide Checksum, Mimics, Findable;
    var body := Protected(payload, Checksum(W32, payload, status), padded);
    var n, size, end := |payload|, Cmac.RoundUp(|body|, block), ContentEnd(body);
    var from := WindowStart(end);
    if from <= n <= end && end >= 2 && Mimics(body, size, n) then NoneMimics(body, size, from, n - 1)
    else !legacy && Findable(W32, payload, status, padded) && NoneMimics(body, size, from, end)
  }

  lemma EndBeforeZeros(body: Bytes, z: nat)
    requires body != []
    ensures ContentEnd(body + Zeros(z)) == ContentEnd(body)
  {
    var e, data := ContentEnd(body), body + Zeros(z);
    assert forall i | e <= i < |data| :: data[i] == 0;
    assert e > 1 ==> data[e - 1] == body[e - 1];
    var f := ContentEnd(data);
    assert f > 1 && f <= |body| ==> body[f - 1] == data[f - 1];
  }

  lemma MimicsMatches(body: Bytes, z: nat, status: byte, k: nat)
    requires k <= |body|
    ensures Matches(W16, body + Zeros(z), status, k) <==> Mimics(body, |body| + z, k)
  {
    hide CrcOf;
    var data := body + Zeros(z);
    assert data[..k] == body[..k];
    if k + 2 <= |data| {
      assert data[k..k + 2] == (body[k..] + [0x00, 0x00])[..2];
    }
  }

  /** No CRC16 match from `from` to `to`. */
  predicate NoneMatches(data: Bytes, status: byte, from: nat, to: int) {
    hide Matches;
    forall j: nat | from <= j <= to :: !Matches(W16, data, status, j)
  }

  lemma SameNone(body: Bytes, z: nat, status: byte, from: nat, to: int)
    requires to <= |body|
    ensures NoneMimics(body, |body| + z, from, to) <==> NoneMatches(body + Zeros(z), status, from, to)
  {
    hide Mimics, Matches;
    var data, size := body + Zeros(z), |body| + z;
    if NoneMimics(body, size, from, to) {
      forall j: nat | from <= j <= to ensures !Matches(W16, data, status, j) {
        MimicsMatches(body, z, status, j);
        assert !Mimics(body, size, j);
      }
    }
    if NoneMatches(data, status, from, to) {
      forall j: nat | from <= j <= to ensures !Mimics(body, size, j) {
        MimicsMatches(body, z, status, j);
        assert !Matches(W16, data, status, j);
      }
    }
  }

  lemma LeastIs(data: Bytes, status: byte, lo: nat, hi: nat, n: nat)
    requires lo > 0 && n > 0
    ensures var k := LeastMatch(W16, data, status, lo, hi);
            && (k == n <==> lo <= n <= hi && Matches(W16, data, status, n) && NoneMatches(data, status, lo, n - 1))
            && (k == 0 <==> NoneMatches(data, status, lo, hi))
  {
    hide Matches;
  }

  /** The CRC16 search over an answer, in terms of its body. */
  lemma SearchMimics(body: Bytes, z: nat, status: byte, n: nat)
    requires body != [] && ContentEnd(body) >= 2 && 0 < n <= |body|
    ensures var k, end := CrcPos(W16, body + Zeros(z), status), ContentEnd(body);
            var from, size := WindowStart(end), |body| + z;
            && (k == n <==> from <= n <= end && Mimics(body, size, n) && NoneMimics(body, size, from, n - 1))
            && (k == 0 <==> NoneMimics(body, size, from, end))
  {
    hide Mimics, Matches, NoneMimics, NoneMatches, LeastMatch, ContentEnd;
    EndBeforeZeros(body, z);
    var end := ContentEnd(body);
    LeastIs(body + Zeros(z), status, WindowStart(end), end, n);
    MimicsMatches(body, z, status, n);
    SameNone(body, z, status, WindowStart(end), n - 1);
    SameNone(body, z, status, WindowStart(end), end);
  }

  /** Where nothing but the first byte is left, no search finds anything. */
  lemma TooShort(payload: Bytes, status: byte, padded: bool, block: nat)
    requires payload != [] && (block == 8 || block == 16)
    requires ContentEnd(Protected(payload, Checksum(W32, payload, status), padded)) < 2
    ensures var plain := ZeroPadded(Protected(payload, Checksum(W32, payload, status), padded), block);
            CrcPos(W16, plain, status) == 0 && CrcPos(W32, plain, status) == 0
  {
    hide Checksum;
    var body := Protected(payload, Checksum(W32, payload, status), padded);
    EndBeforeZeros(body, Cmac.RoundUp(|body|, block) - |body|);
  }

  /** The two searches over an answer of later silicon decide as LateFindable. */
  lemma LateSearch(payload: Bytes, status: byte, padded: bool, block: nat, legacy: bool)
    requires payload != [] && (block == 8 || block == 16)
    ensures var plain := ZeroPadded(Protected(payload, Checksum(W32, payload, status), padded), block);
            var p16, n := CrcPos(W16, plain, status), |payload|;
            LateFindable(payload, status, padded, block, legacy)
            <==> p16 == n || (p16 == 0 && !legacy && Findable(W32, payload, status, padded))
  {
    hide Checksum, CrcPos, Findable, Mimics, NoneMimics, Protected, ContentEnd;
    var c := Checksum(W32, payload, status);
    var body := Protected(payload, c, padded);
    BodyStarts(payload, c, padded);
    Found(W32, payload, status, padded, block);
    if ContentEnd(body) >= 2 {
      var size := Cmac.RoundUp(|body|, block);
      SearchMimics(body, size - |body|, status, |payload|);
      if WindowStart(ContentEnd(body)) <= |payload| <= ContentEnd(body) && Mimics(body, size, |payload|) {
        OneMimics(body, size, WindowStart(ContentEnd(body)), ContentEnd(body), |payload|);
      }
    } else {
      TooShort(payload, status, padded, block);
    }
  }

  lemma OneMimics(body: Bytes, size: nat, from: nat, to: nat, n: nat)
    requires from <= n <= to && Mimics(body, size, n)
    ensures !NoneMimics(body, size, from, to)
  {
    hide Mimics;
  }

  /** A D40 answer with the CRC32 of later silicon comes back whole if and only if
      LateFindable says so. */
  lemma D40LateAnswer(r: Session, k: Session, payload: Bytes, status: byte, cap: nat)
    requires Agree(r, k) && r.channel == D40 && (r.mode.Enc? || r.mode.EncPadded?) && 0 < |payload| <= cap
    ensures var d := DecodeD40(r, SealD40(k, payload, r.mode, status, true), status, cap);
            && d.session == r
            && (d.result == Ok(payload)
                <==> LateFindable(payload, status, r.mode.EncPadded?, Block(EncCipher(k)), r.legacyCard))
  {
    hide SealD40, DecodeD40, Checksum, CrcPos, ZeroPadded, Findable, Protected, LateFindable;
    D40Deciphered(r, k, payload, status, true, cap);
    Found(W32, payload, status, r.mode.EncPadded?, Block(EncCipher(k)));
    LateSearch(payload, status, r.mode.EncPadded?, Block(EncCipher(k)), r.legacyCard);
  }

  lemma BodyStarts(payload: Bytes, crc: Bytes, padded: bool)
    ensures payload <= Protected(payload, crc, padded)
  {}

  /** A lost answer: 98 AE with status 0x00 has the CRC32 C2 5E 3A C3, and 5E 3A is
      the CRC16 of 98 AE C2. */
  lemma LateAnswerLost(r: Session, k: Session, cap: nat)
    requires Agree(r, k) && r.channel == D40 && r.mode.Enc? && cap >= 2
    ensures Findable(W32, [0x98, 0xAE], 0x00, false)
    ensures DecodeD40(r, SealD40(k, [0x98, 0xAE], Enc, 0x00, true), 0x00, cap).result != Ok([0x98, 0xAE])
  {
    hide SealD40, DecodeD40, EncCipher, LateFindable;
    D40LateAnswer(r, k, [0x98, 0xAE], 0x00, cap);
    SeemingCrc(Block(EncCipher(k)), r.legacyCard);
  }

  lemma SeemingCrc(block: nat, legacy: bool)
    requires block == 8 || block == 16
    ensures Findable(W32, [0x98, 0xAE], 0x00, false) && !LateFindable([0x98, 0xAE], 0x00, false, block, legacy)
  {
    hide CrcOf, Findable32;
    SeemingSums();
    var payload: Bytes := [0x98, 0xAE];
    assert payload + [0x00] == [0x98, 0xAE, 0x00];
    var body := Protected(payload, Checksum(W32, payload, 0x00), false);
    assert body == [0x98, 0xAE, 0xC2, 0x5E, 0x3A, 0xC3];
    assert body[..3] == [0x98, 0xAE, 0xC2] && (body[3..] + [0x00, 0x00])[..2] == [0x5E, 0x3A];
    assert Mimics(body, Cmac.RoundUp(6, block), 3);
    TopByteFindable(payload, 0x00);
  }

  lemma TopByteFindable(d: Bytes, status: byte)
    requires 0 < |d| <= MAX_RESPONSE && Checksum(W32, d, status)[3] != 0
    ensures Findable32(d, status)
  {
    hide Checksum;
  }

  lemma SeemingSums()
    ensures CrcOf(W32, [0x98, 0xAE, 0x00]) == [0xC2, 0x5E, 0x3A, 0xC3]
    ensures CrcOf(W16, [0x98, 0xAE, 0xC2]) == [0x5E, 0x3A]
  {
    SeemingSum32();
    SeemingSum16();
  }

  lemma SeemingSum32()
    ensures CrcOf(W32, [0x98, 0xAE, 0x00]) == [0xC2, 0x5E, 0x3A, 0xC3]
  {
    FeedStep(0xFFFFFFFF, 0x98, 0xD3290B04);
    FeedStep(0xD3290B04, 0xAE, 0x36D063FD);
    FeedStep(0x36D063FD, 0x00, 0xC33A5EC2);
    hide Step;
    FromThree(W32, 0xFFFFFFFF, 0x98, 0xAE, 0x00);
  }

  lemma SeemingSum16()
    ensures CrcOf(W16, [0x98, 0xAE, 0xC2]) == [0x5E, 0x3A]
  {
    assert Shifts(W16, 0x63FB, 8) == Shifts(W16, 0xDEF2, 6) == Shifts(W16, 0xB3B4, 4) == Shifts(W16, 0x2CED, 2) == 0x493F;
    assert Shifts(W16, 0x4991, 8) == Shifts(W16, 0x5060, 6) == Shifts(W16, 0x1418, 4) == Shifts(W16, 0x0506, 2) == 0x8549;
    assert Shifts(W16, 0x858B, 8) == Shifts(W16, 0xE76E, 6) == Shifts(W16, 0xBDD3, 4) == Shifts(W16, 0xE978, 2) == 0x3A5E;
    FromThree(W16, 0x6363, 0x98, 0xAE, 0xC2);
  }

  lemma FromThree(w: Width, c: bv32, x: byte, y: byte, z: byte)
    ensures From(w, c, [x, y, z]) == Step(w, Step(w, Step(w, c, x), y), z)
  {
    hide Step;
    assert [x, y, z] == [x] + [y, z] && [y, z] == [y] + [z] && [z] == [z] + [];
    FromCons(w, c, x, [y, z]);
    FromCons(w, Step(w, c, x), y, [z]);
    FromCons(w, Step(w, Step(w, c, x), y), z, []);
  }

  //--------------------------------------------------------------------------
  // every channel
  //--------------------------------------------------------------------------

  /** What the card makes of the data field of a command of `n` payload bytes. */
  function CardOpens(k: Session, cmd: byte, wire: Bytes, n: nat): Result<Bytes> {
    match k.channel
    case D40 => OpenD40(k, cmd, wire, n)
    case EV1 => OpenEv1(k, cmd, wire, n).result
    case NoChannel => Ok(wire)
    case _ => OpenEv2(k, cmd, wire, k.mode).result
  }

  lemma NotedAgrees(r: Session, k: Session, cmd: byte, zero: bool)
    requires Agree(r, k)
    ensures var t := r.(lastCmd := cmd, lastZeroLen := zero); Agree(t, k) && t.mode == r.mode && t.channel == r.channel
  {}

  /** On every channel, in every mode, for every command and payload: whatever
      nxpsc_channel_encode puts out, an agreeing card opens to that payload. */
  lemma RequestArrives(r: Session, k: Session, cmd: byte, src: Bytes, cap: nat)
    requires Agree(r, k) && r.mode == k.mode && Encode(r, cmd, src, cap).result.Ok?
    ensures CardOpens(k, cmd, Encode(r, cmd, src, cap).result.value, |src|) == Ok(src)
  {
    hide EncodeD40, EncodeEv1, EncodeEv2, OpenD40, OpenEv1, OpenEv2, HeaderLength, Agree;
    var t := r.(lastCmd := cmd, lastZeroLen := |src| <= HeaderLength(cmd, |src|));
    NotedAgrees(r, k, cmd, |src| <= HeaderLength(cmd, |src|));
    SameChannel(r, k);
    match r.channel
    case D40 => D40RequestRoundTrip(t, k, cmd, src, cap);
    case EV1 => Ev1RequestRoundTrip(t, k, cmd, src, cap);
    case NoChannel =>
    case EV2 => RequestRoundTrip(t, k, cmd, src, cap);
    case LRP => RequestRoundTrip(t, k, cmd, src, cap);
  }

  lemma SameChannel(r: Session, k: Session)
    requires Agree(r, k)
    ensures r.channel == k.channel
  {}
}
