/** change_key on the card object: the frame built in fixed buffers, the
    exchange, and what happens to the session. */
module CardKeys {
  import opened ByteStrings
  import opened Results
  import opened Ciphers
  import opened Sessions
  import opened Codecs
  import opened Crc
  import opened Framing
  import opened Handshakes
  import opened Exchanges
  import opened Cards
  import opened KeyChange
  import opened Peer
  import opened PeerLegacy
  import Gate
  import Lockstep

  /** Normalising a key into a 32-byte buffer, a DES key doubled afterwards. */
  method NormaliseInto(key: Key) returns (buf: array<byte>)
    ensures fresh(buf) && buf.Length == 32 && buf[..] == Stored(key)
  {
    hide SetVersion;
    var n := KeySize(key.kind);
    buf := Calloc(32);
    Blit(buf, 0, key.data[..n]);
    assert buf[..n] == key.data[..n] && buf[n..] == Zeros(32 - n);
    if !IsAes(key.kind) {
      SetVersionInto(buf, n, key.version);
    }
    assert buf[..] == Normalised(key) + Zeros(32 - n);
    if key.kind.DES? {
      Blit(buf, 8, buf[..8]);
    }
  }

  /** The frame of change_key: command, key number, payload. */
  method BuildFrame(c: Change, oldKey: Key) returns (frame: array<byte>, len: nat)
    requires c.channel != NoChannel
    ensures fresh(frame) && frame.Length == 48 && 2 + len <= 48
    ensures frame[..2] == Prefix(c) && frame[2..2 + len] == PayloadOf(c, oldKey)
  {
    hide Stored, CrcOf, Splice;
    var same := SameKey(c);
    var n := StoredLength(c.newKey.kind);
    var newBuf := NormaliseInto(c.newKey);
    var newKey := newBuf[..n];
    frame := Calloc(48);
    var prefix := Prefix(c);
    Blit(frame, 0, prefix);
    SpliceAt(Zeros(48), 0, prefix);
    len := PutText(c, oldKey, newBuf[..], frame);
    var text := frame[2..2 + len];
    len := PutSums(c.channel, text, newKey, same, frame);
  }

  /** Key bytes, XOR and version byte behind the prefix. */
  method PutText(c: Change, oldKey: Key, newStored: Bytes, frame: array<byte>) returns (len: nat)
    requires frame.Length == 48 && newStored == Stored(c.newKey)
    modifies frame
    ensures frame[..2] == old(frame[..2])
    ensures var t := KeyText(newStored, Stored(oldKey), c.newKey.kind, c.newKey.version, SameKey(c));
            len == |t| && frame[2..2 + len] == t
  {
    hide Stored;
    len := StoredLength(c.newKey.kind);
    Blit(frame, 2, newStored[..len]);
    assert frame[2..2 + len] == newStored[..len];
    if !SameKey(c) {
      var oldBuf := NormaliseInto(oldKey);
      XorInto(frame, 2, oldBuf[..len]);
    }
    if IsAes(c.newKey.kind) {
      frame[2 + len] := c.newKey.version;
      len := len + 1;
    }
  }

  /** A checksum behind what the frame already holds. */
  method PutCrc(w: Width, covered: Bytes, frame: array<byte>, len: nat) returns (next: nat)
    requires 2 + len + Size(w) <= frame.Length
    modifies frame
    ensures next == len + Size(w) && frame[..2] == old(frame[..2])
    ensures frame[2..2 + next] == old(frame[2..2 + len]) + CrcOf(w, covered)
  {
    hide CrcOf;
    if w == W16 {
      WriteCrc16(covered, frame, 2 + len);
    } else {
      WriteCrc32(covered, frame, 2 + len);
    }
    next := len + Size(w);
  }

  /** The checksums of the channel behind the text; the EV1 one covers the frame
      from its first byte. */
  method PutSums(channel: Channel, text: Bytes, newKey: Bytes, same: bool, frame: array<byte>) returns (len: nat)
    requires frame.Length == 48 && |text| <= 33 && frame[2..2 + |text|] == text && channel != NoChannel
    modifies frame
    ensures frame[..2] == old(frame[..2])
    ensures var all := text + Checksums(channel, old(frame[..2]), text, newKey, same);
            len == |all| && frame[2..2 + len] == all
  {
    hide CrcOf;
    len := |text|;
    if channel == D40 {
      len := PutCrc(W16, text, frame, len);
      if !same {
        len := PutCrc(W16, newKey, frame, len);
      }
    } else if channel == EV1 {
      assert frame[..2 + len] == frame[..2] + text;
      len := PutCrc(W32, frame[..2 + len], frame, len);
      if !same {
        len := PutCrc(W32, newKey, frame, len);
      }
    } else if !same {
      len := PutCrc(W32, newKey, frame, len);
    }
  }

  //--------------------------------------------------------------------------
  // the call
  //--------------------------------------------------------------------------

  /** The change a session makes of the caller's arguments. */
  function ChangeIn(s: Session, ev2: bool, keySet: byte, keyNo: byte, newKey: Key, picc: bool): Change {
    Change(s.channel, s.keyNo, ev2, keySet, keyNo, newKey, picc)
  }

  /** Changing the key the session was built on ends the session. */
  predicate EndsSession(c: Change) {
    c.keyNo == c.authKeyNo && (!c.ev2 || c.keySet == 0)
  }

  ghost function ChangeKey(link: Link, cs: CmdSet, log: seq<Frame>, s: Session, ev2: bool, keySet: byte, keyNo: byte,
                           oldKey: Key, newKey: Key, picc: bool): Step
    requires NeverStalls(link, cs)
  {
    hide Exchange, DataOf, Reset;
    var c := ChangeIn(s, ev2, keySet, keyNo, newKey, picc);
    if !s.authenticated || s.channel == NoChannel then Step(Err(Auth), s, log)
    else
      var e := Exchange(link, cs, log, s, Prefix(c)[0], DataOf(c, oldKey), EncPlain,
                        if EndsSession(c) then Plain else Mac, 16);
      Step(e.result, if EndsSession(c) then Reset(e.session) else e.session, e.log)
  }

  /** Nothing goes out but the command in the ChangeKey style mode, enciphered without
      another checksum. The call ends the session exactly if the key was its own, and
      then takes a bare answer; otherwise it stands unless the card has ended it. */
  lemma ChangeGoesOut(link: Link, cs: CmdSet, log: seq<Frame>, s: Session, ev2: bool, keySet: byte, keyNo: byte,
                      oldKey: Key, newKey: Key, picc: bool)
    requires NeverStalls(link, cs) && s.authenticated && s.channel != NoChannel && !s.lost
    ensures var c := Change(s.channel, s.keyNo, ev2, keySet, keyNo, newKey, picc);
            var e := ChangeKey(link, cs, log, s, ev2, keySet, keyNo, oldKey, newKey, picc);
            var cmd := if ev2 then 0xC6 else 0xC4;
            && Gate.Sends(cs, log, cmd, Encode(s.(mode := EncPlain, macMismatch := false), cmd, DataOf(c, oldKey), 4096).result, e.log)
            && var own := keyNo == s.keyNo && (!ev2 || keySet == 0);
               && e.result == Exchange(link, cs, log, s, cmd, DataOf(c, oldKey), EncPlain, if own then Plain else Mac, 16).result
               && (if own then e.session == Reset(e.session) else e.session.authenticated || e.session.lost)
  {
    hide Exchange, DataOf, Encode, Gate.Sends, Begin;
    var c := Change(s.channel, s.keyNo, ev2, keySet, keyNo, newKey, picc);
    DataHolds(c, oldKey);
    BeginIs(s, Prefix(c)[0], DataOf(c, oldKey), if EndsSession(c) then Plain else Mac);
    Gate.StandsOrLost(link, cs, log, s, Prefix(c)[0], DataOf(c, oldKey), EncPlain, Mac, 16);
    ResetTwice(Exchange(link, cs, log, s, Prefix(c)[0], DataOf(c, oldKey), EncPlain, Plain, 16).session);
    Gate.ExchangeSends(link, cs, log, s, Prefix(c)[0], DataOf(c, oldKey), EncPlain, if EndsSession(c) then Plain else Mac, 16);
  }

  lemma BeginIs(s: Session, cmd: byte, data: Bytes, rx: Mode)
    requires !s.lost
    ensures Begin(s, cmd, data, EncPlain, rx) == Encode(s.(mode := EncPlain, macMismatch := false), cmd, data, 4096)
  {
    hide Encode;
  }

  lemma ResetTwice(s: Session)
    ensures Reset(Reset(s)) == Reset(s)
  {}

  /** nxpsc_change_key and nxpsc_change_key_ev2; `picc` says that no application
      is selected. */
  method ChangeKeyInto(card: Card, ev2: bool, keySet: byte, keyNo: byte, oldKey: Key, newKey: Key, picc: bool)
    returns (r: Result<nat>)
    requires card.Valid() && NeverStalls(card.link, card.cmdset)
    modifies card.Repr()
    ensures var e := ChangeKey(card.link, card.cmdset, old(card.log), old(card.State()), ev2, keySet, keyNo, oldKey, newKey, picc);
            card.State() == e.session && card.log == e.log
            && match e.result
               case Ok(b) => r == Ok(|b|)
               case Err(x) => r == Err(x)
  {
    hide Exchange, PayloadOf, Reset, NeverStalls, KeyNoData;
    if !card.authenticated || card.channel == NoChannel {
      return Err(Auth);
    }
    var c := Change(card.channel, card.keyNo, ev2, keySet, keyNo, newKey, picc);
    var frame, len := BuildFrame(c, oldKey);
    assert frame[..2][0] == frame[0] && frame[..2][1] == frame[1];
    var data := (if ev2 then [keySet] else []) + [frame[1]] + frame[2..2 + len];
    assert data == DataOf(c, oldKey);
    var resp := Calloc(16);
    var ends := keyNo == card.keyNo && (!ev2 || keySet == 0);
    r := card.ExchangeInto(frame[0], data, EncPlain, if ends then Plain else Mac, resp);
    if ends {
      card.ResetChannel();
    }
  }

  /** The card answers a change of the session's own key with a bare status. The
      call reports success for it on every channel but EV1: there the plain mode
      still takes the last eight bytes of an answer for a MAC. */
  lemma BareAnswer(s: Session, cap: nat)
    requires s.authenticated && s.channel != NoChannel
    ensures End(s, Answer(S_OK, []), Plain, cap).result == Ok([]) <==> s.channel != EV1
    ensures s.channel == EV1 ==> End(s, Answer(S_OK, []), Plain, cap).result == Err(Length)
  {
    hide Ev1Mac, Ev2Mac, D40Mac, DecodeBody, DecipherD40, DecipherEv1, Next;
    Lockstep.NextKeeps(s);
  }

  /** Through the session: the card opens the command to the data field, reads
      the slot off it and finds the new key in it, exactly if it reads the key
      number as the reader does and can tell the type. */
  lemma KeyArrives(r: Session, k: Session, c: Change, keys: map<Slot, Key>, store: map<Slot, KeySlot>, cap: nat)
    requires Agree(r, k) && r.mode == k.mode && InSync(keys, store) && SlotOf(c) in keys
    requires Encode(r, Prefix(c)[0], DataOf(c, keys[SlotOf(c)]), cap).result.Ok?
    ensures forall s <- store.Keys :: |store[s].bytes| == 32
    ensures var data := DataOf(c, keys[SlotOf(c)]);
            var got := CardOpens(k, Prefix(c)[0], Encode(r, Prefix(c)[0], data, cap).result.value, |data|);
            && got.Ok?
            && var u := CardAfter(store, ViewOf(c), Prefix(c)[0], got.value);
               if ReadsAlike(c) && TypeTold(c, StoredKind(keys[SlotOf(c)].kind))
               then u == Ok(store[SlotOf(c) := SlotFor(c.newKey)])
               else u.Err?
  {
    hide Encode, CardOpens, CardAfter, DataOf, SlotOf, Prefix, ViewOf, InSync, ReadsAlike, TypeTold, SlotFor, Agree;
    RequestArrives(r, k, Prefix(c)[0], DataOf(c, keys[SlotOf(c)]), cap);
    ChangeInSync(keys, store, c);
  }
}
