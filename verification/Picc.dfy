/** The card's answers on buffers (mock_secure_reply with mock_secure_advance),
    for a command that was carried out. The session lives in the same structure
    as the reader's, as the mock's does. */
module Picc {
  import opened ByteStrings
  import opened Results
  import opened Ciphers
  import opened Sessions
  import opened Codecs
  import opened Crc
  import opened CrcSearch
  import opened Framing
  import opened Cards
  import opened Peer
  import opened PeerLegacy
  import Cbc
  import Cmac
  import Lrp

  /** Status, then the data of the answer. */
  ghost predicate Answered(r: Result<nat>, rx: array<byte>, status: byte, data: Bytes)
    reads rx
  {
    if 1 + |data| > rx.Length then r == Err(Length)
    else r == Ok(1 + |data|) && rx[0] == status && rx[1..1 + |data|] == data
  }

  method Put(status: byte, data: Bytes, rx: array<byte>) returns (r: Result<nat>)
    modifies rx
    ensures Answered(r, rx, status, data)
  {
    if 1 + |data| > rx.Length {
      return Err(Length);
    }
    rx[0] := status;
    Blit(rx, 1, data);
    r := Ok(1 + |data|);
  }

  /** EV2 and LRP: the answer is computed at the advanced counter, which stays. */
  method ReplyEv2(k: Card, comm: Mode, payload: Bytes, status: byte, rx: array<byte>) returns (r: Result<nat>)
    requires k.Valid() && rx !in k.Repr()
    modifies k.Repr(), rx
    ensures var a := SealEv2(old(k.State()), comm, payload);
            k.State() == Next(a.1) && Answered(r, rx, status, a.0)
  {
    hide Ev2Mac, Ev2Crypt, Next, Splice, Counted;
    ghost var s := k.State();
    k.Advance();
    if comm.Plain? {
      r := Put(status, payload, rx);
    } else if comm.Mac? {
      var m := k.MacEv2(0x00, payload);
      r := Put(status, payload + m, rx);
    } else {
      var body := EncipheredAnswer(k, payload);
      AdvancedIv(s, Ev2Crypt(Next(s), false, Padded2(payload), true).1);
      MacIgnoresIv(Next(s), k.State(), 0x00, body);
      var m := k.MacEv2(0x00, body);
      r := Put(status, body + m, rx);
    }
  }

  method EncipheredAnswer(k: Card, payload: Bytes) returns (body: Bytes)
    requires k.Valid()
    modifies k.iv
    ensures var e := Ev2Crypt(old(k.State()), false, Padded2(payload), true); k.State() == e.1 && body == e.0
  {
    hide Ev2Crypt, Splice;
    var buf := Padded(payload + [0x80], 16);
    var dst := Calloc(buf.Length);
    ghost var e := Ev2Crypt(k.State(), false, buf[..], true);
    SpliceAll(dst[..], e.0);
    k.EncryptEv2(false, buf, dst, 0);
    body := dst[..];
  }

  lemma AdvancedIv(s: Session, t: Session)
    requires t == Next(s).(iv := t.iv)
    ensures Next(s.(iv := t.iv)) == t
  {
    hide Counted;
  }

  /** EV1: a MAC over payload and status, and the chain keeps it. */
  method ReplyEv1(k: Card, payload: Bytes, status: byte, rx: array<byte>) returns (r: Result<nat>)
    requires k.Valid() && rx !in k.Repr()
    modifies k.iv, rx
    ensures var a := SealEv1(old(k.State()), payload, status);
            k.State() == a.1 && Answered(r, rx, status, a.0)
  {
    hide Ev1Mac, WithIv;
    var m := k.MacEv1(payload + [status]);
    r := Put(status, payload + m[..8], rx);
  }

  /** CBC over a padded buffer from a copy of a starting value. */
  method Enciphered(c: Cipher, start: Bytes, buf: array<byte>) returns (body: Bytes)
    requires |start| == Block(c) && buf.Length > 0 && buf.Length % Block(c) == 0
    ensures body == Cbc.Crypt(c, start, buf[..], true).0
  {
    hide Cbc.Run, Splice;
    var chain := Calloc(16);
    Blit(chain, 0, start);
    SpliceAt(Zeros(16), 0, start);
    assert chain[..Block(c)] == start && buf[0..buf.Length] == buf[..];
    var dst := Calloc(buf.Length);
    PutEnciphered(c, chain, buf, 0, buf.Length, [], dst, true);
    body := dst[..];
    assert dst[..buf.Length] == body;
  }

  /** Enciphered EV1 answers: CRC32 over payload and status, from a copy of the
      chain's value. */
  method ReplyEv1Enciphered(k: Card, payload: Bytes, status: byte, rx: array<byte>) returns (r: Result<nat>)
    requires k.Valid() && rx !in k.Repr()
    modifies rx
    ensures Answered(r, rx, status, SealEv1Enciphered(k.State(), payload, status, false))
  {
    hide CrcOf, Cbc.Run, Splice, ZeroPadded;
    var c := k.EncKey();
    var crc := Calloc(4);
    WriteCrc32(payload + [status], crc, 0);
    SpliceAll(Zeros(4), CrcOf(W32, payload + [status]));
    var buf := Padded(payload + crc[..] + [], Block(c));
    var body := Enciphered(c, k.iv[..Block(c)], buf);
    r := Put(status, body, rx);
  }

  /** D40 answers: plain, with a four-byte MAC, or enciphered with CRC16, or with
      the CRC32 of later silicon. The CBC routine refuses an empty message, so an
      empty payload has no MAC. */
  method ReplyD40(k: Card, comm: Mode, payload: Bytes, status: byte, late: bool, rx: array<byte>) returns (r: Result<nat>)
    requires k.Valid() && rx !in k.Repr() && (comm.Plain? || comm.Mac? || comm.Enc?)
    modifies rx
    ensures if comm.Mac? && payload == [] then r == Err(Length)
            else Answered(r, rx, status, SealD40(k.State(), payload, comm, status, late))
  {
    hide CrcOf, Cbc.Run, D40Mac, ZeroPadded, Protected;
    if comm.Plain? {
      r := Put(status, payload, rx);
    } else if comm.Mac? {
      if payload == [] {
        return Err(Length);
      }
      var m := k.MacD40(payload);
      r := Put(status, payload + m, rx);
    } else {
      var c := k.EncKey();
      var buf := LayAnswer(payload, status, late, Block(c));
      var body := Enciphered(c, Zeros(Block(c)), buf);
      r := Put(status, body, rx);
    }
  }

  /** Payload and checksum in a zero-padded buffer. */
  method LayAnswer(payload: Bytes, status: byte, late: bool, block: nat) returns (buf: array<byte>)
    requires block == 8 || block == 16
    ensures fresh(buf) && buf[..] == ZeroPadded(Protected(payload, Checksum(if late then W32 else W16, payload, status), false), block)
    ensures buf.Length > 0 && buf.Length % block == 0
  {
    hide CrcOf, Splice, ZeroPadded;
    var size := if late then 4 else 2;
    var crc := Calloc(size);
    if late {
      WriteCrc32(payload + [status], crc, 0);
      SpliceAll(Zeros(4), CrcOf(W32, payload + [status]));
    } else {
      WriteCrc16(payload, crc, 0);
      SpliceAll(Zeros(2), CrcOf(W16, payload));
    }
    buf := Padded(payload + crc[..] + [], block);
  }
}
