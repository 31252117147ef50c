/** What nxpsc_write_record and nxpsc_write_data put on the wire, and what the
    mock card reads there: in plain and MAC mode the data itself; enciphered, by
    a coincidence of lengths, sometimes the ciphertext. */
module RecordWrites {
  import opened ByteStrings
  import opened Results
  import opened Ciphers
  import opened Sessions
  import opened Codecs
  import opened Framing
  import opened MockFrames
  import opened Files
  import opened Tmac
  import opened PeerLegacy
  import opened Peer
  import Cbc
  import Cmac
  import Crc

  predicate IsWrite(cmd: byte) {
    cmd == WRITE_RECORD || cmd == WRITE_DATA
  }

  /** The data field of both commands. */
  function Field(fileNo: byte, offset: nat, data: Bytes): (f: Bytes)
    requires offset < 0x1000000 && |data| < 0x1000000
    ensures |f| == 7 + |data| && f[7..] == data
  {
    WriteHeader(fileNo, offset, |data|) + data
  }

  //--------------------------------------------------------------------------
  // in the clear
  //--------------------------------------------------------------------------

  /** In plain and MAC mode the field goes out as it is, with or without a MAC. */
  lemma Tail(s: Session, cmd: byte, src: Bytes, cap: nat) returns (mac: Bytes)
    requires (s.mode.Plain? || s.mode.Mac?) && Encode(s, cmd, src, cap).result.Ok?
    ensures mac == [] || |mac| == MacLength(s.channel)
    ensures Encode(s, cmd, src, cap).result.value == src + mac
  {
    hide EncodeD40, EncodeEv1, EncodeEv2, HeaderLength, TransmitsMac;
    var t := s.(lastCmd := cmd, lastZeroLen := |src| <= HeaderLength(cmd, |src|));
    mac := [];
    match s.channel
    case D40 => mac := TailD40(t, cmd, src, cap);
    case EV1 => mac := TailEv1(t, cmd, src, cap);
    case NoChannel => assert src + [] == src;
    case EV2 => mac := TailEv2(t, cmd, src, cap);
    case LRP => mac := TailEv2(t, cmd, src, cap);
  }

  lemma TailD40(s: Session, cmd: byte, src: Bytes, cap: nat) returns (mac: Bytes)
    requires s.channel == D40 && (s.mode.Plain? || s.mode.Mac?) && EncodeD40(s, cmd, src, cap).result.Ok?
    ensures (mac == [] || |mac| == 4) && EncodeD40(s, cmd, src, cap).result.value == src + mac
  {
    hide EncodeD40, D40Mac, Header, TransmitsMac;
    EncodeD40Ok(s, cmd, src, cap);
    var wire := EncodeD40(s, cmd, src, cap).result.value;
    mac := wire[|src|..];
  }

  lemma TailEv1(s: Session, cmd: byte, src: Bytes, cap: nat) returns (mac: Bytes)
    requires s.channel == EV1 && (s.mode.Plain? || s.mode.Mac?) && EncodeEv1(s, cmd, src, cap).result.Ok?
    ensures (mac == [] || |mac| == 8) && EncodeEv1(s, cmd, src, cap).result.value == src + mac
  {
    hide EncodeEv1, Ev1Mac, Header, TransmitsMac;
    EncodeEv1Ok(s, cmd, src, cap);
    var wire := EncodeEv1(s, cmd, src, cap).result.value;
    mac := wire[|src|..];
  }

  lemma TailEv2(s: Session, cmd: byte, src: Bytes, cap: nat) returns (mac: Bytes)
    requires (s.mode.Plain? || s.mode.Mac?) && EncodeEv2(s, cmd, src, cap).result.Ok?
    ensures (mac == [] || |mac| == 8) && EncodeEv2(s, cmd, src, cap).result.value == src + mac
  {
    hide EncodeEv2, Ev2Mac, HeaderLength;
    EncodeEv2Ok(s, cmd, src, cap);
    var wire := EncodeEv2(s, cmd, src, cap).result.value;
    mac := wire[|src|..];
  }

  /** A plain or MACed record goes out in exactly the frames the transaction MAC
      speaks of: in one, the command itself, if that is no longer than a full
      frame, else in several. */
  lemma WireIsRecordFrame(s: Session, r: Record, cap: nat) returns (mac: Bytes)
    requires s.mode.Plain? || s.mode.Mac?
    requires Encode(s, WRITE_RECORD, Field(r.fileNo, r.offset, r.data), cap).result.Ok?
    ensures mac == [] || |mac| == MacLength(s.channel)
    ensures var wire := Encode(s, WRITE_RECORD, Field(r.fileNo, r.offset, r.data), cap).result.value;
            var frames := RequestFrames(Native, WRITE_RECORD, Chunks(wire));
            && frames == WireFrames(r, mac)
            && (|wire| <= TX_FRAME_MAX <==> frames == [RecordFrame(r, mac)])
  {
    hide Encode, Chunks, RequestFrames, WriteHeader;
    mac := Tail(s, WRITE_RECORD, Field(r.fileNo, r.offset, r.data), cap);
    var f := RecordFrame(r, mac);
    assert f[1..] == Field(r.fileNo, r.offset, r.data) + mac;
    FramesOfRecord(r, mac);
  }

  //--------------------------------------------------------------------------
  // enciphered
  //--------------------------------------------------------------------------

  /** How long `n` enciphered bytes become: with a CRC16 on D40, a CRC32 on EV1,
      and on EV2 and LRP with the padding byte and a MAC behind. */
  function EncipheredLength(channel: Channel, block: nat, n: nat): nat
    requires block == 8 || block == 16
  {
    match channel
    case D40 => Cmac.RoundUp(n + 2, block)
    case EV1 => Cmac.RoundUp(n + 4, block)
    case NoChannel => n
    case _ => Cmac.RoundUp(n + 1, 16) + 8
  }

  /** Lengths for which the enciphered data is longer than the plain by exactly a
      MAC of the channel. */
  predicate Mistaken(channel: Channel, block: nat, n: nat)
    requires block == 8 || block == 16
  {
    (channel == D40 && (n + 4) % block == 0) || (channel == EV1 && (n + 8) % block == 0)
  }

  lemma LengthsTell(channel: Channel, block: nat, n: nat)
    requires (block == 8 || block == 16) && channel != NoChannel
    ensures EncipheredLength(channel, block, n) != n
    ensures EncipheredLength(channel, block, n) == n + MacLength(channel) <==> Mistaken(channel, block, n)
  {
    hide Cmac.RoundUp;
    match channel
    case D40 => RoundsTo(n + 2, block, n + 4); RoundsTo(n + 2, block, n);
    case EV1 => RoundsTo(n + 4, block, n + 8); RoundsTo(n + 4, block, n);
    case EV2 => RoundsTo(n + 1, 16, n);
    case LRP => RoundsTo(n + 1, 16, n);
  }

  /** The next whole number of blocks is the only one that close. */
  lemma RoundsTo(len: nat, block: nat, m: nat)
    requires (block == 8 || block == 16) && m < len + block
    ensures Cmac.RoundUp(len, block) == m <==> len <= m && m % block == 0
  {
    hide Cmac.RoundUp;
    var n := Cmac.RoundUp(len, block);
    if block == 8 { assert n / 8 * 8 == n; } else { assert n / 16 * 16 == n; }
  }

  /** An enciphered write: the header in the clear, then that many bytes. */
  lemma EncipheredWire(s: Session, cmd: byte, fileNo: byte, offset: nat, data: Bytes, cap: nat)
    requires IsWrite(cmd) && offset < 0x1000000 && 0 < |data| < 0x1000000
    requires s.mode.Enc? && s.channel != NoChannel && Encode(s, cmd, Field(fileNo, offset, data), cap).result.Ok?
    ensures var wire := Encode(s, cmd, Field(fileNo, offset, data), cap).result.value;
            && |wire| == 7 + EncipheredLength(s.channel, Block(EncCipher(s)), |data|)
            && wire[..7] == WriteHeader(fileNo, offset, |data|)
  {
    hide EncodeD40, EncodeEv1, EncodeEv2, WriteHeader, EncipheredLength;
    var src := Field(fileNo, offset, data);
    var t := s.(lastCmd := cmd, lastZeroLen := |src| <= HeaderLength(cmd, |src|));
    assert src[..7] == WriteHeader(fileNo, offset, |data|);
    assert EncCipher(t) == EncCipher(s) by { hide WriteHeader; }
    match s.channel
    case D40 => WireD40(t, cmd, src, cap);
    case EV1 => WireEv1(t, cmd, src, cap);
    case EV2 => WireEv2(t, cmd, src, cap);
    case LRP => WireEv2(t, cmd, src, cap);
  }

  lemma WireD40(s: Session, cmd: byte, src: Bytes, cap: nat)
    requires IsWrite(cmd) && |src| > 7 && s.mode.Enc? && s.channel == D40 && EncodeD40(s, cmd, src, cap).result.Ok?
    ensures var wire := EncodeD40(s, cmd, src, cap).result.value;
            |wire| == 7 + EncipheredLength(D40, Block(EncCipher(s)), |src| - 7) && wire[..7] == src[..7]
  {
    hide EncodeD40, D40Mac, D40Plain, D40Cipher, TransmitsMac, EncCipher;
    EncodeD40Ok(s, cmd, src, cap);
    PlainLengths(s, cmd, src);
  }

  lemma WireEv1(s: Session, cmd: byte, src: Bytes, cap: nat)
    requires IsWrite(cmd) && |src| > 7 && s.mode.Enc? && EncodeEv1(s, cmd, src, cap).result.Ok?
    ensures var wire := EncodeEv1(s, cmd, src, cap).result.value;
            |wire| == 7 + EncipheredLength(EV1, Block(EncCipher(s)), |src| - 7) && wire[..7] == src[..7]
  {
    hide EncodeEv1, Ev1Mac, Ev1Plain, Ev1Cipher, TransmitsMac, EncCipher;
    EncodeEv1Ok(s, cmd, src, cap);
    PlainLengths(s, cmd, src);
  }

  lemma PlainLengths(s: Session, cmd: byte, src: Bytes)
    requires |src| > 7 && s.mode.Enc?
    ensures |D40Plain(s, src[7..])| == EncipheredLength(D40, Block(EncCipher(s)), |src| - 7)
    ensures |Ev1Plain(s, cmd, src, 7)| == EncipheredLength(EV1, Block(EncCipher(s)), |src| - 7)
  {
    hide Crc.CrcOf, EncCipher;
  }

  lemma WireEv2(s: Session, cmd: byte, src: Bytes, cap: nat)
    requires IsWrite(cmd) && |src| > 7 && s.mode.Enc? && OnEv2(s) && EncodeEv2(s, cmd, src, cap).result.Ok?
    ensures var wire := EncodeEv2(s, cmd, src, cap).result.value;
            |wire| == 7 + EncipheredLength(s.channel, Block(EncCipher(s)), |src| - 7) && wire[..7] == src[..7]
  {
    hide EncodeEv2, Ev2Mac, Ev2Crypt, Padded2;
    EncodeEv2Ok(s, cmd, src, cap);
  }

  /** What the mock sees of a write: the data in plain and MAC mode; of an
      enciphered one the start of the ciphertext where the lengths are mistaken,
      and nothing otherwise. */
  function Seen(s: Session, data: Bytes, wire: Bytes): Option<Bytes>
    requires |wire| >= 7 + |data|
  {
    if !s.mode.Enc? then Some(data)
    else if Mistaken(s.channel, Block(EncCipher(s)), |data|) then Some(wire[7..7 + |data|])
    else None
  }

  /** The mock takes an enciphered write for a plain one exactly for those channels
      and lengths; a plain or MACed one it always reads right. */
  lemma WriteSeen(s: Session, cmd: byte, fileNo: byte, offset: nat, data: Bytes, cap: nat)
    requires IsWrite(cmd) && offset < 0x1000000 && 0 < |data| < 0x1000000
    requires s.mode.Plain? || s.mode.Mac? || (s.mode.Enc? && s.channel != NoChannel)
    requires Encode(s, cmd, Field(fileNo, offset, data), cap).result.Ok?
    ensures var wire := Encode(s, cmd, Field(fileNo, offset, data), cap).result.value;
            && |wire| >= 7 + |data|
            && Carried([cmd] + wire, MacLength(s.channel)) == Seen(s, data, wire)
  {
    hide Encode, WriteHeader, Carried, EncipheredLength, Mistaken;
    var src := Field(fileNo, offset, data);
    var wire := Encode(s, cmd, src, cap).result.value;
    var h, n, macLen := WriteHeader(fileNo, offset, |data|), |data|, MacLength(s.channel);
    if s.mode.Enc? {
      EncipheredWire(s, cmd, fileNo, offset, data, cap);
      LengthsTell(s.channel, Block(EncCipher(s)), n);
      LongEnough(s.channel, Block(EncCipher(s)), n);
      assert [cmd] + wire == [cmd] + h + wire[7..];
      CarriedBehind(cmd, fileNo, offset, n, wire[7..], macLen);
      assert wire[7..][..n] == wire[7..7 + n];
    } else {
      var mac := Tail(s, cmd, src, cap);
      assert [cmd] + wire == [cmd] + h + (data + mac);
      CarriedBehind(cmd, fileNo, offset, n, data + mac, macLen);
      assert (data + mac)[..n] == data && (mac == [] ==> data + mac == data);
    }
  }

  lemma LongEnough(channel: Channel, block: nat, n: nat)
    requires block == 8 || block == 16
    ensures EncipheredLength(channel, block, n) >= n
  {}

  /** The effect on the mock's files, by frame length, mode, channel, block size and
      data length: a write that fills its first frame makes the file unknown; a
      shorter one is staged as seen; and where nothing is seen a record is
      dropped, while other data makes the file unknown. */
  lemma WriteRead(s: Session, cmd: byte, fileNo: byte, offset: nat, data: Bytes, cap: nat)
    requires IsWrite(cmd) && offset < 0x1000000 && 0 < |data| < 0x1000000
    requires s.mode.Plain? || s.mode.Mac? || (s.mode.Enc? && s.channel != NoChannel)
    requires Encode(s, cmd, Field(fileNo, offset, data), cap).result.Ok?
    ensures var wire := Encode(s, cmd, Field(fileNo, offset, data), cap).result.value;
            var first := RequestFrames(Native, cmd, Chunks(wire))[0];
            && |wire| >= 7 + |data|
            && Files.Reads(first, MacLength(s.channel))
               == Some(Files.Command(fileNo,
                       if |wire| >= TX_FRAME_MAX then Forget
                       else
                         var seen := Seen(s, data, wire);
                         if cmd == WRITE_RECORD then WriteRecord(seen)
                         else if seen.Some? then WriteData(offset, seen.value) else Forget))
  {
    hide Encode, WriteHeader, Carried, Seen;
    var src := Field(fileNo, offset, data);
    var wire := Encode(s, cmd, src, cap).result.value;
    WriteSeen(s, cmd, fileNo, offset, data, cap);
    HeaderOnWire(s, cmd, fileNo, offset, data, cap);
    FirstFrame(Native, cmd, wire);
    var first := RequestFrames(Native, cmd, Chunks(wire))[0];
    if |wire| >= TX_FRAME_MAX {
      assert first == [cmd] + wire[..TX_FRAME_MAX];
      assert first[1] == wire[0];
    } else {
      assert wire[..|wire|] == wire && first == [cmd] + wire;
    }
  }

  lemma HeaderOnWire(s: Session, cmd: byte, fileNo: byte, offset: nat, data: Bytes, cap: nat)
    requires IsWrite(cmd) && offset < 0x1000000 && 0 < |data| < 0x1000000
    requires s.mode.Plain? || s.mode.Mac? || (s.mode.Enc? && s.channel != NoChannel)
    requires Encode(s, cmd, Field(fileNo, offset, data), cap).result.Ok?
    ensures var wire := Encode(s, cmd, Field(fileNo, offset, data), cap).result.value;
            |wire| > 7 && wire[0] == fileNo && FromU24(([cmd] + wire)[2..5]) == offset
  {
    hide Encode, WriteHeader, FromU24, EncipheredLength;
    var src := Field(fileNo, offset, data);
    var wire := Encode(s, cmd, src, cap).result.value;
    var h := WriteHeader(fileNo, offset, |data|);
    if s.mode.Enc? {
      EncipheredWire(s, cmd, fileNo, offset, data, cap);
      LongEnough(s.channel, Block(EncCipher(s)), |data|);
    } else {
      var mac := Tail(s, cmd, src, cap);
    }
    HeaderRead(cmd, fileNo, offset, |data|, wire[7..]);
    assert [cmd] + wire == [cmd] + h + wire[7..];
  }

  /** Four enciphered bytes on D40 under an eight-byte block: the mock stages the
      start of the ciphertext as the record, and adds a block to the input of the
      transaction MAC. */
  lemma CiphertextStaged(s: Session, files: seq<File>, fileNo: byte, data: Bytes, cap: nat, tmi: Bytes)
    requires s.channel == D40 && s.mode.Enc? && Block(EncCipher(s)) == 8 && |data| == 4
    requires !Refuses(files, fileNo) && |tmi| + 32 <= TMI_SIZE
    requires Encode(s, WRITE_RECORD, Field(fileNo, 0, data), cap).result.Ok?
    ensures var wire := Encode(s, WRITE_RECORD, Field(fileNo, 0, data), cap).result.value;
            var i := Find(files, fileNo);
            && |wire| == 15 && i < |files|
            && Apply(files[i], WriteRecord(Carried([WRITE_RECORD] + wire, 4))).pending.record == Some(Slot(wire[7..11]))
            && |Received(files, tmi, [WRITE_RECORD] + wire, 4)| == |tmi| + 32
  {
    hide Encode, WriteHeader, Carried, Slot, FromU24;
    EncipheredWire(s, WRITE_RECORD, fileNo, 0, data, cap);
    WriteSeen(s, WRITE_RECORD, fileNo, 0, data, cap);
    HeaderOnWire(s, WRITE_RECORD, fileNo, 0, data, cap);
  }
}
