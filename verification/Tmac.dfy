/** The transaction MAC: the input the host rebuilds from the records it wrote,
    the input the card accumulates from the frames it received, and the value
    both compute over it. */
module Tmac {
  import opened ByteStrings
  import opened Results
  import opened Ciphers
  import opened Framing
  import opened MockFrames
  import Files
  import Cmac

  const TMI_SIZE: nat := 256       // MOCK_TMI_SIZE

  /** One nxpsc_write_record call that carries data. */
  datatype RawRecord = RawRecord(fileNo: byte, offset: nat, data: Bytes)
  type Record = r: RawRecord | r.offset < 0x1000000 && 0 < |r.data| < 0x1000000 witness RawRecord(0, 0, [0])

  /** The length of a block: 16 bytes of parameters and the padded data. */
  function BlockLength(len: nat): (n: nat)
    ensures n % 16 == 0 && n >= 16 + len && n < 32 + len
  {
    16 + Cmac.RoundUp(len, 16)
  }

  /** Command, file number, offset and length, as on the command interface. */
  function Parameters(r: Record): (b: Bytes)
    ensures |b| == 8
  {
    [WRITE_RECORD] + WriteHeader(r.fileNo, r.offset, |r.data|)
  }

  /** nxpsc_tmac_tmi_write_record: the block the host builds for a record. */
  function HostBlock(r: Record): (b: Bytes)
    ensures |b| == BlockLength(|r.data|)
  {
    hide Parameters;
    Parameters(r) + Zeros(8) + r.data + Zeros(Cmac.RoundUp(|r.data|, 16) - |r.data|)
  }

  /** Section 10.3.4.2, by position: command byte, file number, offset and length with
      their least significant bytes first, eight zeros, the data, zeros to a whole block. */
  lemma BlockHolds(r: Record)
    ensures var b, n := HostBlock(r), |r.data|;
            && |b| % 16 == 0 && 16 + n <= |b| < 32 + n
            && b[0] == 0x3B && b[1] == r.fileNo
            && Num(b[2]) == r.offset % 0x100 && Num(b[3]) == r.offset / 0x100 % 0x100 && Num(b[4]) == r.offset / 0x10000
            && Num(b[5]) == n % 0x100 && Num(b[6]) == n / 0x100 % 0x100 && Num(b[7]) == n / 0x10000
            && b[8..16] == Zeros(8) && b[16..16 + n] == r.data && b[16 + n..] == Zeros(|b| - 16 - n)
  {
    hide U24, Num, Cmac.RoundUp;
    var b, n := HostBlock(r), |r.data|;
    U24Little(r.offset);
    U24Little(n);
    var p := Parameters(r);
    assert p == [WRITE_RECORD] + [r.fileNo] + U24(r.offset) + U24(n);
    assert b[..8] == p && b[2..5] == U24(r.offset) && b[5..8] == U24(n);
  }

  lemma Sixteens(a: nat, b: nat)
    requires a % 16 == 0 && b % 16 == 0
    ensures (a + b) % 16 == 0
  {}

  function HostInput(rs: seq<Record>): (b: Bytes)
    ensures |b| % 16 == 0 && (rs != [] ==> |b| > 0)
  {
    hide HostBlock, BlockLength;
    if rs == [] then []
    else
      var before, block := HostInput(rs[..|rs| - 1]), HostBlock(rs[|rs| - 1]);
      Sixteens(|before|, |block|);
      before + block
  }

  /** The field writes of nxpsc_tmac_tmi_write_record. */
  method WriteTmi(r: RawRecord, tmi: array<byte>) returns (rc: Result<nat>)
    modifies tmi
    ensures if r.offset > 0xFFFFFF || r.data == [] || |r.data| > 0xFFFFFF then rc == Err(Param) && tmi[..] == old(tmi[..])
            else if tmi.Length < BlockLength(|r.data|) then rc == Err(Length) && tmi[..] == old(tmi[..])
            else rc == Ok(BlockLength(|r.data|)) && tmi[..] == HostBlock(r) + old(tmi[BlockLength(|r.data|)..])
  {
    hide HostBlock, Parameters, U24, Splice;
    if r.offset > 0xFFFFFF || |r.data| == 0 || |r.data| > 0xFFFFFF {
      return Err(Param);
    }
    var padded := (|r.data| + 15) / 16 * 16;
    assert padded == Cmac.RoundUp(|r.data|, 16);
    var needed := 16 + padded;
    if tmi.Length < needed {
      return Err(Length);
    }
    Blit(tmi, 0, Zeros(needed));
    PutParameters(r, tmi);
    // tmi[8..16] stay zero
    Blit(tmi, 16, r.data);
    LaidOut(r, old(tmi[..]), tmi[..]);
    rc := Ok(needed);
  }

  method PutParameters(r: Record, tmi: array<byte>)
    requires tmi.Length >= 8
    modifies tmi
    ensures tmi[..] == Splice(old(tmi[..]), 0, Parameters(r))
  {
    tmi[0] := WRITE_RECORD;
    tmi[1] := r.fileNo;
    Blit(tmi, 2, U24(r.offset));
    Blit(tmi, 5, U24(|r.data|));
  }

  lemma LaidOut(r: Record, before: Bytes, after: Bytes)
    requires |before| == |after| >= BlockLength(|r.data|)
    requires after == Splice(Splice(Splice(before, 0, Zeros(BlockLength(|r.data|))), 0, Parameters(r)), 16, r.data)
    ensures after == HostBlock(r) + before[BlockLength(|r.data|)..]
  {
    hide Parameters, Cmac.RoundUp;
    var n, p := BlockLength(|r.data|), Parameters(r);
    var z := Splice(before, 0, Zeros(n));
    assert z == Zeros(n) + before[n..];
    var y := Splice(z, 0, p);
    assert y == p + Zeros(n - 8) + before[n..];
    assert Zeros(n - 8) == Zeros(8) + Zeros(n - 16);
    assert after == p + Zeros(8) + r.data + Zeros(n - 16 - |r.data|) + before[n..];
  }

  //--------------------------------------------------------------------------
  // the card
  //--------------------------------------------------------------------------

  /** The WriteRecord command as nxpsc_write_record sends it in plain or MAC mode:
      command, header, data, and the MAC if there is one. */
  function RecordFrame(r: Record, mac: Bytes): (f: Bytes)
    ensures |f| == 8 + |r.data| + |mac| && f[0] == WRITE_RECORD
  {
    Parameters(r) + r.data + mac
  }

  /** The native frames it goes out in. */
  function WireFrames(r: Record, mac: Bytes): seq<Frame> {
    RequestFrames(Native, WRITE_RECORD, Chunks(RecordFrame(r, mac)[1..]))
  }

  /** mock_tmi_write_record: the card's own layout of the block, taken from the
      frame; a block that does not fit is left out. */
  function Accumulated(tmi: Bytes, header: Bytes, data: Bytes): (t: Bytes)
    requires |header| == 7
  {
    var block := 16 + (|data| + 15) / 16 * 16;
    if |tmi| + block > TMI_SIZE then tmi
    else
      var at := Splice(Splice(Zeros(block)[0 := WRITE_RECORD], 1, header), 16, data);
      tmi + at
  }

  /** Whether a record for that file is answered with an error: there is no such
      file, or it takes no records. */
  predicate Refuses(files: seq<Files.File>, fileNo: byte) {
    Files.RecordRefused(files, Files.Command(fileNo, Files.WriteRecord(None)))
  }

  /** What a received frame makes of the input of a card that holds a transaction
      MAC file: a record that is read and accepted adds its block, a refused one
      empties the input, and a full frame is answered before any command is looked
      at. */
  function Received(files: seq<Files.File>, tmi: Bytes, tx: Bytes, macLen: nat): Bytes {
    hide Accumulated, Carried, Files.RecordRefused;
    var c := Files.Reads(tx, macLen);
    if c.None? then tmi
    else if c.value.op.Abort? || Files.RecordRefused(files, c.value) then []
    else if !c.value.op.WriteRecord? || c.value.op.record.None? || c.value.op.record.value == [] || |tx| < 8 then tmi
    else Accumulated(tmi, tx[1..8], c.value.op.record.value)
  }

  function ReceivedAll(files: seq<Files.File>, tmi: Bytes, frames: seq<Frame>, macLen: nat): Bytes
    decreases |frames|
  {
    hide Received;
    if frames == [] then tmi else ReceivedAll(files, Received(files, tmi, frames[0], macLen), frames[1..], macLen)
  }

  /** The command goes out in one frame that is not full. */
  predicate Unchained(r: Record, mac: Bytes) {
    |RecordFrame(r, mac)| < FULL_FRAME
  }

  /** A short command is one frame, the command itself. A longer one starts with
      a full frame, and whatever follows carries MORE. */
  lemma FramesOfRecord(r: Record, mac: Bytes)
    ensures var f, w := RecordFrame(r, mac), WireFrames(r, mac);
            && (|f| <= FULL_FRAME ==> w == [f])
            && (|f| >= FULL_FRAME ==> |w| >= 1 && |w[0]| == FULL_FRAME)
            && forall i | 1 <= i < |w| :: w[i] != [] && w[i][0] == MORE
  {
    hide RecordFrame;
    var f := RecordFrame(r, mac);
    var data := f[1..];
    FirstFrame(Native, WRITE_RECORD, data);
    assert [WRITE_RECORD] + data == f;
    if |data| <= TX_FRAME_MAX {
      assert data[..|data|] == data;
    } else {
      MoreFrames(data[TX_FRAME_MAX..]);
    }
  }

  lemma MoreFrames(data: Bytes)
    ensures forall w <- RequestFrames(Native, MORE, Chunks(data)) :: w != [] && w[0] == MORE
  {
    hide Chunks;
  }

  lemma {:induction false} NothingReceived(files: seq<Files.File>, tmi: Bytes, frames: seq<Frame>, macLen: nat)
    requires forall f <- frames :: f != [] && (|f| == FULL_FRAME || f[0] == MORE)
    ensures ReceivedAll(files, tmi, frames, macLen) == tmi
    decreases |frames|
  {
    hide Carried, Accumulated, FromU24, Files.Find;
    if frames != [] {
      NothingReceived(files, tmi, frames[1..], macLen);
    }
  }

  /** Whether it carries a MAC or not, the card takes the command for the record
      the host wrote. It adds exactly the host's block if there is room, and drops
      all it had if the file takes no records; of a command that fills a frame it
      sees nothing. */
  lemma CardAddsHostBlock(files: seq<Files.File>, tmi: Bytes, r: Record, mac: Bytes, macLen: nat)
    requires mac == [] || |mac| == macLen
    ensures ReceivedAll(files, tmi, WireFrames(r, mac), macLen)
         == if !Unchained(r, mac) then tmi
            else if Refuses(files, r.fileNo) then []
            else if |tmi| + |HostBlock(r)| > TMI_SIZE then tmi else tmi + HostBlock(r)
  {
    hide WireFrames, Received, RecordFrame, HostBlock, Refuses;
    FramesOfRecord(r, mac);
    var w := WireFrames(r, mac);
    if Unchained(r, mac) {
      var f := RecordFrame(r, mac);
      assert ReceivedAll(files, tmi, [f], macLen) == Received(files, tmi, f, macLen) by {
        assert [f][1..] == [];
      }
      OneFrameReceived(files, tmi, r, mac, macLen);
    } else {
      forall f | f in w ensures f != [] && (|f| == FULL_FRAME || f[0] == MORE) {
        var i :| 0 <= i < |w| && w[i] == f;
      }
      NothingReceived(files, tmi, w, macLen);
    }
  }

  lemma OneFrameReceived(files: seq<Files.File>, tmi: Bytes, r: Record, mac: Bytes, macLen: nat)
    requires (mac == [] || |mac| == macLen) && Unchained(r, mac)
    ensures Received(files, tmi, RecordFrame(r, mac), macLen)
         == if Refuses(files, r.fileNo) then []
            else if |tmi| + |HostBlock(r)| > TMI_SIZE then tmi else tmi + HostBlock(r)
  {
    hide WriteHeader, Carried, HostBlock, Accumulated, Files.Find, FromU24;
    var tx := RecordFrame(r, mac);
    assert tx == [WRITE_RECORD] + WriteHeader(r.fileNo, r.offset, |r.data|) + (r.data + mac);
    CarriedBehind(WRITE_RECORD, r.fileNo, r.offset, |r.data|, r.data + mac, macLen);
    HeaderRead(WRITE_RECORD, r.fileNo, r.offset, |r.data|, r.data + mac);
    assert (r.data + mac)[..|r.data|] == r.data && (mac == [] ==> r.data + mac == r.data);
    assert tx[1..8] == Parameters(r)[1..];
    CardLayout(tmi, r);
  }

  lemma CardLayout(tmi: Bytes, r: Record)
    ensures Accumulated(tmi, Parameters(r)[1..], r.data)
         == if |tmi| + |HostBlock(r)| > TMI_SIZE then tmi else tmi + HostBlock(r)
  {
    hide Parameters;
    var p, n := Parameters(r), |r.data|;
    var block := 16 + (n + 15) / 16 * 16;
    assert block == BlockLength(n);
    FirstParameter(r);
    assert p == [WRITE_RECORD] + p[1..];
    var z := Splice(Zeros(block)[0 := WRITE_RECORD], 1, p[1..]);
    assert z == p + Zeros(8) + Zeros(block - 16);
    assert Splice(z, 16, r.data) == p + Zeros(8) + r.data + Zeros(block - 16 - n);
  }

  lemma FirstParameter(r: Record)
    ensures Parameters(r)[0] == WRITE_RECORD
  {}

  /** The card's input after the frames of some records, each with or without a
      MAC of `macLen` bytes. */
  function CardInput(files: seq<Files.File>, rs: seq<Record>, macs: seq<Bytes>, macLen: nat): Bytes
    requires |macs| == |rs|
    decreases |rs|
  {
    hide ReceivedAll, WireFrames;
    if rs == [] then []
    else
      var n := |rs| - 1;
      ReceivedAll(files, CardInput(files, rs[..n], macs[..n], macLen), WireFrames(rs[n], macs[n]), macLen)
  }

  predicate MacSizes(macs: seq<Bytes>, macLen: nat) {
    forall m <- macs :: m == [] || |m| == macLen
  }

  /** The card gets to see the record, and takes it. */
  predicate Taken(files: seq<Files.File>, r: Record, mac: Bytes) {
    Unchained(r, mac) && !Refuses(files, r.fileNo)
  }

  predicate AllTaken(files: seq<Files.File>, rs: seq<Record>, macs: seq<Bytes>)
    requires |macs| == |rs|
  {
    forall i | 0 <= i < |rs| :: Taken(files, rs[i], macs[i])
  }

  /** The card's input is the host's exactly if no record fills a frame, every one
      is for a record file of the card, and all fit its buffer: a block that is
      left out or dropped makes it shorter for good. */
  lemma {:induction false} InputsAgree(files: seq<Files.File>, rs: seq<Record>, macs: seq<Bytes>, macLen: nat)
    requires |macs| == |rs| && MacSizes(macs, macLen)
    ensures CardInput(files, rs, macs, macLen) == HostInput(rs)
       <==> |HostInput(rs)| <= TMI_SIZE && AllTaken(files, rs, macs)
    ensures |CardInput(files, rs, macs, macLen)| <= TMI_SIZE
    ensures CardInput(files, rs, macs, macLen) == HostInput(rs)
            || |CardInput(files, rs, macs, macLen)| < |HostInput(rs)|
    decreases |rs|
  {
    hide ReceivedAll, WireFrames, HostBlock, BlockLength, Unchained, Refuses;
    if rs != [] {
      var n := |rs| - 1;
      InputsAgree(files, rs[..n], macs[..n], macLen);
      CardAddsHostBlock(files, CardInput(files, rs[..n], macs[..n], macLen), rs[n], macs[n], macLen);
      assert AllTaken(files, rs, macs) <==> AllTaken(files, rs[..n], macs[..n]) && Taken(files, rs[n], macs[n]);
    }
  }

  /** A block says where it ends. */
  lemma BlockFirst(r: Record, s: Record, x: Bytes, y: Bytes)
    requires HostBlock(r) + x == HostBlock(s) + y
    ensures r == s && x == y
  {
    hide U24, FromU24, Cmac.RoundUp;
    var a, b := HostBlock(r) + x, HostBlock(s) + y;
    assert a[1] == r.fileNo && b[1] == s.fileNo;
    assert a[2..5] == U24(r.offset) && b[2..5] == U24(s.offset);
    assert a[5..8] == U24(|r.data|) && b[5..8] == U24(|s.data|);
    assert FromU24(a[2..5]) == r.offset && FromU24(b[2..5]) == s.offset;
    assert FromU24(a[5..8]) == |r.data| && FromU24(b[5..8]) == |s.data|;
    assert a[16..16 + |r.data|] == r.data && b[16..16 + |s.data|] == s.data;
    assert a[|HostBlock(r)|..] == x && b[|HostBlock(s)|..] == y;
  }

  lemma InputLast(rs: seq<Record>, r: Record)
    ensures HostInput(rs + [r]) == HostInput(rs) + HostBlock(r)
  {
    hide HostBlock;
    assert (rs + [r])[..|rs|] == rs;
  }

  lemma {:induction false} InputFromFront(rs: seq<Record>)
    requires rs != []
    ensures HostInput(rs) == HostBlock(rs[0]) + HostInput(rs[1..])
    decreases |rs|
  {
    hide HostBlock, HostInput;
    var n := |rs| - 1;
    var first, last := rs[..n], rs[n];
    assert rs == first + [last];
    InputLast(first, last);
    if n == 0 {
      InputLast([], last);
      InputNone();
    } else {
      InputFromFront(first);
      InputLast(first[1..], last);
      assert rs[1..] == first[1..] + [last];
    }
  }

  lemma InputNone()
    ensures HostInput([]) == []
  {}

  /** The input determines the records, their files, offsets and order. */
  lemma {:induction false} InputDeterminesRecords(a: seq<Record>, b: seq<Record>)
    requires HostInput(a) == HostInput(b)
    ensures a == b
    decreases |a|
  {
    hide HostBlock, BlockLength;
    if a != [] && b != [] {
      InputFromFront(a);
      InputFromFront(b);
      BlockFirst(a[0], b[0], HostInput(a[1..]), HostInput(b[1..]));
      InputDeterminesRecords(a[1..], b[1..]);
      assert a == [a[0]] + a[1..] && b == [b[0]] + b[1..];
    }
  }

  //--------------------------------------------------------------------------
  // the value
  //--------------------------------------------------------------------------

  /** A counter, least significant byte first. */
  function U32(n: nat): (b: Bytes)
    requires n < 0x1_0000_0000
    ensures |b| == 4
  {
    [Byte(n % 256), Byte(n / 256 % 256), Byte(n / 65536 % 256), Byte(n / 0x1000000 % 256)]
  }

  function AesKey(p: Primitives, key: Bytes): (c: Cipher)
    requires |key| == 16
    ensures Block(c) == 16
  {
    RawCipher(p, AES128, key)
  }

  /** Section 10.3.2 of the MF2DL(H)x0 data sheet: the session key from counter
      and UID, and the odd bytes of the CMAC over the input. */
  function Tmv(p: Primitives, key: Bytes, uid: Bytes, tmc: Bytes, tmi: Bytes): (v: Bytes)
    requires |key| == 16 && |uid| == 7 && |tmc| == 4
    ensures |v| == 8
  {
    hide Cmac.MacOf;
    var session := Cmac.MacOf(AesKey(p, key), Zeros(16), [0x5A, 0x00, 0x01, 0x00, 0x80] + tmc + uid, 0);
    Cmac.Truncated(Cmac.MacOf(AesKey(p, session), Zeros(16), tmi, 0))
  }

  /** Least significant byte first, and no two counters look alike. */
  lemma U32Little(n: nat, k: nat)
    requires n < 0x1_0000_0000 && k < 0x1_0000_0000
    ensures var b := U32(n);
            Num(b[0]) + 0x100 * Num(b[1]) + 0x10000 * Num(b[2]) + 0x1000000 * Num(b[3]) == n
    ensures U32(n) == U32(k) ==> n == k
  {
    hide Num, Byte;
    FourDigits(n);
    FourDigits(k);
  }

  lemma FourDigits(n: nat)
    requires n < 0x1_0000_0000
    ensures n % 256 + 0x100 * (n / 256 % 256) + 0x10000 * (n / 65536 % 256) + 0x1000000 * (n / 0x1000000 % 256) == n
  {
    var q := n / 256;
    var r := q / 256;
    assert r == n / 65536 && r / 256 == n / 0x1000000 && n / 0x1000000 < 256;
  }

  /** The session vector: the constant bytes 5A 00 01 00 80, the counter, the UID. */
  lemma SessionVector(p: Primitives, key: Bytes, uid: Bytes, tmc: Bytes, tmi: Bytes) returns (v: Bytes, session: Bytes)
    requires |key| == 16 && |uid| == 7 && |tmc| == 4
    ensures |v| == 16 && v[..5] == [0x5A, 0x00, 0x01, 0x00, 0x80] && v[5..9] == tmc && v[9..] == uid
    ensures session == Cmac.MacOf(RawCipher(p, AES128, key), Zeros(16), v, 0)
    ensures Tmv(p, key, uid, tmc, tmi) == Cmac.Truncated(Cmac.MacOf(RawCipher(p, AES128, session), Zeros(16), tmi, 0))
  {
    hide Cmac.MacOf;
    v := [0x5A, 0x00, 0x01, 0x00, 0x80] + tmc + uid;
    session := Cmac.MacOf(RawCipher(p, AES128, key), Zeros(16), v, 0);
  }

  /** Under one key, values at different counters, or for cards with different UIDs, are
      computed under different session keys. */
  lemma SessionsDiffer(p: Primitives, key: Bytes, uid: Bytes, other: Bytes, n: nat, k: nat)
    requires |key| == 16 && |uid| == |other| == 7 && n < 0x1_0000_0000 && k < 0x1_0000_0000
    requires n != k || uid != other
    ensures var c := RawCipher(p, AES128, key);
            Cmac.MacOf(c, Zeros(16), [0x5A, 0x00, 0x01, 0x00, 0x80] + U32(n) + uid, 0)
            != Cmac.MacOf(c, Zeros(16), [0x5A, 0x00, 0x01, 0x00, 0x80] + U32(k) + other, 0)
  {
    hide Cmac.MacOf, U32;
    U32Little(n, k);
    var v, w := [0x5A, 0x00, 0x01, 0x00, 0x80] + U32(n) + uid, [0x5A, 0x00, 0x01, 0x00, 0x80] + U32(k) + other;
    assert v[5..9] == U32(n) && w[5..9] == U32(k) && v[9..] == uid && w[9..] == other;
    Cmac.ShortTells(RawCipher(p, AES128, key), Zeros(16), v, w);
  }

  /** nxpsc_tmac_compute */
  method HostValue(p: Primitives, kind: KeyType, key: Bytes, uid: Bytes, tmc: Bytes, tmi: Bytes) returns (r: Result<Bytes>)
    requires |key| == 32 && |tmc| == 4
    ensures r == if !kind.AES128? then Err(Unsupported)
                 else if |uid| != 7 || |tmi| == 0 || |tmi| % 16 != 0 then Err(Length)
                 else Ok(Tmv(p, key[..16], uid, tmc, tmi))
  {
    hide Cmac.MacOf, Cmac.Truncated;
    if !kind.AES128? {
      return Err(Unsupported);
    }
    if |uid| != 7 {
      return Err(Length);
    }
    if |tmi| == 0 || |tmi| % 16 != 0 {
      return Err(Length);
    }
    var sv1 := new byte[16](_ => 0);
    Blit(sv1, 0, [0x5A, 0x00, 0x01, 0x00, 0x80]);
    Blit(sv1, 5, tmc);
    Blit(sv1, 9, uid);
    assert sv1[..] == [0x5A, 0x00, 0x01, 0x00, 0x80] + tmc + uid;
    var session := Cmac.Mac(AesKey(p, key[..16]), null, sv1[..], 0);
    var full := Cmac.Mac(AesKey(p, session), null, tmi, 0);
    r := Ok(Cmac.Truncated(full));
  }

  //--------------------------------------------------------------------------
  // runs
  //--------------------------------------------------------------------------

  /** A record with the MAC it carries, if any, and the length a MAC has in the
      session it is sent in. */
  datatype Event = Write(record: Record, mac: Bytes, macLen: nat) | Commit | Abort

  /** What CommitTransaction answers: the counter it used, and the value. */
  datatype Report = Report(tmc: nat, tmv: Bytes)

  datatype CardState = CardState(tmi: Bytes, tmc: nat, reports: seq<Report>)

  /** What the host remembers: the open transaction and the committed ones. */
  datatype HostState = HostState(open: seq<Record>, done: seq<seq<Record>>)

  /** Key and identifier, and the files of the application, whose settings stay;
      one of them is the transaction MAC file. */
  datatype Party = Party(p: Primitives, key: Bytes, uid: Bytes, files: seq<Files.File>)

  predicate Set(x: Party) {
    |x.key| == 16 && |x.uid| == 7
  }

  /** A commit with nothing to account for is refused; otherwise the counter goes
      up and a new input starts. */
  function CardStep(x: Party, s: CardState, e: Event): CardState
    requires Set(x)
  {
    hide Tmv, ReceivedAll, WireFrames;
    match e
    case Write(r, mac, macLen) => s.(tmi := ReceivedAll(x.files, s.tmi, WireFrames(r, mac), macLen))
    case Abort => s.(tmi := [])
    case Commit =>
      if s.tmi == [] then s
      else
        var tmc := (s.tmc + 1) % 0x1_0000_0000;
        CardState([], tmc, s.reports + [Report(tmc, Tmv(x.p, x.key, x.uid, U32(tmc), s.tmi))])
  }

  /** A host that starts over when a record is answered with an error, as it has to:
      the error has ended the transaction on the card. */
  function HostStep(x: Party, h: HostState, e: Event): HostState {
    hide Unchained, Refuses;
    match e
    case Write(r, mac, _) => h.(open := if Unchained(r, mac) && Refuses(x.files, r.fileNo) then [] else h.open + [r])
    case Abort => h.(open := [])
    case Commit => if h.open == [] then h else HostState([], h.done + [h.open])
  }

  function CardRun(x: Party, s: CardState, es: seq<Event>): CardState
    requires Set(x)
  {
    hide CardStep;
    if es == [] then s else CardStep(x, CardRun(x, s, es[..|es| - 1]), es[|es| - 1])
  }

  function HostRun(x: Party, h: HostState, es: seq<Event>): HostState {
    hide HostStep;
    if es == [] then h else HostStep(x, HostRun(x, h, es[..|es| - 1]), es[|es| - 1])
  }

  predicate Measured(e: Event) {
    e.Write? ==> (e.mac == [] || |e.mac| == e.macLen) && Unchained(e.record, e.mac)
  }

  /** No record of the run fills a frame, and every transaction fits the card's
      buffer. Records may be refused. */
  predicate AllFit(x: Party, es: seq<Event>) {
    && (forall e <- es :: Measured(e))
    && (forall i | 0 <= i <= |es| :: |HostInput(HostRun(x, HostState([], []), es[..i]).open)| <= TMI_SIZE)
  }

  /** The card's input is the host's; there is one report for each transaction
      the host committed, with consecutive counters, and each value is the one
      the host computes from its records. */
  ghost predicate Agreed(x: Party, c: CardState, h: HostState)
    requires Set(x)
  {
    && c.tmi == HostInput(h.open)
    && |c.reports| == |h.done| && c.tmc == |h.done| % 0x1_0000_0000
    && forall i | 0 <= i < |h.done| :: Matching(x, c.reports[i], h.done[i], i + 1)
  }

  ghost predicate Matching(x: Party, r: Report, records: seq<Record>, n: nat)
    requires Set(x)
  {
    r.tmc == n % 0x1_0000_0000 && r.tmv == Tmv(x.p, x.key, x.uid, U32(r.tmc), HostInput(records))
  }

  lemma StepAgrees(x: Party, c: CardState, h: HostState, e: Event)
    requires Set(x) && Agreed(x, c, h) && Measured(e)
    requires |HostInput(HostStep(x, h, e).open)| <= TMI_SIZE
    ensures Agreed(x, CardStep(x, c, e), HostStep(x, h, e))
  {
    hide Tmv, ReceivedAll, WireFrames, Unchained, Refuses, HostBlock, U32;
    if e.Write? {
      CardAddsHostBlock(x.files, c.tmi, e.record, e.mac, e.macLen);
      assert (h.open + [e.record])[..|h.open|] == h.open;
    }
  }

  /** In every run from a fresh counter, host and card agree, whatever records the
      card refuses in between. */
  lemma {:induction false} ValuesAgree(x: Party, es: seq<Event>)
    requires Set(x) && AllFit(x, es)
    ensures Agreed(x, CardRun(x, CardState([], 0, []), es), HostRun(x, HostState([], []), es))
    decreases |es|
  {
    hide Agreed, CardStep, HostStep, HostInput, Measured;
    if es == [] {
      NothingYet(x);
    } else {
      var n := |es| - 1;
      PrefixFits(x, es);
      ValuesAgree(x, es[..n]);
      assert es[..|es|] == es;
      StepAgrees(x, CardRun(x, CardState([], 0, []), es[..n]), HostRun(x, HostState([], []), es[..n]), es[n]);
    }
  }

  lemma NothingYet(x: Party)
    requires Set(x)
    ensures Agreed(x, CardState([], 0, []), HostState([], []))
  {}

  lemma PrefixFits(x: Party, es: seq<Event>)
    requires es != [] && AllFit(x, es)
    ensures AllFit(x, es[..|es| - 1])
  {
    hide HostInput, HostStep, Measured;
    var n := |es| - 1;
    assert forall i | 0 <= i <= n :: es[..n][..i] == es[..i];
  }

  /** A run with one more event. */
  lemma RunSnoc(x: Party, es: seq<Event>, e: Event)
    requires Set(x)
    ensures CardRun(x, CardState([], 0, []), es + [e]) == CardStep(x, CardRun(x, CardState([], 0, []), es), e)
    ensures HostRun(x, HostState([], []), es + [e]) == HostStep(x, HostRun(x, HostState([], []), es), e)
  {
    hide CardStep, HostStep;
    assert (es + [e])[..|es|] == es;
  }

  /** A record that fills a frame, even one that fits a single frame exactly, is
      lost to the card: it rejects the commit, while the host holds a value. */
  lemma FullFrameIsLost(x: Party, r: Record, mac: Bytes, macLen: nat)
    requires Set(x) && (mac == [] || |mac| == macLen) && !Unchained(r, mac)
    ensures var es := [Write(r, mac, macLen), Commit];
            var c, h := CardRun(x, CardState([], 0, []), es), HostRun(x, HostState([], []), es);
            c.reports == [] && h.done == [[r]] && !Agreed(x, c, h)
  {
    hide ReceivedAll, WireFrames, Unchained, Refuses, HostInput, Tmv, CardRun, HostRun;
    RunNone(x);
    RunSnoc(x, [], Write(r, mac, macLen));
    RunSnoc(x, [Write(r, mac, macLen)], Commit);
    assert [] + [Write(r, mac, macLen)] == [Write(r, mac, macLen)];
    assert [Write(r, mac, macLen)] + [Commit] == [Write(r, mac, macLen), Commit];
    assert [] + [r] == [r];
    CardAddsHostBlock(x.files, [], r, mac, macLen);
  }

  lemma RunNone(x: Party)
    requires Set(x)
    ensures CardRun(x, CardState([], 0, []), []) == CardState([], 0, [])
    ensures HostRun(x, HostState([], []), []) == HostState([], [])
  {}

  /** Such a record: 47 bytes of data in plain mode. */
  lemma FortySevenBytes(fileNo: byte)
    ensures var r := RawRecord(fileNo, 0, Zeros(47)); |RecordFrame(r, [])| == FULL_FRAME && !Unchained(r, [])
  {}

  /** Between two records that are taken, one that is refused: the card reports the
      value of the last record alone. That is the value of the host that started
      over; one that kept the first record has another input. */
  lemma RefusedStartsOver(x: Party, r: Record, q: Record, s: Record)
    requires Set(x) && Taken(x.files, r, []) && Taken(x.files, s, []) && Unchained(q, []) && Refuses(x.files, q.fileNo)
    ensures var es := [Write(r, [], 0), Write(q, [], 0), Write(s, [], 0), Commit];
            var c, h := CardRun(x, CardState([], 0, []), es), HostRun(x, HostState([], []), es);
            && c.reports == [Report(1, Tmv(x.p, x.key, x.uid, U32(1), HostInput([s])))]
            && h.done == [[s]]
            && HostInput([s]) != HostInput([r, s]) && HostInput([s]) != HostInput([r, q, s])
  {
    hide ReceivedAll, WireFrames, Refuses, HostInput, HostBlock, Tmv, U32, CardRun, HostRun;
    var a, b, d := Write(r, [], 0), Write(q, [], 0), Write(s, [], 0);
    RunNone(x);
    RunSnoc(x, [], a);
    RunSnoc(x, [a], b);
    RunSnoc(x, [a, b], d);
    RunSnoc(x, [a, b, d], Commit);
    assert [] + [a] == [a] && [a] + [b] == [a, b] && [a, b] + [d] == [a, b, d] && [a, b, d] + [Commit] == [a, b, d, Commit];
    assert [] + [s] == [s] && [] + [r] == [r];
    CardAddsHostBlock(x.files, [], r, [], 0);
    CardAddsHostBlock(x.files, if |HostBlock(r)| > TMI_SIZE then [] else [] + HostBlock(r), q, [], 0);
    CardAddsHostBlock(x.files, [], s, [], 0);
    InputLast([], s);
    InputNone();
    assert [] + HostBlock(s) == HostBlock(s) && [] + HostBlock(r) == HostBlock(r);
    if HostInput([s]) == HostInput([r, s]) { InputDeterminesRecords([s], [r, s]); }
    if HostInput([s]) == HostInput([r, q, s]) { InputDeterminesRecords([s], [r, q, s]); }
  }

  /** Refused alone: the card rejects the commit. */
  lemma RefusedIsLost(x: Party, q: Record)
    requires Set(x) && Unchained(q, []) && Refuses(x.files, q.fileNo)
    ensures var es := [Write(q, [], 0), Commit];
            CardRun(x, CardState([], 0, []), es).reports == [] && HostInput([q]) != []
  {
    hide ReceivedAll, WireFrames, Unchained, Refuses, HostInput, HostBlock, Tmv, CardRun, HostRun;
    var a := Write(q, [], 0);
    RunNone(x);
    RunSnoc(x, [], a);
    RunSnoc(x, [a], Commit);
    assert [] + [a] == [a] && [a] + [Commit] == [a, Commit];
    CardAddsHostBlock(x.files, [], q, [], 0);
    InputLast([], q);
    assert [] + [q] == [q];
  }

  /** Where there is no file every record is refused. */
  lemma NoFileRefuses(fileNo: byte)
    ensures Refuses([], fileNo)
  {}
}
