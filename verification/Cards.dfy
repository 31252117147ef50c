/** nxpsc_card_t: the reader's session in buffers that the codecs, the exchange
    and the authentications update in place. Every method is proved against the
    functions on session values. */
module Cards {
  import opened ByteStrings
  import opened Results
  import opened Ciphers
  import opened Sessions
  import opened Codecs
  import opened Crc
  import opened CrcSearch
  import opened Framing
  import opened Handshakes
  import opened Exchanges
  import opened LrpContext
  import Cbc
  import Cmac
  import Lrp

  //--------------------------------------------------------------------------
  // the padded buffers of the encoders
  //--------------------------------------------------------------------------

  /** calloc of whole blocks, with the data in front. */
  method Padded(data: Bytes, block: nat) returns (buf: array<byte>)
    requires block == 8 || block == 16
    ensures fresh(buf) && buf[..] == ZeroPadded(data, block) && buf.Length >= |data| && buf.Length % block == 0
  {
    buf := Calloc(Cmac.RoundUp(|data|, block));
    Blit(buf, 0, data);
    assert buf[|data|..] == Zeros(buf.Length - |data|);
  }

  /** The buffer of encode_d40: data, CRC16 computed in place behind it, and the
      pad byte. */
  method LayD40(data: Bytes, padded: bool, block: nat) returns (buf: array<byte>)
    requires block == 8 || block == 16
    ensures fresh(buf) && buf[..] == ZeroPadded(Protected(data, CrcOf(W16, data), padded), block)
    ensures buf.Length >= |data| && buf.Length > 0 && buf.Length % block == 0
  {
    hide CrcOf;
    var n := |data|;
    buf := Calloc(Cmac.RoundUp(n + 2 + if padded then 1 else 0, block));
    Blit(buf, 0, data);
    WriteCrc16(data, buf, n);
    if padded {
      buf[n + 2] := 0x80;
    }
    assert buf[..] == Protected(data, CrcOf(W16, data), padded) + Zeros(buf.Length - (n + 2 + if padded then 1 else 0));
  }

  /** The buffer of encode_ev1: the checksum runs over command and payload, the
      cipher starts behind the header. */
  method LayEv1(cmd: byte, src: Bytes, h: nat, padded: bool, block: nat) returns (buf: array<byte>, plen: nat)
    requires (block == 8 || block == 16) && h <= |src|
    ensures fresh(buf) && 1 + h + plen <= buf.Length
    ensures buf[1 + h..1 + h + plen] == ZeroPadded(Protected(src[h..], CrcOf(W32, [cmd] + src), padded), block)
    ensures plen >= |src| + 4 - h
  {
    hide CrcOf;
    var pad := if padded then 1 else 0;
    plen := Cmac.RoundUp(|src| + 4 + pad - h, block);
    buf := Calloc(plen + h + 8);
    buf[0] := cmd;
    ghost var crc := CrcOf(W32, [cmd] + src);
    PutEv1(src, crc, buf, [cmd] + src);
    if padded {
      buf[|src| + 5] := 0x80;
    }
    Behind(cmd, src, crc, h, padded, plen, buf[..]);
  }

  method PutEv1(src: Bytes, ghost crc: Bytes, buf: array<byte>, covered: Bytes)
    requires |src| + 5 <= buf.Length && crc == CrcOf(W32, covered)
    modifies buf
    ensures buf[..] == Splice(old(buf[..]), 1, src + crc)
  {
    hide CrcOf, Splice;
    Blit(buf, 1, src);
    WriteCrc32(covered, buf, |src| + 1);
    SpliceExtend(old(buf[..]), 1, src, crc);
  }

  lemma Behind(cmd: byte, src: Bytes, crc: Bytes, h: nat, padded: bool, plen: nat, buf: Bytes)
    requires h <= |src| && |crc| == 4 && |buf| == plen + h + 8 && plen >= |src| + 4 + (if padded then 1 else 0) - h
    requires var z := Splice(Zeros(|buf|)[0 := cmd], 1, src + crc); buf == if padded then z[|src| + 5 := 0x80] else z
    ensures var used := Protected(src[h..], crc, padded); buf[1 + h..1 + h + plen] == used + Zeros(plen - |used|)
  {
    var pad: Bytes := if padded then [0x80] else [];
    var used := Protected(src[h..], crc, padded);
    var rest := |buf| - 1 - |src| - 4;
    var z := Splice(Zeros(|buf|)[0 := cmd], 1, src + crc);
    assert z == [cmd] + src + crc + Zeros(rest);
    assert buf == [cmd] + src + crc + pad + Zeros(rest - |pad|);
    assert buf[1 + h..] == src[h..] + crc + pad + Zeros(rest - |pad|);
    assert buf[1 + h..1 + h + plen] == buf[1 + h..][..plen];
  }

  /** Clear header and enciphered rest into the frame. */
  method PutEnciphered(c: Cipher, chain: array<byte>, buf: array<byte>, from: nat, plen: nat, head: Bytes,
                       dst: array<byte>, encrypt: bool)
    requires from + plen <= buf.Length && |head| + plen <= dst.Length && chain.Length == 16
    requires plen > 0 && plen % Block(c) == 0
    requires chain != buf && chain != dst && buf != dst
    modifies chain, dst
    ensures var e := Cbc.Run(c, old(chain[..Block(c)]), old(buf[from..from + plen]), true, encrypt);
            dst[..|head| + plen] == head + e.0 && chain[..] == Splice(old(chain[..]), 0, e.1)
  {
    hide Cbc.Run, Splice;
    Blit(dst, 0, head);
    ghost var before := dst[..];
    ghost var e := Cbc.Run(c, chain[..Block(c)], buf[from..from + plen], true, encrypt);
    SpliceAt(old(dst[..]), 0, head);
    SpliceAt(before, |head|, e.0);
    var ok := Cbc.CryptInto(c, chain, buf, from, plen, dst, |head|, true, encrypt);
    Fronts(before, dst[..], head, e.0);
  }

  lemma Fronts(before: Bytes, after: Bytes, head: Bytes, rest: Bytes)
    requires |before| == |after| >= |head| + |rest| && head == before[..|head|]
    requires after == Splice(before, |head|, rest)
    ensures after[..|head| + |rest|] == head + rest
  {}

  //--------------------------------------------------------------------------
  // the card
  //--------------------------------------------------------------------------

  class Card {
    const p: Primitives
    const legacyCard: bool
    const cmdset: CmdSet
    const link: Link               // the transport callback
    var channel: Channel
    var authenticated: bool
    var lost: bool
    var mode: Mode
    var keyType: KeyType
    var keyNo: byte
    var ctr: bv16
    var lastCmd: byte
    var lastZeroLen: bool
    var macMismatch: bool
    const iv: array<byte>          // NXPSC_MAX_BLOCK
    const enc: array<byte>         // NXPSC_MAX_KEY_SIZE
    const mac: array<byte>
    const ti: array<byte>
    var log: seq<Frame>            // what has gone out over the transport

    ghost predicate Valid() {
      && iv.Length == 16 && enc.Length == 32 && mac.Length == 32 && ti.Length == 4
      && iv != enc && iv != mac && iv != ti && enc != mac && enc != ti && mac != ti
    }

    ghost function Repr(): set<object> {
      {this, iv, enc, mac, ti}
    }

    /** The session these fields hold. */
    ghost function State(): Session
      requires Valid()
      reads Repr()
    {
      RawSession(p, legacyCard, channel, authenticated, lost, mode, keyType, keyNo, iv[..], enc[..], mac[..], ti[..],
                 ctr, lastCmd, lastZeroLen, macMismatch)
    }

    /** nxpsc_open: cleared memory, no session. */
    constructor (p: Primitives, legacyCard: bool, cmdset: CmdSet, link: Link)
      ensures Valid() && fresh(Repr()) && log == []
      ensures this.p == p && this.cmdset == cmdset && this.link == link
      ensures State() == RawSession(p, legacyCard, NoChannel, false, false, Plain, DES, 0, Zeros(16), Zeros(32), Zeros(32),
                                    Zeros(4), 0, 0, false, false)
    {
      this.p, this.legacyCard, this.cmdset, this.link := p, legacyCard, cmdset, link;
      channel, authenticated, lost, mode, keyType, keyNo := NoChannel, false, false, Plain, DES, 0;
      ctr, lastCmd, lastZeroLen, macMismatch, log := 0, 0, false, false, [];
      iv := new byte[16](_ => 0);
      enc := new byte[32](_ => 0);
      mac := new byte[32](_ => 0);
      ti := new byte[4](_ => 0);
    }

    /** nxpsc_reset_channel */
    method ResetChannel()
      requires Valid()
      modifies Repr()
      ensures State() == Reset(old(State())) && log == old(log)
    {
      channel := NoChannel;
      authenticated := false;
      lost := false;
      ctr := 0;
      Blit(ti, 0, Zeros(4));
      Blit(iv, 0, Zeros(16));
      Blit(enc, 0, Zeros(32));
      Blit(mac, 0, Zeros(32));
      SpliceAll(old(ti[..]), Zeros(4));
      SpliceAll(old(iv[..]), Zeros(16));
      SpliceAll(old(enc[..]), Zeros(32));
      SpliceAll(old(mac[..]), Zeros(32));
    }

    method EncKey() returns (c: Cipher)
      requires Valid()
      ensures c == EncCipher(State())
    {
      c := Keyed(p, keyType, enc[..]);
    }

    method MacKey() returns (c: Cipher)
      requires Valid()
      ensures c == MacCipher(State())
    {
      c := Keyed(p, keyType, mac[..]);
    }

    /** The D40 MAC: zero-padded data is enciphered over itself, and what
        remains in the IV is the MAC. */
    method MacD40(data: Bytes) returns (m: Bytes)
      requires Valid() && data != []
      ensures m == D40Mac(State(), data)
    {
      hide Cbc.Run, Splice;
      var c := MacKey();
      var buf := Padded(data, Block(c));
      var chain := Calloc(16);
      ghost var padded := buf[..];
      assert Zeros(16)[..Block(c)] == Zeros(Block(c)) && buf[0..buf.Length] == padded;
      var ok := Cbc.CryptInto(c, chain, buf, 0, buf.Length, buf, 0, true, true);
      SpliceAt(Zeros(16), 0, Cbc.Run(c, Zeros(Block(c)), padded, true, true).1);
      m := chain[..4];
    }

    /** The padded plaintext of encode_d40. */
    method PlainD40(data: Bytes, block: nat) returns (buf: array<byte>)
      requires Valid() && block == Block(EncCipher(State()))
      ensures fresh(buf) && buf[..] == D40Plain(State(), data) && buf.Length >= |data|
    {
      hide ZeroPadded, Protected, CrcOf;
      if mode.EncPlain? {
        buf := Padded(data, block);
      } else {
        buf := LayD40(data, mode.EncPadded?, block);
      }
    }

    /** encode_d40 behind the length check, in an enciphered mode. */
    method EncipherD40(h: nat, src: Bytes, dst: array<byte>) returns (r: Result<nat>)
      requires Valid() && h < |src| <= dst.Length && dst !in Repr()
      modifies dst, `mode
      ensures var o := EncodeD40Enciphered(old(State()), h, src, dst.Length);
              State() == o.session && Returned(r, dst, o.result)
    {
      hide D40Plain, Cbc.Run, Splice;
      var c := EncKey();
      var buf := PlainD40(src[h..], Block(c));
      if h + buf.Length > dst.Length {
        return Err(Length);
      }
      var chain := Calloc(16);
      assert Zeros(16)[..Block(c)] == Zeros(Block(c)) && buf[0..buf.Length] == buf[..];
      PutEnciphered(c, chain, buf, 0, buf.Length, src[..h], dst, false);
      if mode.EncPlain? {
        mode := Enc;
      }
      r := Ok(h + buf.Length);
    }

    /** encode_d40 */
    method EncodeD40Into(cmd: byte, src: Bytes, dst: array<byte>) returns (r: Result<nat>)
      requires Valid() && dst !in Repr()
      modifies dst, `mode
      ensures var o := EncodeD40(old(State()), cmd, src, dst.Length);
              State() == o.session && Returned(r, dst, o.result)
    {
      hide D40Mac, EncodeD40Enciphered, HeaderLength, TransmitsMac, Splice;
      var h := Header(cmd, |src|);
      if |src| > dst.Length {
        return Err(Length);
      }
      Append(dst, 0, src);
      assert dst[..|src|] == src;
      if mode.Mac? || (mode.Enc? && |src| <= h) {
        if |src| == h {
          return Ok(|src|);
        }
        var m := MacD40(src[h..]);
        if TransmitsMac(channel, cmd) {
          if |src| + 4 > dst.Length {
            return Err(Length);
          }
          Append(dst, |src|, m);
          return Ok(|src| + 4);
        }
        return Ok(|src|);
      }
      if mode.Plain? || |src| <= h {
        return Ok(|src|);
      }
      r := EncipherD40(h, src, dst);
    }

    /** The CMAC of EV1: every call moves the chain on. */
    method MacEv1(data: Bytes) returns (m: Bytes)
      requires Valid()
      modifies iv
      ensures m == Ev1Mac(old(State()), data) && State() == WithIv(old(State()), m)
    {
      hide Cmac.MacOf;
      var c := MacKey();
      m := Cmac.Mac(c, iv, data, 0);
    }

    /** encode_ev1 in the clear modes. */
    method SendClearEv1(cmd: byte, src: Bytes, dst: array<byte>) returns (r: Result<nat>)
      requires Valid() && dst !in Repr() && |src| <= dst.Length
      modifies dst, iv
      ensures var o := EncodeEv1Clear(old(State()), cmd, src, dst.Length);
              State() == o.session && Returned(r, dst, o.result)
    {
      hide Ev1Mac, TransmitsMac, WithIv;
      Append(dst, 0, src);
      assert dst[..|src|] == src;
      ghost var before := State();
      var m := MacEv1([cmd] + src);
      if mode.Mac? && TransmitsMac(channel, cmd) {
        if |src| + 8 > dst.Length {
          return Err(Length);
        }
        Append(dst, |src|, m[..8]);
        return Ok(|src| + 8);
      }
      r := Ok(|src|);
    }

    /** The padded plaintext of encode_ev1, somewhere in a buffer. */
    method PlainEv1(cmd: byte, src: Bytes, h: nat, block: nat) returns (buf: array<byte>, from: nat, plen: nat)
      requires Valid() && h <= |src| && block == Block(EncCipher(State()))
      ensures fresh(buf) && from + plen <= buf.Length && plen >= |src| - h && (!mode.EncPlain? ==> plen > 0)
      ensures buf[from..from + plen] == Ev1Plain(State(), cmd, src, h)
    {
      hide ZeroPadded, Protected, CrcOf;
      if mode.EncPlain? {
        buf := Padded(src[h..], block);
        from, plen := 0, buf.Length;
        assert buf[0..buf.Length] == buf[..];
      } else {
        buf, plen := LayEv1(cmd, src, h, mode.EncPadded?, block);
        from := 1 + h;
      }
    }

    /** encode_ev1 in an enciphered mode: the IV is the chain. */
    method EncipherEv1(cmd: byte, h: nat, src: Bytes, dst: array<byte>) returns (r: Result<nat>)
      requires Valid() && h <= |src| <= dst.Length && dst !in Repr() && (mode.EncPlain? ==> h < |src|)
      modifies dst, iv, `mode
      ensures var o := EncodeEv1Enciphered(old(State()), cmd, h, src, dst.Length);
              State() == o.session && Returned(r, dst, o.result)
    {
      hide Ev1Plain, Cbc.Run, Splice;
      var c := EncKey();
      var buf, from, plen := PlainEv1(cmd, src, h, Block(c));
      if h + plen > dst.Length {
        return Err(Length);
      }
      ghost var before := State();
      PutEnciphered(c, iv, buf, from, plen, src[..h], dst, true);
      mode := Enc;
      r := Ok(h + plen);
    }

    /** encode_ev1 */
    method EncodeEv1Into(cmd: byte, src: Bytes, dst: array<byte>) returns (r: Result<nat>)
      requires Valid() && dst !in Repr()
      modifies dst, iv, `mode
      ensures var o := EncodeEv1(old(State()), cmd, src, dst.Length);
              State() == o.session && Returned(r, dst, o.result)
    {
      hide EncodeEv1Clear, EncodeEv1Enciphered, HeaderLength;
      var h := Header(cmd, |src|);
      if |src| > dst.Length {
        return Err(Length);
      }
      if mode.Plain? || mode.Mac? || (mode.Enc? && |src| <= h) {
        r := SendClearEv1(cmd, src, dst);
      } else if mode.EncPlain? && |src| <= h {
        Append(dst, 0, src);
        r := Ok(|src|);
      } else {
        r := EncipherEv1(cmd, h, src, dst);
      }
    }

    //------------------------------------------------------------------------
    // EV2 and LRP
    //------------------------------------------------------------------------

    /** nxpsc_ev2_cmac */
    method MacEv2(cmd: byte, data: Bytes) returns (m: Bytes)
      requires Valid()
      ensures m == Ev2Mac(State(), cmd, data)
    {
      hide Cmac.MacOf, Lrp.MacOf, Cmac.Truncated;
      var input := [cmd] + CtrBytes(ctr) + ti[..] + data;
      var full;
      if channel == LRP {
        var lrp := new LrpCtx(p, mac[..16], 0, true);
        full := lrp.Mac(input);
      } else {
        full := Cmac.Mac(Keyed(p, AES128, mac[..]), null, input, 0);
      }
      m := Cmac.Truncated(full);
    }

    /** nxpsc_ev2_fill_iv */
    method FillIv(forCommand: bool) returns (b: Bytes)
      requires Valid()
      ensures b == Ev2Iv(State(), forCommand)
    {
      var tag: Bytes := if forCommand then [0xA5, 0x5A] else [0x5A, 0xA5];
      b := Ecb(Keyed(p, AES128, enc[..]), tag + ti[..] + CtrBytes(ctr) + Zeros(8), true);
    }

    /** The cipher step of encode_ev2: counter mode on LRP, with the counter
        taken from and put back into the IV buffer; else CBC under a fresh IV.
        The card enciphers its answers with `forCommand` false. */
    method EncryptEv2(forCommand: bool, data: array<byte>, dst: array<byte>, at: nat)
      requires Valid() && data.Length > 0 && data.Length % 16 == 0 && at + data.Length <= dst.Length
      requires dst !in Repr() && data !in Repr() && data != dst
      modifies dst, iv
      ensures var e := Ev2Crypt(old(State()), forCommand, old(data[..]), true);
              State() == e.1 && dst[..] == Splice(old(dst[..]), at, e.0)
    {
      hide Cbc.Run, Lrp.Crypt, Splice, Ev2Iv;
      if channel == LRP {
        EncryptLrp(p, enc[..16], iv, data, dst, at);
      } else {
        var start := FillIv(forCommand);
        EncryptCbc(Keyed(p, AES128, enc[..]), start, data, dst, at);
      }
    }

    /** The cipher step of decode_ev2. */
    method DecryptEv2(data: Bytes, plain: array<byte>)
      requires Valid() && data != [] && |data| % 16 == 0 && |data| <= plain.Length && plain !in Repr()
      modifies plain, iv
      ensures var e := Ev2Crypt(old(State()), false, data, false);
              State() == e.1 && plain[..|data|] == e.0
    {
      hide Cbc.Run, Lrp.Crypt, Splice, Ev2Iv;
      if channel == LRP {
        DecryptLrp(p, enc[..16], iv, data, plain);
      } else {
        var start := FillIv(false);
        DecryptCbc(Keyed(p, AES128, enc[..]), start, data, plain);
      }
    }

    /** Clear header and enciphered rest, without the MAC. */
    method BodyEv2(h: nat, src: Bytes, buf: array<byte>, dst: array<byte>)
      requires Valid() && dst !in Repr() && buf !in Repr() && buf != dst
      requires h < |src| && buf[..] == Padded2(src[h..]) && h + buf.Length <= dst.Length
      modifies dst, iv
      ensures var e := Ev2Body(old(State()), h, src);
              State() == e.1 && dst[..h + buf.Length] == e.0
    {
      hide Ev2Crypt, Splice, Padded2;
      Append(dst, 0, src[..h]);
      ghost var before := dst[..];
      ghost var e := Ev2Crypt(State(), true, buf[..], true);
      SpliceAt(before, h, e.0);
      EncryptEv2(true, buf, dst, h);
      Fronts(before, dst[..], src[..h], e.0);
    }

    /** encode_ev2 in an enciphered mode. */
    method EncipherEv2(cmd: byte, h: nat, src: Bytes, dst: array<byte>) returns (r: Result<nat>)
      requires Valid() && dst !in Repr() && h < |src| <= dst.Length
      modifies dst, iv, `mode
      ensures var s := old(State());
              if h + Cmac.RoundUp(|src| - h + 1, 16) + 8 > dst.Length then r == Err(Length) && State() == s
              else
                var e := Ev2Body(s, h, src);
                State() == WithMode(e.1, Enc) && Returned(r, dst, Ok(e.0 + Ev2Mac(s, cmd, e.0)))
    {
      hide Ev2Body, Ev2Mac, ZeroPadded;
      ghost var s := State();
      var buf := Padded(src[h..] + [0x80], 16);
      var end := h + buf.Length;
      if end + 8 > dst.Length {
        return Err(Length);
      }
      BodyEv2(h, src, buf, dst);
      MacIgnoresIv(s, State(), cmd, dst[..end]);
      var m := MacEv2(cmd, dst[..end]);
      Append(dst, end, m);
      mode := Enc;
      r := Ok(end + 8);
    }

    /** encode_ev2 */
    method EncodeEv2Into(cmd: byte, src: Bytes, dst: array<byte>) returns (r: Result<nat>)
      requires Valid() && dst !in Repr()
      modifies dst, iv, `mode
      ensures var o := EncodeEv2(old(State()), cmd, src, dst.Length);
              State() == o.session && Returned(r, dst, o.result)
    {
      hide Ev2Mac, Ev2Body, HeaderLength;
      var h := Header(cmd, |src|);
      if |src| > dst.Length {
        return Err(Length);
      }
      Append(dst, 0, src);
      assert dst[..|src|] == src;
      if mode.Plain? {
        return Ok(|src|);
      }
      if !mode.Mac? && |src| > h {
        r := EncipherEv2(cmd, h, src, dst);
        return;
      }
      var m := MacEv2(cmd, src);
      if |src| + 8 > dst.Length {
        return Err(Length);
      }
      Append(dst, |src|, m);
      if !mode.Mac? {
        mode := Enc;
      }
      r := Ok(|src| + 8);
    }

    /** nxpsc_channel_encode */
    method ChannelEncode(cmd: byte, src: Bytes, dst: array<byte>) returns (r: Result<nat>)
      requires Valid() && dst !in Repr()
      modifies dst, iv, `mode, `lastCmd, `lastZeroLen
      ensures var o := Encode(old(State()), cmd, src, dst.Length);
              State() == o.session && Returned(r, dst, o.result)
    {
      hide EncodeD40, EncodeEv1, EncodeEv2, HeaderLength;
      lastCmd := cmd;
      lastZeroLen := |src| <= HeaderLength(cmd, |src|);
      match channel {
        case D40 => r := EncodeD40Into(cmd, src, dst);
        case EV1 => r := EncodeEv1Into(cmd, src, dst);
        case EV2 => r := EncodeEv2Into(cmd, src, dst);
        case LRP => r := EncodeEv2Into(cmd, src, dst);
        case NoChannel => r := CopyOutput(src, dst);
      }
    }

    //------------------------------------------------------------------------
    // decode
    //------------------------------------------------------------------------

    /** iso9797_m2_len */
    static method PaddingLength(data: Bytes) returns (n: nat)
      ensures n == Unpadded2(data)
    {
      var i := |data|;
      assert data[..i] == data;
      while i > 0
        invariant 0 <= i <= |data| && Unpadded2(data) == Unpadded2(data[..i])
      {
        if data[i - 1] == 0x80 {
          return i - 1;
        }
        if data[i - 1] != 0x00 {
          return 0;
        }
        assert data[..i][..i - 1] == data[..i - 1];
        i := i - 1;
      }
      n := 0;
    }

    /** Enciphered D40 answers: the CRC16 search, and on later silicon the CRC32
        search on the same plaintext. */
    method DecipherD40Into(src: Bytes, status: byte, dst: array<byte>) returns (r: Result<nat>)
      requires Valid() && |src| <= MAX_RESPONSE && dst !in Repr()
      modifies dst
      ensures Returned(r, dst, DecipherD40(old(State()), src, status, dst.Length))
    {
      hide Cbc.Run, CrcPos, Copied;
      var c := EncKey();
      if |src| < Block(c) {
        r := CopyOutput(src, dst);
        return;
      }
      if |src| % Block(c) != 0 {
        return Err(Length);
      }
      var plain := Calloc(MAX_RESPONSE);
      DecryptCbc(c, Zeros(Block(c)), src, plain);
      var pure := SearchCrcPos(plain[..|src|], status, W16);
      if pure == 0 && !legacyCard {
        pure := SearchCrcPos(plain[..|src|], status, W32);
      }
      if pure == 0 {
        return Err(Error.Crypto);
      }
      assert plain[..|src|][..pure] == plain[..pure];
      r := CopyOutput(plain[..pure], dst);
    }

    /** decode_d40 */
    method DecodeD40Into(src: Bytes, status: byte, dst: array<byte>) returns (r: Result<nat>)
      requires Valid() && |src| <= MAX_RESPONSE && dst !in Repr()
      modifies dst, `macMismatch
      ensures var o := DecodeD40(old(State()), src, status, dst.Length);
              State() == o.session && Returned(r, dst, o.result)
    {
      hide D40Mac, DecipherD40, Copied, ReceivesMac;
      if mode.Mac? {
        if !ReceivesMac(channel, lastCmd) {
          r := CopyOutput(src, dst);
          return;
        }
        if |src| <= 4 {
          return Err(Length);
        }
        var n := |src| - 4;
        var m := MacD40(src[..n]);
        if m != src[n..] {
          macMismatch := true;
          return Err(Error.Crypto);
        }
        r := CopyOutput(src[..n], dst);
      } else if mode.Enc? || mode.EncPadded? {
        r := DecipherD40Into(src, status, dst);
      } else {
        r := CopyOutput(src, dst);
      }
    }

    /** decode_ev1 on the CMAC path. */
    method VerifyEv1Into(src: Bytes, status: byte, dst: array<byte>) returns (r: Result<nat>)
      requires Valid() && dst !in Repr()
      modifies dst, iv, `macMismatch
      ensures var o := VerifyEv1(old(State()), src, status, dst.Length);
              State() == o.session && Returned(r, dst, o.result)
    {
      hide Ev1Mac, Copied, WithIv;
      if |src| < 8 {
        return Err(Length);
      }
      var n := |src| - 8;
      var m := MacEv1(src[..n] + [status]);
      if m[..8] != src[n..] {
        macMismatch := true;
        return Err(Error.Crypto);
      }
      r := CopyOutput(src[..n], dst);
    }

    /** decode_ev1 on enciphered answers: a copy of the IV is used up. */
    method DecipherEv1Into(src: Bytes, status: byte, dst: array<byte>) returns (r: Result<nat>)
      requires Valid() && |src| <= MAX_RESPONSE && dst !in Repr()
      modifies dst
      ensures Returned(r, dst, DecipherEv1(old(State()), src, status, dst.Length))
    {
      hide Cbc.Run, CrcPos, Copied;
      var c := EncKey();
      if |src| < Block(c) {
        r := CopyOutput(src, dst);
        return;
      }
      if |src| % Block(c) != 0 {
        return Err(Length);
      }
      var plain := Calloc(MAX_RESPONSE);
      DecryptCbc(c, iv[..Block(c)], src, plain);
      var pure := SearchCrcPos(plain[..|src|], status, W32);
      if pure == 0 {
        return Err(Error.Crypto);
      }
      assert plain[..|src|][..pure] == plain[..pure];
      r := CopyOutput(plain[..pure], dst);
    }

    /** decode_ev1 */
    method DecodeEv1Into(src: Bytes, status: byte, dst: array<byte>) returns (r: Result<nat>)
      requires Valid() && |src| <= MAX_RESPONSE && dst !in Repr()
      modifies dst, iv, `macMismatch
      ensures var o := DecodeEv1(old(State()), src, status, dst.Length);
              State() == o.session && Returned(r, dst, o.result)
    {
      hide VerifyEv1, DecipherEv1, Copied;
      if mode.Plain? || mode.Mac? || (mode.Enc? && !lastZeroLen) {
        r := VerifyEv1Into(src, status, dst);
      } else if mode.Enc? || mode.EncPadded? {
        r := DecipherEv1Into(src, status, dst);
      } else {
        r := CopyOutput(src, dst);
      }
    }

    /** decode_ev2 behind the MAC check. */
    method DecodeBodyInto(data: Bytes, dst: array<byte>) returns (r: Result<nat>)
      requires Valid() && |data| <= MAX_RESPONSE && dst !in Repr()
      modifies dst, iv
      ensures var o := DecodeBody(old(State()), data, dst.Length);
              State() == o.session && Returned(r, dst, o.result)
    {
      hide Ev2Crypt, Unpadded2, Copied;
      if mode.Mac? || |data| < 16 {
        r := CopyOutput(data, dst);
        return;
      }
      if |data| % 16 != 0 {
        return Err(Length);
      }
      var plain := Calloc(MAX_RESPONSE);
      DecryptEv2(data, plain);
      var pure := PaddingLength(plain[..|data|]);
      if pure == 0 {
        return Err(Error.Crypto);
      }
      assert plain[..|data|][..pure] == plain[..pure];
      r := CopyOutput(plain[..pure], dst);
    }

    /** decode_ev2 */
    method DecodeEv2Into(src: Bytes, dst: array<byte>) returns (r: Result<nat>)
      requires Valid() && |src| <= MAX_RESPONSE && dst !in Repr()
      modifies dst, iv, `macMismatch
      ensures var o := DecodeEv2(old(State()), src, dst.Length);
              State() == o.session && Returned(r, dst, o.result)
    {
      hide Ev2Mac, DecodeBody, Copied;
      if !mode.Mac? && !mode.Enc? && !mode.EncPadded? {
        r := CopyOutput(src, dst);
        return;
      }
      if |src| < 8 {
        return Err(Length);
      }
      var n := |src| - 8;
      var m := MacEv2(0x00, src[..n]);
      if m != src[n..] {
        macMismatch := true;
        return Err(Error.Crypto);
      }
      r := DecodeBodyInto(src[..n], dst);
    }

    /** nxpsc_channel_decode */
    method ChannelDecode(src: Bytes, status: byte, dst: array<byte>) returns (r: Result<nat>)
      requires Valid() && |src| <= MAX_RESPONSE && dst !in Repr()
      modifies dst, iv, `macMismatch
      ensures var o := Decode(old(State()), src, status, dst.Length);
              State() == o.session && Returned(r, dst, o.result)
    {
      hide DecodeD40, DecodeEv1, DecodeEv2, Copied;
      match channel {
        case D40 => r := DecodeD40Into(src, status, dst);
        case EV1 => r := DecodeEv1Into(src, status, dst);
        case EV2 => r := DecodeEv2Into(src, dst);
        case LRP => r := DecodeEv2Into(src, dst);
        case NoChannel => r := CopyOutput(src, dst);
      }
    }

    //------------------------------------------------------------------------
    // exchanges
    //------------------------------------------------------------------------

    method Advance()
      requires Valid()
      modifies `ctr
      ensures State() == Next(old(State()))
    {
      hide Counted;
      ctr := Counted(ctr);
    }

    /** The card threw the session away. */
    method Lose()
      requires Valid()
      modifies Repr()
      ensures State() == Reset(old(State())).(lost := true) && log == old(log)
    {
      hide Reset;
      ResetChannel();
      lost := true;
    }

    /** The status bookkeeping of nxpsc_exchange. */
    method Conclude(status: byte) returns (ended: bool)
      requires Valid()
      modifies Repr()
      ensures ended == StatusEndsSession(status) && log == old(log)
      ensures State() == if !ended then Advanced(old(State()), status)
                         else if old(authenticated) then Reset(old(State())).(lost := true) else old(State())
    {
      hide Reset, Next;
      ended := status != S_OK && status != S_SIGNATURE && status != S_ADDITIONAL_FRAME;
      if ended {
        if authenticated {
          Lose();
        }
      } else if status != S_ADDITIONAL_FRAME && authenticated && (channel == EV2 || channel == LRP) {
        Advance();
      }
    }

    /** From the answer on. */
    method Finish(raw: Bytes, status: byte, rx: Mode, resp: array<byte>) returns (r: Result<nat>)
      requires Valid() && |raw| <= MAX_RESPONSE && resp !in Repr()
      modifies Repr(), resp
      ensures log == old(log)
      ensures var e := End(old(State()), Answer(status, raw), rx, resp.Length);
              State() == e.session && Returned(r, resp, e.result)
    {
      hide Decode, Reset, Advanced;
      var ended := Conclude(status);
      if ended {
        return Err(Error.Card);
      }
      mode := rx;
      r := ChannelDecode(raw, status, resp);
    }

    /** Up to the frame. */
    method Prepare(cmd: byte, data: Bytes, tx: Mode, rx: Mode, wrapped: array<byte>) returns (r: Result<nat>)
      requires Valid() && wrapped !in Repr() && wrapped.Length == MAX_RESPONSE
      modifies Repr(), wrapped
      ensures log == old(log)
      ensures var b := Begin(old(State()), cmd, data, tx, rx);
              State() == b.session && Returned(r, wrapped, b.result)
    {
      hide Encode;
      mode := tx;
      macMismatch := false;
      if lost && (tx != Plain || rx != Plain) {
        return Err(Auth);
      }
      r := ChannelEncode(cmd, data, wrapped);
    }

    /** nxpsc_exchange */
    method ExchangeInto(cmd: byte, data: Bytes, tx: Mode, rx: Mode, resp: array<byte>) returns (r: Result<nat>)
      requires Valid() && NeverStalls(link, cmdset) && resp !in Repr()
      modifies Repr(), resp
      ensures var e := Exchange(link, cmdset, old(log), old(State()), cmd, data, tx, rx, resp.Length);
              State() == e.session && log == e.log && Returned(r, resp, e.result)
    {
      hide Begin, End, RawExchange, NeverStalls;
      var wrapped := Calloc(MAX_RESPONSE);
      var raw := Calloc(MAX_RESPONSE);
      r := Prepare(cmd, data, tx, rx, wrapped);
      if r.Err? {
        return;
      }
      var rc, got, frames := RawExchangeInto(link, cmdset, log, cmd, wrapped[..r.value], raw, true);
      log := frames;
      if rc.Err? {
        return Err(rc.error);
      }
      r := Finish(raw[..got], rc.value, rx, resp);
    }

    /** nxpsc_select_application */
    method SelectApplication(aid: nat) returns (r: Result<nat>)
      requires Valid() && NeverStalls(link, cmdset)
      modifies Repr()
      ensures var e := Select(link, cmdset, old(log), old(State()), aid);
              State() == e.session && log == e.log && (r.Ok? <==> e.result.Ok?)
    {
      hide Exchange, Reset, NeverStalls;
      if aid >= 0x1000000 {
        return Err(Length);
      }
      var data := U24(aid);
      ResetChannel();
      var resp := Calloc(8);
      r := ExchangeInto(0x5A, data, Plain, Plain, resp);
    }
  }

  /** copy_output */
  method CopyOutput(data: Bytes, dst: array<byte>) returns (r: Result<nat>)
    modifies dst
    ensures Returned(r, dst, Copied(data, dst.Length))
  {
    if |data| > dst.Length {
      return Err(Length);
    }
    Append(dst, 0, data);
    r := Ok(|data|);
  }

  lemma MacIgnoresIv(s: Session, t: Session, cmd: byte, data: Bytes)
    requires t == s.(iv := t.iv)
    ensures Ev2Mac(t, cmd, data) == Ev2Mac(s, cmd, data)
  {
    hide Cmac.MacOf, Lrp.MacOf;
  }

  //--------------------------------------------------------------------------
  // the two ciphers of EV2 on buffers
  //--------------------------------------------------------------------------

  method EncryptLrp(p: Primitives, key: Bytes, iv: array<byte>, data: array<byte>, dst: array<byte>, at: nat)
    requires |key| == 16 && iv.Length == 16 && data.Length % 16 == 0 && at + data.Length <= dst.Length
    requires iv != data && iv != dst && data != dst
    modifies iv, dst
    ensures var e := Lrp.Crypt(Lrp.RawContext(p, key, 1), old(iv[..4]) + Zeros(60), 8, old(data[..]), true);
            dst[..] == Splice(old(dst[..]), at, e.0) && iv[..] == Splice(old(iv[..]), 0, e.1[..4])
  {
    hide Lrp.Crypt, Splice, Lrp.Table, Lrp.UpdatedKeys;
    var lrp := new LrpCtx(p, key, 1, false);
    lrp.SetCounter(iv[..], 8);
    WholeBlocks(data[..]);
    var n := lrp.EncodeInto(data[..], dst, at, dst.Length - at);
    Blit(iv, 0, lrp.counter[..4]);
  }

  method DecryptLrp(p: Primitives, key: Bytes, iv: array<byte>, data: Bytes, plain: array<byte>)
    requires |key| == 16 && iv.Length == 16 && data != [] && |data| % 16 == 0 && |data| <= plain.Length && iv != plain
    modifies iv, plain
    ensures var e := Lrp.Crypt(Lrp.RawContext(p, key, 1), old(iv[..4]) + Zeros(60), 8, data, false);
            plain[..|data|] == e.0 && iv[..] == Splice(old(iv[..]), 0, e.1[..4])
  {
    hide Lrp.Crypt, Splice, Lrp.Table, Lrp.UpdatedKeys;
    var lrp := new LrpCtx(p, key, 1, false);
    lrp.SetCounter(iv[..], 8);
    var n := lrp.DecodeInto(data, plain);
    Blit(iv, 0, lrp.counter[..4]);
  }

  method EncryptCbc(c: Cipher, start: Bytes, data: array<byte>, dst: array<byte>, at: nat)
    requires |start| == Block(c) == 16 && data.Length > 0 && data.Length % 16 == 0 && at + data.Length <= dst.Length
    requires data != dst
    modifies dst
    ensures dst[..] == Splice(old(dst[..]), at, Cbc.Run(c, start, old(data[..]), true, true).0)
  {
    hide Cbc.Run, Splice;
    var chain := Calloc(16);
    Blit(chain, 0, start);
    SpliceAll(Zeros(16), start);
    assert data[0..data.Length] == data[..] && chain[..16] == start;
    var ok := Cbc.CryptInto(c, chain, data, 0, data.Length, dst, at, true, true);
  }

  method DecryptCbc(c: Cipher, start: Bytes, data: Bytes, plain: array<byte>)
    requires |start| == Block(c) && data != [] && Cbc.Whole(c, data) && |data| <= plain.Length
    modifies plain
    ensures plain[..|data|] == Cbc.Run(c, start, data, false, false).0
  {
    hide Cbc.Run, Splice;
    var n := Block(c);
    var chain := Calloc(n);
    Blit(chain, 0, start);
    SpliceAll(Zeros(n), start);
    var buf := Calloc(|data|);
    Blit(buf, 0, data);
    SpliceAll(Zeros(|data|), data);
    assert buf[0..|data|] == data && chain[..n] == start;
    SpliceAt(plain[..], 0, Cbc.Run(c, start, data, false, false).0);
    var ok := Cbc.CryptInto(c, chain, buf, 0, |data|, plain, 0, false, false);
  }

  lemma WholeBlocks(data: Bytes)
    requires |data| % 16 == 0
    ensures Lrp.WithPadding(data, false) == data
  {}

  /** A length returned together with the bytes written, or an error code. */
  ghost predicate Returned(r: Result<nat>, dst: array<byte>, expected: Result<Bytes>)
    reads dst
  {
    match expected
    case Ok(b) => r == Ok(|b|) && |b| <= dst.Length && dst[..|b|] == b
    case Err(e) => r == Err(e)
  }
}
