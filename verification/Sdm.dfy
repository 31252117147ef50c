/** Secure dynamic messaging settings (AN12196): which offsets a
    ChangeFileSettings payload carries depends on its own option and access
    bytes, so those alone have to tell how to read the rest. */
module Sdm {
  import opened ByteStrings
  import opened Results

  datatype CommMode = CommPlain | CommMac | CommFull

  datatype Access = Access(read: byte, write: byte, readWrite: byte, change: byte)

  /** nxpsc_sdm_settings_t */
  datatype Settings = Settings(
    enabled: bool, uidMirror: bool, counterMirror: bool, counterLimit: bool, encFileData: bool,
    metaRead: byte, fileRead: byte, counterRet: byte,
    uidOffset: nat, counterOffset: nat, piccDataOffset: nat, macInputOffset: nat,
    encOffset: nat, encLength: nat, macOffset: nat, limitValue: nat)

  predicate FitsU24(s: Settings) {
    && s.uidOffset < 0x1000000 && s.counterOffset < 0x1000000 && s.piccDataOffset < 0x1000000
    && s.macInputOffset < 0x1000000 && s.encOffset < 0x1000000 && s.encLength < 0x1000000
    && s.macOffset < 0x1000000 && s.limitValue < 0x1000000
  }

  //--------------------------------------------------------------------------
  // bytes of the header
  //--------------------------------------------------------------------------

  function Nibbles(high: byte, low: byte): byte { ((high & 0x0F) << 4) | (low & 0x0F) }
  function LowNibble(b: byte): byte { b & 0x0F }
  function HighNibble(b: byte): byte { b >> 4 }

  function FileOption(comm: CommMode, enabled: bool): byte {
    (match comm case CommPlain => 0x00 case CommMac => 0x01 case CommFull => 0x03) | (if enabled then 0x40 else 0x00)
  }

  predicate Mirroring(fileOption: byte) { fileOption & 0x40 != 0 }

  function SdmOption(uid: bool, counter: bool, limit: bool, enc: bool): byte {
    0x01 | (if uid then 0x80 else 0) | (if counter then 0x40 else 0) | (if limit then 0x20 else 0) | (if enc then 0x10 else 0)
  }

  predicate HasUid(o: byte) { o & 0x80 != 0 }
  predicate HasCounter(o: byte) { o & 0x40 != 0 }
  predicate HasLimit(o: byte) { o & 0x20 != 0 }
  predicate HasEnc(o: byte) { o & 0x10 != 0 }

  lemma NibblesRoundTrip(high: byte, low: byte)
    ensures HighNibble(Nibbles(high, low)) == LowNibble(high) && LowNibble(Nibbles(high, low)) == LowNibble(low)
  {}

  lemma OptionRoundTrip(uid: bool, counter: bool, limit: bool, enc: bool)
    ensures var o := SdmOption(uid, counter, limit, enc);
            HasUid(o) == uid && HasCounter(o) == counter && HasLimit(o) == limit && HasEnc(o) == enc
  {}

  lemma MirroringRoundTrip(comm: CommMode, enabled: bool)
    ensures Mirroring(FileOption(comm, enabled)) == enabled
  {}

  //--------------------------------------------------------------------------
  // the conditional fields
  //--------------------------------------------------------------------------

  /** A field and whether it is sent. */
  datatype Field = Field(sent: bool, value: nat)

  function Put(f: Field): (b: Bytes)
    requires f.value < 0x1000000
    ensures |b| == if f.sent then 3 else 0
  {
    if f.sent then U24(f.value) else []
  }

  function Body(fs: seq<Field>): (b: Bytes)
    requires forall f <- fs :: f.value < 0x1000000
    ensures |b| <= 3 * |fs|
  {
    if fs == [] then [] else Put(fs[0]) + Body(fs[1..])
  }

  /** The order of the fields, and what decides about each: the option byte and
      the two key nibbles of the access byte. */
  function Sent(o: byte, metaRead: byte, fileRead: byte): (p: seq<bool>)
    ensures |p| == 8
  {
    var plain, mac := metaRead == 0x0E, fileRead != 0x0F;
    [HasUid(o) && plain, HasCounter(o) && plain, metaRead <= 0x04,
     mac, mac && HasEnc(o), mac && HasEnc(o), mac, HasLimit(o)]
  }

  function Row(p: seq<bool>, s: Settings): (fs: seq<Field>)
    requires |p| == 8
    ensures |fs| == 8
  {
    [Field(p[0], s.uidOffset), Field(p[1], s.counterOffset), Field(p[2], s.piccDataOffset), Field(p[3], s.macInputOffset),
     Field(p[4], s.encOffset), Field(p[5], s.encLength), Field(p[6], s.macOffset), Field(p[7], s.limitValue)]
  }

  function Fields(s: Settings): (fs: seq<Field>)
    requires FitsU24(s)
    ensures |fs| == 8 && forall f <- fs :: f.value < 0x1000000
  {
    hide Sent, LowNibble, SdmOption;
    Row(Sent(SdmOption(s.uidMirror, s.counterMirror, s.counterLimit, s.encFileData), LowNibble(s.metaRead), LowNibble(s.fileRead)), s)
  }

  function AccessBytes(a: Access): (b: Bytes)
    ensures |b| == 2
  {
    [Nibbles(a.readWrite, a.change), Nibbles(a.read, a.write)]
  }

  /** The six header bytes of enabled settings. */
  function Header(comm: CommMode, a: Access, s: Settings): (b: Bytes)
    ensures |b| == 6
  {
    [FileOption(comm, true)] + AccessBytes(a)
    + [SdmOption(s.uidMirror, s.counterMirror, s.counterLimit, s.encFileData),
       0xF0 | LowNibble(s.counterRet), Nibbles(s.metaRead, s.fileRead)]
  }

  /** What nxpsc_sdm_build_settings emits. */
  function Payload(comm: CommMode, a: Access, sdm: Option<Settings>): (b: Bytes)
    requires sdm.Some? ==> FitsU24(sdm.value)
  {
    if sdm.None? || !sdm.value.enabled then [FileOption(comm, false)] + AccessBytes(a)
    else Header(comm, a, sdm.value) + Body(Fields(sdm.value))
  }

  //--------------------------------------------------------------------------
  // reading it back
  //--------------------------------------------------------------------------

  /** Values of the fields that are there, and what follows them. */
  datatype Parsed = Parsed(values: seq<Option<nat>>, rest: Bytes)

  function Take(sent: seq<bool>, b: Bytes): Result<Parsed> {
    if sent == [] then Ok(Parsed([], b))
    else if sent[0] && |b| < 3 then Err(Length)
    else
      var v := if sent[0] then Some(FromU24(b[..3])) else None;
      var r := Take(sent[1..], if sent[0] then b[3..] else b);
      if r.Err? then r else Ok(Parsed([v] + r.value.values, r.value.rest))
  }

  /** A reader that knows nothing but the bytes. */
  function Parse(b: Bytes): Result<Parsed> {
    if |b| < 3 then Err(Length)
    else if !Mirroring(b[0]) then Ok(Parsed([], b[3..]))
    else if |b| < 6 then Err(Length)
    else Take(Sent(b[3], HighNibble(b[5]), LowNibble(b[5])), b[6..])
  }

  function Flags(fs: seq<Field>): (p: seq<bool>)
    ensures |p| == |fs|
  {
    seq(|fs|, i requires 0 <= i < |fs| => fs[i].sent)
  }

  function Values(fs: seq<Field>): (v: seq<Option<nat>>)
    ensures |v| == |fs|
  {
    seq(|fs|, i requires 0 <= i < |fs| => if fs[i].sent then Some(fs[i].value) else None)
  }

  lemma TakePut(f: Field, x: Bytes)
    requires f.value < 0x1000000
    ensures var b := Put(f) + x;
            if f.sent then |b| >= 3 && FromU24(b[..3]) == f.value && b[3..] == x else b == x
  {
    hide U24, FromU24;
    if f.sent {
      assert (Put(f) + x)[..3] == U24(f.value);
    }
  }

  lemma FrontOf(fs: seq<Field>)
    requires fs != []
    ensures Flags(fs) == [fs[0].sent] + Flags(fs[1..])
    ensures Values(fs) == [if fs[0].sent then Some(fs[0].value) else None] + Values(fs[1..])
  {}

  lemma {:induction false} TakeBody(fs: seq<Field>, tail: Bytes)
    requires forall f <- fs :: f.value < 0x1000000
    ensures Take(Flags(fs), Body(fs) + tail) == Ok(Parsed(Values(fs), tail))
    decreases |fs|
  {
    hide FromU24, Put, Flags, Values;
    if fs == [] {
      assert [] + tail == tail && Flags(fs) == [] && Values(fs) == [];
    } else {
      var f, rest := fs[0], fs[1..];
      TakeBody(rest, tail);
      FrontOf(fs);
      assert Body(fs) + tail == Put(f) + (Body(rest) + tail);
      TakePut(f, Body(rest) + tail);
    }
  }

  /** For every combination of flags and keys, whatever follows the payload: the
      reader recovers every emitted offset, sees none that was not emitted, and
      stops exactly where the payload ends. */
  lemma Unambiguous(comm: CommMode, a: Access, s: Settings, tail: Bytes)
    requires FitsU24(s)
    ensures var b := Payload(comm, a, Some(s));
            |b| <= 27 && Parse(b + tail) == Ok(Parsed(if s.enabled then Values(Fields(s)) else [], tail))
  {
    hide Take, Sent, Body, Values, Flags, SdmOption, Nibbles, LowNibble, HighNibble, FileOption, Mirroring, AccessBytes;
    MirroringRoundTrip(comm, s.enabled);
    NibblesRoundTrip(s.metaRead, s.fileRead);
    var b := Payload(comm, a, Some(s)) + tail;
    if s.enabled {
      AtMostSeven(s);
      TakeBody(Fields(s), tail);
      FlagsOf(s);
      assert b[6..] == Body(Fields(s)) + tail;
    } else {
      assert b[3..] == tail;
    }
  }

  /** Which offsets are emitted, in the caller's terms. */
  lemma EmittedAsAsked(s: Settings)
    requires FitsU24(s)
    ensures var fs, plain, mac := Fields(s), LowNibble(s.metaRead) == 0x0E, LowNibble(s.fileRead) != 0x0F;
            && (fs[0].sent <==> s.uidMirror && plain) && (fs[1].sent <==> s.counterMirror && plain)
            && (fs[2].sent <==> LowNibble(s.metaRead) <= 0x04)
            && (fs[3].sent <==> mac) && (fs[6].sent <==> mac)
            && (fs[4].sent <==> mac && s.encFileData) && (fs[5].sent <==> mac && s.encFileData)
            && (fs[7].sent <==> s.counterLimit)
    ensures var fs := Fields(s);
            && fs[0].value == s.uidOffset && fs[1].value == s.counterOffset && fs[2].value == s.piccDataOffset
            && fs[3].value == s.macInputOffset && fs[4].value == s.encOffset && fs[5].value == s.encLength
            && fs[6].value == s.macOffset && fs[7].value == s.limitValue
  {
    hide SdmOption, HasUid, HasCounter, HasLimit, HasEnc, LowNibble;
    OptionRoundTrip(s.uidMirror, s.counterMirror, s.counterLimit, s.encFileData);
  }

  /** The header by bits: communication mode and mirroring, the access nibbles, the
      options, and the three key nibbles. */
  lemma HeaderHolds(comm: CommMode, a: Access, s: Settings)
    ensures var h := Header(comm, a, s);
            && h[0] == 0x40 | (if comm.CommPlain? then 0 else if comm.CommMac? then 1 else 3)
            && h[1] == ((a.readWrite & 0x0F) << 4) | (a.change & 0x0F) && h[2] == ((a.read & 0x0F) << 4) | (a.write & 0x0F)
            && h[4] == 0xF0 | (s.counterRet & 0x0F) && h[5] == ((s.metaRead & 0x0F) << 4) | (s.fileRead & 0x0F)
    ensures var o := Header(comm, a, s)[3];
            && o & 0x0F == 0x01 && (o & 0x80 != 0 <==> s.uidMirror) && (o & 0x40 != 0 <==> s.counterMirror)
            && (o & 0x20 != 0 <==> s.counterLimit) && (o & 0x10 != 0 <==> s.encFileData)
    ensures Payload(comm, a, None) == [if comm.CommPlain? then 0 else if comm.CommMac? then 1 else 3] + Header(comm, a, s)[1..3]
  {
    OptionBits(s.uidMirror, s.counterMirror, s.counterLimit, s.encFileData);
    hide SdmOption;
  }

  lemma OptionBits(uid: bool, counter: bool, limit: bool, enc: bool)
    ensures var o := SdmOption(uid, counter, limit, enc);
            && o & 0x0F == 0x01 && (o & 0x80 != 0 <==> uid) && (o & 0x40 != 0 <==> counter)
            && (o & 0x20 != 0 <==> limit) && (o & 0x10 != 0 <==> enc)
  {}

  lemma FlagsOf(s: Settings)
    requires FitsU24(s)
    ensures Flags(Fields(s)) == Sent(SdmOption(s.uidMirror, s.counterMirror, s.counterLimit, s.encFileData),
                                     LowNibble(s.metaRead), LowNibble(s.fileRead))
  {
    hide Sent, SdmOption, LowNibble, Row, Flags;
    FlagsOfRow(Sent(SdmOption(s.uidMirror, s.counterMirror, s.counterLimit, s.encFileData),
                    LowNibble(s.metaRead), LowNibble(s.fileRead)), s);
  }

  lemma FlagsOfRow(p: seq<bool>, s: Settings)
    requires |p| == 8
    ensures Flags(Row(p, s)) == p
  {}

  lemma {:induction false} BodySplit(a: seq<Field>, b: seq<Field>)
    requires forall f <- a + b :: f.value < 0x1000000
    ensures (forall f <- a :: f in a + b) && (forall f <- b :: f in a + b)
    ensures Body(a + b) == Body(a) + Body(b)
    decreases |a|
  {
    hide Put;
    assert forall f <- a :: f in a + b;
    assert forall f <- b :: f in a + b;
    if a == [] {
      assert a + b == b;
    } else {
      assert (a + b)[1..] == a[1..] + b;
      BodySplit(a[1..], b);
    }
  }

  lemma BodyOfThree(f: Field, g: Field, h: Field)
    requires f.value < 0x1000000 && g.value < 0x1000000 && h.value < 0x1000000
    ensures Body([f, g, h]) == Put(f) + Put(g) + Put(h)
  {
    hide Put;
    assert [f, g, h][1..] == [g, h] && [g, h][1..] == [h] && [h][1..] == [];
    assert Body([h]) == Put(h) + Body([]);
  }

  /** The PICC data offset and the two mirror offsets exclude each other. */
  lemma AtMostSeven(s: Settings)
    requires FitsU24(s)
    ensures |Body(Fields(s))| <= 21
  {
    hide SdmOption, LowNibble, U24, Body;
    var fs := Fields(s);
    assert fs == [fs[0], fs[1], fs[2]] + fs[3..];
    BodySplit([fs[0], fs[1], fs[2]], fs[3..]);
    BodyOfThree(fs[0], fs[1], fs[2]);
  }

  //--------------------------------------------------------------------------
  // the builder
  //--------------------------------------------------------------------------

  /** One conditional put_u24 at the running offset. */
  method Emit(output: array<byte>, off: nat, f: Field) returns (next: nat)
    requires f.value < 0x1000000 && off + |Put(f)| <= output.Length
    modifies output
    ensures next == off + |Put(f)| && output[..next] == old(output[..off]) + Put(f)
    ensures forall i | next <= i < output.Length :: output[i] == old(output[i])
  {
    hide U24;
    next := off;
    if f.sent {
      Blit(output, off, U24(f.value));
      next := off + 3;
    }
  }

  lemma BodyOfEight(fs: seq<Field>)
    requires |fs| == 8 && forall f <- fs :: f.value < 0x1000000
    ensures Body(fs) == Put(fs[0]) + Put(fs[1]) + Put(fs[2])
                        + (Put(fs[3]) + Put(fs[4]) + Put(fs[5])) + (Put(fs[6]) + Put(fs[7]))
  {
    hide Put, Body;
    var a, b, c := [fs[0], fs[1], fs[2]], [fs[3], fs[4], fs[5]], [fs[6], fs[7]];
    assert fs == a + (b + c);
    BodySplit(a, b + c);
    BodySplit(b, c);
    BodyOfThree(fs[0], fs[1], fs[2]);
    BodyOfThree(fs[3], fs[4], fs[5]);
    BodyOfTwo(fs[6], fs[7]);
  }

  lemma BodyOfTwo(f: Field, g: Field)
    requires f.value < 0x1000000 && g.value < 0x1000000
    ensures Body([f, g]) == Put(f) + Put(g)
  {
    hide Put;
    assert [f, g][1..] == [g] && [g][1..] == [];
    assert Body([g]) == Put(g) + Body([]);
  }

  method EmitThree(output: array<byte>, off: nat, f: Field, g: Field, h: Field) returns (next: nat)
    requires f.value < 0x1000000 && g.value < 0x1000000 && h.value < 0x1000000
    requires off + |Put(f) + Put(g) + Put(h)| <= output.Length
    modifies output
    ensures next == off + |Put(f) + Put(g) + Put(h)| && output[..next] == old(output[..off]) + (Put(f) + Put(g) + Put(h))
    ensures forall i | next <= i < output.Length :: output[i] == old(output[i])
  {
    hide Put;
    next := Emit(output, off, f);
    next := Emit(output, next, g);
    next := Emit(output, next, h);
  }

  /** The conditional appends behind the header. */
  method EmitFields(output: array<byte>, start: nat, fs: seq<Field>) returns (off: nat)
    requires |fs| == 8 && (forall f <- fs :: f.value < 0x1000000) && start + |Body(fs)| <= output.Length
    modifies output
    ensures off == start + |Body(fs)| && output[..off] == old(output[..start]) + Body(fs)
    ensures forall i | off <= i < output.Length :: output[i] == old(output[i])
  {
    hide Put, Body;
    BodyOfEight(fs);
    off := EmitThree(output, start, fs[0], fs[1], fs[2]);
    off := EmitThree(output, off, fs[3], fs[4], fs[5]);
    off := Emit(output, off, fs[6]);
    off := Emit(output, off, fs[7]);
  }

  /** nxpsc_sdm_build_settings: nothing is written past the emitted length, nor
      past the caller's buffer. */
  method BuildSettings(comm: CommMode, a: Access, sdm: Option<Settings>, output: array<byte>) returns (r: Result<nat>)
    modifies output
    ensures if (sdm.Some? && !FitsU24(sdm.value)) || output.Length < (if sdm.Some? && sdm.value.enabled then 27 else 3)
            then r == Err(Length)
            else
              var b := Payload(comm, a, sdm);
              r == Ok(|b|) && |b| <= 27 && output[..] == b + old(output[|b|..])
  {
    hide Body, Fields, SdmOption, Nibbles, LowNibble, FileOption, FitsU24;
    if sdm.Some? && !FitsU24(sdm.value) {
      return Err(Length);
    }
    if output.Length < 3 {
      return Err(Length);
    }
    var enabled := sdm.Some? && sdm.value.enabled;
    if !enabled {
      var head := [FileOption(comm, false)] + AccessBytes(a);
      Blit(output, 0, head);
      return Ok(3);
    }
    if output.Length < 3 + 3 + 7 * 3 {
      Blit(output, 0, [FileOption(comm, true)] + AccessBytes(a));
      return Err(Length);
    }
    var s := sdm.value;
    Blit(output, 0, Header(comm, a, s));
    AtMostSeven(s);
    var off := EmitFields(output, 6, Fields(s));
    assert output[..] == output[..off] + output[off..];
    r := Ok(off);
  }
}
