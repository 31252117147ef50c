/** When the CRC search returns the payload length although nothing but zeros
    follows the checksum: a shorter prefix may carry a matching checksum too. */
module CrcExact {
  import opened ByteStrings
  import opened Crc
  import opened CrcSearch

  /** What the card enciphers: payload, checksum, zero padding. */
  function Enclosed(w: Width, d: Bytes, status: byte, z: nat): (data: Bytes)
    ensures |data| == |d| + Size(w) + z
  {
    d + Checksum(w, d, status) + Zeros(z)
  }

  // The bytes of a register, from the low end.
  function B0(c: bv32): byte { (c & 0xFF) as byte }
  function B1(c: bv32): byte { ((c >> 8) & 0xFF) as byte }
  function B2(c: bv32): byte { ((c >> 16) & 0xFF) as byte }
  function B3(c: bv32): byte { (c >> 24) as byte }

  /** Register after the first `k` bytes. */
  function Before(w: Width, d: Bytes, k: nat): bv32
    requires k <= |d|
  {
    From(w, Seed(w), d[..k])
  }

  lemma BeforeFits(w: Width, d: Bytes, k: nat)
    requires k <= |d|
    ensures Fits(w, Before(w, d, k))
  {
    SeedFits(w);
    FromFits(w, Seed(w), d[..k]);
  }

  lemma BeforeStep(w: Width, d: Bytes, k: nat)
    requires k < |d|
    ensures Before(w, d, k + 1) == Step(w, Before(w, d, k), d[k])
  {
    hide Step;
    assert d[..k + 1] == d[..k] + [d[k]];
    FromAppend(w, Seed(w), d[..k], [d[k]]);
    FromCons(w, Before(w, d, k), d[k], []);
    assert [d[k]] + [] == [d[k]];
  }

  lemma EnclosedSlice(w: Width, d: Bytes, status: byte, z: nat, k: nat)
    requires k <= |d|
    ensures Enclosed(w, d, status, z)[..k] == d[..k]
    ensures Enclosed(w, d, status, z)[k..k + Size(w)] == (d[k..] + Checksum(w, d, status))[..Size(w)]
  {
    hide Checksum;
    var data := Enclosed(w, d, status, z);
    assert data[k..] == d[k..] + Checksum(w, d, status) + Zeros(z);
    assert data[k..k + Size(w)] == data[k..][..Size(w)];
  }

  /** If the last `Size(w) - i` checksum bytes are zero the content ends at or
      before the others; otherwise the last nonzero one ends it. */
  lemma EnclosedEnd(w: Width, d: Bytes, status: byte, z: nat, i: nat)
    requires |d| > 0 && i <= Size(w)
    requires forall j | i <= j < Size(w) :: Checksum(w, d, status)[j] == 0
    ensures ContentEnd(Enclosed(w, d, status, z)) <= Max(1, |d| + i)
    ensures i > 0 && Checksum(w, d, status)[i - 1] != 0 ==> ContentEnd(Enclosed(w, d, status, z)) == |d| + i
  {
    hide Checksum;
    var c := Checksum(w, d, status);
    var data := Enclosed(w, d, status, z);
    assert forall j | 0 <= j < Size(w) :: data[|d| + j] == c[j];
    assert forall j | |d| + i <= j < |data| :: data[j] == 0;
  }

  /** The payload length itself is always a match, as long as it fits. */
  lemma SelfMatch(w: Width, d: Bytes, status: byte, z: nat)
    ensures Matches(w, Enclosed(w, d, status, z), status, |d|) <==> |d| <= MAX_RESPONSE
  {
    hide Checksum;
    EnclosedSlice(w, d, status, z, |d|);
    var c := Checksum(w, d, status);
    assert d[..|d|] == d && (d[|d|..] + c)[..Size(w)] == c;
  }

  //--------------------------------------------------------------------------
  // CRC16
  //--------------------------------------------------------------------------

  lemma LowXor(c: bv32, d: byte)
    ensures Low(X(c, Ext(d))) == 0 <==> Low(c) == d
    ensures Down(X(c, Ext(d))) == Down(c)
  {}

  lemma SecondByte(c: bv32)
    requires Fits(W16, c)
    ensures Top(W16, c) == 0 <==> Low(c >> 8) == 0
    ensures Low(Down(c)) == Low(c >> 8)
  {}

  /** A prefix one byte shorter matches exactly if the second checksum byte is
      zero: the step then shifted without feeding back. */
  lemma Shadow16(d: Bytes, status: byte)
    requires |d| >= 2
    ensures Checksum(W16, d[..|d| - 1], status) == [d[|d| - 1], Checksum(W16, d, status)[0]]
       <==> Checksum(W16, d, status)[1] == 0
  {
    var n := |d|;
    var s, x := Before(W16, d, n - 1), d[n - 1];
    var r := Step(W16, s, x);
    assert d[..n] == d;
    BeforeStep(W16, d, n - 1);
    BeforeFits(W16, d, n - 1);
    BeforeFits(W16, d, n);
    ExtFits(W16, s, x);
    Backstep(W16, X(s, Ext(x)));
    LowXor(s, x);
    SecondByte(r);
    SecondByte(s);
    hide X, Ext, Shifts, Down, Low, Fits, Top;
  }

  /** The D40 decoder finds the payload exactly if the second checksum byte is
      not zero, single bytes excepted. */
  lemma Exact16(d: Bytes, status: byte, z: nat)
    requires |d| > 0
    ensures CrcPos(W16, Enclosed(W16, d, status, z), status) == |d|
       <==> |d| <= MAX_RESPONSE && (|d| == 1 || Checksum(W16, d, status)[1] != 0)
  {
    hide Checksum, Enclosed;
    var n, c := |d|, Checksum(W16, d, status);
    var data := Enclosed(W16, d, status, z);
    SelfMatch(W16, d, status, z);
    if c[1] != 0 {
      EnclosedEnd(W16, d, status, z, 2);
    } else {
      EnclosedEnd(W16, d, status, z, 1);
    }
    if n == 1 {
      Single16(d, status);
    } else if n <= MAX_RESPONSE {
      EnclosedSlice(W16, d, status, z, n - 1);
      assert (d[n - 1..] + c)[..2] == [d[n - 1], c[0]];
      Shadow16(d, status);
      assert Matches(W16, data, status, n - 1) <==> c[1] == 0;
    }
  }

  /** The condition can fail: these two bytes have the checksum 0x51 0x00, and
      the decoder returns something else for them. */
  lemma TwoBytesLost(status: byte, z: nat)
    ensures CrcOf(W16, [0x00, 0xFE]) == [0x51, 0x00]
    ensures CrcPos(W16, Enclosed(W16, [0x00, 0xFE], status, z), status) != 2
  {
    FirstStep();
    SecondStep();
    assert [0x00 as byte, 0xFE][1..] == [0xFE] && [0xFE as byte][1..] == [];
    assert From(W16, 0x51FE, [0xFE]) == From(W16, 0x0051, []);
    Exact16([0x00, 0xFE], status, z);
  }

  lemma FirstStep()
    ensures Step(W16, 0x6363, 0x00) == 0x51FE
  {
    assert Shifts(W16, 0x6363, 8) == Shifts(W16, 0xDED4, 6) == Shifts(W16, 0x37B5, 4) == Shifts(W16, 0x4FE9, 2) == 0x51FE;
  }

  lemma SecondStep()
    ensures Step(W16, 0x51FE, 0xFE) == 0x0051
  {
    assert Shifts(W16, 0x5100, 8) == Shifts(W16, 0x1440, 6) == Shifts(W16, 0x0510, 4) == Shifts(W16, 0x0144, 2) == 0x0051;
  }

  /** One byte whose second checksum byte is zero has a nonzero first one. */
  lemma Single16(d: Bytes, status: byte)
    requires |d| == 1
    ensures Checksum(W16, d, status)[0] != 0 || Checksum(W16, d, status)[1] != 0
  {
    FromCons(W16, Seed(W16), d[0], []);
    assert d == [d[0]] + [];
    ShiftsSplit(W16, X(Seed(W16), Ext(d[0])));
    ShiftsUnrolled(W16, Ext(Low(X(Seed(W16), Ext(d[0])))));
  }

  //--------------------------------------------------------------------------
  // CRC32: byte equations over the feedback table
  //--------------------------------------------------------------------------

  function Pick(x: byte, i: bv4, k: bv32): bv32
    requires i < 8
  {
    if (x >> i) & 1 == 1 then k else 0
  }

  /** The CRC32 table, one summand per input bit. */
  function Feed(x: byte): bv32 {
    Pick(x, 0, 0x77073096) ^ Pick(x, 1, 0xEE0E612C) ^ Pick(x, 2, 0x076DC419) ^ Pick(x, 3, 0x0EDB8832) ^
    Pick(x, 4, 0x1DB71064) ^ Pick(x, 5, 0x3B6E20C8) ^ Pick(x, 6, 0x76DC4190) ^ Pick(x, 7, 0xEDB88320)
  }

  lemma FeedIsTable(x: byte)
    ensures Feed(x) == Table(W32, x)
  {
    ShiftsUnrolled(W32, Ext(x));
  }

  lemma Kernel1(f: byte, g: byte)
    requires B0(Feed(f)) == B1(Feed(g)) && B1(Feed(f)) == B2(Feed(g))
    requires B2(Feed(f)) == B3(Feed(g))
    ensures f == 0 && g == 0
  {}

  lemma Kernel2(f: byte, g: byte)
    requires B1(Feed(f)) == B2(Feed(g)) && B2(Feed(f)) == B3(Feed(g))
    ensures f == 0 && g == 0
  {}

  lemma Kernel3(f: byte, g: byte)
    requires B2(Feed(f)) == B3(Feed(g))
    requires f ^ B0(Feed(f)) ^ B1(Feed(f)) == g ^ B0(Feed(g)) ^ B1(Feed(g)) ^ B2(Feed(g))
    ensures f == 0 && g == 0
  {}

  /** One step, byte by byte. */
  lemma StepBytes(c: bv32, d: byte)
    ensures var r, t := Step(W32, c, d), Feed(X8(B0(c), d));
            && B0(r) == X8(B1(c), B0(t))
            && B1(r) == X8(B2(c), B1(t))
            && B2(r) == X8(B3(c), B2(t))
            && B3(r) == B3(t)
  {
    hide Shifts, Feed, Table, Low, Ext, X, Down, B0, B1, B2, B3, X8;
    var t := Feed(X8(B0(c), d));
    ShiftsSplit(W32, X(c, Ext(d)));
    FeedIsTable(X8(B0(c), d));
    InputBytes(c, d);
    XorByte0(Down(c), t); XorByte1(Down(c), t); XorByte2(Down(c), t); XorByte3(Down(c), t);
    DownBytes(c);
    X8Zero(B3(t));
  }

  lemma InputBytes(c: bv32, d: byte)
    ensures Low(X(c, Ext(d))) == X8(B0(c), d)
    ensures Down(X(c, Ext(d))) == Down(c)
  {}

  lemma XorByte0(u: bv32, t: bv32)
    ensures B0(X(u, t)) == X8(B0(u), B0(t))
  {}

  lemma XorByte1(u: bv32, t: bv32)
    ensures B1(X(u, t)) == X8(B1(u), B1(t))
  {}

  lemma XorByte2(u: bv32, t: bv32)
    ensures B2(X(u, t)) == X8(B2(u), B2(t))
  {}

  lemma XorByte3(u: bv32, t: bv32)
    ensures B3(X(u, t)) == X8(B3(u), B3(t))
  {}

  lemma DownBytes(c: bv32)
    ensures B0(Down(c)) == B1(c) && B1(Down(c)) == B2(c) && B2(Down(c)) == B3(c) && B3(Down(c)) == 0
  {}

  lemma X8Zero(a: byte)
    ensures X8(a, 0) == a && X8(0, a) == a
  {}

  lemma X8Cancel(a: byte, p: byte, q: byte)
    ensures X8(a, p) == X8(a, q) <==> p == q
    ensures X8(p, q) == 0 <==> p == q
  {}

  lemma FeedTop(x: byte)
    ensures B3(Feed(x)) == 0 <==> x == 0
    ensures Feed(0) == 0 && B0(0) == B1(0) == B2(0) == B3(0) == 0
  {}

  /** Two steps from one register differ by what the input difference feeds. */
  lemma StepSpread(s: bv32, x: byte, y: byte)
    ensures var u, v, t := Step(W32, s, x), Step(W32, s, y), Feed(X8(x, y));
            && B0(v) == X8(B0(u), B0(t))
            && B1(v) == X8(B1(u), B1(t))
            && B2(v) == X8(B2(u), B2(t))
            && B3(v) == X8(B3(u), B3(t))
  {
    hide Shifts, Ext, X, Feed, B0, B1, B2, B3, X8;
    var u, t := Step(W32, s, x), Feed(X8(x, y));
    FeedIsTable(X8(x, y));
    StepInput(s, x, y);
    ShiftsLinear(W32, X(s, Ext(x)), Ext(X8(x, y)), 8);
    XorByte0(u, t); XorByte1(u, t); XorByte2(u, t); XorByte3(u, t);
  }

  lemma StepInput(s: bv32, x: byte, y: byte)
    ensures X(X(s, Ext(x)), Ext(X8(x, y))) == X(s, Ext(y))
  {}

  /** The checksum of payload || status is the register one step on. */
  lemma ChecksumBytes(d: Bytes, k: nat, status: byte)
    requires k <= |d|
    ensures var r := Step(W32, Before(W32, d, k), status);
            Checksum(W32, d[..k], status) == [B0(r), B1(r), B2(r), B3(r)]
  {
    hide Step;
    FromAppend(W32, Seed(W32), d[..k], [status]);
    FromCons(W32, Before(W32, d, k), status, []);
    assert [status] + [] == [status];
  }

  /** A prefix one byte shorter: `x` is the last byte. */
  lemma ShadowOne(s: bv32, x: byte, status: byte)
    ensures var w, u := Step(W32, s, status), Step(W32, s, x);
            var c := Step(W32, u, status);
            (B0(w) == x && B1(w) == B0(c) && B2(w) == B1(c) && B3(w) == B2(c)) <==> (B3(c) == 0 && x == status)
  {
    hide Step, Feed, B0, B1, B2, B3, X8;
    var w, u := Step(W32, s, status), Step(W32, s, x);
    var e, g := X8(B0(u), status), X8(x, status);
    StepBytes(u, status);
    StepSpread(s, x, status);
    FeedTop(e);
    var p, q := Feed(e), Feed(g);
    X8Cancel(B1(u), B1(q), B0(p)); X8Cancel(B2(u), B2(q), B1(p)); X8Cancel(B3(u), B3(q), B2(p));
    X8Cancel(0, x, status); X8Cancel(0, B0(u), status);
    X8Zero(B0(u)); X8Zero(B1(u)); X8Zero(B2(u)); X8Zero(B3(u));
    if B1(q) == B0(p) && B2(q) == B1(p) && B3(q) == B2(p) {
      Kernel1(e, g);
    }
  }

  /** Two bytes shorter: never without the status in the last place. */
  lemma ShadowTwo(s: bv32, x: byte, y: byte, status: byte)
    requires var w, v := Step(W32, s, status), Step(W32, Step(W32, s, x), y);
             var c := Step(W32, v, status);
             B0(w) == x && B1(w) == y && B2(w) == B0(c) && B3(w) == B1(c) && B3(c) == 0
    ensures y == status
  {
    hide Step, Feed, B0, B1, B2, B3, X8;
    var w, u := Step(W32, s, status), Step(W32, s, x);
    var v := Step(W32, u, y);
    var e, f, g := X8(B0(v), status), X8(B0(u), y), X8(x, status);
    StepBytes(v, status);
    StepBytes(u, y);
    StepSpread(s, x, status);
    FeedTop(e);
    FeedTop(g);
    var p, q := Feed(f), Feed(g);
    X8Zero(B1(v)); X8Zero(B2(v)); X8Zero(B0(u));
    X8Cancel(B2(u), B2(q), B1(p)); X8Cancel(B3(u), B3(q), B2(p));
    X8Cancel(0, B0(u), y); X8Cancel(0, x, status);
    Kernel2(f, g);
  }

  lemma Solve3(x: byte, y: byte, z: byte, status: byte, s0: byte, s1: byte, s2: byte,
               f: byte, f0: byte, f1: byte, g: byte, g0: byte, g1: byte, g2: byte)
    requires f == X8(s0, y) && g == X8(x, status)
    requires x == X8(s0, g0) && y == X8(s1, g1) && z == X8(s2, g2)
    requires z == X8(s1, f0) && status == X8(s2, f1)
    ensures f ^ f0 ^ f1 == g ^ g0 ^ g1 ^ g2
  {}

  /** Three bytes shorter, with the top two checksum bytes zero. */
  lemma ShadowThree(s: bv32, x: byte, y: byte, z: byte, status: byte)
    requires var w, v := Step(W32, s, status), Step(W32, Step(W32, Step(W32, s, x), y), z);
             var c := Step(W32, v, status);
             B0(w) == x && B1(w) == y && B2(w) == z && B3(w) == B0(c) && B2(c) == 0 && B3(c) == 0
    ensures z == status
  {
    hide Step, Feed, B0, B1, B2, B3, X8;
    var w, u := Step(W32, s, status), Step(W32, s, x);
    var m := Step(W32, u, y);
    var v := Step(W32, m, z);
    var e, r, f, g := X8(B0(v), status), X8(B0(m), z), X8(B0(u), y), X8(x, status);
    StepBytes(v, status);
    StepBytes(m, z);
    StepBytes(u, y);
    StepSpread(s, x, status);
    FeedTop(e); FeedTop(r); FeedTop(g);
    var p, q := Feed(f), Feed(g);
    X8Zero(B1(v)); X8Zero(B2(v)); X8Zero(B3(v)); X8Zero(B1(m)); X8Zero(B2(m)); X8Zero(B0(u)); X8Zero(B1(u));
    X8Cancel(0, B0(v), status); X8Cancel(0, B0(m), z); X8Cancel(0, B0(u), y); X8Cancel(0, x, status);
    X8Cancel(B3(u), B3(q), B2(p));
    assert e == 0 && r == 0;
    Solve3(x, y, z, status, B0(u), B1(u), B2(u), f, B0(p), B1(p), g, B0(q), B1(q), B2(q));
    Kernel3(f, g);
  }

  /** What a match `j` bytes before the payload end compares. */
  lemma ShorterMatch(d: Bytes, status: byte, z: nat, j: nat)
    requires 0 < j < |d| <= MAX_RESPONSE
    ensures Matches(W32, Enclosed(W32, d, status, z), status, |d| - j)
       <==> Checksum(W32, d[..|d| - j], status) == (d[|d| - j..] + Checksum(W32, d, status))[..4]
  {
    hide Checksum, Enclosed;
    EnclosedSlice(W32, d, status, z, |d| - j);
  }

  lemma OneShorter(d: Bytes, status: byte, z: nat)
    requires 1 < |d| <= MAX_RESPONSE
    ensures Matches(W32, Enclosed(W32, d, status, z), status, |d| - 1)
       <==> Checksum(W32, d, status)[3] == 0 && d[|d| - 1] == status
  {
    hide Checksum, Enclosed, Matches, Step, Before, B0, B1, B2, B3;
    var n := |d|;
    ShorterMatch(d, status, z, 1);
    ChecksumBytes(d, n - 1, status);
    ChecksumBytes(d, n, status);
    assert d[..n] == d;
    BeforeStep(W32, d, n - 1);
    ShadowOne(Before(W32, d, n - 1), d[n - 1], status);
    var c := Checksum(W32, d, status);
    assert (d[n - 1..] + c)[..4] == [d[n - 1], c[0], c[1], c[2]];
  }

  lemma TwoShorter(d: Bytes, status: byte, z: nat)
    requires 2 < |d| <= MAX_RESPONSE && Checksum(W32, d, status)[3] == 0
    requires Matches(W32, Enclosed(W32, d, status, z), status, |d| - 2)
    ensures d[|d| - 1] == status
  {
    hide Checksum, Enclosed, Matches, Step, Before, B0, B1, B2, B3;
    var n := |d|;
    ShorterMatch(d, status, z, 2);
    ChecksumBytes(d, n - 2, status);
    ChecksumBytes(d, n, status);
    assert d[..n] == d;
    BeforeStep(W32, d, n - 2);
    BeforeStep(W32, d, n - 1);
    var c := Checksum(W32, d, status);
    assert (d[n - 2..] + c)[..4] == [d[n - 2], d[n - 1], c[0], c[1]];
    ShadowTwo(Before(W32, d, n - 2), d[n - 2], d[n - 1], status);
  }

  lemma ThreeShorter(d: Bytes, status: byte, z: nat)
    requires 3 < |d| <= MAX_RESPONSE
    requires Checksum(W32, d, status)[2] == 0 && Checksum(W32, d, status)[3] == 0
    requires Matches(W32, Enclosed(W32, d, status, z), status, |d| - 3)
    ensures d[|d| - 1] == status
  {
    hide Checksum, Enclosed, Matches, Step, Before, B0, B1, B2, B3;
    var n := |d|;
    ShorterMatch(d, status, z, 3);
    ChecksumBytes(d, n - 3, status);
    ChecksumBytes(d, n, status);
    assert d[..n] == d;
    BeforeStep(W32, d, n - 3);
    BeforeStep(W32, d, n - 2);
    BeforeStep(W32, d, n - 1);
    var c := Checksum(W32, d, status);
    assert (d[n - 3..] + c)[..4] == [d[n - 3], d[n - 2], d[n - 1], c[0]];
    ShadowThree(Before(W32, d, n - 3), d[n - 3], d[n - 2], d[n - 1], status);
  }

  /** The usual case: one of the upper three checksum bytes is not zero. */
  lemma Exact32High(d: Bytes, status: byte, z: nat)
    requires |d| > 0
    requires exists i :: 1 <= i < 4 && Checksum(W32, d, status)[i] != 0
    ensures CrcPos(W32, Enclosed(W32, d, status, z), status) == |d|
       <==> |d| <= MAX_RESPONSE
            && (Checksum(W32, d, status)[3] != 0
                || if |d| == 1 then Checksum(W32, d, status)[2] != 0 else d[|d| - 1] != status)
  {
    hide Checksum, Enclosed, Matches;
    var n, c := |d|, Checksum(W32, d, status);
    var data := Enclosed(W32, d, status, z);
    SelfMatch(W32, d, status, z);
    assert c[1] != 0 || c[2] != 0 || c[3] != 0;
    var i: nat := if c[3] != 0 then 4 else if c[2] != 0 then 3 else 2;
    EnclosedEnd(W32, d, status, z, i);
    var k := CrcPos(W32, data, status);
    assert ContentEnd(data) == n + i;
    if 1 < n <= MAX_RESPONSE {
      OneShorter(d, status, z);
      if 0 < k < n - 1 {
        assert k == n - 2 || k == n - 3;
        if k == n - 2 { TwoShorter(d, status, z); } else { ThreeShorter(d, status, z); }
      }
    }
  }

  /** The four bytes from `k` on are the checksum of the bytes before and status. */
  predicate Repeats(d: Bytes, status: byte, k: nat)
    requires k + 4 <= |d|
  {
    Checksum(W32, d[..k], status) == d[k..k + 4]
  }

  lemma FourShorter(d: Bytes, status: byte, z: nat)
    requires 4 < |d| <= MAX_RESPONSE
    ensures Matches(W32, Enclosed(W32, d, status, z), status, |d| - 4) <==> Repeats(d, status, |d| - 4)
  {
    hide Checksum, Enclosed, Matches;
    ShorterMatch(d, status, z, 4);
    assert (d[|d| - 4..] + Checksum(W32, d, status))[..4] == d[|d| - 4..|d|];
  }

  lemma FiveShorter(d: Bytes, status: byte, z: nat)
    requires 5 < |d| <= MAX_RESPONSE
    ensures Matches(W32, Enclosed(W32, d, status, z), status, |d| - 5) <==> Repeats(d, status, |d| - 5)
  {
    hide Checksum, Enclosed, Matches;
    ShorterMatch(d, status, z, 5);
    assert (d[|d| - 5..] + Checksum(W32, d, status))[..4] == d[|d| - 5..|d| - 1];
  }

  /** Which payloads the EV1 decoder finds, read off payload, checksum and
      status. With a nonzero top checksum byte all of them. Otherwise the
      payload must not end in the status byte; and the fewer checksum bytes are
      left, the longer it must be, and the further back the search looks for a
      checksum inside the payload. */
  predicate Findable32(d: Bytes, status: byte)
    requires |d| > 0
  {
    hide Checksum, Repeats;
    var n, c, last := |d|, Checksum(W32, d, status), d[|d| - 1];
    n <= MAX_RESPONSE
    && (|| c[3] != 0
        || if c[2] != 0 then n == 1 || last != status
           else if c[1] != 0 then n >= 2 && last != status
           else if c[0] != 0 then n >= 3 && last != status && (n >= 5 ==> !Repeats(d, status, n - 4))
           else n >= 4 && last != status && last != 0
                && (n >= 5 ==> !Repeats(d, status, n - 4)) && (n >= 6 ==> !Repeats(d, status, n - 5)))
  }

  /** The end of the content when the upper three checksum bytes are zero. */
  lemma LowEnd(d: Bytes, status: byte, z: nat)
    requires |d| > 0 && forall j | 1 <= j < 4 :: Checksum(W32, d, status)[j] == 0
    ensures var n, e := |d|, ContentEnd(Enclosed(W32, d, status, z));
            if Checksum(W32, d, status)[0] != 0 then e == n + 1
            else e <= n && (e == n <==> n == 1 || d[n - 1] != 0)
  {
    hide Checksum;
    var c := Checksum(W32, d, status);
    if c[0] != 0 {
      EnclosedEnd(W32, d, status, z, 1);
    } else {
      EnclosedEnd(W32, d, status, z, 0);
      var data, n := Enclosed(W32, d, status, z), |d|;
      assert data[n - 1] == d[n - 1];
    }
  }

  /** No match before the payload's end but those Findable32 names. */
  lemma LowMatches(d: Bytes, status: byte, z: nat, k: nat)
    requires 0 < k < |d| <= MAX_RESPONSE && |d| - 5 <= k && d[|d| - 1] != status
    requires forall j | 1 <= j < 4 :: Checksum(W32, d, status)[j] == 0
    ensures Matches(W32, Enclosed(W32, d, status, z), status, k)
       <==> (k == |d| - 4 || k == |d| - 5) && Repeats(d, status, k)
  {
    hide Checksum, Enclosed, Matches, Repeats;
    var n := |d|;
    OneShorter(d, status, z);
    if k == n - 4 { FourShorter(d, status, z); }
    if k == n - 5 { FiveShorter(d, status, z); }
    if Matches(W32, Enclosed(W32, d, status, z), status, k) {
      if k == n - 2 { TwoShorter(d, status, z); }
      if k == n - 3 { ThreeShorter(d, status, z); }
    }
  }

  lemma Exact32Low(d: Bytes, status: byte, z: nat)
    requires 0 < |d| <= MAX_RESPONSE && forall j | 1 <= j < 4 :: Checksum(W32, d, status)[j] == 0
    ensures CrcPos(W32, Enclosed(W32, d, status, z), status) == |d| <==> Findable32(d, status)
  {
    hide Checksum, Enclosed, Matches, Repeats;
    var n, data := |d|, Enclosed(W32, d, status, z);
    SelfMatch(W32, d, status, z);
    LowEnd(d, status, z);
    if n > 1 {
      OneShorter(d, status, z);
    }
    if d[n - 1] != status {
      forall k | 0 < k < n && n - 5 <= k
        ensures Matches(W32, data, status, k) <==> (k == n - 4 || k == n - 5) && Repeats(d, status, k)
      {
        LowMatches(d, status, z, k);
      }
    }
  }

  /** The EV1 decoder finds exactly the payloads Findable32 describes, whatever
      the zero padding. */
  lemma Exact32(d: Bytes, status: byte, z: nat)
    requires |d| > 0
    ensures CrcPos(W32, Enclosed(W32, d, status, z), status) == |d| <==> Findable32(d, status)
  {
    hide Checksum, Enclosed, Matches, Repeats;
    var c := Checksum(W32, d, status);
    if c[1] == 0 && c[2] == 0 && c[3] == 0 {
      if |d| <= MAX_RESPONSE {
        Exact32Low(d, status, z);
      } else {
        SelfMatch(W32, d, status, z);
      }
    } else {
      assert exists i :: 1 <= i < 4 && c[i] != 0;
      Exact32High(d, status, z);
    }
  }

  //--------------------------------------------------------------------------
  // CRC32: which short payloads are lost
  //--------------------------------------------------------------------------

  lemma {:induction false} ZeroRun(n: nat)
    ensures From(W32, 0, Zeros(n)) == 0
    decreases n
  {
    hide Step;
    if n > 0 {
      assert Zeros(n)[1..] == Zeros(n - 1);
      StillZero();
      ZeroRun(n - 1);
    }
  }

  lemma StillZero()
    ensures Step(W32, 0, 0) == 0
  {
    assert Shifts(W32, 0, 8) == Shifts(W32, 0, 6) == Shifts(W32, 0, 4) == Shifts(W32, 0, 2) == 0;
  }

  /** At most four bytes leave the top of the register empty, one byte for each of
      them, only by cancelling the starting value. */
  lemma SeedCancelled(m: Bytes)
    requires |m| <= 4 && CrcOf(W32, m)[4 - |m|..] == Zeros(|m|)
    ensures forall b <- m :: b == 0xFF
  {
    hide Step, Le;
    var c := CrcOf(W32, m);
    var seed, tail := Le(W32, Seed(W32)), Zeros(|m|);
    var a := m + c[..4 - |m|];
    Residue(W32, From(W32, Seed(W32), m));
    FromAppend(W32, Seed(W32), m, c);
    assert a + tail == m + c;
    Residue(W32, Seed(W32));
    FromAppend(W32, Seed(W32), seed, tail);
    ZeroRun(|m|);
    SeedBytes();
    assert [] + a + tail == a + tail && [] + seed + tail == seed + tail;
    if a != seed {
      BurstDetected(W32, [], a, seed, tail);
    }
    forall b | b in m ensures b == 0xFF {
      var i :| 0 <= i < |m| && m[i] == b;
      assert seed[i] == a[i] == b;
    }
  }

  lemma SeedBytes()
    ensures Le(W32, Seed(W32)) == [0xFF, 0xFF, 0xFF, 0xFF]
  {}

  /** Behind any status but 0xFF, so behind every one that lets a session stand, a
      single byte is always found, and two or three exactly if the top checksum
      byte is not zero or the last byte is not the status. */
  lemma ShortPayloads(d: Bytes, status: byte)
    requires 1 <= |d| <= 3 && status != 0xFF
    ensures Findable32(d, status) <==> |d| == 1 || Checksum(W32, d, status)[3] != 0 || d[|d| - 1] != status
  {
    hide CrcOf, Findable32;
    var m := d + [status];
    assert status in m;
    var c := Checksum(W32, d, status);
    AllZero(c, 4 - |m|);
    if c[4 - |m|..] == Zeros(|m|) {
      SeedCancelled(m);
    }
    ShortFound(d, status);
  }

  lemma ShortFound(d: Bytes, status: byte)
    requires 1 <= |d| <= 3 && exists j :: 3 - |d| <= j < 4 && Checksum(W32, d, status)[j] != 0
    ensures Findable32(d, status) <==> |d| == 1 || Checksum(W32, d, status)[3] != 0 || d[|d| - 1] != status
  {
    hide Checksum, Repeats;
  }

  lemma AllZero(c: Bytes, k: nat)
    requires k <= |c|
    ensures c[k..] == Zeros(|c| - k) <==> forall j | k <= j < |c| :: c[j] == 0
  {
    assert forall j | k <= j < |c| :: c[j] == c[k..][j - k];
  }

  /** Two zero bytes with status 0x00 have the checksum ED 26 BE 00; the decoder
      returns something else for them. */
  lemma TwoZerosLost(z: nat)
    ensures Checksum(W32, [0x00, 0x00], 0x00) == [0xED, 0x26, 0xBE, 0x00]
    ensures CrcPos(W32, Enclosed(W32, [0x00, 0x00], 0x00, z), 0x00) != 2
  {
    hide Step, CrcPos, Findable32, Enclosed;
    ZeroSteps();
    assert [0x00 as byte, 0x00, 0x00][1..] == [0x00, 0x00] && [0x00 as byte, 0x00][1..] == [0x00] && [0x00 as byte][1..] == [];
    assert From(W32, 0xFFFFFFFF, [0x00, 0x00, 0x00]) == From(W32, 0x2DFD1072, [0x00, 0x00])
        == From(W32, 0xBE26ED00, [0x00]) == From(W32, 0x00BE26ED, []);
    assert [0x00 as byte, 0x00] + [0x00] == [0x00, 0x00, 0x00];
    LastIsStatus([0x00, 0x00], 0x00);
    Exact32([0x00, 0x00], 0x00, z);
  }

  lemma LastIsStatus(d: Bytes, status: byte)
    requires |d| > 1 && d[|d| - 1] == status && Checksum(W32, d, status)[3] == 0
    ensures !Findable32(d, status)
  {
    hide Checksum;
  }

  lemma ZeroSteps()
    ensures Step(W32, 0xFFFFFFFF, 0x00) == 0x2DFD1072
    ensures Step(W32, 0x2DFD1072, 0x00) == 0xBE26ED00
    ensures Step(W32, 0xBE26ED00, 0x00) == 0x00BE26ED
  {
    hide Shifts;
    FeedStep(0xFFFFFFFF, 0x00, 0x2DFD1072);
    FeedStep(0x2DFD1072, 0x00, 0xBE26ED00);
    FeedStep(0xBE26ED00, 0x00, 0x00BE26ED);
  }

  /** A step, from the feedback table. */
  lemma FeedStep(c: bv32, d: byte, r: bv32)
    requires r == X(Down(c), Feed(X8(B0(c), d)))
    ensures Step(W32, c, d) == r
  {
    hide Shifts, Feed, Table;
    ShiftsSplit(W32, X(c, Ext(d)));
    InputBytes(c, d);
    FeedIsTable(X8(B0(c), d));
  }
}
