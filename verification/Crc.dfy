/** CRC_A (ISO/IEC 14443-3 Annex B) and the JAMCRC CRC32 the DESFire channels
    use, with the algebra the payload search relies on. Both are reflected, so a
    16-bit register shifts the same way inside a 32-bit one. */
module Crc {
  import opened ByteStrings

  datatype Width = W16 | W32

  function Size(w: Width): nat {
    if w == W16 then 2 else 4
  }

  /** x^16 + x^12 + x^5 + 1 and the IEEE 802.3 polynomial, both reflected. */
  function Poly(w: Width): bv32 {
    if w == W16 then 0x8408 else 0xEDB88320
  }

  function Seed(w: Width): bv32 {
    if w == W16 then 0x6363 else 0xFFFFFFFF
  }

  /** One single-bit step of the register. */
  function Shift(w: Width, c: bv32): bv32 {
    if Odd(c) then X(Half(c), Poly(w)) else Half(c)
  }

  function Shifts(w: Width, c: bv32, n: nat): bv32
    decreases n
  {
    if n == 0 then c else Shifts(w, Shift(w, c), n - 1)
  }

  function Step(w: Width, c: bv32, d: byte): bv32 {
    Shifts(w, X(c, Ext(d)), 8)
  }

  function From(w: Width, c: bv32, data: Bytes): bv32
    decreases |data|
  {
    if data == [] then c else From(w, Step(w, c, data[0]), data[1..])
  }

  /** The checksum as it is written out, low byte first. */
  function Le(w: Width, c: bv32): (b: Bytes)
    ensures |b| == Size(w)
  {
    if w == W16 then [Low(c), Low(c >> 8)] else [Low(c), Low(c >> 8), Low(c >> 16), Low(c >> 24)]
  }

  function CrcOf(w: Width, data: Bytes): (b: Bytes)
    ensures |b| == Size(w)
  {
    Le(w, From(w, Seed(w), data))
  }

  /** Published values: CRC_A of 00 00 and of 12 34 (ISO/IEC 14443-3 Annex B), and the
      CRC32 register before and after one zero byte. */
  lemma KnownValues()
    ensures CrcOf(W16, [0x00, 0x00]) == [0xA0, 0x1E] && CrcOf(W16, [0x12, 0x34]) == [0x26, 0xCF]
    ensures CrcOf(W32, []) == [0xFF, 0xFF, 0xFF, 0xFF] && CrcOf(W32, [0x00]) == [0x72, 0x10, 0xFD, 0x2D]
  {}

  // Names for the bit operations, so that a proof can leave them uninterpreted.
  function X(a: bv32, b: bv32): bv32 { a ^ b }
  function Ext(d: byte): bv32 { d as bv32 }
  function Low(c: bv32): byte { (c & 0xFF) as byte }
  function High(c: bv32): bv32 { c & 0xFFFFFF00 }
  predicate Odd(c: bv32) { c & 1 == 1 }
  function Half(c: bv32): bv32 { c >> 1 }
  function Down(c: bv32): bv32 { c >> 8 }
  function Up(c: bv32): bv32 { c << 8 }
  function Top(w: Width, c: bv32): bv32 { if w == W16 then c >> 8 else c >> 24 }
  predicate Fits(w: Width, c: bv32) { w == W16 ==> c & 0xFFFF0000 == 0 }

  //--------------------------------------------------------------------------
  // the loops
  //--------------------------------------------------------------------------

  /** nxpsc_crc16: the nibble form of the byte step. */
  method WriteCrc16(data: Bytes, crc: array<byte>, at: nat)
    requires at + 2 <= crc.Length
    modifies crc
    ensures crc[..] == Splice(old(crc[..]), at, CrcOf(W16, data))
  {
    var c: bv16 := 0x6363;
    for i := 0 to |data|
      invariant crc[..] == old(crc[..])
      invariant From(W16, Seed(W16), data) == From(W16, Wide(c), data[i..])
    {
      NibbleStepIsBitSteps(c, data[i]);
      c := NibbleStep(c, data[i]);
    }
    assert data[|data|..] == [];
    SameBytes(c);
    assert CrcOf(W16, data) == [(c & 0xFF) as byte, (c >> 8) as byte];
    Blit(crc, at, [(c & 0xFF) as byte, (c >> 8) as byte]);
  }

  /** The byte step of nxpsc_crc16. */
  function NibbleStep(c: bv16, d: byte): bv16 {
    X16(c >> 8, Spread(Fold(d ^ ((c & 0xFF) as byte))))
  }

  function X16(a: bv16, b: bv16): bv16 { a ^ b }
  function Wide(c: bv16): bv32 { c as bv32 }

  function Fold(x: byte): byte { x ^ (x << 4) }
  function Spread(b: byte): bv16 { ((b as bv16) << 8) ^ ((b as bv16) << 3) ^ ((b as bv16) >> 4) }

  /** nxpsc_crc32. */
  method WriteCrc32(data: Bytes, crc: array<byte>, at: nat)
    requires at + 4 <= crc.Length
    modifies crc
    ensures crc[..] == Splice(old(crc[..]), at, CrcOf(W32, data))
  {
    hide From, Shift;
    var c: bv32 := 0xFFFFFFFF;
    assert data[0..] == data;
    for i := 0 to |data|
      invariant crc[..] == old(crc[..])
      invariant From(W32, Seed(W32), data) == From(W32, c, data[i..])
    {
      FromNext(W32, c, data, i);
      c := c ^ (data[i] as bv32);
      ghost var c0 := c;
      for b := 0 to 8
        invariant crc[..] == old(crc[..])
        invariant Shifts(W32, c, 8 - b) == Shifts(W32, c0, 8)
      {
        c := ShiftOnce(c);
      }
    }
    FromNone(W32, c);
    assert data[|data|..] == [];
    assert CrcOf(W32, data) == [Low(c), Low(c >> 8), Low(c >> 16), Low(c >> 24)];
    Blit(crc, at, [Low(c), Low(c >> 8), Low(c >> 16), Low(c >> 24)]);
  }

  lemma FromNext(w: Width, c: bv32, data: Bytes, i: nat)
    requires i < |data|
    ensures From(w, c, data[i..]) == From(w, Step(w, c, data[i]), data[i + 1..])
  {
    assert data[i..][1..] == data[i + 1..];
  }

  method ShiftOnce(c: bv32) returns (r: bv32)
    ensures r == Shift(W32, c)
  {
    var out := c & 1;
    assert out == 0 || out == 1;
    r := c >> 1;
    if out != 0 {
      r := r ^ 0xEDB88320;
    }
  }

  //--------------------------------------------------------------------------
  // algebra of one step
  //--------------------------------------------------------------------------

  lemma LowHigh(c: bv32)
    ensures X(High(c), Ext(Low(c))) == c
    ensures High(c) & 0xFF == 0
    ensures High(c) >> 8 == Down(c)
  {}

  lemma LowZero(c: bv32)
    ensures Low(c) == 0 ==> Up(Down(c)) == c
  {}

  lemma XorZero(c: bv32)
    ensures X(c, 0) == c && X(c, c) == 0
  {}

  lemma XorAssociative(a: bv32, b: bv32, c: bv32)
    ensures X(X(a, b), c) == X(a, X(b, c))
  {}

  lemma XorCommutative(a: bv32, b: bv32)
    ensures X(a, b) == X(b, a)
    ensures X(a, b) == 0 <==> a == b
  {}

  lemma XorGroup(a: bv32, b: bv32, c: bv32, d: bv32)
    ensures X(X(a, b), X(c, d)) == X(X(a, c), X(b, d))
  {
    hide X;
    XorAssociative(a, b, X(c, d));
    XorAssociative(b, c, d);
    XorCommutative(b, c);
    XorAssociative(c, b, d);
    XorAssociative(a, c, X(b, d));
  }

  lemma HalfXor(a: bv32, b: bv32)
    ensures Half(X(a, b)) == X(Half(a), Half(b))
    ensures Odd(X(a, b)) <==> Odd(a) != Odd(b)
  {
    assert (a ^ b) & 1 == (a & 1) ^ (b & 1);
  }

  lemma ShiftLinear(w: Width, a: bv32, b: bv32)
    ensures Shift(w, X(a, b)) == X(Shift(w, a), Shift(w, b))
  {
    hide X, Half, Odd, Poly;
    var h, k, p := Half(a), Half(b), Poly(w);
    HalfXor(a, b);
    XorGroup(h, p, k, p);
    XorZero(p);
    XorZero(X(h, k));
    XorAssociative(h, k, p);
    XorAssociative(h, p, k);
    XorCommutative(p, k);
  }

  lemma {:induction false} ShiftsLinear(w: Width, a: bv32, b: bv32, n: nat)
    ensures Shifts(w, X(a, b), n) == X(Shifts(w, a, n), Shifts(w, b, n))
    decreases n
  {
    hide Shift, X;
    if n > 0 {
      ShiftLinear(w, a, b);
      ShiftsLinear(w, Shift(w, a), Shift(w, b), n - 1);
    }
  }

  lemma ShiftsUnrolled(w: Width, c: bv32)
    ensures Shifts(w, c, 8)
         == Shift(w, Shift(w, Shift(w, Shift(w, Shift(w, Shift(w, Shift(w, Shift(w, c))))))))
  {
    hide Shift;
    var c4 := Shift(w, Shift(w, Shift(w, Shift(w, c))));
    assert Shifts(w, c, 8) == Shifts(w, Shift(w, Shift(w, c)), 6) == Shifts(w, c4, 4);
    assert Shifts(w, c4, 4) == Shifts(w, Shift(w, Shift(w, c4)), 2);
  }

  lemma EvenShifts(w: Width, h: bv32)
    requires h & 0xFF == 0
    ensures Shift(w, h) == h >> 1
    ensures Shift(w, h >> 1) == h >> 2
    ensures Shift(w, h >> 2) == h >> 3
    ensures Shift(w, h >> 3) == h >> 4
    ensures Shift(w, h >> 4) == h >> 5
    ensures Shift(w, h >> 5) == h >> 6
    ensures Shift(w, h >> 6) == h >> 7
    ensures Shift(w, h >> 7) == h >> 8
  {}

  /** What the low byte feeds back: the entry of the usual CRC table. */
  function Table(w: Width, x: byte): bv32 {
    Shifts(w, Ext(x), 8)
  }

  lemma TableTop(w: Width, x: byte)
    ensures Top(w, Table(w, x)) == 0 <==> x == 0
    ensures x == 0 ==> Table(w, x) == 0
    ensures Fits(w, Table(w, x))
  {
    ShiftsUnrolled(w, Ext(x));
    match w { case W16 => case W32 => }
  }

  /** Eight shifts, split into what the low byte feeds back and the rest. */
  lemma ShiftsSplit(w: Width, c: bv32)
    ensures Shifts(w, c, 8) == X(Down(c), Table(w, Low(c)))
  {
    hide X, High, Ext, Low, Down, Shifts;
    LowHigh(c);
    HighShifts(w, c);
    ShiftsLinear(w, High(c), Ext(Low(c)), 8);
  }

  lemma HighShifts(w: Width, c: bv32)
    ensures Shifts(w, High(c), 8) == Down(c)
  {
    hide Shift, Shifts;
    ShiftsUnrolled(w, High(c));
    LowHigh(c);
    EvenShifts(w, High(c));
  }

  lemma TopXor(w: Width, c: bv32, t: bv32)
    requires Fits(w, c) && Fits(w, t)
    ensures Top(w, X(Down(c), t)) == Top(w, t)
    ensures Fits(w, X(Down(c), t))
  {}

  /** The top byte of a stepped register is zero exactly if nothing was fed
      back, and then the step was a plain shift. */
  lemma Backstep(w: Width, c: bv32)
    requires Fits(w, c)
    ensures Fits(w, Shifts(w, c, 8))
    ensures Top(w, Shifts(w, c, 8)) == 0 <==> Low(c) == 0
    ensures Low(c) == 0 ==> Shifts(w, c, 8) == Down(c) && c == Up(Shifts(w, c, 8))
  {
    hide X, Up, Low, Down, Shifts, Top, Fits, Table;
    ShiftsSplit(w, c);
    TableTop(w, Low(c));
    TopXor(w, c, Table(w, Low(c)));
    LowZero(c);
    XorZero(Down(c));
  }

  //--------------------------------------------------------------------------
  // the nibble form
  //--------------------------------------------------------------------------

  lemma NibbleTable(x: byte)
    ensures Table(W16, x) == Wide(Spread(Fold(x)))
  {
    ShiftsUnrolled(W16, Ext(x));
  }

  lemma NibbleWiden(c: bv16, d: byte)
    ensures Low(X(Wide(c), Ext(d))) == d ^ ((c & 0xFF) as byte)
    ensures Down(X(Wide(c), Ext(d))) == Wide(c >> 8)
  {}

  lemma WidenXor(c: bv16, t: bv16)
    ensures X(Wide(c), Wide(t)) == Wide(X16(c, t))
  {}

  lemma NibbleStepIsBitSteps(c: bv16, d: byte)
    ensures Wide(NibbleStep(c, d)) == Step(W16, Wide(c), d)
  {
    hide Shifts, Table, X, Down, Low, Ext, Fold, Spread, X16, Wide;
    var x := d ^ ((c & 0xFF) as byte);
    ShiftsSplit(W16, X(Wide(c), Ext(d)));
    NibbleTable(x);
    NibbleWiden(c, d);
    WidenXor(c >> 8, Spread(Fold(x)));
  }

  lemma SameBytes(c: bv16)
    ensures Le(W16, Wide(c)) == [(c & 0xFF) as byte, (c >> 8) as byte]
  {}

  //--------------------------------------------------------------------------
  // whole messages
  //--------------------------------------------------------------------------

  lemma {:induction false} FromAppend(w: Width, c: bv32, a: Bytes, b: Bytes)
    ensures From(w, c, a + b) == From(w, From(w, c, a), b)
    decreases |a|
  {
    hide Step;
    if a == [] {
      assert a + b == b;
    } else {
      assert (a + b)[1..] == a[1..] + b;
      FromAppend(w, Step(w, c, a[0]), a[1..], b);
    }
  }

  lemma {:induction false} FromFits(w: Width, c: bv32, data: Bytes)
    requires Fits(w, c)
    ensures Fits(w, From(w, c, data))
    decreases |data|
  {
    if data != [] {
      ExtFits(w, c, data[0]);
      Backstep(w, X(c, Ext(data[0])));
      hide Shifts, X, Ext, Fits;
      FromFits(w, Step(w, c, data[0]), data[1..]);
    }
  }

  lemma ExtFits(w: Width, c: bv32, d: byte)
    requires Fits(w, c)
    ensures Fits(w, X(c, Ext(d)))
  {}

  /** Both checksums are affine: the difference of two messages of one length
      runs through the register on its own. */
  lemma {:induction false} FromLinear(w: Width, c: bv32, d: bv32, a: Bytes, b: Bytes)
    requires |a| == |b|
    ensures From(w, X(c, d), Xor(a, b)) == X(From(w, c, a), From(w, d, b))
    decreases |a|
  {
    if a != [] {
      var x, y := a[0], b[0];
      assert Xor(a, b)[0] == x ^ y && Xor(a, b)[1..] == Xor(a[1..], b[1..]);
      StepLinear(w, c, d, x, y);
      hide X, Step;
      FromLinear(w, Step(w, c, x), Step(w, d, y), a[1..], b[1..]);
    }
  }

  lemma ExtXor(x: byte, y: byte)
    ensures Ext(x ^ y) == X(Ext(x), Ext(y))
  {}

  lemma StepLinear(w: Width, c: bv32, d: bv32, x: byte, y: byte)
    ensures Step(w, X(c, d), x ^ y) == X(Step(w, c, x), Step(w, d, y))
  {
    hide X, Shifts, Ext;
    ExtXor(x, y);
    XorGroup(c, d, Ext(x), Ext(y));
    ShiftsLinear(w, X(c, Ext(x)), X(d, Ext(y)), 8);
  }

  /** Feeding a register its own bytes leaves zero. */
  lemma Residue(w: Width, c: bv32)
    requires Fits(w, c)
    ensures From(w, c, Le(w, c)) == 0
  {
    hide From, Step, Seed;
    var b := Le(w, c);
    ResidueStep(w, c);
    ResidueStep(w, Down(c));
    FromCons(w, c, Low(c), b[1..]);
    FromCons(w, Down(c), Low(c >> 8), b[2..]);
    assert b == [Low(c)] + b[1..] && b[1..] == [Low(c >> 8)] + b[2..];
    if w == W16 {
      FromNone(w, Down(Down(c)));
      assert b[2..] == [] && Down(Down(c)) == 0;
    } else {
      ResidueStep(w, c >> 16);
      ResidueStep(w, c >> 24);
      FromCons(w, c >> 16, Low(c >> 16), b[3..]);
      FromCons(w, c >> 24, Low(c >> 24), b[4..]);
      assert b[2..] == [Low(c >> 16)] + b[3..] && b[3..] == [Low(c >> 24)] + b[4..] && b[4..] == [];
      DownDown(c);
      FromNone(w, 0);
    }
  }

  lemma DownDown(c: bv32)
    ensures Down(Down(c)) == c >> 16 && Down(c >> 16) == c >> 24 && Down(c >> 24) == 0
  {}

  lemma FromNone(w: Width, c: bv32)
    ensures From(w, c, []) == c
  {}

  lemma FromCons(w: Width, c: bv32, x: byte, t: Bytes)
    ensures From(w, c, [x] + t) == From(w, Step(w, c, x), t)
  {
    assert ([x] + t)[1..] == t;
  }

  lemma ResidueStep(w: Width, c: bv32)
    ensures Step(w, c, Low(c)) == Down(c)
  {}

  //--------------------------------------------------------------------------
  // bursts: a change confined to as many bytes as the checksum has is caught
  //--------------------------------------------------------------------------

  /** A short byte string as a little-endian register. */
  function Number(b: Bytes): bv32 {
    if b == [] then 0 else X(Ext(b[0]), Up(Number(b[1..])))
  }

  lemma NumberTop(w: Width, x: byte, n: bv32)
    ensures n & 0xFFFFFF00 == 0 ==> X(Ext(x), Up(n)) & 0xFFFF0000 == 0
    ensures n & 0xFFFF0000 == 0 ==> X(Ext(x), Up(n)) & 0xFF000000 == 0
    ensures n & 0xFF000000 == 0 ==> (X(Ext(x), Up(n)) == 0 <==> x == 0 && n == 0)
    ensures n == 0 ==> X(Ext(x), Up(n)) & 0xFFFFFF00 == 0
  {}

  lemma {:induction false} NumberBound(b: Bytes)
    requires |b| <= 3
    ensures |b| <= 1 ==> Number(b) & 0xFFFFFF00 == 0
    ensures |b| <= 2 ==> Number(b) & 0xFFFF0000 == 0
    ensures Number(b) & 0xFF000000 == 0
  {
    if b != [] {
      NumberBound(b[1..]);
      NumberTop(W32, b[0], Number(b[1..]));
    }
  }

  lemma {:induction false} NumberZero(b: Bytes)
    requires |b| <= 4 && Number(b) == 0
    ensures forall i | 0 <= i < |b| :: b[i] == 0
  {
    if b != [] {
      NumberBound(b[1..]);
      NumberTop(W32, b[0], Number(b[1..]));
      NumberZero(b[1..]);
      assert b == [b[0]] + b[1..];
    }
  }

  lemma TopZero(w: Width, n: bv32)
    ensures n & 0xFF000000 == 0 ==> Top(W32, n) == 0
    ensures n & 0xFFFFFF00 == 0 ==> Top(W16, n) == 0
  {}

  lemma MeetingStep(w: Width, c: bv32, d: bv32, x: byte, y: byte, n: bv32)
    requires Fits(w, c) && Fits(w, d) && Top(w, n) == 0
    requires X(Step(w, c, x), Step(w, d, y)) == n
    ensures X(c, d) == X(Ext(x ^ y), Up(n))
  {
    hide X, Shifts, Ext, Up, Top, Fits, Low;
    var p, q := X(c, Ext(x)), X(d, Ext(y));
    ExtFits(w, c, x);
    ExtFits(w, d, y);
    FitsXor(w, p, q);
    ShiftsLinear(w, p, q, 8);
    Backstep(w, X(p, q));
    assert X(p, q) == Up(n);
    ExtXor(x, y);
    XorGroup(c, Ext(x), d, Ext(y));
    Peel(X(c, d), Ext(x ^ y), Up(n));
  }

  /** If at most as many bytes as the checksum is wide bring two registers
      together, the bytes differ exactly by the difference of the registers. */
  lemma {:induction false} Meeting(w: Width, c: bv32, d: bv32, a: Bytes, b: Bytes)
    requires Fits(w, c) && Fits(w, d) && |a| == |b| <= Size(w)
    requires From(w, c, a) == From(w, d, b)
    ensures X(c, d) == Number(Xor(a, b))
    decreases |a|
  {
    hide X, Step, Ext, Up, Top, Fits;
    if a == [] {
      XorZero(c);
    } else {
      var x, y, t := a[0], b[0], Xor(a[1..], b[1..]);
      StepFits(w, c, x);
      StepFits(w, d, y);
      Meeting(w, Step(w, c, x), Step(w, d, y), a[1..], b[1..]);
      NumberTopZero(w, t);
      MeetingStep(w, c, d, x, y, Number(t));
      NumberCons(a, b);
    }
  }

  lemma NumberTopZero(w: Width, b: Bytes)
    requires |b| < Size(w)
    ensures Top(w, Number(b)) == 0
  {
    hide Top;
    NumberBound(b);
    TopZero(w, Number(b));
  }

  lemma NumberCons(a: Bytes, b: Bytes)
    requires |a| == |b| > 0
    ensures Number(Xor(a, b)) == X(Ext(a[0] ^ b[0]), Up(Number(Xor(a[1..], b[1..]))))
  {
    hide X, Up, Ext;
    assert Xor(a, b)[0] == a[0] ^ b[0] && Xor(a, b)[1..] == Xor(a[1..], b[1..]);
  }

  lemma StepFits(w: Width, c: bv32, x: byte)
    requires Fits(w, c)
    ensures Fits(w, Step(w, c, x))
  {
    ExtFits(w, c, x);
    Backstep(w, X(c, Ext(x)));
  }

  lemma FitsXor(w: Width, a: bv32, b: bv32)
    requires Fits(w, a) && Fits(w, b)
    ensures Fits(w, X(a, b))
  {}

  lemma Peel(e: bv32, x: bv32, u: bv32)
    requires X(e, x) == u
    ensures e == X(x, u)
  {}

  lemma {:induction false} SameTail(w: Width, c: bv32, d: bv32, t: Bytes)
    requires From(w, c, t) == From(w, d, t)
    requires Fits(w, c) && Fits(w, d)
    ensures c == d
    decreases |t|
  {
    if t != [] {
      var x := t[0];
      StepFits(w, c, x);
      StepFits(w, d, x);
      hide X, Step, Fits;
      SameTail(w, Step(w, c, x), Step(w, d, x), t[1..]);
      SameStep(w, c, d, x);
    }
  }

  lemma SameStep(w: Width, c: bv32, d: bv32, x: byte)
    requires Fits(w, c) && Fits(w, d) && Step(w, c, x) == Step(w, d, x)
    ensures c == d
  {
    hide X, Step, Fits, Ext;
    XorZero(Step(w, c, x));
    TopZero(w, 0);
    MeetingStep(w, c, d, x, x, 0);
    ZeroFacts(x);
    XorCommutative(c, d);
  }

  lemma ZeroFacts(x: byte)
    ensures X(Ext(x ^ x), Up(0)) == 0
  {}

  /** Two messages that differ, but only inside one window as long as the
      checksum, never have the same checksum. */
  lemma BurstDetected(w: Width, before: Bytes, a: Bytes, b: Bytes, after: Bytes)
    requires |a| == |b| <= Size(w) && a != b
    ensures CrcOf(w, before + a + after) != CrcOf(w, before + b + after)
  {
    hide X, Step, Fits;
    var c := From(w, Seed(w), before);
    var p, q := From(w, c, a), From(w, c, b);
    SeedFits(w);
    FromFits(w, Seed(w), before);
    FromFits(w, c, a);
    FromFits(w, c, b);
    FromAppend(w, Seed(w), before, a);
    FromAppend(w, Seed(w), before, b);
    FromAppend(w, Seed(w), before + a, after);
    FromAppend(w, Seed(w), before + b, after);
    FromFits(w, p, after);
    FromFits(w, q, after);
    if CrcOf(w, before + a + after) == CrcOf(w, before + b + after) {
      LeInjective(w, From(w, p, after), From(w, q, after));
      SameTail(w, p, q, after);
      Meeting(w, c, c, a, b);
      XorZero(c);
      NumberZero(Xor(a, b));
      SameBytesIfZero(a, b);
    }
  }

  lemma SameBytesIfZero(a: Bytes, b: Bytes)
    requires |a| == |b| && forall i | 0 <= i < |a| :: Xor(a, b)[i] == 0
    ensures a == b
  {
    forall i | 0 <= i < |a| ensures a[i] == b[i] {
      assert Xor(a, b)[i] == a[i] ^ b[i];
    }
  }

  lemma SeedFits(w: Width)
    ensures Fits(w, Seed(w))
  {}

  lemma LeInjective(w: Width, c: bv32, d: bv32)
    requires Fits(w, c) && Fits(w, d) && Le(w, c) == Le(w, d)
    ensures c == d
  {
    if w == W16 {
      assert Low(c) == Low(d) && Low(c >> 8) == Low(d >> 8);
    } else {
      var p, q := Le(w, c), Le(w, d);
      assert p[0] == q[0] && p[1] == q[1] && p[2] == q[2] && p[3] == q[3];
    }
  }
}
