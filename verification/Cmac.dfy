/** CMAC (NIST SP 800-38B), with the starting chaining value and the minimum
    message length that nxpsc_cmac adds. */
module Cmac {
  import opened ByteStrings
  import opened Ciphers
  import Cbc

  //--------------------------------------------------------------------------
  // subkeys: doubling in GF(2^64) and GF(2^128), section 6.1
  //--------------------------------------------------------------------------

  // One byte, halved, doubled, and its lowest and highest bit.
  function Half(b: byte): byte { b >> 1 }
  function Twice(b: byte, carry: bool): byte { (b << 1) | (if carry then 1 else 0) }
  function Low(b: byte): nat { if b & 1 != 0 then 1 else 0 }
  predicate Top(b: byte) { b & 0x80 != 0 }

  /** `s` shifted left by one bit, `carry` coming in at the right. */
  function ShiftIn(s: Bytes, carry: bool): (r: Bytes)
    ensures |r| == |s|
  {
    if s == [] then []
    else
      var n := |s| - 1;
      ShiftIn(s[..n], Top(s[n])) + [Twice(s[n], carry)]
  }

  function Reduction(n: nat): byte {
    if n == 8 then 0x1B else 0x87
  }

  function Double(s: Bytes): (r: Bytes)
    requires |s| > 0
    ensures |r| == |s|
  {
    var t := ShiftIn(s, false);
    if Top(s[0]) then t[|t| - 1 := X8(t[|t| - 1], Reduction(|s|))] else t
  }

  function Subkeys(c: Cipher): (k: (Bytes, Bytes))
    ensures |k.0| == |k.1| == Block(c)
  {
    var k1 := Double(Ecb(c, Zeros(Block(c)), true));
    (k1, Double(k1))
  }

  function Pow256(n: nat): nat {
    if n == 0 then 1 else 256 * Pow256(n - 1)
  }

  /** Addition of polynomials over GF(2), coefficients as the bits of a number. */
  function Add2(a: nat, b: nat): nat {
    if a == 0 && b == 0 then 0
    else 2 * Add2(a / 2, b / 2) + (if a % 2 != b % 2 then 1 else 0)
  }

  //--------------------------------------------------------------------------
  // the byte operations as arithmetic
  //--------------------------------------------------------------------------

  lemma TwiceNum(l: byte, carry: bool)
    ensures 2 * Num(l) + (if carry then 1 else 0) == (if Top(l) then 256 else 0) + Num(Twice(l, carry))
  {}

  lemma HalfNum(x: byte)
    ensures Num(x) == 2 * Num(Half(x)) + Low(x)
    ensures Num(0) == 0
  {}

  lemma XorNum(x: byte, y: byte)
    ensures Half(X8(x, y)) == X8(Half(x), Half(y))
    ensures Low(X8(x, y)) == if Low(x) != Low(y) then 1 else 0
  {}

  lemma EightHalves(x: byte)
    ensures Half(Half(Half(Half(Half(Half(Half(Half(x)))))))) == 0
  {}

  lemma X8Zero(x: byte)
    ensures X8(x, 0) == x
  {}

  function TopWeight(s: Bytes): nat {
    if s != [] && Top(s[0]) then Pow256(|s|) else 0
  }

  lemma {:induction false} ShiftInValue(s: Bytes, carry: bool)
    requires s != []
    ensures Value(ShiftIn(s, carry)) + TopWeight(s) == 2 * Value(s) + (if carry then 1 else 0)
    decreases |s|
  {
    hide Num, Twice, Top;
    var n := |s| - 1;
    var l, t := s[n], ShiftIn(s[..n], Top(s[n]));
    TwiceNum(l, carry);
    ValueSnoc(t, Twice(l, carry));
    if n == 0 {
      assert t == [] && Pow256(1) == 256 * Pow256(0) == 256;
      assert s[..n] == [];
    } else {
      ShiftInValue(s[..n], Top(l));
      assert TopWeight(s) == 256 * TopWeight(s[..n]);
    }
  }

  lemma AddStep(a: nat, b: nat, s: nat, hx: nat, lx: nat, hy: nat, ly: nat, hz: nat)
    requires lx <= 1 && ly <= 1 && Add2(a + hx, b + hy) == s + hz
    ensures Add2(2 * a + (2 * hx + lx), 2 * b + (2 * hy + ly)) == 2 * s + (2 * hz + if lx != ly then 1 else 0)
  {
    var p, q := 2 * a + (2 * hx + lx), 2 * b + (2 * hy + ly);
    assert p / 2 == a + hx && p % 2 == lx;
    assert q / 2 == b + hy && q % 2 == ly;
  }

  lemma AddHalf(a: nat, b: nat, s: nat, x: byte, y: byte)
    requires Add2(a + Num(Half(x)), b + Num(Half(y))) == s + Num(X8(Half(x), Half(y)))
    ensures Add2(2 * a + Num(x), 2 * b + Num(y)) == 2 * s + Num(X8(x, y))
  {
    hide *;
    HalfNum(x);
    HalfNum(y);
    HalfNum(X8(x, y));
    XorNum(x, y);
    LowBit(x);
    LowBit(y);
    AddStep(a, b, s, Num(Half(x)), Low(x), Num(Half(y)), Low(y), Num(X8(Half(x), Half(y))));
  }

  lemma LowBit(x: byte)
    ensures Low(x) == 0 || Low(x) == 1
  {}

  /** Adding polynomials byte by byte. */
  lemma AddByte(a: nat, b: nat, x: byte, y: byte)
    ensures Add2(256 * a + Num(x), 256 * b + Num(y)) == 256 * Add2(a, b) + Num(X8(x, y))
  {
    hide Num, Half, X8, Low, Add2;
    EightHalves(x); EightHalves(y); HalfNum(0); X8Zero(0);
    var s := Add2(a, b);
    var x1, y1 := Half(x), Half(y);
    var x2, y2 := Half(x1), Half(y1);
    var x3, y3 := Half(x2), Half(y2);
    var x4, y4 := Half(x3), Half(y3);
    var x5, y5 := Half(x4), Half(y4);
    var x6, y6 := Half(x5), Half(y5);
    var x7, y7 := Half(x6), Half(y6);
    AddHalf(a, b, s, x7, y7);
    AddHalf(2 * a, 2 * b, 2 * s, x6, y6);
    AddHalf(4 * a, 4 * b, 4 * s, x5, y5);
    AddHalf(8 * a, 8 * b, 8 * s, x4, y4);
    AddHalf(16 * a, 16 * b, 16 * s, x3, y3);
    AddHalf(32 * a, 32 * b, 32 * s, x2, y2);
    AddHalf(64 * a, 64 * b, 64 * s, x1, y1);
    AddHalf(128 * a, 128 * b, 128 * s, x, y);
  }

  lemma {:induction false} CancelTop(n: nat, h: nat)
    requires h < Pow256(n)
    ensures Add2(Pow256(n) + h, Pow256(n)) == h
    decreases n
  {
    hide Num, X8, Add2;
    if n == 0 {
      AddOne();
    } else {
      var g := h / 256;
      var l := Byte(h % 256);
      CancelTop(n - 1, g);
      AddByte(Pow256(n - 1) + g, Pow256(n - 1), l, 0);
      X8Zero(l);
      HalfNum(0);
    }
  }

  lemma AddOne()
    ensures Add2(1, 1) == 0
  {
    assert Add2(1, 1) == 2 * Add2(0, 0);
  }

  lemma {:induction false} ValueBound(s: Bytes)
    ensures Value(s) < Pow256(|s|)
  {
    hide Num;
    if s != [] {
      ValueBound(s[..|s| - 1]);
    }
  }

  lemma ReduceLast(i: Bytes, l: byte, r: byte, v: nat)
    requires Value(i + [l]) + Pow256(|i| + 1) == 2 * v
    ensures Value(i + [X8(l, r)]) == Add2(2 * v, Pow256(|i| + 1) + Num(r))
  {
    hide Num, X8, Add2, Value;
    ValueBound(i);
    CancelTop(|i|, Value(i));
    ValueSnoc(i, l);
    ValueSnoc(i, X8(l, r));
    AddByte(Pow256(|i|) + Value(i), Pow256(|i|), l, r);
  }

  /** Only the last byte is reduced. */
  lemma DoubleParts(s: Bytes)
    requires |s| > 0
    ensures var t, n := ShiftIn(s, false), |s| - 1;
            Double(s) == if Top(s[0]) then t[..n] + [X8(t[n], Reduction(|s|))] else t
  {
    hide ShiftIn, X8, Top, Reduction;
  }

  lemma Reduced(s: Bytes, t: Bytes)
    requires |s| == |t| > 0 && Value(t) + Pow256(|s|) == 2 * Value(s)
    ensures Value(t[..|t| - 1] + [X8(t[|t| - 1], Reduction(|s|))]) == Add2(2 * Value(s), Pow256(|s|) + Num(Reduction(|s|)))
  {
    hide Num, X8, Add2, Value, Pow256, Reduction;
    var i := t[..|t| - 1];
    assert |i| + 1 == |s| && t == i + [t[|t| - 1]];
    ReduceLast(i, t[|t| - 1], Reduction(|s|), Value(s));
  }

  lemma TopBit(s: Bytes)
    requires |s| > 0
    ensures var t := ShiftIn(s, false);
            if Top(s[0]) then Value(t) + Pow256(|s|) == 2 * Value(s) else Value(t) == 2 * Value(s) < Pow256(|s|)
    ensures Top(s[0]) ==> 2 * Value(s) >= Pow256(|s|)
  {
    hide Num, Top, ShiftIn, Value, Pow256;
    ShiftInValue(s, false);
    ValueBound(ShiftIn(s, false));
  }

  /** The lower terms of x^64 + x^4 + x^3 + x + 1 and x^128 + x^7 + x^2 + x + 1. */
  lemma Polynomials()
    ensures Num(Reduction(8)) == 0x1B && Num(Reduction(16)) == 0x87
  {}

  /** Section 6.1: the byte-wise shift with its conditional exclusive or doubles
      the big-endian number modulo x^64 + x^4 + x^3 + x + 1, or modulo
      x^128 + x^7 + x^2 + x + 1, as polynomials over GF(2). */
  lemma DoubleIsFieldDoubling(s: Bytes)
    requires |s| == 8 || |s| == 16
    ensures var top, d := Pow256(|s|), 2 * Value(s);
            Value(Double(s)) == if d < top then d else Add2(d, top + (if |s| == 8 then 0x1B else 0x87))
  {
    hide Num, X8, Top, Add2, ShiftIn, Value, Pow256, Double, Reduction;
    Polynomials();
    DoubleParts(s);
    TopBit(s);
    if Top(s[0]) {
      Reduced(s, ShiftIn(s, false));
    }
  }

  //--------------------------------------------------------------------------
  // MAC generation, section 6.2
  //--------------------------------------------------------------------------

  /** C_i = CIPH(C_{i-1} xor M_i), from C_0 = `iv`. */
  function Chain(c: Cipher, iv: Bytes, m: Bytes): (r: Bytes)
    requires |iv| == Block(c) && Cbc.Whole(c, m)
    ensures |r| == Block(c)
    decreases |m|
  {
    if m == [] then iv else Chain(c, Ecb(c, Xor(m[..Block(c)], iv), true), m[Block(c)..])
  }

  /** A complete message of at least `minLen` bytes is masked with K1; any other
      is padded with 10* to whole blocks and at least `minLen` bytes, and
      masked with K2. */
  predicate Complete(c: Cipher, m: Bytes, minLen: nat) {
    |m| > 0 && Cbc.Whole(c, m) && |m| >= minLen
  }

  function PaddedSize(c: Cipher, len: nat, minLen: nat): (n: nat)
    ensures n >= len + 1 && n >= minLen && n % Block(c) == 0 && n >= Block(c)
  {
    RoundUp(Max(len + 1, minLen), Block(c))
  }

  /** nxpsc_padded_len. */
  function RoundUp(len: nat, block: nat): (n: nat)
    requires block == 8 || block == 16
    ensures len <= n < len + block && n % block == 0
  {
    Multiples(len / 8 + if len % 8 != 0 then 1 else 0);
    Multiples(len / 16 + if len % 16 != 0 then 1 else 0);
    if block == 8 then (len / 8 + if len % 8 != 0 then 1 else 0) * 8
    else (len / 16 + if len % 16 != 0 then 1 else 0) * 16
  }

  lemma Multiples(q: nat)
    ensures (q * 8) % 8 == 0 && (q * 16) % 16 == 0
  {}

  function Padded(c: Cipher, m: Bytes, minLen: nat): (p: Bytes)
    ensures |p| == PaddedSize(c, |m|, minLen)
  {
    m + [0x80] + Zeros(PaddedSize(c, |m|, minLen) - |m| - 1)
  }

  /** The MAC of whole blocks whose last one is masked with `k`. */
  function Masked(c: Cipher, iv: Bytes, m: Bytes, k: Bytes): (t: Bytes)
    requires |iv| == |k| == Block(c) && Cbc.Whole(c, m) && |m| >= Block(c)
    ensures |t| == Block(c)
  {
    var h := |m| - Block(c);
    Ecb(c, Xor(Xor(m[h..], k), Chain(c, iv, m[..h])), true)
  }

  /** nxpsc_cmac: the MAC of `m` started from the chaining value `iv`. */
  function MacOf(c: Cipher, iv: Bytes, m: Bytes, minLen: nat): (t: Bytes)
    requires |iv| == Block(c)
    ensures |t| == Block(c)
  {
    if Complete(c, m, minLen) then Masked(c, iv, m, Subkeys(c).0)
    else Masked(c, iv, Padded(c, m, minLen), Subkeys(c).1)
  }

  /** The odd bytes of a 16-byte MAC (nxpsc_truncate_mac). */
  function Truncated(mac: Bytes): (t: Bytes)
    requires |mac| == 16
    ensures |t| == 8
  {
    seq(8, i requires 0 <= i < 8 => mac[2 * i + 1])
  }

  /** The odd bytes, counted from zero. */
  lemma TruncatedOdd(mac: Bytes)
    requires |mac| == 16
    ensures Truncated(mac) == [mac[1], mac[3], mac[5], mac[7], mac[9], mac[11], mac[13], mac[15]]
  {}

  //--------------------------------------------------------------------------
  // section 6.2, in its own terms
  //--------------------------------------------------------------------------

  /** Whole blocks in front only move the chaining value. */
  lemma {:induction false} FrontMovesChain(c: Cipher, iv: Bytes, a: Bytes, b: Bytes)
    requires |iv| == Block(c) && |a| == Block(c) && b != []
    ensures MacOf(c, iv, a + b, 0) == MacOf(c, Ecb(c, Xor(a, iv), true), b, 0)
  {
    hide Ecb, Xor, Double;
    var m, n := a + b, Block(c);
    var next := Ecb(c, Xor(a, iv), true);
    Cbc.WholeAdd(c, a, b);
    if Complete(c, b, 0) {
      FrontMasked(c, iv, a, b, Subkeys(c).0);
    } else {
      var p := Padded(c, b, 0);
      PaddedBehind(c, a, b);
      FrontMasked(c, iv, a, p, Subkeys(c).1);
    }
  }

  lemma PaddedBehind(c: Cipher, a: Bytes, b: Bytes)
    requires |a| == Block(c)
    ensures Padded(c, a + b, 0) == a + Padded(c, b, 0)
  {
    hide PaddedSize;
    SizeBehind(c, |b|);
    var z := PaddedSize(c, |b|, 0) - |b| - 1;
    assert a + b + [0x80] + Zeros(z) == a + (b + [0x80] + Zeros(z));
  }

  lemma SizeBehind(c: Cipher, n: nat)
    ensures PaddedSize(c, Block(c) + n, 0) == Block(c) + PaddedSize(c, n, 0)
  {
    hide RoundUp;
    RoundUpBehind(n + 1, Block(c));
  }

  lemma RoundUpBehind(n: nat, block: nat)
    requires block == 8 || block == 16
    ensures RoundUp(block + n, block) == block + RoundUp(n, block)
  {
    hide RoundUp;
    var x, y := RoundUp(block + n, block), RoundUp(n, block);
    if block == 8 { assert x / 8 * 8 == x && y / 8 * 8 == y; } else { assert x / 16 * 16 == x && y / 16 * 16 == y; }
  }

  lemma FrontMasked(c: Cipher, iv: Bytes, a: Bytes, b: Bytes, k: Bytes)
    requires |iv| == |a| == |k| == Block(c) && Cbc.Whole(c, b) && |b| >= Block(c)
    ensures Cbc.Whole(c, a + b) && Masked(c, iv, a + b, k) == Masked(c, Ecb(c, Xor(a, iv), true), b, k)
  {
    hide Ecb, Xor;
    Cbc.WholeAdd(c, a, b);
    WholeFront(c, b);
    var m, h := a + b, |b| - Block(c);
    assert m[|m| - Block(c)..] == b[h..];
    assert m[..|m| - Block(c)] == a + b[..h];
    assert (a + b[..h])[..Block(c)] == a && (a + b[..h])[Block(c)..] == b[..h];
  }

  /** The last block: a whole one is masked with the doubled enciphered zero
      block, a shorter one is followed by 0x80 and zeros and masked with that
      doubled again. */
  lemma LastBlock(c: Cipher, iv: Bytes, m: Bytes)
    requires |iv| == Block(c) && |m| <= Block(c)
    ensures var l := Ecb(c, Zeros(Block(c)), true);
            MacOf(c, iv, m, 0)
            == Ecb(c, Xor(if |m| == Block(c) then Xor(m, Double(l))
                          else Xor(m + [0x80] + Zeros(Block(c) - |m| - 1), Double(Double(l))), iv), true)
  {
    hide Ecb, Xor, Double;
    if |m| < Block(c) {
      OneBlockPadded(c, |m|);
      var p := Padded(c, m, 0);
      assert p[0..] == p && p[..0] == [];
    } else {
      assert m[0..] == m && m[..0] == [];
    }
  }

  lemma OneBlockPadded(c: Cipher, n: nat)
    requires n < Block(c)
    ensures PaddedSize(c, n, 0) == Block(c)
    ensures n > 0 ==> n % Block(c) != 0
  {}

  //--------------------------------------------------------------------------
  // what a MAC tells apart, under every key
  //--------------------------------------------------------------------------

  lemma XorInjective(a: Bytes, b: Bytes, k: Bytes)
    requires |a| == |b| == |k| && a != b
    ensures Xor(a, k) != Xor(b, k)
  {
    XorSelf(a, k);
    XorSelf(b, k);
  }

  lemma BlockDiffers(c: Cipher, x: Bytes, y: Bytes, iv: Bytes, jv: Bytes)
    requires |x| == |y| == |iv| == |jv| == Block(c) && (x == y <==> iv != jv)
    ensures Ecb(c, Xor(x, iv), true) != Ecb(c, Xor(y, jv), true)
  {
    hide Ecb, Xor;
    if x == y {
      XorInjective(iv, jv, x);
      XorSelf(x, iv);
      XorSelf(x, jv);
    } else {
      XorInjective(x, y, iv);
    }
    EcbInverse(c, Xor(x, iv), true);
    EcbInverse(c, Xor(y, jv), true);
  }

  /** From different chaining values the same message has different MACs. */
  lemma {:induction false} IvTells(c: Cipher, iv: Bytes, jv: Bytes, m: Bytes)
    requires |iv| == |jv| == Block(c) && iv != jv
    ensures MacOf(c, iv, m, 0) != MacOf(c, jv, m, 0)
    decreases |m|
  {
    hide Ecb, Xor, Double, MacOf;
    var n, l := Block(c), Ecb(c, Zeros(Block(c)), true);
    if |m| <= n {
      LastBlock(c, iv, m);
      LastBlock(c, jv, m);
      var x := if |m| == n then Xor(m, Double(l)) else Xor(m + [0x80] + Zeros(n - |m| - 1), Double(Double(l)));
      BlockDiffers(c, x, x, iv, jv);
    } else {
      var a, b := m[..n], m[n..];
      assert m == a + b;
      FrontMovesChain(c, iv, a, b);
      FrontMovesChain(c, jv, a, b);
      BlockDiffers(c, a, a, iv, jv);
      Cbc.SomeBlock(c);
      IvTells(c, Ecb(c, Xor(a, iv), true), Ecb(c, Xor(a, jv), true), b);
    }
  }

  lemma ShortTells(c: Cipher, iv: Bytes, m: Bytes, n: Bytes)
    requires |iv| == Block(c) && |m| == |n| <= Block(c) && m != n
    ensures MacOf(c, iv, m, 0) != MacOf(c, iv, n, 0)
  {
    hide Ecb, Xor, Double, MacOf;
    var l := Ecb(c, Zeros(Block(c)), true);
    LastBlock(c, iv, m);
    LastBlock(c, iv, n);
    if |m| == Block(c) {
      XorInjective(m, n, Double(l));
      BlockDiffers(c, Xor(m, Double(l)), Xor(n, Double(l)), iv, iv);
    } else {
      var p, q := m + [0x80] + Zeros(Block(c) - |m| - 1), n + [0x80] + Zeros(Block(c) - |m| - 1);
      assert p[..|m|] == m && q[..|m|] == n;
      XorInjective(p, q, Double(Double(l)));
      BlockDiffers(c, Xor(p, Double(Double(l))), Xor(q, Double(Double(l))), iv, iv);
    }
  }

  /** Messages of one length that differ only within one block have different MACs. */
  lemma {:induction false} BlockTells(c: Cipher, iv: Bytes, front: Bytes, m: Bytes, n: Bytes)
    requires |iv| == Block(c) && Cbc.Whole(c, front) && |m| == |n| && m != n
    requires |m| > Block(c) ==> m[Block(c)..] == n[Block(c)..]
    ensures MacOf(c, iv, front + m, 0) != MacOf(c, iv, front + n, 0)
    decreases |front|
  {
    hide Ecb, Xor, MacOf, Cbc.Whole;
    var b := Block(c);
    Cbc.SomeBlock(c);
    if front != [] {
      FirstWhole(c, front);
      var a, rest := front[..b], front[b..];
      assert front + m == a + (rest + m) && front + n == a + (rest + n);
      FrontMovesChain(c, iv, a, rest + m);
      FrontMovesChain(c, iv, a, rest + n);
      BlockTells(c, Ecb(c, Xor(a, iv), true), rest, m, n);
    } else {
      assert front + m == m && front + n == n;
      if |m| <= b {
        ShortTells(c, iv, m, n);
      } else {
        var tail := m[b..];
        assert m == m[..b] + tail && n == n[..b] + tail;
        FrontMovesChain(c, iv, m[..b], tail);
        FrontMovesChain(c, iv, n[..b], tail);
        BlockDiffers(c, m[..b], n[..b], iv, iv);
        IvTells(c, Ecb(c, Xor(m[..b], iv), true), Ecb(c, Xor(n[..b], iv), true), tail);
      }
    }
  }

  lemma FirstWhole(c: Cipher, front: Bytes)
    requires Cbc.Whole(c, front) && front != []
    ensures |front| >= Block(c) && Cbc.Whole(c, front[Block(c)..])
  {
    if Block(c) == 8 {} else {}
  }

  /** So have messages that differ in their last byte. */
  lemma LastByteTells(c: Cipher, iv: Bytes, a: Bytes, x: byte, y: byte)
    requires |iv| == Block(c) && x != y
    ensures MacOf(c, iv, a + [x], 0) != MacOf(c, iv, a + [y], 0)
  {
    hide MacOf;
    var k := |a| / Block(c) * Block(c);
    LastStart(c, |a|);
    var front, rest := a[..k], a[k..];
    assert (rest + [x])[|rest|] == x && (rest + [y])[|rest|] == y;
    assert a + [x] == front + (rest + [x]) && a + [y] == front + (rest + [y]);
    BlockTells(c, iv, front, rest + [x], rest + [y]);
  }

  lemma LastStart(c: Cipher, n: nat)
    ensures var k := n / Block(c) * Block(c); k <= n < k + Block(c) && k % Block(c) == 0
  {
    if Block(c) == 8 {} else {}
  }

  lemma {:induction false} ChainIsCbc(c: Cipher, iv: Bytes, m: Bytes)
    requires |iv| == Block(c) && Cbc.Whole(c, m)
    ensures Chain(c, iv, m) == Cbc.Run(c, iv, m, true, true).1
    decreases |m|
  {
    if m != [] {
      ChainIsCbc(c, Ecb(c, Xor(m[..Block(c)], iv), true), m[Block(c)..]);
    }
  }

  /** Masking the last block in the buffer and running CBC over it. */
  lemma MaskedIsCbc(c: Cipher, iv: Bytes, m: Bytes, k: Bytes)
    requires |iv| == |k| == Block(c) && Cbc.Whole(c, m) && |m| >= Block(c)
    ensures var h := |m| - Block(c);
            && Cbc.Whole(c, m[..h] + Xor(m[h..], k))
            && Cbc.Run(c, iv, m[..h] + Xor(m[h..], k), true, true).1 == Masked(c, iv, m, k)
  {
    hide Ecb, Chain, Cbc.Run, Xor;
    var h := |m| - Block(c);
    var last := Xor(m[h..], k);
    WholeFront(c, m);
    Cbc.Split(c, iv, m[..h], last, true, true);
    ChainIsCbc(c, iv, m[..h]);
    OneBlock(c, Cbc.Run(c, iv, m[..h], true, true).1, last);
  }

  lemma WholeFront(c: Cipher, m: Bytes)
    requires Cbc.Whole(c, m) && |m| >= Block(c)
    ensures Cbc.Whole(c, m[..|m| - Block(c)])
  {
    if Block(c) == 8 {} else {}
  }

  lemma OneBlock(c: Cipher, iv: Bytes, b: Bytes)
    requires |iv| == |b| == Block(c)
    ensures Cbc.Whole(c, b) && Cbc.Run(c, iv, b, true, true).1 == Ecb(c, Xor(b, iv), true)
  {
    hide Ecb, Xor;
    assert b[..Block(c)] == b && b[Block(c)..] == [];
    Cbc.RunEmpty(c, Ecb(c, Xor(b, iv), true), true, true);
  }

  lemma DegradedMasked(p: Primitives, k: Bytes, iv: Bytes, m: Bytes, mask: Bytes)
    requires |k| == 8 && |iv| == |mask| == 8 && |m| % 8 == 0 && |m| >= 8
    ensures Masked(RawCipher(p, TwoKeyTdea, k + k), iv, m, mask) == Masked(RawCipher(p, DES, k), iv, m, mask)
  {
    hide Ecb, Chain;
    var h := |m| - 8;
    DegradedChain(p, k, iv, m[..h]);
    DegradedBlock(p, k, Xor(Xor(m[h..], mask), Chain(RawCipher(p, DES, k), iv, m[..h])), true);
  }

  /** A two-key TDEA key with equal halves gives the MACs of the DES key. */
  lemma DegradedMac(p: Primitives, k: Bytes, iv: Bytes, m: Bytes, minLen: nat)
    requires |k| == 8 && |iv| == 8
    ensures MacOf(RawCipher(p, TwoKeyTdea, k + k), iv, m, minLen) == MacOf(RawCipher(p, DES, k), iv, m, minLen)
  {
    hide Ecb, Masked, Double;
    var c := RawCipher(p, TwoKeyTdea, k + k);
    DegradedBlock(p, k, Zeros(8), true);
    assert Subkeys(c) == Subkeys(RawCipher(p, DES, k));
    if Complete(c, m, minLen) {
      DegradedMasked(p, k, iv, m, Subkeys(c).0);
    } else {
      DegradedMasked(p, k, iv, Padded(c, m, minLen), Subkeys(c).1);
    }
  }

  lemma {:induction false} DegradedChain(p: Primitives, k: Bytes, iv: Bytes, m: Bytes)
    requires |k| == 8 && |iv| == 8 && |m| % 8 == 0
    ensures Chain(RawCipher(p, TwoKeyTdea, k + k), iv, m) == Chain(RawCipher(p, DES, k), iv, m)
    decreases |m|
  {
    if m != [] {
      DegradedBlock(p, k, Xor(m[..8], iv), true);
      DegradedChain(p, k, Ecb(RawCipher(p, DES, k), Xor(m[..8], iv), true), m[8..]);
    }
  }

  //--------------------------------------------------------------------------
  // the code
  //--------------------------------------------------------------------------

  lemma {:induction false} ShiftInAt(s: Bytes, carry: bool, i: nat)
    requires i < |s|
    ensures ShiftIn(s, carry)[i] == Twice(s[i], if i + 1 < |s| then Top(s[i + 1]) else carry)
    decreases |s|
  {
    if i + 1 < |s| {
      ShiftInAt(s[..|s| - 1], Top(s[|s| - 1]), i);
    }
  }

  lemma TwiceBits(a: byte, b: byte)
    ensures (a << 1) | (b >> 7) == Twice(a, Top(b))
    ensures a << 1 == Twice(a, false)
  {}

  /** shift_left. */
  method ShiftLeft(data: array<byte>)
    requires data.Length > 0
    modifies data
    ensures data[..] == ShiftIn(old(data[..]), false)
  {
    hide Twice, Top;
    var n := data.Length;
    for i := 0 to n - 1
      invariant forall j | 0 <= j < n ::
          data[j] == if j < i then Twice(old(data[j]), Top(old(data[j + 1]))) else old(data[j])
    {
      TwiceBits(data[i], data[i + 1]);
      data[i] := (data[i] << 1) | (data[i + 1] >> 7);
    }
    TwiceBits(data[n - 1], 0);
    data[n - 1] := data[n - 1] << 1;
    forall j | 0 <= j < n ensures data[j] == ShiftIn(old(data[..]), false)[j] {
      ShiftInAt(old(data[..]), false, j);
    }
  }

  /** Doubling as nxpsc_cmac_subkeys does it, in place. */
  method DoubleInPlace(l: array<byte>)
    requires l.Length > 0
    modifies l
    ensures l[..] == Double(old(l[..]))
  {
    hide ShiftIn, Reduction;
    var carry := l[0] & 0x80 != 0;
    ShiftLeft(l);
    if carry {
      l[l.Length - 1] := l[l.Length - 1] ^ Reduction(l.Length);
    }
  }

  /** nxpsc_cmac_subkeys. */
  method SubkeysInto(c: Cipher, sk1: array<byte>, sk2: array<byte>)
    requires sk1 != sk2 && sk1.Length == sk2.Length == Block(c)
    modifies sk1, sk2
    ensures (sk1[..], sk2[..]) == Subkeys(c)
  {
    hide Double;
    var n := Block(c);
    var l := Calloc(n);
    assert l[0..n] == Zeros(n);
    var ok := Cbc.CryptInto(c, null, l, 0, n, l, 0, true, true);
    FirstBlock(c);
    SpliceAll(Zeros(n), Ecb(c, Zeros(n), true));
    assert l[..] == Ecb(c, Zeros(n), true);
    Blit(sk1, 0, l[..]);
    assert sk1[..] == l[..];
    DoubleInPlace(sk1);
    Blit(sk2, 0, sk1[..]);
    assert sk2[..] == sk1[..];
    DoubleInPlace(sk2);
  }

  lemma FirstBlock(c: Cipher)
    ensures Cbc.Whole(c, Zeros(Block(c)))
    ensures Cbc.Run(c, Zeros(Block(c)), Zeros(Block(c)), true, true).0 == Ecb(c, Zeros(Block(c)), true)
  {
    var z := Zeros(Block(c));
    assert z[..Block(c)] == z && z[Block(c)..] == [] && Xor(z, z) == z;
    assert Cbc.Output(c, z, z, true, true) == Ecb(c, z, true);
  }

  lemma PaddedSizeLeast(c: Cipher, len: nat, minLen: nat, n: nat)
    requires n >= len + 1 && n >= minLen && n % Block(c) == 0
    ensures n >= PaddedSize(c, len, minLen)
  {
    if Block(c) == 8 {} else {}
  }

  lemma BufferFits(c: Cipher, len: nat, minLen: nat)
    ensures PaddedSize(c, len, minLen) <= ((Max(minLen, len) + 1 + Block(c) - 1) / Block(c)) * Block(c)
  {
    if Block(c) == 8 {} else {}
  }

  /** The message as nxpsc_cmac lays it out, before the last block is masked. */
  function Laid(c: Cipher, m: Bytes, minLen: nat): (p: Bytes)
    ensures Cbc.Whole(c, p) && |p| >= Block(c)
  {
    if Complete(c, m, minLen) then m else Padded(c, m, minLen)
  }

  function MaskOf(c: Cipher, m: Bytes, minLen: nat): (k: Bytes)
    ensures |k| == Block(c)
  {
    if Complete(c, m, minLen) then Subkeys(c).0 else Subkeys(c).1
  }

  lemma Choice(c: Cipher, m: Bytes, minLen: nat)
    ensures if |m| == 0 || |m| % Block(c) != 0 || |m| < minLen
            then Laid(c, m, minLen) == Padded(c, m, minLen) && MaskOf(c, m, minLen) == Subkeys(c).1
                 && |Padded(c, m, minLen)| == PaddedSize(c, |m|, minLen)
            else Laid(c, m, minLen) == m && MaskOf(c, m, minLen) == Subkeys(c).0
  {
    hide Subkeys, PaddedSize;
  }

  lemma RoomForMessage(c: Cipher, len: nat, want: nat)
    requires len <= want
    ensures ((want + 1 + Block(c) - 1) / Block(c)) * Block(c) >= len
  {
    if Block(c) == 8 {} else {}
  }

  method LayOut(c: Cipher, data: Bytes, minLen: nat) returns (buffer: array<byte>, mlen: nat)
    ensures fresh(buffer) && mlen <= buffer.Length && mlen == |Laid(c, data, minLen)|
    ensures buffer[..mlen] == Laid(c, data, minLen)[..mlen - Block(c)]
                              + Xor(Laid(c, data, minLen)[mlen - Block(c)..], MaskOf(c, data, minLen))
  {
    hide Subkeys, Padded, Xor, PaddedSize, Laid, MaskOf;
    var n := Block(c);
    Choice(c, data, minLen);
    var want := if minLen > |data| then minLen else |data|;
    buffer := Calloc(((want + 1 + n - 1) / n) * n);
    BufferFits(c, |data|, minLen);
    RoomForMessage(c, |data|, want);
    var sk1 := Calloc(n);
    var sk2 := Calloc(n);
    SubkeysInto(c, sk1, sk2);
    Blit(buffer, 0, data);
    mlen := |data|;
    assert buffer[..mlen] == data;
    var mask := sk1[..];
    if mlen == 0 || mlen % n != 0 || mlen < minLen {
      mlen := PadBuffer(c, buffer, data, minLen);
      mask := sk2[..];
    }
    MaskLast(c, buffer, mlen, mask);
  }

  method MaskLast(c: Cipher, buffer: array<byte>, mlen: nat, mask: Bytes)
    requires |mask| == Block(c) <= mlen <= buffer.Length
    modifies buffer
    ensures buffer[..mlen] == old(buffer[..mlen - Block(c)]) + Xor(old(buffer[mlen - Block(c)..mlen]), mask)
  {
    XorInto(buffer, mlen - Block(c), mask);
  }

  /** nxpsc_cmac. A null `iv` stands for zeros; otherwise it receives the MAC. */
  method Mac(c: Cipher, iv: array?<byte>, data: Bytes, minLen: nat) returns (mac: Bytes)
    requires iv != null ==> iv.Length >= Block(c)
    modifies iv
    ensures mac == MacOf(c, if iv == null then Zeros(Block(c)) else old(iv[..Block(c)]), data, minLen)
    ensures iv != null ==> iv[..] == Splice(old(iv[..]), 0, mac)
  {
    hide Subkeys, Masked, Cbc.Run, Padded;
    var n := Block(c);
    var buffer, mlen := LayOut(c, data, minLen);
    var useiv := iv;
    if iv == null {
      useiv := Calloc(n);
    }
    ghost var before := useiv[..];
    assert iv == null ==> before[..n] == Zeros(n);
    assert buffer[0..mlen] == buffer[..mlen];
    MaskedIsCbc(c, before[..n], Laid(c, data, minLen), MaskOf(c, data, minLen));
    var ok := Cbc.CryptInto(c, useiv, buffer, 0, mlen, buffer, 0, true, true);
    mac := useiv[..n];
    SpliceAt(before, 0, MacOf(c, before[..n], data, minLen));
  }

  method PadBuffer(c: Cipher, buffer: array<byte>, data: Bytes, minLen: nat) returns (mlen: nat)
    requires PaddedSize(c, |data|, minLen) <= buffer.Length && buffer[..|data|] == data
    modifies buffer
    ensures mlen == PaddedSize(c, |data|, minLen) && buffer[..mlen] == Padded(c, data, minLen)
  {
    var n := Block(c);
    mlen := |data|;
    buffer[mlen] := 0x80;
    mlen := mlen + 1;
    while mlen % n != 0 || mlen < minLen
      invariant |data| < mlen <= PaddedSize(c, |data|, minLen)
      invariant buffer[..mlen] == data + [0x80] + Zeros(mlen - |data| - 1)
      decreases PaddedSize(c, |data|, minLen) - mlen
    {
      buffer[mlen] := 0x00;
      mlen := mlen + 1;
    }
    PaddedSizeLeast(c, |data|, minLen, mlen);
  }
}
