/** The leakage resilient primitive (AN12304): tables, evaluation, the counter
    mode built on it, and its CMAC. */
module Lrp {
  import opened ByteStrings
  import opened Ciphers
  import opened Results
  import Cmac

  function AllAa(): (b: Bytes) ensures |b| == 16 { seq(16, _ => 0xAA) }
  function All55(): (b: Bytes) ensures |b| == 16 { seq(16, _ => 0x55) }

  function Enc(p: Primitives, k: Bytes, x: Bytes): (y: Bytes)
    requires |k| == |x| == 16
    ensures |y| == 16
  {
    Ecb(RawCipher(p, AES128, k), x, true)
  }

  function Dec(p: Primitives, k: Bytes, x: Bytes): (y: Bytes)
    requires |k| == |x| == 16
    ensures |y| == 16
  {
    Ecb(RawCipher(p, AES128, k), x, false)
  }

  /** Algorithm 1: the sixteen plaintexts, from a chain of keys. */
  function Plaintexts(p: Primitives, h: Bytes, n: nat): (t: seq<Bytes>)
    requires |h| == 16
    ensures |t| == n && forall i | 0 <= i < n :: |t[i]| == 16
    decreases n
  {
    if n == 0 then []
    else
      var next := Enc(p, h, All55());
      [Enc(p, next, AllAa())] + Plaintexts(p, next, n - 1)
  }

  /** Algorithm 2: the updated keys. */
  function UpdatedKeys(p: Primitives, h: Bytes, n: nat): (t: seq<Bytes>)
    requires |h| == 16
    ensures |t| == n && forall i | 0 <= i < n :: |t[i]| == 16
    decreases n
  {
    if n == 0 then []
    else [Enc(p, h, AllAa())] + UpdatedKeys(p, Enc(p, h, All55()), n - 1)
  }

  /** The key after `n` steps along the chain. */
  function KeyAfter(p: Primitives, h: Bytes, n: nat): (k: Bytes)
    requires |h| == 16
    ensures |k| == 16
    decreases n
  {
    if n == 0 then h else KeyAfter(p, Enc(p, h, seq(16, _ => 0x55)), n - 1)
  }

  /** Every step enciphers 55..55; plaintext `i` is AA..AA under the key after
      `i + 1` steps, updated key `i` under the key after `i`. */
  lemma {:induction false} ChainAt(p: Primitives, h: Bytes, n: nat, i: nat)
    requires |h| == 16 && i < n
    ensures Plaintexts(p, h, n)[i] == Enc(p, KeyAfter(p, h, i + 1), seq(16, _ => 0xAA))
    ensures UpdatedKeys(p, h, n)[i] == Enc(p, KeyAfter(p, h, i), seq(16, _ => 0xAA))
    decreases n
  {
    hide Enc;
    assert All55() == seq(16, _ => 0x55) && AllAa() == seq(16, _ => 0xAA);
    if i > 0 {
      ChainAt(p, Enc(p, h, All55()), n - 1, i - 1);
    }
  }

  /** A context: master key, and which updated key starts an evaluation. */
  datatype RawContext = RawContext(p: Primitives, key: Bytes, index: nat)

  type Context = x: RawContext | |x.key| == 16 && x.index < 4
    witness RawContext(RawPrimitives((k, x) => x, (k, x) => x, (k, x) => x, (k, x) => x), Zeros(16), 0)

  function Table(x: Context): (t: seq<Bytes>)
    ensures |t| == 16 && forall i | 0 <= i < 16 :: |t[i]| == 16
  {
    Plaintexts(x.p, x.key, 16)
  }

  function StartKey(x: Context): (k: Bytes)
    ensures |k| == 16
  {
    UpdatedKeys(x.p, Enc(x.p, x.key, AllAa()), 4)[x.index]
  }

  function LowHalf(b: byte): byte { b & 0x0F }
  function HighHalf(b: byte): byte { (b >> 4) & 0x0F }

  /** Nibble `i`, high half of a byte first. */
  function Nibble(s: Bytes, i: nat): byte
    requires i < 2 * |s|
  {
    if i % 2 == 1 then LowHalf(s[i / 2]) else HighHalf(s[i / 2])
  }

  function NibbleValue(s: Bytes, i: nat): (v: nat)
    requires i < 2 * |s|
    ensures v < 16
  {
    NibbleSmall(s[i / 2]);
    Num(Nibble(s, i))
  }

  lemma NibbleSmall(b: byte)
    ensures Num(LowHalf(b)) < 16 && Num(HighHalf(b)) < 16
  {}

  /** Algorithm 3: walk down the key tree along the first `n` nibbles. */
  function Walk(x: Context, ry: Bytes, s: Bytes, i: nat, n: nat): (y: Bytes)
    requires |ry| == 16 && i <= n <= 2 * |s|
    ensures |y| == 16
    decreases n - i
  {
    if i == n then ry else Walk(x, Enc(x.p, ry, Table(x)[NibbleValue(s, i)]), s, i + 1, n)
  }

  function Eval(x: Context, s: Bytes, n: nat): (y: Bytes)
    requires n <= 2 * |s|
    ensures |y| == 16
  {
    Enc(x.p, Walk(x, StartKey(x), s, 0, n), Zeros(16))
  }

  /** The walk starts from the updated key of the context, which chain starts from
      AA..AA enciphered under the master key. */
  lemma WalkStart(x: Context, s: Bytes)
    ensures Eval(x, s, 0)
         == Enc(x.p, Enc(x.p, KeyAfter(x.p, Enc(x.p, x.key, seq(16, _ => 0xAA)), x.index), seq(16, _ => 0xAA)), Zeros(16))
  {
    hide Enc;
    assert AllAa() == seq(16, _ => 0xAA);
    ChainAt(x.p, Enc(x.p, x.key, AllAa()), 4, x.index);
  }

  /** Its last step takes the plaintext of the last nibble. */
  lemma {:induction false} WalkLast(x: Context, ry: Bytes, s: Bytes, i: nat, n: nat)
    requires |ry| == 16 && i < n <= 2 * |s|
    ensures Walk(x, ry, s, i, n)
         == Enc(x.p, Walk(x, ry, s, i, n - 1),
                Enc(x.p, KeyAfter(x.p, x.key, NibbleValue(s, n - 1) + 1), seq(16, _ => 0xAA)))
    decreases n - i
  {
    hide Enc, Nibble, Num;
    if i + 1 < n {
      WalkLast(x, Enc(x.p, ry, Table(x)[NibbleValue(s, i)]), s, i + 1, n);
    } else {
      ChainAt(x.p, x.key, 16, NibbleValue(s, i));
    }
  }

  //--------------------------------------------------------------------------
  // the counter
  //--------------------------------------------------------------------------

  function SetLow(b: byte, v: byte): byte { (b & 0xF0) | (v & 0x0F) }
  function SetHigh(b: byte, v: byte): byte { (b & 0x0F) | ((v << 4) & 0xF0) }

  function WithNibble(s: Bytes, i: nat, v: byte): (r: Bytes)
    requires i < 2 * |s|
    ensures |r| == |s|
  {
    var b := s[i / 2];
    s[i / 2 := if i % 2 == 1 then SetLow(b, v) else SetHigh(b, v)]
  }

  /** The first `n` nibbles as a number. */
  function CounterValue(s: Bytes, n: nat): nat
    requires n <= 2 * |s|
    decreases n
  {
    if n == 0 then 0 else 16 * CounterValue(s, n - 1) + NibbleValue(s, n - 1)
  }

  lemma HalvesOf(b: byte)
    ensures Num(b) == 16 * Num(HighHalf(b)) + Num(LowHalf(b)) && Num(HighHalf(b)) == Num(b) / 16
  {}

  /** Nibbles count from the high half of the first byte: an even number of them is
      the big-endian number of the bytes, one more adds the high half of the next. */
  lemma {:induction false} CounterIsBigEndian(s: Bytes, n: nat)
    requires n <= |s|
    ensures CounterValue(s, 2 * n) == Value(s[..n])
    ensures n < |s| ==> CounterValue(s, 2 * n + 1) == 16 * Value(s[..n]) + Num(s[n]) / 16
    decreases n
  {
    hide Num, LowHalf, HighHalf;
    if n > 0 {
      CounterIsBigEndian(s, n - 1);
      HalvesOf(s[n - 1]);
      assert s[..n] == s[..n - 1] + [s[n - 1]];
      ValueSnoc(s[..n - 1], s[n - 1]);
      assert (2 * n - 1) / 2 == n - 1 && (2 * n - 1) % 2 == 1;
    }
    if n < |s| {
      HalvesOf(s[n]);
    }
  }

  function Pow16(n: nat): (p: nat)
    ensures p > 0
    decreases n
  {
    if n == 0 then 1 else 16 * Pow16(n - 1)
  }

  /** Carrying from nibble `n - 1` upwards. */
  function Increment(s: Bytes, n: nat): (r: Bytes)
    requires n <= 2 * |s|
    ensures |r| == |s|
    decreases n
  {
    if n == 0 then s
    else
      var v := Nibble(s, n - 1);
      if v < 15 then WithNibble(s, n - 1, v + 1) else Increment(WithNibble(s, n - 1, 0), n - 1)
  }

  lemma SetHalves(b: byte, v: byte)
    requires v <= 15
    ensures LowHalf(SetLow(b, v)) == v && HighHalf(SetLow(b, v)) == HighHalf(b)
    ensures HighHalf(SetHigh(b, v)) == v && LowHalf(SetHigh(b, v)) == LowHalf(b)
  {}

  lemma NextNibble(v: byte)
    requires v <= 15
    ensures v < 15 ==> v + 1 <= 15 && Num(v + 1) == Num(v) + 1
    ensures v >= 15 <==> Num(v) == 15
    ensures Num(0) == 0
  {}

  lemma NibbleRange(s: Bytes, i: nat)
    requires i < 2 * |s|
    ensures Nibble(s, i) <= 15
  {}

  lemma WithNibbleAt(s: Bytes, i: nat, v: byte, j: nat)
    requires i < 2 * |s| && j < 2 * |s| && v <= 15
    ensures Nibble(WithNibble(s, i, v), j) == if i == j then v else Nibble(s, j)
  {
    hide LowHalf, HighHalf, SetLow, SetHigh;
    SetHalves(s[i / 2], v);
  }

  lemma {:induction false} SamePrefix(s: Bytes, t: Bytes, n: nat)
    requires |s| == |t| && n <= 2 * |s| && forall j | 0 <= j < n :: Nibble(s, j) == Nibble(t, j)
    ensures CounterValue(s, n) == CounterValue(t, n)
    decreases n
  {
    hide Nibble;
    if n > 0 {
      SamePrefix(s, t, n - 1);
    }
  }

  lemma {:induction false} CounterBound(s: Bytes, n: nat)
    requires n <= 2 * |s|
    ensures CounterValue(s, n) < Pow16(n)
    decreases n
  {
    hide NibbleValue;
    if n > 0 {
      CounterBound(s, n - 1);
    }
  }

  lemma Wrap(c: nat, m: nat)
    requires c < m
    ensures (c + 1) % m == if c + 1 < m then c + 1 else 0
  {}

  /** The counter goes up by one modulo 16^n on its first `n` nibbles, for odd
      `n` too, and leaves every other nibble alone. */
  lemma {:induction false} IncrementAddsOne(s: Bytes, n: nat)
    requires n <= 2 * |s|
    ensures CounterValue(Increment(s, n), n) == (CounterValue(s, n) + 1) % Pow16(n)
    ensures forall j | n <= j < 2 * |s| :: Nibble(Increment(s, n), j) == Nibble(s, j)
    decreases n
  {
    hide WithNibble, Nibble, Num;
    CounterBound(s, n);
    Wrap(CounterValue(s, n), Pow16(n));
    if n > 0 {
      var v := Nibble(s, n - 1);
      NibbleRange(s, n - 1);
      NextNibble(v);
      var w: byte := if v < 15 then v + 1 else 0;
      var t := WithNibble(s, n - 1, w);
      forall j | 0 <= j < 2 * |s|
        ensures Nibble(t, j) == if j == n - 1 then w else Nibble(s, j)
      {
        WithNibbleAt(s, n - 1, w, j);
      }
      SamePrefix(s, t, n - 1);
      CounterBound(s, n - 1);
      if v >= 15 {
        IncrementAddsOne(t, n - 1);
        Wrap(CounterValue(t, n - 1), Pow16(n - 1));
      }
    }
  }

  //--------------------------------------------------------------------------
  // algorithms 4 and 5: counter mode, and its bit padding
  //--------------------------------------------------------------------------

  /** Every block has its own key, the evaluation of the running counter. */
  function Crypt(x: Context, counter: Bytes, n: nat, data: Bytes, encrypt: bool): (r: (Bytes, Bytes))
    requires n <= 2 * |counter| && |data| % 16 == 0
    ensures |r.0| == |data| && |r.1| == |counter|
    decreases |data|
  {
    if data == [] then ([], counter)
    else
      var y := Eval(x, counter, n);
      var b := if encrypt then Enc(x.p, y, data[..16]) else Dec(x.p, y, data[..16]);
      var rest := Crypt(x, Increment(counter, n), n, data[16..], encrypt);
      (b + rest.0, rest.1)
  }

  lemma {:induction false} DecryptUndoesEncrypt(x: Context, counter: Bytes, n: nat, data: Bytes)
    requires n <= 2 * |counter| && |data| % 16 == 0
    ensures var sent := Crypt(x, counter, n, data, true);
            Crypt(x, counter, n, sent.0, false) == (data, sent.1)
    decreases |data|
  {
    if data != [] {
      hide Increment, Eval;
      var y := Eval(x, counter, n);
      var b := Enc(x.p, y, data[..16]);
      var rest := Crypt(x, Increment(counter, n), n, data[16..], true);
      assert (b + rest.0)[..16] == b && (b + rest.0)[16..] == rest.0;
      EcbInverse(RawCipher(x.p, AES128, y), data[..16], true);
      DecryptUndoesEncrypt(x, Increment(counter, n), n, data[16..]);
      assert data[..16] + data[16..] == data;
    }
  }

  /** The counter `i` blocks on. */
  function Advanced(counter: Bytes, n: nat, i: nat): (c: Bytes)
    requires n <= 2 * |counter|
    ensures |c| == |counter|
    decreases i
  {
    if i == 0 then counter else Advanced(Increment(counter, n), n, i - 1)
  }

  /** Block `i` is enciphered under the evaluation of the counter `i` blocks on, and
      the counter ends as many blocks on as there are. */
  lemma {:induction false} BlockAt(x: Context, counter: Bytes, n: nat, data: Bytes, encrypt: bool, i: nat)
    requires n <= 2 * |counter| && |data| % 16 == 0 && 16 * i <= |data|
    ensures var r, y := Crypt(x, counter, n, data, encrypt), Eval(x, Advanced(counter, n, i), n);
            if 16 * i == |data| then r.1 == Advanced(counter, n, i)
            else r.0[16 * i..16 * i + 16] == Ecb(RawCipher(x.p, AES128, y), data[16 * i..16 * i + 16], encrypt)
    decreases i
  {
    hide Increment, Eval, Ecb;
    if i > 0 {
      BlockAt(x, Increment(counter, n), n, data[16..], encrypt, i - 1);
      var r, rest := Crypt(x, counter, n, data, encrypt), Crypt(x, Increment(counter, n), n, data[16..], encrypt);
      assert 16 * i < |data| ==> r.0[16 * i..16 * i + 16] == rest.0[16 * (i - 1)..16 * (i - 1) + 16];
      assert 16 * i < |data| ==> data[16..][16 * (i - 1)..16 * (i - 1) + 16] == data[16 * i..16 * i + 16];
    }
  }

  /** The counter goes up by one per block, modulo 16^n: `q` is how often it has
      wrapped. */
  lemma {:induction false} AdvancedAdds(counter: Bytes, n: nat, i: nat) returns (q: nat)
    requires n <= 2 * |counter|
    ensures CounterValue(counter, n) + i == q * Pow16(n) + CounterValue(Advanced(counter, n, i), n)
    ensures CounterValue(Advanced(counter, n, i), n) < Pow16(n)
    decreases i
  {
    hide Increment, CounterValue, Pow16;
    CounterBound(counter, n);
    q := 0;
    if i > 0 {
      var next, m := Increment(counter, n), Pow16(n);
      CounterBound(next, n);
      IncrementAddsOne(counter, n);
      Wrap(CounterValue(counter, n), m);
      q := AdvancedAdds(next, n, i - 1);
      if CounterValue(counter, n) + 1 == m {
        OneMoreTime(q, m);
        q := q + 1;
      }
    }
  }

  lemma OneMoreTime(q: nat, m: nat)
    ensures (q + 1) * m == q * m + m
  {}

  /** The counter moves once per block, whatever the blocks hold. */
  lemma {:induction false} CounterPerBlock(x: Context, counter: Bytes, n: nat, a: Bytes, b: Bytes, e: bool, f: bool)
    requires n <= 2 * |counter| && |a| % 16 == 0 && |a| == |b|
    ensures Crypt(x, counter, n, a, e).1 == Crypt(x, counter, n, b, f).1
    decreases |a|
  {
    if a != [] {
      CounterPerBlock(x, Increment(counter, n), n, a[16..], b[16..], e, f);
    }
  }

  function EncodedSize(len: nat, bitPadding: bool): (d: nat)
    ensures d % 16 == 0 && len <= d <= len + 16 && (bitPadding ==> len < d)
  {
    var d := len + if bitPadding then 1 else 0;
    if d % 16 != 0 then d + 16 - d % 16 else d
  }

  function WithPadding(data: Bytes, bitPadding: bool): (b: Bytes)
    ensures |b| == EncodedSize(|data|, bitPadding)
  {
    var d := EncodedSize(|data|, bitPadding);
    if bitPadding then data + [0x80] + Zeros(d - |data| - 1) else data + Zeros(d - |data|)
  }

  /** Bit padding is 0x80 and zeros to the next whole block, without it there are only
      zeros, and none behind whole blocks. */
  lemma PaddingHolds(data: Bytes, bitPadding: bool)
    ensures var b, m := WithPadding(data, bitPadding), |data| + if bitPadding then 1 else 0;
            && |b| % 16 == 0 && m <= |b| < m + 16 && data <= b && (forall i | m <= i < |b| :: b[i] == 0)
            && (bitPadding ==> b[|data|] == 0x80)
  {}

  function Encode(x: Context, counter: Bytes, n: nat, bitPadding: bool, data: Bytes): (r: (Bytes, Bytes))
    requires n <= 2 * |counter|
    ensures |r.0| == EncodedSize(|data|, bitPadding) && |r.1| == |counter|
  {
    Crypt(x, counter, n, WithPadding(data, bitPadding), true)
  }

  /** Where the bit padding starts, looking back from position `i` to `stop`;
      the whole length if there is none. */
  function PaddingStart(out: Bytes, i: int, stop: int): (k: nat)
    requires 0 <= stop && -1 <= i < |out|
    ensures k <= |out|
    decreases i - stop + 1
  {
    if i < stop then |out|
    else if out[i] == 0x80 then i
    else if out[i] != 0 then |out|
    else PaddingStart(out, i - 1, stop)
  }

  function Stripped(out: Bytes, bitPadding: bool): (r: Bytes)
    requires |out| >= 16
  {
    if bitPadding then out[..PaddingStart(out, |out| - 1, |out| - 16)] else out
  }

  function Decode(x: Context, counter: Bytes, n: nat, bitPadding: bool, data: Bytes): (r: Result<(Bytes, Bytes)>)
    requires n <= 2 * |counter|
    ensures r.Ok? ==> |r.value.1| == |counter|
  {
    if |data| == 0 || |data| % 16 != 0 then Err(Length)
    else
      var out := Crypt(x, counter, n, data, false);
      Ok((Stripped(out.0, bitPadding), out.1))
  }

  lemma {:induction false} PaddingFound(d: Bytes, z: nat, i: int, stop: nat)
    requires |d| <= i <= |d| + z && stop <= |d|
    ensures PaddingStart(d + [0x80] + Zeros(z), i, stop) == |d|
    decreases i
  {
    var out := d + [0x80] + Zeros(z);
    if i > |d| {
      assert out[i] == 0;
      PaddingFound(d, z, i - 1, stop);
    } else {
      assert out[i] == 0x80;
    }
  }

  /** From equal counters decoding returns the message, zero-padded to whole
      blocks when no bit padding is in use, and both counters move alike. An
      empty message survives only with bit padding. */
  lemma DecodeUndoesEncode(x: Context, counter: Bytes, n: nat, bitPadding: bool, data: Bytes)
    requires n <= 2 * |counter|
    ensures Decode(x, counter, n, bitPadding, Encode(x, counter, n, bitPadding, data).0)
         == if data == [] && !bitPadding then Err(Length)
            else Ok((if bitPadding then data else data + Zeros(EncodedSize(|data|, false) - |data|),
                     Encode(x, counter, n, bitPadding, data).1))
  {
    hide Crypt;
    var b := WithPadding(data, bitPadding);
    DecryptUndoesEncrypt(x, counter, n, b);
    if bitPadding {
      var z := |b| - |data| - 1;
      PaddingFound(data, z, |b| - 1, |b| - 16);
      assert b[..|data|] == data;
    }
  }

  //--------------------------------------------------------------------------
  // algorithm 6: CMAC with the evaluation in place of the block cipher
  //--------------------------------------------------------------------------

  function Prf(x: Context, y: Bytes): (r: Bytes)
    requires |y| == 16
    ensures |r| == 16
  {
    Eval(x, y, 32)
  }

  function Subkeys(p: Primitives, key: Bytes): (k: (Bytes, Bytes))
    requires |key| == 16
    ensures |k.0| == |k.1| == 16
  {
    var k1 := Cmac.Double(Prf(RawContext(p, key, 0), Zeros(16)));
    (k1, Cmac.Double(k1))
  }

  function MacFrom(x: Context, y: Bytes, data: Bytes): (mac: Bytes)
    requires |y| == 16
    ensures |mac| == 16
    decreases |data|
  {
    if |data| > 16 then MacFrom(x, Prf(x, Xor(y, data[..16])), data[16..])
    else if |data| == 16 then Prf(x, Xor(Xor(y, data), Subkeys(x.p, x.key).0))
    else Prf(x, Xor(Xor(y, data + [0x80] + Zeros(15 - |data|)), Subkeys(x.p, x.key).1))
  }

  function MacOf(x: Context, data: Bytes): (mac: Bytes)
    ensures |mac| == 16
  {
    MacFrom(x, Zeros(16), data)
  }

  /** From zero, a block in front only moves the chaining value. */
  lemma FrontMoves(x: Context, y: Bytes, a: Bytes, b: Bytes)
    requires |y| == |a| == 16 && b != []
    ensures MacFrom(x, y, a + b) == MacFrom(x, Eval(x, Xor(y, a), 32), b) && MacOf(x, a + b) == MacFrom(x, Zeros(16), a + b)
  {
    hide Eval, Subkeys;
    assert (a + b)[..16] == a && (a + b)[16..] == b;
  }

  /** The last block: masked like that of CMAC, with the evaluation of zero, under
      the first updated key, doubled once or twice. */
  lemma LastBlock(x: Context, y: Bytes, m: Bytes)
    requires |y| == 16 && |m| <= 16
    ensures var l := Eval(RawContext(x.p, x.key, 0), Zeros(16), 32);
            MacFrom(x, y, m)
            == Eval(x, Xor(Xor(y, if |m| == 16 then m else m + [0x80] + Zeros(15 - |m|)),
                           if |m| == 16 then Cmac.Double(l) else Cmac.Double(Cmac.Double(l))), 32)
  {
    hide Eval, Cmac.Double;
  }
}
