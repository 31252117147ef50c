/** nxpsc_lrp_ctx_t and the routines on it. */
module LrpContext {
  import opened ByteStrings
  import opened Ciphers
  import opened Results
  import opened Lrp
  import Cmac

  /** One round of nxpsc_lrp_inc_counter, on nibble `i` with the carry set. */
  method BumpNibble(counter: array<byte>, i: nat) returns (carry: bool)
    requires i < 2 * counter.Length
    modifies counter
    ensures var v := Nibble(old(counter[..]), i);
            && carry == (v >= 15)
            && counter[..] == WithNibble(old(counter[..]), i, if v < 15 then v + 1 else 0)
  {
    hide LowHalf, HighHalf, SetLow, SetHigh;
    var b := counter[i / 2];
    var nibble := if i % 2 == 1 then b & 0x0F else (b >> 4) & 0x0F;
    HalfDefinitions(b);
    NibbleRange(counter[..], i);
    nibble := nibble + 1;
    carry := nibble > 0x0F;
    StoreHalves(b, nibble);
    if i % 2 == 1 {
      counter[i / 2] := (b & 0xF0) | (nibble & 0x0F);
    } else {
      counter[i / 2] := (b & 0x0F) | ((nibble << 4) & 0xF0);
    }
  }

  /** nxpsc_lrp_inc_counter. */
  method IncCounter(counter: array<byte>, n: nat)
    requires n <= 2 * counter.Length
    modifies counter
    ensures counter[..] == Increment(old(counter[..]), n)
    ensures CounterValue(counter[..], n) == (CounterValue(old(counter[..]), n) + 1) % Pow16(n)
    ensures forall j | n <= j < 2 * counter.Length :: Nibble(counter[..], j) == Nibble(old(counter[..]), j)
  {
    hide Nibble, WithNibble;
    IncrementAddsOne(counter[..], n);
    var i := n - 1;
    while i >= 0
      invariant -1 <= i < n
      invariant Increment(counter[..], i + 1) == Increment(old(counter[..]), n)
    {
      var carry := BumpNibble(counter, i);
      if !carry {
        return;
      }
      i := i - 1;
    }
  }

  lemma HalfDefinitions(b: byte)
    ensures LowHalf(b) == b & 0x0F && HighHalf(b) == (b >> 4) & 0x0F
  {}

  lemma StoreHalves(b: byte, v: byte)
    requires 1 <= v <= 16
    ensures v <= 0x0F ==> (b & 0xF0) | (v & 0x0F) == SetLow(b, v) && (b & 0x0F) | ((v << 4) & 0xF0) == SetHigh(b, v)
    ensures v > 0x0F ==> (b & 0xF0) | (v & 0x0F) == SetLow(b, 0) && (b & 0x0F) | ((v << 4) & 0xF0) == SetHigh(b, 0)
  {}

  /** NXPSC_LRP_MAX_COUNTER */
  const MAX_COUNTER := 64

  lemma OneMore(done: seq<Bytes>, x: Bytes, rest: seq<Bytes>)
    ensures (done + [x]) + rest == done + ([x] + rest)
  {}

  lemma NextPlaintext(p: Primitives, h: Bytes, n: nat)
    requires |h| == 16 && n > 0
    ensures var k := Enc(p, h, All55()); Plaintexts(p, h, n) == [Enc(p, k, AllAa())] + Plaintexts(p, k, n - 1)
  {
    hide Enc;
  }

  lemma NextKey(p: Primitives, h: Bytes, n: nat)
    requires |h| == 16 && n > 0
    ensures UpdatedKeys(p, h, n) == [Enc(p, h, AllAa())] + UpdatedKeys(p, Enc(p, h, All55()), n - 1)
  {
    hide Enc;
  }

  /** lrp_generate_tables, first loop */
  method GeneratePlaintexts(p: Primitives, key: Bytes) returns (tables: seq<Bytes>)
    requires |key| == 16
    ensures tables == Plaintexts(p, key, 16)
  {
    hide Enc, Plaintexts;
    var h := key;
    tables := [];
    assert [] + Plaintexts(p, key, 16) == Plaintexts(p, key, 16);
    for i := 0 to 16
      invariant |h| == 16 && |tables| == i
      invariant tables + Plaintexts(p, h, 16 - i) == Plaintexts(p, key, 16)
    {
      NextPlaintext(p, h, 16 - i);
      h := Enc(p, h, All55());
      OneMore(tables, Enc(p, h, AllAa()), Plaintexts(p, h, 15 - i));
      tables := tables + [Enc(p, h, AllAa())];
    }
    assert tables + [] == tables;
  }

  /** lrp_generate_tables, second loop */
  method GenerateKeys(p: Primitives, key: Bytes) returns (keys: seq<Bytes>)
    requires |key| == 16
    ensures keys == UpdatedKeys(p, Enc(p, key, AllAa()), 4)
  {
    hide Enc, UpdatedKeys;
    var h := Enc(p, key, AllAa());
    keys := [];
    assert [] + UpdatedKeys(p, h, 4) == UpdatedKeys(p, h, 4);
    for i := 0 to 4
      invariant |h| == 16 && |keys| == i
      invariant keys + UpdatedKeys(p, h, 4 - i) == UpdatedKeys(p, Enc(p, key, AllAa()), 4)
    {
      NextKey(p, h, 4 - i);
      OneMore(keys, Enc(p, h, AllAa()), UpdatedKeys(p, Enc(p, h, All55()), 3 - i));
      keys := keys + [Enc(p, h, AllAa())];
      h := Enc(p, h, All55());
    }
    assert keys + [] == keys;
  }

  /** nxpsc_lrp_ctx_t */
  class LrpCtx {
    const p: Primitives
    var key: Bytes
    var bitPadding: bool
    var plaintexts: seq<Bytes>
    var updatedKeys: seq<Bytes>
    var useUpdatedKey: nat
    const counter: array<byte>
    var counterLen: nat

    ghost predicate Valid()
      reads this
    {
      && |key| == 16 && useUpdatedKey < 4 && counter.Length == MAX_COUNTER && counterLen <= 2 * MAX_COUNTER
      && plaintexts == Table(RawContext(p, key, useUpdatedKey))
      && updatedKeys == UpdatedKeys(p, Enc(p, key, AllAa()), 4)
    }

    ghost function Ctx(): Context
      requires Valid()
      reads this
    {
      RawContext(p, key, useUpdatedKey)
    }

    /** nxpsc_lrp_init with lrp_generate_tables. */
    constructor (p: Primitives, key: Bytes, updatedKey: nat, bitPadding: bool)
      requires |key| == 16 && updatedKey < 4
      ensures Valid() && fresh(counter) && Ctx() == RawContext(p, key, updatedKey)
      ensures this.bitPadding == bitPadding && counter[..] == Zeros(MAX_COUNTER) && counterLen == 16
    {
      this.p, this.key, this.bitPadding, this.useUpdatedKey := p, key, bitPadding, updatedKey;
      counter := new byte[MAX_COUNTER](_ => 0);
      counterLen := 16;
      var tables := GeneratePlaintexts(p, key);
      plaintexts := tables;
      var keys := GenerateKeys(p, key);
      updatedKeys := keys;
    }

    /** nxpsc_lrp_set_counter */
    method SetCounter(value: Bytes, n: nat)
      requires Valid() && n <= 2 * MAX_COUNTER && |value| >= (n + 1) / 2
      modifies this`counterLen, counter
      ensures Valid() && counterLen == n
      ensures counter[..] == value[..(n + 1) / 2] + Zeros(MAX_COUNTER - (n + 1) / 2)
    {
      Blit(counter, 0, Zeros(MAX_COUNTER));
      Blit(counter, 0, value[..(n + 1) / 2]);
      counterLen := n;
    }

    /** nxpsc_lrp_eval, the final step included. */
    method Evaluate(iv: Bytes, n: nat) returns (out: Bytes)
      requires Valid() && n <= 2 * |iv|
      ensures out == Eval(Ctx(), iv, n)
    {
      hide Nibble;
      var ry := updatedKeys[useUpdatedKey];
      for i := 0 to n
        invariant |ry| == 16
        invariant Walk(Ctx(), StartKey(Ctx()), iv, 0, n) == Walk(Ctx(), ry, iv, i, n)
      {
        ry := Enc(p, ry, plaintexts[NibbleValue(iv, i)]);
      }
      out := Enc(p, ry, Zeros(16));
    }

    /** One block under the key of the counter, and the counter moved on. */
    method CryptOne(block: Bytes, out: array<byte>, at: nat, encrypt: bool) returns (b: Bytes)
      requires Valid() && |block| == 16 && at + 16 <= out.Length && out != counter
      modifies counter, out
      ensures Valid()
      ensures var y := Eval(Ctx(), old(counter[..]), counterLen);
              && b == (if encrypt then Enc(p, y, block) else Dec(p, y, block))
              && out[..] == Splice(old(out[..]), at, b) && counter[..] == Increment(old(counter[..]), counterLen)
    {
      hide Eval, Increment, Enc, Dec, Splice, Table, UpdatedKeys;
      var y := Evaluate(counter[..], counterLen);
      b := if encrypt then Enc(p, y, block) else Dec(p, y, block);
      Blit(out, at, b);
      IncCounter(counter, counterLen);
    }

    /** The loop of nxpsc_lrp_encode and nxpsc_lrp_decode over whole blocks. */
    method CryptBlocks(data: Bytes, out: array<byte>, at: nat, encrypt: bool)
      requires Valid() && |data| % 16 == 0 && at + |data| <= out.Length && out != counter
      modifies counter, out
      ensures Valid()
      ensures var r := Crypt(Ctx(), old(counter[..]), counterLen, data, encrypt);
              out[..] == Splice(old(out[..]), at, r.0) && counter[..] == r.1
    {
      hide Crypt, Join, Eval, Increment, Enc, Dec, Splice, Table, UpdatedKeys;
      ghost var done: Bytes := [];
      ghost var x := Ctx();
      ghost var all := Crypt(x, counter[..], counterLen, data, encrypt);
      SpliceAt(out[..], at, []);
      JoinEnds(x, counter[..], counterLen, data, encrypt);
      var off := 0;
      while off < |data|
        invariant Valid() && Ctx() == x && 0 <= off <= |data| && off % 16 == 0 && |done| == off
        invariant out[..] == Splice(old(out[..]), at, done)
        invariant Join(done, Crypt(x, counter[..], counterLen, data[off..], encrypt)) == all
      {
        JoinStep(x, counter[..], counterLen, data[off..], encrypt, done);
        assert data[off..][..16] == data[off..off + 16] && data[off..][16..] == data[off + 16..];
        var b := CryptOne(data[off..off + 16], out, at + off, encrypt);
        SpliceExtend(old(out[..]), at, done, b);
        done := done + b;
        off := off + 16;
      }
      assert data[off..] == [];
      JoinDone(x, counter[..], counterLen, encrypt, done);
    }

    /** nxpsc_lrp_encode, algorithm 4 */
    method EncodeInto(data: Bytes, out: array<byte>, at: nat, cap: nat) returns (r: Result<nat>)
      requires Valid() && at + cap <= out.Length && out != counter
      modifies counter, out
      ensures Valid()
      ensures var e := Encode(Ctx(), old(counter[..]), counterLen, bitPadding, data);
              if |e.0| <= cap then
                r == Ok(|e.0|) && out[..] == Splice(old(out[..]), at, e.0) && counter[..] == e.1
              else
                r == Err(Length) && out[..] == old(out[..]) && counter[..] == old(counter[..])
    {
      hide Crypt, Table, UpdatedKeys, Splice, WithPadding;
      var dlen := |data| + if bitPadding then 1 else 0;
      if dlen % 16 != 0 {
        dlen := dlen + 16 - dlen % 16;
      }
      if dlen == 0 {
        CryptNothing(Ctx(), counter[..], counterLen);
        SpliceAt(out[..], at, []);
        assert WithPadding(data, bitPadding) == [];
        return Ok(0);
      }
      if dlen > cap {
        return Err(Length);
      }
      var padded := PadBits(data, bitPadding, dlen);
      CryptBlocks(padded, out, at, true);
      r := Ok(dlen);
    }

    static method PadBits(data: Bytes, bitPadding: bool, dlen: nat) returns (padded: Bytes)
      requires dlen == EncodedSize(|data|, bitPadding)
      ensures padded == WithPadding(data, bitPadding)
    {
      var buf := Calloc(dlen);
      Blit(buf, 0, data);
      if bitPadding {
        buf[|data|] := 0x80;
      }
      padded := buf[..];
    }

    /** nxpsc_lrp_decode, algorithm 5 */
    method DecodeInto(data: Bytes, out: array<byte>) returns (r: Result<nat>)
      requires Valid() && out != counter
      modifies counter, out
      ensures Valid()
      ensures |data| > out.Length ==> r == Err(Length) && counter[..] == old(counter[..])
      ensures |data| <= out.Length ==>
          match Decode(Ctx(), old(counter[..]), counterLen, bitPadding, data)
          case Err(e) => r == Err(e) && out[..] == old(out[..]) && counter[..] == old(counter[..])
          case Ok(d) => r == Ok(|d.0|) && |d.0| <= out.Length && out[..|d.0|] == d.0 && counter[..] == d.1
    {
      hide Crypt, Table, UpdatedKeys, PaddingStart, Splice;
      if |data| == 0 || |data| % 16 != 0 {
        return Err(Length);
      }
      if |data| > out.Length {
        return Err(Length);
      }
      ghost var plain := Crypt(Ctx(), counter[..], counterLen, data, false).0;
      SpliceAt(out[..], 0, plain);
      CryptBlocks(data, out, 0, false);
      var len := |data|;
      assert out[..len] == plain;
      if bitPadding {
        len := FindPadding(out, |data|);
      }
      assert out[..len] == plain[..len];
      r := Ok(len);
    }

    static method FindPadding(out: array<byte>, len: nat) returns (k: nat)
      requires 16 <= len <= out.Length
      ensures k == PaddingStart(out[..len], len - 1, len - 16) <= len
    {
      k := len;
      var i := len - 1;
      while i >= len - 16
        invariant len - 17 <= i < len && k == len
        invariant PaddingStart(out[..len], len - 1, len - 16) == PaddingStart(out[..len], i, len - 16)
      {
        if out[i] == 0x80 {
          k := i;
        }
        if out[i] != 0x00 {
          return;
        }
        i := i - 1;
      }
    }

    /** lrp_subkeys */
    static method MacSubkeys(p: Primitives, key: Bytes) returns (k1: Bytes, k2: Bytes)
      requires |key| == 16
      ensures (k1, k2) == Subkeys(p, key)
    {
      hide Eval, Table, UpdatedKeys;
      var ctx := new LrpCtx(p, key, 0, true);
      var l := ctx.Evaluate(Zeros(16), 32);
      var y := Calloc(16);
      Blit(y, 0, l);
      assert y[..] == l;
      Cmac.DoubleInPlace(y);
      k1 := y[..];
      Cmac.DoubleInPlace(y);
      k2 := y[..];
    }

    /** The last, complete or padded, block of nxpsc_lrp_cmac. */
    method LastBlock(y: Bytes, data: Bytes, k1: Bytes, k2: Bytes) returns (mac: Bytes)
      requires Valid() && |y| == 16 && |data| <= 16 && (k1, k2) == Subkeys(p, key)
      ensures mac == MacFrom(Ctx(), y, data)
    {
      hide Eval, Subkeys, Table, UpdatedKeys;
      var bl := Calloc(16);
      Blit(bl, 0, data);
      var z := y;
      if |data| == 16 {
        assert bl[..] == data;
        z := Xor(Xor(z, bl[..]), k1);
      } else {
        bl[|data|] := 0x80;
        assert bl[..] == data + [0x80] + Zeros(15 - |data|);
        z := Xor(Xor(z, bl[..]), k2);
      }
      mac := Evaluate(z, 32);
    }

    /** nxpsc_lrp_cmac, algorithm 6 */
    method Mac(data: Bytes) returns (mac: Bytes)
      requires Valid()
      ensures mac == MacOf(Ctx(), data)
    {
      hide Eval, Subkeys, Table, UpdatedKeys, Xor;
      var k1, k2 := MacSubkeys(p, key);
      var y := Zeros(16);
      var done := 0;
      assert data[0..] == data;
      while |data| - done > 16
        invariant 0 <= done <= |data| && |y| == 16
        invariant MacFrom(Ctx(), y, data[done..]) == MacOf(Ctx(), data)
      {
        assert data[done..][..16] == data[done..done + 16] && data[done..][16..] == data[done + 16..];
        y := Evaluate(Xor(y, data[done..done + 16]), 32);
        done := done + 16;
      }
      mac := LastBlock(y, data[done..], k1, k2);
    }
  }

  lemma CryptNothing(x: Context, counter: Bytes, n: nat)
    requires n <= 2 * |counter|
    ensures Crypt(x, counter, n, [], true) == ([], counter)
  {}

  function Join(done: Bytes, r: (Bytes, Bytes)): (Bytes, Bytes) {
    (done + r.0, r.1)
  }

  lemma JoinStep(x: Context, counter: Bytes, n: nat, data: Bytes, encrypt: bool, done: Bytes)
    requires n <= 2 * |counter| && |data| % 16 == 0 && data != []
    ensures var y := Eval(x, counter, n);
            var b := if encrypt then Enc(x.p, y, data[..16]) else Dec(x.p, y, data[..16]);
            && Join(done, Crypt(x, counter, n, data, encrypt))
               == Join(done + b, Crypt(x, Increment(counter, n), n, data[16..], encrypt))
  {
    hide Eval, Increment, Enc, Dec;
    var y := Eval(x, counter, n);
    var b := if encrypt then Enc(x.p, y, data[..16]) else Dec(x.p, y, data[..16]);
    var rest := Crypt(x, Increment(counter, n), n, data[16..], encrypt);
    assert done + (b + rest.0) == (done + b) + rest.0;
  }

  lemma JoinEnds(x: Context, counter: Bytes, n: nat, data: Bytes, encrypt: bool)
    requires n <= 2 * |counter| && |data| % 16 == 0
    ensures Join([], Crypt(x, counter, n, data, encrypt)) == Crypt(x, counter, n, data, encrypt)
    ensures data[0..] == data
  {
    var r := Crypt(x, counter, n, data, encrypt);
    assert [] + r.0 == r.0;
  }

  lemma JoinDone(x: Context, counter: Bytes, n: nat, encrypt: bool, done: Bytes)
    requires n <= 2 * |counter|
    ensures Join(done, Crypt(x, counter, n, [], encrypt)) == (done, counter)
  {
    assert done + [] == done;
  }
}
