/** Cipher block chaining (NIST SP 800-38A section 6.2) in the four variants of
    nxpsc_cbc_crypt_ex: direction of the chaining and choice of primitive. */
module Cbc {
  import opened ByteStrings
  import opened Ciphers

  predicate Whole(c: Cipher, data: Bytes) {
    |data| % Block(c) == 0
  }

  /** Output and final chaining value. When sending, each output block is fed
      into the next input; when receiving, each input block into the next
      output. `encrypt` picks the primitive. */
  function Run(c: Cipher, iv: Bytes, data: Bytes, send: bool, encrypt: bool): (r: (Bytes, Bytes))
    requires |iv| == Block(c) && Whole(c, data)
    ensures |r.0| == |data| && |r.1| == Block(c)
    decreases |data|
  {
    if data == [] then ([], iv)
    else
      var b, o := data[..Block(c)], Output(c, iv, data[..Block(c)], send, encrypt);
      var rest := Run(c, if send then o else b, data[Block(c)..], send, encrypt);
      (o + rest.0, rest.1)
  }

  function Output(c: Cipher, iv: Bytes, b: Bytes, send: bool, encrypt: bool): (o: Bytes)
    requires |iv| == |b| == Block(c)
    ensures |o| == Block(c)
  {
    if send then Ecb(c, Xor(b, iv), encrypt) else Xor(Ecb(c, b, encrypt), iv)
  }

  /** nxpsc_cbc_crypt: the ordinary modes, encrypt to send, decrypt to receive. */
  function Crypt(c: Cipher, iv: Bytes, data: Bytes, encrypt: bool): (r: (Bytes, Bytes))
    requires |iv| == Block(c) && Whole(c, data)
    ensures |r.0| == |data| && |r.1| == Block(c)
  {
    Run(c, iv, data, encrypt, encrypt)
  }

  lemma WholeAdd(c: Cipher, a: Bytes, b: Bytes)
    requires Whole(c, a)
    ensures Whole(c, a + b) <==> Whole(c, b)
  {
    if Block(c) == 8 {} else {}
  }

  lemma RunStep(c: Cipher, iv: Bytes, data: Bytes, send: bool, encrypt: bool)
    requires |iv| == Block(c) && Whole(c, data) && data != []
    ensures var n := Block(c);
            && n <= |data| && Whole(c, data[n..])
            && var o := Output(c, iv, data[..n], send, encrypt);
               var rest := Run(c, if send then o else data[..n], data[n..], send, encrypt);
               Run(c, iv, data, send, encrypt) == (o + rest.0, rest.1)
  {
    hide Output;
  }

  /** Chaining carries over: processing `a + b` is processing `a` then `b`. */
  lemma {:induction false} Split(c: Cipher, iv: Bytes, a: Bytes, b: Bytes, send: bool, encrypt: bool)
    requires |iv| == Block(c) && Whole(c, a) && Whole(c, b)
    ensures Whole(c, a + b)
    ensures var r, s := Run(c, iv, a, send, encrypt), Run(c, iv, a + b, send, encrypt);
            var t := Run(c, r.1, b, send, encrypt);
            s == (r.0 + t.0, t.1)
    decreases |a|
  {
    hide Output, Run, Whole, Block;
    var n := Block(c);
    WholeAdd(c, a, b);
    if a == [] {
      RunEmpty(c, iv, send, encrypt);
      assert a + b == b && [] + Run(c, iv, b, send, encrypt).0 == Run(c, iv, b, send, encrypt).0;
    } else {
      RunStep(c, iv, a, send, encrypt);
      RunStep(c, iv, a + b, send, encrypt);
      assert (a + b)[..n] == a[..n] && (a + b)[n..] == a[n..] + b;
      var o := Output(c, iv, a[..n], send, encrypt);
      var v := if send then o else a[..n];
      SomeBlock(c);
      Split(c, v, a[n..], b, send, encrypt);
      var r := Run(c, v, a[n..], send, encrypt);
      assert (o + r.0) + Run(c, r.1, b, send, encrypt).0 == o + (r.0 + Run(c, r.1, b, send, encrypt).0);
    }
  }

  lemma SomeBlock(c: Cipher)
    ensures Block(c) > 0
  {}

  /** What was sent with one primitive is received with the other, and both
      sides end with the same chaining value: the last block on the wire. */
  lemma {:induction false} ReceiveUndoesSend(c: Cipher, iv: Bytes, data: Bytes, encrypt: bool)
    requires |iv| == Block(c) && Whole(c, data)
    ensures var wire := Run(c, iv, data, true, encrypt);
            Run(c, iv, wire.0, false, !encrypt) == (data, wire.1)
    decreases |data|
  {
    if data != [] {
      var n := Block(c);
      var b := data[..n];
      var o := Output(c, iv, b, true, encrypt);
      var rest := Run(c, o, data[n..], true, encrypt);
      assert (o + rest.0)[..n] == o && (o + rest.0)[n..] == rest.0;
      EcbInverse(c, Xor(b, iv), encrypt);
      XorSelf(b, iv);
      ReceiveUndoesSend(c, o, data[n..], encrypt);
      assert data == b + data[n..];
    }
  }

  /** And the other way round: only what was received gives that data when sent. */
  lemma {:induction false} SendUndoesReceive(c: Cipher, iv: Bytes, wire: Bytes, encrypt: bool)
    requires |iv| == Block(c) && Whole(c, wire)
    ensures var data := Run(c, iv, wire, false, encrypt);
            Run(c, iv, data.0, true, !encrypt) == (wire, data.1)
    decreases |wire|
  {
    if wire != [] {
      var n := Block(c);
      var b := wire[..n];
      var o := Output(c, iv, b, false, encrypt);
      var rest := Run(c, b, wire[n..], false, encrypt);
      assert (o + rest.0)[..n] == o && (o + rest.0)[n..] == rest.0;
      EcbInverse(c, b, encrypt);
      XorSelf(Ecb(c, b, encrypt), iv);
      SendUndoesReceive(c, b, wire[n..], encrypt);
      assert wire == b + wire[n..];
    }
  }

  /** The final chaining value is the last block on the wire. */
  lemma {:induction false} FinalIv(c: Cipher, iv: Bytes, data: Bytes, encrypt: bool)
    requires |iv| == Block(c) && Whole(c, data) && data != []
    ensures var r := Run(c, iv, data, true, encrypt); r.1 == r.0[|data| - Block(c)..]
    decreases |data|
  {
    var n := Block(c);
    if |data| > n {
      FinalIv(c, Output(c, iv, data[..n], true, encrypt), data[n..], encrypt);
    }
  }

  /** Section 6.2, block by block: the input or output of every block is combined
      with the block before it on the wire, that of the first with the IV. */
  lemma {:induction false} BlockAt(c: Cipher, iv: Bytes, data: Bytes, send: bool, encrypt: bool, at: nat)
    requires |iv| == Block(c) && Whole(c, data) && at % Block(c) == 0 && at + Block(c) <= |data|
    ensures var n, o := Block(c), Run(c, iv, data, send, encrypt).0;
            at == 0 || at >= n
    ensures var n, o := Block(c), Run(c, iv, data, send, encrypt).0;
            var before := if at == 0 then iv else (if send then o else data)[at - n..at];
            o[at..at + n] == Output(c, before, data[at..at + n], send, encrypt)
    decreases at
  {
    hide Output, Run;
    var n := Block(c);
    RunStep(c, iv, data, send, encrypt);
    var o := Output(c, iv, data[..n], send, encrypt);
    var next := if send then o else data[..n];
    var rest := Run(c, next, data[n..], send, encrypt).0;
    var all := Run(c, iv, data, send, encrypt).0;
    if at == 0 {
      assert all[..n] == o && data[0..n] == data[..n];
    } else {
      BlockBack(c, at);
      BlockAt(c, next, data[n..], send, encrypt, at - n);
      SliceBehind(o, rest, at, n);
      SliceBehind(data[..n], data[n..], at, n);
      assert data == data[..n] + data[n..];
    }
  }

  lemma BlockBack(c: Cipher, at: nat)
    requires at > 0 && at % Block(c) == 0
    ensures at >= Block(c) && (at - Block(c)) % Block(c) == 0
  {
    if Block(c) == 8 {} else {}
  }

  lemma SliceBehind(a: Bytes, b: Bytes, at: nat, n: nat)
    requires |a| == n <= at && at <= |b|
    ensures (a + b)[at..at + n] == b[at - n..at]
    ensures at - n >= n ==> (a + b)[at - n..at] == b[at - n - n..at - n]
    ensures at == n ==> (a + b)[at - n..at] == a
  {}

  /** What one block becomes. */
  lemma OutputIs(c: Cipher, before: Bytes, b: Bytes, encrypt: bool)
    requires |before| == |b| == Block(c)
    ensures Output(c, before, b, true, encrypt) == Ecb(c, Xor(b, before), encrypt)
    ensures Output(c, before, b, false, encrypt) == Xor(Ecb(c, b, encrypt), before)
  {}

  /** CBC under a two-key key with equal halves is CBC under the DES key. */
  lemma {:induction false} DegradedRun(p: Primitives, k: Bytes, iv: Bytes, data: Bytes, send: bool, encrypt: bool)
    requires |k| == 8 && |iv| == 8 && |data| % 8 == 0
    ensures Run(RawCipher(p, TwoKeyTdea, k + k), iv, data, send, encrypt)
         == Run(RawCipher(p, DES, k), iv, data, send, encrypt)
    decreases |data|
  {
    if data != [] {
      var b := data[..8];
      DegradedBlock(p, k, if send then Xor(b, iv) else b, encrypt);
      var o := Output(RawCipher(p, DES, k), iv, b, send, encrypt);
      DegradedRun(p, k, if send then o else b, data[8..], send, encrypt);
    }
  }

  /** A processed prefix in front of the result for the rest. */
  function Join(done: Bytes, r: (Bytes, Bytes)): (Bytes, Bytes) {
    (done + r.0, r.1)
  }

  lemma JoinStep(c: Cipher, chain: Bytes, data: Bytes, send: bool, encrypt: bool, done: Bytes)
    requires |chain| == Block(c) && Whole(c, data) && data != []
    ensures var n := Block(c);
            var o := Output(c, chain, data[..n], send, encrypt);
            && n <= |data| && Whole(c, data[n..])
            && Join(done, Run(c, chain, data, send, encrypt))
               == Join(done + o, Run(c, if send then o else data[..n], data[n..], send, encrypt))
  {
    hide Output;
    var n := Block(c);
    var o := Output(c, chain, data[..n], send, encrypt);
    var rest := Run(c, if send then o else data[..n], data[n..], send, encrypt);
    assert done + (o + rest.0) == (done + o) + rest.0;
  }

  lemma JoinEnds(r: (Bytes, Bytes), done: Bytes, iv: Bytes)
    ensures Join([], r) == r
    ensures Join(done, ([], iv)) == (done, iv)
  {
    assert [] + r.0 == r.0 && done + [] == done;
  }

  /** One round of the loop: the block goes through a copy, so input and output
      may be the same memory. */
  method Round(c: Cipher, chain: Bytes, src: Bytes, send: bool, encrypt: bool) returns (dst: Bytes, next: Bytes)
    requires |chain| == |src| == Block(c)
    ensures dst == Output(c, chain, src, send, encrypt)
    ensures next == if send then dst else src
  {
    var block := src;
    if send {
      block := Xor(block, chain);
    }
    dst := Ecb(c, block, encrypt);
    if send {
      next := dst;
    } else {
      dst := Xor(dst, chain);
      next := src;
    }
  }

  /** The unread part of the input, though the output may be the same memory. */
  lemma Unread(before: Bytes, now: Bytes, from: nat, len: nat, done: Bytes, n: nat)
    requires from + len <= |before| && |done| + n <= len
    requires now == before || now == Splice(before, from, done)
    ensures |now| == |before|
    ensures now[from + |done|..from + |done| + n] == before[from..from + len][|done|..|done| + n]
  {
    hide Splice;
    SpliceAt(before, from, done);
    var a, b := now[from + |done|..from + |done| + n], before[from..from + len][|done|..|done| + n];
    forall i | 0 <= i < n ensures a[i] == b[i] {
      assert now[from + |done| + i] == before[from + |done| + i];
    }
  }

  /** The loop over the blocks, from `input` at `from` to `output` at `to`. */
  method Blocks(c: Cipher, start: Bytes, input: array<byte>, from: nat, len: nat, output: array<byte>, to: nat,
                send: bool, encrypt: bool) returns (chain: Bytes)
    requires from + len <= input.Length && to + len <= output.Length && len % Block(c) == 0 && |start| == Block(c)
    requires input == output ==> from == to
    modifies output
    ensures var r := Run(c, start, old(input[from..from + len]), send, encrypt);
            output[..] == Splice(old(output[..]), to, r.0) && chain == r.1
  {
    hide Output, Run, Join, Splice;
    var n := Block(c);
    chain := start;
    ghost var data := input[from..from + len];
    ghost var all := Run(c, chain, data, send, encrypt);
    ghost var done: Bytes := [];
    var off := 0;
    JoinEnds(all, [], []);
    SpliceAt(output[..], to, []);
    assert data[0..] == data;
    while off < len
      invariant 0 <= off <= len && |chain| == n && |done| == off && Whole(c, data[off..])
      invariant input != output ==> input[..] == old(input[..])
      invariant output[..] == Splice(old(output[..]), to, done)
      invariant Join(done, Run(c, chain, data[off..], send, encrypt)) == all
    {
      JoinStep(c, chain, data[off..], send, encrypt, done);
      var src := input[..][from + off..from + off + n];
      Unread(old(input[..]), input[..], from, len, done, n);
      TailSlices(data, off, n);
      var dst;
      dst, chain := Round(c, chain, src, send, encrypt);
      Blit(output, to + off, dst);
      SpliceExtend(old(output[..]), to, done, dst);
      done := done + dst;
      off := off + n;
    }
    assert data[off..] == [];
    RunEmpty(c, chain, send, encrypt);
    JoinEnds(all, done, chain);
  }

  /** nxpsc_cbc_crypt_ex on buffers. Input and output may be the same buffer, at
      the same offset. A null `iv` stands for zeros; otherwise it is updated. */
  method CryptInto(c: Cipher, iv: array?<byte>, input: array<byte>, from: nat, len: nat,
                   output: array<byte>, to: nat, send: bool, encrypt: bool) returns (ok: bool)
    requires from + len <= input.Length && to + len <= output.Length
    requires iv != null ==> iv.Length >= Block(c) && iv != input && iv != output
    requires input == output ==> from == to
    modifies output, iv
    ensures ok <==> len > 0 && len % Block(c) == 0
    ensures !ok ==> output[..] == old(output[..]) && (iv != null ==> iv[..] == old(iv[..]))
    ensures ok ==>
        var start := if iv == null then Zeros(Block(c)) else old(iv[..Block(c)]);
        var r := Run(c, start, old(input[from..from + len]), send, encrypt);
        output[..] == Splice(old(output[..]), to, r.0) && (iv != null ==> iv[..] == Splice(old(iv[..]), 0, r.1))
  {
    hide Run, Splice;
    var n := Block(c);
    if len == 0 || len % n != 0 {
      return false;
    }
    var chain := if iv == null then Zeros(n) else iv[..n];
    chain := Blocks(c, chain, input, from, len, output, to, send, encrypt);
    if iv != null {
      Blit(iv, 0, chain);
    }
    ok := true;
  }

  lemma TailSlices(data: Bytes, off: nat, n: nat)
    requires off + n <= |data|
    ensures data[off..][..n] == data[off..off + n] && data[off..][n..] == data[off + n..]
  {}

  lemma RunEmpty(c: Cipher, iv: Bytes, send: bool, encrypt: bool)
    requires |iv| == Block(c)
    ensures Run(c, iv, [], send, encrypt) == ([], iv)
  {}
}
