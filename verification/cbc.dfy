/** Cipher-block chaining over the block transform, as the decryptor applies
    it to the first 0x40 bytes of every entry: plaintext block `b` is the
    transform of ciphertext block `b` XORed with the previous ciphertext
    block, or with the initialisation vector for the first block. */
module Cbc {
  import opened Bytes
  import opened KeySchedule
  import opened BlockTransform

  /** CBC decryption of `c` (a whole number of blocks) under `key`, chained
      from `iv`. */
  function CbcDecrypt(t: Tables, key: seq<bv8>, iv: seq<bv8>, c: seq<bv8>): (p: seq<bv8>)
    requires |key| == RoundKeySize && |iv| == BlockSize && |c| % BlockSize == 0
    ensures |p| == |c|
    decreases |c|
  {
    if |c| == 0 then []
    else Whiten(Scramble(t, key, c[..BlockSize]), iv, 0) + CbcDecrypt(t, key, c[..BlockSize], c[BlockSize..])
  }

  /** Block `b` of `c`. */
  function BlockAt<T>(c: seq<T>, b: nat): (r: seq<T>)
    requires BlockSize * b + BlockSize <= |c|
    ensures |r| == BlockSize
  {
    c[BlockSize * b..BlockSize * b + BlockSize]
  }

  /** The chaining value block `b` is XORed with: the IV for block 0, the
      previous ciphertext block otherwise. */
  function ChainIn(iv: seq<bv8>, c: seq<bv8>, b: nat): (r: seq<bv8>)
    requires |iv| == BlockSize && BlockSize * b + BlockSize <= |c|
    ensures |r| == BlockSize
  {
    if b == 0 then iv else BlockAt(c, b - 1)
  }

  /** Plaintext block `b` as the chaining defines it: the transform of
      ciphertext block `b`, XORed with the chaining value. */
  function CbcPlainBlock(t: Tables, key: seq<bv8>, iv: seq<bv8>, c: seq<bv8>, b: nat): (r: seq<bv8>)
    requires |key| == RoundKeySize && |iv| == BlockSize && BlockSize * b + BlockSize <= |c|
    ensures |r| == BlockSize
  {
    Whiten(Scramble(t, key, BlockAt(c, b)), ChainIn(iv, c, b), 0)
  }

  /** Block `b` of the plaintext depends only on ciphertext blocks `b - 1`
      and `b`: it is the transform of block `b` XORed with the chaining
      value. */
  lemma {:induction false} CbcDecryptBlock(t: Tables, key: seq<bv8>, iv: seq<bv8>, c: seq<bv8>, b: nat)
    requires |key| == RoundKeySize && |iv| == BlockSize && |c| % BlockSize == 0
    requires BlockSize * b + BlockSize <= |c|
    ensures BlockAt(CbcDecrypt(t, key, iv, c), b) == CbcPlainBlock(t, key, iv, c, b)
    decreases b
  {
    var p := CbcDecrypt(t, key, iv, c);
    var head := Whiten(Scramble(t, key, c[..BlockSize]), iv, 0);
    var rest := CbcDecrypt(t, key, c[..BlockSize], c[BlockSize..]);
    assert p == head + rest;
    if b == 0 {
      assert BlockAt(p, 0) == head;
      assert BlockAt(c, 0) == c[..BlockSize];
    } else {
      var c' := c[BlockSize..];
      CbcDecryptBlock(t, key, c[..BlockSize], c', b - 1);
      assert BlockAt(p, b) == BlockAt(rest, b - 1);
      assert BlockAt(c, b) == BlockAt(c', b - 1);
      assert ChainIn(iv, c, b) == ChainIn(c[..BlockSize], c', b - 1);
    }
  }

  /** Two block sequences that agree block by block are equal. */
  lemma BlocksDetermine(x: seq<bv8>, y: seq<bv8>, n: nat)
    requires |x| == BlockSize * n && |y| == BlockSize * n
    requires forall b :: 0 <= b < n ==> BlockAt(x, b) == BlockAt(y, b)
    ensures x == y
  {
    forall p | 0 <= p < |x|
      ensures x[p] == y[p]
    {
      var b := p / BlockSize;
      assert BlockAt(x, b)[p % BlockSize] == BlockAt(y, b)[p % BlockSize];
    }
  }

  /** One chaining step in place: the block at `offset` is decrypted by the
      transform and XORed with the chaining value `chain`. */
  method DecryptBlockInPlace(t: Tables, key: seq<bv8>, data: seq<bv8>, offset: nat, chain: seq<bv8>) returns (out: seq<bv8>)
    requires |key| == RoundKeySize && |chain| == BlockSize && offset + BlockSize <= |data|
    ensures SameOutside(data, out, offset, offset + BlockSize)
    ensures out[offset..offset + BlockSize] == Whiten(Scramble(t, key, data[offset..offset + BlockSize]), chain, 0)
  {
    var scrambled := NotBlkKeyScramble(t, key, data, offset);
    out := WhitenInPlace(chain, scrambled, offset);
    SameOutsideTrans(data, scrambled, out, offset, offset + BlockSize);
  }

  /** The part of an entry the decryptor decrypts: its first 0x40 bytes,
      four blocks. */
  const EntryPrefix := 0x40

  /** Block `d` of the prefix at `offset` is the buffer's slice at
      `offset + 16 d`. */
  lemma BlockOfPrefix<T>(s: seq<T>, offset: nat, d: nat)
    requires offset + EntryPrefix <= |s| && d < 4
    ensures BlockAt(s[offset..offset + EntryPrefix], d) == s[offset + BlockSize * d..offset + BlockSize * d + BlockSize]
  {
    var x, y := BlockAt(s[offset..offset + EntryPrefix], d), s[offset + BlockSize * d..offset + BlockSize * d + BlockSize];
    forall q | 0 <= q < BlockSize
      ensures x[q] == y[q]
    {
      assert x[q] == s[offset..offset + EntryPrefix][BlockSize * d + q];
    }
  }

  /** Progress of the per-entry loop after `b` blocks: blocks `.. b` of the
      prefix at `offset` hold `expected`, the rest of the prefix still holds
      its original bytes, and nothing outside the prefix has changed. */
  ghost predicate PrefixDone<T>(data: seq<T>, out: seq<T>, offset: nat, b: nat, expected: seq<seq<T>>)
    requires offset + EntryPrefix <= |data| && b <= 4 && |expected| == 4
  {
    SameOutside(data, out, offset, offset + EntryPrefix)
    && (forall p :: offset + BlockSize * b <= p < offset + EntryPrefix ==> out[p] == data[p])
    && (forall d :: 0 <= d < b ==> BlockAt(out[offset..offset + EntryPrefix], d) == expected[d])
  }

  /** Before the loop nothing has been written. */
  lemma PrefixStart<T>(data: seq<T>, offset: nat, expected: seq<seq<T>>)
    requires offset + EntryPrefix <= |data| && |expected| == 4
    ensures PrefixDone(data, data, offset, 0, expected)
  {
  }

  /** While block `b` is still to be written, the buffer holds its original
      bytes. */
  lemma PrefixPending<T>(data: seq<T>, out: seq<T>, offset: nat, b: nat, expected: seq<seq<T>>)
    requires offset + EntryPrefix <= |data| && b < 4 && |expected| == 4
    requires PrefixDone(data, out, offset, b, expected)
    ensures out[offset + BlockSize * b..offset + BlockSize * b + BlockSize] == BlockAt(data[offset..offset + EntryPrefix], b)
  {
    BlockOfPrefix(data, offset, b);
    var lo := offset + BlockSize * b;
    assert out[lo..lo + BlockSize] == data[lo..lo + BlockSize] by {
      forall q | lo <= q < lo + BlockSize
        ensures out[q] == data[q]
      {
      }
    }
  }

  /** Writing block `b` of the prefix at `offset` keeps the blocks before
      it: if `out` held the blocks `expected[.. b]` and `next` differs from
      `out` only in block `b`, which holds `expected[b]`, then `next` holds
      `expected[.. b + 1]`. */
  lemma StepBlocks<T>(expected: seq<seq<T>>, out: seq<T>, next: seq<T>, offset: nat, b: nat)
    requires |expected| == 4 && b < 4 && offset + EntryPrefix <= |out| && |next| == |out|
    requires forall p :: 0 <= p < |out| && !(offset + BlockSize * b <= p < offset + BlockSize * b + BlockSize) ==> next[p] == out[p]
    requires next[offset + BlockSize * b..offset + BlockSize * b + BlockSize] == expected[b]
    requires forall d :: 0 <= d < b ==> BlockAt(out[offset..offset + EntryPrefix], d) == expected[d]
    ensures forall d :: 0 <= d < b + 1 ==> BlockAt(next[offset..offset + EntryPrefix], d) == expected[d]
  {
    forall d | 0 <= d < b + 1
      ensures BlockAt(next[offset..offset + EntryPrefix], d) == expected[d]
    {
      BlockOfPrefix(next, offset, d);
      if d < b {
        BlockOfPrefix(out, offset, d);
        var lo := offset + BlockSize * d;
        assert next[lo..lo + BlockSize] == out[lo..lo + BlockSize] by {
          forall q | lo <= q < lo + BlockSize
            ensures next[q] == out[q]
          {
          }
        }
      }
    }
  }

  /** Once block `b` holds `expected[b]` and nothing else changed, the loop
      has made progress `b + 1`. */
  lemma PrefixStep<T>(data: seq<T>, out: seq<T>, next: seq<T>, offset: nat, b: nat, expected: seq<seq<T>>)
    requires offset + EntryPrefix <= |data| && b < 4 && |expected| == 4
    requires PrefixDone(data, out, offset, b, expected)
    requires SameOutside(out, next, offset + BlockSize * b, offset + BlockSize * b + BlockSize)
    requires next[offset + BlockSize * b..offset + BlockSize * b + BlockSize] == expected[b]
    ensures PrefixDone(data, next, offset, b + 1, expected)
  {
    StepBlocks(expected, out, next, offset, b);
    SameOutsideTrans(data, out, next, offset, offset + EntryPrefix);
  }

  /** After the loop every block of the prefix holds its expected contents. */
  lemma PrefixEnd<T>(data: seq<T>, out: seq<T>, offset: nat, expected: seq<seq<T>>)
    requires offset + EntryPrefix <= |data| && |expected| == 4
    requires PrefixDone(data, out, offset, 4, expected)
    ensures SameOutside(data, out, offset, offset + EntryPrefix)
    ensures forall d :: 0 <= d < 4 ==> BlockAt(out[offset..offset + EntryPrefix], d) == expected[d]
  {
  }

  /** Plaintext block `b` is the transform of any copy of ciphertext block
      `b`, XORed with any copy of its chaining value. */
  lemma PlainBlockOf(t: Tables, key: seq<bv8>, iv: seq<bv8>, c: seq<bv8>, b: nat, block: seq<bv8>, chain: seq<bv8>)
    requires |key| == RoundKeySize && |iv| == BlockSize && BlockSize * b + BlockSize <= |c|
    requires block == BlockAt(c, b) && chain == ChainIn(iv, c, b)
    ensures Whiten(Scramble(t, key, block), chain, 0) == CbcPlainBlock(t, key, iv, c, b)
  {
  }

  /** A chain of three equalities. */
  lemma EqualChain<T>(w: seq<T>, x: seq<T>, y: seq<T>, z: seq<T>)
    requires w == x && x == y && y == z
    ensures w == z
  {
  }

  /** One pass of the per-entry loop: the chaining value of block `b` is
      kept in `scratch`, the ciphertext of block `b` is saved in `temp` as
      the next chaining value, and block `b` is decrypted in place. */
  method DecryptPrefixBlock(t: Tables, key: seq<bv8>, iv: seq<bv8>, data: seq<bv8>, offset: nat,
                            ghost expected: seq<seq<bv8>>, out: seq<bv8>, temp: seq<bv8>, b: nat)
    returns (next: seq<bv8>, nextTemp: seq<bv8>)
    requires |key| == RoundKeySize && |iv| == BlockSize && offset + EntryPrefix <= |data| && b < 4
    requires |expected| == 4 && CbcPlainBlock(t, key, iv, data[offset..offset + EntryPrefix], b) == expected[b]
    requires PrefixDone(data, out, offset, b, expected)
    requires temp == ChainIn(iv, data[offset..offset + EntryPrefix], b)
    ensures PrefixDone(data, next, offset, b + 1, expected)
    ensures nextTemp == BlockAt(data[offset..offset + EntryPrefix], b)
  {
    var scratch := temp;
    PrefixPending(data, out, offset, b, expected);
    nextTemp := out[offset + BlockSize * b..offset + BlockSize * b + BlockSize];
    next := DecryptBlockInPlace(t, key, out, offset + BlockSize * b, scratch);
    PlainBlockOf(t, key, iv, data[offset..offset + EntryPrefix], b,
                 out[offset + BlockSize * b..offset + BlockSize * b + BlockSize], scratch);
    EqualChain(next[offset + BlockSize * b..offset + BlockSize * b + BlockSize],
               Whiten(Scramble(t, key, out[offset + BlockSize * b..offset + BlockSize * b + BlockSize]), scratch, 0),
               CbcPlainBlock(t, key, iv, data[offset..offset + EntryPrefix], b),
               expected[b]);
    PrefixStep(data, out, next, offset, b, expected);
  }

  /** The per-entry loop of the decryptor: the four blocks at `offset` are
      CBC-decrypted in place, each chained from the ciphertext block before it
      (saved in `temp` before the block is overwritten) and the first from
      `iv`. Nothing outside the prefix changes. */
  method DecryptEntryPrefix(t: Tables, key: seq<bv8>, iv: seq<bv8>, data: seq<bv8>, offset: nat) returns (out: seq<bv8>)
    requires |key| == RoundKeySize && |iv| == BlockSize && offset + EntryPrefix <= |data|
    ensures SameOutside(data, out, offset, offset + EntryPrefix)
    ensures out[offset..offset + EntryPrefix] == CbcDecrypt(t, key, iv, data[offset..offset + EntryPrefix])
  {
    ghost var c := data[offset..offset + EntryPrefix];
    ghost var expected := seq(4, d requires 0 <= d < 4 => CbcPlainBlock(t, key, iv, c, d));
    var temp := iv;
    out := data;
    PrefixStart(data, offset, expected);
    var b := 0;
    while b < 4
      invariant 0 <= b <= 4
      invariant PrefixDone(data, out, offset, b, expected)
      invariant b < 4 ==> temp == ChainIn(iv, c, b)
    {
      out, temp := DecryptPrefixBlock(t, key, iv, data, offset, expected, out, temp, b);
      b := b + 1;
    }
    PrefixEnd(data, out, offset, expected);
    var p := CbcDecrypt(t, key, iv, c);
    forall d | 0 <= d < 4
      ensures BlockAt(out[offset..offset + EntryPrefix], d) == BlockAt(p, d)
    {
      CbcDecryptBlock(t, key, iv, c, d);
      assert BlockAt(p, d) == expected[d];
    }
    BlocksDetermine(out[offset..offset + EntryPrefix], p, 4);
  }
}
