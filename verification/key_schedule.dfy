/** The key fold: 0xB00 bytes of unmasked key material are folded, sixteen
    bytes at a time, into the 0xB0-byte round-key schedule (eleven 16-byte
    subkeys) that the block transform consumes. */
module KeySchedule {
  import opened Bytes

  const KeyMaterialSize := 0xB00
  const RoundKeySize := 0xB0

  /** `XorCombine(input, offset, size)`: the loop `ret ^= input[i]` over
      `i` in `[offset, offset + size)`, in that order. */
  function XorCombine(input: seq<bv8>, offset: nat, size: nat): bv8
    requires offset + size <= |input|
    decreases size
  {
    if size == 0 then 0 else XorCombine(input, offset, size - 1) ^ input[offset + size - 1]
  }

  /** The combine loop computes the XOR of the bytes it visits. */
  lemma {:induction false} XorCombineIsXorAll(input: seq<bv8>, offset: nat, size: nat)
    requires offset + size <= |input|
    ensures XorCombine(input, offset, size) == XorAll(input[offset..offset + size])
    decreases size
  {
    if size > 0 {
      var before := input[offset..offset + size - 1];
      var last := input[offset + size - 1];
      assert input[offset..offset + size] == before + [last];
      XorCombineIsXorAll(input, offset, size - 1);
      XorAllAppend(before, [last]);
      XorAllCons([last]);
    }
  }

  /** `CompressKey(data, key)`: key byte `i` is the XOR of the sixteen bytes
      `data[16i .. 16i + 16)`. */
  function CompressKey(data: seq<bv8>): (key: seq<bv8>)
    requires |data| >= KeyMaterialSize
    ensures |key| == RoundKeySize
    ensures forall i :: 0 <= i < RoundKeySize ==> key[i] == XorAll(data[16 * i..16 * i + 16])
  {
    var key := seq(RoundKeySize, i requires 0 <= i < RoundKeySize => XorCombine(data, 16 * i, 16));
    assert forall i :: 0 <= i < RoundKeySize ==> key[i] == XorAll(data[16 * i..16 * i + 16]) by {
      forall i | 0 <= i < RoundKeySize {
        XorCombineIsXorAll(data, 16 * i, 16);
      }
    }
    key
  }

  /** Flipping the bits `d` of input byte `j` flips the same bits of a
      combine that covers `j`, and no bit of one that does not. */
  lemma {:induction false} XorCombineFlip(input: seq<bv8>, offset: nat, size: nat, j: nat, d: bv8)
    requires offset + size <= |input| && j < |input|
    ensures XorCombine(input[j := input[j] ^ d], offset, size)
         == XorCombine(input, offset, size) ^ (if offset <= j < offset + size then d else 0)
    decreases size
  {
    if size > 0 {
      XorCombineFlip(input, offset, size - 1, j, d);
    }
  }

  /** Fold locality: flipping the bits `d` of key-material byte `b` flips the
      same bits of key byte `b / 16` and leaves every other key byte alone. */
  lemma CompressKeyLocality(data: seq<bv8>, b: nat, d: bv8)
    requires |data| >= KeyMaterialSize
    requires b < |data|
    ensures forall i :: 0 <= i < RoundKeySize ==>
      CompressKey(data[b := data[b] ^ d])[i] == CompressKey(data)[i] ^ (if i == b / 16 then d else 0)
  {
    var data' := data[b := data[b] ^ d];
    forall i | 0 <= i < RoundKeySize
      ensures CompressKey(data')[i] == CompressKey(data)[i] ^ (if i == b / 16 then d else 0)
    {
      XorCombineFlip(data, 16 * i, 16, b, d);
      ChunkOf(b, i);
      CompressKeyAt(data, i);
      CompressKeyAt(data', i);
    }
  }

  /** Key byte `i` is the combine over its sixteen input bytes. */
  lemma CompressKeyAt(data: seq<bv8>, i: nat)
    requires |data| >= KeyMaterialSize && i < RoundKeySize
    ensures CompressKey(data)[i] == XorCombine(data, 16 * i, 16)
  {
    XorCombineIsXorAll(data, 16 * i, 16);
  }

  /** Byte `b` lies in chunk `i` exactly when `i` is `b / 16`. */
  lemma ChunkOf(b: nat, i: nat)
    ensures (16 * i <= b < 16 * i + 16) <==> i == b / 16
  {
  }
}
