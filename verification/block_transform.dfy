/** The 16-byte block transform (`NotBlkKeyScramble`): a substitution-
    permutation network that decrypts one block in place under the 0xB0-byte
    round-key schedule. Its steps are an initial whitening with subkey 0, nine
    table-lookup rounds (round `r` mixes through the byte permutation
    `IndexScramble`, packs four 32-bit lanes little-endian and XORs subkey
    `r`), a terminal byte substitution `p6[t] ^ ~t`, and a final whitening
    with subkey 10 (`key[160 .. 176)`). */
module BlockTransform {
  import opened Bytes
  import opened KeySchedule

  const BlockSize := 16
  const MainRounds := 9

  type Index16 = i: int | 0 <= i < 16

  /** `indexScramble`: output lane `j` of a round reads the input bytes at
      positions `IndexScramble[4j .. 4j + 4)`. */
  const IndexScramble: seq<Index16> := [0, 13, 10, 7, 4, 1, 14, 11, 8, 5, 2, 15, 12, 9, 6, 3]

  /** The substitution tables `BlkStuff1p2 .. BlkStuff1p6`. Their contents are
      fixed data of the original and enter the model as parameters. */
  datatype Tables = Tables(
    p2: bv8 -> bv32,
    p3: bv8 -> bv32,
    p4: bv8 -> bv32,
    p5: bv8 -> bv32,
    p6: bv8 -> bv8)

  /** XOR of a block with the 16 round-key bytes starting at `base`. */
  function Whiten(s: seq<bv8>, key: seq<bv8>, base: nat): (r: seq<bv8>)
    requires |s| == BlockSize && base + BlockSize <= |key|
    ensures |r| == BlockSize
    ensures forall i {:trigger r[i]} :: 0 <= i < BlockSize ==> r[i] == s[i] ^ key[base + i]
  {
    seq(BlockSize, i requires 0 <= i < BlockSize => s[i] ^ key[base + i])
  }

  /** Lane `j` of a main round: four table lookups on the permuted bytes. */
  function Lane(t: Tables, s: seq<bv8>, j: nat): bv32
    requires |s| == BlockSize && j < 4
  {
    Lookup(t, s[IndexScramble[4 * j]], s[IndexScramble[4 * j + 1]],
           s[IndexScramble[4 * j + 2]], s[IndexScramble[4 * j + 3]])
  }

  /** The four table lookups of one lane, on the bytes it reads. */
  function Lookup(t: Tables, b0: bv8, b1: bv8, b2: bv8, b3: bv8): bv32
  {
    t.p2(b0) ^ t.p3(b1) ^ t.p4(b2) ^ t.p5(b3)
  }

  /** Main round `round` (1 to 9): the four lanes, copied out as bytes the way
      `Buffer.BlockCopy` lays out a `uint[]` (lane `q / 4`, byte `q % 4`,
      least significant first), XORed with subkey `round`. */
  function MixRound(t: Tables, key: seq<bv8>, s: seq<bv8>, round: nat): (r: seq<bv8>)
    requires |s| == BlockSize && |key| == RoundKeySize
    requires 1 <= round <= MainRounds
    ensures |r| == BlockSize
  {
    seq(BlockSize, q requires 0 <= q < BlockSize => Byte32(Lane(t, s, q / 4), q % 4) ^ key[16 * round + q])
  }

  /** The working block after main rounds `1 .. n`. */
  function Rounds(t: Tables, key: seq<bv8>, s: seq<bv8>, n: nat): seq<bv8>
    requires |s| == BlockSize && |key| == RoundKeySize
    requires n <= MainRounds
  {
    RoundChain(t, key, s, n)
  }

  /** The recursion behind `Rounds`: round `n` applied to the block after
      rounds `1 .. n - 1`. Contracts name `Rounds`, so that a proof never has
      to match two unfoldings of the recursion against each other. */
  function RoundChain(t: Tables, key: seq<bv8>, s: seq<bv8>, n: nat): (r: seq<bv8>)
    requires |s| == BlockSize && |key| == RoundKeySize
    requires n <= MainRounds
    ensures |r| == BlockSize
  {
    if n == 0 then s else MixRound(t, key, RoundChain(t, key, s, n - 1), n)
  }

  /** One more main round on top of the first `n`. */
  lemma RoundsStep(t: Tables, key: seq<bv8>, s: seq<bv8>, n: nat)
    requires |s| == BlockSize && |key| == RoundKeySize
    requires n < MainRounds
    ensures |Rounds(t, key, s, n)| == BlockSize
    ensures Rounds(t, key, s, n + 1) == MixRound(t, key, Rounds(t, key, s, n), n + 1)
  {
  }

  /** The terminal substitution of one byte, `(byte)(BlkStuff1p6[t] ^ ~t)`:
      the complement `~t` is taken on the widened value, and the cast keeps
      its low eight bits, which are the complement of `t` as a byte. */
  function FinalByte(t: Tables, x: bv8): bv8
  {
    t.p6(x) ^ !x
  }

  /** The terminal round: substitution of the permuted bytes, no lane mixing. */
  function FinalSub(t: Tables, s: seq<bv8>): (r: seq<bv8>)
    requires |s| == BlockSize
    ensures |r| == BlockSize
  {
    seq(BlockSize, i requires 0 <= i < BlockSize => FinalByte(t, s[IndexScramble[i]]))
  }

  /** Stage 10 of the transform: the terminal round. */
  const FinalStage := MainRounds + 1

  /** The working block after stage `n` of the transform on the ciphertext
      block `c`: stages `0 .. 9` are the initial whitening with subkey 0
      followed by main rounds `1 .. n`, and stage 10 is the terminal
      substitution of stage 9 followed by the whitening with subkey 10.
      Stage 10 is written as a call on stage 9, so that a proof about the
      whole transform sees the main rounds only when it asks for them. */
  function Stage(t: Tables, key: seq<bv8>, c: seq<bv8>, n: nat): (r: seq<bv8>)
    requires |c| == BlockSize && |key| == RoundKeySize
    requires n <= FinalStage
    ensures |r| == BlockSize
  {
    if n < FinalStage then Rounds(t, key, Whiten(c, key, 0), n)
    else Whiten(FinalSub(t, Stage(t, key, c, MainRounds)), key, 160)
  }

  /** The whole block transform on the 16 ciphertext bytes `c`. */
  function Scramble(t: Tables, key: seq<bv8>, c: seq<bv8>): (r: seq<bv8>)
    requires |c| == BlockSize && |key| == RoundKeySize
    ensures |r| == BlockSize
  {
    Stage(t, key, c, FinalStage)
  }

  /** The transform is the initial whitening, the nine main rounds and the
      terminal round, one after the other. */
  lemma ScrambleStages(t: Tables, key: seq<bv8>, c: seq<bv8>)
    requires |c| == BlockSize && |key| == RoundKeySize
    ensures Scramble(t, key, c) == Whiten(FinalSub(t, Rounds(t, key, Whiten(c, key, 0), MainRounds)), key, 160)
  {
    assert Stage(t, key, c, MainRounds) == Rounds(t, key, Whiten(c, key, 0), MainRounds);
  }

  /** The last step of the transform: output byte `i` is
      `(p6[x] ^ ~x) ^ key[160 + i]` where `x` is byte `IndexScramble[i]` of the
      block after the initial whitening and the nine main rounds. */
  lemma ScrambleFinalStep(t: Tables, key: seq<bv8>, c: seq<bv8>)
    requires |c| == BlockSize && |key| == RoundKeySize
    ensures forall i :: 0 <= i < BlockSize ==>
      Scramble(t, key, c)[i]
        == FinalByte(t, Rounds(t, key, Whiten(c, key, 0), MainRounds)[IndexScramble[i]]) ^ key[160 + i]
  {
    ScrambleStages(t, key, c);
  }

  /** `indexScramble` is the inverse of AES ShiftRows on a column-major 4x4
      state: position `4c + r` (column `c`, row `r`) reads column `c - r`
      (mod 4) of the same row. */
  lemma IndexScrambleIsInvShiftRows()
    ensures forall i :: 0 <= i < BlockSize ==>
      IndexScramble[i] == 4 * ((i / 4 + 4 - i % 4) % 4) + i % 4
  {
    forall i | 0 <= i < BlockSize
      ensures IndexScramble[i] == 4 * ((i / 4 + 4 - i % 4) % 4) + i % 4
    {
      if i < 8 {
        if i < 4 {
          assert i == 0 || i == 1 || i == 2 || i == 3;
        } else {
          assert i == 4 || i == 5 || i == 6 || i == 7;
        }
      } else {
        if i < 12 {
          assert i == 8 || i == 9 || i == 10 || i == 11;
        } else {
          assert i == 12 || i == 13 || i == 14 || i == 15;
        }
      }
    }
  }

  /** The lane that reads byte `q` of a round's input. */
  function ReaderLane(q: Index16): (j: nat)
    ensures j < 4
  {
    (q / 4 + q % 4) % 4
  }

  /** Lane `i / 4` reads position `IndexScramble[i]`, which keeps the row
      `i % 4`: each position is read by exactly one lane. */
  lemma IndexScrambleReaders()
    ensures forall i :: 0 <= i < BlockSize ==>
      ReaderLane(IndexScramble[i]) == i / 4 && IndexScramble[i] % 4 == i % 4
  {
    forall i | 0 <= i < BlockSize
      ensures ReaderLane(IndexScramble[i]) == i / 4 && IndexScramble[i] % 4 == i % 4
    {
      if i < 8 {
        if i < 4 {
          assert i == 0 || i == 1 || i == 2 || i == 3;
        } else {
          assert i == 4 || i == 5 || i == 6 || i == 7;
        }
      } else {
        if i < 12 {
          assert i == 8 || i == 9 || i == 10 || i == 11;
        } else {
          assert i == 12 || i == 13 || i == 14 || i == 15;
        }
      }
    }
  }

  /** `indexScramble` is a permutation of the sixteen byte positions. */
  lemma IndexScramblePermutation()
    ensures forall a, b :: 0 <= a < b < BlockSize ==> IndexScramble[a] != IndexScramble[b]
  {
    IndexScrambleReaders();
    forall a, b | 0 <= a < b < BlockSize
      ensures IndexScramble[a] != IndexScramble[b]
    {
      assert a / 4 != b / 4 || a % 4 != b % 4;
    }
  }

  /** Lane `j` reads a position that another lane's reader does not. */
  lemma ReadByLane(j: nat, m: nat, q: Index16)
    requires j < 4 && m < 4 && j != ReaderLane(q)
    ensures IndexScramble[4 * j + m] != q
  {
    IndexScrambleReaders();
    assert ReaderLane(IndexScramble[4 * j + m]) == (4 * j + m) / 4 == j;
  }

  /** A lane reads only its four permuted positions: blocks that differ only
      at position `q` give the same value in every lane other than
      `ReaderLane(q)`. */
  lemma LaneIgnoresOtherBytes(t: Tables, s1: seq<bv8>, s2: seq<bv8>, q: Index16, j: nat)
    requires |s1| == BlockSize && |s2| == BlockSize
    requires forall p :: 0 <= p < BlockSize && p != q ==> s1[p] == s2[p]
    requires j < 4 && j != ReaderLane(q)
    ensures Lane(t, s1, j) == Lane(t, s2, j)
  {
    ReadByLane(j, 0, q);
    ReadByLane(j, 1, q);
    ReadByLane(j, 2, q);
    ReadByLane(j, 3, q);
    var a0, a1, a2, a3 := IndexScramble[4 * j], IndexScramble[4 * j + 1], IndexScramble[4 * j + 2], IndexScramble[4 * j + 3];
    assert s1[a0] == s2[a0] && s1[a1] == s2[a1] && s1[a2] == s2[a2] && s1[a3] == s2[a3];
  }

  /** A round mixes each input byte into one lane only: blocks that differ
      only at position `q` give round outputs that agree on the twelve bytes
      of the other three lanes. */
  lemma MixRoundByteLocality(t: Tables, key: seq<bv8>, s1: seq<bv8>, s2: seq<bv8>, round: nat, q: Index16)
    requires |s1| == BlockSize && |s2| == BlockSize && |key| == RoundKeySize
    requires 1 <= round <= MainRounds
    requires forall p :: 0 <= p < BlockSize && p != q ==> s1[p] == s2[p]
    ensures forall p :: 0 <= p < BlockSize && p / 4 != ReaderLane(q) ==>
      MixRound(t, key, s1, round)[p] == MixRound(t, key, s2, round)[p]
  {
    forall j | 0 <= j < 4 && j != ReaderLane(q)
      ensures Lane(t, s1, j) == Lane(t, s2, j)
    {
      LaneIgnoresOtherBytes(t, s1, s2, q, j);
    }
  }

  /** Round `round` reads only subkey `round` of the schedule. */
  lemma MixRoundReadsOnlyItsSubkey(t: Tables, k1: seq<bv8>, k2: seq<bv8>, s: seq<bv8>, round: nat)
    requires |s| == BlockSize && |k1| == RoundKeySize && |k2| == RoundKeySize
    requires 1 <= round <= MainRounds
    requires forall i :: 16 * round <= i < 16 * round + 16 ==> k1[i] == k2[i]
    ensures MixRound(t, k1, s, round) == MixRound(t, k2, s, round)
  {
    var r1, r2 := MixRound(t, k1, s, round), MixRound(t, k2, s, round);
    forall q | 0 <= q < BlockSize
      ensures r1[q] == r2[q]
    {
      assert k1[16 * round + q] == k2[16 * round + q];
    }
  }

  /** Main rounds `1 .. n` read only subkeys `1 .. n`: two schedules that
      agree on their first `16 (n + 1)` bytes give the same working block. */
  lemma {:induction false} RoundsReadOnlyTheirSubkeys(t: Tables, k1: seq<bv8>, k2: seq<bv8>, s: seq<bv8>, n: nat)
    requires |s| == BlockSize && |k1| == RoundKeySize && |k2| == RoundKeySize
    requires n <= MainRounds
    requires forall i :: 0 <= i < 16 * (n + 1) ==> k1[i] == k2[i]
    ensures Rounds(t, k1, s, n) == Rounds(t, k2, s, n)
  {
    if n > 0 {
      RoundsReadOnlyTheirSubkeys(t, k1, k2, s, n - 1);
      ghost var before := Rounds(t, k1, s, n - 1);
      assert before == Rounds(t, k2, s, n - 1);
      MixRoundReadsOnlyItsSubkey(t, k1, k2, before, n);
      RoundsStep(t, k1, s, n - 1);
      RoundsStep(t, k2, s, n - 1);
    }
  }

  /** Subkey 10 (`key[160 .. 176)`) acts only as output whitening: changing it
      changes each output byte by exactly the XOR of the old and new subkey
      byte, whatever the block and the other subkeys. */
  lemma FinalSubkeyIsOutputWhitening(t: Tables, k1: seq<bv8>, k2: seq<bv8>, c: seq<bv8>)
    requires |c| == BlockSize && |k1| == RoundKeySize && |k2| == RoundKeySize
    requires forall i :: 0 <= i < 160 ==> k1[i] == k2[i]
    ensures forall i :: 0 <= i < BlockSize ==>
      Scramble(t, k2, c)[i] == Scramble(t, k1, c)[i] ^ k1[160 + i] ^ k2[160 + i]
  {
    var w1, w2 := Whiten(c, k1, 0), Whiten(c, k2, 0);
    assert w1 == w2;
    RoundsReadOnlyTheirSubkeys(t, k1, k2, w1, MainRounds);
    ScrambleFinalStep(t, k1, c);
    ScrambleFinalStep(t, k2, c);
  }

  /** `a` and `b` have the same length and agree outside `[lo, hi)`. */
  ghost predicate SameOutside<T>(a: seq<T>, b: seq<T>, lo: nat, hi: nat)
  {
    |a| == |b| && forall p :: 0 <= p < |a| && !(lo <= p < hi) ==> a[p] == b[p]
  }

  /** XOR of the block at `offset` in place with the first 16 bytes of
      `key`: the initial whitening with subkey 0, and the chaining step of
      the decryptor. */
  method WhitenInPlace(key: seq<bv8>, data: seq<bv8>, offset: nat) returns (out: seq<bv8>)
    requires offset + BlockSize <= |data| && BlockSize <= |key|
    ensures SameOutside(data, out, offset, offset + BlockSize)
    ensures out[offset..offset + BlockSize] == Whiten(data[offset..offset + BlockSize], key, 0)
  {
    out := data;
    for i := 0 to 16
      invariant SameOutside(data, out, offset, offset + BlockSize)
      invariant forall p :: offset <= p < offset + i ==> out[p] == data[p] ^ key[p - offset]
      invariant forall p :: offset + i <= p < offset + BlockSize ==> out[p] == data[p]
    {
      out := out[i + offset := out[i + offset] ^ key[i]];
    }
  }

  /** Lane `j` of the block at `offset`, read directly from the buffer. */
  lemma LaneInBuffer(t: Tables, data: seq<bv8>, offset: nat, j: nat)
    requires offset + BlockSize <= |data| && j < 4
    ensures Lane(t, data[offset..offset + BlockSize], j)
      == Lookup(t, data[IndexScramble[4 * j] + offset], data[IndexScramble[4 * j + 1] + offset],
                data[IndexScramble[4 * j + 2] + offset], data[IndexScramble[4 * j + 3] + offset])
  {
    var state := data[offset..offset + BlockSize];
    var a0, a1, a2, a3 := IndexScramble[4 * j], IndexScramble[4 * j + 1], IndexScramble[4 * j + 2], IndexScramble[4 * j + 3];
    assert data[a0 + offset] == state[a0] && data[a1 + offset] == state[a1];
    assert data[a2 + offset] == state[a2] && data[a3 + offset] == state[a3];
  }

  /** The four lanes of a main round, accumulated into `scratch` from the
      block at `offset` one table lookup at a time. */
  method ComputeLanes(t: Tables, data: seq<bv8>, offset: nat) returns (scratch: seq<bv32>)
    requires offset + BlockSize <= |data|
    ensures |scratch| == 4
    ensures forall j :: 0 <= j < 4 ==> scratch[j] == Lane(t, data[offset..offset + BlockSize], j)
  {
    scratch := [0, 0, 0, 0];
    for j := 0 to 4
      invariant |scratch| == 4
      invariant forall jj :: 0 <= jj < j ==> scratch[jj] == Lane(t, data[offset..offset + BlockSize], jj)
      invariant forall jj :: j <= jj < 4 ==> scratch[jj] == 0
    {
      var lane := scratch[j];
      lane := lane ^ t.p2(data[IndexScramble[4 * j + 0] + offset]);
      lane := lane ^ t.p3(data[IndexScramble[4 * j + 1] + offset]);
      lane := lane ^ t.p4(data[IndexScramble[4 * j + 2] + offset]);
      lane := lane ^ t.p5(data[IndexScramble[4 * j + 3] + offset]);
      LaneInBuffer(t, data, offset, j);
      scratch := scratch[j := lane];
    }
  }

  /** A main round is the whitening, with subkey `round`, of the
      little-endian copy of its four lanes. */
  lemma MixRoundFromLanes(t: Tables, key: seq<bv8>, s: seq<bv8>, round: nat, lanes: seq<bv32>)
    requires |s| == BlockSize && |key| == RoundKeySize
    requires 1 <= round <= MainRounds
    requires |lanes| == 4 && forall j :: 0 <= j < 4 ==> lanes[j] == Lane(t, s, j)
    ensures MixRound(t, key, s, round) == Whiten(PackLE32(lanes), key, 16 * round)
  {
  }

  /** The write-back loop shared by the main and terminal rounds: byte `j` of
      the block at `offset` becomes `src[j] ^ key[base + j]`. */
  method StoreWhitened(data: seq<bv8>, offset: nat, src: seq<bv8>, key: seq<bv8>, base: nat) returns (out: seq<bv8>)
    requires offset + BlockSize <= |data| && |src| == BlockSize && base + BlockSize <= |key|
    ensures SameOutside(data, out, offset, offset + BlockSize)
    ensures out[offset..offset + BlockSize] == Whiten(src, key, base)
  {
    out := data;
    for j := 0 to 16
      invariant SameOutside(data, out, offset, offset + BlockSize)
      invariant forall p :: offset <= p < offset + j ==> out[p] == src[p - offset] ^ key[base + p - offset]
    {
      out := out[j + offset := src[j] ^ key[base + j]];
    }
  }

  /** One main round in place: the lanes of the current block, copied out as
      bytes, XORed with subkey `round` and written back over the block. */
  method MainRoundInPlace(t: Tables, key: seq<bv8>, data: seq<bv8>, offset: nat, round: nat) returns (out: seq<bv8>)
    requires offset + BlockSize <= |data| && |key| == RoundKeySize
    requires 1 <= round <= MainRounds
    ensures SameOutside(data, out, offset, offset + BlockSize)
    ensures out[offset..offset + BlockSize] == MixRound(t, key, data[offset..offset + BlockSize], round)
  {
    var scratch := ComputeLanes(t, data, offset);
    var scratchByte := PackLE32(scratch);
    MixRoundFromLanes(t, key, data[offset..offset + BlockSize], round, scratch);
    out := StoreWhitened(data, offset, scratchByte, key, 16 * round);
  }

  /** The substitution `p6[t] ^ ~t` of the permuted bytes of the block at
      `offset`, gathered into a scratch block. */
  method ComputeFinalSub(t: Tables, data: seq<bv8>, offset: nat) returns (scratchByte: seq<bv8>)
    requires offset + BlockSize <= |data|
    ensures scratchByte == FinalSub(t, data[offset..offset + BlockSize])
  {
    scratchByte := [];
    for i := 0 to 16
      invariant |scratchByte| == i
      invariant forall p :: 0 <= p < i ==> scratchByte[p] == FinalByte(t, data[offset + IndexScramble[p]])
    {
      var x := data[IndexScramble[i] + offset];
      scratchByte := scratchByte + [t.p6(x) ^ !x];
    }
    ghost var w := data[offset..offset + BlockSize];
    assert forall p :: 0 <= p < BlockSize ==> w[IndexScramble[p]] == data[offset + IndexScramble[p]];
  }

  /** The terminal round in place: the substitution of the permuted bytes
      into a scratch block, then the final whitening with subkey 10 written
      back over the block. */
  method FinalRoundInPlace(t: Tables, key: seq<bv8>, data: seq<bv8>, offset: nat) returns (out: seq<bv8>)
    requires offset + BlockSize <= |data| && |key| == RoundKeySize
    ensures SameOutside(data, out, offset, offset + BlockSize)
    ensures out[offset..offset + BlockSize] == Whiten(FinalSub(t, data[offset..offset + BlockSize]), key, 160)
  {
    var scratchByte := ComputeFinalSub(t, data, offset);
    out := StoreWhitened(data, offset, scratchByte, key, 160);
  }

  /** `a` and `c` agree outside a window when `a`, `b` and `b`, `c` do. */
  lemma SameOutsideTrans<T>(a: seq<T>, b: seq<T>, c: seq<T>, lo: nat, hi: nat)
    requires SameOutside(a, b, lo, hi) && SameOutside(b, c, lo, hi)
    ensures SameOutside(a, c, lo, hi)
  {
  }

  /** Main rounds `1 .. n` in place, in order (the transform runs all
      nine): rounds `1 .. n - 1`, then round `n`. */
  method MainRoundsInPlace(t: Tables, key: seq<bv8>, data: seq<bv8>, offset: nat, n: nat) returns (out: seq<bv8>)
    requires offset + BlockSize <= |data| && |key| == RoundKeySize
    requires n <= MainRounds
    ensures SameOutside(data, out, offset, offset + BlockSize)
    ensures out[offset..offset + BlockSize] == Rounds(t, key, data[offset..offset + BlockSize], n)
  {
    if n == 0 {
      out := data;
    } else {
      var prev := MainRoundsInPlace(t, key, data, offset, n - 1);
      out := MainRoundStep(t, key, data, data[offset..offset + BlockSize], prev, offset, n - 1);
    }
  }

  /** One main round in place: from the block after rounds `1 .. done`
      to the block after rounds `1 .. done + 1`, still touching nothing
      outside the block. */
  method MainRoundStep(t: Tables, key: seq<bv8>, data: seq<bv8>, ghost start: seq<bv8>, out: seq<bv8>, offset: nat, done: nat)
    returns (next: seq<bv8>)
    requires offset + BlockSize <= |data| && |key| == RoundKeySize && |start| == BlockSize
    requires done < MainRounds
    requires SameOutside(data, out, offset, offset + BlockSize)
    requires out[offset..offset + BlockSize] == Rounds(t, key, start, done)
    ensures SameOutside(data, next, offset, offset + BlockSize)
    ensures next[offset..offset + BlockSize] == Rounds(t, key, start, done + 1)
  {
    next := MainRoundInPlace(t, key, out, offset, done + 1);
    RoundsStep(t, key, start, done);
    SameOutsideTrans(data, out, next, offset, offset + BlockSize);
  }

  /** `NotBlkKeyScramble(key, data, offset)`: decrypts the block at
      `data[offset .. offset + 16)` in place. The new block is the transform
      of the old one under `key`; nothing else in the buffer changes. */
  method NotBlkKeyScramble(t: Tables, key: seq<bv8>, data: seq<bv8>, offset: nat) returns (out: seq<bv8>)
    requires offset + BlockSize <= |data| && |key| == RoundKeySize
    ensures SameOutside(data, out, offset, offset + BlockSize)
    ensures out[offset..offset + BlockSize] == Scramble(t, key, data[offset..offset + BlockSize])
  {
    var whitened := WhitenInPlace(key, data, offset);
    var mixed := MainRoundsInPlace(t, key, whitened, offset, MainRounds);
    out := FinalRoundInPlace(t, key, mixed, offset);
    ScrambleStages(t, key, data[offset..offset + BlockSize]);
    SameOutsideTrans(data, whitened, mixed, offset, offset + BlockSize);
    SameOutsideTrans(data, mixed, out, offset, offset + BlockSize);
  }
}
