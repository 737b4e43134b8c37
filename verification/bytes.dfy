/** Byte-level helpers shared by the key schedule, the block transform and the
    string-context derivation: XOR folds, byte-wise XOR, and the little-endian
    layout that `Buffer.BlockCopy` gives a `uint[]` or `ulong[]` on a
    little-endian host. */
module Bytes {

  /** The XOR of every byte of `s`, folded from the front. This is the
      reference meaning of "the XOR of these bytes". */
  function XorAll(s: seq<bv8>): bv8
  {
    if |s| == 0 then 0 else s[0] ^ XorAll(s[1..])
  }

  /** One step of the fold. */
  lemma XorAllCons(s: seq<bv8>)
    requires 0 < |s|
    ensures XorAll(s) == s[0] ^ XorAll(s[1..])
  {
  }

  /** Folding a concatenation is XOR-ing the two folds. */
  lemma {:induction false} XorAllAppend(a: seq<bv8>, b: seq<bv8>)
    ensures XorAll(a + b) == XorAll(a) ^ XorAll(b)
  {
    if |a| == 0 {
      assert a + b == b;
    } else {
      assert (a + b)[1..] == a[1..] + b;
      XorAllAppend(a[1..], b);
      XorAllCons(a);
      XorAllCons(a + b);
    }
  }

  /** Byte-wise XOR of two sequences of the same length. */
  function XorBytes(a: seq<bv8>, b: seq<bv8>): (r: seq<bv8>)
    requires |a| == |b|
    ensures |r| == |a|
    ensures forall i :: 0 <= i < |a| ==> r[i] == a[i] ^ b[i]
  {
    seq(|a|, i requires 0 <= i < |a| => a[i] ^ b[i])
  }

  /** Byte `b` (0 = least significant) of a 32-bit word. */
  function Byte32(w: bv32, b: nat): bv8
    requires b < 4
  {
    if b == 0 then (w & 0xFF) as bv8
    else if b == 1 then ((w >> 8) & 0xFF) as bv8
    else if b == 2 then ((w >> 16) & 0xFF) as bv8
    else (w >> 24) as bv8
  }

  /** Byte `b` (0 = least significant) of a 64-bit word. */
  function Byte64(w: bv64, b: nat): bv8
    requires b < 8
  {
    if b == 0 then (w & 0xFF) as bv8
    else if b == 1 then ((w >> 8) & 0xFF) as bv8
    else if b == 2 then ((w >> 16) & 0xFF) as bv8
    else if b == 3 then ((w >> 24) & 0xFF) as bv8
    else if b == 4 then ((w >> 32) & 0xFF) as bv8
    else if b == 5 then ((w >> 40) & 0xFF) as bv8
    else if b == 6 then ((w >> 48) & 0xFF) as bv8
    else (w >> 56) as bv8
  }

  /** The little-endian 32-bit word stored at `s[off .. off + 4)`. */
  function ReadU32(s: seq<bv8>, off: nat): bv32
    requires off + 4 <= |s|
  {
    (s[off] as bv32)
    | ((s[off + 1] as bv32) << 8)
    | ((s[off + 2] as bv32) << 16)
    | ((s[off + 3] as bv32) << 24)
  }

  /** A read depends only on the four bytes it covers. */
  lemma ReadU32Congruent(s: seq<bv8>, i: nat, t: seq<bv8>, j: nat)
    requires i + 4 <= |s| && j + 4 <= |t|
    requires s[i] == t[j] && s[i + 1] == t[j + 1]
    requires s[i + 2] == t[j + 2] && s[i + 3] == t[j + 3]
    ensures ReadU32(s, i) == ReadU32(t, j)
  {
  }

  /** The little-endian 64-bit word stored at `s[off .. off + 8)`. */
  function ReadU64(s: seq<bv8>, off: nat): bv64
    requires off + 8 <= |s|
  {
    (s[off] as bv64)
    | ((s[off + 1] as bv64) << 8)
    | ((s[off + 2] as bv64) << 16)
    | ((s[off + 3] as bv64) << 24)
    | ((s[off + 4] as bv64) << 32)
    | ((s[off + 5] as bv64) << 40)
    | ((s[off + 6] as bv64) << 48)
    | ((s[off + 7] as bv64) << 56)
  }

  /** The four bytes of a 32-bit word, least significant first. */
  function LE32(w: bv32): (r: seq<bv8>)
    ensures |r| == 4
  {
    seq(4, b requires 0 <= b < 4 => Byte32(w, b))
  }

  /** The eight bytes of a 64-bit word, least significant first. */
  function LE64(w: bv64): (r: seq<bv8>)
    ensures |r| == 8
  {
    seq(8, b requires 0 <= b < 8 => Byte64(w, b))
  }

  /** `Buffer.BlockCopy` of a `uint[]` into bytes on a little-endian host:
      word `j` lands in bytes `[4j, 4j + 4)`, least significant byte first. */
  function PackLE32(ws: seq<bv32>): (r: seq<bv8>)
    ensures |r| == 4 * |ws|
    ensures forall q :: 0 <= q < |r| ==> r[q] == Byte32(ws[q / 4], q % 4)
  {
    if |ws| == 0 then []
    else
      var tail := PackLE32(ws[1..]);
      var r := LE32(ws[0]) + tail;
      assert forall q :: 4 <= q < |r| ==> r[q] == tail[q - 4];
      r
  }

  /** `Buffer.BlockCopy` of a `ulong[]` into bytes on a little-endian host:
      the words one after the other, each least significant byte first. */
  function PackLE64(ws: seq<bv64>): (r: seq<bv8>)
    ensures |r| == 8 * |ws|
  {
    if |ws| == 0 then [] else LE64(ws[0]) + PackLE64(ws[1..])
  }

  /** A slice of a concatenation that lies wholly in its second part. */
  lemma SliceOfAppend<T>(a: seq<T>, b: seq<T>, lo: nat, hi: nat)
    requires |a| <= lo <= hi <= |a| + |b|
    ensures (a + b)[lo..hi] == b[lo - |a|..hi - |a|]
  {
  }

  /** Reading back the eight bytes of a word gives the word. */
  lemma LE64RoundTrip(w: bv64)
    ensures ReadU64(LE64(w), 0) == w
  {
    var r := LE64(w);
    assert r[0] == (w & 0xFF) as bv8;
    assert r[1] == ((w >> 8) & 0xFF) as bv8;
    assert r[2] == ((w >> 16) & 0xFF) as bv8;
    assert r[3] == ((w >> 24) & 0xFF) as bv8;
    assert r[4] == ((w >> 32) & 0xFF) as bv8;
    assert r[5] == ((w >> 40) & 0xFF) as bv8;
    assert r[6] == ((w >> 48) & 0xFF) as bv8;
    assert r[7] == (w >> 56) as bv8;
  }

  /** Slot `i` of a packed `ulong[]` holds the eight bytes of word `i`:
      word `i` lands in bytes `[8i, 8i + 8)`. */
  lemma {:induction false} PackLE64Slot(ws: seq<bv64>, i: nat)
    requires i < |ws|
    ensures PackLE64(ws)[8 * i..8 * i + 8] == LE64(ws[i])
  {
    var head := LE64(ws[0]);
    var tail := PackLE64(ws[1..]);
    assert PackLE64(ws) == head + tail;
    if i == 0 {
      assert (head + tail)[..8] == head;
    } else {
      PackLE64Slot(ws[1..], i - 1);
      SliceOfAppend(head, tail, 8 * i, 8 * i + 8);
    }
  }

  /** A read depends only on the eight bytes it covers. */
  lemma ReadU64Slice(s: seq<bv8>, off: nat)
    requires off + 8 <= |s|
    ensures ReadU64(s, off) == ReadU64(s[off..off + 8], 0)
  {
  }

  /** Unpacking slot `i` of a packed `ulong[]` gives back word `i`. */
  lemma PackLE64RoundTrip(ws: seq<bv64>, i: nat)
    requires i < |ws|
    ensures ReadU64(PackLE64(ws), 8 * i) == ws[i]
  {
    PackLE64Slot(ws, i);
    ReadU64Slice(PackLE64(ws), 8 * i);
    LE64RoundTrip(ws[i]);
  }
}
