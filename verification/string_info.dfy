/** `DecryptMetadataStringInfo`: eighteen 32-bit words gathered from five
    fixed places of the decrypted header give a 64-bit seed; a 64-bit
    Mersenne-Twister stream seeded with it supplies five XOR masks for the
    string tables and a 0x5000-byte keystream blob for string literals. */
module StringInfo {
  import opened Bytes

  /** The 64-bit Mersenne Twister, as a deterministic sequence:
      `gen(seed, n)` is the `n`-th (from 0) tempered 64-bit output of
      MT19937-64 seeded with `seed`. */
  type Generator = (bv64, nat) -> bv64

  /** A generator stream: its seed and the number of outputs drawn so far. */
  datatype Mt64 = Mt64(seed: bv64, drawn: nat)

  /** Draw `n` of the stream seeded with `seed`, as `Int63` returns it: the
      tempered output shifted right by one bit. */
  function Draw(gen: Generator, seed: bv64, n: nat): bv64
  {
    gen(seed, n) >> 1
  }

  /** `rand.Int63()`: the next draw, and the stream advanced by one. */
  function Int63(gen: Generator, s: Mt64): (r: (bv64, Mt64))
    ensures r.0 < 0x8000_0000_0000_0000
    ensures r.1.seed == s.seed && r.1.drawn == s.drawn + 1
  {
    (Draw(gen, s.seed, s.drawn), Mt64(s.seed, s.drawn + 1))
  }

  /** `n` successive `Int63` draws, in order, and the stream after them. */
  function Int63Many(gen: Generator, s: Mt64, n: nat): (r: (seq<bv64>, Mt64))
    ensures |r.0| == n
    ensures r.1 == Mt64(s.seed, s.drawn + n)
    ensures forall i :: 0 <= i < n ==> r.0[i] == Draw(gen, s.seed, s.drawn + i)
    decreases n
  {
    if n == 0 then ([], s)
    else
      var (x, s') := Int63(gen, s);
      var (rest, s'') := Int63Many(gen, s', n - 1);
      ([x] + rest, s'')
  }

  /** `(uint)x`: the low 32 bits. */
  function Low32(x: bv64): bv32
  {
    (x & 0xFFFF_FFFF) as bv32
  }

  /** The header bytes the seed words are copied from, in the order of the
      five `Buffer.BlockCopy` calls: 16 bytes at 0x60, 16 at 0x140, 16 at
      0x100, 8 at 0xF0 and 16 at 0x8. */
  function SeedBytes<T>(m: seq<T>): (b: seq<T>)
    requires |m| >= 0x150
    ensures |b| == 72
  {
    m[0x60..0x70] + m[0x140..0x150] + m[0x100..0x110] + m[0xF0..0xF8] + m[0x8..0x18]
  }

  /** The header offset byte `q` of the copied bytes comes from. */
  function ByteSource(q: nat): nat
    requires q < 72
  {
    if q < 16 then 0x60 + q
    else if q < 32 then 0x140 + (q - 16)
    else if q < 48 then 0x100 + (q - 32)
    else if q < 56 then 0xF0 + (q - 48)
    else 0x8 + (q - 56)
  }

  /** Byte `q` of the copied bytes is header byte `ByteSource(q)`. */
  lemma SeedBytesAt<T>(m: seq<T>, q: nat)
    requires |m| >= 0x150 && q < 72
    ensures SeedBytes(m)[q] == m[ByteSource(q)]
  {
  }

  /** The header offset word `i` of `values` is read from. */
  function WordSource(i: nat): nat
    requires i < 18
  {
    if i < 4 then 0x60 + 4 * i
    else if i < 8 then 0x140 + 4 * (i - 4)
    else if i < 12 then 0x100 + 4 * (i - 8)
    else if i < 14 then 0xF0 + 4 * (i - 12)
    else 0x8 + 4 * (i - 14)
  }

  /** `values`: the 72 copied bytes seen as eighteen little-endian 32-bit
      words. */
  function SeedWords(m: seq<bv8>): (w: seq<bv32>)
    requires |m| >= 0x150
    ensures |w| == 18
  {
    WordsLE(SeedBytes(m), 18)
  }

  /** The first `n` little-endian 32-bit words of `b`, in order. */
  function WordsLE(b: seq<bv8>, n: nat): (w: seq<bv32>)
    requires 4 * n <= |b|
    ensures |w| == n
  {
    if n == 0 then [] else WordsLE(b, n - 1) + [ReadU32(b, 4 * (n - 1))]
  }

  /** Word `i` of `WordsLE(b, n)` is the little-endian word at `4i`. */
  lemma {:induction false} WordsLEAt(b: seq<bv8>, n: nat, i: nat)
    requires 4 * n <= |b| && i < n
    ensures WordsLE(b, n)[i] == ReadU32(b, 4 * i)
  {
    if i < n - 1 {
      WordsLEAt(b, n - 1, i);
    }
  }

  /** The four bytes of word `i` come from `WordSource(i)` onwards. */
  lemma WordBytesFromHeader<T>(m: seq<T>, i: nat)
    requires |m| >= 0x150 && i < 18
    ensures SeedBytes(m)[4 * i] == m[WordSource(i)]
    ensures SeedBytes(m)[4 * i + 1] == m[WordSource(i) + 1]
    ensures SeedBytes(m)[4 * i + 2] == m[WordSource(i) + 2]
    ensures SeedBytes(m)[4 * i + 3] == m[WordSource(i) + 3]
  {
    SeedBytesAt(m, 4 * i);
    SeedBytesAt(m, 4 * i + 1);
    SeedBytesAt(m, 4 * i + 2);
    SeedBytesAt(m, 4 * i + 3);
  }

  /** Word `i` of `values` is the little-endian word at `WordSource(i)` of
      the header. */
  lemma SeedWordsFromHeader(m: seq<bv8>, i: nat)
    requires |m| >= 0x150 && i < 18
    ensures SeedWords(m)[i] == ReadU32(m, WordSource(i))
  {
    WordBytesFromHeader(m, i);
    WordsLEAt(SeedBytes(m), 18, i);
    ReadU32Congruent(SeedBytes(m), 4 * i, m, WordSource(i));
  }

  /** `values[0] & 0xF`: the word that gives the seed's high half. */
  function HiIndex(w: seq<bv32>): (i: nat)
    requires |w| == 18
    ensures i < 16
  {
    (w[0] & 0xF) as nat
  }

  /** `(values[0x11] & 0xF) + 2`: the word that gives the seed's low half. */
  function LoIndex(w: seq<bv32>): (i: nat)
    requires |w| == 18
    ensures 2 <= i < 18
  {
    (w[0x11] & 0xF) as nat + 2
  }

  /** `((ulong)values[hi] << 32) | values[lo]`. */
  function Seed(w: seq<bv32>): (s: bv64)
    requires |w| == 18
    ensures (s >> 32) as bv32 == w[HiIndex(w)]
    ensures Low32(s) == w[LoIndex(w)]
  {
    ((w[HiIndex(w)] as bv64) << 32) | w[LoIndex(w)] as bv64
  }

  /** The seed of the stream: the word pair chosen by `values` itself. */
  function StreamSeed(m: seq<bv8>): bv64
    requires |m| >= 0x150
  {
    Seed(SeedWords(m))
  }

  /** `StringDecryptionData`: the five XOR masks and the keystream blob. */
  datatype StringDecryptionData = StringDecryptionData(
    stringCountXor: bv32,
    stringOffsetXor: bv32,
    stringLiteralOffsetXor: bv32,
    stringLiteralDataCountXor: bv32,
    stringLiteralDataOffsetXor: bv32,
    stringDecryptionBlob: seq<bv8>)

  /** Number of 64-bit words in the blob. */
  const BlobWords := 0xA00

  /** The draws of `DecryptMetadataStringInfo` once the stream is seeded
      with `seed`: two masks, one discarded value, three masks, and the 2560
      blob words, copied out little-endian. */
  function DrawContext(gen: Generator, seed: bv64): (d: StringDecryptionData)
    ensures d.stringCountXor == Low32(Draw(gen, seed, 0))
    ensures d.stringOffsetXor == Low32(Draw(gen, seed, 1))
    ensures d.stringLiteralOffsetXor == Low32(Draw(gen, seed, 3))
    ensures d.stringLiteralDataCountXor == Low32(Draw(gen, seed, 4))
    ensures d.stringLiteralDataOffsetXor == Low32(Draw(gen, seed, 5))
    ensures |d.stringDecryptionBlob| == 0x5000
  {
    var rand := Mt64(seed, 0);
    var (countXor, r1) := Int63(gen, rand);
    var (offsetXor, r2) := Int63(gen, r1);
    var (_, r3) := Int63(gen, r2);
    var (literalOffsetXor, r4) := Int63(gen, r3);
    var (literalDataCountXor, r5) := Int63(gen, r4);
    var (literalDataOffsetXor, r6) := Int63(gen, r5);
    StringDecryptionData(
      Low32(countXor), Low32(offsetXor), Low32(literalOffsetXor),
      Low32(literalDataCountXor), Low32(literalDataOffsetXor),
      Blob(gen, r6))
  }

  /** The blob loop and its copy-out: `BlobWords` further draws from `s`,
      each stored little-endian. */
  function Blob(gen: Generator, s: Mt64): (b: seq<bv8>)
    ensures |b| == 0x5000
  {
    PackLE64(Int63Many(gen, s, BlobWords).0)
  }

  /** `DecryptMetadataStringInfo(metadata)`: seeds the stream from the header
      and draws, in order, two masks, one discarded value, three masks, and
      the 2560 blob words. */
  function DecryptMetadataStringInfo(gen: Generator, m: seq<bv8>): (d: StringDecryptionData)
    requires |m| >= 0x150
    ensures d.stringCountXor == Low32(Draw(gen, StreamSeed(m), 0))
    ensures d.stringOffsetXor == Low32(Draw(gen, StreamSeed(m), 1))
    ensures d.stringLiteralOffsetXor == Low32(Draw(gen, StreamSeed(m), 3))
    ensures d.stringLiteralDataCountXor == Low32(Draw(gen, StreamSeed(m), 4))
    ensures d.stringLiteralDataOffsetXor == Low32(Draw(gen, StreamSeed(m), 5))
    ensures |d.stringDecryptionBlob| == 0x5000
  {
    DrawContext(gen, StreamSeed(m))
  }

  /** Slot `i` of the blob holds draw `6 + i`, least significant byte
      first. */
  lemma BlobSlot(gen: Generator, m: seq<bv8>, i: nat)
    requires |m| >= 0x150 && i < BlobWords
    ensures DecryptMetadataStringInfo(gen, m).stringDecryptionBlob[8 * i..8 * i + 8]
      == LE64(Draw(gen, StreamSeed(m), 6 + i))
  {
    var words := Int63Many(gen, Mt64(StreamSeed(m), 6), BlobWords).0;
    PackLE64Slot(words, i);
  }

  /** Reading slot `i` of the blob back as a little-endian word gives draw
      `6 + i`. */
  lemma BlobRoundTrip(gen: Generator, m: seq<bv8>, i: nat)
    requires |m| >= 0x150 && i < BlobWords
    ensures ReadU64(DecryptMetadataStringInfo(gen, m).stringDecryptionBlob, 8 * i) == Draw(gen, StreamSeed(m), 6 + i)
  {
    var words := Int63Many(gen, Mt64(StreamSeed(m), 6), BlobWords).0;
    PackLE64RoundTrip(words, i);
  }

  /** Every draw is below 2^63, so the last byte of every blob slot is below
      0x80. */
  lemma BlobTopBytes(gen: Generator, m: seq<bv8>, i: nat)
    requires |m| >= 0x150 && i < BlobWords
    ensures DecryptMetadataStringInfo(gen, m).stringDecryptionBlob[8 * i + 7] < 0x80
  {
    var blob := DecryptMetadataStringInfo(gen, m).stringDecryptionBlob;
    var slot := LE64(Draw(gen, StreamSeed(m), 6 + i));
    BlobSlot(gen, m, i);
    SliceAt(blob, 8 * i, 8 * i + 8, 7, slot);
    TopByteOfDraw(gen, StreamSeed(m), 6 + i);
  }

  /** An element of a slice is the element of the whole at the shifted
      position. */
  lemma SliceAt<T>(s: seq<T>, lo: nat, hi: nat, k: nat, r: seq<T>)
    requires lo <= hi <= |s| && s[lo..hi] == r && k < hi - lo
    ensures s[lo + k] == r[k]
  {
  }

  /** The most significant byte of a draw is below 0x80. */
  lemma TopByteOfDraw(gen: Generator, seed: bv64, n: nat)
    ensures LE64(Draw(gen, seed, n))[7] < 0x80
  {
    var x := gen(seed, n);
    assert LE64(x >> 1)[7] == ((x >> 1) >> 56) as bv8;
  }
}
