/** `DecryptMetadataBlocks`: the footer of the file (its last 0x4000 bytes)
    carries a magic word, an offset to the masked key material, and two XOR
    pads. The decryptor unmasks the material, folds it into the 0xB0-byte
    round-key schedule, derives the chaining IV from the masked IV and a
    fixed key, and CBC-decrypts the first 0x40 bytes of each of 0x100 equal
    entries into which the file is cut. */
module BlockDecryptor {
  import opened Bytes
  import opened Errors
  import opened KeySchedule
  import opened BlockTransform
  import opened Cbc

  const FooterSize := 0x4000
  /** Position of the magic word `0x2CFEFC2E` (little-endian) in the footer. */
  const MagicOffset := 0xC8
  /** Position of the 16-bit little-endian offset of the key material. */
  const OffsetField := 0xD2
  /** Footer position of the pad that unmasks the IV. */
  const IvPad := 0x3000
  /** Footer position of the pad that unmasks the key material. */
  const MaterialPad := 0x3010
  const EntryCount := 0x100

  /** `hardKey`: XORed into the unmasked IV to give the chaining IV. */
  const HardKey: seq<bv8> := [0xAD, 0x2F, 0x42, 0x30, 0x67, 0x04, 0xB0, 0x9C, 0x9D, 0x2A, 0xC0, 0xBA, 0x0E, 0xBF, 0xA5, 0x68]

  /** The last 0x4000 bytes of the file. */
  function Footer(metadata: seq<bv8>): (f: seq<bv8>)
    requires |metadata| >= FooterSize
    ensures |f| == FooterSize
  {
    metadata[|metadata| - FooterSize..]
  }

  /** The footer carries bytes `2E FC FE 2C` at 0xC8. */
  predicate HasMagic(f: seq<bv8>)
    requires |f| == FooterSize
  {
    f[0xC8] == 0x2E && f[0xC9] == 0xFC && f[0xCA] == 0xFE && f[0xCB] == 0x2C
  }

  /** The byte test is the word test the error message states: the 32-bit
      little-endian word at 0xC8 is `0x2CFEFC2E`. */
  lemma HasMagicIsWord(f: seq<bv8>)
    requires |f| == FooterSize
    ensures HasMagic(f) <==> ReadU32(f, MagicOffset) == 0x2CFEFC2E
  {
    var w := ReadU32(f, MagicOffset);
    assert Byte32(w, 0) == f[0xC8] && Byte32(w, 1) == f[0xC9];
    assert Byte32(w, 2) == f[0xCA] && Byte32(w, 3) == f[0xCB];
    if ReadU32(f, MagicOffset) == 0x2CFEFC2E {
      assert Byte32(0x2CFEFC2E, 0) == 0x2E && Byte32(0x2CFEFC2E, 1) == 0xFC;
      assert Byte32(0x2CFEFC2E, 2) == 0xFE && Byte32(0x2CFEFC2E, 3) == 0x2C;
    }
  }

  /** `(ushort)((footer[0xD3] << 8) | footer[0xD2])`: the offset of the key
      material, read little-endian. */
  function FooterOffset(f: seq<bv8>): (off: nat)
    requires |f| == FooterSize
    ensures off == f[OffsetField] as nat + 256 * f[OffsetField + 1] as nat
    ensures off < 0x10000
  {
    (((f[OffsetField + 1] as bv16) << 8) | f[OffsetField] as bv16) as nat
  }

  /** The unmasked key material: `out2`, the 16-byte IV seed, and `out1`,
      the 0xB00 bytes the round-key schedule is folded from. */
  datatype KeyMaterial = KeyMaterial(iv: seq<bv8>, material: seq<bv8>)

  /** Copies `out2` from the footer at the offset and `out1` right after it,
      then unmasks `out2` with the pad at 0x3000 and `out1` with the pad at
      0x3010 and the unmasked `out2` repeated. The copies fail when `out1`
      would run past the footer. */
  function ExtractKeyMaterial(f: seq<bv8>): (r: Result<KeyMaterial>)
    requires |f| == FooterSize
    ensures r.Err? <==> FooterOffset(f) + BlockSize + KeyMaterialSize > FooterSize
    ensures r.Err? ==> r.error == CorruptFooterLayout
    ensures r.Ok? ==> |r.value.iv| == BlockSize && |r.value.material| == KeyMaterialSize
    ensures r.Ok? ==> forall i :: 0 <= i < BlockSize ==>
      r.value.iv[i] == f[FooterOffset(f) + i] ^ f[IvPad + i]
    ensures r.Ok? ==> forall i :: 0 <= i < KeyMaterialSize ==>
      r.value.material[i] == f[FooterOffset(f) + BlockSize + i] ^ f[MaterialPad + i] ^ r.value.iv[i % BlockSize]
  {
    var off := FooterOffset(f);
    if off + BlockSize + KeyMaterialSize > FooterSize then Err(CorruptFooterLayout)
    else
      var out2 := XorBytes(f[off..off + BlockSize], f[IvPad..IvPad + BlockSize]);
      var out1 := f[off + BlockSize..off + BlockSize + KeyMaterialSize];
      Ok(KeyMaterial(out2, Unmask(out1, f[MaterialPad..MaterialPad + KeyMaterialSize], out2)))
  }

  /** The loop over `out1`: byte `i` is XORed with pad byte `i` and IV byte
      `i % 16`. */
  function Unmask(masked: seq<bv8>, pad: seq<bv8>, iv: seq<bv8>): (r: seq<bv8>)
    requires |masked| == |pad| && |iv| == BlockSize
    ensures |r| == |masked|
    ensures forall i :: 0 <= i < |masked| ==> r[i] == masked[i] ^ pad[i] ^ iv[i % BlockSize]
  {
    seq(|masked|, i requires 0 <= i < |masked| => masked[i] ^ (pad[i] ^ iv[i % BlockSize]))
  }

  /** Byte `i` of the material in terms of the footer alone: the stored
      byte, the material pad, and the stored IV byte and IV pad at `i % 16`. */
  lemma KeyMaterialFromFooter(f: seq<bv8>)
    requires |f| == FooterSize && ExtractKeyMaterial(f).Ok?
    ensures forall i :: 0 <= i < KeyMaterialSize ==>
      ExtractKeyMaterial(f).value.material[i]
        == f[FooterOffset(f) + BlockSize + i] ^ f[MaterialPad + i] ^ f[FooterOffset(f) + i % BlockSize] ^ f[IvPad + i % BlockSize]
  {
  }

  /** The pads are a mask: XORing the unmasked material with the pads gives
      back the bytes stored in the footer. */
  lemma KeyMaterialUnmasks(f: seq<bv8>)
    requires |f| == FooterSize && ExtractKeyMaterial(f).Ok?
    ensures forall i :: 0 <= i < BlockSize ==>
      f[FooterOffset(f) + i] == ExtractKeyMaterial(f).value.iv[i] ^ f[IvPad + i]
    ensures forall i :: 0 <= i < KeyMaterialSize ==>
      f[FooterOffset(f) + BlockSize + i]
        == ExtractKeyMaterial(f).value.material[i] ^ f[MaterialPad + i] ^ ExtractKeyMaterial(f).value.iv[i % BlockSize]
  {
  }

  /** `(metadata.Length / 0x100) / 0x40 * 0x40`: the length of one of the
      0x100 entries. */
  function EntrySize(len: nat): (e: nat)
    ensures e % EntryPrefix == 0
    ensures EntryCount * e <= len
    ensures len < EntryCount * (e + EntryPrefix)
    ensures len >= FooterSize ==> e >= EntryPrefix
  {
    (len / EntryCount) / EntryPrefix * EntryPrefix
  }

  /** A positive multiple of `e` is at least `e`. */
  lemma MulAtLeast(a: int, e: int)
    requires a >= 1 && e >= 0
    ensures a * e >= e
  {
    assert a * e == (a - 1) * e + e;
  }

  /** Multiplication by `e >= 0` keeps order. */
  lemma MulMonotone(a: int, b: int, e: int)
    requires a <= b && e >= 0
    ensures a * e <= b * e
  {
    assert b * e - a * e == (b - a) * e;
  }

  /** Division by `e` has one answer: `q * e + r` with `0 <= r < e` splits
      into `q` and `r`. */
  lemma DivUnique(p: nat, e: nat, q: nat, r: nat)
    requires 0 < e && r < e && p == q * e + r
    ensures p / e == q && p % e == r
  {
    var q', r' := p / e, p % e;
    assert p == q' * e + r';
    if q' < q {
      assert q * e - q' * e == (q - q') * e;
      MulAtLeast(q - q', e);
    } else if q' > q {
      assert q' * e - q * e == (q' - q) * e;
      MulAtLeast(q' - q, e);
    }
  }

  /** Window `k` (bytes `[k E, k E + 0x40)`) lies inside a file of length
      `len` when `0x100 E <= len`. */
  lemma WindowFits(k: nat, e: nat, len: nat)
    requires k < EntryCount && e >= EntryPrefix && EntryCount * e <= len
    ensures k * e + EntryPrefix <= len
  {
    MulMonotone(k, EntryCount - 1, e);
  }

  /** Byte `p` lies in window `k` exactly when it is in entry `k` and within
      the entry's first 0x40 bytes. */
  lemma WindowIndex(p: nat, k: nat, e: nat)
    requires e >= EntryPrefix
    ensures k * e <= p < k * e + EntryPrefix <==> p / e == k && p % e < EntryPrefix
  {
    if k * e <= p < k * e + EntryPrefix {
      DivUnique(p, e, k, p - k * e);
    }
    if p / e == k && p % e < EntryPrefix {
      assert p == (p / e) * e + p % e;
    }
  }

  /** Window `k` of `s`: the decrypted prefix of entry `k`. */
  function Window<T>(s: seq<T>, k: nat, e: nat): (w: seq<T>)
    requires k < EntryCount && e >= EntryPrefix && EntryCount * e <= |s|
    ensures |w| == EntryPrefix
  {
    WindowFits(k, e, |s|);
    s[k * e..k * e + EntryPrefix]
  }

  /** Byte `p` is decrypted by some entry: it is in one of the 0x100 entries
      and within its first 0x40 bytes. */
  predicate InSomeWindow(p: nat, e: nat)
    requires e > 0
  {
    p / e < EntryCount && p % e < EntryPrefix
  }

  /** The windows of two different entries share no byte. */
  lemma WindowsDisjoint(p: nat, k1: nat, k2: nat, e: nat)
    requires e >= EntryPrefix
    requires k1 * e <= p < k1 * e + EntryPrefix
    requires k2 * e <= p < k2 * e + EntryPrefix
    ensures k1 == k2
  {
    WindowIndex(p, k1, e);
    WindowIndex(p, k2, e);
  }

  /** One pass of the entry loop, on any buffer contents: if `out` agrees
      with `before` on every byte no entry before `k` decrypts, and `next`
      differs from `out` only in window `k`, then window `k` of `out` is
      still the original, the earlier windows are kept, and `next` agrees
      with `before` on every byte no entry up to `k` decrypts. */
  lemma EntryStep<T>(before: seq<T>, out: seq<T>, next: seq<T>, e: nat, k: nat)
    requires e >= EntryPrefix && k < EntryCount && EntryCount * e <= |before|
    requires |out| == |before| && |next| == |before|
    requires forall p :: 0 <= p < |before| && !(p / e < k && p % e < EntryPrefix) ==> out[p] == before[p]
    requires forall p :: 0 <= p < |out| && !(k * e <= p < k * e + EntryPrefix) ==> next[p] == out[p]
    ensures Window(out, k, e) == Window(before, k, e)
    ensures forall kk :: 0 <= kk < k ==> Window(next, kk, e) == Window(out, kk, e)
    ensures forall p :: 0 <= p < |before| && !(p / e < k + 1 && p % e < EntryPrefix) ==> next[p] == before[p]
  {
    WindowFits(k, e, |before|);
    forall q | 0 <= q < EntryPrefix
      ensures Window(out, k, e)[q] == Window(before, k, e)[q]
    {
      WindowIndex(k * e + q, k, e);
    }
    forall kk | 0 <= kk < k
      ensures Window(next, kk, e) == Window(out, kk, e)
    {
      WindowFits(kk, e, |before|);
      forall q | 0 <= q < EntryPrefix
        ensures Window(next, kk, e)[q] == Window(out, kk, e)[q]
      {
        var p := kk * e + q;
        if k * e <= p < k * e + EntryPrefix {
          WindowsDisjoint(p, k, kk, e);
        }
      }
    }
    forall p | 0 <= p < |before| && !(p / e < k + 1 && p % e < EntryPrefix)
      ensures next[p] == before[p]
    {
      WindowIndex(p, k, e);
    }
  }

  /** What the decryptor derives from the footer before touching the file:
      the round-key schedule, the chaining IV, and the entry length. */
  datatype Session = Session(key: seq<bv8>, iv: seq<bv8>, entrySize: nat)

  /** A session fit for a file of length `len`: the schedule and IV have
      their sizes, and the 0x100 entries, each at least 0x40 long, fit. */
  predicate ValidSession(s: Session, len: nat)
  {
    |s.key| == RoundKeySize && |s.iv| == BlockSize
    && s.entrySize >= EntryPrefix && EntryCount * s.entrySize <= len
  }

  /** The footer checks and derivations of `DecryptMetadataBlocks`, in the
      order the source makes them: the footer copy fails on a file shorter
      than the footer, then the magic is checked, then the key material is
      copied and unmasked. */
  function PrepareSession(metadata: seq<bv8>): (r: Result<Session>)
    ensures r == Err(ShortBuffer) <==> |metadata| < FooterSize
    ensures r == Err(FormatMismatch) <==> |metadata| >= FooterSize && !HasMagic(Footer(metadata))
    ensures r == Err(CorruptFooterLayout) <==>
      |metadata| >= FooterSize && HasMagic(Footer(metadata))
      && FooterOffset(Footer(metadata)) + BlockSize + KeyMaterialSize > FooterSize
    ensures r.Ok? ==> ValidSession(r.value, |metadata|)
    ensures r.Ok? ==> r.value.entrySize == EntrySize(|metadata|)
    ensures r.Ok? ==> forall i :: 0 <= i < BlockSize ==>
      r.value.iv[i] == Footer(metadata)[FooterOffset(Footer(metadata)) + i] ^ Footer(metadata)[IvPad + i] ^ HardKey[i]
    ensures r.Ok? ==> r.value.key == CompressKey(ExtractKeyMaterial(Footer(metadata)).value.material)
  {
    if |metadata| < FooterSize then Err(ShortBuffer)
    else
      var f := Footer(metadata);
      if !HasMagic(f) then Err(FormatMismatch)
      else
        match ExtractKeyMaterial(f)
        case Err(e) => Err(e)
        case Ok(km) => Ok(Session(CompressKey(km.material), XorBytes(km.iv, HardKey), EntrySize(|metadata|)))
  }

  /** The file after decryption: the same length, window `k` of every entry
      replaced by the CBC decryption of its original bytes, and every other
      byte as it was. */
  predicate DecryptedLayout(t: Tables, s: Session, before: seq<bv8>, after: seq<bv8>)
    requires ValidSession(s, |before|)
  {
    |after| == |before|
    && (forall k :: 0 <= k < EntryCount ==>
          Window(after, k, s.entrySize) == CbcDecrypt(t, s.key, s.iv, Window(before, k, s.entrySize)))
    && (forall p :: 0 <= p < |before| && !InSomeWindow(p, s.entrySize) ==> after[p] == before[p])
  }

  /** The entry loop: entry `k` starts at `k * entrySize`, and its first
      0x40 bytes are CBC-decrypted in place with the session's schedule and
      IV, for `k` from 0 to 0xFF. */
  method DecryptEntries(t: Tables, s: Session, metadata: seq<bv8>) returns (out: seq<bv8>)
    requires ValidSession(s, |metadata|)
    ensures DecryptedLayout(t, s, metadata, out)
  {
    var e := s.entrySize;
    out := metadata;
    var k := 0;
    while k < EntryCount
      invariant k <= EntryCount && |out| == |metadata|
      invariant forall kk :: 0 <= kk < k ==>
        Window(out, kk, e) == CbcDecrypt(t, s.key, s.iv, Window(metadata, kk, e))
      invariant forall p :: 0 <= p < |metadata| && !(p / e < k && p % e < EntryPrefix) ==> out[p] == metadata[p]
    {
      out := DecryptEntry(t, s, metadata, out, k);
      k := k + 1;
    }
  }

  /** One pass of the entry loop: decrypts window `k` of `out` in place,
      extending the loop's invariant from `k` entries to `k + 1`. */
  method DecryptEntry(t: Tables, s: Session, metadata: seq<bv8>, out: seq<bv8>, k: nat) returns (next: seq<bv8>)
    requires ValidSession(s, |metadata|) && k < EntryCount && |out| == |metadata|
    requires forall kk :: 0 <= kk < k ==>
      Window(out, kk, s.entrySize) == CbcDecrypt(t, s.key, s.iv, Window(metadata, kk, s.entrySize))
    requires forall p :: 0 <= p < |metadata| && !(p / s.entrySize < k && p % s.entrySize < EntryPrefix) ==> out[p] == metadata[p]
    ensures |next| == |metadata|
    ensures forall kk :: 0 <= kk < k + 1 ==>
      Window(next, kk, s.entrySize) == CbcDecrypt(t, s.key, s.iv, Window(metadata, kk, s.entrySize))
    ensures forall p :: 0 <= p < |metadata| && !(p / s.entrySize < k + 1 && p % s.entrySize < EntryPrefix) ==> next[p] == metadata[p]
  {
    var e := s.entrySize;
    WindowFits(k, e, |out|);
    next := DecryptEntryPrefix(t, s.key, s.iv, out, k * e);
    EntryStep(metadata, out, next, e, k);
    assert Window(next, k, e) == CbcDecrypt(t, s.key, s.iv, Window(metadata, k, e));
  }

  /** `DecryptMetadataBlocks(metadata)`: fails, writing nothing, exactly when
      the footer checks fail; otherwise decrypts the prefix of every entry in
      turn, in place. */
  method DecryptMetadataBlocks(t: Tables, metadata: seq<bv8>) returns (r: Result<seq<bv8>>)
    ensures r.Err? <==> PrepareSession(metadata).Err?
    ensures r.Err? ==> r.error == PrepareSession(metadata).error
    ensures r.Ok? ==> DecryptedLayout(t, PrepareSession(metadata).value, metadata, r.value)
  {
    var session := PrepareSession(metadata);
    if session.Err? {
      return Err(session.error);
    }
    var out := DecryptEntries(t, session.value, metadata);
    return Ok(out);
  }
}
