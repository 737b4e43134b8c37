/** `DecryptMetadata`: decrypt the entry prefixes in place, then derive the
    string-decryption context from the decrypted header. */
module MetadataDecryption {
  import opened Errors
  import opened BlockTransform
  import opened Cbc
  import opened BlockDecryptor
  import opened StringInfo

  /** The decrypted file and the string-decryption context derived from
      it. */
  datatype Decrypted = Decrypted(metadata: seq<bv8>, strings: StringDecryptionData)

  /** A file that passes the footer checks comes back with every entry
      prefix decrypted and everything else untouched, together with the
      string context seeded from the decrypted bytes; a file that fails them
      is reported with the first failing check and no context. */
  method DecryptMetadata(t: Tables, gen: Generator, metadata: seq<bv8>) returns (r: Result<Decrypted>)
    ensures r.Err? <==> PrepareSession(metadata).Err?
    ensures r.Err? ==> r.error == PrepareSession(metadata).error
    ensures r.Ok? ==> DecryptedLayout(t, PrepareSession(metadata).value, metadata, r.value.metadata)
    ensures r.Ok? ==> |r.value.metadata| == |metadata| >= FooterSize
    ensures r.Ok? ==> r.value.strings == DecryptMetadataStringInfo(gen, r.value.metadata)
  {
    var blocks := DecryptMetadataBlocks(t, metadata);
    match blocks
    case Err(e) =>
      r := Err(e);
    case Ok(out) =>
      r := Ok(Decrypted(out, DecryptMetadataStringInfo(gen, out)));
  }

  /** The last four seed words come from bytes 0x8..0x18, inside the first
      entry's decrypted prefix: the seed depends on plaintext there. */
  lemma SeedTailIsPlaintext(t: Tables, s: Session, before: seq<bv8>, after: seq<bv8>, q: nat)
    requires ValidSession(s, |before|) && DecryptedLayout(t, s, before, after)
    requires q < 16
    ensures |after| >= 0x150
    ensures SeedBytes(after)[56 + q] == CbcDecrypt(t, s.key, s.iv, Window(before, 0, s.entrySize))[8 + q]
  {
    SeedBytesAt(after, 56 + q);
    assert Window(after, 0, s.entrySize)[8 + q] == after[8 + q];
  }

  /** When entries are at least 0x180 bytes long, the header bytes at
      0x40..0x150 lie between the first entry's decrypted prefix and the
      second entry, so the first fourteen seed words are read from bytes the
      block stage left as they were. */
  lemma SeedHeadUntouched(t: Tables, s: Session, before: seq<bv8>, after: seq<bv8>, q: nat)
    requires ValidSession(s, |before|) && DecryptedLayout(t, s, before, after)
    requires s.entrySize >= 0x180 && q < 56
    ensures |after| >= 0x150 && |before| >= 0x150
    ensures SeedBytes(after)[q] == SeedBytes(before)[q]
  {
    SeedBytesAt(after, q);
    SeedBytesAt(before, q);
    var p := ByteSource(q);
    DivUnique(p, s.entrySize, 0, p);
    assert !InSomeWindow(p, s.entrySize);
  }
}
