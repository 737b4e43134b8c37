# Il2CppDumper metadata de-obfuscation, modelled in Dafny

Il2CppDumper reads `global-metadata.dat`. Some games ship this file obfuscated, and
`MetadataDecryption.DecryptMetadata` undoes that in two passes before the
metadata parser sees the buffer.

1. **Block decryption** (`DecryptMetadataBlocks`):
   - It takes the last 0x4000 bytes of the file as the *footer*.
   - It checks the magic bytes `2E FC FE 2C` at footer offset 0xC8.
   - It reads a little-endian 16-bit offset at 0xD2. That offset locates a masked 16-byte IV seed (`out2`) followed by 0xB00 bytes of masked key material (`out1`).
   - It unmasks both with the pads at 0x3000 and 0x3010 of the footer. It folds the key material into a 0xB0-byte round-key schedule (`CompressKey`).
   - It cuts the file into 0x100 entries of `(L / 0x100) / 0x40 * 0x40` bytes. It CBC-decrypts the first 0x40 bytes of each entry in place with the block transform `NotBlkKeyScramble`. Every entry is chained from the IV `out2 ^ hardKey`.
2. **String context** (`DecryptMetadataStringInfo`):
   - It gathers eighteen little-endian 32-bit words from five fixed places of the decrypted header.
   - It picks two of them to form a 64-bit seed and seeds a 64-bit Mersenne Twister with it.
   - It draws five 32-bit XOR masks for the string tables, discarding the third draw. It then draws 2560 more values, packed into a 0x5000-byte keystream blob.

The model follows the structure of the C# code:

| module | file | models |
|---|---|---|
| `Bytes` | `bytes.dfy` | XOR folds and the little-endian layout of `Buffer.BlockCopy` on `uint[]`/`ulong[]` |
| `Errors` | `errors.dfy` | the three ways the block pass can stop, and `Result` |
| `KeySchedule` | `key_schedule.dfy` | `XorCombine`, `CompressKey` |
| `BlockTransform` | `block_transform.dfy` | `NotBlkKeyScramble`: the pure transform `Scramble` and the in-place method |
| `Cbc` | `cbc.dfy` | the four-block CBC chain over one entry |
| `BlockDecryptor` | `block_decryptor.dfy` | footer checks, key-material extraction, entry layout, `DecryptMetadataBlocks` |
| `StringInfo` | `string_info.dfy` | `StringDecryptionData`, `DecryptMetadataStringInfo` |
| `MetadataDecryption` | `metadata_decryption.dfy` | `DecryptMetadata` |

Pure functions carry the meaning:
- `CompressKey`;
- `Scramble`, which is the staged transform `Stage`;
- `CbcDecrypt`;
- `PrepareSession`;
- `DecryptMetadataStringInfo`.

Methods mirror the in-place loops of the C# code: the whitening loop, the lane loop, the write-back loop, the block loop and the entry loop. They work on immutable byte sequences and return the new buffer. Every method states the frame explicitly: `SameOutside` says the returned buffer has the same length and differs from the input only inside the window written. The substitution tables `BlkStuff1p2 .. BlkStuff1p6` are a parameter (`Tables`), because their contents are not part of this model. The Mersenne Twister is a parameter too (`Generator`, the n-th tempered output for a seed), and `Int63` is that output shifted right by one bit.

The code decrypts only the first 0x40 bytes (four blocks) of every entry: the inner loop runs `i < 0x40`. A prose description of the scheme as "decrypting each entry" would suggest the whole entry. The model follows the code, and `DecryptedLayout` states it: window `k` is replaced by the CBC decryption of its original 0x40 bytes, and every byte outside the 0x100 windows is unchanged.

## Model

| member | source | states |
|---|---|---|
| KeySchedule.XorCombineIsXorAll | Il2CppDumper/Il2Cpp/MetadataDecryption.cs:12-18 | The combine loop over `[offset, offset + size)` yields the XOR of exactly those bytes (the reference fold `XorAll` of the slice). |
| KeySchedule.CompressKey | Il2CppDumper/Il2Cpp/MetadataDecryption.cs:20-24 | The schedule has exactly 0xB0 bytes, and byte `i` is the XOR of material bytes `[16i, 16i + 16)`. |
| KeySchedule.CompressKeyLocality | Il2CppDumper/Il2Cpp/MetadataDecryption.cs:20-24 | Flipping bits `d` of material byte `b` flips the same bits of key byte `b / 16` and changes no other key byte. |
| Bytes.PackLE32 | Il2CppDumper/Il2Cpp/MetadataDecryption.cs:56 | Copying four lanes out as bytes puts byte `q % 4` of lane `q / 4` at position `q`, least significant first. |
| BlockTransform.WhitenInPlace | Il2CppDumper/Il2Cpp/MetadataDecryption.cs:32-33 | The block at `offset` becomes its XOR with `key[0 .. 16)`; no byte outside the block changes. |
| BlockTransform.IndexScrambleIsInvShiftRows | Il2CppDumper/Il2Cpp/MetadataDecryption.cs:35-41 | `indexScramble` maps position `4c + r` to column `(c - r) mod 4` of row `r`: the inverse AES ShiftRows on a column-major state. |
| BlockTransform.IndexScrambleReaders | Il2CppDumper/Il2Cpp/MetadataDecryption.cs:35-41 | Entry `i` of `indexScramble` keeps the row `i % 4` and is read by lane `i / 4` only. |
| BlockTransform.IndexScramblePermutation | Il2CppDumper/Il2Cpp/MetadataDecryption.cs:35-41 | The sixteen entries of `indexScramble` are pairwise distinct, so the table is a permutation of the block positions. |
| BlockTransform.ComputeLanes | Il2CppDumper/Il2Cpp/MetadataDecryption.cs:47-55 | After the zeroing and the lookup loop, lane `j` holds `p2[b0] ^ p3[b1] ^ p4[b2] ^ p5[b3]` of the four bytes at `indexScramble[4j .. 4j + 4)`. |
| BlockTransform.LaneIgnoresOtherBytes | Il2CppDumper/Il2Cpp/MetadataDecryption.cs:49-55 | A lane depends only on its four permuted input bytes: blocks that differ in one byte agree on every lane that does not read it. |
| BlockTransform.MixRoundFromLanes | Il2CppDumper/Il2Cpp/MetadataDecryption.cs:56-58 | A main round equals the lanes copied out little-endian and XORed with subkey `round`. |
| BlockTransform.StoreWhitened | Il2CppDumper/Il2Cpp/MetadataDecryption.cs:57-58 | The write-back loop leaves `src[j] ^ key[base + j]` at block position `j` and nothing changed outside the block. |
| BlockTransform.MainRoundInPlace | Il2CppDumper/Il2Cpp/MetadataDecryption.cs:46-58 | One iteration of the round loop replaces the block by main round `round` of it; nothing outside the block changes. |
| BlockTransform.MixRoundByteLocality | Il2CppDumper/Il2Cpp/MetadataDecryption.cs:49-58 | A round mixes each input byte into one output lane only: inputs that differ at position `q` give outputs equal on the other three lanes. |
| BlockTransform.MixRoundReadsOnlyItsSubkey | Il2CppDumper/Il2Cpp/MetadataDecryption.cs:57-58 | Round `i` reads only key bytes `[16i, 16i + 16)`. |
| BlockTransform.MainRoundStep | Il2CppDumper/Il2Cpp/MetadataDecryption.cs:44-59 | From the block after rounds `1 .. done`, one in-place round gives the block after rounds `1 .. done + 1`, keeping the frame. |
| BlockTransform.MainRoundsInPlace | Il2CppDumper/Il2Cpp/MetadataDecryption.cs:44-59 | Rounds `1 .. n` run in order on the block at `offset` give the composed rounds of its initial contents, and touch nothing else. |
| BlockTransform.RoundsReadOnlyTheirSubkeys | Il2CppDumper/Il2Cpp/MetadataDecryption.cs:44-59 | The first `n` main rounds read only the first `16 (n + 1)` key bytes: schedules agreeing there give the same block. |
| BlockTransform.ComputeFinalSub | Il2CppDumper/Il2Cpp/MetadataDecryption.cs:61-65 | The scratch block holds `(byte)(p6[t] ^ ~t)` for `t` the byte at `indexScramble[i]`, for every `i`. |
| BlockTransform.FinalRoundInPlace | Il2CppDumper/Il2Cpp/MetadataDecryption.cs:61-68 | The block becomes the terminal substitution of its permuted bytes, XORed with `key[160 .. 176)`; nothing outside it changes. |
| BlockTransform.ScrambleStages | Il2CppDumper/Il2Cpp/MetadataDecryption.cs:30-69 | The transform is the subkey-0 whitening, then the nine main rounds, then the terminal substitution and the subkey-10 whitening, in that order. |
| BlockTransform.ScrambleFinalStep | Il2CppDumper/Il2Cpp/MetadataDecryption.cs:61-68 | Output byte `i` is `(p6[x] ^ ~x) ^ key[160 + i]`, with `x` the byte at `indexScramble[i]` after nine rounds. |
| BlockTransform.FinalSubkeyIsOutputWhitening | Il2CppDumper/Il2Cpp/MetadataDecryption.cs:67-68 | Changing only `key[160 .. 176)` changes each output byte by exactly the XOR of the old and new subkey bytes. |
| BlockTransform.NotBlkKeyScramble | Il2CppDumper/Il2Cpp/MetadataDecryption.cs:30-69 | Only `data[offset .. offset + 16)` changes, and it becomes the transform of its old contents under `key`. |
| Cbc.CbcDecryptBlock | Il2CppDumper/Il2Cpp/MetadataDecryption.cs:153-160 | Plaintext block `b` is the transform of ciphertext block `b` XORed with ciphertext block `b - 1`, or with the IV when `b = 0`. |
| Cbc.DecryptBlockInPlace | Il2CppDumper/Il2Cpp/MetadataDecryption.cs:157-159 | The block is transformed and XORed with the saved chaining value; nothing outside the block changes. |
| Cbc.DecryptPrefixBlock | Il2CppDumper/Il2Cpp/MetadataDecryption.cs:155-159 | One pass saves the ciphertext of block `b` as the next chaining value before decrypting block `b` in place, extending the decrypted blocks to `b + 1`. |
| Cbc.DecryptEntryPrefix | Il2CppDumper/Il2Cpp/MetadataDecryption.cs:150-160 | The 0x40 bytes at `off` become the CBC decryption of their original contents from `iv`; nothing else changes. |
| BlockDecryptor.HasMagicIsWord | Il2CppDumper/Il2Cpp/MetadataDecryption.cs:118-122 | The four byte tests at 0xC8 pass exactly when the little-endian word there is `0x2CFEFC2E`, the word the error message names. |
| BlockDecryptor.FooterOffset | Il2CppDumper/Il2Cpp/MetadataDecryption.cs:126 | The offset is `footer[0xD2] + 256 footer[0xD3]` and below 0x10000. |
| BlockDecryptor.ExtractKeyMaterial | Il2CppDumper/Il2Cpp/MetadataDecryption.cs:124-133 | The copies fail exactly when `offset + 0x10 + 0xB00 > 0x4000`. Otherwise `out2[i] = footer[offset + i] ^ footer[0x3000 + i]` and `out1[i] = footer[offset + 16 + i] ^ footer[0x3010 + i] ^ out2[i % 16]`. |
| BlockDecryptor.KeyMaterialFromFooter | Il2CppDumper/Il2Cpp/MetadataDecryption.cs:130-133 | Material byte `i` in terms of footer bytes alone: stored byte, material pad, stored IV byte and IV pad at `i % 16`. |
| BlockDecryptor.KeyMaterialUnmasks | Il2CppDumper/Il2Cpp/MetadataDecryption.cs:127-133 | Re-applying the pads to the unmasked IV and material gives back the bytes stored in the footer. |
| BlockDecryptor.EntrySize | Il2CppDumper/Il2Cpp/MetadataDecryption.cs:145 | The entry size is a multiple of 0x40 with `0x100 E <= L < 0x100 (E + 0x40)`, and at least 0x40 when `L >= 0x4000`. |
| BlockDecryptor.WindowFits | Il2CppDumper/Il2Cpp/MetadataDecryption.cs:148-156 | Every window `[k E, k E + 0x40)` with `k < 0x100` lies inside the file. |
| BlockDecryptor.WindowIndex | Il2CppDumper/Il2Cpp/MetadataDecryption.cs:148-153 | A byte is in window `k` exactly when it is in entry `k` and within that entry's first 0x40 bytes. |
| BlockDecryptor.WindowsDisjoint | Il2CppDumper/Il2Cpp/MetadataDecryption.cs:146-153 | No byte lies in the windows of two different entries. |
| BlockDecryptor.EntryStep | Il2CppDumper/Il2Cpp/MetadataDecryption.cs:146-160 | Decrypting window `k` reads it in its original state and keeps every earlier window and every byte no later entry decrypts. |
| BlockDecryptor.PrepareSession | Il2CppDumper/Il2Cpp/MetadataDecryption.cs:115-151 | The footer copy fails exactly on a file shorter than 0x4000 bytes, then the magic check, then the layout check, in that order. On success the IV is `out2 ^ hardKey`, the key is the fold of `out1`, and the entry size is as at line 145. |
| BlockDecryptor.DecryptEntry | Il2CppDumper/Il2Cpp/MetadataDecryption.cs:147-160 | One iteration of the entry loop decrypts window `k` from its original bytes, with the IV reset, and keeps the windows before it. |
| BlockDecryptor.DecryptEntries | Il2CppDumper/Il2Cpp/MetadataDecryption.cs:146-161 | After the loop every window is the CBC decryption of its original 0x40 bytes from the same IV, and every byte outside the windows is unchanged. |
| BlockDecryptor.DecryptMetadataBlocks | Il2CppDumper/Il2Cpp/MetadataDecryption.cs:113-162 | It fails, with no buffer written, exactly when a footer check fails, and with that check's error. Otherwise it returns the buffer laid out as `DecryptedLayout` states. |
| StringInfo.SeedBytesAt | Il2CppDumper/Il2Cpp/MetadataDecryption.cs:87-92 | Byte `q` of `values` comes from header offset `ByteSource(q)` of the five copies. |
| StringInfo.SeedWordsFromHeader | Il2CppDumper/Il2Cpp/MetadataDecryption.cs:87-92 | `values[i]` is the little-endian word at header offset `WordSource(i)`. |
| StringInfo.HiIndex | Il2CppDumper/Il2Cpp/MetadataDecryption.cs:94 | `values[0] & 0xF` is a valid index below 16. |
| StringInfo.LoIndex | Il2CppDumper/Il2Cpp/MetadataDecryption.cs:94 | `(values[0x11] & 0xF) + 2` lies in `[2, 18)`, inside the 18-word array. |
| StringInfo.Seed | Il2CppDumper/Il2Cpp/MetadataDecryption.cs:94 | The seed's high 32 bits are `values[hi]` and its low 32 bits are `values[lo]`. |
| StringInfo.Int63 | Il2CppDumper/Il2Cpp/MetadataDecryption.cs:97-102 | Each draw is below 2^63, and the stream advances by exactly one draw. |
| StringInfo.Int63Many | Il2CppDumper/Il2Cpp/MetadataDecryption.cs:104-106 | The blob loop takes `n` draws in order: word `i` is draw `drawn + i`, and the stream ends `n` draws later. |
| StringInfo.DrawContext | Il2CppDumper/Il2Cpp/MetadataDecryption.cs:95-108 | From a freshly seeded stream, the five masks are the low 32 bits of draws 0, 1, 3, 4 and 5, and the blob that follows has 0x5000 bytes. |
| StringInfo.TopByteOfDraw | Il2CppDumper/Il2Cpp/MetadataDecryption.cs:97-106 | The most significant byte of every draw is below 0x80. |
| StringInfo.DecryptMetadataStringInfo | Il2CppDumper/Il2Cpp/MetadataDecryption.cs:83-111 | The five masks are the low 32 bits of draws 0, 1, 3, 4 and 5 of the seeded stream; draw 2 is discarded; the blob has 0x5000 bytes. |
| StringInfo.BlobSlot | Il2CppDumper/Il2Cpp/MetadataDecryption.cs:104-108 | Blob bytes `[8i, 8i + 8)` are draw `6 + i`, least significant byte first, for each of the 2560 slots. |
| StringInfo.BlobRoundTrip | Il2CppDumper/Il2Cpp/MetadataDecryption.cs:104-108 | Reading slot `i` of the blob back as a little-endian 64-bit word gives draw `6 + i`. |
| StringInfo.BlobTopBytes | Il2CppDumper/Il2Cpp/MetadataDecryption.cs:104-108 | The last byte of every slot is below 0x80, because each draw is below 2^63. |
| MetadataDecryption.DecryptMetadata | Il2CppDumper/Il2Cpp/MetadataDecryption.cs:164-168 | Block decryption comes first and its errors propagate unchanged. On success the buffer is laid out as `DecryptedLayout` states and the string context is derived from the decrypted buffer. |
| MetadataDecryption.SeedTailIsPlaintext | Il2CppDumper/Il2Cpp/MetadataDecryption.cs:164-168 | The last four seed words, from header bytes 0x8 .. 0x18, are read from the first entry's decrypted plaintext. |
| MetadataDecryption.SeedHeadUntouched | Il2CppDumper/Il2Cpp/MetadataDecryption.cs:164-168 | When entries are at least 0x180 bytes long, the first fourteen seed words are read from bytes the block pass left as they were. |

## Left out

- `Il2CppDumper/Program.cs` is not part of this model. It handles configuration, dialogs, file reading, container dispatch, process-memory scanning and output generation, none of which is de-obfuscation. Its only call into the core, `DecryptMetadata(metadataBytes)`, is what `MetadataDecryption.DecryptMetadata` models.
- The contents of the tables `BlkStuff1p2 .. BlkStuff1p6` are not in this model. They are fixed data defined outside `MetadataDecryption.cs`, so they are the parameter `Tables`. Every property here holds for any tables.
- The Mersenne Twister's internals are not in this model. `MT19937_64` is defined elsewhere, so the generator is the parameter `Generator`. Only the seed, the order of the draws, the `>> 1` of `Int63`, the truncation to 32 bits and the packing are modelled.
- Exceptions become `Result` errors, and their types and messages are dropped:
  - `ShortBuffer` is the out-of-range footer copy on a file shorter than 0x4000 bytes;
  - `FormatMismatch` is the `ArgumentException` for a missing magic;
  - `CorruptFooterLayout` is the out-of-range copy of `out2`/`out1`. The `out1` copy ends past the `out2` copy, so one condition covers both.

  An error returns no buffer. In the source every failing check comes before the first write to `metadata`, so the caller's buffer is untouched in every error case.
- Byte arrays are immutable sequences. Every in-place loop returns the new buffer with an explicit frame (`SameOutside`) instead of mutating an array. The code's aliasing is single-buffer, so nothing is lost.
- `Buffer.BlockCopy` of `uint[]` and `ulong[]` is modelled with little-endian layout, the layout of every host the tool runs on.
- The IV `out2 ^ hardKey` is computed once, in `PrepareSession`. The code recomputes the same 16 bytes at the start of every entry. The value is identical, and `DecryptedLayout` states that every entry is chained from it.
- StringInfo.DecryptMetadataStringInfo: requires at least 0x150 bytes, the extent of the five header copies. Its only caller runs it after the block pass succeeded, which guarantees at least 0x4000 bytes. Standalone, on a shorter buffer, the C# copy would throw, and that case is not modelled.
- The encryption direction of the block transform is not modelled. It is not part of the source, and nothing about the tables makes the rounds invertible. The transform's partners are the stage decomposition (`ScrambleStages`, `ScrambleFinalStep`) and the locality lemmas.
