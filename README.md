# ID3 tag reader: a Dafny model of its byte-level decoding

This project models the decoding core of a small C program that reads ID3
metadata tags from an MP3 file (`id3v2.c`). The model covers three parts.

- **Synchsafe integers** (module `Synchsafe`, `synchsafe.dfy`). An ID3v2 size
  is a 28-bit number stored in four bytes, seven bits per byte, most
  significant first, with bit 7 of every byte clear. Section 6.2 of the
  ID3v2.4.0 structure document calls these synchsafe integers.
  - The program decodes the tag size and the frame size with an inline
    expression that shifts each byte by 21, 14, 7 and 0 bits and ORs them
    together (`DecodeSize`).
  - It also has two helpers that are never called: `synchsafe`, an encoder
    loop over a 32-bit word (`Encode`), and `unsynchsafe`, a decoder loop
    (`Decode`).
  - C's `int` is modelled as `bv32`.
- **Record layouts** (module `Layouts`, `layouts.dfy`). The program lays three
  packed structs over file bytes:
  - `HEADERV2`, the 10-byte tag header;
  - `HEADERFRAME`, the 10-byte frame header;
  - `HEADERV1`, the 128-byte trailer at the end of the file.

  Each struct is a datatype. `...Bytes` gives the bytes the record occupies on
  disk, and its contract states every field's offset. `Parse...` reads the
  fields back from those offsets. Round-trip lemmas show the two are inverse.
- **Readers** (module `Id3Reader`, `reader.dfy`). The `FILE *` is a `ByteFile`
  class: the file's contents and a cursor. `fread`, `fseek`, `fgetpos` and
  `fsetpos` are methods on it.
  - `readid3v1header` is `ReadV1Header`.
  - `readid3v2header` is `ReadV2Header`.
  - `readid3v2frames` is `ReadV2Frames`.
  - `ReadTags` runs the three in the order the program calls them.

The contracts and lemmas listed under "## Model" verify with Dafny.

### What the program does not do

- The program does not check the "ID3" or "TAG" magic. It reads whatever
  bytes lie at the header's and the trailer's positions.
- Section 6.2 of the ID3v2.4.0 structure document requires bit 7 of each size
  byte to be zero. The decode neither rejects nor masks a set bit; it ORs the
  bit into the neighbouring group (`DecodeSizeHighBitOverlaps`). The comment
  at `id3v2.c:177` says that bit "is ignored". On a valid header every such
  bit is 0, so the two readings agree there. The model keeps the code as
  written.
- Only the first frame header is read. There is no frame iteration, padding
  detection or payload reading.
- There is no version branch. Frame sizes are always decoded with the 7-bit
  formula, never as plain 32-bit big-endian values.
- The ID3v1 genre byte is at offset 127 (3 + 30 + 30 + 30 + 4 + 30), as the
  struct declaration at `id3v2.c:42-51` lays it out.
- The unused helpers agree with the inline decode on every valid size field
  (`UnsynchsafeAgreesWithDecodeSize`, `DecodeSizeEncodedWord`).

## Model

| member | source | states |
|---|---|---|
| `Synchsafe.DecodeSize` | id3v2.c:186-189 | The tag-size decode is below 2^29 for any four bytes, and below 2^28 when every byte is below 0x80. |
| `Synchsafe.DecodeSizeValue` | id3v2.c:186-189 | When every size byte is below 0x80, the decoded size is size[0]*2^21 + size[1]*2^14 + size[2]*2^7 + size[3]. The sum is below 2^28, so it is exact. |
| `Synchsafe.DecodeSizeInjective` | id3v2.c:186-189 | Two size fields whose bytes are all below 0x80 and that decode to the same size are the same bytes. |
| `Synchsafe.GroupsDecodeSize` | id3v2.c:186-189 | A valid size field equals the four 7-bit groups of its decoded size. |
| `Synchsafe.Groups` | id3v2.c:186-189 | Splitting a value into its four 7-bit groups always gives a valid size field, every byte below 0x80. |
| `Synchsafe.DecodeSizeGroups` | id3v2.c:186-189 | Every value below 2^28 is the decode of its four 7-bit groups, so the decode reaches every 28-bit size. |
| `Synchsafe.DecodeSizeHighBitOverlaps` | id3v2.c:177-189 | The high bit of a size byte is not masked off: it can change the result and make two fields collide. 00 00 00 80 and 00 00 01 00 both decode to 128, and 00 00 00 80 does not decode like 00 00 00 00. Sometimes the OR absorbs the bit: 01 80 00 00 decodes like 01 00 00 00. |
| `Synchsafe.ClearHighBits` | id3v2.c:115-128 | Clearing bit 7 of each byte gives a valid size field, and leaves a valid field unchanged. |
| `Synchsafe.ToBytes` | id3v2.c:115-128 | A word's four big-endian bytes are all below 0x80 exactly when bits 7, 15, 23 and 31 of the word are clear. |
| `Synchsafe.FromBytesToBytes` | id3v2.c:115-128 | Splitting a word into its big-endian bytes and joining them gives the word back. |
| `Synchsafe.ToBytesFromBytes` | id3v2.c:115-128 | Joining four bytes into a word and splitting it gives the bytes back. |
| `Synchsafe.EncodedWord` | id3v2.c:98-113 | For a value below 2^28, the encoder's word is the word whose big-endian bytes are the value's four 7-bit groups. |
| `Synchsafe.Encode` | id3v2.c:98-113 | The `synchsafe` loop runs exactly three passes, with masks 0x7F, 0x7FFF and 0x7FFFFF, and stops at 0x7FFFFFFF. It returns `EncodedWord(input)` for any 32-bit input. |
| `Synchsafe.EncodedWordBytes` | id3v2.c:98-113 | For a value below 2^28, the encoder's output has bits 7, 15, 23 and 31 clear. Its big-endian bytes are the value's 7-bit groups, each below 0x80. |
| `Synchsafe.UnsynchsafeValue` | id3v2.c:115-128 | What `unsynchsafe` computes is below 2^28 for every input. |
| `Synchsafe.DecodeMask` | id3v2.c:115-128 | The decoder's mask before pass k is 0x7F000000, 0x7F0000, 0x7F00, 0x7F and then 0. It is zero exactly after the fourth pass, and bit 31 is never set. |
| `Synchsafe.DecodeMaskNext` | id3v2.c:115-128 | `mask >>= 8` takes each pass's mask to the next one. |
| `Synchsafe.DecodePass` | id3v2.c:115-128 | One pass of the decoder loop takes the state after k passes to the state after k + 1, and keeps bit 31 of `out` clear. |
| `Synchsafe.DecodeGatheredAll` | id3v2.c:115-128 | After four passes the decoder has gathered exactly `UnsynchsafeValue(x)`. The state after one, two and three passes is stated in closed form by `DecodeGatheredOne`, `DecodeGatheredTwo` and `DecodeGatheredThree`. |
| `Synchsafe.Decode` | id3v2.c:115-128 | The `unsynchsafe` loop runs exactly four passes, with masks 0x7F000000, 0x7F0000, 0x7F00 and 0x7F. Bit 31 of `out` is never set. It returns `UnsynchsafeValue(input)`. |
| `Synchsafe.UnsynchsafeIsMaskedDecodeSize` | id3v2.c:115-128 | For any word, `unsynchsafe` equals (b0&0x7F)<<21 \| (b1&0x7F)<<14 \| (b2&0x7F)<<7 \| (b3&0x7F), where b0..b3 are its big-endian bytes. This is the inline decode of those bytes with bit 7 cleared. |
| `Synchsafe.UnsynchsafeAgreesWithDecodeSize` | id3v2.c:115-128 | On a size field whose bytes are all below 0x80, `unsynchsafe` of the field read as a big-endian word equals the inline decode. |
| `Synchsafe.UnsynchsafeEncodedWord` | id3v2.c:98-128 | For every value below 2^28, `unsynchsafe(synchsafe(v)) == v`. |
| `Synchsafe.EncodedWordUnsynchsafe` | id3v2.c:98-128 | For every word with bits 7, 15, 23 and 31 clear, `synchsafe(unsynchsafe(x)) == x`. |
| `Synchsafe.DecodeSizeEncodedWord` | id3v2.c:98-113 | Applied to the bytes `synchsafe` produces for a value below 2^28, the inline decode gives the value back. |
| `Layouts.HeaderV2Bytes` | id3v2.c:25-32 | The tag header occupies 10 bytes: id at [0,3), ver at [3,5), flags at 5, size at [6,10). `tagsize` is not on disk. |
| `Layouts.ParseHeaderV2` | id3v2.c:180-189 | The header built from 10 raw bytes has exactly those bytes as its on-disk layout, each field taken from its offset. Its `tagsize` is decoded from its own size field. |
| `Layouts.ParseHeaderV2Bytes` | id3v2.c:25-32 | A header whose `tagsize` agrees with its size field is what the reader builds from the header's own bytes. |
| `Layouts.TagSizeValue` | id3v2.c:186-189 | When bytes 6-9 of the header are all below 0x80, the tag size they give is their base-128 value, below 2^28. |
| `Layouts.HeaderFrameBytes` | id3v2.c:34-40 | The frame header occupies 10 bytes: id at [0,4), size at [4,8), flags at [8,10). `framesize` is not on disk. |
| `Layouts.ParseHeaderFrame` | id3v2.c:221-225 | The frame header built from 10 raw bytes has exactly those bytes as its on-disk layout. Its `framesize` is decoded from its size field with the same 7-bit formula as the tag size. |
| `Layouts.ParseHeaderFrameBytes` | id3v2.c:34-40 | A frame header whose `framesize` agrees with its size field is what the reader builds from the header's own bytes. |
| `Layouts.HeaderV1Bytes` | id3v2.c:42-51 | The trailer occupies 128 bytes: id at [0,3), title at [3,33), artist at [33,63), album at [63,93), year at [93,97), comment at [97,127), genre at 127. |
| `Layouts.ParseHeaderV1` | id3v2.c:139 | The trailer built from 128 raw bytes has exactly those bytes as its on-disk layout, so every field is the bytes at its offset. |
| `Layouts.ParseHeaderV1Bytes` | id3v2.c:42-51 | Laying out a trailer and reading it back gives the same fields. |
| `Id3Reader.ByteFile.Open` | id3v2.c:66 | A freshly opened file holds the given contents, with the cursor at 0. |
| `Id3Reader.ByteFile.Read` | id3v2.c:180 | Reading n bytes, when at least n remain, returns exactly the n bytes at the cursor. The cursor advances by n. |
| `Id3Reader.ByteFile.GetPos` | id3v2.c:136 | Returns the cursor, which is within the file. |
| `Id3Reader.ByteFile.SetPos` | id3v2.c:142 | Restores the cursor to a saved position. |
| `Id3Reader.ByteFile.SeekFromEnd` | id3v2.c:138 | Moves the cursor to `offset` bytes before the end of the file. |
| `Id3Reader.ReadV1Header` | id3v2.c:130-145 | The trailer receives exactly bytes [len-128, len) of the file. The cursor afterwards equals the cursor before. |
| `Id3Reader.ReadV2Header` | id3v2.c:168-190 | The header receives the 10 bytes at the cursor, field by field at their offsets. The cursor advances by 10. `tagsize` is the decode of its size field. |
| `Id3Reader.ReadV2Frames` | id3v2.c:215-229 | The frame header receives the 10 bytes at the cursor. The cursor advances by 10. `framesize` is the decode of its size field. `bytesread` is 10. It is at most `tagsize` when `tagsize` is at least 10, and exceeds `tagsize` when it is smaller, which breaks the promise at id3v2.c:218. |
| `Id3Reader.ReadTags` | id3v2.c:85-91 | On a file of at least 128 bytes opened at its start, the trailer is the last 128 bytes. The tag header is bytes [0,10) with the tag size decoded from [6,10). The first frame header is bytes [10,20) with its size decoded from [14,18). The cursor ends at 20. |
| `Id3Reader.ExampleTagHeader` | id3v2.c:180-189 | The header 49 44 33 04 00 00 00 00 00 7F reads as id "ID3", version 4.0, no flags and a tag size of 127. |
| `Id3Reader.ExampleFrameHeader` | id3v2.c:221-225 | The frame header 54 49 54 32 00 00 00 05 00 00 reads as id "TIT2", frame size 5 and no flags. |

## Left out

- `main` (id3v2.c:62-96) is left out except for its call order, which `ReadTags` models. The hard-coded file name, `malloc`, `free`, `fclose`, `exit` and the failure messages are process plumbing.
- The print functions (id3v2.c:147-166, 192-213, 231-245) are console output only, with no decoding logic.
- I/O failures are not modelled. The program ignores the return values of `fread`, `fseek`, `fgetpos` and `fsetpos`. Each reader's `requires` instead asks for enough bytes: at least 128 for the trailer, and 10 past the cursor for each 10-byte read.
- `ReadV2Frames`: `bytesread` adds the byte count `fread` returns. With the file long enough, that count is 10.
- `Encode`: C's `int` is signed. `out <<= 1` overflows for inputs of 2^28 and above, and the final mask update `(0x800000 << 8) - 1` overflows too. Both are undefined behaviour in C. The model assumes 32-bit two's-complement wrap-around for both. `EncodedWord` is stated for every input, but the synchsafe properties are proved only below 2^28.
- `Decode`: C's `>>` on the signed `out` is an arithmetic shift. The model uses a logical shift. The loop invariant proves bit 31 of `out` is always clear, so the two agree.
- `DecodeSizeValue` and `TagSizeValue`: the base-128 sum is stated in 32-bit arithmetic rather than over unbounded integers. The same lemmas bound the result below 2^28, so nothing wraps and the sum is exact.
- The packed-struct memory overlay is not modelled. Explicit byte-offset functions replace it. The structs are values returned by the readers rather than memory filled in place: the caller's `malloc`ed headers in `main`, and the frame header that `readid3v2frames` allocates itself without checking the result and frees after printing (id3v2.c:220, 228).
