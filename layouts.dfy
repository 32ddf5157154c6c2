/**
 * The three packed records the reader lays over file bytes: the 10-byte ID3v2
 * tag header (section 3.1 of the ID3v2.4.0 structure document), the 10-byte
 * frame header (section 4 of the same document) and the 128-byte ID3v1
 * trailer. Each record is a datatype; `...Bytes` gives the bytes it occupies
 * on disk, fields in declaration order, and `Parse...` reads the fields back
 * from their byte offsets, replacing the memory overlay of the packed struct.
 */
module Layouts {
  import opened Synchsafe

  type Bytes2 = s: seq<bv8> | |s| == 2 witness [0, 0]
  type Bytes3 = s: seq<bv8> | |s| == 3 witness [0, 0, 0]
  type Bytes30 = s: seq<bv8> | |s| == 30 witness seq(30, _ => 0)

  // ---------------------------------------------------------------------------
  // HEADERV2: id[3] ver[2] flags size[4], then the decoded tag size

  /** Bytes the tag header occupies on disk; `tagsize` is not stored. */
  const HeaderV2Length := 10

  /**
   * The ID3v2 tag header. `tagsize` is filled in by the reader from `size`;
   * it does not count the 10 header bytes.
   */
  datatype HeaderV2 = HeaderV2(id: Bytes3, ver: Bytes2, flags: bv8, size: Bytes4, tagsize: bv32)

  /** The header's on-disk bytes: id at [0,3), ver at [3,5), flags at 5, size at [6,10). */
  function HeaderV2Bytes(h: HeaderV2): (r: seq<bv8>)
    ensures |r| == HeaderV2Length
    ensures r[0..3] == h.id && r[3..5] == h.ver && r[5] == h.flags && r[6..10] == h.size
  {
    h.id + h.ver + [h.flags] + h.size
  }

  /**
   * The header the reader builds from 10 bytes read from the file: the fields
   * at their offsets, and the tag size decoded from the size field.
   */
  function ParseHeaderV2(raw: seq<bv8>): (h: HeaderV2)
    requires |raw| == HeaderV2Length
    ensures HeaderV2Bytes(h) == raw
    ensures TagSizeDecoded(h)
  {
    SplitV2(raw);
    HeaderV2(raw[0..3], raw[3..5], raw[5], raw[6..10], DecodeSize(raw[6..10]))
  }

  /** The tag size agrees with the size bytes, as after the reader fills it in. */
  predicate TagSizeDecoded(h: HeaderV2)
  {
    h.tagsize == DecodeSize(h.size)
  }

  /** Ten bytes are the concatenation of the header's fields taken at their offsets. */
  lemma SplitV2(raw: seq<bv8>)
    requires |raw| == HeaderV2Length
    ensures raw[0..3] + raw[3..5] + [raw[5]] + raw[6..10] == raw
  {
    var r := raw[0..3] + raw[3..5] + [raw[5]] + raw[6..10];
    forall i | 0 <= i < 10 ensures r[i] == raw[i] {
      if i < 3 { assert r[i] == raw[0..3][i]; }
      else if i < 5 { assert r[i] == raw[3..5][i - 3]; }
      else if i >= 6 { assert r[i] == raw[6..10][i - 6]; }
    }
  }

  lemma ParseHeaderV2Bytes(h: HeaderV2)
    requires TagSizeDecoded(h)
    ensures ParseHeaderV2(HeaderV2Bytes(h)) == h
  {
  }

  /**
   * When the size bytes are synchsafe, the tag size is the base-128 number
   * they spell, below 2^28.
   */
  lemma TagSizeValue(raw: seq<bv8>)
    requires |raw| == HeaderV2Length
    requires IsSynchsafeBytes(raw[6..10])
    ensures ParseHeaderV2(raw).tagsize
         == (raw[6] as bv32) * 0x20_0000 + (raw[7] as bv32) * 0x4000 + (raw[8] as bv32) * 0x80 + (raw[9] as bv32)
    ensures ParseHeaderV2(raw).tagsize < SynchsafeBound
  {
    DecodeSizeValue(raw[6..10]);
  }

  // ---------------------------------------------------------------------------
  // HEADERFRAME: id[4] size[4] flags[2], then the decoded frame size

  /** Bytes a frame header occupies on disk; `framesize` is not stored. */
  const HeaderFrameLength := 10

  /** An ID3v2 frame header. `framesize` is filled in by the reader from `size`. */
  datatype HeaderFrame = HeaderFrame(id: Bytes4, size: Bytes4, flags: Bytes2, framesize: bv32)

  /** The frame header's on-disk bytes: id at [0,4), size at [4,8), flags at [8,10). */
  function HeaderFrameBytes(h: HeaderFrame): (r: seq<bv8>)
    ensures |r| == HeaderFrameLength
    ensures r[0..4] == h.id && r[4..8] == h.size && r[8..10] == h.flags
  {
    h.id + h.size + h.flags
  }

  /** The frame header the reader builds from 10 bytes, with the frame size decoded like the tag size. */
  function ParseHeaderFrame(raw: seq<bv8>): (h: HeaderFrame)
    requires |raw| == HeaderFrameLength
    ensures HeaderFrameBytes(h) == raw
    ensures FrameSizeDecoded(h)
  {
    SplitFrame(raw);
    HeaderFrame(raw[0..4], raw[4..8], raw[8..10], DecodeSize(raw[4..8]))
  }

  /** The frame size agrees with the size bytes, as after the reader fills it in. */
  predicate FrameSizeDecoded(h: HeaderFrame)
  {
    h.framesize == DecodeSize(h.size)
  }

  /** Ten bytes are the concatenation of the frame header's fields taken at their offsets. */
  lemma SplitFrame(raw: seq<bv8>)
    requires |raw| == HeaderFrameLength
    ensures raw[0..4] + raw[4..8] + raw[8..10] == raw
  {
    var r := raw[0..4] + raw[4..8] + raw[8..10];
    forall i | 0 <= i < 10 ensures r[i] == raw[i] {
      if i < 4 { assert r[i] == raw[0..4][i]; }
      else if i < 8 { assert r[i] == raw[4..8][i - 4]; }
      else { assert r[i] == raw[8..10][i - 8]; }
    }
  }

  lemma ParseHeaderFrameBytes(h: HeaderFrame)
    requires FrameSizeDecoded(h)
    ensures ParseHeaderFrame(HeaderFrameBytes(h)) == h
  {
  }

  // ---------------------------------------------------------------------------
  // HEADERV1: id[3] title[30] artist[30] album[30] year[4] comment[30] genre

  /** Bytes of the ID3v1 trailer, the last ones of the file. */
  const HeaderV1Length := 128

  /** The ID3v1 trailer; text fields are fixed-width and need not end in NUL. */
  datatype HeaderV1 = HeaderV1(
    id: Bytes3, title: Bytes30, artist: Bytes30, album: Bytes30,
    year: Bytes4, comment: Bytes30, genre: bv8)

  /**
   * The trailer's bytes: id at [0,3), title at [3,33), artist at [33,63),
   * album at [63,93), year at [93,97), comment at [97,127), genre at 127.
   */
  function HeaderV1Bytes(h: HeaderV1): (r: seq<bv8>)
    ensures |r| == HeaderV1Length
    ensures r[0..3] == h.id && r[3..33] == h.title && r[33..63] == h.artist && r[63..93] == h.album
    ensures r[93..97] == h.year && r[97..127] == h.comment && r[127] == h.genre
  {
    h.id + h.title + h.artist + h.album + h.year + h.comment + [h.genre]
  }

  /**
   * The trailer the reader builds from the last 128 bytes of the file, field by
   * field; laid out again, its fields are exactly those bytes.
   */
  function ParseHeaderV1(raw: seq<bv8>): (h: HeaderV1)
    requires |raw| == HeaderV1Length
    ensures HeaderV1Bytes(h) == raw
  {
    SplitV1(raw);
    HeaderV1(raw[0..3], raw[3..33], raw[33..63], raw[63..93], raw[93..97], raw[97..127], raw[127])
  }

  /** 128 bytes are the concatenation of the trailer's fields taken at their offsets. */
  lemma SplitV1(raw: seq<bv8>)
    requires |raw| == HeaderV1Length
    ensures raw[0..3] + raw[3..33] + raw[33..63] + raw[63..93] + raw[93..97] + raw[97..127] + [raw[127]] == raw
  {
    var r := raw[0..3] + raw[3..33] + raw[33..63] + raw[63..93] + raw[93..97] + raw[97..127] + [raw[127]];
    forall i | 0 <= i < 128 ensures r[i] == raw[i] {
      if i < 3 { assert r[i] == raw[0..3][i]; }
      else if i < 33 { assert r[i] == raw[3..33][i - 3]; }
      else if i < 63 { assert r[i] == raw[33..63][i - 33]; }
      else if i < 93 { assert r[i] == raw[63..93][i - 63]; }
      else if i < 97 { assert r[i] == raw[93..97][i - 93]; }
      else if i < 127 { assert r[i] == raw[97..127][i - 97]; }
    }
  }

  lemma ParseHeaderV1Bytes(h: HeaderV1)
    ensures ParseHeaderV1(HeaderV1Bytes(h)) == h
  {
  }
}
