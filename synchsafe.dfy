/**
 * Synchsafe integers of the ID3v2 tag format (section 6.2 of the ID3v2.4.0
 * structure document): a 28-bit value is stored in four bytes, seven bits per
 * byte, most significant group first, with bit 7 of every byte clear.
 *
 * The reader has three pieces of code for this: the inline size decode used for
 * the tag size and the frame size, and two unused helpers that work on one
 * 32-bit word, `synchsafe` (encode) and `unsynchsafe` (decode). C's `int` is
 * modelled as `bv32` with two's-complement wrap-around.
 */
module Synchsafe {

  /** Four bytes as they lie on disk, such as a size field, most significant byte first. */
  type Bytes4 = s: seq<bv8> | |s| == 4 witness [0, 0, 0, 0]

  /** 2^28: every synchsafe value is below this bound. */
  const SynchsafeBound: bv32 := 0x1000_0000

  /** Bit 7 of every byte is clear, as the format requires of a size field. */
  predicate IsSynchsafeBytes(b: Bytes4)
  {
    b[0] < 0x80 && b[1] < 0x80 && b[2] < 0x80 && b[3] < 0x80
  }

  /** Bits 7, 15, 23 and 31 of a word are clear: its four bytes are synchsafe. */
  predicate IsSynchsafeWord(x: bv32)
  {
    x & 0x8080_8080 == 0
  }

  // ---------------------------------------------------------------------------
  // Words and their big-endian bytes

  /** The four bytes of a word, most significant first. */
  function ToBytes(x: bv32): (b: Bytes4)
    ensures IsSynchsafeBytes(b) <==> IsSynchsafeWord(x)
  {
    [(x >> 24) as bv8, ((x >> 16) & 0xFF) as bv8, ((x >> 8) & 0xFF) as bv8, (x & 0xFF) as bv8]
  }

  /** The word whose big-endian bytes are `b`. */
  function FromBytes(b: Bytes4): (x: bv32)
  {
    Pack(b[0], b[1], b[2], b[3])
  }

  /** Four bytes side by side in one word, the first one most significant. */
  function Pack(b0: bv8, b1: bv8, b2: bv8, b3: bv8): bv32
  {
    ((b0 as bv32) << 24) | ((b1 as bv32) << 16) | ((b2 as bv32) << 8) | (b3 as bv32)
  }

  lemma UnpackPack(b0: bv8, b1: bv8, b2: bv8, b3: bv8)
    ensures (Pack(b0, b1, b2, b3) >> 24) as bv8 == b0
    ensures ((Pack(b0, b1, b2, b3) >> 16) & 0xFF) as bv8 == b1
    ensures ((Pack(b0, b1, b2, b3) >> 8) & 0xFF) as bv8 == b2
    ensures (Pack(b0, b1, b2, b3) & 0xFF) as bv8 == b3
  {
  }

  lemma FromBytesToBytes(x: bv32)
    ensures FromBytes(ToBytes(x)) == x
  {
  }

  lemma ToBytesFromBytes(b: Bytes4)
    ensures ToBytes(FromBytes(b)) == b
  {
    UnpackPack(b[0], b[1], b[2], b[3]);
  }

  // ---------------------------------------------------------------------------
  // The inline decode of the tag size and the frame size

  /**
   * The size decode the reader writes out for both the tag header and the
   * frame header: byte i is shifted left by 7 * (3 - i) and the four are OR-ed.
   * The high bit of a byte is not masked off. In C the bytes are promoted to
   * `int` and the result is below 2^29, so no bit is lost.
   */
  function DecodeSize(b: Bytes4): (r: bv32)
    ensures r < 0x2000_0000
    ensures IsSynchsafeBytes(b) ==> r < SynchsafeBound
  {
    Pack7(b[0], b[1], b[2], b[3])
  }

  /** Four bytes shifted by 21, 14, 7 and 0 bits and OR-ed together. */
  function Pack7(b0: bv8, b1: bv8, b2: bv8, b3: bv8): bv32
  {
    ((b0 as bv32) << 21) | ((b1 as bv32) << 14) | ((b2 as bv32) << 7) | (b3 as bv32)
  }

  lemma Pack7Digits(b0: bv8, b1: bv8, b2: bv8, b3: bv8)
    requires b0 < 0x80 && b1 < 0x80 && b2 < 0x80 && b3 < 0x80
    ensures Pack7(b0, b1, b2, b3)
         == (b0 as bv32) * 0x20_0000 + (b1 as bv32) * 0x4000 + (b2 as bv32) * 0x80 + (b3 as bv32)
    ensures ((Pack7(b0, b1, b2, b3) >> 21) & 0x7F) as bv8 == b0
    ensures ((Pack7(b0, b1, b2, b3) >> 14) & 0x7F) as bv8 == b1
    ensures ((Pack7(b0, b1, b2, b3) >> 7) & 0x7F) as bv8 == b2
    ensures (Pack7(b0, b1, b2, b3) & 0x7F) as bv8 == b3
  {
  }

  /**
   * On synchsafe bytes the decode is the base-128 number whose digits are the
   * four bytes. The sum is below 2^28, so the 32-bit arithmetic does not wrap.
   */
  lemma DecodeSizeValue(b: Bytes4)
    requires IsSynchsafeBytes(b)
    ensures DecodeSize(b)
         == (b[0] as bv32) * 0x20_0000 + (b[1] as bv32) * 0x4000 + (b[2] as bv32) * 0x80 + (b[3] as bv32)
    ensures DecodeSize(b) < SynchsafeBound
  {
    Pack7Digits(b[0], b[1], b[2], b[3]);
  }

  /**
   * The high bit of a size byte is not masked off: it can change the result,
   * and it can make two different size fields decode to the same size. The
   * OR sometimes absorbs it, when the neighbouring group's low bit is set.
   */
  lemma DecodeSizeHighBitOverlaps()
    ensures DecodeSize([0, 0, 0, 0x80]) == DecodeSize([0, 0, 1, 0]) == 0x80
    ensures DecodeSize([0, 0, 0, 0x80]) != DecodeSize([0, 0, 0, 0x00])
    ensures DecodeSize([1, 0x80, 0, 0]) == DecodeSize([1, 0, 0, 0])
  {
  }

  // ---------------------------------------------------------------------------
  // The 7-bit groups of a value

  /** The four 7-bit groups of `v`, most significant first, one per byte. */
  function Groups(v: bv32): (b: Bytes4)
    ensures IsSynchsafeBytes(b)
  {
    [((v >> 21) & 0x7F) as bv8, ((v >> 14) & 0x7F) as bv8, ((v >> 7) & 0x7F) as bv8, (v & 0x7F) as bv8]
  }

  /** Every value below 2^28 is the decode of its groups. */
  lemma DecodeSizeGroups(v: bv32)
    requires v < SynchsafeBound
    ensures DecodeSize(Groups(v)) == v
  {
  }

  /** Every valid size field is the groups of its decode. */
  lemma GroupsDecodeSize(b: Bytes4)
    requires IsSynchsafeBytes(b)
    ensures Groups(DecodeSize(b)) == b
  {
    Pack7Digits(b[0], b[1], b[2], b[3]);
  }

  /** Distinct valid size fields decode to distinct sizes. */
  lemma DecodeSizeInjective(a: Bytes4, b: Bytes4)
    requires IsSynchsafeBytes(a) && IsSynchsafeBytes(b)
    requires DecodeSize(a) == DecodeSize(b)
    ensures a == b
  {
    GroupsDecodeSize(a);
    GroupsDecodeSize(b);
  }

  /** A size field with bit 7 of each byte cleared. */
  function ClearHighBits(b: Bytes4): (c: Bytes4)
    ensures IsSynchsafeBytes(c)
    ensures IsSynchsafeBytes(b) ==> c == b
  {
    [b[0] & 0x7F, b[1] & 0x7F, b[2] & 0x7F, b[3] & 0x7F]
  }

  // ---------------------------------------------------------------------------
  // synchsafe: the encoder loop

  /**
   * The word the encoder returns, for any input: bits 0-6, 7-13 and 14-20 of
   * `v` go to bytes 3, 2 and 1, and bits 21-28 to byte 0, whose top bit is
   * therefore bit 28 of `v`; bits 29-31 of `v` are shifted out.
   */
  function EncodedWord(v: bv32): (r: bv32)
    ensures v < SynchsafeBound ==> r == FromBytes(Groups(v))
  {
    (v & 0x7F) | ((v << 1) & 0x7F00) | ((v << 2) & 0x7F_0000) | ((v << 3) & 0xFF00_0000)
  }

  /**
   * The source's `synchsafe`. Each pass moves the bits above `mask` up one
   * place, opening a zero bit just above the mask, and widens the mask by a
   * byte with `((mask + 1) << 8) - 1`. The loop runs exactly three times,
   * with masks 0x7F, 0x7FFF and 0x7FFFFF, and stops at 0x7FFFFFFF; the
   * invariant lists the state before each pass and after the last.
   * In C, `out` starts uninitialised; since the loop always runs, that value
   * is never read, and here it starts at 0.
   */
  method Encode(input: bv32) returns (out: bv32, ghost passes: nat)
    ensures passes == 3
    ensures out == EncodedWord(input)
  {
    var inp := input;
    var mask: bv32 := 0x7F;
    out := 0;
    passes := 0;
    while mask ^ 0x7FFF_FFFF != 0
      invariant || (passes == 0 && mask == 0x7F && inp == input)
                || (passes == 1 && mask == 0x7FFF && inp == out == (input & 0x7F) | ((input << 1) & 0xFFFF_FF00))
                || (passes == 2 && mask == 0x7F_FFFF
                    && inp == out == (input & 0x7F) | ((input << 1) & 0x7F00) | ((input << 2) & 0xFFFF_0000))
                || (passes == 3 && mask == 0x7FFF_FFFF && inp == out == EncodedWord(input))
      decreases 3 - passes
    {
      out := inp & !mask;
      out := out << 1;
      out := out | (inp & mask);
      mask := ((mask + 1) << 8) - 1;
      inp := out;
      passes := passes + 1;
    }
  }

  /** For a value below 2^28 the encoder's bytes are its 7-bit groups, so each is below 0x80. */
  lemma EncodedWordBytes(v: bv32)
    requires v < SynchsafeBound
    ensures ToBytes(EncodedWord(v)) == Groups(v)
    ensures IsSynchsafeWord(EncodedWord(v))
  {
    ToBytesFromBytes(Groups(v));
  }

  // ---------------------------------------------------------------------------
  // unsynchsafe: the decoder loop

  /**
   * What `unsynchsafe` computes for any word: the low seven bits of each of
   * its four bytes, moved next to each other; bit 7 of every byte is dropped.
   */
  function UnsynchsafeValue(x: bv32): (r: bv32)
    ensures r < SynchsafeBound
  {
    (((x >> 24) & 0x7F) << 21) | (((x >> 16) & 0x7F) << 14) | (((x >> 8) & 0x7F) << 7) | (x & 0x7F)
  }

  /** The mask `unsynchsafe` holds before pass `k`: one 7-bit group per byte, highest first. */
  function DecodeMask(k: nat): (m: bv32)
    requires k <= 4
    ensures m == 0 <==> k == 4
    ensures m & 0x8000_0000 == 0
  {
    if k == 0 then 0x7F00_0000 else if k == 1 then 0x7F_0000 else if k == 2 then 0x7F00 else if k == 3 then 0x7F else 0
  }

  /** Each pass moves the mask down a byte. */
  lemma DecodeMaskNext(k: nat)
    requires k < 4
    ensures DecodeMask(k) >> 8 == DecodeMask(k + 1)
  {
  }

  /** What `out` holds after `k` passes of `unsynchsafe`. */
  function DecodeGathered(x: bv32, k: nat): (out: bv32)
    requires k <= 4
  {
    if k == 0 then 0 else (DecodeGathered(x, k - 1) >> 1) | (x & DecodeMask(k - 1))
  }

  /** One pass of the loop keeps the invariant: the state after `k` passes becomes the state after `k + 1`. */
  lemma DecodePass(x: bv32, k: nat, out: bv32, mask: bv32)
    requires k < 4 && mask == DecodeMask(k) && out == DecodeGathered(x, k)
    ensures (out >> 1) | (x & mask) == DecodeGathered(x, k + 1)
    ensures ((out >> 1) | (x & mask)) & 0x8000_0000 == 0
    ensures mask >> 8 == DecodeMask(k + 1)
  {
    DecodeMaskNext(k);
  }

  /**
   * The passes one by one: after `k` passes `out` holds the top `k` groups of
   * `x` packed together, still `4 - k` places short of where they end up.
   */
  lemma DecodeGatheredOne(x: bv32)
    ensures DecodeGathered(x, 1) == x & 0x7F00_0000
  {
    assert DecodeGathered(x, 0) == 0;
  }

  lemma DecodeGatheredTwo(x: bv32)
    ensures DecodeGathered(x, 2) == ((x >> 1) & 0x3F80_0000) | (x & 0x7F_0000)
  {
    DecodeGatheredOne(x);
  }

  lemma DecodeGatheredThree(x: bv32)
    ensures DecodeGathered(x, 3) == ((x >> 2) & 0x1FC0_0000) | ((x >> 1) & 0x3F_8000) | (x & 0x7F00)
  {
    DecodeGatheredTwo(x);
  }

  /** After its four passes, the loop has gathered exactly `UnsynchsafeValue(x)`. */
  lemma DecodeGatheredAll(x: bv32)
    ensures DecodeGathered(x, 4) == UnsynchsafeValue(x)
  {
    DecodeGatheredThree(x);
  }

  /**
   * The source's `unsynchsafe`. Each pass shifts what has been gathered down
   * one place and adds the group under `mask`, then moves the mask down a
   * byte. The loop runs four times, with masks 0x7F000000, 0x7F0000, 0x7F00
   * and 0x7F. C shifts the signed `out` right arithmetically; bit 31 of `out`
   * is never set, so that equals the logical shift used here.
   */
  method Decode(input: bv32) returns (out: bv32, ghost passes: nat)
    ensures passes == 4
    ensures out == UnsynchsafeValue(input)
  {
    out := 0;
    var mask: bv32 := 0x7F00_0000;
    passes := 0;
    while mask != 0
      invariant passes <= 4 && mask == DecodeMask(passes)
      invariant out == DecodeGathered(input, passes)
      invariant out & 0x8000_0000 == 0
      decreases 4 - passes
    {
      DecodePass(input, passes, out, mask);
      out := out >> 1;
      out := out | (input & mask);
      mask := mask >> 8;
      passes := passes + 1;
    }
    DecodeGatheredAll(input);
  }

  // ---------------------------------------------------------------------------
  // How the three pieces fit together

  lemma UnsynchsafePack(b0: bv8, b1: bv8, b2: bv8, b3: bv8)
    ensures UnsynchsafeValue(Pack(b0, b1, b2, b3)) == Pack7(b0 & 0x7F, b1 & 0x7F, b2 & 0x7F, b3 & 0x7F)
  {
  }

  /**
   * For any word, `unsynchsafe` is the inline size decode of the word's
   * big-endian bytes with bit 7 of each byte cleared.
   */
  lemma UnsynchsafeIsMaskedDecodeSize(b: Bytes4)
    ensures UnsynchsafeValue(FromBytes(b)) == DecodeSize(ClearHighBits(b))
  {
    var c := ClearHighBits(b);
    assert DecodeSize(c) == Pack7(b[0] & 0x7F, b[1] & 0x7F, b[2] & 0x7F, b[3] & 0x7F);
    UnsynchsafePack(b[0], b[1], b[2], b[3]);
  }

  /** On a valid size field, `unsynchsafe` of the field read as a word agrees with the inline decode. */
  lemma UnsynchsafeAgreesWithDecodeSize(b: Bytes4)
    requires IsSynchsafeBytes(b)
    ensures UnsynchsafeValue(FromBytes(b)) == DecodeSize(b)
  {
    UnsynchsafeIsMaskedDecodeSize(b);
  }

  /** Decoding an encoded value gives the value back. */
  lemma UnsynchsafeEncodedWord(v: bv32)
    requires v < SynchsafeBound
    ensures UnsynchsafeValue(EncodedWord(v)) == v
  {
    UnsynchsafeAgreesWithDecodeSize(Groups(v));
    DecodeSizeGroups(v);
  }

  /** Encoding the decode of a synchsafe word gives the word back. */
  lemma EncodedWordUnsynchsafe(x: bv32)
    requires IsSynchsafeWord(x)
    ensures EncodedWord(UnsynchsafeValue(x)) == x
  {
    var b := ToBytes(x);
    FromBytesToBytes(x);
    UnsynchsafeAgreesWithDecodeSize(b);
    GroupsDecodeSize(b);
  }

  /** The inline decode of the encoder's bytes gives the value back. */
  lemma DecodeSizeEncodedWord(v: bv32)
    requires v < SynchsafeBound
    ensures DecodeSize(ToBytes(EncodedWord(v))) == v
  {
    ToBytesFromBytes(Groups(v));
    DecodeSizeGroups(v);
  }
}
