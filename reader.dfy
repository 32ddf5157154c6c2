/**
 * The tag readers of the ID3 reader. The `FILE *` they share is a `ByteFile`:
 * the file's contents and its position indicator, which `fread`, `fseek`,
 * `fgetpos` and `fsetpos` move. Each reader fills one record from bytes at the
 * cursor; the readers are called in the order ID3v1 trailer, ID3v2 header,
 * first ID3v2 frame header.
 */
module Id3Reader {
  import opened Synchsafe
  import opened Layouts

  /** An open file: its contents and its position indicator. */
  class ByteFile {
    const data: seq<bv8>
    var pos: nat

    predicate Valid()
      reads this
    {
      pos <= |data|
    }

    /** A freshly opened file, positioned at its first byte. */
    constructor Open(contents: seq<bv8>)
      ensures data == contents && pos == 0 && Valid()
    {
      data := contents;
      pos := 0;
    }

    /** `fread(buf, 1, n, f)` on a file that has `n` more bytes: those bytes, and the cursor moves past them. */
    method Read(n: nat) returns (buf: seq<bv8>)
      requires Valid() && pos + n <= |data|
      modifies this`pos
      ensures Valid()
      ensures buf == data[old(pos)..old(pos) + n]
      ensures pos == old(pos) + n
    {
      buf := data[pos..pos + n];
      pos := pos + n;
    }

    /** `fgetpos`: the current position. */
    method GetPos() returns (p: nat)
      requires Valid()
      ensures p == pos && p <= |data|
    {
      p := pos;
    }

    /** `fsetpos`: back to a position saved earlier. */
    method SetPos(p: nat)
      requires p <= |data|
      modifies this`pos
      ensures Valid() && pos == p
    {
      pos := p;
    }

    /** `fseek(f, -offset, SEEK_END)` on a file at least `offset` bytes long. */
    method SeekFromEnd(offset: nat)
      requires offset <= |data|
      modifies this`pos
      ensures Valid() && pos == |data| - offset
    {
      pos := |data| - offset;
    }
  }

  /**
   * `readid3v1header`: saves the cursor, reads the last 128 bytes of the file
   * into the trailer record, and puts the cursor back where it was.
   */
  method ReadV1Header(f: ByteFile) returns (header: HeaderV1)
    requires f.Valid() && |f.data| >= HeaderV1Length
    modifies f
    ensures f.Valid() && f.pos == old(f.pos)
    ensures HeaderV1Bytes(header) == f.data[|f.data| - HeaderV1Length..]
  {
    var oldpos := f.GetPos();
    f.SeekFromEnd(HeaderV1Length);
    var raw := f.Read(HeaderV1Length);
    header := ParseHeaderV1(raw);
    f.SetPos(oldpos);
  }

  /**
   * `readid3v2header`: reads the 10 header bytes at the cursor and decodes the
   * tag size from the size field.
   */
  method ReadV2Header(f: ByteFile) returns (header: HeaderV2)
    requires f.Valid() && f.pos + HeaderV2Length <= |f.data|
    modifies f
    ensures f.Valid() && f.pos == old(f.pos) + HeaderV2Length
    ensures HeaderV2Bytes(header) == f.data[old(f.pos)..old(f.pos) + HeaderV2Length]
    ensures TagSizeDecoded(header)
  {
    var raw := f.Read(HeaderV2Length);
    header := ParseHeaderV2(raw);
  }

  /**
   * `readid3v2frames`: reads the first frame header, 10 bytes at the cursor,
   * decodes its size and counts the bytes read. Only one frame header is
   * read. The source promises to read at most `tagsize` bytes; with one
   * header read that holds exactly when the tag has room for it, and a tag
   * smaller than 10 bytes is overrun.
   */
  method ReadV2Frames(f: ByteFile, header: HeaderV2) returns (frame: HeaderFrame, bytesread: nat)
    requires f.Valid() && f.pos + HeaderFrameLength <= |f.data|
    modifies f
    ensures f.Valid() && f.pos == old(f.pos) + HeaderFrameLength
    ensures HeaderFrameBytes(frame) == f.data[old(f.pos)..old(f.pos) + HeaderFrameLength]
    ensures FrameSizeDecoded(frame)
    ensures bytesread == HeaderFrameLength
    ensures header.tagsize as int >= HeaderFrameLength ==> bytesread <= header.tagsize as int
    ensures header.tagsize as int < HeaderFrameLength ==> bytesread > header.tagsize as int
  {
    bytesread := 0;
    var raw := f.Read(HeaderFrameLength);
    bytesread := bytesread + |raw|;
    frame := ParseHeaderFrame(raw);
  }

  /**
   * The readers in the order the program calls them, on a file opened at its
   * start: the trailer leaves the cursor where it was, so the tag header is
   * read from bytes [0,10) and the first frame header from [10,20).
   */
  method ReadTags(f: ByteFile) returns (v1: HeaderV1, v2: HeaderV2, frame: HeaderFrame)
    requires f.Valid() && f.pos == 0 && |f.data| >= HeaderV1Length
    modifies f
    ensures f.Valid() && f.pos == HeaderV2Length + HeaderFrameLength
    ensures HeaderV1Bytes(v1) == f.data[|f.data| - HeaderV1Length..]
    ensures HeaderV2Bytes(v2) == f.data[0..10] && v2.tagsize == DecodeSize(f.data[6..10])
    ensures HeaderFrameBytes(frame) == f.data[10..20] && frame.framesize == DecodeSize(f.data[14..18])
  {
    v1 := ReadV1Header(f);
    v2 := ReadV2Header(f);
    var bytesread;
    frame, bytesread := ReadV2Frames(f, v2);
    assert frame.size == f.data[10..20][4..8] == f.data[14..18];
  }

  // ---------------------------------------------------------------------------
  // Worked examples on concrete bytes

  /** The tag header "ID3", version 4.0, no flags, size bytes 00 00 00 7F: a tag of 127 bytes. */
  lemma ExampleTagHeader()
    ensures var h := ParseHeaderV2([0x49, 0x44, 0x33, 0x04, 0x00, 0x00, 0x00, 0x00, 0x00, 0x7F]);
            h.id == [0x49, 0x44, 0x33] && h.ver == [0x04, 0x00] && h.flags == 0 && h.tagsize == 127
  {
  }

  /** The frame header "TIT2" with size bytes 00 00 00 05 and no flags: a 5-byte frame. */
  lemma ExampleFrameHeader()
    ensures var h := ParseHeaderFrame([0x54, 0x49, 0x54, 0x32, 0x00, 0x00, 0x00, 0x05, 0x00, 0x00]);
            h.id == [0x54, 0x49, 0x54, 0x32] && h.flags == [0, 0] && h.framesize == 5
  {
  }
}
