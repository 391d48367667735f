/**
 * The header codec: the 14-byte file header and the 40-byte info header that
 * open a bitmap, read and written field by field in their on-disk order and
 * widths (never as one block, since the C structs carry alignment padding).
 */
module Headers {
  import opened CArith
  import opened Wrappers
  import opened LittleEndian
  import opened Streams
  import opened Sequences

  /** "BM" read as a little-endian 16-bit value. */
  const Magic: U16 := 0x4D42
  const FileHeaderSize: nat := 14
  const InfoHeaderSize: nat := 40
  const HeaderSize: nat := 54

  /** `struct Header`. */
  datatype FileHeader = FileHeader(
    Type: U16,
    Size: U32,
    Reserved1: U16,
    Reserved2: U16,
    Offset: U32)

  /** `struct InfoHeader`. */
  datatype InfoHeader = InfoHeader(
    Size: U32,
    Width: I32,
    Height: I32,
    Planes: U16,
    Bits: U16,
    Compression: U32,
    ImageSize: U32,
    XResolution: I32,
    YResolution: I32,
    Colors: U32,
    ImportantColors: U32)

  datatype Headers = Headers(file: FileHeader, info: InfoHeader)

  /** Why the headers could not be read. */
  datatype HeaderError =
    | ShortHeader  // the file ends inside a header
    | BadMagic     // the first field is not "BM"

  // ---------------------------------------------------------------- encoding

  function EncodeFileHeader(h: FileHeader): (b: seq<Byte>)
    ensures |b| == FileHeaderSize
  {
    EncodeU16(h.Type) + EncodeU32(h.Size) + EncodeU16(h.Reserved1) + EncodeU16(h.Reserved2) + EncodeU32(h.Offset)
  }

  function EncodeInfoHeader(h: InfoHeader): (b: seq<Byte>)
    ensures |b| == InfoHeaderSize
  {
    EncodeU32(h.Size) + EncodeI32(h.Width) + EncodeI32(h.Height) + EncodeU16(h.Planes) + EncodeU16(h.Bits)
    + EncodeU32(h.Compression) + EncodeU32(h.ImageSize) + EncodeI32(h.XResolution) + EncodeI32(h.YResolution)
    + EncodeU32(h.Colors) + EncodeU32(h.ImportantColors)
  }

  /** The 54 bytes that open the file: file header, then info header. */
  function EncodeHeaders(hs: Headers): (b: seq<Byte>)
    ensures |b| == HeaderSize
  {
    EncodeFileHeader(hs.file) + EncodeInfoHeader(hs.info)
  }

  // ---------------------------------------------------------------- decoding

  /** The file header, from the first 14 bytes of a file. */
  function DecodeFileHeader(s: seq<Byte>): FileHeader
    requires |s| >= FileHeaderSize
  {
    FileHeader(DecodeU16(s[0..2]), DecodeU32(s[2..6]), DecodeU16(s[6..8]), DecodeU16(s[8..10]), DecodeU32(s[10..14]))
  }

  /** The info header, from bytes 14 to 54 of a file. */
  function DecodeInfoHeader(s: seq<Byte>): InfoHeader
    requires |s| >= HeaderSize
  {
    InfoHeader(DecodeU32(s[14..18]), DecodeI32(s[18..22]), DecodeI32(s[22..26]), DecodeU16(s[26..28]),
               DecodeU16(s[28..30]), DecodeU32(s[30..34]), DecodeU32(s[34..38]), DecodeI32(s[38..42]),
               DecodeI32(s[42..46]), DecodeU32(s[46..50]), DecodeU32(s[50..54]))
  }

  /**
   * Reading both headers from a file. The magic value is known once its two
   * bytes are in, and a wrong one ends the run whatever the other file-header
   * fields hold; a right one needs all 54 bytes before the headers count as read.
   */
  function ParseHeaders(s: seq<Byte>): Result<Headers, HeaderError>
  {
    if |s| < 2 then Failure(ShortHeader)
    else if DecodeU16(s[..2]) != Magic then Failure(BadMagic)
    else if |s| < HeaderSize then Failure(ShortHeader)
    else Success(Headers(DecodeFileHeader(s), DecodeInfoHeader(s)))
  }

  // ---------------------------------------------------------------- round trips

  lemma DecodeEncodeFileHeader(h: FileHeader, rest: seq<Byte>)
    ensures DecodeFileHeader(EncodeFileHeader(h) + rest) == h
  {
    var s := EncodeFileHeader(h) + rest;
    DecodeEncodeU16(h.Type);
    DecodeEncodeU32(h.Size);
    DecodeEncodeU16(h.Reserved1);
    DecodeEncodeU16(h.Reserved2);
    DecodeEncodeU32(h.Offset);
    assert s[0..2] == EncodeU16(h.Type);
    assert s[2..6] == EncodeU32(h.Size);
    assert s[6..8] == EncodeU16(h.Reserved1);
    assert s[8..10] == EncodeU16(h.Reserved2);
    assert s[10..14] == EncodeU32(h.Offset);
  }

  lemma DecodeEncodeInfoHeader(hs: Headers, rest: seq<Byte>)
    ensures DecodeInfoHeader(EncodeHeaders(hs) + rest) == hs.info
  {
    var h := hs.info;
    var s := EncodeHeaders(hs) + rest;
    var b := EncodeInfoHeader(h);
    DecodeEncodeU32(h.Size);
    DecodeEncodeI32(h.Width);
    DecodeEncodeI32(h.Height);
    DecodeEncodeU16(h.Planes);
    DecodeEncodeU16(h.Bits);
    DecodeEncodeU32(h.Compression);
    DecodeEncodeU32(h.ImageSize);
    DecodeEncodeI32(h.XResolution);
    DecodeEncodeI32(h.YResolution);
    DecodeEncodeU32(h.Colors);
    DecodeEncodeU32(h.ImportantColors);
    assert s[14..54] == b;
    InfoHeaderFields(h);
    assert s[14..18] == b[0..4];
    assert s[18..22] == b[4..8];
    assert s[22..26] == b[8..12];
    assert s[26..28] == b[12..14];
    assert s[28..30] == b[14..16];
    assert s[30..34] == b[16..20];
    assert s[34..38] == b[20..24];
    assert s[38..42] == b[24..28];
    assert s[42..46] == b[28..32];
    assert s[46..50] == b[32..36];
    assert s[50..54] == b[36..40];
  }

  /** Where each field sits in an encoded info header. */
  lemma InfoHeaderFields(h: InfoHeader)
    ensures EncodeInfoHeader(h)[0..4] == EncodeU32(h.Size) && EncodeInfoHeader(h)[4..8] == EncodeI32(h.Width)
    ensures EncodeInfoHeader(h)[8..12] == EncodeI32(h.Height) && EncodeInfoHeader(h)[12..14] == EncodeU16(h.Planes)
    ensures EncodeInfoHeader(h)[14..16] == EncodeU16(h.Bits) && EncodeInfoHeader(h)[16..20] == EncodeU32(h.Compression)
    ensures EncodeInfoHeader(h)[20..24] == EncodeU32(h.ImageSize) && EncodeInfoHeader(h)[24..28] == EncodeI32(h.XResolution)
    ensures EncodeInfoHeader(h)[28..32] == EncodeI32(h.YResolution) && EncodeInfoHeader(h)[32..36] == EncodeU32(h.Colors)
    ensures EncodeInfoHeader(h)[36..40] == EncodeU32(h.ImportantColors)
  {
  }

  /** Headers written out and read back are the same headers. */
  lemma ParseEncodeHeaders(hs: Headers, rest: seq<Byte>)
    requires hs.file.Type == Magic
    ensures ParseHeaders(EncodeHeaders(hs) + rest) == Success(hs)
  {
    var s := EncodeHeaders(hs) + rest;
    assert s == EncodeFileHeader(hs.file) + (EncodeInfoHeader(hs.info) + rest);
    DecodeEncodeFileHeader(hs.file, EncodeInfoHeader(hs.info) + rest);
    DecodeEncodeInfoHeader(hs, rest);
  }

  lemma EncodeDecodeFileHeader(s: seq<Byte>)
    requires |s| >= FileHeaderSize
    ensures EncodeFileHeader(DecodeFileHeader(s)) == s[..FileHeaderSize]
  {
    EncodeDecodeU16(s[0..2]);
    EncodeDecodeU32(s[2..6]);
    EncodeDecodeU16(s[6..8]);
    EncodeDecodeU16(s[8..10]);
    EncodeDecodeU32(s[10..14]);
    assert s[..14] == s[0..2] + s[2..6] + s[6..8] + s[8..10] + s[10..14];
  }

  lemma EncodeDecodeInfoHeader(s: seq<Byte>)
    requires |s| >= HeaderSize
    ensures EncodeInfoHeader(DecodeInfoHeader(s)) == s[FileHeaderSize..HeaderSize]
  {
    EncodeDecodeU32(s[14..18]);
    EncodeDecodeI32(s[18..22]);
    EncodeDecodeI32(s[22..26]);
    EncodeDecodeU16(s[26..28]);
    EncodeDecodeU16(s[28..30]);
    EncodeDecodeU32(s[30..34]);
    EncodeDecodeU32(s[34..38]);
    EncodeDecodeI32(s[38..42]);
    EncodeDecodeI32(s[42..46]);
    EncodeDecodeU32(s[46..50]);
    EncodeDecodeU32(s[50..54]);
    assert s[14..54] == s[14..18] + s[18..22] + s[22..26] + s[26..28] + s[28..30] + s[30..34] + s[34..38]
                      + s[38..42] + s[42..46] + s[46..50] + s[50..54];
  }

  /**
   * A file's headers parse exactly when it holds 54 bytes opening with "BM",
   * and then encoding the parsed headers gives back those 54 bytes.
   */
  lemma ParseHeadersSound(s: seq<Byte>)
    ensures ParseHeaders(s).Success? <==> |s| >= HeaderSize && DecodeU16(s[..2]) == Magic
    ensures ParseHeaders(s) == Failure(BadMagic) <==> |s| >= 2 && DecodeU16(s[..2]) != Magic
    ensures ParseHeaders(s).Success? ==> EncodeHeaders(ParseHeaders(s).value) == s[..HeaderSize]
  {
    if |s| >= HeaderSize && DecodeU16(s[..2]) == Magic {
      assert s[0..2] == s[..2];
      EncodeDecodeFileHeader(s);
      EncodeDecodeInfoHeader(s);
      assert s[..HeaderSize] == s[..FileHeaderSize] + s[FileHeaderSize..HeaderSize];
    }
  }

  /**
   * A wrong magic value is decided by the first two bytes alone: whatever
   * follows them, even nothing, the rest of the headers is never looked at.
   */
  lemma BadMagicIgnoresRest(s: seq<Byte>, rest: seq<Byte>)
    requires |s| == 2 && DecodeU16(s) != Magic
    ensures ParseHeaders(s + rest) == Failure(BadMagic)
  {
    assert (s + rest)[..2] == s;
  }

  // ---------------------------------------------------------------- reading

  /**
   * `fread` of the five file-header fields, from the start of the file: the
   * magic value on its own as soon as its two bytes are there, and the whole
   * header when all 14 are.
   */
  method ReadFileHeader(f: InputFile) returns (typ: Option<U16>, h: Option<FileHeader>)
    requires f.Valid() && f.pos == 0
    modifies f
    ensures f.Valid()
    ensures |f.data| >= 2 ==> typ == Some(DecodeU16(f.data[..2]))
    ensures |f.data| < 2 ==> typ == None
    ensures |f.data| >= FileHeaderSize ==> h == Some(DecodeFileHeader(f.data)) && f.pos == FileHeaderSize
    ensures |f.data| < FileHeaderSize ==> h == None && f.pos == |f.data|
  {
    typ := f.ReadU16();
    var size := f.ReadU32();
    var reserved1 := f.ReadU16();
    var reserved2 := f.ReadU16();
    var offset := f.ReadU32();
    if typ.None? || size.None? || reserved1.None? || reserved2.None? || offset.None? {
      return typ, None;
    }
    h := Some(FileHeader(typ.value, size.value, reserved1.value, reserved2.value, offset.value));
  }

  /** `fread` of the eleven info-header fields, right after the file header. */
  method ReadInfoHeader(f: InputFile) returns (h: Option<InfoHeader>)
    requires f.Valid() && f.pos == FileHeaderSize
    modifies f
    ensures f.Valid()
    ensures |f.data| >= HeaderSize ==> h == Some(DecodeInfoHeader(f.data)) && f.pos == HeaderSize
    ensures |f.data| < HeaderSize ==> h == None && f.pos == |f.data|
  {
    var size, width, height, planes, bits := ReadInfoFront(f);
    var compression, imageSize, xResolution, yResolution, colors, importantColors := ReadInfoBack(f);
    if size.None? || width.None? || height.None? || planes.None? || bits.None? || compression.None?
       || imageSize.None? || xResolution.None? || yResolution.None? || colors.None? || importantColors.None? {
      return None;
    }
    h := Some(InfoHeader(size.value, width.value, height.value, planes.value, bits.value, compression.value,
                         imageSize.value, xResolution.value, yResolution.value, colors.value, importantColors.value));
  }

  /** The first five fields of the info header, bytes 14 to 30. */
  method ReadInfoFront(f: InputFile)
    returns (size: Option<U32>, width: Option<I32>, height: Option<I32>, planes: Option<U16>, bits: Option<U16>)
    requires f.Valid() && f.pos == FileHeaderSize
    modifies f
    ensures f.Valid()
    ensures |f.data| >= 30 ==>
              && f.pos == 30
              && size == Some(DecodeU32(f.data[14..18])) && width == Some(DecodeI32(f.data[18..22]))
              && height == Some(DecodeI32(f.data[22..26])) && planes == Some(DecodeU16(f.data[26..28]))
              && bits == Some(DecodeU16(f.data[28..30]))
    ensures |f.data| < 30 ==>
              && f.pos == |f.data|
              && (size.None? || width.None? || height.None? || planes.None? || bits.None?)
  {
    size := f.ReadU32();
    width := f.ReadI32();
    height := f.ReadI32();
    planes := f.ReadU16();
    bits := f.ReadU16();
  }

  /** The last six fields of the info header, bytes 30 to 54, read after `ReadInfoFront`. */
  method ReadInfoBack(f: InputFile)
    returns (compression: Option<U32>, imageSize: Option<U32>, xResolution: Option<I32>, yResolution: Option<I32>,
             colors: Option<U32>, importantColors: Option<U32>)
    requires f.Valid() && (f.pos == 30 || (f.pos == |f.data| && |f.data| < 30))
    modifies f
    ensures f.Valid()
    ensures |f.data| >= HeaderSize ==>
              && f.pos == HeaderSize
              && compression == Some(DecodeU32(f.data[30..34])) && imageSize == Some(DecodeU32(f.data[34..38]))
              && xResolution == Some(DecodeI32(f.data[38..42])) && yResolution == Some(DecodeI32(f.data[42..46]))
              && colors == Some(DecodeU32(f.data[46..50])) && importantColors == Some(DecodeU32(f.data[50..54]))
    ensures |f.data| < HeaderSize ==>
              && f.pos == |f.data|
              && (compression.None? || imageSize.None? || xResolution.None? || yResolution.None? || colors.None?
                  || importantColors.None?)
  {
    compression := f.ReadU32();
    imageSize := f.ReadU32();
    xResolution := f.ReadI32();
    yResolution := f.ReadI32();
    colors := f.ReadU32();
    importantColors := f.ReadU32();
  }

  /** How far the header read gets into a file of `n` bytes. */
  function Consumed(r: Result<Headers, HeaderError>, n: nat): nat
  {
    match r
    case Success(_) => HeaderSize
    case Failure(BadMagic) => if n < FileHeaderSize then n else FileHeaderSize
    case Failure(ShortHeader) => n
  }

  /** The file header, the magic check, then the info header. */
  method ReadHeaders(f: InputFile) returns (r: Result<Headers, HeaderError>)
    requires f.Valid() && f.pos == 0
    modifies f
    ensures f.Valid()
    ensures r == ParseHeaders(f.data)
    ensures f.pos == Consumed(r, |f.data|)
  {
    var typ, header := ReadFileHeader(f);
    if typ.None? {
      return Failure(ShortHeader);
    }
    if typ.value != Magic {
      return Failure(BadMagic);
    }
    if header.None? {
      return Failure(ShortHeader);
    }
    var info := ReadInfoHeader(f);
    if info.None? {
      return Failure(ShortHeader);
    }
    r := Success(Headers(header.value, info.value));
  }

  // ---------------------------------------------------------------- writing

  /** What the five unchecked `fwrite` calls of the file header leave in a file holding `out`. */
  function PutFileHeader(out: seq<Byte>, h: FileHeader, capacity: nat): seq<Byte>
  {
    var o1 := Put(out, EncodeU16(h.Type), capacity);
    var o2 := Put(o1, EncodeU32(h.Size), capacity);
    var o3 := Put(o2, EncodeU16(h.Reserved1), capacity);
    var o4 := Put(o3, EncodeU16(h.Reserved2), capacity);
    Put(o4, EncodeU32(h.Offset), capacity)
  }

  /** What the eleven unchecked `fwrite` calls of the info header leave in a file holding `out`. */
  function PutInfoHeader(out: seq<Byte>, h: InfoHeader, capacity: nat): seq<Byte>
  {
    var o1 := Put(out, EncodeU32(h.Size), capacity);
    var o2 := Put(o1, EncodeI32(h.Width), capacity);
    var o3 := Put(o2, EncodeI32(h.Height), capacity);
    var o4 := Put(o3, EncodeU16(h.Planes), capacity);
    var o5 := Put(o4, EncodeU16(h.Bits), capacity);
    var o6 := Put(o5, EncodeU32(h.Compression), capacity);
    var o7 := Put(o6, EncodeU32(h.ImageSize), capacity);
    var o8 := Put(o7, EncodeI32(h.XResolution), capacity);
    var o9 := Put(o8, EncodeI32(h.YResolution), capacity);
    var o10 := Put(o9, EncodeU32(h.Colors), capacity);
    Put(o10, EncodeU32(h.ImportantColors), capacity)
  }

  function PutHeaders(out: seq<Byte>, hs: Headers, capacity: nat): (r: seq<Byte>)
    ensures |r| <= |out| + HeaderSize
    ensures |out| <= capacity ==> |r| <= capacity
  {
    PutInfoHeader(PutFileHeader(out, hs.file, capacity), hs.info, capacity)
  }

  lemma PutFileHeaderFits(out: seq<Byte>, h: FileHeader, capacity: nat)
    requires |out| + FileHeaderSize <= capacity
    ensures PutFileHeader(out, h, capacity) == out + EncodeFileHeader(h)
  {
  }

  lemma PutInfoHeaderFits(out: seq<Byte>, h: InfoHeader, capacity: nat)
    requires |out| + InfoHeaderSize <= capacity
    ensures PutInfoHeader(out, h, capacity) == out + EncodeInfoHeader(h)
  {
    var e1, e2, e3, e4 := EncodeU32(h.Size), EncodeI32(h.Width), EncodeI32(h.Height), EncodeU16(h.Planes);
    var e5, e6, e7, e8 := EncodeU16(h.Bits), EncodeU32(h.Compression), EncodeU32(h.ImageSize), EncodeI32(h.XResolution);
    var e9, e10, e11 := EncodeI32(h.YResolution), EncodeU32(h.Colors), EncodeU32(h.ImportantColors);
    var o1 := Put(out, e1, capacity);
    var o2 := Put(o1, e2, capacity);
    var o3 := Put(o2, e3, capacity);
    var o4 := Put(o3, e4, capacity);
    var o5 := Put(o4, e5, capacity);
    var o6 := Put(o5, e6, capacity);
    var o7 := Put(o6, e7, capacity);
    var o8 := Put(o7, e8, capacity);
    var o9 := Put(o8, e9, capacity);
    var o10 := Put(o9, e10, capacity);
    var o11 := Put(o10, e11, capacity);
    assert o11 == PutInfoHeader(out, h, capacity);
    assert o11 == out + e1 + e2 + e3 + e4 + e5 + e6 + e7 + e8 + e9 + e10 + e11;
    AppendEleven(out, e1, e2, e3, e4, e5, e6, e7, e8, e9, e10, e11);
  }

  lemma AppendEleven(out: seq<Byte>, e1: seq<Byte>, e2: seq<Byte>, e3: seq<Byte>, e4: seq<Byte>, e5: seq<Byte>,
                     e6: seq<Byte>, e7: seq<Byte>, e8: seq<Byte>, e9: seq<Byte>, e10: seq<Byte>, e11: seq<Byte>)
    ensures out + e1 + e2 + e3 + e4 + e5 + e6 + e7 + e8 + e9 + e10 + e11
         == out + (e1 + e2 + e3 + e4 + e5 + e6 + e7 + e8 + e9 + e10 + e11)
  {
  }

  /** On a device with room for 54 more bytes the unchecked header writes append exactly the encoded headers. */
  lemma PutHeadersFit(out: seq<Byte>, hs: Headers, capacity: nat)
    requires |out| + HeaderSize <= capacity
    ensures PutHeaders(out, hs, capacity) == out + EncodeHeaders(hs)
  {
    var mid := PutFileHeader(out, hs.file, capacity);
    PutFileHeaderFits(out, hs.file, capacity);
    PutInfoHeaderFits(mid, hs.info, capacity);
    AppendAssoc(out, EncodeFileHeader(hs.file), EncodeInfoHeader(hs.info));
  }

  method WriteFileHeader(out: OutputFile, h: FileHeader)
    requires out.Valid()
    modifies out
    ensures out.Valid()
    ensures out.bytes == PutFileHeader(old(out.bytes), h, out.capacity)
  {
    var ok := out.Write(EncodeU16(h.Type));
    ok := out.Write(EncodeU32(h.Size));
    ok := out.Write(EncodeU16(h.Reserved1));
    ok := out.Write(EncodeU16(h.Reserved2));
    ok := out.Write(EncodeU32(h.Offset));
  }

  method WriteInfoHeader(out: OutputFile, h: InfoHeader)
    requires out.Valid()
    modifies out
    ensures out.Valid()
    ensures out.bytes == PutInfoHeader(old(out.bytes), h, out.capacity)
  {
    var ok := out.Write(EncodeU32(h.Size));
    ok := out.Write(EncodeI32(h.Width));
    ok := out.Write(EncodeI32(h.Height));
    ok := out.Write(EncodeU16(h.Planes));
    ok := out.Write(EncodeU16(h.Bits));
    ok := out.Write(EncodeU32(h.Compression));
    ok := out.Write(EncodeU32(h.ImageSize));
    ok := out.Write(EncodeI32(h.XResolution));
    ok := out.Write(EncodeI32(h.YResolution));
    ok := out.Write(EncodeU32(h.Colors));
    ok := out.Write(EncodeU32(h.ImportantColors));
  }

  /** Both headers, written back unchanged and unchecked. */
  method WriteHeaders(out: OutputFile, hs: Headers)
    requires out.Valid()
    modifies out
    ensures out.Valid()
    ensures out.bytes == PutHeaders(old(out.bytes), hs, out.capacity)
  {
    WriteFileHeader(out, hs.file);
    WriteInfoHeader(out, hs.info);
  }
}
