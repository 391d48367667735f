/**
 * The whole program: the command line is checked, the two headers are read
 * and validated, the pixels are loaded, transformed, and written after an
 * unchanged copy of the headers.
 */
module Filter {
  import opened CArith
  import opened Wrappers
  import opened LittleEndian
  import opened Streams
  import opened Headers
  import opened Validation
  import opened PixelGrid
  import opened Convolution
  import opened Sequences

  // ---------------------------------------------------------------- the command line

  /** Why the command line is refused. */
  datatype ArgumentError =
    | Usage           // not exactly three arguments
    | SameFile        // input and output name the same file
    | InvalidCommand  // the first argument names no mode

  datatype Arguments = Arguments(mode: Mode, input: string, output: string)

  function ModeName(m: Mode): string
  {
    match m
    case Trunc => "trunc"
    case Center => "center"
    case Mag => "mag"
    case Scale => "scale"
  }

  /** The mode a command names, if any. */
  function ModeNamed(name: string): Option<Mode>
  {
    if name == "trunc" then Some(Trunc)
    else if name == "center" then Some(Center)
    else if name == "mag" then Some(Mag)
    else if name == "scale" then Some(Scale)
    else None
  }

  /** A command names a mode exactly when it is that mode's name. */
  lemma ModeNamedIff(name: string, m: Mode)
    ensures ModeNamed(name) == Some(m) <==> name == ModeName(m)
  {
  }

  /** `argv`, the program name first: the checks in the order the program makes them. */
  function CheckArguments(args: seq<string>): Result<Arguments, ArgumentError>
  {
    if |args| != 4 then Failure(Usage)
    else if args[2] == args[3] then Failure(SameFile)
    else match ModeNamed(args[1])
      case None => Failure(InvalidCommand)
      case Some(m) => Success(Arguments(m, args[2], args[3]))
  }

  /** The command line is accepted exactly when it has three arguments, two different files and a mode name. */
  lemma CheckArgumentsIff(args: seq<string>)
    ensures CheckArguments(args).Success? <==>
      |args| == 4 && args[2] != args[3] && args[1] in {"trunc", "center", "mag", "scale"}
    ensures CheckArguments(args).Success? ==>
      var a := CheckArguments(args).value;
      ModeName(a.mode) == args[1] && a.input == args[2] && a.output == args[3]
  {
    if |args| == 4 && args[2] != args[3] {
      match ModeNamed(args[1])
      case None =>
      case Some(m) => ModeNamedIff(args[1], m);
    }
  }

  // ---------------------------------------------------------------- a run

  /** How a run ends: `Done` returns 0, every other outcome exits with status 1. */
  datatype Outcome =
    | Done
    | BadHeader(error: HeaderError) // the headers end early, or the magic value is not "BM"
    | Rejected(errorCode: nat) // a validation rule other than the ImageSize rule fails
    | ReadFailed(at: Shortfall)
    | WriteFailed(at: Shortfall)

  /** The outcome and what the output file holds at the end. */
  datatype Report = Report(outcome: Outcome, written: seq<Byte>)

  /** The number of times a loop `for (i = 0; i < n; i++)` runs. */
  function Extent(n: I32): (k: nat)
    ensures k == 0 <==> n <= 0
    ensures n > 0 ==> k == n
  {
    if n > 0 then n else 0
  }

  /** The grid the headers describe: Height rows of Width pixels. */
  function Rows(hs: Headers): nat { Extent(hs.info.Height) }
  function Cols(hs: Headers): nat { Extent(hs.info.Width) }

  /** Byte count of the pixel stream the headers describe. */
  function StreamSize(hs: Headers): (n: nat)
    ensures Cols(hs) == 0 ==> n == 0
  {
    GridSize(Rows(hs), Cols(hs))
  }

  /** The pixel stream `b` decoded, filtered in `mode` and encoded again. */
  function FilterStream(b: seq<Byte>, rows: nat, cols: nat, mode: Mode): (out: seq<Byte>)
    requires |b| == GridSize(rows, cols)
    ensures |out| == |b|
  {
    DecodeGridBytes(b, rows, cols);
    var filtered := Convolve(DecodeGrid(b, rows, cols), rows, cols, mode);
    GridBytesLength(filtered, rows, cols);
    GridBytes(filtered)
  }

  /**
   * A run on the file `input` with an output device of room `capacity`:
   * what the program ends with, and what it leaves in the output file.
   */
  function Expected(mode: Mode, input: seq<Byte>, capacity: nat): Report
  {
    match ParseHeaders(input)
    case Failure(error) => Report(BadHeader(error), [])
    case Success(hs) =>
      if !Proceed(Mask(hs)) then Report(Rejected(Mask(hs)), [])
      else
        ParseHeadersSound(input);
        AfterHeaders(hs, input[HeaderSize..], mode, capacity)
  }

  /** The rest of a run once `hs` has been read and accepted; `pixels` is what follows the headers. */
  function AfterHeaders(hs: Headers, pixels: seq<Byte>, mode: Mode, capacity: nat): Report
  {
    var size := StreamSize(hs);
    match TransferStop(|pixels|, size, Cols(hs))
    case Some(stop) => Report(ReadFailed(stop), [])
    case None => Store(PutHeaders([], hs, capacity), FilterStream(pixels[..size], Rows(hs), Cols(hs), mode), Cols(hs), capacity)
  }

  /**
   * The pixel writes: `head` is what the header writes left in the output
   * file, then as many whole pixels of `body`, rows of `cols` pixels, follow
   * as the device has room for.
   */
  function Store(head: seq<Byte>, body: seq<Byte>, cols: nat, capacity: nat): Report
    requires |head| <= capacity && (body == [] || cols > 0)
  {
    var room := capacity - |head|;
    match TransferStop(room, |body|, cols)
    case Some(stop) => Report(WriteFailed(stop), head + body[..Transferred(room, |body|)])
    case None => Report(Done, head + body)
  }

  /** The program's `main` after the command line: opens `input` and a fresh output file, then runs. */
  method Run(mode: Mode, input: seq<Byte>, capacity: nat) returns (outcome: Outcome, written: seq<Byte>)
    ensures Report(outcome, written) == Expected(mode, input, capacity)
  {
    var fin := new InputFile(input);
    var fout := new OutputFile(capacity);
    var headers := ReadHeaders(fin);
    if headers.Failure? {
      return BadHeader(headers.error), fout.bytes;
    }
    var hs := headers.value;
    var errorCode := ComputeErrorCode(hs);
    if errorCode != 0 && errorCode != 16 {
      return Rejected(errorCode), fout.bytes;
    }
    ParseHeadersSound(input);
    assert fin.Remaining() == input[HeaderSize..];
    outcome := Process(fin, fout, hs, mode);
    written := fout.bytes;
  }

  /** Allocation, loading, the transform and the writes, once the headers have been accepted. */
  method Process(fin: InputFile, fout: OutputFile, hs: Headers, mode: Mode) returns (outcome: Outcome)
    requires fin.Valid() && fout.Valid() && fout.bytes == []
    modifies fin, fout
    ensures Report(outcome, fout.bytes) == AfterHeaders(hs, old(fin.Remaining()), mode, fout.capacity)
  {
    ghost var pixels := fin.Remaining();
    var loaded, transformed := LoadAndTransform(fin, hs, mode);
    if loaded.Some? {
      return ReadFailed(loaded.value);
    }
    AfterHeadersWrites(hs, pixels, mode, fout.capacity);
    outcome := WriteImage(fout, hs, transformed);
  }

  /** The two grids of the image, the pixels read into one and filtered into the other. */
  method LoadAndTransform(fin: InputFile, hs: Headers, mode: Mode) returns (failure: Option<Shortfall>, transformed: array2<Pixel>)
    requires fin.Valid()
    modifies fin
    ensures fresh(transformed) && transformed.Length0 == Rows(hs) && transformed.Length1 == Cols(hs)
    ensures failure == TransferStop(|old(fin.Remaining())|, StreamSize(hs), Cols(hs))
    ensures failure.None? ==> StreamSize(hs) <= |old(fin.Remaining())|
    ensures failure.None? ==>
      GridBytes(Cells(transformed)) == FilterStream(old(fin.Remaining())[..StreamSize(hs)], Rows(hs), Cols(hs), mode)
  {
    ghost var pixels := fin.Remaining();
    var pixelRows, pixelCols := Extent(hs.info.Height), Extent(hs.info.Width);
    var pix := new Pixel[pixelRows, pixelCols];
    transformed := new Pixel[pixelRows, pixelCols];
    failure := LoadPixels(fin, pix);
    TransferStopMeaning(|pixels|, StreamSize(hs), Cols(hs));
    if failure.None? {
      Transform(pix, transformed, mode);
    }
  }

  /** The header writes, then the pixel writes of the filtered grid. */
  method WriteImage(fout: OutputFile, hs: Headers, transformed: array2<Pixel>) returns (outcome: Outcome)
    requires fout.Valid() && fout.bytes == [] && transformed.Length1 == Cols(hs)
    requires GridSize(transformed.Length0, transformed.Length1) == StreamSize(hs)
    modifies fout
    ensures |GridBytes(Cells(transformed))| == StreamSize(hs)
    ensures Report(outcome, fout.bytes) == Store(PutHeaders([], hs, fout.capacity), GridBytes(Cells(transformed)), Cols(hs), fout.capacity)
  {
    WriteHeaders(fout, hs);
    outcome := WritePixels(fout, transformed);
  }

  /** The pixel writes, row after row, after what the file already holds. */
  method WritePixels(fout: OutputFile, transformed: array2<Pixel>) returns (outcome: Outcome)
    requires fout.Valid()
    modifies fout
    ensures |GridBytes(Cells(transformed))| == GridSize(transformed.Length0, transformed.Length1)
    ensures |old(fout.bytes)| <= fout.capacity
    ensures Report(outcome, fout.bytes) == Store(old(fout.bytes), GridBytes(Cells(transformed)), transformed.Length1, fout.capacity)
  {
    var stored := StorePixels(fout, transformed);
    ghost var body := GridBytes(Cells(transformed));
    if stored.Some? {
      return WriteFailed(stored.value);
    }
    assert body[..|body|] == body;
    return Done;
  }

  // ---------------------------------------------------------------- properties of a run

  /** The filtered stream decodes to the filtered grid of the stream it came from. */
  lemma FilterStreamDecodes(b: seq<Byte>, rows: nat, cols: nat, mode: Mode)
    requires |b| == GridSize(rows, cols)
    ensures IsGrid(DecodeGrid(b, rows, cols), rows, cols)
    ensures DecodeGrid(FilterStream(b, rows, cols, mode), rows, cols) == Convolve(DecodeGrid(b, rows, cols), rows, cols, mode)
  {
    DecodeGridBytes(b, rows, cols);
    GridBytesDecode(Convolve(DecodeGrid(b, rows, cols), rows, cols, mode), rows, cols);
  }

  /** A stream of an image less than three pixels wide or high is not changed. */
  lemma SmallStreamUnchanged(b: seq<Byte>, rows: nat, cols: nat, mode: Mode)
    requires |b| == GridSize(rows, cols) && (rows < 3 || cols < 3)
    ensures FilterStream(b, rows, cols, mode) == b
  {
    DecodeGridBytes(b, rows, cols);
    SmallGridUnchanged(DecodeGrid(b, rows, cols), rows, cols, mode);
  }

  /** A run whose headers are read and accepted goes on with the bytes that follow them. */
  lemma Accepted(mode: Mode, input: seq<Byte>, capacity: nat)
    requires ParseHeaders(input).Success? && Proceed(Mask(ParseHeaders(input).value))
    ensures |input| >= HeaderSize && EncodeHeaders(ParseHeaders(input).value) == input[..HeaderSize]
    ensures Expected(mode, input, capacity) == AfterHeaders(ParseHeaders(input).value, input[HeaderSize..], mode, capacity)
  {
    ParseHeadersSound(input);
  }

  /**
   * Runs that end before the headers are written leave the output file empty;
   * the pixels are read only once the headers are read and accepted.
   */
  lemma EarlyExitsWriteNothing(mode: Mode, input: seq<Byte>, capacity: nat)
    ensures var r := Expected(mode, input, capacity);
      !r.outcome.Done? && !r.outcome.WriteFailed? ==> r.written == []
    ensures var r := Expected(mode, input, capacity);
      r.outcome.Done? || r.outcome.ReadFailed? || r.outcome.WriteFailed? ==>
        ParseHeaders(input).Success? && Proceed(Mask(ParseHeaders(input).value))
  {
  }

  /** A magic value other than "BM" ends the run on the first two bytes, whatever follows them. */
  lemma NotBitmapDecidedByMagic(mode: Mode, magic: seq<Byte>, rest: seq<Byte>, capacity: nat)
    requires |magic| == 2 && DecodeU16(magic) != Magic
    ensures Expected(mode, magic + rest, capacity) == Report(BadHeader(BadMagic), [])
  {
    BadMagicIgnoresRest(magic, rest);
  }

  /** A five-byte file opening with "AB" is not a bitmap: its magic value is read in full and checked. */
  lemma ShortFileWithWrongMagic(mode: Mode, capacity: nat)
    ensures Expected(mode, [0x41, 0x42, 0, 0, 0], capacity) == Report(BadHeader(BadMagic), [])
  {
    var magic: seq<Byte>, rest: seq<Byte> := [0x41, 0x42], [0, 0, 0];
    assert DecodeU16(magic) == 0x4241;
    NotBitmapDecidedByMagic(mode, magic, rest, capacity);
    assert magic + rest == [0x41, 0x42, 0, 0, 0];
  }

  /** A run is rejected exactly when the headers parse and a rule other than the ImageSize rule fails. */
  lemma RejectedIff(mode: Mode, input: seq<Byte>, capacity: nat)
    ensures Expected(mode, input, capacity).outcome.Rejected? <==>
      ParseHeaders(input).Success? && !Proceed(Mask(ParseHeaders(input).value))
    ensures Expected(mode, input, capacity).outcome.Rejected? ==>
      Expected(mode, input, capacity).outcome.errorCode == Mask(ParseHeaders(input).value)
  {
    if ParseHeaders(input).Success? && Proceed(Mask(ParseHeaders(input).value)) {
      AfterHeadersOutcomes(ParseHeaders(input).value, input[HeaderSize..], mode, capacity);
    }
  }

  /** After the headers a run ends in one of three ways, and reading fails exactly when the pixels run short. */
  lemma AfterHeadersOutcomes(hs: Headers, pixels: seq<Byte>, mode: Mode, capacity: nat)
    ensures var r := AfterHeaders(hs, pixels, mode, capacity);
      r.outcome.Done? || r.outcome.ReadFailed? || r.outcome.WriteFailed?
    ensures AfterHeaders(hs, pixels, mode, capacity).outcome.ReadFailed? <==> |pixels| < StreamSize(hs)
  {
    TransferStopMeaning(|pixels|, StreamSize(hs), Cols(hs));
  }

  /** Loading fails exactly when fewer pixel bytes follow the headers than the grid needs. */
  lemma ReadFailedIff(mode: Mode, input: seq<Byte>, capacity: nat)
    requires ParseHeaders(input).Success? && Proceed(Mask(ParseHeaders(input).value))
    ensures Expected(mode, input, capacity).outcome.ReadFailed? <==>
      |input| < HeaderSize + StreamSize(ParseHeaders(input).value)
  {
    ParseHeadersSound(input);
    AfterHeadersOutcomes(ParseHeaders(input).value, input[HeaderSize..], mode, capacity);
  }

  /**
   * The pixel writes complete exactly when the device has room for them after
   * the headers; otherwise they stop after the last whole pixel that fits.
   */
  lemma StoreWrites(head: seq<Byte>, body: seq<Byte>, cols: nat, capacity: nat)
    requires |head| <= capacity && (body == [] || cols > 0)
    ensures Store(head, body, cols, capacity).outcome.Done? || Store(head, body, cols, capacity).outcome.WriteFailed?
    ensures Store(head, body, cols, capacity).outcome.Done? <==> |head| + |body| <= capacity
    ensures Store(head, body, cols, capacity).outcome.Done? ==> Store(head, body, cols, capacity).written == head + body
    ensures Store(head, body, cols, capacity).outcome.WriteFailed? ==>
      var stop, w := Store(head, body, cols, capacity).outcome.at, Store(head, body, cols, capacity).written;
      && w == head + body[..3 * stop.count]
      && capacity - 3 < |w| <= capacity
      && stop.row == stop.count / cols && stop.col == stop.count % cols
  {
    TransferStopMeaning(capacity - |head|, |body|, cols);
  }

  /** Once the pixels are loaded, the filtered stream goes to the writes. */
  lemma AfterHeadersWrites(hs: Headers, pixels: seq<Byte>, mode: Mode, capacity: nat)
    requires StreamSize(hs) <= |pixels|
    ensures AfterHeaders(hs, pixels, mode, capacity) ==
      Store(PutHeaders([], hs, capacity), FilterStream(pixels[..StreamSize(hs)], Rows(hs), Cols(hs), mode), Cols(hs), capacity)
  {
    TransferStopMeaning(|pixels|, StreamSize(hs), Cols(hs));
  }

  /** An empty image is reported as written whatever the device holds of its headers. */
  lemma HeaderWritesUnchecked(hs: Headers, capacity: nat)
    requires Cols(hs) == 0 && capacity < HeaderSize
    ensures Store(PutHeaders([], hs, capacity), [], Cols(hs), capacity) == Report(Done, PutHeaders([], hs, capacity))
    ensures |Store(PutHeaders([], hs, capacity), [], Cols(hs), capacity).written| < HeaderSize
  {
    StoreWrites(PutHeaders([], hs, capacity), [], Cols(hs), capacity);
  }

  /** After the headers, a completed write on a device with room for them holds the headers and the filtered stream. */
  lemma AfterHeadersDone(hs: Headers, pixels: seq<Byte>, mode: Mode, capacity: nat)
    requires AfterHeaders(hs, pixels, mode, capacity).outcome.Done? && HeaderSize <= capacity
    ensures StreamSize(hs) <= |pixels| && HeaderSize + StreamSize(hs) <= capacity
    ensures AfterHeaders(hs, pixels, mode, capacity).written ==
      EncodeHeaders(hs) + FilterStream(pixels[..StreamSize(hs)], Rows(hs), Cols(hs), mode)
  {
    AfterHeadersOutcomes(hs, pixels, mode, capacity);
    AfterHeadersWrites(hs, pixels, mode, capacity);
    var head, body := PutHeaders([], hs, capacity), FilterStream(pixels[..StreamSize(hs)], Rows(hs), Cols(hs), mode);
    StoreWrites(head, body, Cols(hs), capacity);
    assert Store(head, body, Cols(hs), capacity).written == head + body;
    PutHeadersFit([], hs, capacity);
    assert head == EncodeHeaders(hs);
  }

  /**
   * A completed run writes the input's own 54 header bytes, then the filtered
   * pixel bytes that follow them, and nothing else.
   */
  lemma DoneWritesHeadersAndFilteredPixels(mode: Mode, input: seq<Byte>, capacity: nat)
    requires Expected(mode, input, capacity).outcome.Done? && HeaderSize <= capacity
    ensures ParseHeaders(input).Success?
    ensures HeaderSize + StreamSize(ParseHeaders(input).value) <= |input|
    ensures HeaderSize + StreamSize(ParseHeaders(input).value) <= capacity
    ensures Expected(mode, input, capacity).written ==
      input[..HeaderSize] + FilterStream(input[HeaderSize..][..StreamSize(ParseHeaders(input).value)],
                                         Rows(ParseHeaders(input).value), Cols(ParseHeaders(input).value), mode)
  {
    EarlyExitsWriteNothing(mode, input, capacity);
    Accepted(mode, input, capacity);
    AfterHeadersDone(ParseHeaders(input).value, input[HeaderSize..], mode, capacity);
  }

  /** An image less than three pixels wide or high comes out byte for byte as it went in. */
  lemma SmallImageCopied(mode: Mode, input: seq<Byte>, capacity: nat)
    requires Expected(mode, input, capacity).outcome.Done? && HeaderSize <= capacity
    requires ParseHeaders(input).Success?
    requires var hs := ParseHeaders(input).value; Rows(hs) < 3 || Cols(hs) < 3
    ensures Expected(mode, input, capacity).written == input[..HeaderSize + StreamSize(ParseHeaders(input).value)]
  {
    var hs := ParseHeaders(input).value;
    DoneWritesHeadersAndFilteredPixels(mode, input, capacity);
    HeadersAndSmallStream(input, Rows(hs), Cols(hs), mode, Expected(mode, input, capacity).written);
  }

  /** The headers followed by the unchanged stream of a small image are the file's own first bytes. */
  lemma HeadersAndSmallStream(input: seq<Byte>, rows: nat, cols: nat, mode: Mode, w: seq<Byte>)
    requires HeaderSize + GridSize(rows, cols) <= |input| && (rows < 3 || cols < 3)
    requires w == input[..HeaderSize] + FilterStream(input[HeaderSize..][..GridSize(rows, cols)], rows, cols, mode)
    ensures w == input[..HeaderSize + GridSize(rows, cols)]
  {
    var size := GridSize(rows, cols);
    SmallStreamUnchanged(input[HeaderSize..][..size], rows, cols, mode);
    PrefixThenSuffixPrefix(input, HeaderSize, size);
  }


  /** Writing fails only on a device with less room than the headers and the pixels need, and always does on one with room for the headers alone. */
  lemma WriteFailedIff(mode: Mode, input: seq<Byte>, capacity: nat)
    requires ParseHeaders(input).Success? && Proceed(Mask(ParseHeaders(input).value))
    requires HeaderSize + StreamSize(ParseHeaders(input).value) <= |input|
    ensures Expected(mode, input, capacity).outcome.WriteFailed? ==>
      capacity < HeaderSize + StreamSize(ParseHeaders(input).value)
    ensures HeaderSize <= capacity ==>
      (Expected(mode, input, capacity).outcome.WriteFailed? <==> capacity < HeaderSize + StreamSize(ParseHeaders(input).value))
    ensures |Expected(mode, input, capacity).written| <= capacity
  {
    var hs := ParseHeaders(input).value;
    var pixels := input[HeaderSize..];
    Accepted(mode, input, capacity);
    AfterHeadersWrites(hs, pixels, mode, capacity);
    StoreWrites(PutHeaders([], hs, capacity), FilterStream(pixels[..StreamSize(hs)], Rows(hs), Cols(hs), mode), Cols(hs), capacity);
    if HeaderSize <= capacity {
      PutHeadersFit([], hs, capacity);
    }
  }
}
