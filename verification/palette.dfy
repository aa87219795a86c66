/** The colour palette (`STADTFLD.COL`): one chunk with id "COL" holding 256
    four-byte groups red, green, blue, unused. Both readers of the original
    are modelled: the TileAtlasCreator's Java `PaletteFile` and the game's
    C++ `PaletteFile`. */
module Palettes {
  import opened Results
  import opened Bytes
  import opened Chunks
  import opened BinaryFiles

  const NUMBER_OF_COLORS: nat := 256
  const NUMBER_OF_CHUNKS: nat := 1
  /** "COL" */
  const CHUNK_ID: seq<byte> := [67, 79, 76]
  const BYTES_PER_COLOR: nat := 4

  /** A packed 32-bit ARGB colour. */
  type Color32 = bv32

  datatype PaletteError =
    | FileFailure(cause: FileError)
    | InvalidNumberOfChunks
    | InvalidChunkId
    | BufferUnderflow          // Java: `ByteBuffer.get` past the payload
    | ByteOutOfRange(index: nat)   // C++: `std::vector::at` past the payload
    | InvalidNumberOfColors(count: nat)

  /** `RgbTo32BitInt`: alpha 255 in the top byte, then red, green, blue. */
  function RgbTo32BitInt(red: bv8, green: bv8, blue: bv8): (c: Color32)
    ensures c >> 24 == 0xFF
    ensures ((c >> 16) & 0xFF) as bv8 == red
    ensures ((c >> 8) & 0xFF) as bv8 == green
    ensures (c & 0xFF) as bv8 == blue
  {
    (0xFF as bv32 << 24) | ((red as bv32) << 16) | ((green as bv32) << 8) | (blue as bv32)
  }

  /** The colour of the four-byte group starting at `at`; the fourth byte of
      the group is never looked at. */
  function ColorAt(data: seq<byte>, at: nat): Color32
    requires at + 3 <= |data|
  {
    RgbTo32BitInt(data[at] as bv8, data[at + 1] as bv8, data[at + 2] as bv8)
  }

  // ---------------------------------------------------------------------
  // Java reader (TileAtlasCreator)
  // ---------------------------------------------------------------------

  /** `readDataFromChunks`: 256 relative `get`s of red, green, blue and a
      skipped byte; fewer than 1024 payload bytes underflow the buffer. */
  function JavaReadDataFromChunks(payload: seq<byte>): (r: Result<seq<Color32>, PaletteError>)
    ensures r.Ok? <==> |payload| >= NUMBER_OF_COLORS * BYTES_PER_COLOR
    ensures r.Err? ==> r.error == BufferUnderflow
    ensures r.Ok? ==> |r.value| == NUMBER_OF_COLORS
    ensures r.Ok? ==> forall i :: 0 <= i < NUMBER_OF_COLORS ==>
              r.value[i] == RgbTo32BitInt(payload[4 * i] as bv8, payload[4 * i + 1] as bv8, payload[4 * i + 2] as bv8)
  {
    if |payload| < NUMBER_OF_COLORS * BYTES_PER_COLOR then Err(BufferUnderflow)
    else Ok(seq(NUMBER_OF_COLORS, i requires 0 <= i < NUMBER_OF_COLORS => ColorAt(payload, 4 * i)))
  }

  /** The Java constructor's checks: exactly one chunk, with id "COL". */
  function JavaPaletteFromFile(f: BinaryFile): (r: Result<seq<Color32>, PaletteError>)
    ensures |f.chunks| != NUMBER_OF_CHUNKS ==> r == Err(InvalidNumberOfChunks)
    ensures |f.chunks| == NUMBER_OF_CHUNKS && f.chunks[0].id != CHUNK_ID ==> r == Err(InvalidChunkId)
    ensures r.Ok? ==> |f.chunks| == 1 && f.chunks[0].id == CHUNK_ID
                      && r == JavaReadDataFromChunks(f.chunks[0].payload)
  {
    if GetNumberOfChunks(f) != NUMBER_OF_CHUNKS then Err(InvalidNumberOfChunks)
    else if ChunkIndexHasId(f, 0, CHUNK_ID) != Ok(true) then Err(InvalidChunkId)
    else JavaReadDataFromChunks(f.chunks[0].payload)
  }

  /** `new PaletteFile(path)`: open the binary file, then validate and decode. */
  function JavaPaletteFile(path: Option<string>, fs: map<string, seq<byte>>): (r: Result<seq<Color32>, PaletteError>)
    ensures path.None? ==> r == Err(FileFailure(NullPath))
    ensures Open(path, fs).Err? ==> r == Err(FileFailure(Open(path, fs).error))
    ensures r.Ok? <==> Open(path, fs).Ok? && JavaPaletteFromFile(Open(path, fs).value).Ok?
    ensures r.Ok? ==> r == JavaPaletteFromFile(Open(path, fs).value)
  {
    match Open(path, fs)
    case Err(e) => Err(FileFailure(e))
    case Ok(f) => JavaPaletteFromFile(f)
  }

  /** Decoding depends on the first 1024 payload bytes and nothing else. */
  lemma JavaPaletteDeterministic(p1: seq<byte>, p2: seq<byte>)
    requires |p1| >= 1024 && |p2| >= 1024
    requires p1[..1024] == p2[..1024]
    ensures JavaReadDataFromChunks(p1) == JavaReadDataFromChunks(p2)
  {
    var a := JavaReadDataFromChunks(p1).value;
    var b := JavaReadDataFromChunks(p2).value;
    forall i | 0 <= i < NUMBER_OF_COLORS
      ensures a[i] == b[i]
    {
      assert p1[4 * i] == p1[..1024][4 * i] == p2[4 * i];
      assert p1[4 * i + 1] == p1[..1024][4 * i + 1] == p2[4 * i + 1];
      assert p1[4 * i + 2] == p1[..1024][4 * i + 2] == p2[4 * i + 2];
    }
    assert a == b;
  }

  /** A palette file written as one "COL" chunk of 1024 bytes decodes to
      the colours of its groups, whatever the padding bytes hold. */
  lemma JavaPaletteOfEncodedFile(p: string, fs: map<string, seq<byte>>, payload: seq<byte>)
    requires |payload| == 1024
    requires p in fs && fs[p] == EncodeAll([Chunk(CHUNK_ID, payload)])
    ensures JavaPaletteFile(Some(p), fs).Ok?
    ensures forall i :: 0 <= i < NUMBER_OF_COLORS ==>
              JavaPaletteFile(Some(p), fs).value[i] == ColorAt(payload, 4 * i)
  {
    var c := Chunk(CHUNK_ID, payload);
    assert WellFormed(c);
    OpenEncodedFile(p, fs, [c]);
  }

  // ---------------------------------------------------------------------
  // C++ reader (game)
  // ---------------------------------------------------------------------

  /** The C++ constructor only checks the id of chunk 0 (`chunks.at(0)`
      throws when there is none); it does not count the chunks. */
  function CppCheckFile(f: BinaryFile): (r: Result<Chunk, PaletteError>)
    ensures r.Ok? <==> |f.chunks| > 0 && f.chunks[0].id == CHUNK_ID
    ensures r.Ok? ==> r.value == f.chunks[0]
  {
    if |f.chunks| == 0 then Err(FileFailure(IndexOutOfBounds(0)))
    else if f.chunks[0].id != CHUNK_ID then Err(InvalidChunkId)
    else Ok(f.chunks[0])
  }

  /** The loop `for (i = start; i < length; i += 4)`: every group pushes one
      colour read with `at(i)`, `at(i + 1)`, `at(i + 2)`. */
  function CppReadGroups(data: seq<byte>, start: nat): (r: Result<seq<Color32>, PaletteError>)
    requires start <= |data|
    ensures r.Ok? <==> (|data| - start) % 4 == 0 || (|data| - start) % 4 == 3
    ensures r.Ok? ==> |r.value| == (|data| - start + 3) / 4
    ensures r.Ok? ==> forall k :: 0 <= k < |r.value| ==>
              start + 4 * k + 3 <= |data| && r.value[k] == ColorAt(data, start + 4 * k)
    decreases |data| - start
  {
    if start >= |data| then Ok([])
    else if start + 2 >= |data| then Err(ByteOutOfRange(start + if start + 1 >= |data| then 1 else 2))
    else
      var rest :- CppReadGroups(data, Min(start + 4, |data|));
      Ok([ColorAt(data, start)] + rest)
  }

  /** `ReadDataFromChunks` followed by the assertion that 256 colours were read. */
  function CppReadDataFromChunks(c: Chunk): (r: Result<seq<Color32>, PaletteError>)
    ensures r.Ok? ==> |r.value| == NUMBER_OF_COLORS
  {
    var colors :- CppReadGroups(c.payload, 0);
    if |colors| != NUMBER_OF_COLORS then Err(InvalidNumberOfColors(|colors|)) else Ok(colors)
  }

  /** The C++ reader accepts exactly the payloads of 1023 and 1024 bytes: a
      shorter last group of three bytes still yields a colour. */
  lemma CppAcceptedLengths(c: Chunk)
    ensures CppReadDataFromChunks(c).Ok? <==> |c.payload| == 1023 || |c.payload| == 1024
  {
  }

  /** On a full 1024-byte payload both readers build the same palette. */
  lemma CppAgreesWithJava(c: Chunk)
    requires |c.payload| == 1024
    ensures CppReadDataFromChunks(c) == JavaReadDataFromChunks(c.payload)
  {
    var a := CppReadDataFromChunks(c).value;
    var b := JavaReadDataFromChunks(c.payload).value;
    forall i | 0 <= i < NUMBER_OF_COLORS
      ensures a[i] == b[i]
    {
      assert a[i] == ColorAt(c.payload, 4 * i);
    }
    assert a == b;
  }
}
