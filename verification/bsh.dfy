/** The game's C++ reader of run-length encoded BSH sprite files (`BshFile`):
    a table of 32-bit offsets at the start of the first chunk, and at every
    offset a 16-byte header (width, height, type, length) followed by the
    runs. A run is an alpha count of transparent pixels, then a pixel count
    and that many palette indices; the byte 254 ends a row and 255 ends the
    image. Reads past the payload or writes past the index buffer are
    undefined behaviour in the original; here they are errors. */
module BshFiles {
  import opened Results
  import opened Bytes
  import opened Chunks

  const END_MARKER: byte := 255
  const END_OF_ROW: byte := 254
  /** Width, height, type and length, four bytes each. */
  const HEADER_SIZE: nat := 16

  datatype BshTexture = BshTexture(width: nat, height: nat, indices: seq<byte>)

  datatype BshError =
    | NoChunk                         // `chunks.at(0)` on a file without chunks
    | OffsetTableOutOfRange(index: nat)
    | HeaderOutOfRange(offset: nat)
    | InvalidSize                     // a width or height of zero
    | RunsExhausted                   // a run byte read past the payload
    | IndexOutOfRange(index: nat)     // a pixel written past width * height

  // ---------------------------------------------------------------------
  // Offset table
  // ---------------------------------------------------------------------

  /** The number of textures announced by the first offset. */
  function OffsetCount(data: seq<byte>): nat
    requires 4 <= |data|
  {
    U32At(data, 0) / 4
  }

  /** `ReadDataFromChunks`, first part: the first offset is always kept, and
      offsets 1 .. count - 1 follow it, where count is the first offset / 4. */
  function ReadOffsets(data: seq<byte>): (r: Result<seq<nat>, BshError>)
    ensures r.Ok? <==> 4 <= |data| && 4 * OffsetCount(data) <= |data|
    ensures r.Ok? ==> |r.value| == if OffsetCount(data) == 0 then 1 else OffsetCount(data)
    ensures r.Ok? ==> forall i :: 0 <= i < |r.value| ==> r.value[i] == U32At(data, 4 * i)
    ensures r.Err? && 4 <= |data| ==> r.error == OffsetTableOutOfRange(|data| / 4)
  {
    if |data| < 4 then Err(OffsetTableOutOfRange(0))
    else
      var count := OffsetCount(data);
      if 4 * count > |data| then Err(OffsetTableOutOfRange(|data| / 4))
      else
        var n := if count == 0 then 1 else count;
        Ok(seq(n, i requires 0 <= i < n => U32At(data, 4 * i)))
  }

  // ---------------------------------------------------------------------
  // Run-length decoder
  // ---------------------------------------------------------------------

  /** `s` written over `p` from position `at`. */
  function Write(p: seq<byte>, at: nat, s: seq<byte>): (q: seq<byte>)
    requires at + |s| <= |p|
    ensures |q| == |p|
  {
    p[..at] + s + p[at + |s|..]
  }

  /** What `Write` leaves at each index: `s` inside the window, `p` outside. */
  lemma WriteAt(p: seq<byte>, at: nat, s: seq<byte>)
    requires at + |s| <= |p|
    ensures forall i :: 0 <= i < |p| ==> Write(p, at, s)[i] == if at <= i < at + |s| then s[i - at] else p[i]
  {
  }

  /** Which error a pixel run of `n` bytes meets first: each step reads a
      byte and then writes it, so a read past the runs wins a tie. */
  function PixelRunError(available: nat, room: nat, n: nat): (e: BshError)
  {
    if available < n && available <= room then RunsExhausted else IndexOutOfRange(room)
  }

  /** What one pass of the decoder loop leaves: the loop has ended with a
      result, or it goes on with the remaining runs, the cursor and the
      index buffer. */
  datatype Step =
    | Done(result: Result<seq<byte>, BshError>)
    | Next(runs: seq<byte>, rowStart: nat, x: nat, pixels: seq<byte>)

  /** One pass of the `while (true)` loop of `DecodePixelData`. The source
      keeps a cursor (x, y) and writes pixel (x, y) at index y * width + x;
      here `rowStart` stands for y * width (the end of a row adds `width` to
      it) and `size` for width * height, so a pixel goes to index
      rowStart + x. A run longer than the rest of a row continues on the
      next one, exactly as in the source. The source writes the alpha zeros
      and then the pixels; both bounds are checked before either write
      here, and a failed pass drops the buffer, so the two writes are one. */
  function DecodeStep(runs: seq<byte>, width: nat, size: nat, rowStart: nat, x: nat, pixels: seq<byte>)
    : (s: Step)
    requires |pixels| == size
    ensures s.Next? ==> |s.runs| < |runs| && |s.pixels| == size
    ensures s.Done? && s.result.Ok? ==> s.result.value == pixels
  {
    if |runs| == 0 then Done(Err(RunsExhausted))
    else if runs[0] == END_MARKER then Done(Ok(pixels))
    else if runs[0] == END_OF_ROW then Next(runs[1..], rowStart + width, 0, pixels)
    else
      var numAlpha := runs[0] as int;
      var start := rowStart + x;
      if numAlpha > 0 && start + numAlpha > size then Done(Err(IndexOutOfRange(size)))
      else if |runs| < 2 then Done(Err(RunsExhausted))
      else
        var numPixels := runs[1] as int;
        var available := |runs| - 2;
        var room := if start + numAlpha <= size then size - start - numAlpha else 0;
        if numPixels > 0 && (available < numPixels || room < numPixels) then
          Done(Err(PixelRunError(available, room, numPixels)))
        else
          var drawn := if numAlpha + numPixels == 0 then pixels
                       else Write(pixels, start, Zeros(numAlpha) + runs[2..2 + numPixels]);
          Next(runs[2 + numPixels..], rowStart, x + numAlpha + numPixels, drawn)
  }

  /** The loop itself: passes until one ends it. */
  function DecodeRuns(runs: seq<byte>, width: nat, size: nat, rowStart: nat, x: nat, pixels: seq<byte>)
    : (r: Result<seq<byte>, BshError>)
    requires |pixels| == size
    ensures r.Ok? ==> |r.value| == size
    decreases |runs|
  {
    match DecodeStep(runs, width, size, rowStart, x, pixels)
    case Done(result) => result
    case Next(more, nextRow, nextX, drawn) => DecodeRuns(more, width, size, nextRow, nextX, drawn)
  }

  /** `DecodePixelData(offset)`: the header at `offset`, a zero-filled index
      buffer of width * height entries, and the runs from offset + 16. */
  function DecodePixelData(data: seq<byte>, offset: nat): (r: Result<BshTexture, BshError>)
    ensures offset + HEADER_SIZE <= |data| && (U32At(data, offset) == 0 || U32At(data, offset + 4) == 0)
            ==> r == Err(InvalidSize)
    ensures offset + HEADER_SIZE > |data| ==> r == Err(HeaderOutOfRange(offset))
    ensures r.Ok? ==> offset + HEADER_SIZE <= |data|
                      && r.value.width == U32At(data, offset) > 0
                      && r.value.height == U32At(data, offset + 4) > 0
                      && |r.value.indices| == r.value.width * r.value.height
  {
    if offset + HEADER_SIZE > |data| then Err(HeaderOutOfRange(offset))
    else
      var width := U32At(data, offset);
      var height := U32At(data, offset + 4);
      if width == 0 || height == 0 then Err(InvalidSize)
      else
        var size := Area(width, height);
        var indices :- DecodeRuns(data[offset + HEADER_SIZE..], width, size, 0, 0, Zeros(size));
        Ok(BshTexture(width, height, indices))
  }

  /** The number of pixels of a width x height texture. */
  function Area(width: nat, height: nat): nat
  {
    width * height
  }

  /** One texture per offset, in offset order; the first failure stops. */
  function DecodeAll(data: seq<byte>, offsets: seq<nat>): (r: Result<seq<BshTexture>, BshError>)
    ensures r.Ok? <==> forall i :: 0 <= i < |offsets| ==> DecodePixelData(data, offsets[i]).Ok?
    ensures r.Ok? ==> |r.value| == |offsets|
    ensures r.Ok? ==> forall i :: 0 <= i < |offsets| ==> r.value[i] == DecodePixelData(data, offsets[i]).value
  {
    if |offsets| == 0 then Ok([])
    else
      var first :- DecodePixelData(data, offsets[0]);
      var rest :- DecodeAll(data, offsets[1..]);
      assert forall i :: 1 <= i < |offsets| ==> offsets[i] == offsets[1..][i - 1];
      Ok([first] + rest)
  }

  /** `ReadDataFromChunks`: the offset table and the textures of chunk 0. */
  function ReadDataFromChunks(chunks: seq<Chunk>): (r: Result<seq<BshTexture>, BshError>)
    ensures |chunks| == 0 ==> r == Err(NoChunk)
    ensures r.Ok? ==> var offsets := ReadOffsets(chunks[0].payload);
                      offsets.Ok? && |r.value| == |offsets.value|
                      && forall i :: 0 <= i < |r.value| ==>
                           var t := DecodePixelData(chunks[0].payload, offsets.value[i]);
                           t.Ok? && r.value[i] == t.value
  {
    if |chunks| == 0 then Err(NoChunk)
    else
      var offsets :- ReadOffsets(chunks[0].payload);
      DecodeAll(chunks[0].payload, offsets)
  }

  // ---------------------------------------------------------------------
  // Encoder and round trip
  // ---------------------------------------------------------------------

  /** One run of a row: `alpha` transparent pixels, then the palette indices
      `pixels`. */
  datatype Run = Run(alpha: nat, pixels: seq<byte>)

  /** A run the format can hold: its alpha count must not read as one of
      the two markers, and its pixel count must fit in a byte. */
  predicate ValidRun(r: Run)
  {
    r.alpha < END_OF_ROW as nat && |r.pixels| <= 255
  }

  predicate ValidRuns(rs: seq<Run>)
  {
    forall k :: 0 <= k < |rs| ==> ValidRun(rs[k])
  }

  /** The pixels of a row given as runs: transparent ones are index 0. */
  function Expand(rs: seq<Run>): seq<byte>
  {
    if |rs| == 0 then [] else Zeros(rs[0].alpha) + rs[0].pixels + Expand(rs[1..])
  }

  /** The bytes of a row's runs: alpha count, pixel count, pixels. */
  function EncodeRuns(rs: seq<Run>): seq<byte>
    requires ValidRuns(rs)
  {
    if |rs| == 0 then []
    else [rs[0].alpha as byte, |rs[0].pixels| as byte] + rs[0].pixels + EncodeRuns(rs[1..])
  }

  /** Rows of runs that each stand for `width` pixels. */
  predicate RowsOf(rows: seq<seq<Run>>, width: nat)
  {
    forall i :: 0 <= i < |rows| ==> ValidRuns(rows[i]) && |Expand(rows[i])| == width
  }

  /** Every row followed by the end-of-row marker, then the end marker. */
  function EncodeRows(rows: seq<seq<Run>>): seq<byte>
    requires forall i :: 0 <= i < |rows| ==> ValidRuns(rows[i])
  {
    if |rows| == 0 then [END_MARKER]
    else EncodeRuns(rows[0]) + [END_OF_ROW] + EncodeRows(rows[1..])
  }

  /** The palette indices of rows of runs, row after row. */
  function Image(rows: seq<seq<Run>>): seq<byte>
  {
    if |rows| == 0 then [] else Expand(rows[0]) + Image(rows[1..])
  }

  /** A texture as its header (type and length zero) and its runs. */
  function EncodeTexture(width: nat, rows: seq<seq<Run>>): seq<byte>
    requires width < TWO_32 && |rows| < TWO_32
    requires forall i :: 0 <= i < |rows| ==> ValidRuns(rows[i])
  {
    EncodeU32(width) + EncodeU32(|rows|) + EncodeU32(0) + EncodeU32(0) + EncodeRows(rows)
  }

  lemma ImageLength(rows: seq<seq<Run>>, width: nat, size: nat)
    requires RowsOf(rows, width) && size == Area(width, |rows|)
    ensures |Image(rows)| == size
  {
    if |rows| > 0 {
      var less := Area(width, |rows| - 1);
      assert size == less + width;
      ImageLength(rows[1..], width, less);
    }
  }

  /** Writing nothing leaves the buffer as it is. */
  lemma WriteNothing(p: seq<byte>, at: nat)
    requires at <= |p|
    ensures Write(p, at, []) == p
  {
    assert p[..at] + [] + p[at..] == p;
  }

  /** A write that covers the whole buffer replaces it. */
  lemma WriteWhole(p: seq<byte>, s: seq<byte>)
    requires |s| == |p|
    ensures Write(p, 0, s) == s
  {
    assert p[..0] + s + p[|s|..] == s;
  }

  /** Two adjacent writes are one write of their concatenation. */
  lemma WriteTwice(p: seq<byte>, at: nat, s: seq<byte>, t: seq<byte>, mid: nat, whole: seq<byte>)
    requires at + |s| + |t| <= |p| && mid == at + |s| && whole == s + t
    ensures Write(Write(p, at, s), mid, t) == Write(p, at, whole)
  {
    var a := Write(Write(p, at, s), mid, t);
    var b := Write(p, at, whole);
    WriteAt(p, at, s);
    WriteAt(Write(p, at, s), mid, t);
    WriteAt(p, at, whole);
    assert forall i :: 0 <= i < |p| ==> a[i] == b[i];
  }

  lemma Associative(a: seq<byte>, b: seq<byte>, c: seq<byte>)
    ensures a + b + c == a + (b + c)
  {
  }

  lemma EncodeRunsStep(rs: seq<Run>, rest: seq<byte>, tail: seq<byte>)
    requires |rs| > 0 && ValidRuns(rs) && tail == EncodeRuns(rs[1..]) + rest
    ensures EncodeRuns(rs) + rest == [rs[0].alpha as byte, |rs[0].pixels| as byte] + rs[0].pixels + tail
  {
    var head := [rs[0].alpha as byte, |rs[0].pixels| as byte] + rs[0].pixels;
    assert EncodeRuns(rs) == head + EncodeRuns(rs[1..]);
    Associative(head, EncodeRuns(rs[1..]), rest);
  }

  lemma EncodeRowsStep(rows: seq<seq<Run>>, rest: seq<byte>)
    requires |rows| > 0 && forall i :: 0 <= i < |rows| ==> ValidRuns(rows[i])
    ensures EncodeRows(rows) + rest == EncodeRuns(rows[0]) + ([END_OF_ROW] + (EncodeRows(rows[1..]) + rest))
  {
    var first := EncodeRuns(rows[0]);
    var more := EncodeRows(rows[1..]);
    assert EncodeRows(rows) == first + [END_OF_ROW] + more;
    Associative(first, [END_OF_ROW], more);
    Associative(first, [END_OF_ROW] + more, rest);
    Associative([END_OF_ROW], more, rest);
  }

  /** One run: `a` transparent pixels, then the palette indices `bytes`,
      written at the cursor (index `start`) as `a` zeros followed by the
      indices, and the cursor moved past both, to `x2`. */
  lemma DecodeRun(runs: seq<byte>, a: nat, bytes: seq<byte>, tail: seq<byte>, width: nat, size: nat,
                  rowStart: nat, x: nat, pixels: seq<byte>, start: nat, x2: nat, written: seq<byte>)
    requires |pixels| == size && start == rowStart + x && x2 == x + a + |bytes|
    requires a < END_OF_ROW as nat && |bytes| <= 255 && start + a + |bytes| <= size
    requires runs == [a as byte, |bytes| as byte] + bytes + tail
    requires written == Write(pixels, start, Zeros(a) + bytes)
    ensures DecodeRuns(runs, width, size, rowStart, x, pixels) == DecodeRuns(tail, width, size, rowStart, x2, written)
  {
    var n := |bytes|;
    RunFields(runs, a, bytes, tail);
    if a + n == 0 {
      assert Zeros(a) + bytes == [];
      WriteNothing(pixels, start);
    }
    DecodeRunStep(runs, a, n, width, size, rowStart, x, pixels, start, x2, written);
  }

  /** The fields of an encoded run. */
  lemma RunFields(runs: seq<byte>, a: nat, bytes: seq<byte>, tail: seq<byte>)
    requires a < 256 && |bytes| <= 255 && runs == [a as byte, |bytes| as byte] + bytes + tail
    ensures |runs| >= 2 + |bytes| && runs[0] as int == a && runs[1] as int == |bytes|
    ensures runs[2..2 + |bytes|] == bytes && runs[2 + |bytes|..] == tail
  {
  }

  /** A run that fits, as one pass of the decoder loop: `a` zeros and then
      the `n` palette indices that follow the counts are written at the
      cursor, index `start`, which moves to `x2`. */
  lemma DecodeRunStep(runs: seq<byte>, a: nat, n: nat, width: nat, size: nat, rowStart: nat, x: nat,
                      pixels: seq<byte>, start: nat, x2: nat, written: seq<byte>)
    requires |pixels| == size && start == rowStart + x && x2 == x + a + n
    requires a < END_OF_ROW as nat && start + a + n <= size
    requires |runs| >= 2 + n && runs[0] as int == a && runs[1] as int == n
    requires written == Write(pixels, start, Zeros(a) + runs[2..2 + n])
    ensures DecodeRuns(runs, width, size, rowStart, x, pixels)
            == DecodeRuns(runs[2 + n..], width, size, rowStart, x2, written)
  {
    assert runs[0] != END_MARKER && runs[0] != END_OF_ROW;
    assert start + a <= size && |runs| - 2 >= n && size - start - a >= n;
    if a + n == 0 {
      assert Zeros(a) + runs[2..2 + n] == [];
      WriteNothing(pixels, start);
    }
    assert DecodeStep(runs, width, size, rowStart, x, pixels) == Next(runs[2 + n..], rowStart, x2, written);
  }

  /** A run of `a` transparent pixels and no opaque ones: `a` zeros are
      written at the cursor, index `start`, which moves to `x2`. */
  lemma DecodeAlphaRun(runs: seq<byte>, a: nat, tail: seq<byte>, width: nat, size: nat, rowStart: nat, x: nat,
                       pixels: seq<byte>, start: nat, x2: nat)
    requires |pixels| == size && start == rowStart + x && x2 == x + a
    requires 0 < a < END_OF_ROW as nat && start + a <= size
    requires runs == [a as byte, 0] + tail
    ensures DecodeRuns(runs, width, size, rowStart, x, pixels)
            == DecodeRuns(tail, width, size, rowStart, x2, Write(pixels, start, Zeros(a)))
  {
    var none: seq<byte> := [];
    assert runs == [a as byte, |none| as byte] + none + tail;
    assert Zeros(a) + none == Zeros(a);
    DecodeRun(runs, a, none, tail, width, size, rowStart, x, pixels, start, x2, Write(pixels, start, Zeros(a)));
  }

  /** Decoding one row's runs writes the row's pixels at the cursor, index
      `start`, and moves the cursor past them: to `xEnd`, with the pixels
      `after`. */
  lemma {:induction false} DecodeRow(rs: seq<Run>, rest: seq<byte>, width: nat, size: nat, rowStart: nat, x: nat,
                                     pixels: seq<byte>, start: nat, xEnd: nat, after: seq<byte>)
    requires ValidRuns(rs) && |pixels| == size && start == rowStart + x && start + |Expand(rs)| <= size
    requires xEnd == x + |Expand(rs)| && after == Write(pixels, start, Expand(rs))
    ensures DecodeRuns(EncodeRuns(rs) + rest, width, size, rowStart, x, pixels)
            == DecodeRuns(rest, width, size, rowStart, xEnd, after)
    decreases |rs|
  {
    if |rs| == 0 {
      DecodeNoRuns(rs, rest, width, size, rowStart, x, pixels, start, xEnd, after);
    } else {
      var head := Zeros(rs[0].alpha) + rs[0].pixels;
      var x2 := x + |head|;
      var mid := start + |head|;
      var written := Write(pixels, start, head);
      WriteRowRuns(rs, pixels, start, head, mid, written, after);
      DecodeRow(rs[1..], rest, width, size, rowStart, x2, written, mid, xEnd, after);
      DecodeRowStep(rs, rest, width, size, rowStart, x, pixels, start, x2, written,
                    DecodeRuns(rest, width, size, rowStart, xEnd, after));
    }
  }

  /** A row without runs writes nothing and leaves the cursor where it is. */
  lemma DecodeNoRuns(rs: seq<Run>, rest: seq<byte>, width: nat, size: nat, rowStart: nat, x: nat,
                     pixels: seq<byte>, start: nat, xEnd: nat, after: seq<byte>)
    requires |rs| == 0 && |pixels| == size && start <= size
    requires xEnd == x + |Expand(rs)| && after == Write(pixels, start, Expand(rs))
    ensures DecodeRuns(EncodeRuns(rs) + rest, width, size, rowStart, x, pixels)
            == DecodeRuns(rest, width, size, rowStart, xEnd, after)
  {
    assert EncodeRuns(rs) + rest == rest;
    WriteNothing(pixels, start);
  }

  /** Writing a row's pixels is writing its first run's pixels, `head`, and
      then the pixels of the other runs after them, from `mid`. */
  lemma WriteRowRuns(rs: seq<Run>, pixels: seq<byte>, start: nat, head: seq<byte>, mid: nat,
                    written: seq<byte>, after: seq<byte>)
    requires |rs| > 0 && start + |Expand(rs)| <= |pixels|
    requires head == Zeros(rs[0].alpha) + rs[0].pixels && mid == start + |head|
    requires written == Write(pixels, start, head) && after == Write(pixels, start, Expand(rs))
    ensures Expand(rs) == head + Expand(rs[1..])
    ensures mid + |Expand(rs[1..])| <= |pixels| && after == Write(written, mid, Expand(rs[1..]))
  {
    assert Expand(rs) == head + Expand(rs[1..]);
    WriteTwice(pixels, start, head, Expand(rs[1..]), mid, Expand(rs));
  }

  /** The first run of a row, followed by the rest of the row. */
  lemma DecodeRowStep(rs: seq<Run>, rest: seq<byte>, width: nat, size: nat, rowStart: nat, x: nat,
                      pixels: seq<byte>, start: nat, x2: nat, written: seq<byte>, result: Result<seq<byte>, BshError>)
    requires |rs| > 0 && ValidRuns(rs) && |pixels| == size && start == rowStart + x
    requires x2 == x + rs[0].alpha + |rs[0].pixels| && start + rs[0].alpha + |rs[0].pixels| <= size
    requires written == Write(pixels, start, Zeros(rs[0].alpha) + rs[0].pixels)
    requires DecodeRuns(EncodeRuns(rs[1..]) + rest, width, size, rowStart, x2, written) == result
    ensures DecodeRuns(EncodeRuns(rs) + rest, width, size, rowStart, x, pixels) == result
  {
    var tail := EncodeRuns(rs[1..]) + rest;
    EncodeRunsStep(rs, rest, tail);
    DecodeRun(EncodeRuns(rs) + rest, rs[0].alpha, rs[0].pixels, tail, width, size,
              rowStart, x, pixels, start, x2, written);
  }

  /** The end-of-row marker moves the cursor to the start of the next row,
      `next`. */
  lemma DecodeEndOfRow(runs: seq<byte>, tail: seq<byte>, width: nat, size: nat, rowStart: nat, x: nat,
                       pixels: seq<byte>, next: nat)
    requires |pixels| == size && runs == [END_OF_ROW] + tail && next == rowStart + width
    ensures DecodeRuns(runs, width, size, rowStart, x, pixels) == DecodeRuns(tail, width, size, next, 0, pixels)
  {
    assert runs[0] == END_OF_ROW && runs[1..] == tail;
  }

  /** Decoding encoded rows from the row starting at `rowStart` writes them,
      one after the other, from that index, and stops at the end marker
      with the pixels `after`. */
  lemma {:induction false} DecodeRowsFrom(rows: seq<seq<Run>>, rest: seq<byte>, width: nat, size: nat, rowStart: nat,
                                          pixels: seq<byte>, after: seq<byte>)
    requires |pixels| == size && RowsOf(rows, width)
    requires rowStart + |Image(rows)| <= size
    requires after == Write(pixels, rowStart, Image(rows))
    ensures DecodeRuns(EncodeRows(rows) + rest, width, size, rowStart, 0, pixels) == Ok(after)
    decreases |rows|
  {
    if |rows| == 0 {
      var runs := EncodeRows(rows) + rest;
      assert runs[0] == END_MARKER;
      WriteNothing(pixels, rowStart);
    } else {
      var next := rowStart + width;
      var first := Expand(rows[0]);
      var written := Write(pixels, rowStart, first);
      var more := EncodeRows(rows[1..]) + rest;
      assert Image(rows) == first + Image(rows[1..]);
      WriteTwice(pixels, rowStart, first, Image(rows[1..]), next, Image(rows));
      DecodeRowsFrom(rows[1..], rest, width, size, next, written, after);
      EncodeRowsStep(rows, rest);
      DecodeRow(rows[0], [END_OF_ROW] + more, width, size, rowStart, 0, pixels, rowStart, width, written);
      DecodeEndOfRow([END_OF_ROW] + more, more, width, size, rowStart, width, written, next);
    }
  }

  /** `DecodePixelData` on a valid header: the texture holds whatever the
      runs decode to. */
  lemma DecodePixelDataOfRuns(data: seq<byte>, offset: nat, width: nat, height: nat, size: nat, indices: seq<byte>)
    requires offset + HEADER_SIZE <= |data| && size == width * height
    requires U32At(data, offset) == width > 0 && U32At(data, offset + 4) == height > 0
    requires DecodeRuns(data[offset + HEADER_SIZE..], width, size, 0, 0, Zeros(size)) == Ok(indices)
    ensures DecodePixelData(data, offset) == Ok(BshTexture(width, height, indices))
  {
  }

  /** The header of an encoded texture, read back at its offset. */
  lemma EncodedHeader(prefix: seq<byte>, width: nat, rows: seq<seq<Run>>, rest: seq<byte>)
    requires width < TWO_32 && |rows| < TWO_32
    requires forall i :: 0 <= i < |rows| ==> ValidRuns(rows[i])
    ensures var data := prefix + EncodeTexture(width, rows) + rest;
            |prefix| + HEADER_SIZE <= |data|
            && U32At(data, |prefix|) == width && U32At(data, |prefix| + 4) == |rows|
            && data[|prefix| + HEADER_SIZE..] == EncodeRows(rows) + rest
  {
    var height := |rows|;
    var data := prefix + EncodeTexture(width, rows) + rest;
    var tail := EncodeU32(0) + EncodeU32(0) + EncodeRows(rows) + rest;
    assert data == prefix + EncodeU32(width) + (EncodeU32(height) + tail);
    U32AtShift(prefix, EncodeU32(width), EncodeU32(height) + tail);
    assert data == prefix + EncodeU32(width) + EncodeU32(height) + tail;
    U32AtShift(prefix + EncodeU32(width), EncodeU32(height), tail);
    U32RoundTrip(width, []);
    U32RoundTrip(height, []);
    assert EncodeU32(width) + [] == EncodeU32(width);
    assert EncodeU32(height) + [] == EncodeU32(height);
  }

  /** The runs of an encoded texture, decoded into a zeroed buffer of
      `size` = width * height entries, give its image. */
  lemma DecodeTextureRuns(rows: seq<seq<Run>>, rest: seq<byte>, width: nat, size: nat, image: seq<byte>)
    requires RowsOf(rows, width) && size == Area(width, |rows|) && image == Image(rows)
    ensures DecodeRuns(EncodeRows(rows) + rest, width, size, 0, 0, Zeros(size)) == Ok(image)
  {
    ImageLength(rows, width, size);
    WriteWhole(Zeros(size), image);
    DecodeRowsFrom(rows, rest, width, size, 0, Zeros(size), image);
  }

  /** Round trip: a texture encoded as header and runs, placed at any offset
      of a payload, decodes to its own width, height and palette indices,
      transparent pixels included. */
  lemma DecodeEncodedTexture(prefix: seq<byte>, width: nat, rows: seq<seq<Run>>, rest: seq<byte>)
    requires 0 < width < TWO_32 && 0 < |rows| < TWO_32 && RowsOf(rows, width)
    ensures DecodePixelData(prefix + EncodeTexture(width, rows) + rest, |prefix|)
            == Ok(BshTexture(width, |rows|, Image(rows)))
  {
    var data := prefix + EncodeTexture(width, rows) + rest;
    var size := Area(width, |rows|);
    EncodedHeader(prefix, width, rows, rest);
    DecodeTextureRuns(rows, rest, width, size, Image(rows));
    DecodePixelDataOfRuns(data, |prefix|, width, |rows|, size, Image(rows));
  }

  // ---------------------------------------------------------------------
  // Splitting pixel rows into runs
  // ---------------------------------------------------------------------

  /** The number of leading bytes of `s`, at most `cap`, that are zero
      (`transparent`) or that are not (`!transparent`). */
  function Span(s: seq<byte>, transparent: bool, cap: nat): (n: nat)
    ensures n <= cap && n <= |s|
    ensures forall i :: 0 <= i < n ==> (s[i] == 0) == transparent
    ensures n < cap && n < |s| ==> (s[n] == 0) != transparent
    decreases |s|
  {
    if cap == 0 || |s| == 0 || (s[0] == 0) != transparent then 0
    else 1 + Span(s[1..], transparent, cap - 1)
  }

  /** A row of palette indices as runs: each run's alpha count takes the
      transparent pixels (index 0) in front of it, at most 253 of them, and
      its pixels are the opaque ones that follow, at most 255. */
  function SplitRow(row: seq<byte>): (rs: seq<Run>)
    ensures ValidRuns(rs) && Expand(rs) == row
    ensures forall k, i :: 0 <= k < |rs| && 0 <= i < |rs[k].pixels| ==> rs[k].pixels[i] != 0
    decreases |row|
  {
    if |row| == 0 then []
    else
      var a := Span(row, true, END_OF_ROW as nat - 1);
      var n := Span(row[a..], false, 255);
      var more := SplitRow(row[a + n..]);
      SplitStep(row, a, n, more);
      [Run(a, row[a..a + n])] + more
  }

  /** One step of `SplitRow`: the first run and the runs of the rest. */
  lemma SplitStep(row: seq<byte>, a: nat, n: nat, more: seq<Run>)
    requires |row| > 0 && a == Span(row, true, END_OF_ROW as nat - 1) && n == Span(row[a..], false, 255)
    requires ValidRuns(more) && Expand(more) == row[a + n..]
    requires forall k, i :: 0 <= k < |more| && 0 <= i < |more[k].pixels| ==> more[k].pixels[i] != 0
    ensures 0 < a + n
    ensures var rs := [Run(a, row[a..a + n])] + more;
            ValidRuns(rs) && Expand(rs) == row
            && forall k, i :: 0 <= k < |rs| && 0 <= i < |rs[k].pixels| ==> rs[k].pixels[i] != 0
  {
    var rs := [Run(a, row[a..a + n])] + more;
    SpanProgress(row, a, n);
    SplitExpand(row, a, n, more, rs);
    SplitOpaque(row, a, n, more, rs);
  }

  /** The first run takes at least one pixel, and its alpha count only
      transparent ones. */
  lemma SpanProgress(row: seq<byte>, a: nat, n: nat)
    requires |row| > 0 && a == Span(row, true, END_OF_ROW as nat - 1) && n == Span(row[a..], false, 255)
    ensures 0 < a + n && a < END_OF_ROW as nat && n <= 255 && a + n <= |row|
    ensures row[..a] == Zeros(a)
  {
  }

  /** The first run stands for the transparent pixels and the opaque ones
      that start the row. */
  lemma SplitExpand(row: seq<byte>, a: nat, n: nat, more: seq<Run>, rs: seq<Run>)
    requires a < END_OF_ROW as nat && n <= 255 && a + n <= |row| && row[..a] == Zeros(a)
    requires ValidRuns(more) && Expand(more) == row[a + n..] && rs == [Run(a, row[a..a + n])] + more
    ensures ValidRuns(rs) && Expand(rs) == row
  {
    assert rs[1..] == more;
    assert Expand(rs) == row[..a] + row[a..a + n] + row[a + n..];
    assert row[..a + n] == row[..a] + row[a..a + n];
    assert row == row[..a + n] + row[a + n..];
  }

  /** The first run's pixels are all opaque. */
  lemma SplitOpaque(row: seq<byte>, a: nat, n: nat, more: seq<Run>, rs: seq<Run>)
    requires a <= |row| && n == Span(row[a..], false, 255) && rs == [Run(a, row[a..a + n])] + more
    requires forall k, i :: 0 <= k < |more| && 0 <= i < |more[k].pixels| ==> more[k].pixels[i] != 0
    ensures forall k, i :: 0 <= k < |rs| && 0 <= i < |rs[k].pixels| ==> rs[k].pixels[i] != 0
  {
    forall k, i | 0 <= k < |rs| && 0 <= i < |rs[k].pixels|
      ensures rs[k].pixels[i] != 0
    {
      if k == 0 {
        assert rs[k].pixels[i] == row[a..][i];
      } else {
        assert rs[k] == more[k - 1];
      }
    }
  }

  function SplitRows(rows: seq<seq<byte>>): (r: seq<seq<Run>>)
    ensures |r| == |rows|
    ensures forall i :: 0 <= i < |rows| ==> r[i] == SplitRow(rows[i])
  {
    if |rows| == 0 then [] else [SplitRow(rows[0])] + SplitRows(rows[1..])
  }

  function Flatten(rows: seq<seq<byte>>): seq<byte>
  {
    if |rows| == 0 then [] else rows[0] + Flatten(rows[1..])
  }

  predicate Rectangular(rows: seq<seq<byte>>, width: nat)
  {
    forall i :: 0 <= i < |rows| ==> |rows[i]| == width
  }

  /** Splitting each row into runs keeps the image. */
  lemma {:induction false} ImageOfSplit(rows: seq<seq<byte>>)
    ensures Image(SplitRows(rows)) == Flatten(rows)
  {
    if |rows| > 0 {
      ImageOfSplit(rows[1..]);
      assert SplitRows(rows)[1..] == SplitRows(rows[1..]);
    }
  }

  /** Splitting rows of `width` pixels gives rows of runs of `width` pixels. */
  lemma SplitRowsOf(rows: seq<seq<byte>>, width: nat, split: seq<seq<Run>>)
    requires Rectangular(rows, width) && split == SplitRows(rows)
    ensures RowsOf(split, width)
  {
    forall i | 0 <= i < |split|
      ensures ValidRuns(split[i]) && |Expand(split[i])| == width
    {
      assert split[i] == SplitRow(rows[i]);
    }
  }

  /** Round trip for a rectangle of palette indices written with alpha runs
      for its transparent pixels: it decodes back to the same indices. */
  lemma DecodeSplitTexture(prefix: seq<byte>, width: nat, rows: seq<seq<byte>>, rest: seq<byte>)
    requires 0 < width < TWO_32 && 0 < |rows| < TWO_32 && Rectangular(rows, width)
    ensures DecodePixelData(prefix + EncodeTexture(width, SplitRows(rows)) + rest, |prefix|)
            == Ok(BshTexture(width, |rows|, Flatten(rows)))
  {
    var split := SplitRows(rows);
    SplitRowsOf(rows, width, split);
    ImageOfSplit(rows);
    DecodeEncodedTexture(prefix, width, split, rest);
  }
}
