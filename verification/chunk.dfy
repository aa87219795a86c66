/** The chunk framing of the game's binary files, as read by the
    TileAtlasCreator's `Chunk` class: a 16-byte NUL-padded type id, a 4-byte
    signed length and then `length` payload bytes. */
module Chunks {
  import opened Results
  import opened Bytes

  const ID_SIZE_IN_BYTES: nat := 16
  const DATA_LENGTH_SIZE_IN_BYTES: nat := 4
  const HEADER_SIZE: nat := ID_SIZE_IN_BYTES + DATA_LENGTH_SIZE_IN_BYTES

  /** A chunk after reading: the id string (the bytes before the first NUL)
      and the payload. */
  datatype Chunk = Chunk(id: seq<byte>, payload: seq<byte>)

  /** Why a chunk could not be read. `WrongByteCount` is the exception of
      `checkNumberOfBytesRead`; it carries the id once the id has been read. */
  datatype ChunkError =
    | WrongByteCount(knownId: Option<seq<byte>>, result: int, expected: int)
    | EmptyIdField          // an id field of sixteen NUL bytes: `split` yields no element
    | NegativeLength(length: int)   // `new byte[length]` with a negative length

  function Min(a: int, b: int): int { if a <= b then a else b }

  /** What one `InputStream.read(buffer, offset, requested)` returns when
      `remaining` bytes are left and the stream hands out at most `grain`
      bytes per call: -1 at end of stream, 0 for an empty request. */
  function StreamRead(remaining: nat, requested: nat, grain: nat): (r: int)
    requires grain > 0
    ensures requested == 0 ==> r == 0
    ensures requested > 0 && remaining == 0 ==> r == -1
    ensures requested > 0 && remaining > 0 ==> 0 < r <= requested && r <= remaining
  {
    if requested == 0 then 0
    else if remaining == 0 then -1
    else Min(Min(requested, remaining), grain)
  }

  /** A single read from a file stream, which delivers everything it can. */
  function FileRead(remaining: nat, requested: nat): int
  {
    if requested == 0 then 0 else StreamRead(remaining, requested, requested)
  }

  predicate IsNul(b: byte) { b == 0 }

  predicate AllNul(field: seq<byte>)
  {
    forall i :: 0 <= i < |field| ==> IsNul(field[i])
  }

  /** Number of bytes before the first NUL. */
  function IdLength(field: seq<byte>): (n: nat)
    ensures n <= |field|
    ensures forall i :: 0 <= i < n ==> !IsNul(field[i])
    ensures n < |field| ==> IsNul(field[n])
  {
    if |field| == 0 || IsNul(field[0]) then 0 else 1 + IdLength(field[1..])
  }

  /** The id string: the part of the field before the first NUL. Java's
      `split("\0")[0]` fails when every byte of the field is NUL. */
  function IdString(field: seq<byte>): (r: Result<seq<byte>, ChunkError>)
    ensures r.Err? <==> AllNul(field)
    ensures r.Err? ==> r.error == EmptyIdField
    ensures r.Ok? ==> r.value <= field && !AllNul(field)
    ensures r.Ok? ==> forall i :: 0 <= i < |r.value| ==> !IsNul(r.value[i])
    ensures r.Ok? ==> |r.value| == |field| || IsNul(field[|r.value|])
  {
    if AllNul(field) then Err(EmptyIdField) else Ok(field[..IdLength(field)])
  }

  /** Reads one chunk from the front of `s` (the bytes left in the file) and
      returns it with the number of bytes it consumed. The three reads happen
      in order: id, length, payload. */
  function ReadChunk(s: seq<byte>): (r: Result<(Chunk, nat), ChunkError>)
    ensures |s| < ID_SIZE_IN_BYTES ==>
              r == Err(WrongByteCount(None, if |s| == 0 then -1 else |s|, ID_SIZE_IN_BYTES))
    ensures |s| >= ID_SIZE_IN_BYTES && AllNul(s[..ID_SIZE_IN_BYTES]) ==> r == Err(EmptyIdField)
    ensures ID_SIZE_IN_BYTES <= |s| < HEADER_SIZE && !AllNul(s[..ID_SIZE_IN_BYTES]) ==>
              r.Err? && r.error.WrongByteCount? && r.error.knownId.Some? && r.error.expected == 4
    ensures r.Ok? <==>
              && |s| >= HEADER_SIZE
              && !AllNul(s[..ID_SIZE_IN_BYTES])
              && I32At(s, ID_SIZE_IN_BYTES) >= 0
              && HEADER_SIZE + I32At(s, ID_SIZE_IN_BYTES) <= |s|
    ensures r.Ok? ==>
              var (c, used) := r.value;
              && used == HEADER_SIZE + |c.payload| <= |s|
              && used == HEADER_SIZE + I32At(s, ID_SIZE_IN_BYTES)
              && c.payload == s[HEADER_SIZE..used]
              && IdString(s[..ID_SIZE_IN_BYTES]) == Ok(c.id)
  {
    var r1 := FileRead(|s|, ID_SIZE_IN_BYTES);
    if r1 != ID_SIZE_IN_BYTES then Err(WrongByteCount(None, r1, ID_SIZE_IN_BYTES))
    else
      var id :- IdString(s[..ID_SIZE_IN_BYTES]);
      var r2 := FileRead(|s| - ID_SIZE_IN_BYTES, DATA_LENGTH_SIZE_IN_BYTES);
      if r2 != DATA_LENGTH_SIZE_IN_BYTES then
        Err(WrongByteCount(Some(id), r2, DATA_LENGTH_SIZE_IN_BYTES))
      else
        var length := I32At(s, ID_SIZE_IN_BYTES);
        if length < 0 then Err(NegativeLength(length))
        else
          var got := Min(length, |s| - HEADER_SIZE);
          if got != length then Err(WrongByteCount(Some(id), got, length))
          else Ok((Chunk(id, s[HEADER_SIZE..HEADER_SIZE + length]), HEADER_SIZE + length))
  }

  /** The payload loop of `Chunk.readData`: a zero-filled buffer of `length`
      bytes is filled by repeated reads until it is full or the stream ends.
      The outcome does not depend on how many bytes each read delivers. */
  method ReadData(stream: seq<byte>, length: nat, grain: nat) returns (bytes: seq<byte>, offset: nat)
    requires grain > 0
    ensures offset == Min(length, |stream|)
    ensures |bytes| == length
    ensures bytes[..offset] == stream[..offset]
    ensures forall i :: offset <= i < length ==> bytes[i] == 0
  {
    bytes := Zeros(length);
    offset := 0;
    while offset < length
      invariant offset <= length && offset <= |stream|
      invariant |bytes| == length
      invariant bytes[..offset] == stream[..offset]
      invariant forall i :: offset <= i < length ==> bytes[i] == 0
    {
      var result := StreamRead(|stream| - offset, length - offset, grain);
      if result == -1 {
        break;
      }
      bytes := bytes[..offset] + stream[offset..offset + result] + bytes[offset + result..];
      offset := offset + result;
    }
  }

  /** The chunks the game's files are made of: an id of 1 to 16 non-NUL
      bytes and a payload whose length fits a signed 32-bit integer. */
  predicate WellFormed(c: Chunk)
  {
    && 1 <= |c.id| <= ID_SIZE_IN_BYTES
    && (forall i :: 0 <= i < |c.id| ==> !IsNul(c.id[i]))
    && |c.payload| < TWO_31
  }

  /** The byte image of a chunk: id padded with NULs, length, payload. */
  function Encode(c: Chunk): (s: seq<byte>)
    requires WellFormed(c)
    ensures |s| == HEADER_SIZE + |c.payload|
  {
    IdField(c) + EncodeU32(|c.payload|) + c.payload
  }

  /** Reading an encoded chunk gives back its id and payload and consumes
      exactly its bytes, whatever follows it. */
  lemma ReadEncoded(c: Chunk, rest: seq<byte>)
    requires WellFormed(c)
    ensures ReadChunk(Encode(c) + rest) == Ok((c, HEADER_SIZE + |c.payload|))
  {
    var field := IdField(c);
    var s := Encode(c) + rest;
    assert s == field + EncodeU32(|c.payload|) + (c.payload + rest);
    assert s[..ID_SIZE_IN_BYTES] == field;
    LengthField(field, |c.payload|, c.payload + rest);
    assert s[HEADER_SIZE..HEADER_SIZE + |c.payload|] == c.payload;
  }

  /** The padded id field of a chunk reads back as its id. */
  function IdField(c: Chunk): (field: seq<byte>)
    requires WellFormed(c)
    ensures |field| == ID_SIZE_IN_BYTES && IdString(field) == Ok(c.id)
  {
    var field := c.id + Zeros(ID_SIZE_IN_BYTES - |c.id|);
    assert !IsNul(field[0]);
    IdLengthOfPadded(c.id, ID_SIZE_IN_BYTES - |c.id|);
    assert field[..|c.id|] == c.id;
    field
  }

  /** The length field after the id field reads back as the length. */
  lemma LengthField(field: seq<byte>, n: nat, tail: seq<byte>)
    requires |field| == ID_SIZE_IN_BYTES && n < TWO_31
    ensures I32At(field + EncodeU32(n) + tail, ID_SIZE_IN_BYTES) == n
  {
    U32AtShift(field, EncodeU32(n), tail);
    U32RoundTrip(n, []);
    assert EncodeU32(n) + [] == EncodeU32(n);
  }

  lemma IdLengthOfPadded(id: seq<byte>, pad: nat)
    requires forall i :: 0 <= i < |id| ==> !IsNul(id[i])
    ensures IdLength(id + Zeros(pad)) == |id|
  {
    var field := id + Zeros(pad);
    assert forall i :: 0 <= i < |id| ==> field[i] == id[i];
    assert pad > 0 ==> IsNul(field[|id|]);
  }

  /** Every proper, non-empty prefix of an encoded chunk is rejected: a chunk
      is never returned short. */
  lemma ReadTruncated(c: Chunk, k: nat)
    requires WellFormed(c)
    requires 0 < k < |Encode(c)|
    ensures ReadChunk(Encode(c)[..k]).Err?
  {
    var s := Encode(c)[..k];
    if k >= HEADER_SIZE {
      var field := IdField(c);
      assert s[..ID_SIZE_IN_BYTES] == field;
      assert s == field + EncodeU32(|c.payload|) + Encode(c)[HEADER_SIZE..k];
      LengthField(field, |c.payload|, Encode(c)[HEADER_SIZE..k]);
    }
  }
}
