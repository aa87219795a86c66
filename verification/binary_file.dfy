/** A binary file of the TileAtlasCreator: the whole file is read, chunk
    after chunk, while bytes remain (`BinaryFile.readChunksFromFile`). The
    filesystem is a parameter: a map from path to file contents. */
module BinaryFiles {
  import opened Results
  import opened Bytes
  import opened Chunks

  datatype FileError =
    | NullPath
    | CannotOpen(path: string)
    | BadChunk(cause: ChunkError)
    | IndexOutOfBounds(index: int)

  datatype BinaryFile = BinaryFile(path: string, chunks: seq<Chunk>)

  /** Bytes a chunk occupies in its file. */
  function ChunkSize(c: Chunk): nat { HEADER_SIZE + |c.payload| }

  function TotalSize(cs: seq<Chunk>): nat
  {
    if |cs| == 0 then 0 else ChunkSize(cs[0]) + TotalSize(cs[1..])
  }

  /** The chunk loop: chunks are appended in file order until no byte is
      left; a successful read accounts for every byte of the file. */
  function ReadChunks(s: seq<byte>): (r: Result<seq<Chunk>, ChunkError>)
    ensures r.Ok? ==> TotalSize(r.value) == |s|
    ensures r.Ok? && |s| > 0 ==> |r.value| > 0 && ReadChunk(s) == Ok((r.value[0], ChunkSize(r.value[0])))
    ensures |s| == 0 ==> r == Ok([])
    decreases |s|
  {
    if |s| == 0 then Ok([])
    else
      var first :- ReadChunk(s);
      var rest :- ReadChunks(s[first.1..]);
      Ok([first.0] + rest)
  }

  /** `new BinaryFile(path)`: a null path is refused before anything is
      read, a missing file cannot be opened, and a bad chunk aborts. */
  function Open(path: Option<string>, fs: map<string, seq<byte>>): (r: Result<BinaryFile, FileError>)
    ensures path.None? ==> r == Err(NullPath)
    ensures path.Some? && path.value !in fs ==> r == Err(CannotOpen(path.value))
    ensures path.Some? && path.value in fs ==>
              (r.Ok? <==> ReadChunks(fs[path.value]).Ok?)
    ensures r.Ok? ==> path.Some? && path.value in fs && r.value.path == path.value
                      && TotalSize(r.value.chunks) == |fs[path.value]|
  {
    match path
    case None => Err(NullPath)
    case Some(p) =>
      if p !in fs then Err(CannotOpen(p))
      else
        match ReadChunks(fs[p])
        case Err(e) => Err(BadChunk(e))
        case Ok(cs) => Ok(BinaryFile(p, cs))
  }

  /** `getNumberOfChunks`: the chunks read, at most one per 20 bytes of
      the file, since each carries its id and length. */
  function GetNumberOfChunks(f: BinaryFile): (n: nat)
    ensures n == |f.chunks| && HEADER_SIZE * n <= TotalSize(f.chunks)
  {
    ChunkCountBound(f.chunks);
    |f.chunks|
  }

  lemma {:induction false} ChunkCountBound(cs: seq<Chunk>)
    ensures HEADER_SIZE * |cs| <= TotalSize(cs)
  {
    if |cs| > 0 {
      ChunkCountBound(cs[1..]);
    }
  }

  /** `getChunk`: `ArrayList.get` throws for an index out of range. */
  function GetChunk(f: BinaryFile, index: int): (r: Result<Chunk, FileError>)
    ensures r.Ok? <==> 0 <= index < GetNumberOfChunks(f)
    ensures r.Ok? ==> r.value in f.chunks && r.value == f.chunks[index]
    ensures r.Err? ==> r.error == IndexOutOfBounds(index)
  {
    if 0 <= index < |f.chunks| then Ok(f.chunks[index]) else Err(IndexOutOfBounds(index))
  }

  /** `chunkIndexHasId`. */
  function ChunkIndexHasId(f: BinaryFile, index: int, id: seq<byte>): (r: Result<bool, FileError>)
    ensures r.Ok? <==> 0 <= index < |f.chunks|
    ensures r.Ok? ==> (r.value <==> f.chunks[index].id == id)
  {
    var c :- GetChunk(f, index);
    Ok(c.id == id)
  }

  /** The bytes of a file made of the given chunks, in order. */
  function EncodeAll(cs: seq<Chunk>): (s: seq<byte>)
    requires forall i :: 0 <= i < |cs| ==> WellFormed(cs[i])
    ensures |s| == TotalSize(cs)
  {
    if |cs| == 0 then [] else Encode(cs[0]) + EncodeAll(cs[1..])
  }

  /** Round trip: a file written chunk by chunk reads back as the same chunks. */
  lemma {:induction false} ReadEncodedFile(cs: seq<Chunk>)
    requires forall i :: 0 <= i < |cs| ==> WellFormed(cs[i])
    ensures ReadChunks(EncodeAll(cs)) == Ok(cs)
    decreases |cs|
  {
    if |cs| > 0 {
      ReadEncodedFile(cs[1..]);
      ReadChunksCons(cs[0], EncodeAll(cs[1..]));
      assert [cs[0]] + cs[1..] == cs;
    }
  }

  /** An encoded chunk in front of any bytes is read back first, and the
      loop continues on the bytes after it. */
  lemma ReadChunksCons(c: Chunk, rest: seq<byte>)
    requires WellFormed(c)
    ensures ReadChunks(Encode(c) + rest)
            == match ReadChunks(rest)
               case Ok(cs) => Ok([c] + cs)
               case Err(e) => Err(e)
  {
    var s := Encode(c) + rest;
    ReadEncoded(c, rest);
    assert s[ChunkSize(c)..] == rest;
  }

  /** A first chunk that does not read aborts the loop. */
  lemma ReadChunksHeadError(s: seq<byte>)
    requires |s| > 0 && ReadChunk(s).Err?
    ensures ReadChunks(s).Err?
  {
  }

  /** Opening the file of encoded chunks reports exactly those chunks. */
  lemma OpenEncodedFile(p: string, fs: map<string, seq<byte>>, cs: seq<Chunk>)
    requires forall i :: 0 <= i < |cs| ==> WellFormed(cs[i])
    requires p in fs && fs[p] == EncodeAll(cs)
    ensures Open(Some(p), fs) == Ok(BinaryFile(p, cs))
    ensures GetNumberOfChunks(Open(Some(p), fs).value) == |cs|
  {
    ReadEncodedFile(cs);
  }

  /** Offset `k` is none of the chunk boundaries of `cs`, its start and end
      included. */
  predicate OffBoundaries(cs: seq<Chunk>, k: nat)
  {
    forall j :: 0 <= j <= |cs| ==> k != TotalSize(cs[..j])
  }

  /** A file cut anywhere except at a chunk boundary fails to read: no chunk
      is ever returned short. */
  lemma {:induction false} ReadTruncatedFile(cs: seq<Chunk>, k: nat)
    requires forall i :: 0 <= i < |cs| ==> WellFormed(cs[i])
    requires k <= |EncodeAll(cs)|
    requires OffBoundaries(cs, k)
    ensures ReadChunks(EncodeAll(cs)[..k]).Err?
    decreases |cs|
  {
    CutPointsNonEmpty(cs, k);
    var c := cs[0];
    var tl := cs[1..];
    var e := |Encode(c)|;
    EncodeAllCons(cs);
    if k < e {
      CutInFirstChunk(c, EncodeAll(tl), EncodeAll(cs), k);
    } else {
      TailCutPoints(cs, k, e);
      ReadTruncatedFile(tl, k - e);
      CutAfterFirstChunk(c, EncodeAll(tl), EncodeAll(cs), k - e, k);
    }
  }

  /** A cut that avoids every chunk boundary, the start included, lies
      inside some chunk. */
  lemma CutPointsNonEmpty(cs: seq<Chunk>, k: nat)
    requires forall i :: 0 <= i < |cs| ==> WellFormed(cs[i])
    requires k <= |EncodeAll(cs)|
    requires OffBoundaries(cs, k)
    ensures 0 < k && 0 < |cs|
  {
    assert cs[..0] == [];
  }

  /** The bytes of a non-empty chunk list start with its first chunk. */
  lemma EncodeAllCons(cs: seq<Chunk>)
    requires 0 < |cs| && (forall i :: 0 <= i < |cs| ==> WellFormed(cs[i]))
    ensures EncodeAll(cs) == Encode(cs[0]) + EncodeAll(cs[1..])
  {
  }

  /** A cut inside the first chunk leaves a chunk that does not read. */
  lemma CutInFirstChunk(c: Chunk, rest: seq<byte>, whole: seq<byte>, k: nat)
    requires WellFormed(c) && 0 < k < |Encode(c)|
    requires whole == Encode(c) + rest
    ensures ReadChunks(whole[..k]).Err?
  {
    var s := Encode(c)[..k];
    assert whole[..k] == s;
    ReadTruncated(c, k);
    ReadChunksHeadError(s);
  }

  /** A cut after the first chunk fails when the rest, cut, fails. */
  lemma CutAfterFirstChunk(c: Chunk, rest: seq<byte>, whole: seq<byte>, m: nat, k: nat)
    requires WellFormed(c) && m <= |rest|
    requires whole == Encode(c) + rest && k == |Encode(c)| + m
    requires ReadChunks(rest[..m]).Err?
    ensures ReadChunks(whole[..k]).Err?
  {
    assert whole[..k] == Encode(c) + rest[..m];
    ReadChunksCons(c, rest[..m]);
  }

  /** Cutting the file after the first chunk: a cut inside no chunk
      boundary of `cs` is inside no boundary of the remaining chunks. */
  lemma TailCutPoints(cs: seq<Chunk>, k: nat, e: nat)
    requires 0 < |cs| && (forall i :: 0 <= i < |cs| ==> WellFormed(cs[i]))
    requires e == |Encode(cs[0])| && e <= k
    requires OffBoundaries(cs, k)
    ensures OffBoundaries(cs[1..], k - e)
  {
    var tl := cs[1..];
    forall j | 0 <= j <= |tl|
      ensures k - e != TotalSize(tl[..j])
    {
      assert cs[..j + 1] == [cs[0]] + tl[..j];
      assert cs[..j + 1][1..] == tl[..j];
    }
  }
}
