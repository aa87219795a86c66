# MDCII core logic in Dafny

MDCII is a remake of the 1998 strategy game *Anno 1602*. It reads the
original game's data files and renders an isometric island world. This
project models the parts of it that decide *what* is read, computed and
stored, and leaves out how anything is drawn:

- **Reading the original files.** These are the chunked binary container of
  the game's data files (`Chunk`, `BinaryFile` of the Java TileAtlasCreator)
  and the colour palette (`STADTFLD.COL`, read by both the Java tool and the
  C++ game). There is also the run-length encoded BSH sprite format (the
  C++ `BshFile` offset table and pixel decoder).
- **The atlas packer.** The TileAtlasCreator packs the BSH sprites of each
  zoom level into grid pages, and the game's `BshTileAtlas` finds a sprite
  in those pages again.
- **Small value types of the world.** These are rotations, zoom levels,
  the render order of tiles, bounding boxes, and the gfx and animation
  frame of a terrain tile.
- **Map generation.** The island editor's bitmask passes (`IslandGenerator`)
  classify cells as terrain, embankment, coast and three depths of water.
  The second world generator (`WorldGenerator2`) links neighbours, marks
  embankments and aligns them.
- **Support code.** This covers the state stack with its queued changes,
  the string helpers of the `.cod` reader, and `FindAllOccurances`.

Every module is a set of pure functions over immutable datatypes. The
loops of the source appear as methods whose contracts tie them to those
functions.

- Errors that the source throws or leaves undefined become `Err` values of
  a `Result`. An `MDCII_ASSERT` on a caller's arguments becomes a
  `requires` instead. This applies to `RenderIndices.GetRenderIndex` and
  `IslandGenerators.GetIndex`. The palette assertion of the C++ reader is
  an `Err`, because it checks file contents.
- Files are a map from path to bytes. Chunk ids stay byte sequences.
- The C++ palette and BSH readers take their chunks from the Java chunk
  model (`Chunks`, `BinaryFiles`). The two formats are the same.
- The source's 32-bit integers are unbounded `int`/`nat` values, with the
  wrap-arounds the code relies on written out.
- Java's and C++'s truncating `/` and `%` are modelled in `CArith`.

The operations come with partners. For a reader, it is the matching writer,
proved to read back (chunks, files, palettes, BSH textures). For a packer
or index, it is its inverse (atlas placement and lookup, render indices,
rotations, grid indices). For a pass, it is an invariant the pass keeps
(terrain survives the bitmask passes; the embankment steps only touch the
cells they are meant to). For a string helper, it is an independent
definition (fields between delimiters, a search by slice comparison).

## Model

| member | source | states |
|---|---|---|
| Chunks.StreamRead | install/TileAtlasCreator/src/main/java/mdcii/Chunk.java:152-167 | a stream read returns 0 for an empty request, -1 at end of stream, and otherwise between 1 and the requested and remaining byte counts |
| Chunks.ReadData | install/TileAtlasCreator/src/main/java/mdcii/Chunk.java:152-167 | whatever the stream delivers per call, the payload loop fills min(length, available) bytes from the stream in order and leaves the rest of the buffer zero |
| Chunks.IdLength | install/TileAtlasCreator/src/main/java/mdcii/Chunk.java:126-131 | the id length is the position of the first NUL of the field, or the field length when there is none |
| Chunks.IdString | install/TileAtlasCreator/src/main/java/mdcii/Chunk.java:126-131 | the id is the NUL-free prefix of the 16-byte field up to its first NUL; an all-NUL field fails |
| Chunks.ReadChunk | install/TileAtlasCreator/src/main/java/mdcii/Chunk.java:88-183 | a chunk is read as 16 id bytes, a signed 32-bit length and that many payload bytes, in that order; each short field, an all-NUL id and a negative length have their own error, and a success consumes exactly 20 + length bytes |
| Chunks.ReadEncoded | install/TileAtlasCreator/src/main/java/mdcii/Chunk.java:88-167 | round trip: an encoded well-formed chunk reads back as the same id and payload and consumes exactly its own bytes, whatever follows |
| Chunks.IdField | install/TileAtlasCreator/src/main/java/mdcii/Chunk.java:126-131 | an id padded with NULs to 16 bytes reads back as that id |
| Chunks.LengthField | install/TileAtlasCreator/src/main/java/mdcii/Chunk.java:139-144 | a length written after the id field reads back as the same signed integer |
| Chunks.ReadTruncated | install/TileAtlasCreator/src/main/java/mdcii/Chunk.java:175-183 | every proper non-empty prefix of an encoded chunk is rejected, so a chunk is never returned short |
| Bytes.I32At | install/TileAtlasCreator/src/main/java/mdcii/Chunk.java:139-144 | the length field is a two's-complement 32-bit value; it is non-negative exactly when its unsigned reading is below 2^31 |
| Bytes.U32RoundTrip | install/TileAtlasCreator/src/main/java/mdcii/Chunk.java:139-144 | a 32-bit value written little-endian reads back as itself |
| BinaryFiles.ReadChunks | install/TileAtlasCreator/src/main/java/mdcii/BinaryFile.java:131-144 | chunks are appended in file order while bytes remain; on success the chunk sizes (20 + length each) add up to the file size, and the first chunk is the one the first read returns |
| BinaryFiles.Open | install/TileAtlasCreator/src/main/java/mdcii/BinaryFile.java:64-70 | a null path is refused before any read, a missing file cannot be opened, and otherwise opening succeeds exactly when the chunk loop does |
| BinaryFiles.GetNumberOfChunks | install/TileAtlasCreator/src/main/java/mdcii/BinaryFile.java:99-101 | the count is the number of chunks read, and each of them took at least 20 bytes of the file |
| BinaryFiles.GetChunk | install/TileAtlasCreator/src/main/java/mdcii/BinaryFile.java:110-112 | chunk i is returned for 0 <= i < getNumberOfChunks and any other index is an out-of-bounds error |
| BinaryFiles.ChunkIndexHasId | install/TileAtlasCreator/src/main/java/mdcii/BinaryFile.java:122-124 | for an index in range, the answer is true exactly when that chunk's id equals the given id |
| BinaryFiles.ReadEncodedFile | install/TileAtlasCreator/src/main/java/mdcii/BinaryFile.java:131-144 | round trip: a file written chunk after chunk reads back as the same chunks in the same order |
| BinaryFiles.ReadChunksCons | install/TileAtlasCreator/src/main/java/mdcii/BinaryFile.java:140-143 | an encoded chunk in front of any bytes is read first, and the loop goes on with the bytes after it |
| BinaryFiles.OpenEncodedFile | install/TileAtlasCreator/src/main/java/mdcii/BinaryFile.java:64-144 | opening a file of encoded chunks reports exactly those chunks, and their number |
| BinaryFiles.ReadTruncatedFile | install/TileAtlasCreator/src/main/java/mdcii/BinaryFile.java:140-143 | a file of encoded chunks that is cut anywhere other than a chunk boundary fails to read |
| Palettes.JavaReadDataFromChunks | install/TileAtlasCreator/src/main/java/mdcii/PaletteFile.java:106-122 | the palette has 256 entries, and entry i is built from bytes 4i, 4i+1 and 4i+2 with alpha 255; fewer than 1024 bytes underflow the buffer |
| Palettes.JavaPaletteFromFile | install/TileAtlasCreator/src/main/java/mdcii/PaletteFile.java:72-86 | a chunk count other than 1 is refused first, then a first-chunk id other than "COL" |
| Palettes.JavaPaletteFile | install/TileAtlasCreator/src/main/java/mdcii/PaletteFile.java:64-86 | a null path fails as the binary file does, and every failure to open the file is the palette's failure; otherwise the palette is the one read from the opened file, and it exists exactly when the file opens and passes the checks |
| Palettes.JavaPaletteDeterministic | install/TileAtlasCreator/src/main/java/mdcii/PaletteFile.java:106-122 | the palette depends only on the first 1024 payload bytes |
| Palettes.JavaPaletteOfEncodedFile | install/TileAtlasCreator/src/main/java/mdcii/PaletteFile.java:72-122 | a file written as one "COL" chunk of 1024 bytes opens, and gives the colour of each group whatever its fourth byte holds |
| Palettes.RgbTo32BitInt | src/file/PaletteFile.cpp:54-62 | the packed colour has alpha 0xFF in the top byte, then red, green and blue, each recoverable by shift and mask |
| Palettes.CppCheckFile | src/file/PaletteFile.cpp:15-18 | the C++ reader accepts a file exactly when it has a chunk 0 with id "COL"; it does not count the chunks |
| Palettes.CppReadGroups | src/file/PaletteFile.cpp:36-43 | the loop stepping by 4 succeeds exactly when the payload ends on a full group or a three-byte group; group k gives the colour of bytes 4k .. 4k+2 |
| Palettes.CppReadDataFromChunks | src/file/PaletteFile.cpp:30-48 | a palette that passes the assertion has exactly 256 colours |
| Palettes.CppAcceptedLengths | src/file/PaletteFile.cpp:30-48 | the C++ reader accepts exactly the payloads of 1023 and 1024 bytes |
| Palettes.CppAgreesWithJava | src/file/PaletteFile.cpp:30-62 | on a 1024-byte payload the C++ and the Java reader build the same palette |
| BshFiles.ReadOffsets | src/file/BshFile.cpp:30-43 | the first offset is always kept, followed by offsets 1 .. firstOffset / 4 - 1, each the little-endian word at 4i; a table reaching past the payload is an error |
| BshFiles.WriteAt | src/file/BshFile.cpp:98-111 | writing s at `at` changes exactly the indices at .. at + \|s\| - 1 of the index buffer |
| BshFiles.DecodeStep | src/file/BshFile.cpp:82-111 | the end marker ends the loop with the buffer as it is; a pass that goes on consumes at least one byte of the runs and keeps the buffer at width * height entries |
| BshFiles.DecodeRuns | src/file/BshFile.cpp:82-112 | the run loop keeps the index buffer at width * height entries |
| BshFiles.DecodePixelData | src/file/BshFile.cpp:58-115 | a header beyond the payload and a zero width or height are errors; a decoded texture has that width and height and width * height indices |
| BshFiles.DecodeAll | src/file/BshFile.cpp:48-51 | one texture per offset, in offset order, and the first failing offset fails the whole file |
| BshFiles.ReadDataFromChunks | src/file/BshFile.cpp:25-52 | without a chunk the reader fails; otherwise the textures are those of the offset table of chunk 0 |
| BshFiles.DecodeRun | src/file/BshFile.cpp:98-111 | a run of a transparent and n opaque pixels that fits writes a zeros and then its n bytes at the cursor, and the loop goes on after the run with the cursor a + n columns further |
| BshFiles.DecodeAlphaRun | src/file/BshFile.cpp:98-102 | a run of only transparent pixels writes that many zeros (palette index 0) at the cursor and moves the cursor past them |
| BshFiles.DecodeRow | src/file/BshFile.cpp:82-112 | decoding an encoded row of alpha and pixel runs writes the row's pixels at the cursor, zeros for its transparent ones, and moves the cursor past them; an empty row writes nothing and leaves the cursor in place |
| BshFiles.DecodeEndOfRow | src/file/BshFile.cpp:91-96 | the end-of-row marker moves the cursor to column 0 of the next row |
| BshFiles.DecodeRowsFrom | src/file/BshFile.cpp:82-112 | decoding encoded rows writes them row after row and stops at the end marker |
| BshFiles.DecodePixelDataOfRuns | src/file/BshFile.cpp:58-115 | with a valid header, the texture holds whatever the runs decode to |
| BshFiles.EncodedHeader | src/file/BshFile.cpp:58-70 | the header of an encoded texture reads back as its width and height, at any offset |
| BshFiles.DecodeEncodedTexture | src/file/BshFile.cpp:58-115 | round trip: a texture encoded as header and rows of runs, with their alpha counts, placed at any offset of a payload, decodes to its own width, height and palette indices |
| BshFiles.SplitRow | src/file/BshFile.cpp:98-111 | every row of palette indices splits into runs the loop accepts (at most 253 transparent and 255 opaque pixels each), whose pixels are opaque and which expand back to the row |
| BshFiles.DecodeSplitTexture | src/file/BshFile.cpp:58-115 | round trip: every rectangle of palette indices, written with alpha runs for its index-0 pixels, decodes to the same indices |
| AtlasCreator.Cells | install/TileAtlasCreator/src/main/java/mdcii/AtlasCreator.java:106-137 | the cells of a page with rows fill exactly that many rows of that many cells, the loops' y and x ranges |
| AtlasCreator.PageDrawsStep | install/TileAtlasCreator/src/main/java/mdcii/AtlasCreator.java:121-129 | visiting one more cell adds that cell's draw exactly when its sprite exists |
| AtlasCreator.CreateAtlas | install/TileAtlasCreator/src/main/java/mdcii/AtlasCreator.java:106-137 | the three nested loops produce one page per atlas image of the tier, each equal to the closed-form page (size cellWidth·R by cellHeight·R, sprite page·R² + cell drawn at its cell) |
| AtlasCreator.SpritePlacement | install/TileAtlasCreator/src/main/java/mdcii/AtlasCreator.java:106-131 | sprite k = page·R² + cell is drawn on that page at pixel (cell % R · cellWidth, cell / R · cellHeight) |
| AtlasCreator.SpriteLookup | src/resource/BshTileAtlas.cpp:59-69 | the game looks sprite k up on the same page, column and row the packer put it on |
| AtlasCreator.PlacementCoordinates | install/TileAtlasCreator/src/main/java/mdcii/AtlasCreator.java:106-137 | every sprite within capacity has a page of the tier and a cell of the page |
| AtlasCreator.DrawsAreExistingSprites | install/TileAtlasCreator/src/main/java/mdcii/AtlasCreator.java:121-129 | every drawn sprite exists and lies within capacity; cells past the last sprite stay transparent |
| AtlasCreator.CellInsidePage | install/TileAtlasCreator/src/main/java/mdcii/AtlasCreator.java:109-131 | every cell's pixel rectangle lies inside its page |
| AtlasCreator.SpritesBeyondCapacityAreDropped | install/TileAtlasCreator/src/main/java/mdcii/AtlasCreator.java:107-133 | a sprite at or beyond pages·R² is drawn on no page |
| AtlasCreator.AtlasFileNames | install/TileAtlasCreator/src/main/java/mdcii/AtlasCreator.java:268-290 | page c is written to the directory path followed by the decimal number c and ".png", in page order |
| AtlasCreator.AtlasFileNamesDistinct | install/TileAtlasCreator/src/main/java/mdcii/AtlasCreator.java:268-290 | no two pages are written to the same file |
| Decimal.NatToString | install/TileAtlasCreator/src/main/java/mdcii/AtlasCreator.java:274 | a page number is printed as decimal digits without leading zeros |
| Decimal.ParseNatToString | install/TileAtlasCreator/src/main/java/mdcii/AtlasCreator.java:274 | reading the printed digits back gives the number |
| Decimal.NatToStringInjective | install/TileAtlasCreator/src/main/java/mdcii/AtlasCreator.java:274 | different numbers print differently |
| AtlasLookup.GetAtlasIndex | src/resource/BshTileAtlas.cpp:59-62 | for g >= 0 and rows > 0, the page is the one whose rows² cells hold g: g minus page·rows² lies in 0 .. rows² - 1 |
| AtlasLookup.GetAtlasOffset | src/resource/BshTileAtlas.cpp:64-69 | for g >= 0 and rows > 0, column and row lie in 0 .. rows - 1, and row·rows + column is g's cell on its page |
| AtlasLookup.LookupInverse | src/resource/BshTileAtlas.cpp:59-69 | for g >= 0 and rows > 0, both offsets lie in [0, rows), and page, row and column give g back |
| AtlasLookup.LookupOfPosition | src/resource/BshTileAtlas.cpp:59-69 | every page, row and column inside the grid is found again from its gfx number |
| Rotations.IntToRotation | src/world/Rotation.h:75-83 | the values 0 .. 3 convert to the rotation of that value and every other value throws |
| Rotations.IntToRotationRoundTrip | src/world/Rotation.h:75-83 | every rotation converts back from its own value |
| Rotations.Next | src/world/Rotation.h:43-55 | ++ steps one rotation clockwise and stays at DEG270 |
| Rotations.Prev | src/world/Rotation.h:57-69 | -- steps one rotation back and stays at DEG0 |
| Rotations.NextPrev | src/world/Rotation.h:43-69 | ++ and -- undo each other except at the saturated ends, and three steps reach either end |
| Rotations.RotatePositionInverses | src/world/Rotation.h:89-117 | DEG0 keeps a position, DEG180 is its own inverse, and DEG270 on the exchanged size undoes DEG90 and the reverse |
| Rotations.RotatePosition | src/world/Rotation.h:89-117 | DEG0 and DEG180, and every rotation on a square map, map a position on the map to one on the map and a position off it to one off it |
| Rotations.Add | src/world/Rotation.h:123-127 | the sum of two rotations is the sum of their values modulo 4 |
| Rotations.Sub | src/world/Rotation.h:129-133 | the difference is the difference of the values plus 4, modulo 4 |
| Rotations.AddSubInverse | src/world/Rotation.h:123-133 | - undoes + and + undoes - |
| Rotations.AddNeutral | src/world/Rotation.h:123-133 | DEG0 is neutral and a rotation minus itself is DEG0 |
| Rotations.AddCommutative | src/world/Rotation.h:123-127 | + is commutative |
| Rotations.AddAssociative | src/world/Rotation.h:123-127 | + is associative |
| RenderIndices.GetRenderIndex | src/world/tile/Tile.cpp:54-67 | for DEG0 and DEG180, and for every rotation on a square map, the index of a cell lies in 0 .. width·height - 1 |
| RenderIndices.RenderIndexDeg0 | src/world/tile/Tile.cpp:54-67 | DEG0 numbers the cells row by row in 0 .. width·height - 1, and the cell is recovered from the index |
| RenderIndices.RenderIndexDeg0Onto | src/world/tile/Tile.cpp:54-67 | every index below width·height is the DEG0 index of exactly one cell |
| RenderIndices.RenderIndexDeg180 | src/world/tile/Tile.cpp:54-67 | DEG180 visits the cells in the reverse DEG0 order |
| RenderIndices.RenderIndexInjective | src/world/tile/Tile.cpp:54-67 | for every rotation, two cells never share a render index |
| RenderIndices.CalcRenderPositions | src/world/tile/Tile.cpp:69-76 | a tile gets four indices, the one for each rotation in rotation order |
| Zooms.ZoomIn | src/world/Zoom.h:53-65 | ++ zooms in one level and stays at GFX |
| Zooms.ZoomOut | src/world/Zoom.h:67-79 | -- zooms out one level and stays at SGFX |
| Zooms.ZoomInOut | src/world/Zoom.h:53-79 | ++ and -- undo each other except at the ends, and two steps reach either end |
| Zooms.TileWidth | src/world/Zoom.h:85-101 | a tile is 16 pixels wide at SGFX, and each level in doubles that |
| Zooms.TileHeight | src/world/Zoom.h:85-102 | a tile is 8 pixels high at SGFX, and each level in doubles that |
| Zooms.TileWidthHalf | src/world/Zoom.h:85-104 | the half width is exactly half the tile width, with nothing lost to the integer division |
| Zooms.TileHeightHalf | src/world/Zoom.h:85-105 | the half height is exactly half the tile height, with nothing lost to the integer division |
| Zooms.Elevation | src/world/Zoom.h:95-107 | the elevation is 5 pixels at SGFX, and each level in doubles it |
| Zooms.TileSizeValues | src/world/Zoom.h:113-133 | the tile sizes, half sizes and elevations are the values the source checks with static_assert |
| Zooms.TileSizeShape | src/world/Zoom.h:85-107 | at every zoom a tile is twice as wide as high with exact halves, and zooming in doubles the sizes and the elevation |
| Physics.PointVsAabb | src/physics/Aabb.h:73-80 | only a box with positive width and height holds a point |
| Physics.AabbVsAabb | src/physics/Aabb.h:90-97 | boxes that both hold the corner made of the larger coordinates of their positions collide, and non-empty boxes that collide both hold that corner |
| Physics.PointVsAabbCorners | src/physics/Aabb.h:73-80 | the corner at the box position is inside exactly when the box is not empty, and the opposite corner never is |
| Physics.AabbVsAabbSymmetric | src/physics/Aabb.h:90-97 | the box-box test is symmetric |
| Physics.TouchingBoxesDoNotCollide | src/physics/Aabb.h:90-97 | boxes that only touch along an edge do not collide |
| Physics.CollisionIsCommonPoint | src/physics/Aabb.h:73-97 | for non-empty boxes, the box-box test holds exactly when some point passes the point test of both |
| TerrainTiles.CalculateGfx | src/world/tile/TerrainTile.cpp:89-110 | a rotatable building has four views and any other building one; view k is k rotate steps after the base gfx, and all views of a big building move by the same part offset |
| TerrainTiles.BigBuildingOffset | src/world/tile/TerrainTile.cpp:112-148 | every part of a big building's footprint finds a picture inside its width·height picture set, for every rotation |
| TerrainTiles.BigBuildingOffsetInjective | src/world/tile/TerrainTile.cpp:112-148 | two parts of one footprint never share a picture |
| TerrainTiles.HasBuildingAboveWaterAndCoast | src/world/tile/TerrainTile.cpp:52-55 | the answer is true exactly when the tile has a building and that building's posoffs is positive |
| TerrainTiles.AnimTimeIndex | src/world/tile/TerrainTile.cpp:61-83 | the known animation times are exactly 90, 130, 150, 180 and 220, each with its own frame value |
| TerrainTiles.UpdateFrame | src/world/tile/TerrainTile.cpp:61-83 | an unknown animation time gives frame 0, a known time with no frames divides by zero, and a known time with frames gives its running value modulo the frame count (C++ `%`) |
| TerrainTiles.UpdateFrameInRange | src/world/tile/TerrainTile.cpp:61-83 | with a positive frame count and a non-negative frame value, the frame is that value modulo the count, one of the building's frames |
| IslandGenerators.GetIndex | src/world/generator/IslandGenerator.cpp:664-671 | the index of a cell is non-negative, and for x < width it gives x back as i % width and y as i / width |
| IslandGenerators.GetIndexBijective | src/world/generator/IslandGenerator.cpp:664-671 | the row-major index numbers the cells 0 .. width·height - 1, one per cell |
| IslandGenerators.CellOfIndex | src/world/generator/IslandGenerator.cpp:664-671 | every index of the map is the index of the cell (i % width, i / width) |
| IslandGenerators.NeighbourValue | src/world/generator/IslandGenerator.cpp:174-292 | a neighbour getter yields its direction's flag exactly when the neighbour is off the map or water, and 0 otherwise |
| IslandGenerators.NeighbourSumRange | src/world/generator/IslandGenerator.cpp:728-774 | the neighbour part of a bitmask lies in 0 .. 255, and is 0 exactly when no neighbour is water or off the map and 255 exactly when all are |
| IslandGenerators.CellBitmask | src/world/generator/IslandGenerator.cpp:728-774 | a cell's bitmask is its pass's base value plus 0 .. 255; it is the base exactly when no neighbour is water or off the map, and base + 255 exactly when all are |
| IslandGenerators.Bitmask2MapType | src/world/generator/IslandGenerator.cpp:683-715 | each band of bitmask values stands for one map type, and 511, 767 and 1023 stand for none |
| IslandGenerators.AddMapType | src/world/generator/IslandGenerator.cpp:717-814 | the row-by-row pass writes each cell's bitmask (or keeps it, for types an earlier pass settled) and then gives the pass's type to every cell whose bitmask stands for it |
| IslandGenerators.Pass | src/world/generator/IslandGenerator.cpp:717-814 | a pass keeps the map's size, and each cell keeps its type or takes the pass's type |
| IslandGenerators.CalcBitmaskValues | src/world/generator/IslandGenerator.cpp:157-168 | the bitmasks are resized to one per cell and zeroed, then the four passes run in their fixed order |
| IslandGenerators.CalcBitmasks | src/world/generator/IslandGenerator.cpp:157-168 | bitmasking keeps the map valid, with one bitmask per cell |
| IslandGenerators.PassKeepsTerrain | src/world/generator/IslandGenerator.cpp:717-814 | a pass never changes a terrain cell: the embankment pass gives it a bitmask in the terrain band, and later passes do not write it |
| IslandGenerators.CalcBitmasksKeepsTerrain | src/world/generator/IslandGenerator.cpp:157-168 | bitmasking never creates or removes land, and every other cell ends as it was or as one of the four pass types |
| IslandGenerators.EmbankmentPassOnWater | src/world/generator/IslandGenerator.cpp:717-814 | in the embankment pass a water cell with a land neighbour becomes embankment, and a water cell with none stays water |
| IslandGenerators.UpdateBySelection | src/world/generator/IslandGenerator.cpp:833-863 | an index off the map throws; water, terrain and the two shallower waters store a bitmask that stands for the selected type; other types need a tile table and store its key |
| IslandGenerators.LastMatch | src/world/generator/IslandGenerator.cpp:833-863 | the table loop keeps the last entry whose tile type is the button, or finds none |
| IslandGenerators.Reset | src/world/generator/IslandGenerator.cpp:673-681 | reset empties the map and the bitmasks and keeps the size |
| IslandGenerators.WriteBitmasks | src/world/generator/IslandGenerator.cpp:728-774 | the nested loops write the bitmask of every cell the pass writes, and keep the others |
| IslandGenerators.WriteRow | src/world/generator/IslandGenerator.cpp:728-774 | the inner loop finishes one row and touches no later cell |
| IslandGenerators.Reclassify | src/world/generator/IslandGenerator.cpp:804-813 | a cell takes the pass's type exactly when its bitmask stands for it, and keeps its type otherwise |
| WorldGenerators.GetIndex | src/world/WorldGenerator2.cpp:593-596 | for 0 <= x < width and y >= 0, the index is non-negative and gives x back as i % width and y as i / width |
| WorldGenerators.GetIndexBijective | src/world/WorldGenerator2.cpp:593-596 | the row-major index numbers the cells 0 .. width·height - 1, one per cell |
| WorldGenerators.CellOfIndex | src/world/WorldGenerator2.cpp:593-596 | the cell of an index is column i % width, row i / width |
| WorldGenerators.LinkedNeighbors | src/world/WorldGenerator2.cpp:156-204 | linking keeps eight neighbour slots |
| WorldGenerators.Stored | src/world/WorldGenerator2.cpp:152-205 | storing neighbours keeps the map's size and shape |
| WorldGenerators.LinkCell | src/world/WorldGenerator2.cpp:156-204 | the eight bound tests of one position store exactly the on-grid neighbours' indices |
| WorldGenerators.StoreNeighbors | src/world/WorldGenerator2.cpp:152-205 | the row-by-row loops link every position and change nothing else |
| WorldGenerators.StoreRow | src/world/WorldGenerator2.cpp:156-204 | the inner loop links one row and touches no later position |
| WorldGenerators.NeighborTable | src/world/WorldGenerator2.cpp:152-205 | on a fresh map, slot d of (x, y) is -1 exactly when the neighbour in direction d is off the grid, and that neighbour's index otherwise |
| WorldGenerators.NeighborsSymmetric | src/world/WorldGenerator2.cpp:152-205 | if (x, y) names j as its neighbour in direction d, then j names (x, y) in the opposite direction |
| WorldGenerators.StoredIsLinked | src/world/WorldGenerator2.cpp:152-205 | every slot of a linked fresh map is -1 or a position of the map, so the lookups by slot never throw |
| WorldGenerators.AnyWater | src/world/WorldGenerator2.cpp:598-608 | the any_of over the slots holds exactly when some slot names a water position |
| WorldGenerators.IsMapTerrainPositionOnSeaSide | src/world/WorldGenerator2.cpp:598-608 | a position is on the sea side exactly when it is terrain and some slot names water |
| WorldGenerators.SeaSideOfStored | src/world/WorldGenerator2.cpp:598-608 | after linking a fresh map, a position is on the sea side exactly when it is terrain and one of its on-grid neighbours is water |
| WorldGenerators.EmbankedChanges | src/world/WorldGenerator2.cpp:300-314 | only terrain positions with a water neighbour change, only to embankment, and nothing but the map value changes |
| WorldGenerators.AddEmbankment | src/world/WorldGenerator2.cpp:300-314 | the in-place loop gives the same result as the position-wise definition, because later tests read only water, which it never changes |
| WorldGenerators.SameWaterSameSeaSide | src/world/WorldGenerator2.cpp:598-608 | the sea-side test reads only which positions are water |
| WorldGenerators.FlagOf | src/world/WorldGenerator2.cpp:323-355 | from a zero flag, each direction bit is set exactly when that neighbour is embankment; a flag of at most 15 stays so |
| WorldGenerators.FlaggedMap | src/world/WorldGenerator2.cpp:323-355 | the flag loop changes no map value |
| WorldGenerators.AlignedValue | src/world/WorldGenerator2.cpp:358-468 | only embankment changes; it becomes one of the ids 2 .. 13, straight pieces only for flag 5 or 10 and corners only for flags 3, 6, 9 and 12 |
| WorldGenerators.AlignPosition | src/world/WorldGenerator2.cpp:358-468 | the ten tests of the id loop, run in source order on one position, yield the id table's value |
| WorldGenerators.AlignEmbankment | src/world/WorldGenerator2.cpp:316-469 | the flag loop and then the id loop, both in place, give the position-wise result |
| WorldGenerators.SetFlags | src/world/WorldGenerator2.cpp:323-355 | the in-place flag loop gives the position-wise flags |
| WorldGenerators.SetIds | src/world/WorldGenerator2.cpp:358-468 | the in-place id loop gives the position-wise ids |
| WorldGenerators.SameBanksSameFlag | src/world/WorldGenerator2.cpp:323-355 | the flag reads only which positions are embankment |
| WorldGenerators.SameGroundSameAlignment | src/world/WorldGenerator2.cpp:358-468 | the id table reads only which positions are terrain and which are water |
| WorldGenerators.AlignEmbankmentOnlyBanks | src/world/WorldGenerator2.cpp:316-469 | every position that is not embankment is unchanged; an embankment keeps its place and neighbours and ends as embankment or one of the ids 2 .. 13 |
| StateStacks.PushState | src/state/StateStack.cpp:23-27 | a push is queued after the earlier changes and leaves the stack alone |
| StateStacks.PopState | src/state/StateStack.cpp:29-33 | a pop naming the expected top state is queued after the earlier changes |
| StateStacks.ClearStates | src/state/StateStack.cpp:35-39 | a clear is queued after the earlier changes |
| StateStacks.ApplyChange | src/state/StateStack.cpp:99-124 | a push succeeds exactly when the state has a factory and appends it; a pop succeeds exactly when the top state has its id and removes it; a clear empties the stack |
| StateStacks.ApplyPendingChanges | src/state/StateStack.cpp:99-124 | applying the queue empties it, keeps the factories, and fails exactly when one of the changes fails |
| StateStacks.ApplyAllAppend | src/state/StateStack.cpp:101-121 | changes apply in queue order: a + b is a, then b on the result |
| StateStacks.PushIsApplied | src/state/StateStack.cpp:89-124 | a queued push of a registered state puts it on top of the stack the earlier changes leave |
| StateStacks.PushWithoutFactoryFails | src/state/StateStack.cpp:89-97 | a queued push of a state without a factory fails |
| StateStacks.PushPopCancel | src/state/StateStack.cpp:99-124 | a push followed by a pop of the same state leaves the stack as it was |
| StateStacks.InvalidPopFails | src/state/StateStack.cpp:99-124 | a pop of a state that is not on top fails |
| StateStacks.ClearForgetsEarlierStates | src/state/StateStack.cpp:99-124 | after a clear only the later changes matter |
| StateStacks.ApplyAllKeepsRegistered | src/state/StateStack.cpp:89-124 | every state on the stack has a registered factory, before and after the changes |
| StateStacks.ApplyAllGrowth | src/state/StateStack.cpp:99-124 | the stack grows by at most one state per queued push |
| StateStacks.Dispatch | src/state/StateStack.cpp:45-65 | states are visited top to bottom while the stack stays untouched, and the changes they request are applied afterwards, in order |
| StdString.MatchAtSlice | src/cod/CodHelper.cpp:196-205 | the character-by-character match is the comparison of the slice with the pattern |
| StdString.Find | src/cod/CodHelper.cpp:196-205 | find returns the first match at or after the start position, or nothing when there is no match |
| StdString.FindFirstNotOf | src/cod/CodHelper.cpp:182-194 | find_first_not_of returns the first position whose character is not in the set, and every earlier one is |
| StdString.FindLastNotOf | src/cod/CodHelper.cpp:149-155 | find_last_not_of returns the last position whose character differs, and every later one equals it |
| CodHelper.SplitByDelimiter | src/cod/CodHelper.cpp:207-218 | an empty string has no tokens; tokens are non-empty, start with no delimiter character and contain no delimiter |
| CodHelper.SplitFromIsFields | src/cod/CodHelper.cpp:207-218 | with a one-character delimiter, the loop from any position gives the non-empty fields of the rest of the string |
| CodHelper.SplitIsNonEmptyFields | src/cod/CodHelper.cpp:207-218 | with a one-character delimiter, the tokens are exactly the non-empty fields between delimiters, in order |
| CodHelper.FieldsContent | src/cod/CodHelper.cpp:207-218 | the fields together are the string without its delimiters |
| CodHelper.SplitContent | src/cod/CodHelper.cpp:207-218 | the tokens are non-empty, free of the delimiter, and together the string without its delimiters |
| CodHelper.TrimCommentFromLine | src/cod/CodHelper.cpp:220-223 | the pieces of a line are non-empty and contain no ';' |
| CodHelper.TrimCommentKeepsCode | src/cod/CodHelper.cpp:220-223 | the code before the first ';' is the first piece |
| CodHelper.IsEmpty | src/cod/CodHelper.cpp:182-194 | a string is empty exactly when every character is a space |
| CodHelper.IsSubstring | src/cod/CodHelper.cpp:196-205 | the answer is true exactly when the pattern occurs somewhere in the string |
| CodHelper.BeginsWith | src/cod/CodHelper.cpp:225-233 | the answer is true exactly when the string starts with the prefix |
| CodHelper.BeginsWithPrefix | src/cod/CodHelper.cpp:196-233 | a string begins with its prefixes, and a prefix is a substring |
| CodHelper.RemoveDigits | src/cod/CodHelper.cpp:235-243 | no digit is left, and every other character keeps its count |
| CodHelper.RemoveDigitsAppend | src/cod/CodHelper.cpp:235-243 | order is kept: removing digits from a + b removes them from a and from b |
| CodHelper.RemoveDigitsNoDigits | src/cod/CodHelper.cpp:235-243 | a string without digits is unchanged |
| CodHelper.RemoveDigitsIdempotent | src/cod/CodHelper.cpp:235-243 | removing digits twice is removing them once |
| CodHelper.RemoveTrailingCharacters | src/cod/CodHelper.cpp:149-155 | the result is the prefix that ends before the run of trailing c's: everything cut is c, and the result does not end in c |
| CodHelper.RemoveTrailingIdempotent | src/cod/CodHelper.cpp:149-155 | stripping twice is stripping once |
| CodHelper.RemoveTrailingAppend | src/cod/CodHelper.cpp:149-155 | one more trailing c changes nothing |
| ResourceUtil.Occurrences | src/ogl/resource/ResourceUtil.h:47-61 | the reported positions are matches at or after the start, increasing and non-overlapping |
| ResourceUtil.FindAllOccurances | src/ogl/resource/ResourceUtil.h:47-61 | the loop appends to the output vector exactly the leftmost non-overlapping matches, in order |
| ResourceUtil.OccurrencesComplete | src/ogl/resource/ResourceUtil.h:47-61 | no match is missed: every occurrence is reported or starts inside a reported one |
| ResourceUtil.SingleCharOccurrences | src/ogl/resource/ResourceUtil.h:47-61 | for a one-character needle, the positions are exactly those of that character |
| ResourceUtil.OccurrencesBound | src/ogl/resource/ResourceUtil.h:47-61 | the matches use distinct characters, so their count times the needle length is at most the text length |

## Left out

- Everything that draws or plays. This covers the OpenGL renderer, ImGui
  windows, sound, the PNG writing of the atlas pages (their file names are
  modelled) and the sprite drawing itself. A page is its size and the list
  of draws made into it.
- File I/O is a map from path to bytes. The stream's per-call read size
  is a parameter (`grain`) of `Chunks.ReadData`. The model shows the
  outcome does not depend on it.
- Integers stored in the files are read little-endian. The C++ and the
  Java both read them in the platform's native order, which is
  little-endian on the platforms the game data comes from.
- 32-bit overflow of `int` arithmetic is not modelled, because the sizes
  and positions involved stay far below 2^31. The one place where the
  sign of a 32-bit value matters, the Java chunk length, keeps its sign.
- `WorldGenerator2::CreateElevations` and
  `SplitElevationsInWaterAndTerrain` are not modelled. They use Perlin
  noise over doubles. A position's map value is the input of the
  embankment steps instead.
- `WorldGenerators.FlagOf`: the source assigns the NORTH bit with `=` and
  ORs in the other three bits. A flag that was not zero before the loop
  therefore keeps some old bits. The model reproduces this, and states the
  exact bit pattern only for a flag that starts at zero, which is what a
  new position has.
- `WorldGenerators.StoredIsLinked`: the source's `positions.at(i)` throws
  for a slot outside the map (lines 330-468 and 605). The model does not
  throw. In the sea-side test and the flag and id loops, a slot outside
  the map reads as "not that type" (`NeighborIs`). The embankment steps
  accept any valid map. `StoredIsLinked` proves that a map linked by
  `StoreNeighbors` has no such slot, so on that map the source never
  throws either.
- `src/world/generator/IslandGenerator.h` is not part of this model. The
  flag values 0 .. 768 come from the enum of the older
  `src/world/IslandGenerator.h` (lines 112-127). `MEDIUM_FLAG` = 1024 and
  `WATER_FLAG` = 1279 are in neither header here. They are inferred from
  the value bands of `Bitmask2MapTypeCol`.
- `IslandGenerators.UpdateBySelection`: the tile-type table comes from an
  `unordered_map` whose iteration order is unspecified. It is a parameter,
  as a sequence of (key, tile type) pairs. `IsTileTypeKnown` and
  `GetTileType` are folded into whether that table is present. The colour
  half of `Bitmask2MapTypeCol` is left out. When the table is missing, the
  source has already written the selected type to `m_map` (line 835)
  before `at` throws (line 855). The model returns the error and drops
  that partial write.
- `TerrainTiles.CalculateGfx`: a building is reduced to the fields this
  logic reads. Its `IsRotatable` and `IsBig` are stated from its `rotate`
  step and its footprint.
- `TerrainTiles.UpdateFrame`: the running frame values per animation time
  are a parameter, because the clock that advances them is outside the
  core.
- `StateStacks.Dispatch`: a state is its id. The changes each state
  requests while it is visited are a parameter. `Render` and the states'
  own behaviour are left out.
- `ResourceUtil.FindAllOccurances` requires a non-empty search string.
  With an empty one the source finds it at the same position forever.
- `CodHelper.SplitByDelimiter` requires a non-empty delimiter or an empty
  string. An empty string gives no tokens whatever the delimiter. With an
  empty delimiter, any other string makes the source loop forever.
- `CodHelper.RemoveDigits`: `std::isdigit` is taken in the C locale, so
  only '0' .. '9' count as digits.
- `CodHelper::RemoveLeadingCharacters` and
  `CodHelper::TrimSpacesLeadingTrailing` are not modelled, because nothing
  else in the core uses them. The parser that uses the helpers (`CodParser`)
  is left out too.
- `BshFiles.DecodeRuns`: the C++ computes the buffer index as y * width + x.
  The model keeps the start of the current row instead of y, which is the
  same value. Reads past the end of the runs, and writes past the index
  buffer, are undefined behaviour in the source. They are errors here.
  Because of this, the alpha zeros and the pixels of a run are one write
  (`DecodeStep`): both bounds are checked first. The contract of
  `DecodeRuns` states only the buffer size. Runs are stated by
  `DecodeStep`, `DecodeRun`, `DecodeAlphaRun` and `DecodeEndOfRow`.
- `BshFiles.DecodeEncodedTexture`: the round trip covers textures whose
  runs stay inside their row. The decoder also accepts a run that goes on
  into the next row, and the encoder never writes one.
- `Chunks.IdString`: Java builds the id with `new String(bytes)` in the
  platform charset. The model keeps the id as its bytes.
- The Java `BshTexture` class and the config loader are not modelled,
  because they only convert and draw images.
- `Palettes.JavaReadDataFromChunks`: the Java `Util` class is not part of
  this model. `Util.byteToInt` is taken as the unsigned value of a byte.
  `Util.rgbToInt` is taken to pack as `RgbTo32BitInt` does: alpha 0xFF,
  then red, green and blue. `Palettes.CppAgreesWithJava` therefore shows
  that both readers take the same bytes of the same groups. That the two
  packings agree is assumed, not proved.
