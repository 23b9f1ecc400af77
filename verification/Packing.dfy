/** `pack.rs`: between a directory tree of tiles and a flat MBTiles file. */
module Packing {
  import opened Sql
  import opened Tilesets
  import opened Databases
  import opened TileCoords
  import opened TileWriter

  datatype Format = Gif | Jpeg | Json | Mvt | Mlt | Png | Webp | Avif
  datatype Encoding = Uncompressed | Internal | Gzip | Zlib

  datatype TileScheme = Xyz | Tms
  datatype PackCompression = Auto | NoCompression | GzipAll

  datatype PackError =
    | UnsupportedFileExtension
    | InconsistentTileFormats
    | CannotDecode
    | CannotEncode
    | DuplicateTile
    | Panic
    | NoFormatInMetadata
    | InvalidTileIndex

  /** The codecs, and whether plain bytes look like a format that is compressed internally. */
  datatype Codecs = Codecs(
    gunzip: Bytes -> Option<Bytes>,
    unzlib: Bytes -> Option<Bytes>,
    gzip: Bytes -> Option<Bytes>,
    looksInternal: Bytes -> bool)
  {
    /** Gzip output carries the gzip magic number and decodes to what went in. */
    ghost predicate Sound() {
      forall plain :: gzip(plain).Some? ==>
        HasPrefix(gzip(plain).value, 0x1f, 0x8b) && gunzip(gzip(plain).value) == Some(plain)
    }
  }

  predicate HasPrefix(data: Bytes, a: Byte, b: Byte) {
    |data| >= 2 && data[0] == a && data[1] == b
  }

  /** Detection goes by the magic numbers of gzip and zlib. */
  function Detect(data: Bytes, codecs: Codecs): Encoding {
    if HasPrefix(data, 0x1f, 0x8b) then Gzip
    else if HasPrefix(data, 0x78, 0x9c) then Zlib
    else if codecs.looksInternal(data) then Internal
    else Uncompressed
  }

  /** The contents of a tile, decoded once. */
  function Plain(data: Bytes, codecs: Codecs): Option<Bytes> {
    match Detect(data, codecs)
    case Gzip => codecs.gunzip(data)
    case Zlib => codecs.unzlib(data)
    case _ => Some(data)
  }

  /** Gzip and zlib are told by their first two bytes, and everything else is taken as it is. */
  lemma PlainRule(data: Bytes, codecs: Codecs)
    ensures |data| >= 2 && data[0] == 0x1f && data[1] == 0x8b ==>
              Detect(data, codecs) == Gzip && Plain(data, codecs) == codecs.gunzip(data)
    ensures |data| >= 2 && data[0] == 0x78 && data[1] == 0x9c ==>
              Detect(data, codecs) == Zlib && Plain(data, codecs) == codecs.unzlib(data)
    ensures !(|data| >= 2 && (data[..2] == [0x1f, 0x8b] || data[..2] == [0x78, 0x9c])) ==>
              Plain(data, codecs) == Some(data) && (Detect(data, codecs) == Internal <==> codecs.looksInternal(data))
  {
    if |data| >= 2 {
      assert data[..2] == [data[0], data[1]];
    }
  }

  /** What a compression mode asks for. */
  function Target(compression: PackCompression, format: Format): Encoding {
    match compression
    case Auto => if format == Mvt then Gzip else Uncompressed
    case NoCompression => Uncompressed
    case GzipAll => Gzip
  }

  /** Bring a tile into the target encoding, which is `Uncompressed` or `Gzip`. */
  function RecodeTile(data: Bytes, target: Encoding, codecs: Codecs): Result<Bytes, PackError> {
    if Detect(data, codecs) == target then Success(data)
    else
      var plain := Plain(data, codecs);
      if plain.None? then Failure(CannotDecode)
      else if target == Gzip then
        var compressed := codecs.gzip(plain.value);
        if compressed.None? then Failure(CannotEncode) else Success(compressed.value)
      else Success(plain.value)
  }

  /** What unpacking writes for a stored tile. */
  function UnpackTile(data: Bytes, codecs: Codecs): Option<Bytes> {
    if Detect(data, codecs) == Gzip then codecs.gunzip(data) else Some(data)
  }

  /** A compressed tile, to be stored uncompressed, whose contents look gzip-ed again. */
  predicate TwiceCompressed(data: Bytes, target: Encoding, plain: Bytes, codecs: Codecs) {
    && target == Uncompressed
    && (Detect(data, codecs) == Gzip || Detect(data, codecs) == Zlib)
    && Detect(plain, codecs) == Gzip
  }

  /** Packing and unpacking one tile gives back its contents decoded once, unless the tile is
      compressed twice, is to be stored uncompressed, and decodes to something else the second time. */
  lemma TileRoundTrip(data: Bytes, target: Encoding, codecs: Codecs)
    requires codecs.Sound() && (target == Uncompressed || target == Gzip)
    requires RecodeTile(data, target, codecs).Success? && Plain(data, codecs).Some?
    ensures var plain := Plain(data, codecs).value;
            UnpackTile(RecodeTile(data, target, codecs).value, codecs) == Some(plain)
            <==> (TwiceCompressed(data, target, plain, codecs) ==> codecs.gunzip(plain) == Some(plain))
  {
    var plain := Plain(data, codecs).value;
    if target == Gzip && Detect(data, codecs) != Gzip {
      assert HasPrefix(codecs.gzip(plain).value, 0x1f, 0x8b);
    }
  }

  // ---------------------------------------------------------------- packing

  /** A file found under `{z}/{x}/{y}.{ext}`; an unknown extension has no format. */
  datatype TileFile = TileFile(coord: TileCoord, format: Option<Format>, data: Bytes)

  /** The row inversion as the code computes it: it panics on a zoom or row that does not exist. */
  function InvertChecked(z: u8, y: u32): Option<u32> {
    if z < 32 && y < Pow2(z) then
      Pow2At32(z);
      Some(Pow2(z) - 1 - y)
    else None
  }

  lemma Pow2At32(z: nat)
    requires z < 32
    ensures Pow2(z) <= 0x8000_0000
  {
    Pow2At30();
    assert Pow2(31) == 2 * Pow2(30);
    Pow2Monotone(z, 31);
  }

  /** The stored row of a file: `insert_tiles` inverts, and for the TMS scheme `pack` has inverted before. */
  function StoredRow(file: TileFile, scheme: TileScheme): Option<Coord> {
    var inverted := InvertChecked(file.coord.z, file.coord.y);
    if inverted.None? then None
    else match scheme
      case Xyz => Some(Coord(file.coord.z, file.coord.x, inverted.value))
      case Tms => Some(Coord(file.coord.z, file.coord.x, InvertChecked(file.coord.z, inverted.value).value))
  }

  /** The row that a file becomes, unless something is wrong with it. */
  function PackedRow(file: TileFile, scheme: TileScheme, compression: PackCompression,
                     codecs: Codecs): Option<(Coord, Option<Bytes>)> {
    if file.format.None? then None else
    var encoded := RecodeTile(file.data, Target(compression, file.format.value), codecs);
    var row := StoredRow(file, scheme);
    if encoded.Failure? || row.None? then None else Some((row.value, Some(encoded.value)))
  }

  /** Where a file goes and how it is stored. With the y axis from the top its row counts from the bottom, with
      TMS the y axis is kept. Vector tiles are gzip-ed by default, all tiles if that is asked for, and
      everything else is stored decoded. */
  lemma StoredTile(file: TileFile, scheme: TileScheme, compression: PackCompression, codecs: Codecs)
    requires codecs.Sound() && PackedRow(file, scheme, compression, codecs).Some?
    ensures var (c, data) := PackedRow(file, scheme, compression, codecs).value;
            && file.coord.y < Pow2(file.coord.z)
            && c == Coord(file.coord.z, file.coord.x,
                          if scheme == Xyz then Pow2(file.coord.z) - 1 - file.coord.y else file.coord.y)
            && data.Some?
            && (compression == GzipAll || (compression == Auto && file.format == Some(Mvt)) ==>
                  Detect(data.value, codecs) == Gzip && Plain(data.value, codecs) == Plain(file.data, codecs))
            && (compression == NoCompression || (compression == Auto && file.format != Some(Mvt)) ==>
                  data == Plain(file.data, codecs))
  {
    var target := Target(compression, file.format.value);
    if target == Gzip && Detect(file.data, codecs) != Gzip {
      assert HasPrefix(codecs.gzip(Plain(file.data, codecs).value).value, 0x1f, 0x8b);
    }
  }

  /** The file is among the stored tiles, under the right row and in the encoding that was asked for. */
  predicate IsStored(file: TileFile, scheme: TileScheme, compression: PackCompression, codecs: Codecs, tiles: Tileset) {
    var z, y := file.coord.z, file.coord.y;
    var c := Coord(z, file.coord.x, if scheme == Xyz then Pow2(z) - 1 - y else y);
    && c in tiles && tiles[c].Some?
    && if compression == GzipAll || (compression == Auto && file.format == Some(Mvt))
       then Detect(tiles[c].value, codecs) == Gzip && Plain(tiles[c].value, codecs) == Plain(file.data, codecs)
       else tiles[c] == Plain(file.data, codecs)
  }

  lemma StoredIn(file: TileFile, scheme: TileScheme, compression: PackCompression, codecs: Codecs, tiles: Tileset)
    requires codecs.Sound() && PackedRow(file, scheme, compression, codecs).Some?
    requires PackedRow(file, scheme, compression, codecs).value.0 in tiles
    requires tiles[PackedRow(file, scheme, compression, codecs).value.0]
          == PackedRow(file, scheme, compression, codecs).value.1
    ensures IsStored(file, scheme, compression, codecs, tiles)
  {
    StoredTile(file, scheme, compression, codecs);
  }

  /** The first `n` files can be packed, and all have the format of the first. */
  predicate Packable(files: seq<TileFile>, n: nat, scheme: TileScheme, compression: PackCompression, codecs: Codecs)
    requires n <= |files|
  {
    forall i | 0 <= i < n :: PackedRow(files[i], scheme, compression, codecs).Some?
        && files[i].format == files[0].format
  }

  /** The rows of the first `n` files, in order. */
  function PackedRows(files: seq<TileFile>, n: nat, scheme: TileScheme, compression: PackCompression, codecs: Codecs)
    : (rows: seq<(Coord, Option<Bytes>)>)
    requires n <= |files| && Packable(files, n, scheme, compression, codecs)
    ensures |rows| == n
    ensures forall i | 0 <= i < n :: PackedRow(files[i], scheme, compression, codecs) == Some(rows[i])
  {
    if n == 0 then []
    else
      PackedRows(files, n - 1, scheme, compression, codecs)
      + [PackedRow(files[n - 1], scheme, compression, codecs).value]
  }

  predicate DistinctRows(files: seq<TileFile>, n: nat, scheme: TileScheme)
    requires n <= |files|
  {
    forall i, j | 0 <= i < j < n :: StoredRow(files[i], scheme) != StoredRow(files[j], scheme)
  }

  datatype PackedFile = PackedFile(tiles: Tileset, format: Option<Format>)

  const PACK_BATCH_SIZE := 1000

  /** Nothing is inserted over an existing key, or twice. */
  predicate Fresh<K, V>(table: map<K, V>, rows: seq<(K, V)>) {
    && (forall i | 0 <= i < |rows| :: rows[i].0 !in table)
    && (forall i, j | 0 <= i < j < |rows| :: rows[i].0 != rows[j].0)
  }

  lemma FreshConcat<K, V>(table: map<K, V>, a: seq<(K, V)>, b: seq<(K, V)>)
    ensures Fresh(table, a + b) <==> Fresh(table, a) && Fresh(PutAll(table, a), b)
  {
    forall j | 0 <= j < |b| {
      PutAllAt(table, a, b[j].0);
    }
    forall i | 0 <= i < |a|
      ensures (a + b)[i] == a[i]
    {
    }
    forall j | 0 <= j < |b|
      ensures (a + b)[|a| + j] == b[j]
    {
    }
  }

  /** `insert_tiles` with the Abort mode: a key that is already there is an error. */
  method InsertBatch<K(==), V>(table: map<K, V>, rows: seq<(K, V)>) returns (ok: bool, result: map<K, V>)
    ensures ok <==> Fresh(table, rows)
    ensures ok ==> result == PutAll(table, rows)
  {
    result := table;
    for i := 0 to |rows|
      invariant result == PutAll(table, rows[..i]) && Fresh(table, rows[..i])
    {
      assert rows[..i + 1] == rows[..i] + [rows[i]];
      FreshConcat(table, rows[..i], [rows[i]]);
      if rows[i].0 in result {
        assert rows[..i + 1] + rows[i + 1..] == rows;
        FreshConcat(table, rows[..i + 1], rows[i + 1..]);
        return false, result;
      }
      PutAllConcat(table, rows[..i], [rows[i]]);
      result := result[rows[i].0 := rows[i].1];
    }
    assert rows[..|rows|] == rows;
    return true, result;
  }

  /** No row of the first `n` files is in the table. */
  predicate Vacant(files: seq<TileFile>, n: nat, scheme: TileScheme, table: Tileset)
    requires n <= |files|
  {
    forall i | 0 <= i < n && StoredRow(files[i], scheme).Some? :: StoredRow(files[i], scheme).value !in table
  }

  lemma FreshMeansNoClash(files: seq<TileFile>, n: nat, scheme: TileScheme, compression: PackCompression,
                          codecs: Codecs, existing: Tileset)
    requires n <= |files| && Packable(files, n, scheme, compression, codecs)
    ensures Fresh(existing, PackedRows(files, n, scheme, compression, codecs))
       <==> DistinctRows(files, n, scheme) && Vacant(files, n, scheme, existing)
  {
    var rows := PackedRows(files, n, scheme, compression, codecs);
    forall i | 0 <= i < n
      ensures StoredRow(files[i], scheme) == Some(rows[i].0)
    {
      assert PackedRow(files[i], scheme, compression, codecs) == Some(rows[i]);
    }
  }

  /** Read and recode one file; `format` is the format of the files before it. */
  method Prepare(file: TileFile, format: Option<Format>, scheme: TileScheme, compression: PackCompression,
                 codecs: Codecs)
    returns (r: Result<(Coord, Option<Bytes>), PackError>)
    ensures r.Success? <==>
              PackedRow(file, scheme, compression, codecs).Some? && (format.None? || file.format == format)
    ensures r.Success? ==> Some(r.value) == PackedRow(file, scheme, compression, codecs)
    ensures r.Failure? ==>
              match r.error
              case UnsupportedFileExtension => file.format.None?
              case InconsistentTileFormats => format.Some? && file.format != format
              case CannotDecode => Plain(file.data, codecs).None?
              case CannotEncode => Plain(file.data, codecs).Some? && codecs.gzip(Plain(file.data, codecs).value).None?
              case Panic => file.coord.z >= 32 || file.coord.y >= Pow2(file.coord.z)
              case _ => false
  {
    if file.format.None? {
      return Failure(UnsupportedFileExtension);
    }
    var encoded := RecodeTile(file.data, Target(compression, file.format.value), codecs);
    if encoded.Failure? {
      return Failure(encoded.error);
    }
    if format.Some? && format != file.format {
      return Failure(InconsistentTileFormats);
    }
    var row := StoredRow(file, scheme);
    if row.None? {
      return Failure(Panic);
    }
    return Success((row.value, Some(encoded.value)));
  }

  /** The first `n` files are in the store or in the batch, and the store has been filled without a clash. */
  ghost predicate InProgress(files: seq<TileFile>, n: nat, scheme: TileScheme, compression: PackCompression,
                             codecs: Codecs, existing: Tileset, flushed: seq<(Coord, Option<Bytes>)>,
                             batch: seq<(Coord, Option<Bytes>)>, tiles: Tileset)
    requires n <= |files|
  {
    && Packable(files, n, scheme, compression, codecs)
    && flushed + batch == PackedRows(files, n, scheme, compression, codecs)
    && Fresh(existing, flushed) && tiles == PutAll(existing, flushed)
  }

  /** Every file can be packed with the format of the first, no two files end up in one row, and none in
      a row that is already taken. */
  predicate CanPack(files: seq<TileFile>, scheme: TileScheme, compression: PackCompression, codecs: Codecs,
                    existing: Tileset) {
    && Packable(files, |files|, scheme, compression, codecs)
    && DistinctRows(files, |files|, scheme) && Vacant(files, |files|, scheme, existing)
  }

  /** Pack the files, found in any order, in batches, into a file that may hold tiles already. It succeeds
      exactly when every file can be packed with the format of the first, no two files end up in one row
      and none in a row that is taken, wherever the batches are cut. */
  method Pack(files: seq<TileFile>, scheme: TileScheme, compression: PackCompression, codecs: Codecs,
              existing: PackedFile)
    returns (r: Result<PackedFile, PackError>)
    ensures r.Success? <==> CanPack(files, scheme, compression, codecs, existing.tiles)
    ensures r.Success? ==>
              r.value == PackedFile(PutAll(existing.tiles, PackedRows(files, |files|, scheme, compression, codecs)),
                                    if files == [] then existing.format else files[0].format)
    ensures r.Success? && codecs.Sound() ==>
              forall i | 0 <= i < |files| :: IsStored(files[i], scheme, compression, codecs, r.value.tiles)
    ensures r.Success? ==>
              && (forall i | 0 <= i < |files| :: files[i].format.Some? && files[i].format == files[0].format)
              && (forall i, j | 0 <= i < j < |files| :: files[i].coord != files[j].coord)
    ensures r.Success? ==> forall c | c in existing.tiles :: c in r.value.tiles && r.value.tiles[c] == existing.tiles[c]
    ensures r == Failure(UnsupportedFileExtension) ==> exists i :: 0 <= i < |files| && files[i].format.None?
    ensures r == Failure(InconsistentTileFormats) ==>
              exists i :: 0 <= i < |files| && files[i].format != files[0].format
    ensures r == Failure(CannotDecode) ==> exists i :: 0 <= i < |files| && Plain(files[i].data, codecs).None?
    ensures r == Failure(CannotEncode) ==>
              exists i :: 0 <= i < |files| && Plain(files[i].data, codecs).Some?
                          && codecs.gzip(Plain(files[i].data, codecs).value).None?
    ensures r == Failure(Panic) ==>
              exists i :: 0 <= i < |files| && (files[i].coord.z >= 32 || files[i].coord.y >= Pow2(files[i].coord.z))
    ensures r == Failure(DuplicateTile) ==>
              !(DistinctRows(files, |files|, scheme) && Vacant(files, |files|, scheme, existing.tiles))
    ensures r != Failure(NoFormatInMetadata) && r != Failure(InvalidTileIndex)
  {
    var error, tiles, batch, format, flushed := PackFiles(files, scheme, compression, codecs, existing.tiles);
    if error.Some? {
      return Failure(error.value);
    }
    if format.None? {
      format := existing.format;
    }
    r := Finish(files, scheme, compression, codecs, existing.tiles, flushed, batch, tiles, format);
    if r.Success? {
      PackedFiles(files, scheme, compression, codecs, existing.tiles);
      OneFormat(files, scheme, compression, codecs, existing.tiles);
    }
  }

  /** Why packing fails. */
  ghost predicate IsPackFailure(files: seq<TileFile>, scheme: TileScheme, codecs: Codecs, existing: Tileset,
                                error: PackError) {
    match error
    case UnsupportedFileExtension => exists i :: 0 <= i < |files| && files[i].format.None?
    case InconsistentTileFormats => exists i :: 0 <= i < |files| && files[i].format != files[0].format
    case CannotDecode => exists i :: 0 <= i < |files| && Plain(files[i].data, codecs).None?
    case CannotEncode =>
      exists i :: 0 <= i < |files| && Plain(files[i].data, codecs).Some?
                  && codecs.gzip(Plain(files[i].data, codecs).value).None?
    case Panic => exists i :: 0 <= i < |files| && (files[i].coord.z >= 32 || files[i].coord.y >= Pow2(files[i].coord.z))
    case DuplicateTile =>
      || (exists i, j :: 0 <= i < j < |files| && StoredRow(files[i], scheme) == StoredRow(files[j], scheme))
      || (exists i :: 0 <= i < |files| && StoredRow(files[i], scheme).Some?
                      && StoredRow(files[i], scheme).value in existing)
    case _ => false
  }

  /** The loop over the files; the last batch is still to be written. */
  method PackFiles(files: seq<TileFile>, scheme: TileScheme, compression: PackCompression, codecs: Codecs,
                   existing: Tileset)
    returns (error: Option<PackError>, tiles: Tileset, batch: seq<(Coord, Option<Bytes>)>, format: Option<Format>,
             ghost flushed: seq<(Coord, Option<Bytes>)>)
    ensures error.None? ==> InProgress(files, |files|, scheme, compression, codecs, existing, flushed, batch, tiles)
    ensures error.None? ==> (format.None? <==> files == []) && (files != [] ==> format == files[0].format)
    ensures error.Some? ==> !CanPack(files, scheme, compression, codecs, existing)
    ensures error.Some? ==> IsPackFailure(files, scheme, codecs, existing, error.value)
  {
    error, tiles, batch, format, flushed := None, existing, [], None, [];
    NothingPacked(files, scheme, compression, codecs, existing);
    for k := 0 to |files|
      invariant InProgress(files, k, scheme, compression, codecs, existing, flushed, batch, tiles)
      invariant error.None? && format == if k == 0 then None else files[0].format
      invariant k > 0 ==> format.Some?
    {
      error, tiles, batch, flushed :=
        PackFile(files, k, scheme, compression, codecs, existing, flushed, batch, tiles, format);
      if error.Some? {
        return;
      }
      format := files[k].format;
    }
  }

  lemma NothingPacked(files: seq<TileFile>, scheme: TileScheme, compression: PackCompression, codecs: Codecs,
                      existing: Tileset)
    ensures InProgress(files, 0, scheme, compression, codecs, existing, [], [], existing)
  {
  }

  /** Write the last batch. */
  method Finish(ghost files: seq<TileFile>, ghost scheme: TileScheme, ghost compression: PackCompression,
                ghost codecs: Codecs, ghost existing: Tileset, ghost flushed: seq<(Coord, Option<Bytes>)>,
                batch: seq<(Coord, Option<Bytes>)>, tiles: Tileset, format: Option<Format>)
    returns (r: Result<PackedFile, PackError>)
    requires InProgress(files, |files|, scheme, compression, codecs, existing, flushed, batch, tiles)
    ensures r.Success? <==> CanPack(files, scheme, compression, codecs, existing)
    ensures r.Failure? ==> IsPackFailure(files, scheme, codecs, existing, r.error)
    ensures r.Success? ==>
              r.value == PackedFile(PutAll(existing, PackedRows(files, |files|, scheme, compression, codecs)), format)
  {
    var result := tiles;
    ghost var nowFlushed := flushed;
    if batch != [] {
      var ok;
      ok, result, nowFlushed := Flush(files, |files|, scheme, compression, codecs, existing, flushed, batch, tiles);
      if !ok {
        return Failure(DuplicateTile);
      }
    }
    AllFlushed(files, scheme, compression, codecs, existing, nowFlushed, result);
    return Success(PackedFile(result, format));
  }

  lemma BadFile(files: seq<TileFile>, k: nat, scheme: TileScheme, compression: PackCompression, codecs: Codecs,
                existing: Tileset)
    requires k < |files|
    requires PackedRow(files[k], scheme, compression, codecs).None? || files[k].format != files[0].format
    ensures !CanPack(files, scheme, compression, codecs, existing)
  {
  }

  /** Pack one file. */
  method PackFile(files: seq<TileFile>, k: nat, scheme: TileScheme, compression: PackCompression, codecs: Codecs,
                  ghost existing: Tileset, ghost flushed: seq<(Coord, Option<Bytes>)>,
                  batch: seq<(Coord, Option<Bytes>)>, tiles: Tileset, format: Option<Format>)
    returns (error: Option<PackError>, result: Tileset, newBatch: seq<(Coord, Option<Bytes>)>,
             ghost nowFlushed: seq<(Coord, Option<Bytes>)>)
    requires k < |files| && InProgress(files, k, scheme, compression, codecs, existing, flushed, batch, tiles)
    requires format == if k == 0 then None else files[0].format
    ensures error.None? ==>
              InProgress(files, k + 1, scheme, compression, codecs, existing, nowFlushed, newBatch, result)
    ensures error.None? ==> files[k].format == files[0].format && files[k].format.Some?
    ensures error.Some? ==> !CanPack(files, scheme, compression, codecs, existing)
    ensures error.Some? ==> IsPackFailure(files, scheme, codecs, existing, error.value)
  {
    var row := Prepare(files[k], format, scheme, compression, codecs);
    if row.Failure? {
      BadFile(files, k, scheme, compression, codecs, existing);
      assert IsPackFailure(files, scheme, codecs, existing, row.error);
      return Some(row.error), tiles, batch, flushed;
    }
    var ok;
    ok, result, newBatch, nowFlushed := Enqueue(files, k, scheme, compression, codecs, existing, flushed, batch,
                                                tiles, row.value);
    error := if ok then None else Some(DuplicateTile);
  }

  /** Put a row into the batch, and write the batch when it is full. */
  method Enqueue(ghost files: seq<TileFile>, ghost k: nat, ghost scheme: TileScheme, ghost compression: PackCompression,
                 ghost codecs: Codecs, ghost existing: Tileset, ghost flushed: seq<(Coord, Option<Bytes>)>,
                 batch: seq<(Coord, Option<Bytes>)>, tiles: Tileset, row: (Coord, Option<Bytes>))
    returns (ok: bool, result: Tileset, newBatch: seq<(Coord, Option<Bytes>)>,
             ghost nowFlushed: seq<(Coord, Option<Bytes>)>)
    requires k < |files| && InProgress(files, k, scheme, compression, codecs, existing, flushed, batch, tiles)
    requires PackedRow(files[k], scheme, compression, codecs) == Some(row) && files[k].format == files[0].format
    ensures ok ==> InProgress(files, k + 1, scheme, compression, codecs, existing, nowFlushed, newBatch, result)
    ensures !ok ==> !CanPack(files, scheme, compression, codecs, existing)
    ensures !ok ==> IsPackFailure(files, scheme, codecs, existing, DuplicateTile)
  {
    TakeOne(files, k, scheme, compression, codecs, existing, flushed, batch, tiles);
    newBatch := batch + [row];
    if |newBatch| < PACK_BATCH_SIZE {
      return true, tiles, newBatch, flushed;
    }
    ok, result, nowFlushed := Flush(files, k + 1, scheme, compression, codecs, existing, flushed, newBatch, tiles);
    newBatch := [];
  }

  /** Write a batch behind the ones already written. */
  method Flush(ghost files: seq<TileFile>, ghost n: nat, ghost scheme: TileScheme, ghost compression: PackCompression,
               ghost codecs: Codecs, ghost existing: Tileset, ghost flushed: seq<(Coord, Option<Bytes>)>,
               batch: seq<(Coord, Option<Bytes>)>, tiles: Tileset)
    returns (ok: bool, result: Tileset, ghost nowFlushed: seq<(Coord, Option<Bytes>)>)
    requires n <= |files| && InProgress(files, n, scheme, compression, codecs, existing, flushed, batch, tiles)
    ensures ok <==> DistinctRows(files, n, scheme) && Vacant(files, n, scheme, existing)
    ensures !ok ==> IsPackFailure(files, scheme, codecs, existing, DuplicateTile)
    ensures ok ==> InProgress(files, n, scheme, compression, codecs, existing, nowFlushed, [], result)
  {
    FreshConcat(existing, flushed, batch);
    PutAllConcat(existing, flushed, batch);
    FreshMeansNoClash(files, n, scheme, compression, codecs, existing);
    ok, result := InsertBatch(tiles, batch);
    nowFlushed := flushed + batch;
    assert nowFlushed + [] == nowFlushed;
  }

  lemma TakeOne(files: seq<TileFile>, k: nat, scheme: TileScheme, compression: PackCompression, codecs: Codecs,
                existing: Tileset, flushed: seq<(Coord, Option<Bytes>)>, batch: seq<(Coord, Option<Bytes>)>,
                tiles: Tileset)
    requires k < |files| && InProgress(files, k, scheme, compression, codecs, existing, flushed, batch, tiles)
    requires PackedRow(files[k], scheme, compression, codecs).Some? && files[k].format == files[0].format
    ensures InProgress(files, k + 1, scheme, compression, codecs, existing, flushed,
                       batch + [PackedRow(files[k], scheme, compression, codecs).value], tiles)
  {
    var row := PackedRow(files[k], scheme, compression, codecs).value;
    assert flushed + (batch + [row]) == (flushed + batch) + [row];
  }

  lemma AllFlushed(files: seq<TileFile>, scheme: TileScheme, compression: PackCompression, codecs: Codecs,
                   existing: Tileset, flushed: seq<(Coord, Option<Bytes>)>, tiles: Tileset)
    requires InProgress(files, |files|, scheme, compression, codecs, existing, flushed, [], tiles)
    ensures CanPack(files, scheme, compression, codecs, existing)
    ensures tiles == PutAll(existing, PackedRows(files, |files|, scheme, compression, codecs))
  {
    assert flushed + [] == flushed;
    FreshMeansNoClash(files, |files|, scheme, compression, codecs, existing);
  }

  // ---------------------------------------------------------------- unpacking

  /** The place of a tile in the directory tree. */
  function Place(c: ValidCoord, scheme: TileScheme): TileCoord {
    match scheme
    case Xyz => c
    case Tms => TileCoord(c.z, c.x, InvertY(c.z, c.y))
  }

  /** The place of a stored row. */
  function RowPlace(c: Coord, scheme: TileScheme): Option<TileCoord> {
    var coord := ParseTileIndex(c);
    if coord.None? then None else Some(Place(coord.value, scheme))
  }

  lemma PlaceInjective(c: Coord, d: Coord, scheme: TileScheme)
    requires RowPlace(c, scheme).Some? && RowPlace(c, scheme) == RowPlace(d, scheme)
    ensures c == d
  {
    var a, b := ParseTileIndex(c).value, ParseTileIndex(d).value;
    RowRoundTrip(c, a);
    RowRoundTrip(d, b);
    InvertYInvolution(a.z, a.y);
    InvertYInvolution(b.z, b.y);
  }

  /** The tile can be written out. */
  predicate Unpackable(c: Coord, data: Option<Bytes>, scheme: TileScheme, codecs: Codecs) {
    RowPlace(c, scheme).Some? && (data.Some? ==> UnpackTile(data.value, codecs).Some?)
  }

  /** The files hold exactly the tiles with data, unpacked. */
  ghost predicate IsUnpacked(tiles: Tileset, scheme: TileScheme, codecs: Codecs, files: map<TileCoord, Bytes>) {
    && (forall c | c in tiles && tiles[c].Some? ::
          && Unpackable(c, tiles[c], scheme, codecs)
          && RowPlace(c, scheme).value in files
          && Some(files[RowPlace(c, scheme).value]) == UnpackTile(tiles[c].value, codecs))
    && (forall p | p in files :: exists c :: c in tiles && tiles[c].Some? && RowPlace(c, scheme) == Some(p))
  }

  /** The tile is in the tree under its column and under its row, counted from the top or, with TMS, as stored;
      it is decoded if it is gzip-ed and copied as it is otherwise. */
  ghost predicate IsWritten(c: Coord, data: Bytes, scheme: TileScheme, codecs: Codecs, files: map<TileCoord, Bytes>) {
    && IsPossibleRow(c)
    && exists p :: p in files && p.z == c.z && p.x == c.x && p.y == (if scheme == Xyz then Pow2(c.z) - 1 - c.y else c.y)
         && Some(files[p]) == if Detect(data, codecs) == Gzip then codecs.gunzip(data) else Some(data)
  }

  lemma WrittenAt(c: Coord, data: Bytes, scheme: TileScheme, codecs: Codecs, files: map<TileCoord, Bytes>)
    requires RowPlace(c, scheme).Some? && RowPlace(c, scheme).value in files
    requires Some(files[RowPlace(c, scheme).value]) == UnpackTile(data, codecs)
    ensures IsWritten(c, data, scheme, codecs, files)
  {
    RowRoundTrip(c, ParseTileIndex(c).value);
    var p := RowPlace(c, scheme).value;
    assert p.z == c.z && p.x == c.x;
    InvertYInvolution(c.z, c.y);
    assert p.y == if scheme == Xyz then Pow2(c.z) - 1 - c.y else c.y;
  }

  /** Write the tiles, in any order, into the tree. It fails without a format, on a row that is not a
      tile and on a tile that cannot be decoded. */
  method Unpack(packed: PackedFile, scheme: TileScheme, codecs: Codecs)
    returns (r: Result<map<TileCoord, Bytes>, PackError>)
    ensures r.Success? <==>
              packed.format.Some? && forall c | c in packed.tiles :: Unpackable(c, packed.tiles[c], scheme, codecs)
    ensures r.Success? ==> IsUnpacked(packed.tiles, scheme, codecs, r.value)
    ensures r.Success? ==>
              forall c | c in packed.tiles && packed.tiles[c].Some? ::
                IsWritten(c, packed.tiles[c].value, scheme, codecs, r.value)
    ensures r == Failure(NoFormatInMetadata) <==> packed.format.None?
    ensures r.Failure? && packed.format.Some? ==>
              || (r.error == InvalidTileIndex && exists c :: c in packed.tiles && !IsPossibleRow(c))
              || (r.error == CannotDecode
                  && exists c :: c in packed.tiles && packed.tiles[c].Some?
                                 && Detect(packed.tiles[c].value, codecs) == Gzip
                                 && codecs.gunzip(packed.tiles[c].value).None?)
  {
    if packed.format.None? {
      return Failure(NoFormatInMetadata);
    }
    var files: map<TileCoord, Bytes> := map[];
    var todo := packed.tiles.Keys;
    ghost var done: Tileset := map[];
    while todo != {}
      invariant todo <= packed.tiles.Keys && done == packed.tiles - todo
      invariant forall c | c in done :: Unpackable(c, done[c], scheme, codecs)
      invariant IsUnpacked(done, scheme, codecs, files)
    {
      var c :| c in todo;
      todo := todo - {c};
      var error;
      error, files := UnpackOne(done, c, packed.tiles[c], scheme, codecs, files);
      if error.Some? {
        return Failure(error.value);
      }
      done := done[c := packed.tiles[c]];
    }
    assert done == packed.tiles;
    forall c | c in packed.tiles && packed.tiles[c].Some?
      ensures IsWritten(c, packed.tiles[c].value, scheme, codecs, files)
    {
      WrittenAt(c, packed.tiles[c].value, scheme, codecs, files);
    }
    return Success(files);
  }

  /** Write one tile. */
  method UnpackOne(ghost done: Tileset, c: Coord, data: Option<Bytes>, scheme: TileScheme, codecs: Codecs,
                   files: map<TileCoord, Bytes>)
    returns (error: Option<PackError>, newFiles: map<TileCoord, Bytes>)
    requires IsUnpacked(done, scheme, codecs, files) && c !in done
    ensures error.None? <==> Unpackable(c, data, scheme, codecs)
    ensures error.None? ==> IsUnpacked(done[c := data], scheme, codecs, newFiles)
    ensures error.Some? ==>
              || (error.value == InvalidTileIndex && !IsPossibleRow(c))
              || (error.value == CannotDecode && data.Some? && Detect(data.value, codecs) == Gzip
                  && codecs.gunzip(data.value).None?)
  {
    newFiles := files;
    RowRoundTrip(c, TileCoord(0, 0, 0));
    var coord := ParseTileIndex(c);
    if coord.None? {
      return Some(InvalidTileIndex), files;
    }
    if data.Some? {
      var contents := UnpackTile(data.value, codecs);
      if contents.None? {
        return Some(CannotDecode), files;
      }
      newFiles := files[Place(coord.value, scheme) := contents.value];
    }
    UnpackOneMore(done, c, data, scheme, codecs, files);
    return None, newFiles;
  }

  lemma UnpackOneMore(done: Tileset, c: Coord, data: Option<Bytes>, scheme: TileScheme, codecs: Codecs,
                      files: map<TileCoord, Bytes>)
    requires IsUnpacked(done, scheme, codecs, files) && c !in done && Unpackable(c, data, scheme, codecs)
    ensures IsUnpacked(done[c := data], scheme, codecs,
              if data.Some? then files[RowPlace(c, scheme).value := UnpackTile(data.value, codecs).value] else files)
  {
    var done' := done[c := data];
    var files' :=
      if data.Some? then files[RowPlace(c, scheme).value := UnpackTile(data.value, codecs).value] else files;
    forall d | d in done && RowPlace(d, scheme) == RowPlace(c, scheme)
      ensures d == c
    {
      PlaceInjective(c, d, scheme);
    }
    forall p | p in files'
      ensures exists d :: d in done' && done'[d].Some? && RowPlace(d, scheme) == Some(p)
    {
      if data.Some? && RowPlace(c, scheme) == Some(p) {
        assert done'[c].Some?;
      } else {
        var d :| d in done && done[d].Some? && RowPlace(d, scheme) == Some(p);
        assert done'[d].Some?;
      }
    }
  }

  // ---------------------------------------------------------------- the round trip

  /** The file names a tile that exists. */
  predicate IsValidFile(file: TileFile) {
    IsPossibleOnZoomLevel(file.coord.z, file.coord.x, file.coord.y)
  }

  /** Packing a file and looking up its place again leads back to it, in both schemes. */
  lemma StoredRowPlace(file: TileFile, scheme: TileScheme)
    requires IsValidFile(file)
    ensures StoredRow(file, scheme).Some? && RowPlace(StoredRow(file, scheme).value, scheme) == Some(file.coord)
  {
    var z, y := file.coord.z, file.coord.y;
    InvertYInvolution(z, y);
    var row := StoredRow(file, scheme).value;
    Pow2Bound(z);
    assert IsPossibleRow(row);
    RowRoundTrip(row, TileCoord(0, 0, 0));
    assert ParseTileIndex(row) == Some(TileCoord(z, file.coord.x, InvertY(z, row.y)));
    InvertYInvolution(z, row.y);
  }

  /** Files that are well formed in every respect the round trip needs. */
  predicate RoundTrips(file: TileFile, compression: PackCompression, codecs: Codecs) {
    && IsValidFile(file) && file.format.Some?
    && RecodeTile(file.data, Target(compression, file.format.value), codecs).Success?
    && Plain(file.data, codecs).Some?
    && !TwiceCompressed(file.data, Target(compression, file.format.value), Plain(file.data, codecs).value, codecs)
  }

  /** Packing and unpacking with the same scheme reproduces every coordinate and the once-decoded
      contents, for any number of batches and every compression mode. */
  lemma PackUnpack(files: seq<TileFile>, scheme: TileScheme, compression: PackCompression, codecs: Codecs,
                   out: map<TileCoord, Bytes>)
    requires codecs.Sound() && CanPack(files, scheme, compression, codecs, map[])
    requires forall i | 0 <= i < |files| :: RoundTrips(files[i], compression, codecs)
    requires IsUnpacked(PutAll(map[], PackedRows(files, |files|, scheme, compression, codecs)), scheme, codecs, out)
    ensures forall i | 0 <= i < |files| ::
              files[i].coord in out && Some(out[files[i].coord]) == Plain(files[i].data, codecs)
    ensures forall p | p in out :: exists i :: 0 <= i < |files| && files[i].coord == p
  {
    var tiles := PutAll(map[], PackedRows(files, |files|, scheme, compression, codecs));
    forall i | 0 <= i < |files|
      ensures files[i].coord in out && Some(out[files[i].coord]) == Plain(files[i].data, codecs)
    {
      PackedAt(files, scheme, compression, codecs, map[], i);
      StoredRowPlace(files[i], scheme);
      TileRoundTrip(files[i].data, Target(compression, files[i].format.value), codecs);
    }
    forall p | p in out
      ensures exists i :: 0 <= i < |files| && files[i].coord == p
    {
      var c :| c in tiles && tiles[c].Some? && RowPlace(c, scheme) == Some(p);
      var i := PackedOrigin(files, scheme, compression, codecs, c);
      StoredRowPlace(files[i], scheme);
    }
  }

  /** ... and unpacking does succeed, if there is any file at all. */
  lemma PackUnpackSucceeds(files: seq<TileFile>, scheme: TileScheme, compression: PackCompression, codecs: Codecs,
                           c: Coord)
    requires codecs.Sound() && CanPack(files, scheme, compression, codecs, map[])
    requires forall i | 0 <= i < |files| :: RoundTrips(files[i], compression, codecs)
    requires c in PutAll(map[], PackedRows(files, |files|, scheme, compression, codecs))
    ensures Unpackable(c, PutAll(map[], PackedRows(files, |files|, scheme, compression, codecs))[c], scheme, codecs)
  {
    var i := PackedOrigin(files, scheme, compression, codecs, c);
    PackedAt(files, scheme, compression, codecs, map[], i);
    StoredRowPlace(files[i], scheme);
    TileRoundTrip(files[i].data, Target(compression, files[i].format.value), codecs);
  }

  lemma PackedAt(files: seq<TileFile>, scheme: TileScheme, compression: PackCompression, codecs: Codecs,
                 existing: Tileset, i: nat)
    requires CanPack(files, scheme, compression, codecs, existing) && i < |files|
    ensures var tiles := PutAll(existing, PackedRows(files, |files|, scheme, compression, codecs));
            && StoredRow(files[i], scheme).Some? && StoredRow(files[i], scheme).value in tiles
            && RecodeTile(files[i].data, Target(compression, files[i].format.value), codecs).Success?
            && tiles[StoredRow(files[i], scheme).value]
                 == Some(RecodeTile(files[i].data, Target(compression, files[i].format.value), codecs).value)
  {
    var rows := PackedRows(files, |files|, scheme, compression, codecs);
    assert PackedRow(files[i], scheme, compression, codecs) == Some(rows[i]);
    FreshMeansNoClash(files, |files|, scheme, compression, codecs, existing);
    FreshAt(existing, rows, i);
  }

  /** Without clashes every row is in the table. */
  lemma FreshAt<K, V>(table: map<K, V>, rows: seq<(K, V)>, i: nat)
    requires Fresh(table, rows) && i < |rows|
    ensures rows[i].0 in PutAll(table, rows) && PutAll(table, rows)[rows[i].0] == rows[i].1
  {
    PutAllAt(table, rows, rows[i].0);
    var j :| 0 <= j < |rows| && rows[j] == (rows[i].0, PutAll(table, rows)[rows[i].0]);
  }

  /** The packed file: every file is stored as it should be, and what was there stays. */
  lemma PackedFiles(files: seq<TileFile>, scheme: TileScheme, compression: PackCompression, codecs: Codecs,
                    existing: Tileset)
    requires CanPack(files, scheme, compression, codecs, existing)
    ensures var tiles := PutAll(existing, PackedRows(files, |files|, scheme, compression, codecs));
            && (codecs.Sound() ==>
                  forall i | 0 <= i < |files| :: IsStored(files[i], scheme, compression, codecs, tiles))
            && (forall c | c in existing :: c in tiles && tiles[c] == existing[c])
  {
    var rows := PackedRows(files, |files|, scheme, compression, codecs);
    forall i | 0 <= i < |files| && codecs.Sound()
      ensures IsStored(files[i], scheme, compression, codecs, PutAll(existing, rows))
    {
      PackedAs(files, scheme, compression, codecs, existing, i);
    }
    FreshMeansNoClash(files, |files|, scheme, compression, codecs, existing);
    forall c | c in existing
      ensures c in PutAll(existing, rows) && PutAll(existing, rows)[c] == existing[c]
    {
      PutAllAt(existing, rows, c);
    }
  }

  /** Packed files have one format and different places. */
  lemma OneFormat(files: seq<TileFile>, scheme: TileScheme, compression: PackCompression, codecs: Codecs,
                  existing: Tileset)
    requires CanPack(files, scheme, compression, codecs, existing)
    ensures forall i | 0 <= i < |files| :: files[i].format.Some? && files[i].format == files[0].format
    ensures forall i, j | 0 <= i < j < |files| :: files[i].coord != files[j].coord
  {
    forall i | 0 <= i < |files|
      ensures files[i].format.Some?
    {
      assert PackedRow(files[i], scheme, compression, codecs).Some?;
    }
    forall i, j | 0 <= i < j < |files|
      ensures files[i].coord != files[j].coord
    {
      assert StoredRow(files[i], scheme) != StoredRow(files[j], scheme);
    }
  }

  lemma PackedAs(files: seq<TileFile>, scheme: TileScheme, compression: PackCompression, codecs: Codecs,
                 existing: Tileset, i: nat)
    requires codecs.Sound() && CanPack(files, scheme, compression, codecs, existing) && i < |files|
    ensures IsStored(files[i], scheme, compression, codecs,
                     PutAll(existing, PackedRows(files, |files|, scheme, compression, codecs)))
  {
    var rows := PackedRows(files, |files|, scheme, compression, codecs);
    assert PackedRow(files[i], scheme, compression, codecs) == Some(rows[i]);
    PackedAt(files, scheme, compression, codecs, existing, i);
    StoredIn(files[i], scheme, compression, codecs, PutAll(existing, rows));
  }

  lemma PackedOrigin(files: seq<TileFile>, scheme: TileScheme, compression: PackCompression, codecs: Codecs, c: Coord)
    returns (i: nat)
    requires Packable(files, |files|, scheme, compression, codecs)
    requires c in PutAll(map[], PackedRows(files, |files|, scheme, compression, codecs))
    ensures i < |files| && StoredRow(files[i], scheme) == Some(c)
  {
    var rows := PackedRows(files, |files|, scheme, compression, codecs);
    i := KeyOrigin(rows, c);
    assert PackedRow(files[i], scheme, compression, codecs) == Some(rows[i]);
  }

  lemma KeyOrigin<K, V>(rows: seq<(K, V)>, k: K) returns (i: nat)
    requires k in PutAll(map[], rows)
    ensures i < |rows| && rows[i].0 == k
  {
    PutAllAt(map[], rows, k);
    i :| 0 <= i < |rows| && rows[i].0 == k;
  }
}
