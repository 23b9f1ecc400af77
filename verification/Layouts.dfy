/** The physical layouts of an MBTiles file and the views that give each its meaning. */
module Layouts {
  import opened Sql
  import opened Tilesets

  /** The text form of an MD5 digest. */
  type Md5Hex = s: string | |s| == 32 witness "00000000000000000000000000000000"
  type Md5 = Bytes -> Md5Hex

  datatype MbtType = Flat | FlatWithHash | Normalized(hashView: bool)

  /** A row of the `tiles_with_hash` table or view. */
  datatype Row = Row(data: Option<Bytes>, hash: Option<string>)

  type Rows = map<Coord, Row>

  /** The contents of the tile tables of one file. */
  datatype Tables =
    | FlatTables(tiles: Tileset)
    | HashedTables(rows: Rows)
    | NormalizedTables(mapping: map<Coord, Option<string>>, images: map<string, Option<Bytes>>, hashView: bool)
  {
    function Type(): MbtType {
      match this
      case FlatTables(_) => Flat
      case HashedTables(_) => FlatWithHash
      case NormalizedTables(_, _, hashView) => Normalized(hashView)
    }

    /** The coordinates that have a row in the main table, resolvable or not. */
    function Slots(): set<Coord> {
      match this
      case FlatTables(tiles) => tiles.Keys
      case HashedTables(rows) => rows.Keys
      case NormalizedTables(mapping, _, _) => mapping.Keys
    }

    /** Every reference of the map table that is not NULL has an image. */
    predicate Resolved() {
      NormalizedTables? ==> forall c | c in mapping && mapping[c].Some? :: mapping[c].value in images
    }
  }

  /** A freshly created schema. */
  function Empty(kind: MbtType): Tables {
    match kind
    case Flat => FlatTables(map[])
    case FlatWithHash => HashedTables(map[])
    case Normalized(hashView) => NormalizedTables(map[], map[], hashView)
  }

  function Data(rows: Rows): Tileset {
    map c | c in rows :: rows[c].data
  }

  function Hashes(rows: Rows): map<Coord, Option<string>> {
    map c | c in rows :: rows[c].hash
  }

  /** The map table joined with the images table; the hash column is the id. */
  function Joined(mapping: map<Coord, Option<string>>, images: map<string, Option<Bytes>>): Rows {
    map c | c in mapping && mapping[c].Some? && mapping[c].value in images ::
      Row(images[mapping[c].value], mapping[c])
  }

  /** The `tiles` table or view: the tileset that a file stands for. */
  function View(t: Tables): Tileset {
    match t
    case FlatTables(tiles) => tiles
    case HashedTables(rows) => Data(rows)
    case NormalizedTables(mapping, images, _) => Data(Joined(mapping, images))
  }

  /** Tiles with their hash computed. */
  function WithMd5(tiles: Tileset, md5: Md5): Rows {
    map c | c in tiles :: Row(tiles[c], Apply(md5, tiles[c]))
  }

  /** The `tiles_with_hash` table or view; a flat file computes the hash on the fly. */
  function TilesWithHash(t: Tables, md5: Md5): Rows {
    match t
    case FlatTables(tiles) => WithMd5(tiles, md5)
    case HashedTables(rows) => rows
    case NormalizedTables(mapping, images, _) => Joined(mapping, images)
  }

  /** The tiles view without the hash column. */
  function TilesOnly(t: Tables): Rows {
    map c | c in View(t) :: Row(View(t)[c], None)
  }

  lemma TilesWithHashData(t: Tables, md5: Md5)
    ensures Data(TilesWithHash(t, md5)) == View(t)
    ensures Data(TilesOnly(t)) == View(t)
  {
  }

  // ---------------------------------------------------------------- hash conventions

  /** What every id stands for. Two files that are `Addressed` by one store use an id for the same
      bytes: this is how content addressing enters the theorems, as an explicit hypothesis. */
  type Store = string -> Option<Bytes>

  /** A row with data names its bytes by a hash; a row without data has no hash, or one that names NULL. */
  predicate RowAddressed(row: Row, store: Store) {
    match row.data
    case Some(_) => row.hash.Some? && store(row.hash.value) == row.data
    case None => row.hash.Some? ==> store(row.hash.value) == None
  }

  ghost predicate RowsAddressed(rows: Rows, store: Store) {
    forall c | c in rows :: RowAddressed(rows[c], store)
  }

  ghost predicate Addressed(t: Tables, md5: Md5, store: Store) {
    RowsAddressed(TilesWithHash(t, md5), store)
  }

  /** The empty id stands for NULL: `''` is what a patch uses to delete. */
  predicate EmptyIdIsNull(store: Store) {
    store("") == None
  }

  /** The hash convention: the MD5 of the data, and no hash or `''` when there is none. */
  predicate RowHashed(row: Row, md5: Md5) {
    match row.data
    case Some(bytes) => row.hash == Some(md5(bytes))
    case None => row.hash == None || row.hash == Some("")
  }

  predicate Hashed(t: Tables, md5: Md5) {
    forall c | c in TilesWithHash(t, md5) :: RowHashed(TilesWithHash(t, md5)[c], md5)
  }

  /** Same id, same bytes, across any two rows: the pairwise form of `Addressed`. */
  predicate SameIdSameBytes(rows: set<Row>) {
    && (forall r | r in rows :: r.data.Some? ==> r.hash.Some?)
    && (forall r, r' | r in rows && r' in rows :: r.hash.Some? && r.hash == r'.hash ==> r.data == r'.data)
  }

  /** The store hypothesis asks for nothing beyond "same id, same bytes". */
  lemma StoreExists(rows: set<Row>) returns (store: Store)
    requires SameIdSameBytes(rows)
    requires forall r | r in rows && r.hash == Some("") :: r.data == None
    ensures EmptyIdIsNull(store)
    ensures forall r | r in rows :: RowAddressed(r, store)
  {
    store := id => if exists r :: r in rows && r.hash == Some(id)
                   then (var r :| r in rows && r.hash == Some(id); r.data)
                   else None;
  }

  /** Under the hash convention the store hypothesis is exactly "no MD5 collision among the tiles". */
  lemma HashedIsAddressed(files: set<Tables>, md5: Md5) returns (store: Store)
    requires forall t | t in files :: Hashed(t, md5)
    requires forall t, t', c, c' | t in files && t' in files && c in DropNull(View(t)) && c' in DropNull(View(t')) ::
               md5(View(t)[c].value) == md5(View(t')[c'].value) ==> View(t)[c] == View(t')[c']
    ensures EmptyIdIsNull(store)
    ensures forall t | t in files :: Addressed(t, md5, store)
  {
    var rows := set t, c | t in files && c in TilesWithHash(t, md5) :: TilesWithHash(t, md5)[c];
    forall r, r' | r in rows && r' in rows && r.hash.Some? && r.hash == r'.hash
      ensures r.data == r'.data
    {
      var t, c :| t in files && c in TilesWithHash(t, md5) && TilesWithHash(t, md5)[c] == r;
      var t', c' :| t' in files && c' in TilesWithHash(t', md5) && TilesWithHash(t', md5)[c'] == r';
      TilesWithHashData(t, md5);
      TilesWithHashData(t', md5);
      assert RowHashed(r, md5) && RowHashed(r', md5);
      if r.data.Some? && r'.data.Some? {
        assert View(t)[c] == r.data && View(t')[c'] == r'.data;
      }
    }
    store := StoreExists(rows);
  }
}
