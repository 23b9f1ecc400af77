/** The write statements, each a loop that meets the selected rows in an arbitrary order. */
module Statements {
  import opened Sql
  import opened Tilesets
  import opened Layouts

  /** `INSERT OR REPLACE | OR IGNORE INTO table SELECT …` where the selected rows have distinct keys. */
  method InsertRows<K(==), V>(table: map<K, V>, rows: map<K, V>, mode: OnDuplicate) returns (result: map<K, V>)
    ensures result == Merge(table, rows, mode)
  {
    result := table;
    var todo := rows.Keys;
    while todo != {}
      invariant todo <= rows.Keys
      invariant result == Merge(table, map k | k in rows && k !in todo :: rows[k], mode)
    {
      var k :| k in todo;
      if mode == Override || k !in result {
        result := result[k := rows[k]];
      }
      todo := todo - {k};
    }
  }

  /** Plain `INSERT INTO table`, row by row: a key that is already there is an error. */
  method InsertNew<K(==), V>(table: map<K, V>, rows: map<K, V>) returns (ok: bool, result: map<K, V>)
    ensures ok <==> table.Keys !! rows.Keys
    ensures ok ==> result == table + rows
  {
    result := table;
    var todo := rows.Keys;
    while todo != {}
      invariant todo <= rows.Keys
      invariant table.Keys !! rows.Keys - todo
      invariant result == table + (rows - todo)
    {
      var k :| k in todo;
      if k in result {
        return false, result;
      }
      result := result[k := rows[k]];
      todo := todo - {k};
    }
    return true, result;
  }

  /** `DELETE FROM table WHERE key IN (…)`. */
  method DeleteRows<K(==), V>(table: map<K, V>, keys: set<K>) returns (result: map<K, V>)
    ensures result == table - keys
  {
    result := table;
    var todo := keys;
    while todo != {}
      invariant todo <= keys
      invariant result == table - (keys - todo)
    {
      var k :| k in todo;
      result := result - {k};
      todo := todo - {k};
    }
  }

  /** The ids that the rows would write to the images table. */
  function Ids(rows: Rows): set<string> {
    set c | c in rows && rows[c].hash.Some? :: rows[c].hash.value
  }

  lemma IdsOfExtended(rows: Rows, c: Coord, row: Row)
    requires c !in rows
    ensures Ids(rows[c := row]) == Ids(rows) + (if row.hash.Some? then {row.hash.value} else {})
  {
    var extended := rows[c := row];
    forall id | id in Ids(rows)
      ensures id in Ids(extended)
    {
      var d :| d in rows && rows[d].hash == Some(id);
      assert extended[d].hash == Some(id);
    }
    assert row.hash.Some? ==> extended[c].hash.value in Ids(extended);
  }

  /** Some selected row carries this id and this data. */
  ghost predicate Supplies(rows: Rows, id: string, data: Option<Bytes>) {
    exists c :: c in rows && rows[c] == Row(data, Some(id))
  }

  /** `INSERT OR IGNORE INTO images`: existing ids stay, new ids get the data of one of their rows,
      rows without an id break the NOT NULL constraint and are ignored. */
  ghost predicate ImagesAdded(before: map<string, Option<Bytes>>, rows: Rows, after: map<string, Option<Bytes>>) {
    && after.Keys == before.Keys + Ids(rows)
    && (forall id | id in before :: after[id] == before[id])
    && (forall id | id in Ids(rows) && id !in before :: Supplies(rows, id, after[id]))
  }

  /** `INSERT OR REPLACE INTO images`: every selected id gets the data of one of its rows. */
  ghost predicate ImagesReplaced(before: map<string, Option<Bytes>>, rows: Rows, after: map<string, Option<Bytes>>) {
    && after.Keys == before.Keys + Ids(rows)
    && (forall id | id in before && id !in Ids(rows) :: after[id] == before[id])
    && (forall id | id in Ids(rows) :: Supplies(rows, id, after[id]))
  }

  lemma AddOneImage(before: map<string, Option<Bytes>>, seen: Rows, after: map<string, Option<Bytes>>, c: Coord,
                    row: Row)
    requires ImagesAdded(before, seen, after) && c !in seen
    ensures ImagesAdded(before, seen[c := row],
                        if row.hash.Some? && row.hash.value !in after then after[row.hash.value := row.data] else after)
  {
    var seen' := seen[c := row];
    var after' := if row.hash.Some? && row.hash.value !in after then after[row.hash.value := row.data] else after;
    IdsOfExtended(seen, c, row);
    forall id | id in Ids(seen') && id !in before
      ensures Supplies(seen', id, after'[id])
    {
      if id in Ids(seen) {
        var d :| d in seen && seen[d] == Row(after[id], Some(id));
        assert seen'[d] == seen[d];
      } else {
        assert seen'[c] == Row(after'[id], Some(id));
      }
    }
  }

  method AddImages(images: map<string, Option<Bytes>>, rows: Rows) returns (result: map<string, Option<Bytes>>)
    ensures ImagesAdded(images, rows, result)
  {
    result := images;
    var todo := rows.Keys;
    ghost var seen: Rows := map[];
    while todo != {}
      invariant todo <= rows.Keys && seen == rows - todo
      invariant ImagesAdded(images, seen, result)
    {
      var c :| c in todo;
      var row := rows[c];
      AddOneImage(images, seen, result, c, row);
      if row.hash.Some? && row.hash.value !in result {
        result := result[row.hash.value := row.data];
      }
      todo := todo - {c};
      seen := seen[c := row];
    }
    assert seen == rows;
  }

  lemma ReplaceOneImage(before: map<string, Option<Bytes>>, seen: Rows, after: map<string, Option<Bytes>>, c: Coord,
                        row: Row)
    requires ImagesReplaced(before, seen, after) && c !in seen && row.hash.Some?
    ensures ImagesReplaced(before, seen[c := row], after[row.hash.value := row.data])
  {
    var seen' := seen[c := row];
    var after' := after[row.hash.value := row.data];
    IdsOfExtended(seen, c, row);
    forall id | id in Ids(seen')
      ensures Supplies(seen', id, after'[id])
    {
      if id == row.hash.value {
        assert seen'[c] == Row(after'[id], Some(id));
      } else {
        var d :| d in seen && seen[d] == Row(after[id], Some(id));
        assert seen'[d] == seen[d];
      }
    }
  }

  /** A row without an id breaks NOT NULL: the statement fails and writes nothing. */
  method ReplaceImages(images: map<string, Option<Bytes>>, rows: Rows)
    returns (ok: bool, result: map<string, Option<Bytes>>)
    ensures ok <==> forall c | c in rows :: rows[c].hash.Some?
    ensures ok ==> ImagesReplaced(images, rows, result)
    ensures !ok ==> result == images
  {
    result := images;
    var todo := rows.Keys;
    ghost var seen: Rows := map[];
    while todo != {}
      invariant todo <= rows.Keys && seen == rows - todo
      invariant ImagesReplaced(images, seen, result)
      invariant forall c | c in seen :: seen[c].hash.Some?
    {
      var c :| c in todo;
      var row := rows[c];
      if row.hash.None? {
        return false, images;
      }
      ReplaceOneImage(images, seen, result, c, row);
      result := result[row.hash.value := row.data];
      todo := todo - {c};
      seen := seen[c := row];
    }
    assert seen == rows;
    return true, result;
  }

  /** The ids that some map row refers to. */
  function References(mapping: map<Coord, Option<string>>): set<string> {
    set c | c in mapping && mapping[c].Some? :: mapping[c].value
  }

  /** `DELETE FROM images WHERE NOT EXISTS (SELECT 1 FROM map WHERE map.id = images.id)`. */
  method DeleteUnreferenced(images: map<string, Option<Bytes>>, mapping: map<Coord, Option<string>>)
    returns (result: map<string, Option<Bytes>>)
    ensures result == map id | id in images && id in References(mapping) :: images[id]
  {
    result := images;
    var todo := images.Keys;
    while todo != {}
      invariant todo <= images.Keys
      invariant result == map id | id in images && (id in todo || id in References(mapping)) :: images[id]
    {
      var id :| id in todo;
      if !exists c :: c in mapping && NotEqual(mapping[c], Some(id)) == False {
        assert id !in References(mapping);
        result := result - {id};
      }
      todo := todo - {id};
    }
  }
}
