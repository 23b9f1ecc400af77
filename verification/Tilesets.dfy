/** Tilesets as partial maps, and the algebra of patches on them: the reference meaning of
    "compare two files" and "apply a patch", independent of any table layout. */
module Tilesets {
  import opened Sql

  type Byte = x: int | 0 <= x < 256
  type Bytes = seq<Byte>

  /** A row key of the tile tables; the columns are any integers. */
  datatype Coord = Coord(z: int, x: int, y: int)

  /** The rows of the `tiles` table or view: `tile_data` is nullable. */
  type Tileset = map<Coord, Option<Bytes>>

  /** The rows that hold a value. */
  function DropNull<K, V>(m: map<K, Option<V>>): map<K, Option<V>> {
    map k | k in m && m[k].Some? :: m[k]
  }

  /** The keys whose row holds NULL. */
  function NullKeys<K, V>(m: map<K, Option<V>>): set<K> {
    set k | k in m && m[k].None?
  }

  /** A patch row with a value replaces or adds, a patch row with NULL deletes. */
  function Overlay<K, V>(base: map<K, Option<V>>, patch: map<K, Option<V>>): map<K, Option<V>> {
    map k | k in base.Keys + patch.Keys && (k in patch ==> patch[k].Some?) ::
      if k in patch then patch[k] else base[k]
  }

  /** The patch that turns `old` into `new`: NULL where `new` has nothing to offer. */
  function Delta<K, V(==)>(older: map<K, Option<V>>, newer: map<K, Option<V>>): map<K, Option<V>> {
    map k | k in older.Keys + newer.Keys
            && (Cell(older, k).None? || Cell(newer, k).None? || Cell(older, k) != Cell(newer, k)) ::
      Cell(newer, k)
  }

  /** Exactness of the algebra: patching any base that carries `older`'s values yields `newer`'s
      values; NULL rows survive only where the base has one that the patch does not mention. */
  lemma OverlayDelta<K, V>(base: map<K, Option<V>>, older: map<K, Option<V>>, newer: map<K, Option<V>>)
    requires DropNull(base) == DropNull(older)
    ensures DropNull(Overlay(base, Delta(older, newer))) == DropNull(newer)
    ensures NullKeys(Overlay(base, Delta(older, newer))) == NullKeys(base) - older.Keys - newer.Keys
  {
    var patched := Overlay(base, Delta(older, newer));
    forall k
      ensures Cell(patched, k) == Cell(newer, k)
      ensures k in NullKeys(patched) <==> k in NullKeys(base) - older.Keys - newer.Keys
    {
      assert Cell(DropNull(base), k) == Cell(DropNull(older), k);
      assert Cell(base, k) == Cell(older, k);
      if k in older || k in newer {
        assert k in Delta(older, newer) <==>
          Cell(older, k).None? || Cell(newer, k).None? || Cell(older, k) != Cell(newer, k);
      }
    }
    assert forall k :: k in DropNull(patched) <==> Cell(patched, k).Some?;
    assert forall k :: k in DropNull(newer) <==> Cell(newer, k).Some?;
  }

  /** A base to which the delta can be applied: outside the delta it already carries the newer values. */
  ghost predicate Fits<K(!new), V>(base: map<K, Option<V>>, older: map<K, Option<V>>, newer: map<K, Option<V>>) {
    forall k :: k in Delta(older, newer) || Cell(base, k) == Cell(newer, k)
  }

  /** For an arbitrary base, patching yields the newer values if and only if the base fits. */
  lemma OverlayAnyBase<K(!new), V>(base: map<K, Option<V>>, older: map<K, Option<V>>, newer: map<K, Option<V>>)
    ensures DropNull(Overlay(base, Delta(older, newer))) == DropNull(newer) <==> Fits(base, older, newer)
  {
    var patched := Overlay(base, Delta(older, newer));
    forall k
      ensures Cell(DropNull(patched), k) == Cell(patched, k) && Cell(DropNull(newer), k) == Cell(newer, k)
      ensures Cell(patched, k) == if k in Delta(older, newer) then Cell(newer, k) else Cell(base, k)
    {
    }
    if Fits(base, older, newer) {
      assert forall k :: k in DropNull(patched) <==> Cell(patched, k).Some?;
      assert forall k :: k in DropNull(newer) <==> Cell(newer, k).Some?;
    }
  }

  /** A delta is empty exactly when both sides hold the same values and no NULL row. */
  lemma EmptyDelta<K, V>(older: map<K, Option<V>>, newer: map<K, Option<V>>)
    ensures Delta(older, newer) == map[]
            <==> older == newer && NullKeys(older) == {}
  {
    if Delta(older, newer) == map[] {
      forall k | k in older.Keys + newer.Keys
        ensures k in older && k in newer && older[k] == newer[k] && older[k].Some?
      {
        assert k !in Delta(older, newer);
      }
    } else {
      var k :| k in Delta(older, newer);
      if older == newer {
        assert k in NullKeys(older);
      }
    }
  }
}
