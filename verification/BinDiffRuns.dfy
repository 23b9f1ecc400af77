/** The two uses of the worker pipeline: every run of the tasks has the effect that the sequential methods
    `RunDiffer` and `RunPatcher` describe. */
module BinDiffRuns {
  import opened Sql
  import opened Tilesets
  import opened Layouts
  import Databases
  import opened BinDiff
  import opened Pipeline

  function DifferCoord(row: DifferBefore): Coord {
    row.coord
  }

  function ApplierCoord(row: ApplierBefore): Coord {
    row.coord
  }

  /** A run of the differ: it returns Ok if and only if every changed tile can be bin-diffed, and then the
      bin-diff table is complete. */
  lemma DifferRun(src: Tables, dif: Tables, patchType: Databases.PatchType, codec: Codec,
                  c: Config<DifferBefore, Databases.BinDiffRow>, workers: nat, actions: seq<Action>,
                  states: seq<State<DifferBefore, Databases.BinDiffRow>>, k: nat)
    requires forall row :: c.process(row) == DifferProcess(row, patchType, codec)
    requires Lists(c.rows, DifferQuery(src, dif), DifferCoord)
    requires IsRun(c, workers, actions, states) && workers > 0 && k < |states| && states[k].Final()
    requires Faultless(actions) && PlainInserts(actions, states, DifferCoord, {})
    ensures states[k].inserter == Returned(true) <==> AllProcess(src, dif, patchType, codec)
    ensures states[k].inserter == Returned(true) ==>
              IsDiffTable(src, dif, patchType, codec, Filled(states[k].inserted, DifferCoord))
  {
    RunVerdict(c, workers, actions, states, DifferQuery(src, dif), DifferCoord, {}, k);
  }

  /** What any run of the differ, failed or not, has inserted so far. */
  lemma DifferRunPartial(src: Tables, dif: Tables, patchType: Databases.PatchType, codec: Codec,
                         c: Config<DifferBefore, Databases.BinDiffRow>, workers: nat, actions: seq<Action>,
                         states: seq<State<DifferBefore, Databases.BinDiffRow>>, k: nat)
    requires forall row :: c.process(row) == DifferProcess(row, patchType, codec)
    requires Lists(c.rows, DifferQuery(src, dif), DifferCoord)
    requires IsRun(c, workers, actions, states) && workers > 0 && k < |states|
    ensures var rows := Filled(states[k].inserted, DifferCoord);
            forall q | q in rows :: q in DifferQuery(src, dif)
                && DifferProcess(DifferQuery(src, dif)[q], patchType, codec) == Some(rows[q])
  {
    PartialTable(c, workers, actions, states, DifferQuery(src, dif), DifferCoord, k);
  }

  /** What any run of the patcher, failed or not, has inserted so far. */
  lemma PatcherRunPartial(src: Tables, table: Databases.BinDiffTable, codec: Codec, c: Config<ApplierBefore, Bytes>,
                          workers: nat, actions: seq<Action>, states: seq<State<ApplierBefore, Bytes>>, k: nat)
    requires Readable(src, table)
    requires forall row :: c.process(row) == PatcherProcess(row, table.patchType, codec)
    requires Lists(c.rows, ReadRows(src, table), ApplierCoord)
    requires IsRun(c, workers, actions, states) && workers > 0 && k < |states|
    ensures var tiles := Filled(states[k].inserted, ApplierCoord);
            forall q | q in tiles :: q in PatcherQuery(src, table)
                && PatcherResult(src, table, codec, q) == Some(tiles[q])
  {
    PartialTable(c, workers, actions, states, ReadRows(src, table), ApplierCoord, k);
  }

  /** The rows that the patcher reads, when all of them can be read. */
  function ReadRows(src: Tables, table: Databases.BinDiffTable): map<Coord, ApplierBefore>
    requires Readable(src, table)
  {
    var query := PatcherQuery(src, table);
    map c | c in query :: query[c].value
  }

  /** A run of the patcher into tables with the given slots: it returns Ok if and only if every bin-diffed
      tile can be patched and no slot is taken, and then the patched tiles are complete. */
  lemma PatcherRun(slots: set<Coord>, src: Tables, table: Databases.BinDiffTable, codec: Codec,
                   c: Config<ApplierBefore, Bytes>, workers: nat, actions: seq<Action>,
                   states: seq<State<ApplierBefore, Bytes>>, k: nat)
    requires Readable(src, table)
    requires forall row :: c.process(row) == PatcherProcess(row, table.patchType, codec)
    requires Lists(c.rows, ReadRows(src, table), ApplierCoord)
    requires IsRun(c, workers, actions, states) && workers > 0 && k < |states| && states[k].Final()
    requires Faultless(actions) && PlainInserts(actions, states, ApplierCoord, slots)
    ensures states[k].inserter == Returned(true) <==>
              PatcherQuery(src, table).Keys !! slots && AllPatch(src, table, codec)
    ensures states[k].inserter == Returned(true) ==>
              IsPatcherOutput(src, table, codec, Stored(Filled(states[k].inserted, ApplierCoord)))
  {
    var query := ReadRows(src, table);
    RunVerdict(c, workers, actions, states, query, ApplierCoord, slots, k);
    assert query.Keys == PatcherQuery(src, table).Keys;
    forall q | q in query
      ensures c.process(query[q]) == PatcherResult(src, table, codec, q)
    {
    }
  }

  /** The patched tiles as column values. */
  function Stored(tiles: map<Coord, Bytes>): Tileset {
    map c | c in tiles :: Some(tiles[c])
  }
}
