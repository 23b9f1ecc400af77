# Verified model of MBTiles comparison, patching and transcoding

This Dafny project models the parts of the martin repository whose correctness is hardest to see,
and proves what they promise. `dafny verify dfyconfig.toml` checks everything.

**Files, patches and copies** (`Sql`, `Tilesets`, `Layouts`, `Statements`, `Queries`, `PatchLaws`,
`PatchTheorems`, `PatchChains`, `MetadataTables`, `Databases`, `BinDiff`, `Copier`, `Patcher`,
`FileTheorems`, `Guards`, `PatchedCopies`). An MBTiles file stores a tileset in one of three physical layouts; `Layouts.View` is
the tileset that a layout denotes, the `tiles` table or view (mbtiles/src/queries.rs:243-246 and
350-358). NULL is an `Option` and a WHERE condition has one of three truth values. A SELECT is a
function (`Queries.SelectCopy`, `SelectDiff`, `SelectPatched`, `SelectPatch`), an
INSERT or DELETE is a method that meets the selected rows in an arbitrary order, and `Database` is the
object that the statements update. `Tilesets.Delta` and `Tilesets.Overlay` say what "compare" and
"apply a patch" mean, independently of any layout, and all results are stated against them or against
the tilesets themselves.

**Bin-diff pipeline** (`Pipeline`, `BinDiffRuns`). Reader, workers, two bounded queues, inserter and error flag as a
state machine (`Pipeline.Step`, mbtiles/src/bindiff.rs:74-167) whose actions are the atomic steps of
the tasks; results hold for every interleaving, any number of workers and any capacity. The sequential
methods `BinDiff.RunDiffer` and `BinDiff.RunPatcher` promise what `BinDiffRuns.DifferRun` and
`BinDiffRuns.PatcherRun` prove of every such run.

**Transcoder** (`Transcoder`, `TileWriter`, `TranscodePaths`), **copy filter** (`CopyFilter`),
**tile rectangles** (`Rectangles`), **frame decoder** (`FrameDecoder`), **reload** (`Reload`,
`ReloadRuns`, `ReloadConcurrency`), **pack and unpack** (`Packing`), **sparse counts** (`TileCount`), and the coordinate
arithmetic they share (`TileCoords`; rows count from the bottom, as in MBTiles 1.3, section "Content").

Hash functions and codecs are function-valued parameters. What is assumed of them is written out where
it is used: decoding undoes encoding (`Codec.Sound`, `Codecs.Sound`), patching with a diff gives the new
bytes, no two of the tiles concerned collide under MD5 (`PatchChains.NoCollision`), equal aggregate
hashes mean equal tilesets for the two tilesets concerned. Nothing is assumed about the aggregate hash
in general: it hashes a concatenation without separators.

## What the proofs found

- The two ways of applying a patch disagree on a Normalized patch without hash view that has a map row
  without image: the in-place patcher reads it by LEFT JOIN and deletes the tile, the copier reads it
  by JOIN and keeps it. `PatchTheorems.ApplyAgreement` says exactly when they agree.
- `BinDiffer::run` can return Ok although its query failed, because the reader stores its error only
  after its sender is gone, and although a row was lost, because a panicking task tells nobody
  (`Pipeline.QueryErrorCanComeTooLate`, `Pipeline.PanicLosesRow`). `Pipeline.OkIsCompleteIff` says exactly
  when Ok means complete.
- A NULL row in the new file is part of its stored aggregate hash but cannot survive a patch, so the
  hash installed by an apply is right if and only if dropping such rows does not change it
  (`FileTheorems.SafeApply`, `FileTheorems.NullRowSpoilsHash`).
- Copying with a patch does not compare the source's hash with the one the patch expects, only the
  result with the one it promises (`Copier.PatchGuard`). `PatchedCopies.PatchedCopyOfAnyBase` and
  `PatchedCopies.BinDiffAnyBase` say for which sources the result is right. For gz patches the result
  is not compared either, so a wrong tile of the source survives unnoticed
  (`PatchedCopies.GzPatchOnWrongBase`), and one NULL tile of the source where a bin-diff is expected can
  cost every bin-diffed tile without an error (`PatchedCopies.GzPatchOnNullTile`).
- When the images statement of the patcher fails on a tile without an id, the map rows before it have
  already been written (`Patcher.ApplyPatch`, `Patcher.FailedApplyChangesBase`).
- The bounding-box filter of a copy tests one corner of a tile, so it leaves out tiles that begin left
  of the box or below it (`CopyFilter.PassesIffBeginsInside`, `CopyFilter.PassesIffSomeBoxBefore`).
- The normalized path of the transcoder does not check coordinates, the general path does
  (`TranscodePaths.PathsAgree`).
- An addition that replaces a live source does not drop its cached tiles, as an update would
  (`Reload.CacheIsCoherent`, `Reload.AdditionKeepsOldTiles`).
- Under Warn a source whose first build failed is not tried again until its version changes
  (`ReloadRuns.FailedAdditionStaysAway`).
- A reloader whose first scan failed keeps sources alive that vanished before the second one
  (`ReloadRuns.DeferredBaselineKeeps`); `ReloadRuns.LiveIdsAreScanned` says exactly when live ids can
  be missing from the latest scan.
- Two file names of one tile, such as `1.png` and `01.png`, are counted twice, which hides missing tiles
  unless none is missing (`TileCount.SameTileTwice`); two directories of one zoom, such as `1` and `01`, are
  boxed separately, which reports too many as skipped (`TileCount.TwoDirectoriesOfOneZoom`). For
  directories of different zooms whose counts fit 64 bits `TileCount.SparseAccounting` says exactly when the
  skipped count is right.

## Model

| member | source | states |
|---|---|---|
| `PatchTheorems.DiffThenApply` | mbtiles/src/copier.rs:800-852 | for any mix of Flat, FlatWithHash and Normalized for source, new file, patch and base: applying the diff in place to a base with the source's tiles gives exactly the new file's tiles without its NULL rows. The only exception, a base that refers to images it lacks, is met if and only if the patch brings one of those images |
| `PatchChains.PatchedFileNeverDrifts` | mbtiles/src/patcher.rs:14-107 | for any number of successive versions and any mix of layouts: a file to which the patch of every version is applied in turn has, after each patch, exactly the tiles of that version, and its hash column and references stay right; the only hypothesis on MD5 is that no two tiles of the versions and the file collide |
| `FileTheorems.SafeApply` | mbtiles/src/patcher.rs:18-47 | end-to-end safety of an unforced apply: if stored hashes are right and tell the tilesets apart, passing the guards means the base held the source's tiles; the result has exactly the new tiles if and only if the patch resolves none of the base's dangling references, it has the new stored hash (and the new metadata, if the base had the source's) and can be patched again; that hash equals the recomputed one if and only if dropping the new file's NULL rows does not change it |
| `FileTheorems.SafeApplyPatch` | mbtiles/src/patcher.rs:14-107 | the dichotomy as one call: an unforced apply of a diff is accepted if and only if the base's stored hash is the source's and it has no before/after hash of its own; refused it leaves the base unchanged, accepted it leaves the new file's hash, and exactly the new tileset if and only if the patch resolves none of the base's dangling references |
| `FileTheorems.AcceptedIff` | mbtiles/src/patcher.rs:18-47 | the guards of an unforced apply let a diff pass if and only if the base is at the source's version: same stored hash, and no before/after hash of its own |
| `FileTheorems.ChainIsNeverRefused` | mbtiles/src/patcher.rs:18-47 | a file at the first of any number of versions accepts the diffs between them one after the other, unforced, in any mix of layouts: none is ever refused |
| `FileTheorems.NullRowSpoilsHash` | mbtiles/src/patcher.rs:88-104 | a NULL row of the new file makes the installed hash wrong whenever the hash notices the row |
| `FileTheorems.NullRowExists` | mbtiles/src/validation.rs:839-866 | a tileset and a hash for which that happens |
| `PatchTheorems.ApplyAgreement` | mbtiles/src/copier.rs:718-798 | for every base and every patch, generated or not, the in-place patcher and the copying patcher give the same tiles if and only if the explicit set of divergent coordinates is empty: non-NULL tiles of a non-flat base under a dangling patch reference, and base references that the patch's images resolve |
| `PatchTheorems.DanglingPatchDiverges` | mbtiles/src/patcher.rs:127-129 | where the two disagree: a tile whose patch row refers to a missing image is deleted in place (LEFT JOIN), and kept by the copier (JOIN) |
| `PatchTheorems.DanglingPatchExists` | mbtiles/src/patcher.rs:127-129 | a concrete patch with such a row |
| `PatchTheorems.NormalizedAgreement` | mbtiles/src/patcher.rs:60-86 | for a fully resolved Normalized base and patch the two ways of applying leave identical `map` and `images` tables, not only the same tiles |
| `PatchTheorems.AppliedStoreWellFormed` | mbtiles/src/patcher.rs:58-86 | in-place application keeps a content-addressed store well formed: references resolve, no image is left unreferenced, every id is still the MD5 of its data |
| `PatchTheorems.ConversionLossless` | mbtiles/src/copier.rs:854-886 | any chain of plain copies through any layouts keeps every tile and the hash convention |
| `PatchTheorems.CopyIntoExisting` | mbtiles/src/copier.rs:513-566 | copying into an existing file gives source over destination under Override and destination over source under Ignore (a slot without value counts as taken), if and only if the copy brings none of the images that the destination refers to and lacks |
| `PatchTheorems.IgnoreKeepsDestination` | mbtiles/src/copier.rs:513-566 | in a destination without unused slots Ignore is plainly destination over source |
| `PatchedCopies.PatchedCopyOfAnyBase` | mbtiles/src/copier.rs:347-357 | copying ANY base while applying a diff, in every layout: the result has the new tiles if and only if the base carries them at every coordinate that the diff does not mention, and its NULL rows are those of the base outside the diff that the layout lets through |
| `PatchedCopies.PatchedCopyOfDiff` | mbtiles/src/copier.rs:347-357 | in particular for a base with the source's tiles |
| `PatchedCopies.PatchedCopySafe` | mbtiles/src/copier.rs:370-391 | what the comparison of hashes after an unforced copy buys: if it passes, and the hash tells the result from the new tileset, the diff did fit the base and the copy holds the new tiles |
| `PatchedCopies.PatchedCopyVerdict` | mbtiles/src/copier.rs:370-391 | for any files the comparison passes if and only if the diff fits the base exactly: the base carries the new tiles outside the diff, the new file has no NULL row, and no NULL row of the base outside the diff gets into the copy; this is when the copy equals the new tileset, NULL rows included |
| `PatchedCopies.CopyWithDiff` | mbtiles/src/copier.rs:318-406 | the whole unforced call, on any base: it succeeds with exactly the new tileset if and only if the diff fits the base exactly, and reports the mismatch otherwise; the new metadata comes along if the base had the source's |
| `PatchedCopies.BinDiffAnyBase` | mbtiles/src/copier.rs:765-797 | the same for bin-diff patches, raw or gz, on any base: once the bin-diff stage got through, the result has the new tiles if and only if every coordinate is replaced as a whole, or is bin-diffed and the base has data there, or holds the new tile already |
| `PatchedCopies.GzPatchOnWrongBase` | mbtiles/src/copier.rs:367-375 | for gz patches no hash of the result is compared: an unforced copy of a base with a wrong tile goes through both stages and keeps the wrong tile |
| `PatchedCopies.WrongBaseExists` | mbtiles/src/copier.rs:367-375 | concrete files of that kind |
| `PatchedCopies.GzPatchOnNullTile` | mbtiles/src/bindiff.rs:368-390 | an unforced gz copy of a base with one NULL tile among the bin-diffed ones can go through although every bin-diffed tile is missing from the result: the reader panics on the NULL and nothing is compared afterwards |
| `PatchedCopies.NullTileExists` | mbtiles/src/bindiff.rs:368-390 | a concrete base of that kind, which fits at one bin-diffed coordinate and not at the other |
| `Tilesets.OverlayDelta` | mbtiles/src/copier.rs:811-814 | reference meaning of diff and patch on plain maps: overlaying the delta of two tilesets on anything that carries the older values yields the newer values, and says exactly which NULL rows survive |
| `Tilesets.OverlayAnyBase` | mbtiles/src/copier.rs:811-814 | overlaying the delta on an arbitrary base yields the newer values if and only if the base carries them outside the delta |
| `Tilesets.EmptyDelta` | mbtiles/src/copier.rs:848-850 | a diff is empty if and only if both sides are equal and hold no NULL row (a NULL row is always written to the diff) |
| `Layouts.StoreExists` | mbtiles/src/validation.rs:698-742 | the content-addressing hypothesis used elsewhere asks for no more than: same id, same bytes |
| `Layouts.HashedIsAddressed` | mbtiles/src/validation.rs:698-742 | under the hash convention that hypothesis is nothing but: no two tiles of the files collide under MD5 |
| `PatchLaws.SelectDiffIsDelta` | mbtiles/src/copier.rs:836-851 | the FULL JOIN of the comparison with its three-valued condition computes exactly the delta |
| `PatchLaws.DiffView` | mbtiles/src/copier.rs:811-814 | a patch file of any layout denotes the delta: in a Normalized patch the id '' carries the deletions |
| `PatchLaws.CopiedView` | mbtiles/src/copier.rs:513-566 | the tiles view after `copy_tiles` into a file without dangling references, coordinate by coordinate, for both duplicate modes |
| `PatchLaws.CopiedCellAnywhere` | mbtiles/src/copier.rs:513-566 | the same for any file: only slots whose missing image the copy brings behave otherwise |
| `PatchLaws.AppliedView` | mbtiles/src/patcher.rs:54-86 | the tiles view after the patcher's INSERT, INSERT, DELETE and garbage collection is the overlay of the rows read, on the base completed by the references that the new images resolve |
| `PatchLaws.SelectPatchData` | mbtiles/src/patcher.rs:109-132 | what the patcher reads from a patch: its tiles view, plus a deletion for every dangling reference when it is read by LEFT JOIN into a non-flat base |
| `PatchTheorems.JoinedView` | mbtiles/src/copier.rs:781-797 | the FULL JOIN that applies a patch while copying is the overlay of the patch on the source |
| `PatchTheorems.DiffReads` | mbtiles/src/patcher.rs:109-132 | the patcher reads exactly the delta back from a diff, whatever the layouts |
| `PatchTheorems.AppliedImagesExact` | mbtiles/src/patcher.rs:72-86 | after garbage collection the images are exactly the referenced ones, each with the bytes its id stands for |
| `PatchTheorems.JoinedImagesExact` | mbtiles/src/copier.rs:541-550 | a normalized patched copy holds exactly the images that its map refers to |
| `PatchChains.DiffIsHonest` | mbtiles/src/copier.rs:811-814 | a diff follows the hash convention whenever the new file does |
| `PatchChains.BinDiffIsHonest` | mbtiles/src/copier.rs:811-814 | so does the add/delete table of a bin-diff patch |
| `PatchChains.JoinedIsHonest` | mbtiles/src/copier.rs:781-797 | copying with a patch keeps the hash convention, in every layout |
| `PatchChains.AppliedIsHonest` | mbtiles/src/patcher.rs:58-86 | in-place application keeps the hash convention and leaves no dangling reference, in every layout |
| `PatchChains.ChainKeepsUp` | mbtiles/src/patcher.rs:14-107 | the invariant behind a chain of patches, step by step |
| `Layouts.TilesWithHashData` | mbtiles/src/queries.rs:369-379 | the `tiles_with_hash` view carries the same tiles as the `tiles` view |
| `Statements.AddImages` | mbtiles/src/copier.rs:541-550 | INSERT OR IGNORE into images: known ids stay, a new id gets the data of one of its rows |
| `Statements.ReplaceImages` | mbtiles/src/patcher.rs:166-171 | INSERT OR REPLACE into images: succeeds exactly when every row has an id |
| `Statements.DeleteUnreferenced` | mbtiles/src/patcher.rs:75-86 | the garbage collection keeps exactly the referenced images |
| `Statements.InsertNew` | mbtiles/src/bindiff.rs:436-455 | a plain INSERT of rows succeeds exactly when no key is taken, and then adds them all |
| `MetadataTables.MetadataAgreement` | mbtiles/src/copier.rs:487-501 | both ways of applying a patch treat every metadata key but the hashes alike |
| `MetadataTables.DiffThenApplyMetadata` | mbtiles/src/patcher.rs:88-104 | comparing and applying carries the new metadata over and installs the promised hash, leaving the before/after keys of the base alone |
| `MetadataTables.DiffThenCopyMetadata` | mbtiles/src/copier.rs:487-501 | comparing and copying with the patch carries it over as well |
| `MetadataTables.DiffThenApplyHashes` | mbtiles/src/patcher.rs:91-104 | the stored aggregate hash after an apply is the new file's |
| `FileTheorems.PatchHashes` | mbtiles/src/copier.rs:295-304 | a patch records the source's hash as expected and the new file's as promised |
| `Guards.ComparisonGuard` | mbtiles/src/copier.rs:237-256 | exactly when an unforced comparison is refused, by the metadata keys of both files, and with which error |
| `Guards.CopyGuard` | mbtiles/src/copier.rs:319-331 | the same for a patched copy; the hash of the base is not compared |
| `Guards.InPlaceGuard` | mbtiles/src/patcher.rs:18-47 | the same for an in-place application, where it is |
| `Guards.ForceSkipsHashChecks` | mbtiles/src/validation.rs:780-832 | force sets aside every check on hashes and nothing else |
| `Guards.DiffFileHashes` | mbtiles/src/copier.rs:295-309 | a diff file stores its own hash, rightly, and those of both sides |
| `Guards.PatchIsNoVersion` | mbtiles/src/validation.rs:790-795 | a patch that a comparison wrote is refused, unforced, as either side of a comparison and as the base of any patch |
| `Guards.VersionIsNoPatch` | mbtiles/src/validation.rs:823-826 | a file that passes as a version is refused, unforced, as a patch |
| `Guards.ApplyBinDiffInPlace` | mbtiles/src/patcher.rs:20-22 | applying a bin-diff patch in place is refused for every base, forced or not, and changes nothing |
| `Guards.DiffPassesChecks` | mbtiles/src/patcher.rs:18-47 | what the checks say to a patch that was just written, for any base that is a version |
| `Databases.Database.UpdateAggTilesHash` | mbtiles/src/validation.rs:641-672 | returns the hash of the current tileset and leaves it stored |
| `Copier.CopyTiles` | mbtiles/src/copier.rs:513-566 | leaves what the relation for `copy_tiles` allows and touches nothing else |
| `Copier.CopyMetadata` | mbtiles/src/copier.rs:460-511 | one of three SELECTs, chosen by what the copy is for, merged under the duplicate mode |
| `Copier.RunSimple` | mbtiles/src/copier.rs:165-229 | a plain copy into a new or an existing file: exactly when it succeeds and which error it gives, that the stored hash is right afterwards, the layout is the one asked for and every other metadata key has the value of the side that the mode prefers; a refused copy changes nothing |
| `Copier.CopiedFileLaw` | mbtiles/src/copier.rs:460-511 | the metadata of a copied file, key by key, and its hash |
| `Copier.NewLayout` | mbtiles/src/copier.rs:587-640 | the layout of a new file: what was asked for, and the extra view only after a verbatim copy |
| `Copier.RunWithDiff` | mbtiles/src/copier.rs:232-315 | a comparison succeeds exactly when its guards pass and every changed tile can be bin-diffed; the diff file then stores its own hash, rightly, and the hashes of both sides, has the layout that was asked for and the bin-diff table of the kind that was asked for |
| `Copier.RunWithPatch` | mbtiles/src/copier.rs:318-406 | a patched copy fails exactly as its guards say, on a tile that cannot be patched, or when the tiles it wrote do not have the promised hash; otherwise it writes the patched file, which stores its hash, rightly, and has the metadata of the patch over that of the source; unforced and with a patch that is not gz the hash is the promised one, forced or with gz the copy never fails on it; a NULL tile is never a failure |
| `Patcher.ApplyPatch` | mbtiles/src/patcher.rs:14-107 | a refused patch leaves the base as it was; otherwise the patch is applied, or the NOT NULL constraint fails exactly on a tile without an id, and then the base has the map rows of the first statement and nothing else; a bin-diff patch is refused whatever the base and the force option |
| `Patcher.PartlyAppliedUnchanged` | mbtiles/src/patcher.rs:57-63 | such a failure leaves the base unchanged if and only if its map already had all those rows |
| `Patcher.FailedApplyChangesBase` | mbtiles/src/patcher.rs:57-63 | a FlatWithHash patch with a tile that has no hash, on a Normalized base: the apply fails and the base has changed |
| `Patcher.ApplyTiles` | mbtiles/src/patcher.rs:54-86 | the statements on the tile tables, including what is already written when the images statement fails |
| `Patcher.ApplyMetadata` | mbtiles/src/patcher.rs:88-104 | the two metadata statements |
| `FileTheorems.BinDiffExact` | mbtiles/src/copier.rs:765-797 | applying both parts of a bin-diff patch gives exactly the new tiles; bin-diffed tiles of a gz patch are equal after decompression |
| `FileTheorems.BinDiffCopy` | mbtiles/src/copier.rs:318-406 | the same about the files that a comparison and a patched copy write: tiles, hash and metadata |
| `PatchedCopies.CopyWithBinDiff` | mbtiles/src/copier.rs:318-406 | the whole unforced call with a bin-diff patch on a file with its source's tiles: it always succeeds, and gives the new tiles (gz up to decompression), if what was unzipped can be zipped again |
| `PatchedCopies.RawBinDiffSafe` | mbtiles/src/copier.rs:370-391 | on any base: an unforced copy with a raw bin-diff patch that goes through has exactly the new tileset, if the hash tells it from the result |
| `PatchedCopies.PatchedCopyIsHonest` | mbtiles/src/bindiff.rs:436-455 | a patched copy follows the hash convention, bin-diffed tiles included |
| `FileTheorems.BinDiffPartition` | mbtiles/src/copier.rs:832-851 | every coordinate with a tile on either side is in exactly one of: unchanged, the add/delete table, the bin-diff table |
| `Copier.BinDiffKeysFree` | mbtiles/src/bindiff.rs:436-455 | for every base and every patch the patcher's plain INSERT never meets a key that the join already wrote |
| `FileTheorems.BinDiffRoundTrip` | mbtiles/src/bindiff.rs:268-288 | one tile: what the patcher makes of what the differ wrote |
| `FileTheorems.BinDiffSucceeds` | mbtiles/src/bindiff.rs:390-430 | on the tiles it was made from, a raw bin-diff never fails, hash check included |
| `BinDiff.RunDiffer` | mbtiles/src/bindiff.rs:213-307 | the differ succeeds exactly when every row can be processed, and then fills the table with one row per changed tile |
| `BinDiffRuns.DifferRun` | mbtiles/src/bindiff.rs:213-307 | so does every run of the worker pipeline on the differ's query, whatever the interleaving: Ok if and only if every changed tile can be bin-diffed, with a complete table |
| `BinDiffRuns.PatcherRun` | mbtiles/src/bindiff.rs:347-455 | the same for the patcher: Ok if and only if every tile can be patched and no key is taken, with all patched tiles |
| `BinDiffRuns.DifferRunPartial` | mbtiles/src/bindiff.rs:213-307 | whatever any run of the differ has inserted, failed or not and in any interleaving, is the processed form of changed tiles |
| `BinDiffRuns.PatcherRunPartial` | mbtiles/src/bindiff.rs:347-455 | the same for the patcher: every inserted tile is the right patched tile |
| `BinDiff.ProcessRows` | mbtiles/src/bindiff.rs:348-430 | the patcher's rows in any order, with the panic on a NULL tile that silently ends the reader |
| `BinDiff.RunPatcher` | mbtiles/src/bindiff.rs:390-455 | the patcher fails exactly when a row cannot be processed or its key is taken |
| `Pipeline.Conserves` | mbtiles/src/bindiff.rs:74-167 | whatever happens, failures and panics included, no step of any task duplicates a row or drops one unrecorded: rows read are held by a task, queued, inserted or on record as lost |
| `Pipeline.StepInv` | mbtiles/src/bindiff.rs:102-167 | the invariant (unconditional conservation as multisets, nothing lost while nothing went wrong, faithful results, orderly endings) survives every step |
| `Pipeline.RunInv` | mbtiles/src/bindiff.rs:74-167 | every state of every run satisfies it, for any number of workers and any capacity |
| `Pipeline.OkMeansComplete` | mbtiles/src/bindiff.rs:94-98 | a run that returns Ok, whose query did not fail and whose tasks did not panic, has inserted the processed form of every row exactly once |
| `Pipeline.OkIsCompleteIff` | mbtiles/src/bindiff.rs:94-98 | exactly when Ok means complete, whatever happened before: the rows of the query are inserted, each once, if and only if all were read, none was lost and none is left in a queue nobody serves |
| `Pipeline.PartialTable` | mbtiles/src/bindiff.rs:102-131 | in every state of every run the inserted rows are processed forms of rows of the query, keyed by their coordinates |
| `Pipeline.OkFillsTable` | mbtiles/src/bindiff.rs:102-131 | such a run fills the table with the processed form of every row of the query and never meets a key twice |
| `Pipeline.RunVerdict` | mbtiles/src/bindiff.rs:74-167 | a run without faults of the query, the set-up or a task that has ended returned Ok if and only if every row can be processed and no key is taken, and then the table is complete |
| `Pipeline.FlagLimitsWork` | mbtiles/src/bindiff.rs:149-165 | once the error flag is set no worker takes more than one further row, in any run |
| `Pipeline.QueryFailureIsReported` | mbtiles/src/bindiff.rs:83-98 | a failed query is reported unless its error is stored after `run` has looked at the flag |
| `Pipeline.StaysClean` | mbtiles/src/bindiff.rs:136-167 | such a run on rows that can all be processed and inserted never sets the flag and never stops early |
| `Pipeline.Progress` | mbtiles/src/bindiff.rs:111-123 | in every state in which some task has not ended some step is enabled, also after failures and with full queues |
| `Pipeline.StepDecreases` | mbtiles/src/bindiff.rs:149-165 | every step uses up some of a natural-number measure |
| `Pipeline.RunsAreFinite` | mbtiles/src/bindiff.rs:74-167 | no run is longer than the measure of its start |
| `Pipeline.QueryErrorCanComeTooLate` | mbtiles/src/bindiff.rs:83-88 | a reachable state in which `run` has returned Ok, nothing was inserted and the query's error is yet to be stored |
| `Pipeline.PanicLosesRow` | mbtiles/src/bindiff.rs:149-165 | a reachable final state with Ok in which a panicking worker has lost the row of the query |
| `CopyFilter.GetWhereClause` | mbtiles/src/copier.rs:671-715 | the clause lets a stored row pass if and only if its zoom is wanted and its south-west corner cell at zoom 30 lies in some box (with the y axis turned around); for rows outside the grid, if and only if the scaled row lies in a turned box |
| `CopyFilter.PassesIffBeginsInside` | mbtiles/src/copier.rs:705-708 | no false positives, and exactly which tiles are missed: a tile that meets the box passes if and only if it does not begin left of it or below it |
| `CopyFilter.PassesIffSomeBoxBefore` | mbtiles/src/copier.rs:691-713 | the whole clause: a tile of a wanted zoom is missed exactly when it begins left of or below every box that it meets |
| `CopyFilter.AlignedIsExact` | mbtiles/src/copier.rs:705-708 | a box whose left and lower edges are tile edges of the zoom is filtered exactly |
| `CopyFilter.DeepestZoomIsExact` | mbtiles/src/copier.rs:705-708 | at zoom 30 the filter is exact |
| `CopyFilter.WorldTileIsMissed` | mbtiles/src/copier.rs:705-708 | the tile of zoom 0 meets every box and passes only boxes that reach the left and lower edges |
| `CopyFilter.ZoomRule` | mbtiles/src/copier.rs:671-686 | an explicit list of zooms overrides the range, and a missing bound is no bound |
| `CopyFilter.CornerIsSouthWest` | mbtiles/src/copier.rs:705-708 | the corner cell is part of the tile, and no part of the tile is left of it or below it |
| `CopyFilter.FilteredCopy` | mbtiles/src/copier.rs:513-566 | a filtered copy into a new file of any layout has exactly the tiles that pass |
| `TileCoords.InvertYInvolution` | mbtiles/src/lib.rs:63-65 | inversion stays on the grid and undoes itself |
| `TileCoords.RowsCountFromTheBottom` | mbtiles/src/mbtiles.rs:731-744 | a stored row counts from the bottom what a coordinate counts from the top |
| `TileCoords.RowRoundTrip` | mbtiles/src/mbtiles.rs:731-744 | stored rows that exist and tile coordinates are in bijection; everything else is rejected |
| `Rectangles.OverlapMeansSharedCell` | martin-tile-utils/src/rectangle.rs:101-107 | two rectangles overlap if and only if they share a tile |
| `Rectangles.GetNonOverlapping` | martin-tile-utils/src/rectangle.rs:133-160 | each part is exactly what lies in its region, and is smaller than the whole |
| `Rectangles.PartsTile` | martin-tile-utils/src/rectangle.rs:133-160 | the parts tile the difference: nothing missed, nothing twice |
| `Rectangles.AppendRect` | martin-tile-utils/src/rectangle.rs:180-193 | old entries stay in front, the covered tiles are the old ones plus the new rectangle's, the list stays pairwise disjoint; the recursion ends because parts shrink |
| `Rectangles.AppendAll` | martin/src/bin/martin-cp.rs:246-258 | appending any rectangles gives a disjoint list that covers exactly their tiles |
| `Rectangles.SizeIsCount` | martin-tile-utils/src/rectangle.rs:123-125 | the size is the number of tiles |
| `Rectangles.AppendAllCounts` | martin-tile-utils/src/rectangle.rs:123-125 | the sizes of the result add up to the number of distinct tiles asked for, within 64 bits, for all rectangles of existing tiles |
| `Rectangles.OrderIrrelevant` | martin-tile-utils/src/rectangle.rs:180-193 | that total depends on neither order nor repetition of the rectangles |
| `FrameDecoder.DecodeLengthAndTag` | martin-tile-utils/src/lib.rs:359-407 | the loop over frames computes the recursive decoder, every error included |
| `FrameDecoder.DecodeFrame` | martin-tile-utils/src/lib.rs:365-405 | the loop over the size bytes of one frame, whose 64-bit counters never overflow, and what follows them |
| `FrameDecoder.DecodePayload` | martin-tile-utils/src/lib.rs:383-404 | tag, length check and payload |
| `FrameDecoder.AcceptsIffFrames` | martin-tile-utils/src/lib.rs:358-407 | accepted are exactly the nonempty concatenations of frames of the grammar |
| `FrameDecoder.ReadFrameIsFrame` | martin-tile-utils/src/lib.rs:365-405 | one frame is read exactly when the input starts with one, and reading stops right behind it |
| `FrameDecoder.ReadFrameAt` | martin-tile-utils/src/lib.rs:383-404 | with a complete size field the verdict depends on tag and length alone, error by error |
| `FrameDecoder.ReadFrameUnended` | martin-tile-utils/src/lib.rs:369-377 | without a complete size field the verdict is truncation or overflow |
| `FrameDecoder.FirstBadFrame` | martin-tile-utils/src/lib.rs:358-407 | behind any accepted frames, exactly which error the next bytes give |
| `FrameDecoder.RejectedSplits` | martin-tile-utils/src/lib.rs:358-407 | every rejected input but the empty one is some frames followed by bytes that do not begin with one, so the error of every input is determined |
| `FrameDecoder.AcceptedPrefix` | martin-tile-utils/src/lib.rs:362-407 | behind accepted frames the result, error included, is that of the rest |
| `TranscodePaths.TranscodeGeneral` | mbtiles/src/transcoder.rs:285-320 | for flat sources the destination's tiles are the transform on every possible tile of the source, in every destination layout with right hashes; batch sizes, flushes and cache state cannot be seen; hits plus encodes is the number of tiles, every different content is encoded at least once, and nothing is a hit when all tiles are large or no two small ones share a key |
| `TranscodePaths.TranscodeNormalized` | mbtiles/src/transcoder.rs:230-282 | for normalized sources the destination's tiles are the transform on the tiles view, every image encoded once, whatever the batches and chunks |
| `TranscodePaths.PathsAgree` | mbtiles/src/transcoder.rs:428-514 | the destinations of the normalized path and of the general path, for the same tiles stored normalized and flat, agree if and only if no accepted tile lies outside the grid |
| `TranscodePaths.TranscodeBoth` | mbtiles/src/transcoder.rs:205-216 | running both paths on the same tiles, into destinations of any two layouts, gives that result |
| `TranscodePaths.OffGridTile` | mbtiles/src/transcoder.rs:622-627 | a tile that the normalized path keeps and the general path drops |
| `Transcoder.DedupCache.TranscodeCached` | mbtiles/src/transcoder.rs:705-753 | a lookup gives what the transform would, keeps the cache sound, and counts a hit exactly for a small tile whose key has an entry, an encode for any other tile that the transform accepts |
| `Transcoder.KeyRule` | mbtiles/src/transcoder.rs:625-640 | a stored hash of 32 hexadecimal digits is the key of its tile; any other tile goes by the hash of its bytes |
| `TranscodePaths.ContentsCount` | mbtiles/src/transcoder.rs:705-753 | whatever the cache does, each different content is encoded at least once |
| `TranscodePaths.DistinctKeysCount` | mbtiles/src/transcoder.rs:705-753 | with different keys every tile is encoded on its own |
| `Transcoder.ComputeBatch` | mbtiles/src/transcoder.rs:656-702 | a batch in any order and with any evictions in between gives the uncached results in batch order |
| `Transcoder.GeneralCompute` | mbtiles/src/transcoder.rs:656-702 | all batches together give the uncached transform |
| `Transcoder.GeneralReader` | mbtiles/src/transcoder.rs:600-653 | every readable tile once, in nonempty batches of bounded size |
| `TileWriter.InsertTiles` | mbtiles/src/mbtiles.rs:612-648 | a batch insert under Override, layout by layout |
| `TileWriter.InsertedConcat` | mbtiles/src/mbtiles.rs:612-648 | where a long batch is cut makes no difference |
| `TileWriter.InsertedView` | mbtiles/src/mbtiles.rs:681-716 | a new file of any layout denotes exactly the inserted tiles, with right hashes |
| `TileWriter.GeneralWriter` | mbtiles/src/transcoder.rs:756-805 | all batches are written and counted, whenever the size or the clock forces a flush |
| `TranscodePaths.EncodedTileset` | mbtiles/src/transcoder.rs:756-805 | inserting each tile of a tileset once gives that tileset |
| `TranscodePaths.NormalizedReader` | mbtiles/src/transcoder.rs:339-377 | every image with data once |
| `TranscodePaths.NormalizedCompute` | mbtiles/src/transcoder.rs:380-419 | the transform on every image, failures dropped |
| `TranscodePaths.WriteNormalizedChunk` | mbtiles/src/transcoder.rs:517-597 | one chunk: tables, id map and affected rows |
| `TranscodePaths.ChunkWrittenConcat` | mbtiles/src/transcoder.rs:455-464 | cutting the images into chunks makes no difference |
| `TranscodePaths.WriteBatch` | mbtiles/src/transcoder.rs:455-464 | a batch in chunks under the parameter limit is the batch in one piece |
| `TranscodePaths.NormalizedWriter` | mbtiles/src/transcoder.rs:428-514 | the finished destination and both counters |
| `TranscodePaths.FannedOutIsTranscoded` | mbtiles/src/transcoder.rs:517-582 | fanning encoded images out over the map is the transform on the tiles view |
| `TranscodePaths.RemappedView` | mbtiles/src/transcoder.rs:470-500 | re-hashed ids resolve to the encoded data and denote the same tiles |
| `Reload.FromSets` | martin/src/reload.rs:43-75 | added ids are built once each, vanished ids are removed |
| `Reload.FromMaps` | martin/src/reload.rs:77-115 | the same with versions: a changed version is an update |
| `Reload.TileSourceManager.InsertSources` | martin/src/tile_source_manager.rs:89-107 | entries in order: under Warn failures are skipped, under Abort everything before the first failure stays; with invalidation the cached tiles of exactly the replaced sources go |
| `Reload.TileSourceManager.RemoveSources` | martin/src/tile_source_manager.rs:126-132 | removed sources leave the registry, and exactly their tiles leave the cache |
| `Reload.TileSourceManager.ApplyChanges` | martin/src/tile_source_manager.rs:84-141 | the registry after an advisory, and key by key which cached tiles are left: those of sources that no update replaced and no removal dropped; when it stops at a failure, exactly how far both got. Unless an addition replaces a live source, every tile left in the cache comes from a source that is live as it was |
| `Reload.CacheLaw` | martin/src/tile_source_manager.rs:90-132 | which cached tiles an advisory leaves, key by key |
| `Reload.CacheIsCoherent` | martin/src/tile_source_manager.rs:90-132 | a tile left in the cache comes from a source that is still live as it was, after success and after an abort, unless an addition replaced a live source |
| `Reload.AdditionKeepsOldTiles` | martin/src/tile_source_manager.rs:109-124 | an addition that replaces a live source and leaves its old tiles cached |
| `ReloadRuns.ReloadDriver.Reconcile` | martin/src/config/file/tiles/driver/reconcile.rs:72-119 | one tick under either policy: failed scans change nothing, first scans are only recorded; the baseline moves on if and only if nothing is refused, and then, id by id and key by key, a source not scanned but known is gone, a new version is live if it could be built, everything else is as before, and exactly the cached tiles of dropped and replaced sources are gone; otherwise exactly how far the advisory got, and a tile dropped from the cache belongs to a source that was replaced |
| `ReloadRuns.ReloadDriver.Spawn` | martin/src/config/file/tiles/driver/reconcile.rs:49-70 | the whole life of a reloader under Warn, with a seeded, a deferred or an empty baseline, is the run that the following results are about |
| `ReloadRuns.ReloadDriver.ReconcileAgain` | martin/src/config/file/tiles/driver/reconcile.rs:112-118 | under Abort, a tick that fails and a second one that finds the same scan and can build everything end where one good tick would have, and leave in the cache nothing of what changed or went |
| `ReloadRuns.AppliedIsTicked` | martin/src/tile_source_manager.rs:84-141 | applying the comparison of two scans is the tick, id by id |
| `ReloadRuns.TickLaw` | martin/src/config/file/tiles/driver/reconcile.rs:88-111 | a tick id by id, in terms of the two scans |
| `ReloadRuns.StaleLaw` | martin/src/tile_source_manager.rs:90-132 | the cached tiles that a tick leaves, in terms of the two scans |
| `ReloadRuns.DroppedIsReplaced` | martin/src/tile_source_manager.rs:90-107 | even a tick that fails drops a cached tile only for a source that it has replaced |
| `ReloadRuns.LiveIsLastInstall` | martin/src/config/file/tiles/driver/reconcile.rs:72-119 | over any run under Warn, from any registry and with any baseline or none, the live source of an id is exactly the one installed last (at the start or by the last successful build) if no tick has dropped the id since |
| `ReloadRuns.LiveIdsAreScanned` | martin/src/config/file/tiles/driver/reconcile.rs:50-70 | the live ids of a reloader are all in its latest scan if and only if every id of its own that was live at the start was in the recorded baseline or has been scanned since |
| `ReloadRuns.DeferredBaselineKeeps` | martin/src/config/file/tiles/driver/reconcile.rs:82-87 | when the first scan failed, a source that vanished before the second one stays live although no scan has it |
| `ReloadRuns.KnownIdsAreScanned` | martin/src/tile_source_manager.rs:126-132 | an id that the reloader has seen is live only while it is in the latest scan |
| `ReloadRuns.OthersUntouched` | martin/src/tile_source_manager.rs:84-141 | ids that were not in the baseline and are never scanned stay as they are |
| `ReloadRuns.FailedAdditionStaysAway` | martin/src/tile_source_manager.rs:118-121 | under Warn a source that could not be built stays away while its version stays |
| `ReloadRuns.RetryRepairs` | martin/src/config/file/tiles/driver/reconcile.rs:112-118 | under Abort a failed tick leaves no trace: a retry that can build everything ends where it would have ended without the failure |
| `ReloadConcurrency.AdvisoryOpsApply` | martin/src/tile_source_manager.rs:89-132 | performing the single operations of an advisory, removals in any order, is applying it |
| `ReloadConcurrency.RunOpsApply` | martin/src/config/file/tiles/driver/reconcile.rs:49-119 | alone, the operations of a whole run are the run |
| `ReloadConcurrency.SomeRunOps` | martin/src/config/file/tiles/driver/reconcile.rs:49-119 | every run has such operations, so the results below are about every set of runs |
| `ReloadConcurrency.RunOpsOwned` | martin/src/tile_source_manager.rs:13-16 | a reloader that sees only its own ids operates only on its own ids |
| `ReloadConcurrency.InterleavingIsOwnRun` | martin/src/tile_source_manager.rs:13-16 | however the single operations of several reloaders with disjoint ids interleave, over any number of ticks, the registry holds for an id what its own reloader's run alone would leave |
| `ReloadConcurrency.LiveIsLastInstallConcurrently` | martin/src/tile_source_manager.rs:13-16 | so the description of live sources holds under concurrency |
| `ReloadConcurrency.InterleavingIsSequential` | martin/src/tile_source_manager.rs:13-16 | every interleaving ends in the registry of running the reloaders one after the other |
| `ReloadConcurrency.InterleavingsAgree` | martin/src/tile_source_manager.rs:13-16 | any two interleavings of the same steps on disjoint ids end in the same registry |
| `Packing.PackUnpack` | mbtiles/src/pack.rs:127-279 | unpacking a packed tree with the same scheme reproduces every coordinate and the once-decoded contents, for any number of batches and every compression mode, when decoded contents do not look gzip-ed again |
| `Packing.PackUnpackSucceeds` | mbtiles/src/pack.rs:240-272 | unpacking such a file cannot fail on a tile |
| `Packing.TileRoundTrip` | mbtiles/src/pack.rs:293-311 | for one tile the round trip holds if and only if it is not a tile that was compressed twice, is to be stored uncompressed and decodes to something else the second time |
| `Packing.Pack` | mbtiles/src/pack.rs:127-206 | packing into a new or an existing output file succeeds exactly when every file can be packed with the format of the first, no two files share a row and none needs a row that is taken, wherever batches are cut; the rows are added to those already there, which stay; with sound codecs every file is stored under the row that its scheme says, gzip-ed if vector tiles or all tiles are to be, and decoded otherwise; which error means what |
| `Packing.StoredTile` | mbtiles/src/pack.rs:142-175 | what a compression mode and a scheme ask for: the row of a file, and whether its contents are gzip-ed or decoded |
| `Packing.PackedFiles` | mbtiles/src/pack.rs:127-206 | so for every file of a packed tree, and what was in the output file stays |
| `Packing.OneFormat` | mbtiles/src/pack.rs:160-169 | packed files have one format and different places |
| `Packing.PlainRule` | martin-tile-utils/src/lib.rs:245-262 | gzip and zlib are told by their first two bytes |
| `Packing.WrittenAt` | mbtiles/src/pack.rs:243-264 | where a stored row is written and in which encoding |
| `Packing.Unpack` | mbtiles/src/pack.rs:210-279 | unpacking succeeds exactly with a format and when every row is a tile that can be decoded, and writes exactly the tiles with data, each under its column and row as the scheme counts it, decoded if it is gzip-ed; which error means what |
| `Packing.StoredRowPlace` | mbtiles/src/pack.rs:171-175 | packing a file and looking its place up again leads back to it, in both schemes |
| `TileCount.CountTiles` | martin-tiler/src/generate.rs:625-677 | the tallies per zoom and the dense total, with the wrap-around of 32 and 64 bits |
| `TileCount.BoundingBoxIsLeast` | martin-tiler/src/generate.rs:643-667 | the running extremes are the least rectangle around the tiles |
| `TileCount.TallyLaw` | martin-tiler/src/generate.rs:668-673 | in directories of different zooms each zoom with a tile has one tally under its own number, never below its number of tiles and equal to it if and only if no tile has two names |
| `TileCount.TalliesSorted` | martin-tiler/src/generate.rs:641-673 | the tallies come in the order of the zooms |
| `TileCount.NamedCount` | martin-tiler/src/generate.rs:647-663 | counted are exactly the files whose own name and whose directory's name are numbers |
| `TileCount.NamedAre` | martin-tiler/src/generate.rs:647-663 | and the tiles are those that they name |
| `TileCount.SparseAccounting` | martin-tiler/src/generate.rs:641-676 | for directories of pairwise different zooms whose counts fit their machine integers (`WellFormed`): the dense total is the number of tiles in the bounding boxes; the tallies are never below the number of tiles and equal to it if and only if no tile has two names; the skipped count is exactly the number of missing tiles if and only if no tile has two names or every box is full |
| `TileCount.GridIsWellFormed` | martin-tiler/src/generate.rs:632-644 | names on the grid of their zoom, in directories of different zooms, satisfy that hypothesis |
| `TileCount.TwoDirectoriesOfOneZoom` | martin-tiler/src/generate.rs:632-644 | without it: two directories such as `1` and `01` for which one tile is missing and two are reported skipped |
| `TileCount.SameTileTwice` | martin-tiler/src/generate.rs:657-662 | names on disk for which two tiles are missing and one is reported skipped |

## Left out

- Statements.InsertRows: rows selected for one statement have distinct keys, which the primary keys and joins of the schemas guarantee; a file without its unique index is not modelled.
- Patcher.ApplyPatch: the base and the patch are different files, and no other process writes to them meanwhile.
- BinDiff.RunDiffer: the effect of a run in which the query does not fail and no task panics. What a failed run can have inserted is `BinDiffRuns.DifferRunPartial`; how much of it was committed, in hundreds of rows, is not modelled.
- BinDiff.RunPatcher: as for the differ, with `BinDiffRuns.PatcherRunPartial`; a NULL source tile ends the reader silently, and then only the tiles that were read are described.
- Copier.RunSimple: the destination file is given or new; an existing empty file is treated as new, and `CopyType` other than all, `skip_agg_tiles_hash`, `validate` and `strict` are not modelled.
- Copier.RunWithDiff: the check that the target file is empty, and a partial target file left by a failure, are not modelled; nor is the optional validation, or zoom and box filters together with a diff.
- Copier.RunWithPatch: the same as for a diff.
- CopyFilter.GetWhereClause: boxes are already projected to zoom 30 (the projection from degrees is floating-point and not part of this model).
- Packing.Pack: the rows that a failed pack leaves in the output file are not described. When several files are bad, which of them is reported is not stated. The inversion of a row that does not exist is the panic that the comment in `parse_tile_index` names; a build without overflow checks would wrap around instead. Which of several errors is reported first can differ when such a row waits in a batch.
- Packing.Unpack: an unknown format name in the metadata, and the extension of the files, are not modelled.
- TranscodePaths.TranscodeGeneral: the destination is a new file; what a transcode into a file that already holds tiles leaves is not described.
- TranscodePaths.TranscodeNormalized: as for the general path, the destination is a new file.
- Transcoder.ComputeBatch: the cache may drop any entry at any time, so nothing is promised about how many hits there are.
- TileCount.SparseAccounting: a total that wraps around 64 bits is described by `TileCount.CountTiles` alone.
- TileWriter.InsertTiles: only the Override mode, which the transcoder uses; `Packing.InsertBatch` covers Abort on flat files.
- FrameDecoder.DecodeFrame: the nested loops are one method each; shifting by seven and or-ing seven bits is written as arithmetic; that the counters fit into 64 bits is proved.
- Rectangles.AppendRect: the vector that grows in place is passed in and returned as a sequence.
- TileCount.CountTiles: zoom directories come sorted, and a tally is a mathematical integer.
- Reload.TileSourceManager.ApplyChanges: tiles that a concurrent request caches between invalidation and replacement are not modelled.
- ReloadConcurrency.InterleavingIsOwnRun: the runs are under Warn, the interleaved steps are single registry operations, and the shared cache is not part of the statement.
- The SQLite engine, WAL, PRAGMAs, ATTACH, schema detection and logging: a file is its tables.
- MD5, xxh3, gzip, zlib, brotli and bsdiff: parameters with the hypotheses named above; Brotli and Zstd tiles in `pack` are not modelled.
- The DedupId schema: its ids are not content hashes. `CopyDuplicateMode::Abort` in `copy_tiles`.
- `check_each_tile_hash` and `detect_format` as procedures; the conditions they check appear as predicates (`Layouts.Hashed`, `Layouts.Tables.Resolved`, `PatchTheorems.ImagesHashed`).
- The metadata copy of the transcoder, the metadata and bounds that `pack` derives, progress reports, and committing every hundred inserted rows.
- Floating-point projection, format detection beyond the frame decoder, TileJSON, styles, HTTP servers, the user interface, GDAL calls and PostGIS.
