# Chunk storage of a tile world, in Dafny

The world is an unbounded grid of cells, cut into 8 x 8 chunks. This project
models two Java classes that store that grid.

- `ChunkUtilImpl` maps world coordinates to chunk coordinates and back. It
  also reads an 8-byte occupancy bitmap with three operations: `isEmpty`,
  `getPos` and `getSize`. Byte `y` is row `y` and bit `x` is column `x`.
- `ChunkImpl` is one chunk. It has two sparse slot tables, the object layer
  and the environment layer, keyed by local (x, y). Slots are created lazily
  by `getSlot` and replaced by `createObj` / `createEnv`. A snapshot (the
  "chunk bag") is cached next to the tables and rebuilt only on request.

Files and modules:

- `java_int.dfy` (`JavaInt`): the Java semantics the code uses. This covers
  the int32 range, `/` and `%` rounding toward zero, and `byte` promotion.
  A byte is its 8-bit pattern (`bv8`), so the Java byte -128 is 0x80.
  Promotion to `int` is `SignExtend` into a `bv32`, and `>>>` is Dafny's `>>`
  on `bv32`.
- `coords.dfy` (`Coords`): `getChunkX/Y`, `getInChunkX/Y`, `getMinX/Y` and
  `getMaxX/Y`. The X and Y versions have identical bodies, so each is
  modelled once (`GetChunk`, `GetInChunk`, `GetMin`, `GetMax`). `CHUNK_SIZE`
  is 8, the value the 0..7 bounds in both classes assume.
- `bitmap.dfy` (`Bitmap`): the occupancy bitmap. `Bit` is the reference
  meaning of a cell. `Rect` counts set bits in a rectangle, and `Prefix`
  counts occupied cells in row-major order.
- `chunk.dfy` (`ChunkGrid`): the chunk as an immutable record. It holds two
  `map<(int, int), Slot>` and an `Option` of the snapshot type `B`. Each
  Java mutator becomes a function that returns the new chunk.
- `wrappers.dfy` (`Wrappers`): `Option`, standing in for Java's `null`.

Collaborators the chunk calls but does not define are passed in as
parameters:

- the slot-emptiness predicate `RPG.getSlotUtil().isSlotEmpty` is
  `isSlotEmpty: Slot -> bool`;
- the snapshot builder `ChunkBag.fromChunk` is `fromChunk: Chunk<B> -> B`;
- a new `CraftObj` / `CraftEnv` is `Occupant(kind, id)`. Here `kind` is the
  type name and `id` is the identity the caller allocates.

The Java `env` flag is the `Layer` datatype (`false` = `Obj`, `true` = `Env`).
`Preconditions.checkArgument` becomes a `requires` clause, because a failure
there is a caller's programming error.

## Model

| member | source | states |
|---|---|---|
| JavaInt.JavaDiv | ChunkUtilImpl.java:66 | Java integer division by a positive divisor rounds toward zero. The remainder is in [0, b) for a >= 0 and in (-b, 0] for a < 0. |
| JavaInt.JavaMod | ChunkUtilImpl.java:126 | Java `%` by a positive divisor has the sign of the dividend, magnitude below the divisor, and differs from the dividend by a multiple of it. |
| JavaInt.SignExtend | ChunkUtilImpl.java:16 | A byte promoted to int keeps its low 8 bits. The upper 24 bits are all zero or all one, following bit 7. |
| Coords.GetChunk | ChunkUtilImpl.java:64-77 | `getChunkX`/`getChunkY` equal floor division by 8, except at negative multiples of 8, where they are one lower. |
| Coords.GetInChunk | ChunkUtilImpl.java:124-141 | `getInChunkX`/`getInChunkY` always lie in 0..7 and equal the non-negative remainder of w modulo 8. |
| Coords.GetMin | ChunkUtilImpl.java:84-107 | `getMinX`/`getMinY` give a multiple of 8 whose floor quotient by 8 is the chunk. |
| Coords.GetMax | ChunkUtilImpl.java:94-117 | `getMaxX`/`getMaxY` equal `getMin + 7`, lie in the same chunk and have local coordinate 7. |
| Coords.GetChunkRoundTrip | ChunkUtilImpl.java:65-129 | `getChunk(w)*8 + getInChunk(w) == w` holds exactly when w >= 0 or w is not a multiple of 8. Both directions are proved. |
| Coords.GetChunkMinusEight | ChunkUtilImpl.java:66 | World -8 maps to chunk -2, local 0, which recombines to -16. |
| Coords.GetChunkSpan | ChunkUtilImpl.java:64-97 | w lies in `[getMin, getMax]` of `getChunk(w)` exactly when w is not a negative multiple of 8. |
| Coords.FloorChunk | ChunkUtilImpl.java:66 | Corrected `getChunkX` using `(w < 0 ? w - 7 : w) / 8`. It equals floor division for every int32 input w with `w - 7` also an int32. |
| Coords.FloorChunkRoundTrip | ChunkUtilImpl.java:125-129 | With the corrected chunk map, chunk*8 + local == w for every int32 w with `w - 7` also an int32. |
| Coords.FloorChunkSpan | ChunkUtilImpl.java:84-97 | The corrected chunk of w is c exactly when `getMin(c) <= w <= getMax(c)`. |
| Bitmap.IndexValues | ChunkUtilImpl.java:6 | The eight masks, read as Java bytes, are 1, 2, 4, 8, 16, 32, 64 and -128. |
| Bitmap.IsEmpty | ChunkUtilImpl.java:6-17 | `isEmpty(rows, x, y)` is false exactly when bit x of `rows[y]` is set. This holds for every column, including the sign-bit mask -128. |
| Bitmap.Counted | ChunkUtilImpl.java:34 | The `== 1` test of `getPos`/`getSize` holds exactly when x < 7 and bit x is set. |
| Bitmap.GetPos | ChunkUtilImpl.java:27-39 | `getPos` returns the set bits in columns 0..min(x, 6), rows 0..y, minus one. It lies between -1 and `getSize - 1`, and is >= 0 for an occupied cell with x <= 6. |
| Bitmap.GetSize | ChunkUtilImpl.java:45-57 | `getSize` counts the set bits in columns 0..6 only, so it is in 0..56. It equals the number of occupied cells exactly when no row has bit 7 set. |
| Bitmap.SizeMissesColumnSeven | ChunkUtilImpl.java:49-54 | The full count is the seven-column count plus the rows whose bit 7 is set. So the two agree iff no row has bit 7. |
| Bitmap.ColumnSevenExample | ChunkUtilImpl.java:34-52 | For the bitmap whose only set bit is (7, 0): `isEmpty` says occupied, `getSize` is 0 against one occupied cell, and `getPos(7, 0)` is -1. |
| Bitmap.GetPosCollision | ChunkUtilImpl.java:31-35 | The occupied cells (5, 0) and (0, 1) both get position 0. |
| Bitmap.GetPosFirstRowIsRank | ChunkUtilImpl.java:31-35 | On row 0 with x <= 6, `getPos` agrees with the row-major rank. |
| Bitmap.GetPosLaterRowIsNotRank | ChunkUtilImpl.java:31-35 | On row 1, with bits (7, 0) and (0, 1), `getPos(0, 1)` is 0 while the row-major rank is 1. |
| Bitmap.Count | ChunkUtilImpl.java:41-57 | Corrected `getSize`: the number of cells that `isEmpty` reports occupied, visited in row-major order. |
| Bitmap.Rank | ChunkUtilImpl.java:19-39 | Corrected `getPos`, for an occupied cell only: the count of occupied cells up to (x, y) in row-major order, minus one. It lies in 0..count-1. |
| Bitmap.RankStrictlyIncreasing | ChunkUtilImpl.java:19-25 | The corrected rank strictly increases along occupied cells in row-major order, so distinct occupied cells get distinct positions. |
| Bitmap.RankOnto | ChunkUtilImpl.java:41-44 | Every position 0..count-1 is the corrected rank of some occupied cell. |
| Bitmap.IsEmptyIsOccupancy | ChunkUtilImpl.java:15-17 | `isEmpty(x, y)` is the negation of the occupancy of row-major cell 8y + x. |
| Bitmap.CountIsFullRect | ChunkUtilImpl.java:45-57 | The row-major count over all 64 cells equals the full 8 x 8 rectangle count. |
| ChunkGrid.NewChunk | ChunkImpl.java:34-40 | The three-argument constructor gives empty tables and no snapshot, and the result is well formed. |
| ChunkGrid.FromTables | ChunkImpl.java:42-48 | The five-argument constructor adopts the given tables, which must be well formed. It caches no snapshot. |
| ChunkGrid.ScanEmpty | ChunkImpl.java:67-72 | One `isEmpty()` loop returns true exactly when every slot passes `isSlotEmpty`. |
| ChunkGrid.IsChunkEmpty | ChunkImpl.java:66-74 | `isEmpty()` is true iff every slot of both tables passes `isSlotEmpty`. |
| ChunkGrid.IsCellEmpty | ChunkImpl.java:77-81 | `isEmpty(x, y, env)` is false exactly when the selected layer stores a slot at (x, y) that `isSlotEmpty` rejects. It is true when no slot is stored there or the stored slot passes `isSlotEmpty`. |
| ChunkGrid.GetSlot | ChunkImpl.java:84-102 | Returns the stored slot unchanged, or stores and returns a new occupant-less slot at (x, y). Only that key of the selected table changes, the snapshot is untouched, and well-formedness is kept. |
| ChunkGrid.GetSlots | ChunkImpl.java:105-107 | Returns every slot of the layer. In a well-formed chunk each slot sits at its own position, and there are as many slots as positions. |
| ChunkGrid.ValuesCount | ChunkImpl.java:105-107 | In a well-formed table, the number of distinct slots equals the number of keys. |
| ChunkGrid.GetOccupant | ChunkImpl.java:110-125 | `getObj`/`getEnv` agree with the occupant of the slot `getSlot` would return, which is `None` when none is stored. |
| ChunkGrid.Create | ChunkImpl.java:128-143 | `createObj`/`createEnv` store a fresh slot holding the new occupant at the given slot's position and replace any earlier entry. Nothing else changes, and well-formedness is kept. |
| ChunkGrid.UpdateChunkBag | ChunkImpl.java:149-151 | Rebuilds the snapshot from the current chunk iff none is cached or `reset` holds, and keeps it otherwise. The tables are untouched. |
| ChunkGrid.NewChunkIsEmpty | ChunkImpl.java:34-40 | A new chunk is empty, and so is each of its cells in both layers. |
| ChunkGrid.ChunkEmptyIffCellsEmpty | ChunkImpl.java:66-81 | For a well-formed chunk with in-range keys, `isEmpty()` holds iff `isEmpty(x, y, env)` holds for every cell and layer. |
| ChunkGrid.IsCellEmptyIgnoresOtherLayer | ChunkImpl.java:80 | A cell's emptiness depends only on the selected layer's table. |
| ChunkGrid.GetSlotIdempotent | ChunkImpl.java:87-101 | A second `getSlot` at the same place returns the same slot and changes nothing. |
| ChunkGrid.GetSlotKeepsEmptiness | ChunkImpl.java:89-98 | If occupant-less slots count as empty, materialising one changes no cell's emptiness. |
| ChunkGrid.CreateThenGet | ChunkImpl.java:128-143 | After a create, reading that position returns the new occupant. Every other position of either layer reads as before. |
| ChunkGrid.CreateOverwrites | ChunkImpl.java:128-143 | Two creates at the same position give the same chunk as the last one alone, so no trace of the first occupant remains. |
| ChunkGrid.CreateOccupies | ChunkImpl.java:128-143 | A created occupant that `isSlotEmpty` rejects makes both its cell and the chunk non-empty. |
| ChunkGrid.BagStaleness | ChunkImpl.java:149-155 | `getChunkBag` reads the cached field. After a refresh and a mutation, `getChunkBag` after a non-forced refresh still returns the stale snapshot, while after a forced refresh it returns one rebuilt from the mutated chunk. |
| ChunkGrid.UpdateChunkBagIdempotent | ChunkImpl.java:149-151 | Two non-forced refreshes are the same as one. |

## Left out

- Coords.GetChunk: requires `w - 8` to be an int32. Java's wrap-around for
  w < -2^31 + 8 is not modelled.
- Coords.FloorChunk: requires `w - 7` to be an int32, so w in
  [-2^31, -2^31 + 6] is excluded. Java's wrap-around there is not modelled.
- Coords.FloorChunkRoundTrip: same restriction as `FloorChunk`.
- Coords.GetMin: requires `c*8` and `c*8 + 7` to be int32. Java's
  wrap-around for larger chunk coordinates is not modelled.
- Coords.GetMax: same restriction as `GetMin`.
- Bitmap.IsEmpty: requires exactly eight rows and x, y in 0..7, as the
  documentation states. Java accepts any y below the array's length, so it
  also answers for y >= 8 with a longer array. Only an x outside 0..7
  always throws, at `INDEX[x]`.
- Bitmap.GetPos: requires exactly eight rows and x, y in 0..7, as
  documented. Java returns -1 when y < 0. When x < 0 it still reads
  rows[0..y], then returns -1. With a longer array it also answers for
  y >= 8.
- Bitmap.GetSize: requires exactly eight rows. Java reads only the first
  eight of a longer array.
- Object identity and aliasing: Java slots are mutable objects, and a caller
  can keep the slot `getSlot` returns and change it later. The model's slots
  are values, so such aliasing is not modelled. The back-reference from an
  occupant to its slot is not modelled either.
- `getScene`, `getX`, `getY` and the `Scene` field: plain accessors of an
  external type. The chunk keeps only its coordinates.
- `RPG.getSlotUtil().isSlotEmpty`, `CraftObj`, `CraftEnv`, `CraftObjSlot`,
  `CraftEnvSlot` and `ChunkBag.fromChunk`: external code. They appear only as
  parameters or as the `Occupant` and `Slot` values.
- The `(CraftObjSlot)` / `(CraftEnvSlot)` casts in `getObj` / `getEnv`:
  `GetOccupant` reads the occupant of whatever slot is stored. A well-formed
  chunk, which every operation preserves, never holds a slot of the wrong
  layer.
- `getSlots` returns a Guava collection whose iteration order is
  unspecified. The model returns the set of slots; in a well-formed chunk
  there are no duplicates to lose.
- How the snapshot builder fills the bitmap from a chunk: `ChunkBag` is not
  part of this model.
- `LongsFix.java` (integer-list codec) and `NettyUtil.java` (network buffer
  helpers): serialisation plumbing over libraries that are not part of this
  model.
- Concurrency: the classes are unsynchronised and are modelled as
  single-threaded.

## Findings

| source | as written | input that shows it | evidently intended | confidence | as-written member | corrected member |
|---|---|---|---|---|---|---|
| ChunkUtilImpl.java:66 | `(x<0 ? x-8 : x) / 8` with truncating division | x = -8 gives chunk -2 and local 0, so chunk*8 + local = -16 | floor division, `(x<0 ? x-7 : x) / 8`, so that chunk*8 + local == x | high; not executed | Coords.GetChunk, Coords.GetChunkMinusEight | Coords.FloorChunk, Coords.FloorChunkRoundTrip |
| ChunkUtilImpl.java:52 | `((row & INDEX[x]) >>> x) == 1` on sign-extended bytes | rows = [0x80, 0, 0, 0, 0, 0, 0, 0]: `getSize` is 0, but `isEmpty(7, 0)` is false | count every set bit, so the size equals the number of occupied cells | high; not executed | Bitmap.GetSize, Bitmap.ColumnSevenExample | Bitmap.Count, Bitmap.CountIsFullRect |
| ChunkUtilImpl.java:31-35 | counts the rectangle of columns 0..x and rows 0..y, and skips column 7 through the same `== 1` test | bits at (5, 0) and (0, 1) both get position 0; a lone bit at (7, 0) gets -1 | a row-major rank: distinct occupied cells get distinct positions 0..size-1 | medium (the caller, `ChunkBag`, is not part of this model); not executed | Bitmap.GetPos, Bitmap.GetPosCollision | Bitmap.Rank, Bitmap.RankStrictlyIncreasing, Bitmap.RankOnto |
