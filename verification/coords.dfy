/** World <-> chunk coordinate maps of `ChunkUtilImpl`.  The X and Y variants
    of each Java method have identical bodies, so each is modelled once and
    serves both axes. */
module Coords {
  import opened JavaInt

  /** Side length of a chunk, in cells. */
  const CHUNK_SIZE: int := 8

  /** `getChunkX` / `getChunkY` as written: `(w < 0 ? w - 8 : w) / 8` with
      truncating division.  It agrees with floor division except at negative
      multiples of 8, where it is one chunk too low. */
  function GetChunk(w: int): (c: int)
    requires IsInt32(w) && IsInt32(w - CHUNK_SIZE)
    ensures IsInt32(c)
    ensures w >= 0 || w % CHUNK_SIZE != 0 ==> c == w / CHUNK_SIZE
    ensures w < 0 && w % CHUNK_SIZE == 0 ==> c == w / CHUNK_SIZE - 1
  {
    JavaDiv(if w < 0 then w - CHUNK_SIZE else w, CHUNK_SIZE)
  }

  /** `getInChunkX` / `getInChunkY`: the Java remainder, lifted into 0..7. */
  function GetInChunk(w: int): (l: int)
    requires IsInt32(w)
    ensures 0 <= l < CHUNK_SIZE
    ensures l == w % CHUNK_SIZE
  {
    var r := JavaMod(w, CHUNK_SIZE);
    if r < 0 then r + CHUNK_SIZE else r
  }

  /** `getMinX` / `getMinY`: the smallest world coordinate of chunk `c`. */
  function GetMin(c: int): (w: int)
    requires IsInt32(c * CHUNK_SIZE) && IsInt32(c * CHUNK_SIZE + CHUNK_SIZE - 1)
    ensures IsInt32(w)
    ensures w % CHUNK_SIZE == 0 && w / CHUNK_SIZE == c
  {
    c * CHUNK_SIZE
  }

  /** `getMaxX` / `getMaxY`: the largest world coordinate of chunk `c`. */
  function GetMax(c: int): (w: int)
    requires IsInt32(c * CHUNK_SIZE) && IsInt32(c * CHUNK_SIZE + CHUNK_SIZE - 1)
    ensures IsInt32(w)
    ensures w == GetMin(c) + CHUNK_SIZE - 1
    ensures w % CHUNK_SIZE == CHUNK_SIZE - 1 && w / CHUNK_SIZE == c
  {
    c * CHUNK_SIZE + CHUNK_SIZE - 1
  }

  /** The chunk a world coordinate lies in, by floor division:
      `(w < 0 ? w - 7 : w) / 8` with truncating division. */
  function FloorChunk(w: int): (c: int)
    requires IsInt32(w) && IsInt32(w - (CHUNK_SIZE - 1))
    ensures IsInt32(c)
    ensures c == w / CHUNK_SIZE
  {
    JavaDiv(if w < 0 then w - (CHUNK_SIZE - 1) else w, CHUNK_SIZE)
  }

  /** The as-written round trip `GetChunk(w) * 8 + GetInChunk(w) == w` holds
      exactly when `w` is not a negative multiple of 8. */
  lemma GetChunkRoundTrip(w: int)
    requires IsInt32(w) && IsInt32(w - CHUNK_SIZE)
    ensures GetChunk(w) * CHUNK_SIZE + GetInChunk(w) == w
            <==> (w >= 0 || w % CHUNK_SIZE != 0)
  {
  }

  /** World coordinate -8 lands in chunk -2 at local 0, so the round trip
      gives -16. */
  lemma GetChunkMinusEight()
    ensures GetChunk(-8) == -2 && GetInChunk(-8) == 0
    ensures GetChunk(-8) * CHUNK_SIZE + GetInChunk(-8) == -16
  {
  }

  /** The as-written chunk's span contains `w` exactly when `w` is not a
      negative multiple of 8. */
  lemma GetChunkSpan(w: int)
    requires IsInt32(w) && IsInt32(w - CHUNK_SIZE)
    requires IsInt32(GetChunk(w) * CHUNK_SIZE)
    ensures GetMin(GetChunk(w)) <= w <= GetMax(GetChunk(w))
            <==> (w >= 0 || w % CHUNK_SIZE != 0)
  {
  }

  /** The floor chunk and the local coordinate always recombine to `w`. */
  lemma FloorChunkRoundTrip(w: int)
    requires IsInt32(w) && IsInt32(w - (CHUNK_SIZE - 1))
    ensures FloorChunk(w) * CHUNK_SIZE + GetInChunk(w) == w
  {
  }

  /** `w` belongs to chunk `c` (by floor division) exactly when it lies
      between `GetMin(c)` and `GetMax(c)`. */
  lemma FloorChunkSpan(w: int, c: int)
    requires IsInt32(w) && IsInt32(w - (CHUNK_SIZE - 1))
    requires IsInt32(c * CHUNK_SIZE) && IsInt32(c * CHUNK_SIZE + CHUNK_SIZE - 1)
    ensures FloorChunk(w) == c <==> GetMin(c) <= w <= GetMax(c)
  {
  }
}
