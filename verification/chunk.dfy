/** The sparse dual-layer slot table of `ChunkImpl`.  A chunk holds one table
    per layer, keyed by local (x, y); slots are materialised on first access
    and overwritten by occupant creation.  A snapshot ("chunk bag") of type
    `B` is cached beside the tables and refreshed only on request.

    Collaborators the chunk only calls are parameters: the slot-emptiness
    predicate `isSlotEmpty` and the snapshot builder `fromChunk`.  A new
    occupant is identified by its type name and the identity `id` the
    allocator gives it. */
module ChunkGrid {
  import opened Wrappers

  /** The Java `env` flag: `false` selects the object layer, `true` the
      environment layer. */
  datatype Layer = Obj | Env

  type Key = (int, int)

  datatype Occupant = Occupant(kind: string, id: nat)

  /** A slot of one layer at local (x, y), holding at most one occupant. */
  datatype Slot = Slot(layer: Layer, x: int, y: int, occupant: Option<Occupant>)

  datatype Chunk<B> = Chunk(
    x: int,
    y: int,
    objSlots: map<Key, Slot>,
    envSlots: map<Key, Slot>,
    bag: Option<B>)

  function Other(layer: Layer): (o: Layer)
    ensures o != layer
  {
    if layer == Obj then Env else Obj
  }

  /** The table of one layer. */
  function Table<B>(c: Chunk<B>, layer: Layer): (t: map<Key, Slot>) {
    if layer == Env then c.envSlots else c.objSlots
  }

  /** `c` with the table of `layer` replaced by `t`. */
  function WithTable<B>(c: Chunk<B>, layer: Layer, t: map<Key, Slot>): (r: Chunk<B>)
    ensures Table(r, layer) == t
    ensures Table(r, Other(layer)) == Table(c, Other(layer))
    ensures r.x == c.x && r.y == c.y && r.bag == c.bag
  {
    if layer == Env then c.(envSlots := t) else c.(objSlots := t)
  }

  predicate InBounds(x: int, y: int) {
    0 <= x <= 7 && 0 <= y <= 7
  }

  /** Every entry of `t` is a slot of `layer` stored under its own position. */
  predicate TableWellFormed(t: map<Key, Slot>, layer: Layer) {
    forall k :: k in t ==> t[k].layer == layer && (t[k].x, t[k].y) == k
  }

  /** Both tables are well formed: object slots in the object table,
      environment slots in the environment table. */
  predicate WellFormed<B>(c: Chunk<B>) {
    TableWellFormed(c.objSlots, Obj) && TableWellFormed(c.envSlots, Env)
  }

  /** Every slot in `slots` is empty by the external predicate. */
  predicate AllEmpty(slots: set<Slot>, isSlotEmpty: Slot -> bool) {
    forall s :: s in slots ==> isSlotEmpty(s)
  }

  // ---------------------------------------------------------------------
  // Construction
  // ---------------------------------------------------------------------

  /** `ChunkImpl(scene, x, y)`: both tables empty, no snapshot yet. */
  function NewChunk<B>(x: int, y: int): (c: Chunk<B>)
    ensures c.x == x && c.y == y
    ensures |c.objSlots| == 0 && |c.envSlots| == 0 && c.bag.None?
    ensures WellFormed(c)
  {
    Chunk(x, y, map[], map[], None)
  }

  /** `ChunkImpl(scene, x, y, objSlots, envSlots)`: adopts tables that the
      caller guarantees to be well formed. */
  function FromTables<B>(x: int, y: int, objSlots: map<Key, Slot>, envSlots: map<Key, Slot>): (c: Chunk<B>)
    requires TableWellFormed(objSlots, Obj) && TableWellFormed(envSlots, Env)
    ensures WellFormed(c)
    ensures Table(c, Obj) == objSlots && Table(c, Env) == envSlots
    ensures c.x == x && c.y == y && c.bag.None?
  {
    Chunk(x, y, objSlots, envSlots, None)
  }

  // ---------------------------------------------------------------------
  // Queries
  // ---------------------------------------------------------------------

  /** One loop of `isEmpty()`: stops at the first slot that is not empty. */
  method ScanEmpty(slots: set<Slot>, isSlotEmpty: Slot -> bool) returns (empty: bool)
    ensures empty <==> AllEmpty(slots, isSlotEmpty)
  {
    var rest := slots;
    while rest != {}
      invariant rest <= slots
      invariant AllEmpty(slots - rest, isSlotEmpty)
      decreases rest
    {
      var s :| s in rest;
      if !isSlotEmpty(s) {
        return false;
      }
      rest := rest - {s};
    }
    return true;
  }

  /** `isEmpty()`: true iff every materialised slot of both layers is empty. */
  method IsChunkEmpty<B>(c: Chunk<B>, isSlotEmpty: Slot -> bool) returns (empty: bool)
    ensures empty <==> AllEmpty(c.objSlots.Values, isSlotEmpty) && AllEmpty(c.envSlots.Values, isSlotEmpty)
  {
    empty := ScanEmpty(c.objSlots.Values, isSlotEmpty);
    if empty {
      empty := ScanEmpty(c.envSlots.Values, isSlotEmpty);
    }
  }

  /** `isEmpty(x, y, env)`: the cell has no slot in that layer, or its slot
      is empty by the external predicate. */
  function IsCellEmpty<B>(c: Chunk<B>, x: int, y: int, layer: Layer, isSlotEmpty: Slot -> bool): (r: bool)
    requires InBounds(x, y)
    ensures AllEmpty(Table(c, layer).Values, isSlotEmpty) ==> r
    ensures !r ==> (x, y) in Table(c, layer)
    ensures (x, y) in Table(c, layer) && !isSlotEmpty(Table(c, layer)[(x, y)]) ==> !r
    ensures (x, y) in Table(c, layer) && isSlotEmpty(Table(c, layer)[(x, y)]) ==> r
  {
    var t := Table(c, layer);
    (x, y) !in t || isSlotEmpty(t[(x, y)])
  }

  /** `getSlot(x, y, env)`: the stored slot, or a new empty one that is
      stored first.  Only the selected table can change, and only at (x, y). */
  function GetSlot<B>(c: Chunk<B>, x: int, y: int, layer: Layer): (r: (Chunk<B>, Slot))
    requires InBounds(x, y)
    ensures (x, y) in Table(c, layer) ==> r.0 == c && r.1 == Table(c, layer)[(x, y)]
    ensures (x, y) !in Table(c, layer) ==> r.1 == Slot(layer, x, y, None)
    ensures Table(r.0, layer) == Table(c, layer)[(x, y) := r.1]
    ensures Table(r.0, Other(layer)) == Table(c, Other(layer))
    ensures r.0.x == c.x && r.0.y == c.y && r.0.bag == c.bag
    ensures WellFormed(c) ==> WellFormed(r.0) && r.1.layer == layer && (r.1.x, r.1.y) == (x, y)
  {
    var t := Table(c, layer);
    if (x, y) in t then
      (c, t[(x, y)])
    else
      var s := Slot(layer, x, y, None);
      (WithTable(c, layer, t[(x, y) := s]), s)
  }

  /** `getSlots(env)`: the materialised slots of one layer, unordered.  In a
      well-formed chunk no two positions share a slot. */
  function GetSlots<B>(c: Chunk<B>, layer: Layer): (r: set<Slot>)
    ensures forall k :: k in Table(c, layer) ==> Table(c, layer)[k] in r
    ensures WellFormed(c) ==> forall s :: s in r ==> (s.x, s.y) in Table(c, layer) && Table(c, layer)[(s.x, s.y)] == s
    ensures WellFormed(c) ==> |r| == |Table(c, layer)|
  {
    var t := Table(c, layer);
    assert WellFormed(c) ==> |t.Values| == |t| by {
      if WellFormed(c) {
        ValuesCount(t, layer);
      }
    }
    t.Values
  }

  /** `getObj(x, y)` and `getEnv(x, y)`: the occupant stored at (x, y), or
      `None` when no slot is materialised there.  Reading through `getSlot`
      would give the same answer. */
  function GetOccupant<B>(c: Chunk<B>, x: int, y: int, layer: Layer): (r: Option<Occupant>)
    requires InBounds(x, y)
    ensures r == GetSlot(c, x, y, layer).1.occupant
    ensures r.Some? ==> (x, y) in Table(c, layer)
  {
    var t := Table(c, layer);
    if (x, y) in t then t[(x, y)].occupant else None
  }

  // ---------------------------------------------------------------------
  // Updates
  // ---------------------------------------------------------------------

  /** `createObj(type, slot)` and `createEnv(type, slot)`: a fresh slot at
      the position of `at`, holding a new occupant, replaces whatever the
      selected table held there.  The position is not range-checked. */
  function Create<B>(c: Chunk<B>, layer: Layer, kind: string, at: Slot, id: nat): (r: (Chunk<B>, Occupant))
    ensures r.1.kind == kind && r.1.id == id
    ensures Table(r.0, layer) == Table(c, layer)[(at.x, at.y) := Slot(layer, at.x, at.y, Some(r.1))]
    ensures Table(r.0, Other(layer)) == Table(c, Other(layer))
    ensures r.0.x == c.x && r.0.y == c.y && r.0.bag == c.bag
    ensures WellFormed(c) ==> WellFormed(r.0)
  {
    var occupant := Occupant(kind, id);
    var s := Slot(layer, at.x, at.y, Some(occupant));
    (WithTable(c, layer, Table(c, layer)[(at.x, at.y) := s]), occupant)
  }

  /** `updateChunkBag(reset)`: rebuilds the cached snapshot from the current
      chunk when none is cached or `reset` holds; otherwise keeps it. */
  function UpdateChunkBag<B>(c: Chunk<B>, reset: bool, fromChunk: Chunk<B> -> B): (r: Chunk<B>)
    ensures r.bag.Some?
    ensures c.bag.Some? && !reset ==> r.bag == c.bag
    ensures c.bag.None? || reset ==> r.bag == Some(fromChunk(c))
    ensures r.objSlots == c.objSlots && r.envSlots == c.envSlots && r.x == c.x && r.y == c.y
  {
    if c.bag.None? || reset then c.(bag := Some(fromChunk(c))) else c
  }

  // ---------------------------------------------------------------------
  // Lemmas
  // ---------------------------------------------------------------------

  /** In a well-formed table distinct positions hold distinct slots, so
      there are as many slots as positions. */
  lemma {:induction false} ValuesCount(t: map<Key, Slot>, layer: Layer)
    requires TableWellFormed(t, layer)
    ensures |t.Values| == |t.Keys|
    decreases |t.Keys|
  {
    if t.Keys != {} {
      var k :| k in t;
      var t' := t - {k};
      ValuesCount(t', layer);
      assert t.Keys == t'.Keys + {k};
      assert t[k] !in t'.Values;
      assert t.Values == t'.Values + {t[k]};
    }
  }

  /** A new chunk is empty, and so is each of its cells. */
  lemma NewChunkIsEmpty<B>(x: int, y: int, isSlotEmpty: Slot -> bool)
    ensures AllEmpty(NewChunk<B>(x, y).objSlots.Values, isSlotEmpty)
    ensures AllEmpty(NewChunk<B>(x, y).envSlots.Values, isSlotEmpty)
    ensures forall lx, ly, layer :: InBounds(lx, ly) ==> IsCellEmpty(NewChunk<B>(x, y), lx, ly, layer, isSlotEmpty)
  {
  }

  /** The chunk is empty exactly when every cell of both layers is, provided
      the tables are well formed and hold only in-range positions. */
  lemma ChunkEmptyIffCellsEmpty<B>(c: Chunk<B>, isSlotEmpty: Slot -> bool)
    requires WellFormed(c)
    requires forall k :: k in c.objSlots ==> InBounds(k.0, k.1)
    requires forall k :: k in c.envSlots ==> InBounds(k.0, k.1)
    ensures AllEmpty(c.objSlots.Values, isSlotEmpty) && AllEmpty(c.envSlots.Values, isSlotEmpty)
            <==> forall lx, ly, layer :: InBounds(lx, ly) ==> IsCellEmpty(c, lx, ly, layer, isSlotEmpty)
  {
    if forall lx, ly, layer :: InBounds(lx, ly) ==> IsCellEmpty(c, lx, ly, layer, isSlotEmpty) {
      forall layer, s | s in Table(c, layer).Values
        ensures isSlotEmpty(s)
      {
        var k :| k in Table(c, layer) && Table(c, layer)[k] == s;
        assert IsCellEmpty(c, k.0, k.1, layer, isSlotEmpty);
      }
      assert Table(c, Obj) == c.objSlots && Table(c, Env) == c.envSlots;
    }
  }

  /** `isEmpty(x, y, env)` looks only at the selected layer. */
  lemma IsCellEmptyIgnoresOtherLayer<B>(c: Chunk<B>, d: Chunk<B>, x: int, y: int, layer: Layer, isSlotEmpty: Slot -> bool)
    requires InBounds(x, y)
    requires Table(c, layer) == Table(d, layer)
    ensures IsCellEmpty(c, x, y, layer, isSlotEmpty) == IsCellEmpty(d, x, y, layer, isSlotEmpty)
  {
  }

  /** A second `getSlot` at the same place returns the same slot and
      changes nothing. */
  lemma GetSlotIdempotent<B>(c: Chunk<B>, x: int, y: int, layer: Layer)
    requires InBounds(x, y)
    ensures var (c1, s1) := GetSlot(c, x, y, layer);
            GetSlot(c1, x, y, layer) == (c1, s1)
  {
  }

  /** Materialising a slot does not occupy the cell: if the external
      predicate treats a slot without occupant as empty, every cell keeps
      its emptiness. */
  lemma GetSlotKeepsEmptiness<B>(c: Chunk<B>, x: int, y: int, layer: Layer, isSlotEmpty: Slot -> bool)
    requires InBounds(x, y)
    requires isSlotEmpty(Slot(layer, x, y, None))
    ensures forall lx, ly, l :: InBounds(lx, ly) ==>
              IsCellEmpty(GetSlot(c, x, y, layer).0, lx, ly, l, isSlotEmpty) == IsCellEmpty(c, lx, ly, l, isSlotEmpty)
  {
  }

  /** After `create`, reading the created position returns the new occupant
      and every other position, of either layer, reads as before. */
  lemma CreateThenGet<B>(c: Chunk<B>, layer: Layer, kind: string, at: Slot, id: nat)
    requires InBounds(at.x, at.y)
    ensures var (c1, o) := Create(c, layer, kind, at, id);
            && GetOccupant(c1, at.x, at.y, layer) == Some(o)
            && forall lx, ly, l :: InBounds(lx, ly) && (lx, ly, l) != (at.x, at.y, layer) ==>
                 GetOccupant(c1, lx, ly, l) == GetOccupant(c, lx, ly, l)
  {
  }

  /** Creating at a position discards everything earlier creations put
      there: the result is as if only the last creation had happened. */
  lemma CreateOverwrites<B>(c: Chunk<B>, layer: Layer, kind1: string, at1: Slot, id1: nat, kind2: string, at2: Slot, id2: nat)
    requires (at1.x, at1.y) == (at2.x, at2.y)
    ensures Create(Create(c, layer, kind1, at1, id1).0, layer, kind2, at2, id2) == Create(c, layer, kind2, at2, id2)
  {
    var c1 := Create(c, layer, kind1, at1, id1).0;
    assert Table(Create(c1, layer, kind2, at2, id2).0, layer) == Table(Create(c, layer, kind2, at2, id2).0, layer);
  }

  /** A created occupant that the external predicate considers present
      makes both its cell and the chunk non-empty. */
  lemma CreateOccupies<B>(c: Chunk<B>, layer: Layer, kind: string, at: Slot, id: nat, isSlotEmpty: Slot -> bool)
    requires InBounds(at.x, at.y)
    requires !isSlotEmpty(Slot(layer, at.x, at.y, Some(Occupant(kind, id))))
    ensures var c1 := Create(c, layer, kind, at, id).0;
            && !IsCellEmpty(c1, at.x, at.y, layer, isSlotEmpty)
            && !(AllEmpty(c1.objSlots.Values, isSlotEmpty) && AllEmpty(c1.envSlots.Values, isSlotEmpty))
  {
    var c1 := Create(c, layer, kind, at, id).0;
    assert Table(c1, layer)[(at.x, at.y)] in Table(c1, layer).Values;
  }

  /** `getChunkBag()` reads the `bag` field.  The snapshot is not kept in sync: after one refresh, a mutation
      followed by a non-forced refresh leaves the stale snapshot in place,
      while a forced refresh rebuilds it from the mutated chunk. */
  lemma BagStaleness<B>(c: Chunk<B>, fromChunk: Chunk<B> -> B, layer: Layer, kind: string, at: Slot, id: nat)
    ensures var c1 := UpdateChunkBag(c, false, fromChunk);
            var c2 := Create(c1, layer, kind, at, id).0;
            && UpdateChunkBag(c2, false, fromChunk).bag == c1.bag
            && UpdateChunkBag(c2, true, fromChunk).bag == Some(fromChunk(c2))
  {
  }

  /** Refreshing without reset twice is the same as refreshing once. */
  lemma UpdateChunkBagIdempotent<B>(c: Chunk<B>, fromChunk: Chunk<B> -> B)
    ensures UpdateChunkBag(UpdateChunkBag(c, false, fromChunk), false, fromChunk) == UpdateChunkBag(c, false, fromChunk)
  {
  }
}
