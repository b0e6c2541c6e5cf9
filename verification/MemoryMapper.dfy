/** The crossbar tile allocator of memory_mapper.py:33-138. */
module MemoryMapper {
  import opened Arithmetic
  import opened Multigraph

  /** A row of a tile. */
  datatype Address = Address(tile: nat, row: nat)

  /** Stored hashes tile by tile, write counts, and the next address. */
  datatype Layout = Layout(tiles: seq<seq<int>>, writes: map<nat, nat>, next: nat)

  const Fresh := Layout([], map[], 0)

  function Flatten(tiles: seq<seq<int>>): seq<int> {
    if |tiles| == 0 then [] else tiles[0] + Flatten(tiles[1..])
  }

  /** entries[i:i+size] for every size-th i. */
  function Chunks(s: seq<int>, size: nat): seq<seq<int>>
    requires size >= 1
  {
    if |s| == 0 then []
    else if |s| <= size then [s]
    else [s[..size]] + Chunks(s[size..], size)
  }

  /** Every tile but the last is exactly full, no tile is empty, and `next` counts the entries. */
  ghost predicate Packed(l: Layout, size: nat) {
    PackedTiles(l.tiles, size) && l.next == |Flatten(l.tiles)|
  }

  ghost predicate PackedTiles(tiles: seq<seq<int>>, size: nat) {
    && (forall i :: 0 <= i < |tiles| - 1 ==> |tiles[i]| == size)
    && (|tiles| > 0 ==> 1 <= |tiles[|tiles| - 1]| <= size)
  }

  // ---- operations on values ----

  function Defragment(l: Layout, size: nat): Layout
    requires size >= 1
  {
    l.(tiles := Chunks(Flatten(l.tiles), size), next := |Flatten(l.tiles)|)
  }

  function Count(writes: map<nat, nat>, tile: nat): nat {
    if tile in writes then writes[tile] else 0
  }

  function Slot(next: nat, size: nat): Address
    requires size >= 1
  {
    Address(next / size, next % size)
  }

  /** Appends to tile `next / size`, or to a new tile. */
  function Place(l: Layout, size: nat, h: int): (r: (Layout, Address))
    requires size >= 1
  {
    var a := Slot(l.next, size);
    var tile := a.tile;
    var tiles := if tile < |l.tiles| then l.tiles[tile := l.tiles[tile] + [h]] else l.tiles + [[h]];
    (Layout(tiles, l.writes[tile := Count(l.writes, tile) + 1], l.next + 1), a)
  }

  /** Beyond the last tile the layout is compacted. */
  function Compacted(l: Layout, size: nat, count: nat): Layout
    requires size >= 1
  {
    if Slot(l.next, size).tile >= count then Defragment(l, size) else l
  }

  function Allocate(l: Layout, size: nat, count: nat, h: int): (Layout, Address)
    requires size >= 1
  {
    Place(Compacted(l, size, count), size, h)
  }

  function Rotate(l: Layout): Layout {
    if |l.tiles| == 0 then l
    else
      var tiles := l.tiles[1..] + [l.tiles[0]];
      l.(tiles := tiles, next := |Flatten(tiles)|)
  }

  // ---- flattening and packing ----

  lemma {:induction false} FlattenSnoc(tiles: seq<seq<int>>, t: seq<int>)
    ensures Flatten(tiles + [t]) == Flatten(tiles) + t
  {
    if |tiles| == 0 {
      assert tiles + [t] == [t];
      assert Flatten([t][1..]) == [];
    } else {
      assert (tiles + [t])[1..] == tiles[1..] + [t];
      FlattenSnoc(tiles[1..], t);
    }
  }

  lemma {:induction false} FullLength(tiles: seq<seq<int>>, size: nat)
    requires forall i :: 0 <= i < |tiles| ==> |tiles[i]| == size
    ensures |Flatten(tiles)| == |tiles| * size
  {
    if |tiles| > 0 {
      FullLength(tiles[1..], size);
      assert |tiles| * size == size + |tiles[1..]| * size;
    }
  }

  lemma PackedLength(tiles: seq<seq<int>>, size: nat)
    requires PackedTiles(tiles, size) && |tiles| > 0
    ensures |Flatten(tiles)| == (|tiles| - 1) * size + |tiles[|tiles| - 1]|
  {
    var front, last := tiles[..|tiles| - 1], tiles[|tiles| - 1];
    assert tiles == front + [last];
    FullLength(front, size);
    FlattenSnoc(front, last);
  }

  /** The next address is the first free row after the last entry. */
  lemma NextSlot(l: Layout, size: nat)
    requires size >= 1 && Packed(l, size)
    ensures var n := |l.tiles|;
            if n > 0 && |l.tiles[n - 1]| < size
            then Slot(l.next, size) == Address(n - 1, |l.tiles[n - 1]|)
            else Slot(l.next, size) == Address(n, 0)
  {
    var n := |l.tiles|;
    if n == 0 {
      DivUnique(0, size, 0, 0);
    } else {
      PackedLength(l.tiles, size);
      if |l.tiles[n - 1]| < size {
        DivUnique(l.next, size, n - 1, |l.tiles[n - 1]|);
      } else {
        assert (n - 1) * size + size == n * size;
        DivUnique(l.next, size, n, 0);
      }
    }
  }

  /** Compacting restores the packing from any layout, in order. */
  lemma {:induction false} ChunksPack(s: seq<int>, size: nat)
    requires size >= 1
    ensures Flatten(Chunks(s, size)) == s
    ensures PackedTiles(Chunks(s, size), size)
  {
    if 0 < |s| <= size {
      assert Chunks(s, size) == [s];
      assert Flatten([s][1..]) == [];
    } else if |s| > size {
      ChunksPack(s[size..], size);
      ConsPacks(s[..size], Chunks(s[size..], size), size);
      assert s == s[..size] + s[size..];
    }
  }

  lemma ConsPacks(t: seq<int>, tiles: seq<seq<int>>, size: nat)
    requires |t| == size && PackedTiles(tiles, size) && |tiles| > 0
    ensures Flatten([t] + tiles) == t + Flatten(tiles)
    ensures PackedTiles([t] + tiles, size)
  {
    var all := [t] + tiles;
    assert all[1..] == tiles;
    forall i | 0 <= i < |all| - 1 ensures |all[i]| == size {
      assert i > 0 ==> all[i] == tiles[i - 1];
    }
  }

  lemma DefragmentPacks(l: Layout, size: nat)
    requires size >= 1
    ensures Packed(Defragment(l, size), size)
    ensures Flatten(Defragment(l, size).tiles) == Flatten(l.tiles)
  {
    ChunksPack(Flatten(l.tiles), size);
  }

  // ---- allocation ----

  /** The entry of an address. */
  ghost predicate Holds(tiles: seq<seq<int>>, a: Address, h: int) {
    a.tile < |tiles| && a.row < |tiles[a.tile]| && tiles[a.tile][a.row] == h
  }

  lemma PlacePacked(l: Layout, size: nat, h: int)
    requires size >= 1 && Packed(l, size)
    ensures var (m, a) := Place(l, size, h);
            && Packed(m, size)
            && Flatten(m.tiles) == Flatten(l.tiles) + [h]
            && Holds(m.tiles, a, h)
  {
    var n := |l.tiles|;
    NextSlot(l, size);
    hide Slot;
    if n > 0 && |l.tiles[n - 1]| < size {
      FillLast(l.tiles, size, h);
    } else {
      FlattenSnoc(l.tiles, [h]);
      hide Flatten;
    }
  }

  /** Appending to a last tile with room. */
  lemma FillLast(tiles: seq<seq<int>>, size: nat, h: int)
    requires PackedTiles(tiles, size) && |tiles| > 0 && |tiles[|tiles| - 1]| < size
    ensures var n := |tiles|; var filled := tiles[n - 1 := tiles[n - 1] + [h]];
            PackedTiles(filled, size) && Flatten(filled) == Flatten(tiles) + [h]
  {
    var front, last := tiles[..|tiles| - 1], tiles[|tiles| - 1];
    assert tiles == front + [last];
    assert tiles[|tiles| - 1 := last + [h]] == front + [last + [h]];
    FlattenSnoc(front, last);
    FlattenSnoc(front, last + [h]);
    hide Flatten;
    assert Flatten(front) + (last + [h]) == Flatten(front) + last + [h];
  }

  /** Allocation, overflow included, keeps the packing, appends one entry, and returns where it is. */
  lemma AllocatePacked(l: Layout, size: nat, count: nat, h: int)
    requires size >= 1 && Packed(l, size)
    ensures var (m, a) := Allocate(l, size, count, h);
            && Packed(m, size)
            && Flatten(m.tiles) == Flatten(l.tiles) + [h]
            && Holds(m.tiles, a, h)
  {
    DefragmentPacks(l, size);
    PlacePacked(Defragment(l, size), size, h);
    PlacePacked(l, size, h);
  }

  // ---- lookup ----

  /** a is the first row holding h, tile by tile. */
  ghost predicate FirstAt(tiles: seq<seq<int>>, h: int, a: Address) {
    && Holds(tiles, a, h)
    && (forall i, j :: 0 <= i < a.tile && 0 <= j < |tiles[i]| ==> tiles[i][j] != h)
    && (forall j :: 0 <= j < a.row ==> tiles[a.tile][j] != h)
  }

  ghost predicate IsAddress(tiles: seq<seq<int>>, h: int, r: Option<Address>) {
    if r.Some? then FirstAt(tiles, h, r.value)
    else forall i, j :: 0 <= i < |tiles| && 0 <= j < |tiles[i]| ==> tiles[i][j] != h
  }

  lemma {:induction false} Stored(tiles: seq<seq<int>>, i: nat, j: nat)
    requires i < |tiles| && j < |tiles[i]|
    ensures tiles[i][j] in Flatten(tiles)
  {
    if i > 0 {
      Stored(tiles[1..], i - 1, j);
    }
  }

  /** After allocating a hash not stored before, looking it up gives the returned address. */
  lemma FreshAddress(l: Layout, size: nat, count: nat, h: int, r: Option<Address>)
    requires size >= 1 && Packed(l, size) && h !in Flatten(l.tiles)
    requires IsAddress(Allocate(l, size, count, h).0.tiles, h, r)
    ensures r == Some(Allocate(l, size, count, h).1)
  {
    var (m, a) := Allocate(l, size, count, h);
    AllocatePacked(l, size, count, h);
    var s := Flatten(m.tiles);
    assert s == Flatten(l.tiles) + [h];
    assert Holds(m.tiles, a, h);
    var b := r.value;
    assert Holds(m.tiles, b, h);
    PositionOf(m.tiles, a.tile, a.row);
    PositionOf(m.tiles, b.tile, b.row);
    assert Position(m.tiles, a.tile, a.row) == |s| - 1 == Position(m.tiles, b.tile, b.row);
    PositionInjective(m.tiles, a.tile, a.row, b.tile, b.row);
  }

  /** The index of row j of tile i in the flattened list. */
  ghost function Position(tiles: seq<seq<int>>, i: nat, j: nat): nat
    requires i < |tiles|
    decreases i
  {
    if i == 0 then j else |tiles[0]| + Position(tiles[1..], i - 1, j)
  }

  lemma {:induction false} PositionOf(tiles: seq<seq<int>>, i: nat, j: nat)
    requires i < |tiles| && j < |tiles[i]|
    ensures Position(tiles, i, j) < |Flatten(tiles)| && Flatten(tiles)[Position(tiles, i, j)] == tiles[i][j]
    decreases i
  {
    if i > 0 {
      PositionOf(tiles[1..], i - 1, j);
    }
  }

  lemma {:induction false} PositionInjective(tiles: seq<seq<int>>, i: nat, j: nat, k: nat, l: nat)
    requires i < |tiles| && j < |tiles[i]| && k < |tiles| && l < |tiles[k]|
    requires Position(tiles, i, j) == Position(tiles, k, l)
    ensures i == k && j == l
    decreases i
  {
    if i > 0 && k > 0 {
      PositionInjective(tiles[1..], i - 1, j, k - 1, l);
    }
  }

  // ---- wear levelling ----

  /** Rotation keeps the packing exactly when there is nothing to rotate or the last tile is full. */
  lemma RotatePacked(l: Layout, size: nat)
    requires size >= 1 && Packed(l, size)
    ensures Packed(Rotate(l), size) <==> Rotatable(l.tiles, size)
  {
    if |l.tiles| > 0 {
      var n := |l.tiles|;
      var tiles := l.tiles[1..] + [l.tiles[0]];
      FlattenSnoc(l.tiles[1..], l.tiles[0]);
      if n > 1 {
        assert tiles[n - 2] == l.tiles[n - 1] && tiles[n - 1] == l.tiles[0];
        if |l.tiles[n - 1]| == size {
          forall i | 0 <= i < n - 1 ensures |tiles[i]| == size {
            assert tiles[i] == l.tiles[i + 1];
          }
        }
      } else {
        assert tiles == l.tiles;
      }
    }
  }

  /** The first tile has become the last, all others have moved up by one. */
  ghost predicate RotatedOnce(before: seq<seq<int>>, after: seq<seq<int>>) {
    && |after| == |before|
    && (forall i :: 0 <= i < |before| - 1 ==> after[i] == before[i + 1])
    && (|before| > 0 ==> after[|before| - 1] == before[0])
  }

  // ---- runs ----

  datatype Op = Store(h: int) | WearLevel

  function Apply(l: Layout, size: nat, count: nat, op: Op): Layout
    requires size >= 1
  {
    match op
    case Store(h) => Allocate(l, size, count, h).0
    case WearLevel => Rotate(l)
  }

  function Run(ops: seq<Op>, size: nat, count: nat): Layout
    requires size >= 1
  {
    if |ops| == 0 then Fresh else Apply(Run(ops[..|ops| - 1], size, count), size, count, ops[|ops| - 1])
  }

  /** The hashes allocated by a run. */
  function StoredBy(ops: seq<Op>): multiset<int> {
    if |ops| == 0 then multiset{}
    else StoredBy(ops[..|ops| - 1]) + (if ops[|ops| - 1].Store? then multiset{ops[|ops| - 1].h} else multiset{})
  }

  /** There is nothing to rotate, or the last tile is full. */
  ghost predicate Rotatable(tiles: seq<seq<int>>, size: nat) {
    |tiles| <= 1 || |tiles[|tiles| - 1]| == size
  }

  ghost predicate RotatesAt(ops: seq<Op>, k: nat, size: nat, count: nat)
    requires size >= 1 && k < |ops|
  {
    ops[k].WearLevel? ==> Rotatable(Run(ops[..k], size, count).tiles, size)
  }

  /** The last tile is full whenever tiles are rotated. */
  ghost predicate FullRotations(ops: seq<Op>, size: nat, count: nat)
    requires size >= 1
  {
    forall k: nat :: k < |ops| ==> RotatesAt(ops, k, size, count)
  }

  ghost predicate PackedAt(ops: seq<Op>, k: nat, size: nat, count: nat)
    requires size >= 1 && k <= |ops|
  {
    Packed(Run(ops[..k], size, count), size)
  }

  /** The layout is packed before and after every operation. */
  ghost predicate AlwaysPacked(ops: seq<Op>, size: nat, count: nat)
    requires size >= 1
  {
    forall k: nat :: k <= |ops| ==> PackedAt(ops, k, size, count)
  }

  lemma LastRotation(ops: seq<Op>, size: nat, count: nat)
    requires size >= 1 && |ops| > 0
    ensures var n := |ops| - 1;
            FullRotations(ops, size, count) <==> FullRotations(ops[..n], size, count) && RotatesAt(ops, n, size, count)
  {
    var n := |ops| - 1;
    hide Rotatable, Run;
    forall k: nat | k < n ensures RotatesAt(ops, k, size, count) <==> RotatesAt(ops[..n], k, size, count) {
      assert ops[..n][..k] == ops[..k];
    }
    hide RotatesAt;
  }

  lemma LastPacked(ops: seq<Op>, size: nat, count: nat)
    requires size >= 1 && |ops| > 0
    ensures var n := |ops| - 1;
            AlwaysPacked(ops, size, count) <==> AlwaysPacked(ops[..n], size, count) && PackedAt(ops, n + 1, size, count)
  {
    var n := |ops| - 1;
    hide Packed, Run;
    forall k: nat | k <= n ensures PackedAt(ops, k, size, count) <==> PackedAt(ops[..n], k, size, count) {
      assert ops[..n][..k] == ops[..k];
    }
    hide PackedAt;
  }

  /** A run stays packed exactly when it rotates full tiles only. */
  lemma {:induction false} RunPacked(ops: seq<Op>, size: nat, count: nat)
    requires size >= 1
    ensures AlwaysPacked(ops, size, count) <==> FullRotations(ops, size, count)
  {
    if |ops| == 0 {
      assert ops[..0] == [];
    } else {
      var n := |ops| - 1;
      RunPacked(ops[..n], size, count);
      LastRotation(ops, size, count);
      LastPacked(ops, size, count);
      assert ops[..|ops|] == ops;
      assert ops[..n][..n] == ops[..n];
      if AlwaysPacked(ops[..n], size, count) {
        assert PackedAt(ops[..n], n, size, count);
        StepPacked(Run(ops[..n], size, count), size, count, ops[n]);
      }
    }
  }

  lemma StepPacked(l: Layout, size: nat, count: nat, op: Op)
    requires size >= 1 && Packed(l, size)
    ensures Packed(Apply(l, size, count, op), size) <==> (op.WearLevel? ==> Rotatable(l.tiles, size))
  {
    match op
    case Store(h) => AllocatePacked(l, size, count, h);
    case WearLevel => RotatePacked(l, size);
  }

  lemma {:induction false} FlattenGrow(tiles: seq<seq<int>>, i: nat, h: int)
    requires i < |tiles|
    ensures multiset(Flatten(tiles[i := tiles[i] + [h]])) == multiset(Flatten(tiles)) + multiset{h}
    decreases i
  {
    var grown := tiles[i := tiles[i] + [h]];
    if i == 0 {
      assert grown[1..] == tiles[1..];
    } else {
      FlattenGrow(tiles[1..], i - 1, h);
      assert grown[1..] == tiles[1..][i - 1 := tiles[1..][i - 1] + [h]];
    }
  }

  lemma PlaceConserves(l: Layout, size: nat, h: int)
    requires size >= 1
    ensures multiset(Flatten(Place(l, size, h).0.tiles)) == multiset(Flatten(l.tiles)) + multiset{h}
  {
    hide Slot, Flatten;
    var tile := Slot(l.next, size).tile;
    if tile < |l.tiles| {
      FlattenGrow(l.tiles, tile, h);
    } else {
      FlattenSnoc(l.tiles, [h]);
    }
  }

  /** Whatever the layout, one operation loses and invents no entry. */
  lemma StepConserves(l: Layout, size: nat, count: nat, op: Op)
    requires size >= 1
    ensures multiset(Flatten(Apply(l, size, count, op).tiles))
         == multiset(Flatten(l.tiles)) + (if op.Store? then multiset{op.h} else multiset{})
  {
    hide Slot, Place, Defragment;
    match op
    case Store(h) =>
      DefragmentPacks(l, size);
      PlaceConserves(Defragment(l, size), size, h);
      PlaceConserves(l, size, h);
    case WearLevel =>
      if |l.tiles| > 0 {
        FlattenSnoc(l.tiles[1..], l.tiles[0]);
      }
  }

  /** Every run holds exactly what it stored. */
  lemma {:induction false} RunConserves(ops: seq<Op>, size: nat, count: nat)
    requires size >= 1
    ensures multiset(Flatten(Run(ops, size, count).tiles)) == StoredBy(ops)
  {
    if |ops| > 0 {
      var n := |ops| - 1;
      RunConserves(ops[..n], size, count);
      StepConserves(Run(ops[..n], size, count), size, count, ops[n]);
    }
  }

  // ---- write counts ----

  /** Operation k stores an entry at an address on the tile. */
  ghost predicate WritesTo(ops: seq<Op>, k: nat, size: nat, count: nat, tile: nat)
    requires size >= 1
  {
    k < |ops| && ops[k].Store? && Allocate(Run(ops[..k], size, count), size, count, ops[k].h).1.tile == tile
  }

  ghost function Writers(ops: seq<Op>, size: nat, count: nat, tile: nat): set<nat>
    requires size >= 1
  {
    set k: nat | k < |ops| && WritesTo(ops, k, size, count, tile)
  }

  /** The write count of a tile is the number of allocations that returned an address on it. */
  lemma {:induction false} RunWrites(ops: seq<Op>, size: nat, count: nat, tile: nat)
    requires size >= 1
    ensures var w := Run(ops, size, count).writes;
            if tile in w then w[tile] == |Writers(ops, size, count, tile)| else Writers(ops, size, count, tile) == {}
  {
    if |ops| > 0 {
      var n := |ops| - 1;
      RunWrites(ops[..n], size, count, tile);
      LastWriter(ops, size, count, tile);
      hide Writers, WritesTo;
      StepWrites(Run(ops[..n], size, count), size, count, ops[n], tile);
    }
  }

  lemma LastWriter(ops: seq<Op>, size: nat, count: nat, tile: nat)
    requires size >= 1 && |ops| > 0
    ensures |Writers(ops, size, count, tile)| == |Writers(ops[..|ops| - 1], size, count, tile)|
                                                 + (if WritesTo(ops, |ops| - 1, size, count, tile) then 1 else 0)
    ensures WritesTo(ops, |ops| - 1, size, count, tile) <==>
            var op := ops[|ops| - 1];
            op.Store? && Allocate(Run(ops[..|ops| - 1], size, count), size, count, op.h).1.tile == tile
  {
    var n := |ops| - 1;
    assert WritesTo(ops, n, size, count, tile) <==>
           ops[n].Store? && Allocate(Run(ops[..n], size, count), size, count, ops[n].h).1.tile == tile;
    WritesBefore(ops, n, size, count, tile);
    hide WritesTo, Allocate, Run;
    var last := if WritesTo(ops, n, size, count, tile) then {n} else {};
    assert Writers(ops, size, count, tile) == Writers(ops[..n], size, count, tile) + last;
  }

  /** The operations before the n-th write to the same tiles when the run stops there. */
  lemma WritesBefore(ops: seq<Op>, n: nat, size: nat, count: nat, tile: nat)
    requires size >= 1 && n < |ops|
    ensures forall k: nat :: k < n ==>
              (WritesTo(ops, k, size, count, tile) <==> WritesTo(ops[..n], k, size, count, tile))
    ensures forall k :: k in Writers(ops[..n], size, count, tile) ==> k < n
  {
    hide Run, Allocate;
    forall k: nat | k < n ensures WritesTo(ops, k, size, count, tile) <==> WritesTo(ops[..n], k, size, count, tile) {
      assert ops[..n][..k] == ops[..k];
    }
  }

  /** One operation counts one write, on the tile of the address it returns. */
  lemma StepWrites(l: Layout, size: nat, count: nat, op: Op, tile: nat)
    requires size >= 1
    ensures var w, w' := l.writes, Apply(l, size, count, op).writes;
            if op.Store? && Allocate(l, size, count, op.h).1.tile == tile
            then tile in w' && w'[tile] == (if tile in w then w[tile] else 0) + 1
            else (tile in w' <==> tile in w) && (tile in w ==> w'[tile] == w[tile])
  {
    hide Slot, Flatten, Chunks;
  }

  // ---- when the returned address is right ----

  /** The address is the next row of a tile, or the first row of a new one. */
  ghost predicate FreeRow(tiles: seq<seq<int>>, a: Address) {
    || (a.tile < |tiles| && a.row == |tiles[a.tile]|)
    || (a.tile == |tiles| && a.row == 0)
  }

  lemma PlacedRight(l: Layout, size: nat, h: int)
    requires size >= 1 && h !in Flatten(l.tiles)
    ensures var (m, a) := Place(l, size, h); Holds(m.tiles, a, h) <==> FreeRow(l.tiles, a)
  {
    var a := Slot(l.next, size);
    hide Slot, Flatten;
    if a.tile < |l.tiles| && a.row < |l.tiles[a.tile]| {
      Stored(l.tiles, a.tile, a.row);
    }
  }

  /** From any layout a new entry is at the returned address exactly when, after compaction if
      it overflows, that address is a free row. */
  lemma AddressRight(l: Layout, size: nat, count: nat, h: int)
    requires size >= 1 && h !in Flatten(l.tiles)
    ensures var (m, a) := Allocate(l, size, count, h);
            Holds(m.tiles, a, h) <==> FreeRow(Compacted(l, size, count).tiles, a)
  {
    DefragmentPacks(l, size);
    PlacedRight(Compacted(l, size, count), size, h);
  }

  lemma RotateKeeps(l: Layout)
    ensures |Flatten(Rotate(l).tiles)| == |Flatten(l.tiles)|
    ensures forall x :: x in Flatten(Rotate(l).tiles) <==> x in Flatten(l.tiles)
  {
    if |l.tiles| > 0 {
      FlattenSnoc(l.tiles[1..], l.tiles[0]);
    }
  }

  /** Right after a rotation of a packed layout the returned address is right exactly when the
      rotation met full tiles only, or the allocation overflows and so compacts. */
  lemma RotatedAddress(l: Layout, size: nat, count: nat, h: int)
    requires size >= 1 && Packed(l, size) && h !in Flatten(l.tiles)
    ensures var (m, a) := Allocate(Rotate(l), size, count, h);
            Holds(m.tiles, a, h) <==> Rotatable(l.tiles, size) || Slot(l.next, size).tile >= count
  {
    var r := Rotate(l);
    RotateKeeps(l);
    RotatePacked(l, size);
    AddressRight(r, size, count, h);
    NextSlot(l, size);
    hide Slot, Flatten;
    if Slot(l.next, size).tile >= count {
      DefragmentPacks(r, size);
      PlacePacked(Defragment(r, size), size, h);
    } else if Rotatable(l.tiles, size) {
      PlacePacked(r, size, h);
    } else {
      var n := |l.tiles|;
      assert r.tiles[n - 1] == l.tiles[0] && |l.tiles[0]| == size;
    }
  }

  lemma RunSnoc(ops: seq<Op>, op: Op, size: nat, count: nat)
    requires size >= 1
    ensures Run(ops + [op], size, count) == Apply(Run(ops, size, count), size, count, op)
  {
    assert (ops + [op])[..|ops|] == ops;
  }

  lemma ThreeStored(a: int, b: int, c: int, count: nat)
    requires count >= 2
    ensures var l := Run([Store(a), Store(b), Store(c)], 2, count);
            l.tiles == [[a, b], [c]] && l.next == 3
  {
    var l0, l1 := Run([], 2, count), Run([Store(a)], 2, count);
    var l2, l3 := Run([Store(a), Store(b)], 2, count), Run([Store(a), Store(b), Store(c)], 2, count);
    RunSnoc([], Store(a), 2, count);
    RunSnoc([Store(a)], Store(b), 2, count);
    RunSnoc([Store(a), Store(b)], Store(c), 2, count);
    assert [] + [Store(a)] == [Store(a)];
    assert [Store(a)] + [Store(b)] == [Store(a), Store(b)];
    assert [Store(a), Store(b)] + [Store(c)] == [Store(a), Store(b), Store(c)];
    assert Slot(0, 2) == Address(0, 0) && Slot(1, 2) == Address(0, 1) && Slot(2, 2) == Address(1, 0);
    assert l0 == Fresh;
    hide Run, Slot, Defragment;
    assert l1.tiles == [[a]] && l1.next == 1;
    assert [a] + [b] == [a, b];
    assert l2.tiles == [[a, b]] && l2.next == 2;
    assert l3.tiles == [[a, b], [c]] && l3.next == 3;
  }

  /** With tiles of two rows, three allocations and a rotation misplace the next entry. */
  lemma RotationMisplaces(a: int, b: int, c: int, h: int, count: nat)
    requires count >= 2 && h != b
    ensures var l := Run([Store(a), Store(b), Store(c), WearLevel], 2, count);
            var (m, x) := Allocate(l, 2, count, h);
            l.tiles == [[c], [a, b]] && x == Address(1, 1) && !Holds(m.tiles, x, h)
  {
    var before := [Store(a), Store(b), Store(c)];
    var l := Run(before, 2, count);
    ThreeStored(a, b, c, count);
    RunSnoc(before, WearLevel, 2, count);
    assert before + [WearLevel] == [Store(a), Store(b), Store(c), WearLevel];
    assert l.tiles[1..] == [[c]];
    RotateKeeps(l);
    assert Flatten([[c]]) == [c] + Flatten([[c]][1..]);
    assert Flatten(l.tiles) == [a, b] + Flatten([[c]]);
    assert Slot(3, 2) == Address(1, 1);
    hide Run, Slot, Flatten, Defragment;
  }

  // ---- the class ----

  class Mapper {
    const tileSize: nat
    const numTiles: nat
    var tileUsage: seq<seq<int>>
    var writeCounts: map<nat, nat>
    var nextAddr: nat

    function State(): Layout
      reads this
    {
      Layout(tileUsage, writeCounts, nextAddr)
    }

    constructor (tileSize: nat, numTiles: nat)
      ensures this.tileSize == tileSize && this.numTiles == numTiles && State() == Fresh
    {
      this.tileSize, this.numTiles := tileSize, numTiles;
      tileUsage, writeCounts, nextAddr := [], map[], 0;
    }

    method Defrag()
      requires tileSize >= 1
      modifies this
      ensures State() == Defragment(old(State()), tileSize)
    {
      var all: seq<int> := [];
      for i := 0 to |tileUsage|
        invariant State() == old(State())
        invariant all == Flatten(tileUsage[..i])
      {
        FlattenSnoc(tileUsage[..i], tileUsage[i]);
        assert tileUsage[..i + 1] == tileUsage[..i] + [tileUsage[i]];
        all := all + tileUsage[i];
      }
      assert tileUsage[..|tileUsage|] == tileUsage;
      tileUsage := Chunks(all, tileSize);
      nextAddr := |all|;
    }

    /** `hash` is the hash of the id. */
    method AllocateNode(hash: int) returns (address: Address)
      requires tileSize >= 1
      modifies this
      ensures (State(), address) == Allocate(old(State()), tileSize, numTiles, hash)
    {
      hide Flatten, Chunks, Slot;
      address := Slot(nextAddr, tileSize);
      if address.tile >= numTiles {
        Defrag();
        address := Slot(nextAddr, tileSize);
      }
      var tile := address.tile;
      nextAddr := nextAddr + 1;
      writeCounts := writeCounts[tile := Count(writeCounts, tile) + 1];
      if tile < |tileUsage| {
        tileUsage := tileUsage[tile := tileUsage[tile] + [hash]];
      } else {
        tileUsage := tileUsage + [[hash]];
      }
    }

    /** sum(len(t) for t in tiles). */
    static method Total(tiles: seq<seq<int>>) returns (total: nat)
      ensures total == |Flatten(tiles)|
    {
      total := 0;
      for i := 0 to |tiles|
        invariant total == |Flatten(tiles[..i])|
      {
        FlattenSnoc(tiles[..i], tiles[i]);
        assert tiles[..i + 1] == tiles[..i] + [tiles[i]];
        total := total + |tiles[i]|;
      }
      assert tiles[..|tiles|] == tiles;
    }

    method WearLevel()
      modifies this
      ensures State() == Rotate(old(State()))
      ensures RotatedOnce(old(tileUsage), tileUsage) && writeCounts == old(writeCounts)
      ensures tileUsage != [] ==> nextAddr == |Flatten(tileUsage)|
    {
      if |tileUsage| > 0 {
        tileUsage := tileUsage[1..] + [tileUsage[0]];
        nextAddr := Total(tileUsage);
      }
    }

    method GetAddress(hash: int) returns (r: Option<Address>)
      ensures IsAddress(tileUsage, hash, r)
    {
      for i := 0 to |tileUsage|
        invariant forall k, j :: 0 <= k < i && 0 <= j < |tileUsage[k]| ==> tileUsage[k][j] != hash
      {
        for j := 0 to |tileUsage[i]|
          invariant forall k :: 0 <= k < j ==> tileUsage[i][k] != hash
        {
          if tileUsage[i][j] == hash {
            return Some(Address(i, j));
          }
        }
      }
      return None;
    }
  }
}
