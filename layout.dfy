/**
 * Tile layouts: a row-major sequence of slots, each holding the origin cell
 * of the tile that sits there or the empty marker.
 */
module Layout {
  import opened Grid

  /** A slot holds a tile, labelled by its solved-state cell, or nothing (`None`). */
  datatype Slot = Empty | Tile(origin: Coord)

  /** The slot of the identity layout at `idx`: the hole sits at the top-right cell. */
  function IdentitySlot(idx: nat, cols: nat): Slot
    requires cols > 0
  {
    if idx == cols - 1 then Empty else Tile(CoordOf(idx, cols))
  }

  function Identity(rows: nat, cols: nat): seq<Slot>
    requires cols > 0
  {
    seq(rows * cols, idx requires 0 <= idx => IdentitySlot(idx, cols))
  }

  /**
   * Builds the identity layout with two nested loops, appending one slot per
   * cell, and returns it with the position of its hole.
   */
  method CreateTiles(rows: nat, cols: nat) returns (tiles: seq<Slot>, emptyPos: Coord)
    requires cols > 0
    ensures |tiles| == rows * cols
    ensures forall idx :: 0 <= idx < |tiles| ==> (tiles[idx] == Empty <==> idx == cols - 1)
    ensures forall idx :: 0 <= idx < |tiles| && idx != cols - 1 ==> tiles[idx] == Tile(CoordOf(idx, cols))
    ensures emptyPos == Coord(0, cols - 1) && IndexOf(emptyPos, cols) == cols - 1
    ensures tiles == Identity(rows, cols)
  {
    tiles := [];
    for r := 0 to rows
      invariant |tiles| == r * cols
      invariant forall idx :: 0 <= idx < |tiles| ==> tiles[idx] == IdentitySlot(idx, cols)
    {
      for c := 0 to cols
        invariant |tiles| == r * cols + c
        invariant forall idx :: 0 <= idx < |tiles| ==> tiles[idx] == IdentitySlot(idx, cols)
      {
        IndexRoundTrip(Coord(r, c), rows, cols);
        if r > 0 {
          MulMonotone(1, r, cols);
        }
        if r == 0 && c == cols - 1 {
          tiles := tiles + [Empty];
        } else {
          tiles := tiles + [Tile(Coord(r, c))];
        }
      }
    }
    emptyPos := Coord(0, cols - 1);
  }

  /** `_is_solved`: every non-empty slot holds the tile whose origin is that slot's cell. */
  predicate Solved(tiles: seq<Slot>, cols: nat)
    requires cols > 0
  {
    forall idx :: 0 <= idx < |tiles| ==> tiles[idx] == Empty || tiles[idx] == Tile(CoordOf(idx, cols))
  }

  /** The tiles in slot order with the holes dropped (`[t for t in tiles if t is not None]`). */
  function Movable(tiles: seq<Slot>): seq<Slot>
  {
    if |tiles| == 0 then []
    else
      var last := tiles[|tiles| - 1];
      Movable(tiles[..|tiles| - 1]) + (if last == Empty then [] else [last])
  }

  /** The holes of a layout, in slot order. */
  function Holes(tiles: seq<Slot>): seq<Slot>
  {
    if |tiles| == 0 then []
    else
      var last := tiles[|tiles| - 1];
      Holes(tiles[..|tiles| - 1]) + (if last == Empty then [last] else [])
  }

  /** The movable tiles are tiles only, and there are no more of them than slots. */
  lemma {:induction false} MovableHasNoHoles(tiles: seq<Slot>)
    ensures Empty !in Movable(tiles)
    ensures |Movable(tiles)| <= |tiles|
  {
    if |tiles| > 0 {
      MovableHasNoHoles(tiles[..|tiles| - 1]);
    }
  }

  /** Two layouts of equal length with their holes in the same slots. */
  predicate SameHoles(a: seq<Slot>, b: seq<Slot>) {
    |a| == |b| && forall idx :: 0 <= idx < |a| ==> (a[idx] == Empty <==> b[idx] == Empty)
  }

  /** Appending one slot extends the movable tiles by that slot if it is a tile. */
  lemma MovableSnoc(tiles: seq<Slot>, k: nat)
    requires k < |tiles|
    ensures Movable(tiles[..k + 1]) == Movable(tiles[..k]) + (if tiles[k] == Empty then [] else [tiles[k]])
  {
    assert tiles[..k + 1][..k] == tiles[..k];
  }

  /** The movable tiles of a concatenation are those of its parts, in order. */
  lemma {:induction false} MovableConcat(a: seq<Slot>, b: seq<Slot>)
    ensures Movable(a + b) == Movable(a) + Movable(b)
    decreases |b|
  {
    if b == [] {
      assert a + b == a;
    } else {
      var init := b[..|b| - 1];
      MovableConcat(a, init);
      assert (a + b)[..|a + b| - 1] == a + init;
      assert (a + b)[|a + b| - 1] == b[|b| - 1];
    }
  }

  lemma PrefixSnoc<T>(s: seq<T>, i: nat)
    requires i < |s|
    ensures s[..i + 1] == s[..i] + [s[i]]
  {
  }

  /**
   * The state of the refill loop of `_shuffle_tiles` after `idx` slots, `i`
   * of them tiles: the first `idx` slots hold the first `i` shuffled tiles,
   * with the holes where they were, and the rest of the layout is untouched.
   */
  predicate Refilling(orig: seq<Slot>, t: seq<Slot>, shuffled: seq<Slot>, idx: nat, i: nat) {
    && |t| == |orig| && idx <= |orig|
    && |Movable(orig)| == |shuffled| && Empty !in shuffled
    && i == |Movable(orig[..idx])| <= |shuffled|
    && (forall k :: idx <= k < |t| ==> t[k] == orig[k])
    && (forall k :: 0 <= k < idx ==> (t[k] == Empty <==> orig[k] == Empty))
    && Movable(t[..idx]) == shuffled[..i]
  }

  /** Before the loop nothing is written. */
  lemma RefillStart(orig: seq<Slot>, shuffled: seq<Slot>)
    requires multiset(shuffled) == multiset(Movable(orig))
    ensures Refilling(orig, orig, shuffled, 0, 0)
  {
    assert |multiset(shuffled)| == |multiset(Movable(orig))|;
    MovableHasNoHoles(orig);
    assert Empty !in multiset(Movable(orig));
    assert orig[..0] == [];
  }

  /** One slot of the loop: a tile slot takes the next shuffled tile, a hole stays. */
  lemma RefillStep(orig: seq<Slot>, t: seq<Slot>, shuffled: seq<Slot>, idx: nat, i: nat)
    requires Refilling(orig, t, shuffled, idx, i) && idx < |orig|
    ensures t[idx] != Empty ==> i < |shuffled| && Refilling(orig, t[idx := shuffled[i]], shuffled, idx + 1, i + 1)
    ensures t[idx] == Empty ==> Refilling(orig, t, shuffled, idx + 1, i)
  {
    MovableSnoc(orig, idx);
    assert orig == orig[..idx + 1] + orig[idx + 1..];
    MovableConcat(orig[..idx + 1], orig[idx + 1..]);
    if t[idx] != Empty {
      var next := t[idx := shuffled[i]];
      assert next[..idx] == t[..idx];
      MovableSnoc(next, idx);
      PrefixSnoc(shuffled, i);
    } else {
      MovableSnoc(t, idx);
    }
  }

  /** After the last slot the layout holds the shuffled tiles with the holes in place. */
  lemma RefillDone(orig: seq<Slot>, t: seq<Slot>, shuffled: seq<Slot>, i: nat)
    requires Refilling(orig, t, shuffled, |orig|, i)
    ensures SameHoles(orig, t) && Movable(t) == shuffled
  {
    assert orig[..|orig|] == orig;
    assert shuffled[..i] == shuffled;
    assert t[..|t|] == t;
  }

  /** A layout is, as a multiset, its movable tiles plus its holes. */
  lemma {:induction false} SplitTiles(tiles: seq<Slot>)
    ensures multiset(tiles) == multiset(Movable(tiles)) + multiset(Holes(tiles))
  {
    if |tiles| > 0 {
      var init, last := tiles[..|tiles| - 1], tiles[|tiles| - 1];
      SplitTiles(init);
      assert tiles == init + [last];
      if last == Empty {
        assert Holes(tiles) == Holes(init) + [last];
        assert Movable(tiles) == Movable(init);
      } else {
        assert Holes(tiles) == Holes(init);
        assert Movable(tiles) == Movable(init) + [last];
      }
    }
  }

  /** Layouts with the holes in the same slots have the same holes. */
  lemma {:induction false} SameHolesAgree(a: seq<Slot>, b: seq<Slot>)
    requires SameHoles(a, b)
    ensures Holes(a) == Holes(b)
  {
    if a != [] {
      SameHolesAgree(a[..|a| - 1], b[..|b| - 1]);
    }
  }

  /**
   * Writing a rearrangement of the movable tiles back into the non-empty slots
   * keeps the multiset of the whole layout.
   */
  lemma ShuffleKeepsTiles(before: seq<Slot>, after: seq<Slot>)
    requires SameHoles(before, after)
    requires multiset(Movable(after)) == multiset(Movable(before))
    ensures multiset(after) == multiset(before)
  {
    SplitTiles(before);
    SplitTiles(after);
    SameHolesAgree(before, after);
  }

  /** The identity layout has exactly one hole, in slot `cols - 1`. */
  lemma IdentityOneHole(rows: nat, cols: nat)
    requires ValidSize(rows, cols)
    ensures cols - 1 < rows * cols
    ensures multiset(Identity(rows, cols))[Empty] == 1
  {
    MulMonotone(1, rows, cols);
    OccursOnlyAt(Identity(rows, cols), cols - 1, Empty);
  }

  /** A value found at index `k` and nowhere else occurs once in the multiset. */
  lemma OccursOnlyAt<T>(s: seq<T>, k: nat, x: T)
    requires k < |s| && s[k] == x
    requires forall i :: 0 <= i < |s| && i != k ==> s[i] != x
    ensures multiset(s)[x] == 1
  {
    assert s == s[..k] + [s[k]] + s[k + 1..];
    assert x !in s[..k] by {
      forall i | 0 <= i < k ensures s[..k][i] != x {
        assert s[..k][i] == s[i];
      }
    }
    assert x !in s[k + 1..] by {
      var rest := s[k + 1..];
      forall i | 0 <= i < |rest| ensures rest[i] != x {
        assert rest[i] == s[k + 1 + i];
      }
    }
  }

  /** A value at two distinct indices occurs at least twice in the multiset. */
  lemma TwoOccurrences<T>(s: seq<T>, i: nat, j: nat, x: T)
    requires i < j < |s| && s[i] == x && s[j] == x
    ensures multiset(s)[x] >= 2
  {
    assert s == s[..j] + s[j..];
    assert x in s[..j];
    assert x in s[j..];
  }

  /** The identity layout satisfies the solved check. */
  lemma IdentitySolved(rows: nat, cols: nat)
    requires cols > 0
    ensures Solved(Identity(rows, cols), cols)
  {
  }

  /**
   * The identity layout never holds the tile whose origin is the hole's cell
   * `(0, cols-1)`: a tile `CoordOf(idx)` that occurs in it has `idx` other
   * than the hole's slot.
   */
  lemma IdentityLacksHoleTile(rows: nat, cols: nat, idx: nat)
    requires cols > 0 && idx < rows * cols
    ensures Tile(CoordOf(idx, cols)) in Identity(rows, cols) ==> idx != cols - 1
  {
    var id := Identity(rows, cols);
    if Tile(CoordOf(idx, cols)) in id {
      var j :| 0 <= j < |id| && id[j] == Tile(CoordOf(idx, cols));
      assert IndexOf(CoordOf(j, cols), cols) == j;
    }
  }
}
