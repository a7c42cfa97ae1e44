/**
 * The canvas as a value: Height rows of Width packed colours, row-major with
 * the origin at the top left. Both the server's authoritative grid and the
 * client's rendered canvas are described in these terms.
 */
module Grid {
  import opened Bytes
  import opened Protocol

  type Cells = seq<seq<u32>>

  predicate IsGrid(g: Cells) {
    |g| == Height && forall y :: 0 <= y < Height ==> |g[y]| == Width
  }

  /** Every row has Width cells (any number of rows). */
  predicate RowsOfWidth(g: Cells) {
    forall y :: 0 <= y < |g| ==> |g[y]| == Width
  }

  /** The all-zero grid `vec![[0; CANVAS_WIDTH]; CANVAS_HEIGHT]`. */
  function Blank(): (g: Cells)
    ensures IsGrid(g)
    ensures forall y, x :: 0 <= y < Height && 0 <= x < Width ==> g[y][x] == 0
  {
    seq(Height, _ => seq(Width, _ => 0))
  }

  // ---- row-major flattening -------------------------------------------------

  /** The cells row after row (`iter().flat_map(|row| row.iter())`). */
  function Flatten(g: Cells): (flat: seq<u32>)
    ensures RowsOfWidth(g) ==> |flat| == |g| * Width
  {
    if g == [] then [] else Flatten(g[..|g| - 1]) + g[|g| - 1]
  }

  lemma {:induction false} FlattenAt(g: Cells)
    requires RowsOfWidth(g)
    ensures |Flatten(g)| == |g| * Width
    ensures forall y, x :: 0 <= y < |g| && 0 <= x < Width ==> Flatten(g)[y * Width + x] == g[y][x]
  {
    if g != [] {
      var init := g[..|g| - 1];
      FlattenAt(init);
      forall y, x | 0 <= y < |g| && 0 <= x < Width
        ensures Flatten(g)[y * Width + x] == g[y][x]
      {
        if y < |g| - 1 {
          assert init[y] == g[y];
        }
      }
    }
  }

  /** Cell (x, y) of the grid loaded from a flat list is element y * W + x. */
  function Unflatten(flat: seq<u32>): (g: Cells)
    requires |flat| == CellCount
    ensures IsGrid(g)
    ensures forall y, x :: 0 <= y < Height && 0 <= x < Width ==> g[y][x] == flat[y * Width + x]
  {
    seq(Height, (y: int) requires 0 <= y < Height => flat[y * Width .. y * Width + Width])
  }

  lemma FlattenUnflatten(flat: seq<u32>)
    requires |flat| == CellCount
    ensures Flatten(Unflatten(flat)) == flat
  {
    var g := Unflatten(flat);
    FlattenAt(g);
    forall i | 0 <= i < CellCount
      ensures Flatten(g)[i] == flat[i]
    {
      var y, x := i / Width, i % Width;
      assert i == y * Width + x;
      assert g[y][x] == flat[i];
    }
  }

  lemma UnflattenFlatten(g: Cells)
    requires IsGrid(g)
    ensures Unflatten(Flatten(g)) == g
  {
    FlattenAt(g);
    var h := Unflatten(Flatten(g));
    forall y | 0 <= y < Height
      ensures h[y] == g[y]
    {
      forall x | 0 <= x < Width
        ensures h[y][x] == g[y][x]
      {
      }
    }
  }

  // ---- colours as bytes -----------------------------------------------------

  /** Each colour as its four little-endian bytes, in order (`map(u32::to_le_bytes).flatten()`). */
  function EncodeColors(cs: seq<u32>): (bs: seq<byte>)
    ensures |bs| == 4 * |cs|
  {
    if cs == [] then [] else EncodeColors(cs[..|cs| - 1]) + U32ToLe(cs[|cs| - 1])
  }

  lemma EncodeColorsSnoc(cs: seq<u32>, c: u32)
    ensures EncodeColors(cs + [c]) == EncodeColors(cs) + U32ToLe(c)
  {
    assert (cs + [c])[..|cs|] == cs;
  }

  lemma {:induction false} EncodeColorsAppend(a: seq<u32>, b: seq<u32>)
    ensures EncodeColors(a + b) == EncodeColors(a) + EncodeColors(b)
  {
    if b == [] {
      assert a + b == a;
    } else {
      var init, last := b[..|b| - 1], b[|b| - 1];
      assert b == init + [last];
      assert a + b == (a + init) + [last];
      calc {
        EncodeColors(a + b);
        { EncodeColorsSnoc(a + init, last); }
        EncodeColors(a + init) + U32ToLe(last);
        { EncodeColorsAppend(a, init); }
        EncodeColors(a) + EncodeColors(init) + U32ToLe(last);
        { EncodeColorsSnoc(init, last); }
        EncodeColors(a) + EncodeColors(b);
      }
    }
  }

  /** One more colour of a row adds its four bytes. */
  lemma EncodeColorsPrefix(cs: seq<u32>, n: nat)
    requires n < |cs|
    ensures EncodeColors(cs[..n + 1]) == EncodeColors(cs[..n]) + U32ToLe(cs[n])
  {
    assert cs[..n + 1] == cs[..n] + [cs[n]];
    EncodeColorsSnoc(cs[..n], cs[n]);
  }

  lemma {:induction false} EncodeColorsAt(cs: seq<u32>)
    ensures |EncodeColors(cs)| == 4 * |cs|
    ensures forall i :: 0 <= i < |cs| ==> EncodeColors(cs)[4 * i .. 4 * i + 4] == U32ToLe(cs[i])
  {
    if cs != [] {
      var init := cs[..|cs| - 1];
      EncodeColorsAt(init);
      forall i | 0 <= i < |cs|
        ensures EncodeColors(cs)[4 * i .. 4 * i + 4] == U32ToLe(cs[i])
      {
        if i < |cs| - 1 {
          assert init[i] == cs[i];
        }
      }
    }
  }

  /** Four bytes at a time, each read as a little-endian colour. */
  function DecodeColors(bs: seq<byte>): (cs: seq<u32>)
    requires |bs| % 4 == 0
    ensures |cs| == |bs| / 4
    ensures forall i :: 0 <= i < |cs| ==> U32ToLe(cs[i]) == bs[4 * i .. 4 * i + 4]
  {
    seq(|bs| / 4, (i: int) requires 0 <= i < |bs| / 4 => U32FromLe(bs[4 * i .. 4 * i + 4]))
  }

  lemma DecodeEncodeColors(cs: seq<u32>)
    ensures DecodeColors(EncodeColors(cs)) == cs
  {
    EncodeColorsAt(cs);
    var ds := DecodeColors(EncodeColors(cs));
    forall i | 0 <= i < |cs|
      ensures ds[i] == cs[i]
    {
      FromLeInjective(U32ToLe(ds[i]), U32ToLe(cs[i]));
    }
  }

  lemma EncodeDecodeColors(bs: seq<byte>)
    requires |bs| % 4 == 0
    ensures EncodeColors(DecodeColors(bs)) == bs
  {
    var cs := DecodeColors(bs);
    EncodeColorsAt(cs);
    var es := EncodeColors(cs);
    forall j | 0 <= j < |bs|
      ensures es[j] == bs[j]
    {
      var i := j / 4;
      assert es[4 * i .. 4 * i + 4] == U32ToLe(cs[i]) == bs[4 * i .. 4 * i + 4];
      assert es[j] == es[4 * i .. 4 * i + 4][j - 4 * i];
    }
  }

  // ---- the snapshot ---------------------------------------------------------

  /** The snapshot message: every cell's bytes, row by row. */
  function Snapshot(g: Cells): (bs: seq<byte>)
    ensures IsGrid(g) ==> |bs| == SnapshotLength
  {
    EncodeColors(Flatten(g))
  }

  /**
   * A snapshot has exactly W * H * 4 bytes, and the four bytes at
   * 4 * (y * W + x) are the little-endian colour of cell (x, y).
   */
  lemma SnapshotLayout(g: Cells)
    requires IsGrid(g)
    ensures |Snapshot(g)| == SnapshotLength
    ensures forall y, x :: 0 <= y < Height && 0 <= x < Width ==>
      Snapshot(g)[4 * (y * Width + x) .. 4 * (y * Width + x) + 4] == U32ToLe(g[y][x])
  {
    FlattenAt(g);
    EncodeColorsAt(Flatten(g));
    forall y, x | 0 <= y < Height && 0 <= x < Width
      ensures Snapshot(g)[4 * (y * Width + x) .. 4 * (y * Width + x) + 4] == U32ToLe(g[y][x])
    {
      var i := y * Width + x;
      assert Flatten(g)[i] == g[y][x];
    }
  }

  /** One more row of a grid adds that row's bytes. */
  lemma SnapshotPrefix(g: Cells, n: nat)
    requires n < |g|
    ensures Snapshot(g[..n + 1]) == Snapshot(g[..n]) + EncodeColors(g[n])
  {
    assert g[..n + 1][..n] == g[..n];
    assert Flatten(g[..n + 1]) == Flatten(g[..n]) + g[n];
    EncodeColorsAppend(Flatten(g[..n]), g[n]);
  }

  /** Loading a flat list and taking a snapshot encodes the list in order. */
  lemma SnapshotOfUnflatten(flat: seq<u32>)
    requires |flat| == CellCount
    ensures Snapshot(Unflatten(flat)) == EncodeColors(flat)
  {
    FlattenUnflatten(flat);
  }

  /** Reading a snapshot back cell by cell reproduces the grid. */
  lemma UnflattenDecodeSnapshot(g: Cells)
    requires IsGrid(g)
    ensures |Snapshot(g)| == SnapshotLength
    ensures Unflatten(DecodeColors(Snapshot(g))) == g
  {
    FlattenAt(g);
    EncodeColorsAt(Flatten(g));
    DecodeEncodeColors(Flatten(g));
    UnflattenFlatten(g);
  }

  // ---- single-cell access ---------------------------------------------------

  /**
   * The server's checked overwrite of cell (x, y): the row is looked up first,
   * so a y out of range is reported even when x is out of range too.
   */
  function Write(g: Cells, x: u16, y: u16, c: u32): (r: Result<Cells>)
    requires IsGrid(g)
    ensures y >= Height ==> r == Err(YOutOfBounds)
    ensures y < Height && x >= Width ==> r == Err(XOutOfBounds)
    ensures r.Ok? <==> x < Width && y < Height
    ensures r.Ok? ==> IsGrid(r.value) && r.value[y][x] == c
    ensures r.Ok? ==> forall j, i :: 0 <= j < Height && 0 <= i < Width && (j != y || i != x) ==>
      r.value[j][i] == g[j][i]
  {
    if y >= Height then Err(YOutOfBounds)
    else if x >= Width then Err(XOutOfBounds)
    else
      var row: seq<u32> := g[y][x := c];
      Ok(g[y := row])
  }

  /** The broadcast's checked read of cell (x, y), row first. */
  function Get(g: Cells, x: u16, y: u16): (r: Result<u32>)
    requires IsGrid(g)
    ensures y >= Height ==> r == Err(YOutOfBounds)
    ensures y < Height && x >= Width ==> r == Err(XOutOfBounds)
    ensures x < Width && y < Height ==> r == Ok(g[y][x])
  {
    if y >= Height then Err(YOutOfBounds)
    else if x >= Width then Err(XOutOfBounds)
    else Ok(g[y][x])
  }

  /** Reading a cell after writing it gives the written colour. */
  lemma GetAfterWrite(g: Cells, x: u16, y: u16, c: u32, x': u16, y': u16)
    requires IsGrid(g) && Write(g, x, y, c).Ok?
    ensures Get(Write(g, x, y, c).value, x', y') ==
      if x' == x && y' == y then Ok(c) else Get(g, x', y')
  {
  }

  /** Writing the same colour to the same cell twice is the same as writing it once. */
  lemma WriteIdempotent(g: Cells, x: u16, y: u16, c: u32)
    requires IsGrid(g) && Write(g, x, y, c).Ok?
    ensures Write(Write(g, x, y, c).value, x, y, c) == Write(g, x, y, c)
  {
    var once := Write(g, x, y, c).value;
    assert once[y][x := c] == once[y];
    assert once[y := once[y]] == once;
  }

  /** Of two writes to one cell the second one wins. */
  lemma WriteLastWins(g: Cells, x: u16, y: u16, c1: u32, c2: u32)
    requires IsGrid(g) && Write(g, x, y, c1).Ok?
    ensures Write(Write(g, x, y, c1).value, x, y, c2) == Write(g, x, y, c2)
  {
    var first := Write(g, x, y, c1).value;
    var row: seq<u32> := g[y][x := c2];
    var firstRow: seq<u32> := first[y][x := c2];
    assert firstRow == row;
    assert first[y := row] == g[y := row];
  }

  /** Writes to two different cells can be applied in either order. */
  lemma WritesCommute(g: Cells, x1: u16, y1: u16, c1: u32, x2: u16, y2: u16, c2: u32)
    requires IsGrid(g) && Write(g, x1, y1, c1).Ok? && Write(g, x2, y2, c2).Ok?
    requires x1 != x2 || y1 != y2
    ensures Write(Write(g, x1, y1, c1).value, x2, y2, c2) == Write(Write(g, x2, y2, c2).value, x1, y1, c1)
  {
    var a := Write(Write(g, x1, y1, c1).value, x2, y2, c2).value;
    var b := Write(Write(g, x2, y2, c2).value, x1, y1, c1).value;
    forall j | 0 <= j < Height ensures a[j] == b[j] {
      assert |a[j]| == |b[j]| == Width;
      forall i | 0 <= i < Width ensures a[j][i] == b[j][i] {
      }
    }
    assert |a| == |b| == Height;
    assert a == b;
  }

  /**
   * A 1x1 `putImageData` at (x, y) on the client's 1000x1000 canvas: the cell
   * takes the colour when it lies on the canvas; anywhere else nothing is drawn.
   */
  function PaintAt(g: Cells, x: int, y: int, c: u32): (r: Cells)
    requires IsGrid(g)
    ensures IsGrid(r)
    ensures forall j, i :: 0 <= j < Height && 0 <= i < Width ==>
      r[j][i] == if j == y && i == x then c else g[j][i]
  {
    if 0 <= x < Width && 0 <= y < Height then
      var row: seq<u32> := g[y][x := c];
      g[y := row]
    else g
  }

  /** Painting a cell on the canvas agrees with the server's write of that cell. */
  lemma PaintAtIsWrite(g: Cells, x: u16, y: u16, c: u32)
    requires IsGrid(g) && x < Width && y < Height
    ensures Write(g, x, y, c) == Ok(PaintAt(g, x, y, c))
  {
  }
}
