/**
 * The server side: the authoritative canvas (a 2-D array of packed colours
 * plus the index of the last written cell), its startup load from the store,
 * and the per-connection steps of the websocket session: the snapshot sent on
 * connect, the handling of an incoming delta, and the broadcast buffer built
 * when another session has written a cell.
 *
 * The key-value store is a map from flat index to colour.
 */
module Server {
  import opened Bytes
  import opened Protocol
  import Grid

  class Canvas {
    /** `pixels`: CANVAS_HEIGHT rows of CANVAS_WIDTH colours. */
    var pixels: array2<u32>
    /** `inc`: the flat index of the most recently written cell. */
    var inc: u64
    /** The grid's contents as a value. */
    ghost var cells: Grid.Cells

    ghost predicate Valid()
      reads this, pixels
    {
      && pixels.Length0 == Height && pixels.Length1 == Width
      && Grid.IsGrid(cells)
      && inc < CellCount
      && forall y, x :: 0 <= y < Height && 0 <= x < Width ==> cells[y][x] == pixels[y, x]
    }

    /** The store agrees with the grid: key y * W + x holds the colour of cell (x, y). */
    ghost predicate Persisted(db: map<u64, u32>)
      reads this
    {
      && Grid.IsGrid(cells)
      && forall i: u64 :: i < CellCount ==> i in db && db[i] == cells[i / Width][i % Width]
    }

    /** An all-zero grid and `inc` = 0. */
    constructor ()
      ensures Valid() && fresh(pixels)
      ensures cells == Grid.Blank() && inc == 0
    {
      pixels := new u32[Height, Width]((_, _) => 0);
      inc := 0;
      cells := Grid.Blank();
    }

    /** Puts colour i of a flat list into row i / W, column i % W. */
    method Load(colors: seq<u32>)
      requires Valid() && |colors| == CellCount
      modifies this, pixels
      ensures Valid() && pixels == old(pixels) && inc == old(inc)
      ensures cells == Grid.Unflatten(colors)
    {
      var i := 0;
      while i < |colors|
        invariant 0 <= i <= |colors|
        invariant Valid() && pixels == old(pixels) && inc == old(inc)
        invariant forall y, x :: 0 <= y < Height && 0 <= x < Width ==>
          cells[y][x] == if y * Width + x < i then colors[y * Width + x] else old(cells)[y][x]
      {
        var row, col := i / Width, i % Width;
        pixels[row, col] := colors[i];
        var updated: seq<u32> := cells[row][col := colors[i]];
        cells := cells[row := updated];
        i := i + 1;
      }
      var g := Grid.Unflatten(colors);
      forall y | 0 <= y < Height
        ensures cells[y] == g[y]
      {
        assert |cells[y]| == |g[y]| == Width;
      }
    }

    /** The snapshot message: every cell's little-endian bytes, row by row. */
    method Snapshot() returns (bytes: seq<byte>)
      requires Valid()
      ensures bytes == Grid.Snapshot(cells)
    {
      bytes := [];
      var y := 0;
      while y < Height
        invariant 0 <= y <= Height
        invariant bytes == Grid.Snapshot(cells[..y])
      {
        var x := 0;
        while x < Width
          invariant 0 <= x <= Width
          invariant bytes == Grid.Snapshot(cells[..y]) + Grid.EncodeColors(cells[y][..x])
        {
          Grid.EncodeColorsPrefix(cells[y], x);
          bytes := bytes + U32ToLe(pixels[y, x]);
          x := x + 1;
        }
        assert cells[y][..x] == cells[y];
        Grid.SnapshotPrefix(cells, y);
        y := y + 1;
      }
      assert cells[..y] == cells;
    }

    /**
     * The checked single-cell write of an incoming delta. A row or column
     * outside the grid is an error that changes nothing; otherwise exactly
     * cell (x, y) takes the colour and `inc` records its flat index.
     */
    method WritePixel(x: u16, y: u16, color: u32) returns (r: Result<()>)
      requires Valid()
      modifies this, pixels
      ensures Valid() && pixels == old(pixels)
      ensures match Grid.Write(old(cells), x, y, color)
        case Ok(g) => r == Ok(()) && cells == g && inc == FlatIndex(x, y)
        case Err(e) => r == Err(e) && cells == old(cells) && inc == old(inc) && unchanged(pixels)
    {
      if y as int >= pixels.Length0 {
        return Err(YOutOfBounds);
      }
      if x as int >= pixels.Length1 {
        return Err(XOutOfBounds);
      }
      pixels[y, x] := color;
      var updated: seq<u32> := cells[y][x := color];
      cells := cells[y := updated];
      inc := FlatIndex(x, y);
      r := Ok(());
    }

    /**
     * The message sent when `inc` has changed: the coordinates recovered from
     * `inc`, and the colour the grid holds there now. `inc` always names a
     * cell, so the coordinate conversions and the checked read of the source
     * never fail here: their error branches are dead code.
     */
    method Broadcast() returns (r: Result<Frame>)
      requires Valid()
      ensures r.Ok? && r.value.Binary? && |r.value.data| == DeltaLength
      ensures DecodeDelta(r.value.data).Ok?
      ensures var d := DecodeDelta(r.value.data).value;
        && d.x < Width && d.y < Height && FlatIndex(d.x, d.y) == inc
        && Grid.Get(cells, d.x, d.y) == Ok(d.color)
    {
      FlatIndexOfIndexToCoords(inc);
      var (x, y) := IndexToCoords(inc).value;
      var color := pixels[y, x];
      var buf := new byte[DeltaLength](_ => 0);
      CopyInto(buf, 0, U16ToLe(x));
      CopyInto(buf, 2, U16ToLe(y));
      CopyInto(buf, 4, U32ToLe(color));
      assert buf[..] == EncodeDelta(Delta(x, y, color));
      DecodeEncodeDelta(Delta(x, y, color));
      r := Ok(Binary(buf[..]));
    }
  }

  /**
   * Server startup: a blank canvas, the key list 0 .. W*H-1 fetched from the
   * store in one request, and the answer loaded into the grid.
   */
  method Start(db: map<u64, u32>) returns (canvas: Canvas)
    requires forall i: u64 :: i < CellCount ==> i in db
    ensures fresh(canvas) && fresh(canvas.pixels) && canvas.Valid()
    ensures canvas.inc == 0
    ensures canvas.Persisted(db)
  {
    canvas := new Canvas();
    var indices := StartupIndices();
    var colors := seq(|indices|, (k: int) requires 0 <= k < |indices| => db[indices[k]]);
    canvas.Load(colors);
    forall i: u64 | i < CellCount
      ensures db[i] == canvas.cells[i / Width][i % Width]
    {
      var y, x := i / Width, i % Width;
      assert y * Width + x == i;
    }
  }

  /**
   * One message received on a session: decode the delta, write it, record
   * the cell in the store, and answer "OK". A decoding or bounds error ends
   * the session and leaves the grid, `inc` and the store as they were.
   */
  method HandleMessage(canvas: Canvas, bytes: seq<byte>, db: map<u64, u32>)
    returns (r: Result<Frame>, db': map<u64, u32>)
    requires canvas.Valid()
    modifies canvas, canvas.pixels
    ensures canvas.Valid() && canvas.pixels == old(canvas.pixels)
    ensures match DecodeDelta(bytes)
      case Err(e) =>
        r == Err(e) && canvas.cells == old(canvas.cells) && canvas.inc == old(canvas.inc) && db' == db
      case Ok(d) =>
        match Grid.Write(old(canvas.cells), d.x, d.y, d.color)
        case Err(e) =>
          r == Err(e) && canvas.cells == old(canvas.cells) && canvas.inc == old(canvas.inc) && db' == db
        case Ok(g) =>
          && r == Ok(Text("OK")) && canvas.cells == g && canvas.inc == FlatIndex(d.x, d.y)
          && db' == db[FlatIndex(d.x, d.y) := d.color]
    ensures old(canvas.Persisted(db)) ==> canvas.Persisted(db')
  {
    var decoded := DecodeDelta(bytes);
    if decoded.Err? {
      return Err(decoded.error), db;
    }
    var d := decoded.value;
    var written := canvas.WritePixel(d.x, d.y, d.color);
    if written.Err? {
      return Err(written.error), db;
    }
    var index := FlatIndex(d.x, d.y);
    db' := db[index := d.color];
    r := Ok(Text("OK"));
    if old(canvas.Persisted(db)) {
      forall i: u64 | i < CellCount
        ensures i in db' && db'[i] == canvas.cells[i / Width][i % Width]
      {
        IndexToCoordsOfFlatIndex(d.x, d.y);
        FlatIndexOfIndexToCoords(i);
      }
    }
  }
}
