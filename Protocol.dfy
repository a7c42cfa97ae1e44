/**
 * The canvas wire protocol shared by the server and the browser client:
 * the grid constants, the 8-byte single-pixel delta, the server's delta
 * decoder, and the flat index that the server uses to announce which cell
 * changed.
 */
module Protocol {
  import opened Bytes

  /** CANVAS_WIDTH and CANVAS_HEIGHT; the client hard-codes the same 1000. */
  const Width: nat := 1000
  const Height: nat := 1000
  const CellCount: nat := Width * Height

  /** A full snapshot is every cell's four bytes: 4,000,000 bytes. */
  const SnapshotLength: nat := CellCount * 4
  /** A delta is x (2 bytes), y (2 bytes), colour (4 bytes). */
  const DeltaLength: nat := 8

  /** One pixel edit as it travels on the wire. */
  datatype Delta = Delta(x: u16, y: u16, color: u32)

  /** The session-ending errors of the server's message loop. */
  datatype Error =
    | XNotProvided       // "x not provided"
    | YNotProvided       // "y not provided"
    | ColorNotProvided   // "color not provided"
    | YOutOfBounds       // "y index out of bounds"
    | XOutOfBounds       // "x index out of bounds"
    | CoordinateOverflow // `u16::try_from` of a coordinate failed

  datatype Result<T> = Ok(value: T) | Err(error: Error)

  /** A websocket message: binary data or text. */
  datatype Frame = Binary(data: seq<byte>) | Text(text: string)

  /**
   * The 8-byte delta layout: x and y as little-endian u16, then the colour as
   * a little-endian u32. The server's broadcast buffer and the client's
   * `sendPixel` both produce it.
   */
  function EncodeDelta(d: Delta): (bs: seq<byte>)
    ensures |bs| == DeltaLength
    ensures FromLe(bs[0..2]) == d.x && FromLe(bs[2..4]) == d.y && FromLe(bs[4..8]) == d.color
  {
    var bs := U16ToLe(d.x) + U16ToLe(d.y) + U32ToLe(d.color);
    assert bs[0..2] == U16ToLe(d.x) && bs[2..4] == U16ToLe(d.y) && bs[4..8] == U32ToLe(d.color);
    bs
  }

  /**
   * The server's reading of an incoming message: x from bytes 0..2, y from
   * bytes 2..4, the colour from bytes 4..8, each failing when the message is
   * too short for it. Bytes after the eighth are never looked at.
   */
  function DecodeDelta(bytes: seq<byte>): (r: Result<Delta>)
    ensures r.Err? <==> |bytes| < DeltaLength
    ensures |bytes| < 2 ==> r == Err(XNotProvided)
    ensures 2 <= |bytes| < 4 ==> r == Err(YNotProvided)
    ensures 4 <= |bytes| < 8 ==> r == Err(ColorNotProvided)
    ensures r.Ok? ==> EncodeDelta(r.value) == bytes[..DeltaLength]
  {
    if |bytes| < 2 then Err(XNotProvided)
    else if |bytes| < 4 then Err(YNotProvided)
    else if |bytes| < 8 then Err(ColorNotProvided)
    else
      var d := Delta(U16FromLe(bytes[0..2]), U16FromLe(bytes[2..4]), U32FromLe(bytes[4..8]));
      assert bytes[..8] == bytes[0..2] + bytes[2..4] + bytes[4..8];
      Ok(d)
  }

  /** The server decodes every encoded delta to the delta itself. */
  lemma DecodeEncodeDelta(d: Delta)
    ensures DecodeDelta(EncodeDelta(d)) == Ok(d)
  {
    var bs := EncodeDelta(d);
    var r := DecodeDelta(bs);
    assert bs[..DeltaLength] == bs;
    assert EncodeDelta(r.value) == bs;
    FromLeInjective(U16ToLe(r.value.x), U16ToLe(d.x));
  }

  /** Every 8-byte message is the encoding of exactly the delta it decodes to. */
  lemma EncodeDecodeDelta(bytes: seq<byte>)
    requires |bytes| == DeltaLength
    ensures DecodeDelta(bytes).Ok? && EncodeDelta(DecodeDelta(bytes).value) == bytes
  {
    assert bytes[..DeltaLength] == bytes;
  }

  /** Decoding depends on the first eight bytes only; trailing bytes are ignored. */
  lemma DecodeIgnoresTrailing(bytes: seq<byte>, extra: seq<byte>)
    requires |bytes| >= DeltaLength
    ensures DecodeDelta(bytes + extra) == DecodeDelta(bytes)
  {
    var a, b := DecodeDelta(bytes + extra), DecodeDelta(bytes);
    assert (bytes + extra)[..DeltaLength] == bytes[..DeltaLength];
    DecodeEncodeDelta(a.value);
    DecodeEncodeDelta(b.value);
  }

  /** The flat index the server stores after a write: y * W + x, as a u64. */
  function FlatIndex(x: u16, y: u16): (i: u64)
    ensures x < Width && y < Height ==> i < CellCount
    ensures i % Width == x % Width
  {
    y * Width + x
  }

  /**
   * The broadcast's recovery of the coordinates from the stored index:
   * x is `index % CANVAS_WIDTH`, y is `index / CANVAS_HEIGHT`, each converted
   * with `u16::try_from`. The conversion of x cannot fail (it is below 1000);
   * that of y fails once index / 1000 reaches 65536.
   */
  function IndexToCoords(index: u64): (r: Result<(u16, u16)>)
    ensures r.Ok? <==> index < 0x1_0000 * Height
    ensures r.Ok? ==> r.value.0 < Width
  {
    if index / Height >= 0x1_0000 then Err(CoordinateOverflow)
    else Ok((index % Width, index / Height))
  }

  /**
   * For every cell, the index the write computes decodes back to the same
   * coordinates. The division by the height is right only because the grid
   * is square.
   */
  lemma IndexToCoordsOfFlatIndex(x: u16, y: u16)
    requires x < Width && y < Height
    ensures IndexToCoords(FlatIndex(x, y)) == Ok((x, y))
  {
  }

  /** Every index of a cell comes from exactly one in-bounds coordinate pair. */
  lemma FlatIndexOfIndexToCoords(index: u64)
    requires index < CellCount
    ensures IndexToCoords(index).Ok?
    ensures var (x, y) := IndexToCoords(index).value;
      x < Width && y < Height && FlatIndex(x, y) == index
  {
  }

  /** The indices of row y, left to right. */
  function RowIndices(y: nat): (r: seq<u64>)
    requires y < Height
    ensures |r| == Width
  {
    seq(Width, (x: int) requires 0 <= x < Width => (y * Width + x) as u64)
  }

  /** The indices of the first n rows, row by row. */
  function IndicesOfRows(n: nat): (r: seq<u64>)
    requires n <= Height
  {
    if n == 0 then [] else IndicesOfRows(n - 1) + RowIndices(n - 1)
  }

  lemma {:induction false} IndicesOfRowsAreRange(n: nat)
    requires n <= Height
    ensures |IndicesOfRows(n)| == n * Width
    ensures forall i :: 0 <= i < n * Width ==> IndicesOfRows(n)[i] == i
  {
    if n > 0 {
      IndicesOfRowsAreRange(n - 1);
    }
  }

  /**
   * The keys the server asks the store for at startup, in the order it asks:
   * exactly 0, 1, ..., W*H - 1.
   */
  function StartupIndices(): (r: seq<u64>)
    ensures |r| == CellCount
    ensures forall i :: 0 <= i < CellCount ==> r[i] == i
  {
    IndicesOfRowsAreRange(Height);
    IndicesOfRows(Height)
  }
}
