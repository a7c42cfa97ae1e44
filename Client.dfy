/**
 * The browser side: the page's websocket message handler and the click
 * handler it installs. The host's typed arrays are taken to be little-endian,
 * and the canvas is the grid of colours it shows, each pixel's RGBA bytes
 * packed little-endian (byte 0 = R ... byte 3 = A).
 */
module Client {
  import opened Bytes
  import opened Protocol
  import Grid

  /** The colour every click sends and paints: 0xffffffff, RGBA (255, 255, 255, 255). */
  const White: u32 := 0xffff_ffff

  /** The bytes of a click's colour are the four 255s that the click handler paints. */
  lemma WhiteIsOpaqueWhite()
    ensures U32ToLe(White) == [255, 255, 255, 255]
    ensures U32FromLe([255, 255, 255, 255]) == White
  {
    FromLeInjective(U32ToLe(White), [255, 255, 255, 255]);
  }

  /**
   * `sendPixel(x, y, col)`: x and y through a Uint16Array, the colour through a
   * Uint32Array, copied into an 8-byte buffer at offsets 0 and
   * `color.byteLength` (= 4). Integer arguments wrap modulo 2^16 and 2^32.
   */
  method SendPixel(x: int, y: int, col: int) returns (tmp: seq<byte>)
    ensures tmp == EncodeDelta(Delta(x % 0x1_0000, y % 0x1_0000, col % 0x1_0000_0000))
  {
    var coords := U16ToLe(x % 0x1_0000) + U16ToLe(y % 0x1_0000);
    var color := U32ToLe(col % 0x1_0000_0000);
    var buf := new byte[|coords| + |color|](_ => 0);
    CopyInto(buf, 0, coords);
    CopyInto(buf, |color|, color);
    tmp := buf[..];
  }

  /** The server reads a click on cell (x, y) back as (x, y, White). */
  lemma ServerDecodesClick(x: u16, y: u16)
    ensures DecodeDelta(EncodeDelta(Delta(x % 0x1_0000, y % 0x1_0000, White % 0x1_0000_0000)))
      == Ok(Delta(x, y, White))
  {
    assert x % 0x1_0000 == x && y % 0x1_0000 == y && White % 0x1_0000_0000 == White;
    DecodeEncodeDelta(Delta(x, y, White));
  }

  /** What the delta branch of the message handler makes of a binary message. */
  datatype DeltaRead =
    /**
     * The handler threw before drawing anything: a typed-array view of the
     * buffer rejected its length (not a multiple of 2 or of 4), or the buffer
     * is empty and `putImageData` rejected the undefined coordinates.
     */
    | Throws
    /** Draw the 1x1 image at (x, y) after copying rgba (empty or four bytes) into it. */
    | Paint(x: u16, y: u16, rgba: seq<byte>)

  /**
   * The handler's reading of a message that is not a snapshot:
   * `new Uint16Array(buffer)` throws unless the length is even, and
   * `new Uint32Array(buffer)` unless it is a multiple of 4. x and y are
   * elements 0 and 1 of the u16 view; both are undefined for an empty buffer,
   * and `putImageData`, whose coordinates are `[EnforceRange] long`, throws
   * on them. The colour is element 1 of the u32 view, which a buffer of fewer
   * than 8 bytes does not have, so nothing is copied.
   */
  function ReadDelta(buffer: seq<byte>): (r: DeltaRead)
    ensures r.Paint? <==> |buffer| % 4 == 0 && |buffer| > 0
    ensures r.Paint? ==> |r.rgba| == if |buffer| >= DeltaLength then 4 else 0
    ensures r.Paint? && |buffer| >= DeltaLength ==>
      EncodeDelta(Delta(r.x, r.y, U32FromLe(r.rgba))) == buffer[..DeltaLength]
    ensures r.Paint? ==> U16ToLe(r.x) + U16ToLe(r.y) == buffer[..4]
  {
    if |buffer| % 2 != 0 then Throws
    else if |buffer| % 4 != 0 then Throws
    else if |buffer| == 0 then Throws
    else
      var x := U16FromLe(buffer[0..2]);
      var y := U16FromLe(buffer[2..4]);
      var rgba := if |buffer| >= 8 then buffer[4..8] else [];
      assert buffer[..4] == buffer[0..2] + buffer[2..4];
      assert |buffer| >= 8 ==> buffer[..8] == buffer[0..2] + buffer[2..4] + buffer[4..8];
      Paint(x, y, rgba)
  }

  /** The client's reading of a delta inverts the server's broadcast encoding. */
  lemma ReadDeltaOfEncodeDelta(delta: Delta)
    ensures |EncodeDelta(delta)| != SnapshotLength
    ensures ReadDelta(EncodeDelta(delta)) == Paint(delta.x, delta.y, U32ToLe(delta.color))
  {
    var bs := EncodeDelta(delta);
    var r := ReadDelta(bs);
    assert bs[..DeltaLength] == bs;
    DecodeEncodeDelta(Delta(r.x, r.y, U32FromLe(r.rgba)));
    DecodeEncodeDelta(delta);
  }

  /**
   * On every message whose length is a multiple of 4 and at least 8, the
   * client reads the same coordinates and colour as the server's decoder.
   */
  lemma ReadDeltaAgreesWithDecodeDelta(buffer: seq<byte>)
    requires |buffer| % 4 == 0 && |buffer| >= DeltaLength
    ensures DecodeDelta(buffer).Ok?
    ensures var d := DecodeDelta(buffer).value;
      ReadDelta(buffer) == Paint(d.x, d.y, U32ToLe(d.color))
  {
    var r := ReadDelta(buffer);
    var d := DecodeDelta(buffer).value;
    DecodeEncodeDelta(d);
    DecodeEncodeDelta(Delta(r.x, r.y, U32FromLe(r.rgba)));
  }

  /**
   * A client whose canvas equals the server's grid still equals it after the
   * server writes an in-bounds delta and the client draws the broadcast of it.
   */
  lemma DrawingBroadcastFollowsWrite(g: Grid.Cells, delta: Delta, image: seq<byte>)
    requires Grid.IsGrid(g) && |image| == 4
    requires delta.x < Width && delta.y < Height
    ensures var read := ReadDelta(EncodeDelta(delta));
      && read.Paint? && |read.rgba| == 4
      && Grid.Write(g, delta.x, delta.y, delta.color)
        == Ok(Grid.PaintAt(g, read.x, read.y, U32FromLe(read.rgba + image[|read.rgba|..])))
  {
    ReadDeltaOfEncodeDelta(delta);
    var read := ReadDelta(EncodeDelta(delta));
    assert read.rgba + image[|read.rgba|..] == U32ToLe(delta.color);
    FromLeInjective(U32ToLe(U32FromLe(read.rgba)), U32ToLe(delta.color));
  }

  /** One page's connection: what it has drawn, what it has sent, and its click handler. */
  class Page {
    /** `d`: the four RGBA bytes of the 1x1 ImageData `id`. */
    var d: array<byte>
    /** The 1000x1000 canvas as drawn. */
    var screen: Grid.Cells
    /** Whether `canvas.onclick` has been installed. */
    var clickHandler: bool
    /** The messages handed to `socket.send`, oldest first. */
    var sent: seq<seq<byte>>

    ghost predicate Valid()
      reads this
    {
      d.Length == 4 && Grid.IsGrid(screen)
    }

    /** A blank canvas and image, nothing sent, no click handler. */
    constructor ()
      ensures Valid() && fresh(d)
      ensures d[..] == [0, 0, 0, 0] && screen == Grid.Blank() && !clickHandler && sent == []
    {
      d := new byte[4](_ => 0);
      screen := Grid.Blank();
      clickHandler := false;
      sent := [];
    }

    /**
     * The "message" listener. Text is ignored. A binary message of exactly
     * 1000 * 1000 * 4 bytes redraws the whole canvas and installs the click
     * handler; any other binary message is read as a delta and drawn.
     */
    method OnMessage(m: Frame)
      requires Valid()
      modifies this, d
      ensures Valid() && d == old(d) && sent == old(sent)
      ensures m.Text? ==>
        screen == old(screen) && d[..] == old(d[..]) && clickHandler == old(clickHandler)
      ensures m.Binary? && |m.data| == SnapshotLength ==>
        && screen == Grid.Unflatten(Grid.DecodeColors(m.data))
        && clickHandler && d[..] == old(d[..])
      ensures m.Binary? && |m.data| != SnapshotLength ==>
        && clickHandler == old(clickHandler)
        && match ReadDelta(m.data)
          case Throws => screen == old(screen) && d[..] == old(d[..])
          case Paint(x, y, rgba) =>
            && d[..] == rgba + old(d[|rgba|..])
            && screen == Grid.PaintAt(old(screen), x, y, U32FromLe(d[..]))
    {
      if m.Text? {
        return;
      }
      var buffer := m.data;
      if |buffer| != SnapshotLength {
        var read := ReadDelta(buffer);
        if read.Throws? {
          return;
        }
        CopyInto(d, 0, read.rgba);
        screen := Grid.PaintAt(screen, read.x, read.y, U32FromLe(d[..]));
        return;
      }
      screen := Grid.Unflatten(Grid.DecodeColors(buffer));
      clickHandler := true;
    }

    /**
     * A click on canvas cell (x, y). Until a snapshot has arrived there is no
     * handler and nothing happens. Afterwards the click sends (x, y, White)
     * and paints the cell white at once, without waiting for the server.
     */
    method OnClick(x: int, y: int)
      requires Valid()
      modifies this, d
      ensures Valid() && d == old(d) && clickHandler == old(clickHandler)
      ensures !old(clickHandler) ==>
        screen == old(screen) && sent == old(sent) && d[..] == old(d[..])
      ensures old(clickHandler) ==>
        && sent == old(sent) + [EncodeDelta(Delta(x % 0x1_0000, y % 0x1_0000, White))]
        && d[..] == U32ToLe(White)
        && screen == Grid.PaintAt(old(screen), x, y, White)
    {
      if !clickHandler {
        return;
      }
      var packet := SendPixel(x, y, White);
      assert White % 0x1_0000_0000 == White;
      sent := sent + [packet];
      d[0], d[1], d[2], d[3] := 255, 255, 255, 255;
      assert d[..] == [255, 255, 255, 255];
      WhiteIsOpaqueWhite();
      var painted := U32FromLe(d[..]);
      screen := Grid.PaintAt(screen, x, y, painted);
    }
  }
}
