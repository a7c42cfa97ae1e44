# Shared pixel canvas: grid state and wire format

This project models the core of a small shared-canvas ("r/place"-style)
application. A Rust server (`place-backend`) holds one authoritative
1000×1000 grid of `u32` colours. A browser page (`place-frontend`) draws
that grid and lets a user paint single pixels. The two talk over a websocket
using two binary message shapes, told apart by length alone:

- a **snapshot**: every cell's colour as 4 little-endian bytes, row by row,
  4,000,000 bytes in all;
- a **delta**: 8 bytes, x as a little-endian `u16`, y as a little-endian
  `u16`, then the colour as a little-endian `u32`.

Modules:

- `Bytes`: the fixed-width unsigned types and a general little-endian codec
  (`ToLe`/`FromLe`, proved inverse in both directions). It also has
  `CopyInto`, which models Rust's `copy_from_slice` and JavaScript's
  `TypedArray.set`.
- `Protocol`: the constants, the delta encoder, the server's delta decoder,
  the flat-index codec `y * W + x`, and the server's startup key list.
- `Grid`: the canvas as a value. It covers row-major flattening and loading,
  the snapshot bytes, the checked single-cell write and read, and the
  client's clipped 1×1 paint.
- `Server`: the class `Canvas` over an `array2<u32>` and the `inc` index.
  It has startup, load, snapshot, checked write and broadcast buffer, plus the
  session's handling of one incoming message. The key-value store is a
  `map<u64, u32>` that `Server.HandleMessage` updates. The invariant
  `Canvas.Persisted` states that the store agrees with the grid.
- `Client`: the page's `sendPixel`, the message listener's length dispatch
  and typed-array reading of a delta, and the click handler. The click
  handler is installed only by a snapshot and paints white optimistically.
  The class `Page` holds the 1×1 `ImageData` bytes (`d`, an array), the
  drawn canvas, whether `onclick` is installed, and the list of sent messages.

Behaviour of the code worth knowing:

- The server's decoder accepts any message of 8 or more bytes and ignores
  the rest. The client treats every binary message that is not exactly
  4,000,000 bytes as a delta. Neither checks for exactly 8 bytes.
- A bad delta (too short, or out of bounds) ends the server session with an
  error.
- The client draws deltas that arrive before the first snapshot.
- Every other session announces a change it notices in `inc`. The session
  that wrote the cell does not: its `select!` loop starts a fresh wait on
  each pass, and that wait reads `inc` only after the session's own store to
  it. This model leaves broadcasting by polling out (see below).
- `inc` always names a cell, so the broadcast's coordinate conversions and
  checked read never fail: their error branches are dead code.
- An empty binary message makes the client's delta branch throw: both
  coordinates are undefined, which `putImageData` rejects, so nothing is
  drawn.

## Model

| member | source | states |
|---|---|---|
| `Bytes.ToLe` | place-backend/src/main.rs:119 | the n-byte little-endian encoding of v < 256^n has n bytes, the first being v modulo 256 |
| `Bytes.U16ToLe` | place-backend/src/main.rs:198-199 | `to_le_bytes` of a `u16` is 2 bytes whose little-endian value is the number |
| `Bytes.U32ToLe` | place-backend/src/main.rs:200 | `to_le_bytes` of a `u32` is 4 bytes whose little-endian value is the number |
| `Bytes.U16FromLe` | place-backend/src/main.rs:131-142 | `u16::from_le_bytes` of 2 bytes is the number whose encoding is those bytes |
| `Bytes.U32FromLe` | place-backend/src/main.rs:143-148 | `u32::from_le_bytes` of 4 bytes is the number whose encoding is those bytes |
| `Bytes.FromLeToLe` | place-backend/src/main.rs:119 | decoding the n-byte little-endian encoding of any v < 256^n gives v back |
| `Bytes.ToLeFromLe` | place-backend/src/main.rs:131-148 | re-encoding the value of any byte string gives the same bytes, so `from_le_bytes` loses nothing |
| `Bytes.FromLe` | place-backend/src/main.rs:131-148 | the little-endian value of n bytes is below 256^n, so 2 bytes fit a `u16` and 4 a `u32` |
| `Bytes.CopyInto` | place-backend/src/main.rs:197-200 | after the copy the buffer is its old prefix, then the source bytes, then its old suffix; nothing else changes |
| `Protocol.EncodeDelta` | place-backend/src/main.rs:197-200 | the delta is 8 bytes: bytes 0..2 read back as x, bytes 2..4 as y, bytes 4..8 as the colour |
| `Protocol.DecodeDelta` | place-backend/src/main.rs:131-148 | decoding fails exactly when fewer than 8 bytes arrive: "x not provided" below 2, "y not provided" below 4, "color not provided" below 8. A success re-encodes to the first 8 bytes |
| `Protocol.DecodeEncodeDelta` | place-backend/src/main.rs:131-148 | the server decodes every encoded delta to that same delta |
| `Protocol.EncodeDecodeDelta` | place-backend/src/main.rs:131-148 | every 8-byte message decodes, and it is the encoding of what it decodes to |
| `Protocol.DecodeIgnoresTrailing` | place-backend/src/main.rs:131-148 | bytes after the eighth never change the decoded delta |
| `Protocol.FlatIndex` | place-backend/src/main.rs:166 | an in-bounds cell's index is below W·H and the index is x modulo W |
| `Protocol.IndexToCoords` | place-backend/src/main.rs:183-185 | recovering the coordinates fails exactly when index / H does not fit a `u16`; the recovered x is always below W |
| `Protocol.IndexToCoordsOfFlatIndex` | place-backend/src/main.rs:166-185 | for every in-bounds (x, y), `index % W` and `index / H` of `y*W + x` give (x, y) back; this holds because W = H |
| `Protocol.FlatIndexOfIndexToCoords` | place-backend/src/main.rs:183-185 | every index below W·H comes from one in-bounds pair, and `y*W + x` of that pair is the index |
| `Protocol.StartupIndices` | place-backend/src/main.rs:34-47 | the startup key list, built row by row by the helpers `Protocol.RowIndices` and `Protocol.IndicesOfRows` as the iterator chain builds it, is exactly 0, 1, …, W·H − 1 in row-major order |
| `Grid.Blank` | place-backend/src/main.rs:31 | the initial grid has H rows of W cells, all 0 |
| `Grid.Flatten` | place-backend/src/main.rs:116-117 | flattening rows of width W gives W cells per row |
| `Grid.FlattenAt` | place-backend/src/main.rs:117 | flattening rows of width W puts cell (x, y) at position y·W + x |
| `Grid.Unflatten` | place-backend/src/main.rs:70-74 | loading a flat list of W·H colours puts element y·W + x at row y, column x |
| `Grid.FlattenUnflatten` | place-backend/src/main.rs:70-74 | flattening the loaded grid gives the loaded list back |
| `Grid.UnflattenFlatten` | place-backend/src/main.rs:112-121 | loading the flattened grid gives the grid back |
| `Grid.EncodeColors` | place-backend/src/main.rs:118-120 | encoding colours gives 4 bytes per colour |
| `Grid.EncodeColorsAt` | place-backend/src/main.rs:119-120 | the colour bytes are 4 per colour, and bytes [4i, 4i+4) are the little-endian encoding of colour i |
| `Grid.EncodeColorsAppend` | place-backend/src/main.rs:116-121 | encoding a concatenation concatenates the encodings |
| `Grid.DecodeColors` | place-frontend/src/pages/index.tsx:49-53 | reading a buffer 4 bytes at a time gives |b|/4 colours, colour i having bytes [4i, 4i+4) |
| `Grid.DecodeEncodeColors` | place-frontend/src/pages/index.tsx:49-53 | reading encoded colours back gives the same colours |
| `Grid.EncodeDecodeColors` | place-frontend/src/pages/index.tsx:49-53 | every buffer whose length is a multiple of 4 is the encoding of the colours read from it |
| `Grid.Snapshot` | place-backend/src/main.rs:112-121 | the snapshot of a grid is exactly 4,000,000 bytes |
| `Grid.SnapshotLayout` | place-backend/src/main.rs:112-121 | the snapshot of a grid is exactly 4,000,000 bytes, and bytes [4(y·W+x), +4) encode cell (x, y) little-endian |
| `Grid.SnapshotOfUnflatten` | place-backend/src/main.rs:70-121 | the snapshot taken after loading a flat list is that list's colours encoded in order |
| `Grid.UnflattenDecodeSnapshot` | place-frontend/src/pages/index.tsx:49-53 | a client drawing a snapshot of length 4,000,000 reproduces the server's grid cell for cell |
| `Grid.Write` | place-backend/src/main.rs:150-165 | y ≥ H fails with "y index out of bounds", and otherwise x ≥ W with "x index out of bounds". A success sets cell (x, y) to the colour and keeps every other cell |
| `Grid.Get` | place-backend/src/main.rs:186-196 | the checked read fails for y ≥ H, then for x ≥ W, and otherwise returns cell (x, y) |
| `Grid.GetAfterWrite` | place-backend/src/main.rs:155-164 | after a write, reading that cell gives the new colour and reading any other cell gives what it gave before |
| `Grid.WriteIdempotent` | place-backend/src/main.rs:155-164 | writing the same (x, y, colour) twice leaves the same grid as writing it once |
| `Grid.WriteLastWins` | place-backend/src/main.rs:155-164 | after two writes to one cell, the grid is as if only the second write had happened |
| `Grid.WritesCommute` | place-backend/src/main.rs:155-164 | writes to two different cells give the same grid in either order |
| `Grid.PaintAt` | place-frontend/src/pages/index.tsx:46 | a 1×1 draw sets the cell when (x, y) lies on the canvas, clips otherwise, and leaves every other cell alone |
| `Grid.PaintAtIsWrite` | place-frontend/src/pages/index.tsx:45-46 | for an in-bounds cell, the client's draw and the server's write give the same grid |
| `Server.Canvas.constructor` | place-backend/src/main.rs:30-33 | a new canvas is the all-zero grid with `inc` = 0 |
| `Server.Canvas.Load` | place-backend/src/main.rs:70-74 | after the load loop, cell (x, y) holds element y·W + x of the list; the array and `inc` are the same as before |
| `Server.Canvas.Snapshot` | place-backend/src/main.rs:112-121 | the bytes produced from the array are the snapshot of the grid, so `Grid.SnapshotLayout` describes them |
| `Server.Canvas.WritePixel` | place-backend/src/main.rs:150-169 | out of bounds: the same error as `Grid.Write`, with grid and `inc` untouched. In bounds: the grid becomes `Grid.Write`'s result and `inc` = y·W + x |
| `Server.Canvas.Broadcast` | place-backend/src/main.rs:183-201 | the broadcast never fails, because `inc` always names a cell. It is an 8-byte binary message that decodes to the cell `inc` names, with the colour the checked read `Grid.Get` gives for that cell |
| `Server.Start` | place-backend/src/main.rs:30-74 | after startup, `inc` = 0 and every cell (x, y) holds the stored colour under key y·W + x |
| `Server.HandleMessage` | place-backend/src/main.rs:128-179 | a decode or bounds error ends the session, and grid, `inc` and store are unchanged. Otherwise the cell is written, `inc` and the store key y·W + x are set, and "OK" is answered. A store that agreed with the grid still agrees |
| `Client.WhiteIsOpaqueWhite` | place-frontend/src/pages/index.tsx:56-61 | the colour 0xffffffff that a click sends is the RGBA (255, 255, 255, 255) that it paints |
| `Client.SendPixel` | place-frontend/src/pages/index.tsx:15-22 | the buffer is the 8-byte delta layout with x and y taken modulo 2^16 and the colour modulo 2^32 |
| `Client.ServerDecodesClick` | place-frontend/src/pages/index.tsx:15-22 | the server decodes the buffer sent for a click on (x, y) as (x, y, 0xffffffff) |
| `Client.ReadDelta` | place-frontend/src/pages/index.tsx:39-46 | a non-snapshot buffer throws, drawing nothing, when its length is not a multiple of 4 and when it is empty (its coordinates are then undefined). Otherwise x and y re-encode to the first 4 bytes. At 8 bytes or more the colour is four bytes, and coordinates and colour re-encode to the first 8 bytes; a 4-byte buffer gives no colour bytes |
| `Client.ReadDeltaOfEncodeDelta` | place-frontend/src/pages/index.tsx:39-46 | a delta is never snapshot length, and the client reads the server's encoding of (x, y, c) as a draw of c's bytes at (x, y) |
| `Client.ReadDeltaAgreesWithDecodeDelta` | place-frontend/src/pages/index.tsx:40-44 | on every length that is a multiple of 4 and at least 8, the client reads the same x, y and colour as the server's decoder |
| `Client.DrawingBroadcastFollowsWrite` | place-frontend/src/pages/index.tsx:39-47 | drawing the broadcast of an in-bounds write changes a client canvas exactly as the server's write changed the grid |
| `Client.Page.constructor` | place-frontend/src/pages/index.tsx:11-14 | a new page has a zero 1×1 image, a blank canvas, no click handler and nothing sent |
| `Client.Page.OnMessage` | place-frontend/src/pages/index.tsx:35-64 | text changes nothing. A 4,000,000-byte binary message redraws the canvas from the buffer and installs the click handler. Any other binary message either throws with no change, or copies its colour bytes into `d` and draws `d` at (x, y) |
| `Client.Page.OnClick` | place-frontend/src/pages/index.tsx:54-63 | before a snapshot, a click does nothing. After one, it sends exactly the delta (x, y, 0xffffffff), sets `d` to four 255s and paints cell (x, y) white |

## Left out

- Networking: the router, the websocket upgrade, the server bind, socket send
  and receive, and the `select!` loop itself are I/O. Their failures are
  also left out: a receive error or a failed "OK" reply ends the session
  with `Ok(())`, the snapshot send unwraps and so panics the session task,
  and a failed broadcast send ends the session with an error.
- The store connection: its `get` and `set` are calls into a database client.
  The store is a map. A failing `set` (which would end the session) is not
  modelled.
- Server.Start: requires every key below W·H to be in the store, because the
  code unwraps the batch read and stops the process when a key is missing.
- Locking: a failed `try_read`/`try_write`, which ends the session with
  "unable to lock …", is a concurrency outcome. It is not modelled.
- Broadcast by polling: `wait_pixel_updated` and the `AtomicU64` are
  inter-task concurrency, so the model has no fan-out. `Server.Canvas.Broadcast`
  models only the message built once a change is noticed. The poll compares
  indices, so a write to the cell that `inc` already names is not announced,
  and writes landing within one 10 ms poll are announced as the last of them
  only. The model does not capture either.
- The coordinate conversions (main.rs:184-185) and the checked read
  (main.rs:191-195) of the broadcast: `Canvas.Valid` keeps `inc` below W·H,
  so their error branches cannot be taken and `Server.Canvas.Broadcast` has
  none. Its lock failure is covered by the Locking line above.
- Client cursor mapping: `getCursorPosition` is floating-point scaling of
  the element's bounding box.
- Client.Page.OnClick: takes integer cell coordinates. The truncation of
  fractional coordinates by `Uint16Array` and by the canvas API is left out.
- Client.SendPixel: models integer arguments only; float-to-integer
  conversion is left out.
- Rendering: `putImageData` and `ImageData` are a browser API. They are
  modelled only as their effect on a grid of colours, and the snapshot draw
  is a direct replacement of that grid. A coordinate beyond the 32-bit range
  makes `putImageData` throw a TypeError; the model clips it instead, which
  leaves the same canvas.
- The awaited `blob.arrayBuffer()`: delivery order between messages is
  asynchronous. The model handles one message at a time, in order.
- Host byte order: typed arrays are assumed to be little-endian.
- `place-frontend/src/pages/_app.tsx` is not part of this model. It is page
  layout and session wiring.
- Debug and log output.
