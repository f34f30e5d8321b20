/** What the archived backends draw for cell (frame, row): destination pixel
    (x, y) of the 124 x 93 frame shows sheet pixel
    (frame * 124 + x, row * 93 + y) when that column exists and its alpha
    exceeds 10, and stays cleared otherwise. */
module Compositor {
  import opened Sheet
  import opened Wrappers

  /** The first `rows` rows of cell `row` exist in the image whenever the
      cell's first column does (only then does `get_pixel` run). */
  ghost predicate RowsAvailable(img: Image, frame: nat, row: nat, rows: nat)
  {
    rows == 0 || frame * FrameW >= img.width || row * FrameH + rows <= img.height
  }

  /** The sheet pixel copied to destination (x, y), if any. */
  function CellPixel(img: Image, frame: nat, row: nat, x: nat, y: nat): (p: Option<Rgba>)
    requires WellFormed(img) && x < FrameW && RowsAvailable(img, frame, row, y + 1)
    ensures p.Some? ==> frame * FrameW + x < img.width && row * FrameH + y < img.height
    ensures p.Some? ==> Visible(p.value) && p.value == PixelAt(img, frame * FrameW + x, row * FrameH + y)
    ensures p.None? && frame * FrameW + x < img.width ==> !Visible(PixelAt(img, frame * FrameW + x, row * FrameH + y))
  {
    var srcX := frame * FrameW + x;
    var srcY := row * FrameH + y;
    if srcX < img.width then
      var px := PixelAt(img, srcX, srcY);
      if Visible(px) then Some(px) else None
    else None
  }

  /** Destination pixel `i` of a row-major 124-wide frame is (i % 124, i / 124). */
  function DestPixel(img: Image, frame: nat, row: nat, i: nat): Option<Rgba>
    requires WellFormed(img) && RowsAvailable(img, frame, row, i / FrameW + 1)
  {
    CellPixel(img, frame, row, i % FrameW, i / FrameW)
  }

  /** Word `i` of a 0x00RRGGBB buffer after the blit loop, given its value
      `prev` before: indices past the 124 x 93 frame and pixels not copied
      keep `prev`. */
  function BlitWord(prev: bv32, img: Image, frame: nat, row: nat, i: nat): bv32
    requires WellFormed(img) && RowsAvailable(img, frame, row, FrameH)
  {
    if i < FrameW * FrameH then
      match DestPixel(img, frame, row, i)
      case Some(p) => Pack(p)
      case None => prev
    else prev
  }

  /** Word `i` of a cleared-then-drawn 0x00RRGGBB buffer (softbuffer, minifb). */
  function PackedAt(img: Image, frame: nat, row: nat, i: nat): (w: bv32)
    requires WellFormed(img) && RowsAvailable(img, frame, row, FrameH)
    ensures w <= 0xFF_FFFF
  {
    BlitWord(0, img, frame, row, i)
  }

  /** Number of destination rows touched by `chunks` 4-byte chunks. */
  function ChunkRows(chunks: nat): nat
  {
    if chunks == 0 then 0 else (chunks - 1) / FrameW + 1
  }

  lemma ChunkRowBound(i: nat, chunks: nat)
    requires i < chunks
    ensures i / FrameW + 1 <= ChunkRows(chunks)
  {
  }

  /** Byte `j` of an RGBA byte frame of `chunks` 4-byte chunks after the
      blit loop, given its value `prev` before. */
  function BlitByte(prev: bv8, img: Image, frame: nat, row: nat, chunks: nat, j: nat): bv8
    requires WellFormed(img) && j < 4 * chunks && RowsAvailable(img, frame, row, ChunkRows(chunks))
  {
    ChunkRowBound(j / 4, chunks);
    match DestPixel(img, frame, row, j / 4)
    case Some(p) => Channel(p, j % 4)
    case None => prev
  }

  /** Byte `j` of a cleared-then-drawn RGBA byte frame (pixels). */
  function RgbaByteAt(img: Image, frame: nat, row: nat, chunks: nat, j: nat): bv8
    requires WellFormed(img) && j < 4 * chunks && RowsAvailable(img, frame, row, ChunkRows(chunks))
  {
    BlitByte(0, img, frame, row, chunks, j)
  }

  // ---------------------------------------------------------------------
  // Properties

  /** Row-major indexing visits every destination pixel exactly once. */
  lemma DestIndexBijection(i: nat, x: nat, y: nat)
    requires x < FrameW && y < FrameH
    ensures i < FrameW * FrameH ==> i % FrameW < FrameW && i / FrameW < FrameH
    ensures y * FrameW + x < FrameW * FrameH
    ensures (y * FrameW + x) % FrameW == x && (y * FrameW + x) / FrameW == y
  {
  }

  /** Word y*124+x of the packed frame is the packed sheet pixel exactly when
      its column exists and it is visible, and 0 otherwise; the packed word
      gives back the pixel's colour. */
  lemma PackedPixel(img: Image, frame: nat, row: nat, x: nat, y: nat)
    requires WellFormed(img) && RowsAvailable(img, frame, row, FrameH)
    requires x < FrameW && y < FrameH
    ensures var srcX, srcY := frame * FrameW + x, row * FrameH + y;
      if srcX < img.width && Visible(PixelAt(img, srcX, srcY)) then
        && PackedAt(img, frame, row, y * FrameW + x) == Pack(PixelAt(img, srcX, srcY))
        && Unpack(PackedAt(img, frame, row, y * FrameW + x))
           == (PixelAt(img, srcX, srcY).r, PixelAt(img, srcX, srcY).g, PixelAt(img, srcX, srcY).b)
      else PackedAt(img, frame, row, y * FrameW + x) == 0
  {
    DestIndexBijection(y * FrameW + x, x, y);
    var srcX, srcY := frame * FrameW + x, row * FrameH + y;
    if srcX < img.width && Visible(PixelAt(img, srcX, srcY)) {
      PackRoundTrip(PixelAt(img, srcX, srcY));
    }
  }

  /** Chunk y*124+x of the RGBA frame holds the sheet pixel's four bytes
      exactly when its column exists and it is visible, and zeros otherwise. */
  lemma RgbaChunk(img: Image, frame: nat, row: nat, x: nat, y: nat, k: nat)
    requires WellFormed(img) && RowsAvailable(img, frame, row, FrameH)
    requires x < FrameW && y < FrameH && k < 4
    ensures ChunkRows(FrameW * FrameH) == FrameH
    ensures var srcX, srcY := frame * FrameW + x, row * FrameH + y;
      RgbaByteAt(img, frame, row, FrameW * FrameH, 4 * (y * FrameW + x) + k)
      == if srcX < img.width && Visible(PixelAt(img, srcX, srcY)) then Channel(PixelAt(img, srcX, srcY), k) else 0
  {
    DestIndexBijection(y * FrameW + x, x, y);
    var j := 4 * (y * FrameW + x) + k;
    assert j / 4 == y * FrameW + x && j % 4 == k;
  }

  /** Every alpha byte of the drawn RGBA frame is 0 or above the threshold. */
  lemma AlphaBytesThresholded(img: Image, frame: nat, row: nat, chunks: nat, j: nat)
    requires WellFormed(img) && j < 4 * chunks && RowsAvailable(img, frame, row, ChunkRows(chunks))
    requires j % 4 == 3
    ensures RgbaByteAt(img, frame, row, chunks, j) == 0 || RgbaByteAt(img, frame, row, chunks, j) > AlphaThreshold
  {
  }
}
