/** The pixels backend's redraw handler (archive/main_pixels.rs): the row
    tick, then two passes over the RGBA byte frame in 4-byte chunks, one
    clearing it and one copying every visible sheet pixel of the current cell. */
module PixelsBackend {
  import opened Sheet
  import opened Compositor
  import opened RowTick

  /** Clears every whole 4-byte chunk of the frame; trailing bytes that do
      not fill a chunk are left alone. */
  method ClearChunks(frame: array<bv8>)
    modifies frame
    ensures forall j :: 0 <= j < frame.Length ==>
              frame[j] == if j < 4 * (frame.Length / 4) then 0 else old(frame[j])
  {
    var chunks := frame.Length / 4;
    var i := 0;
    while i < chunks
      invariant i <= chunks
      invariant forall j :: 0 <= j < frame.Length ==>
                  frame[j] == if j < 4 * i then 0 else old(frame[j])
    {
      frame[4 * i] := 0;
      frame[4 * i + 1] := 0;
      frame[4 * i + 2] := 0;
      frame[4 * i + 3] := 0;
      i := i + 1;
    }
  }

  /** Visits the whole 4-byte chunks in order, counting them: chunk i is
      destination pixel (i % 124, i / 124) and receives the sheet pixel's
      four bytes when it is copied. */
  method DrawChunks(frame: array<bv8>, img: Image, cellFrame: nat, cellRow: nat)
    requires WellFormed(img) && RowsAvailable(img, cellFrame, cellRow, ChunkRows(frame.Length / 4))
    modifies frame
    ensures forall j :: 0 <= j < frame.Length ==>
              frame[j] == if j < 4 * (frame.Length / 4)
                          then BlitByte(old(frame[j]), img, cellFrame, cellRow, frame.Length / 4, j)
                          else old(frame[j])
  {
    var chunks := frame.Length / 4;
    var srcStartX := cellFrame * FrameW;
    var srcStartY := cellRow * FrameH;
    var i := 0;
    while i < chunks
      invariant i <= chunks
      invariant forall j :: 0 <= j < frame.Length ==>
                  frame[j] == if j < 4 * i
                              then BlitByte(old(frame[j]), img, cellFrame, cellRow, chunks, j)
                              else old(frame[j])
    {
      var x := i % FrameW;
      var y := i / FrameW;
      var srcX := srcStartX + x;
      var srcY := srcStartY + y;
      ChunkRowBound(i, chunks);
      if srcX < img.width {
        var spritePixel := PixelAt(img, srcX, srcY);
        if spritePixel.a > AlphaThreshold {
          frame[4 * i] := spritePixel.r;
          frame[4 * i + 1] := spritePixel.g;
          frame[4 * i + 2] := spritePixel.b;
          frame[4 * i + 3] := spritePixel.a;
        }
      }
      forall j | 4 * i <= j < 4 * i + 4
        ensures j / 4 == i && j % 4 == j - 4 * i
      {
      }
      i := i + 1;
    }
  }

  /** One `RedrawRequested` event: tick, clear, draw. `frame` is the
      4 * 124 * 93-byte buffer of a 124 x 93 `Pixels` surface. */
  method RedrawRequested(state: AppState, frame: array<bv8>, img: Image, now: nat, trigger: bool, rowDraw: u32)
    requires Inv(state.Snapshot())
    requires WellFormed(img) && img.height >= (AnimationRows + 1) * FrameH
    requires frame.Length == 4 * (FrameW * FrameH)
    modifies state, frame
    ensures state.Snapshot() == TickSpec(old(state.Snapshot()), now, trigger, rowDraw)
    ensures Inv(state.Snapshot())
    ensures RowsAvailable(img, state.frame, state.row, ChunkRows(FrameW * FrameH))
    ensures forall j :: 0 <= j < frame.Length ==>
              frame[j] == RgbaByteAt(img, state.frame, state.row, FrameW * FrameH, j)
  {
    state.Tick(now, trigger, rowDraw);
    TickPreservesInv(old(state.Snapshot()), now, trigger, rowDraw);
    assert ChunkRows(FrameW * FrameH) == FrameH;
    ClearChunks(frame);
    DrawChunks(frame, img, state.frame, state.row);
  }
}
