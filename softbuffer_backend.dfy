/** The softbuffer backend's redraw handler (archive/main_softbuffer_version.rs):
    the row tick, then clearing the buffer and a nested loop packing every visible
    sheet pixel of the current cell into the surface's u32 buffer. */
module SoftbufferBackend {
  import opened Sheet
  import opened Compositor
  import opened RowTick

  /** Sets every word of the surface buffer to 0. */
  method FillZero(buffer: array<bv32>)
    modifies buffer
    ensures forall i :: 0 <= i < buffer.Length ==> buffer[i] == 0
  {
    var i := 0;
    while i < buffer.Length
      invariant i <= buffer.Length
      invariant forall k :: 0 <= k < i ==> buffer[k] == 0
    {
      buffer[i] := 0;
      i := i + 1;
    }
  }

  /** The nested `for y` / `for x` blit of cell (frame, row); a write lands
      only where `y * 124 + x` is inside the buffer. */
  method DrawCell(buffer: array<bv32>, img: Image, frame: nat, row: nat)
    requires WellFormed(img) && RowsAvailable(img, frame, row, FrameH)
    modifies buffer
    ensures forall i :: 0 <= i < buffer.Length ==>
              buffer[i] == BlitWord(old(buffer[i]), img, frame, row, i)
  {
    var srcStartX := frame * FrameW;
    var srcStartY := row * FrameH;
    var y := 0;
    while y < FrameH
      invariant y <= FrameH
      invariant forall i :: 0 <= i < buffer.Length ==>
                  buffer[i] == if i < y * FrameW then BlitWord(old(buffer[i]), img, frame, row, i) else old(buffer[i])
    {
      var x := 0;
      while x < FrameW
        invariant x <= FrameW
        invariant forall i :: 0 <= i < buffer.Length ==>
                    buffer[i] == if i < y * FrameW + x then BlitWord(old(buffer[i]), img, frame, row, i) else old(buffer[i])
      {
        var srcX := srcStartX + x;
        var srcY := srcStartY + y;
        DestIndexBijection(y * FrameW + x, x, y);
        if srcX < img.width {
          var pixel := PixelAt(img, srcX, srcY);
          if pixel.a > AlphaThreshold {
            var color := ((pixel.r as bv32) << 16) | ((pixel.g as bv32) << 8) | (pixel.b as bv32);
            var destIdx := y * FrameW + x;
            if destIdx < buffer.Length {
              buffer[destIdx] := color;
            }
          }
        }
        x := x + 1;
      }
      y := y + 1;
    }
  }

  /** One `RedrawRequested` event: tick, clear, draw. */
  method RedrawRequested(state: AppState, buffer: array<bv32>, img: Image, now: nat, trigger: bool, rowDraw: u32)
    requires Inv(state.Snapshot())
    requires WellFormed(img) && img.height >= (AnimationRows + 1) * FrameH
    modifies state, buffer
    ensures state.Snapshot() == TickSpec(old(state.Snapshot()), now, trigger, rowDraw)
    ensures Inv(state.Snapshot())
    ensures RowsAvailable(img, state.frame, state.row, FrameH)
    ensures forall i :: 0 <= i < buffer.Length ==> buffer[i] == PackedAt(img, state.frame, state.row, i)
  {
    state.Tick(now, trigger, rowDraw);
    TickPreservesInv(old(state.Snapshot()), now, trigger, rowDraw);
    FillZero(buffer);
    DrawCell(buffer, img, state.frame, state.row);
  }
}
