/** The minifb backend's main loop (archive/main_minifb.rs): it owns a
    124 x 93 u32 buffer, and on each pass clears and redraws it only when the
    66 ms gate fires; otherwise the unchanged buffer is presented again. */
module MinifbBackend {
  import opened Sheet
  import opened Compositor
  import opened RowTick
  import opened Clock

  /** Clears the buffer by setting each word to 0 in turn. */
  method ClearBuffer(buffer: array<bv32>)
    modifies buffer
    ensures forall i :: 0 <= i < buffer.Length ==> buffer[i] == 0
  {
    var i := 0;
    while i < buffer.Length
      invariant i <= buffer.Length
      invariant forall k :: 0 <= k < i ==> buffer[k] == 0
    {
      buffer[i] := 0;
      i := i + 1;
    }
  }

  /** The nested blit, indexing `buffer[y * 124 + x]` directly: the buffer is
      exactly one frame, so every index is in range. */
  method DrawCell(buffer: array<bv32>, img: Image, frame: nat, row: nat)
    requires buffer.Length == FrameW * FrameH
    requires WellFormed(img) && RowsAvailable(img, frame, row, FrameH)
    modifies buffer
    ensures forall i :: 0 <= i < buffer.Length ==>
              buffer[i] == BlitWord(old(buffer[i]), img, frame, row, i)
  {
    var srcStartX := frame * FrameW;
    var srcStartY := row * FrameH;
    var y := 0;
    while y < FrameH
      invariant y <= FrameH
      invariant forall i :: 0 <= i < buffer.Length ==>
                  buffer[i] == if i < y * FrameW then BlitWord(old(buffer[i]), img, frame, row, i) else old(buffer[i])
    {
      var x := 0;
      while x < FrameW
        invariant x <= FrameW
        invariant forall i :: 0 <= i < buffer.Length ==>
                    buffer[i] == if i < y * FrameW + x then BlitWord(old(buffer[i]), img, frame, row, i) else old(buffer[i])
      {
        var srcX := srcStartX + x;
        var srcY := srcStartY + y;
        DestIndexBijection(y * FrameW + x, x, y);
        if srcX < img.width {
          var pixel := PixelAt(img, srcX, srcY);
          if pixel.a > AlphaThreshold {
            buffer[y * FrameW + x] := ((pixel.r as bv32) << 16) | ((pixel.g as bv32) << 8) | (pixel.b as bv32);
          }
        }
        x := x + 1;
      }
      y := y + 1;
    }
  }

  /** The state the loop of `main` keeps between passes. */
  class App {
    const state: AppState
    const buffer: array<bv32>

    ghost predicate Valid()
      reads this, state
    {
      buffer.Length == FrameW * FrameH && Inv(state.Snapshot())
    }

    /** A zeroed buffer of one 124 x 93 frame, and an `AppState` at rest. */
    constructor (now: nat)
      ensures Valid() && fresh(state) && fresh(buffer)
      ensures state.Snapshot() == TickState(0, 0, false, now)
      ensures forall i :: 0 <= i < buffer.Length ==> buffer[i] == 0
    {
      state := new AppState(now);
      buffer := new bv32[FrameW * FrameH](_ => 0);
    }

    /** One pass of the loop body after the drag handling. */
    method Step(now: nat, trigger: bool, rowDraw: u32, img: Image)
      requires Valid()
      requires WellFormed(img) && img.height >= (AnimationRows + 1) * FrameH
      modifies state, buffer
      ensures Valid()
      ensures state.Snapshot() == TickSpec(old(state.Snapshot()), now, trigger, rowDraw)
      ensures RowsAvailable(img, state.frame, state.row, FrameH)
      ensures Elapsed(now, old(state.lastUpdate)) >= FrameGateMs ==>
                forall i :: 0 <= i < buffer.Length ==> buffer[i] == PackedAt(img, state.frame, state.row, i)
      ensures Elapsed(now, old(state.lastUpdate)) < FrameGateMs ==> buffer[..] == old(buffer[..])
    {
      var fires := Elapsed(now, state.lastUpdate) >= FrameGateMs;
      state.Tick(now, trigger, rowDraw);
      TickPreservesInv(old(state.Snapshot()), now, trigger, rowDraw);
      if fires {
        ClearBuffer(buffer);
        DrawCell(buffer, img, state.frame, state.row);
      }
    }
  }
}
