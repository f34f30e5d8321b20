/** The row-based animation step shared by the three archived backends
    (softbuffer, pixels, minifb): every 66 ms, either maybe start walking a
    random sheet row, or step along the current row and reset after 27 frames. */
module RowTick {
  import opened Clock

  const FrameGateMs: nat := 66
  const TotalFrames: nat := 27
  /** Rows 1..33 hold animations; row 0 is the idle pose. */
  const AnimationRows: nat := 33

  type u32 = x: nat | x < 0x1_0000_0000

  datatype TickState = TickState(frame: nat, row: nat, isAnimating: bool, lastUpdate: nat)

  /** The values an `AppState` can hold: the column is always inside a row,
      and the idle pose is (0, 0). */
  ghost predicate Inv(s: TickState)
  {
    && s.frame < TotalFrames
    && (s.isAnimating ==> 1 <= s.row <= AnimationRows)
    && (!s.isAnimating ==> s.frame == 0 && s.row == 0)
  }

  /** One pass of the logic block. `trigger` is the outcome of the 5 % draw and
      `rowDraw` the random u32 that picks the row. */
  function TickSpec(s: TickState, now: nat, trigger: bool, rowDraw: u32): TickState
  {
    if Elapsed(now, s.lastUpdate) >= FrameGateMs then
      var s' :=
        if !s.isAnimating then
          if trigger then s.(isAnimating := true, row := rowDraw % AnimationRows + 1, frame := 0) else s
        else if s.frame + 1 >= TotalFrames then s.(isAnimating := false, frame := 0, row := 0)
        else s.(frame := s.frame + 1);
      s'.(lastUpdate := now)
    else s
  }

  /** The animation fields of an `AppState`. */
  class AppState {
    var frame: nat
    var row: nat
    var lastUpdate: nat
    var isAnimating: bool

    function Snapshot(): TickState
      reads this
    {
      TickState(frame, row, isAnimating, lastUpdate)
    }

    constructor (now: nat)
      ensures Snapshot() == TickState(0, 0, false, now)
      ensures Inv(Snapshot())
    {
      frame := 0;
      row := 0;
      lastUpdate := now;
      isAnimating := false;
    }

    method Tick(now: nat, trigger: bool, rowDraw: u32)
      modifies this
      ensures Snapshot() == TickSpec(old(Snapshot()), now, trigger, rowDraw)
    {
      if Elapsed(now, lastUpdate) >= FrameGateMs {
        if !isAnimating {
          if trigger {
            isAnimating := true;
            row := rowDraw % AnimationRows + 1;
            frame := 0;
          }
        } else {
          frame := frame + 1;
          if frame >= TotalFrames {
            isAnimating := false;
            frame := 0;
            row := 0;
          }
        }
        lastUpdate := now;
      }
    }
  }

  // ---------------------------------------------------------------------
  // Runs of several ticks

  datatype Draw = Draw(now: nat, trigger: bool, rowDraw: u32)

  function Ticks(s: TickState, draws: seq<Draw>): TickState
    decreases |draws|
  {
    if draws == [] then s
    else Ticks(TickSpec(s, draws[0].now, draws[0].trigger, draws[0].rowDraw), draws[1..])
  }

  /** Every draw comes at least 66 ms after the previous fired gate. */
  predicate GatesFire(lastUpdate: nat, draws: seq<Draw>)
    decreases |draws|
  {
    draws == [] ||
    (Elapsed(draws[0].now, lastUpdate) >= FrameGateMs && GatesFire(draws[0].now, draws[1..]))
  }

  // ---------------------------------------------------------------------
  // Properties

  /** Inside the 66 ms gate a tick changes nothing; when it fires,
      `last_update` becomes `now`. */
  lemma TickGate(s: TickState, now: nat, trigger: bool, rowDraw: u32)
    ensures Elapsed(now, s.lastUpdate) < FrameGateMs ==> TickSpec(s, now, trigger, rowDraw) == s
    ensures Elapsed(now, s.lastUpdate) >= FrameGateMs ==> TickSpec(s, now, trigger, rowDraw).lastUpdate == now
  {
  }

  /** From rest with the trigger drawn, a row in [1, 33] starts at frame 0;
      without it nothing but the timestamp changes. */
  lemma TickStartsRow(s: TickState, now: nat, trigger: bool, rowDraw: u32)
    requires !s.isAnimating && Elapsed(now, s.lastUpdate) >= FrameGateMs
    ensures var s' := TickSpec(s, now, trigger, rowDraw);
      if trigger then
        s'.isAnimating && s'.frame == 0 && s'.row == rowDraw % AnimationRows + 1 && 1 <= s'.row <= AnimationRows
      else s' == s.(lastUpdate := now)
  {
  }

  /** Every tick keeps the `AppState` invariant. */
  lemma TickPreservesInv(s: TickState, now: nat, trigger: bool, rowDraw: u32)
    requires Inv(s)
    ensures Inv(TickSpec(s, now, trigger, rowDraw))
  {
  }

  /** While frames remain, each fired gate moves one column along the same row. */
  lemma {:induction false} WalkRow(s: TickState, draws: seq<Draw>)
    requires s.isAnimating && GatesFire(s.lastUpdate, draws)
    requires s.frame + |draws| < TotalFrames
    ensures Ticks(s, draws).isAnimating
    ensures Ticks(s, draws).frame == s.frame + |draws| && Ticks(s, draws).row == s.row
    decreases |draws|
  {
    if draws != [] {
      var d := draws[0];
      var s' := TickSpec(s, d.now, d.trigger, d.rowDraw);
      assert s' == s.(frame := s.frame + 1, lastUpdate := d.now);
      WalkRow(s', draws[1..]);
    }
  }

  /** A walk from column f returns to the idle pose (0, 0) on exactly the
      (27 - f)-th fired gate. */
  lemma {:induction false} WalkRowEnds(s: TickState, draws: seq<Draw>)
    requires s.isAnimating && GatesFire(s.lastUpdate, draws)
    requires s.frame < TotalFrames && |draws| == TotalFrames - s.frame
    ensures !Ticks(s, draws).isAnimating
    ensures Ticks(s, draws).frame == 0 && Ticks(s, draws).row == 0
    decreases |draws|
  {
    var d := draws[0];
    var s' := TickSpec(s, d.now, d.trigger, d.rowDraw);
    if |draws| == 1 {
      assert s' == s.(isAnimating := false, frame := 0, row := 0, lastUpdate := d.now);
      assert draws[1..] == [];
    } else {
      assert s' == s.(frame := s.frame + 1, lastUpdate := d.now);
      WalkRowEnds(s', draws[1..]);
    }
  }
}
