/** The clip-based animation controller of the egui front end (src/main.rs).
    Clock readings are millisecond counts; the random draws of the source are
    passed in as oracle values (`trigger` for the trigger-chance draw,
    `clipIndex` for the uniform catalog index). */
module ClipAnimation {
  import opened Clock
  import opened Wrappers

  const FramesPerRow: nat := 27
  const FrameDurationMs: nat := 75
  const IdleCheckMs: nat := 95
  const MinDelayBetweenAnimationsMs: nat := 9000
  /** The largest linear frame any catalog clip uses. */
  const LastCatalogFrame: nat := 885

  /** An inclusive range of linear frame indices. */
  datatype AnimationClip = AnimationClip(startFrame: nat, endFrame: nat)
  {
    /** Number of frames the clip shows; the u32 subtraction of the source
        needs `startFrame <= endFrame`. */
    function Length(): (n: nat)
      requires startFrame <= endFrame
      ensures n >= 1 && startFrame + n == endFrame + 1
    {
      endFrame - startFrame + 1
    }
  }

  datatype AnimationState =
    | Idle
    | Playing(clip: AnimationClip, currentLinearFrame: nat)
    | Cooldown

  /** The value held by an `Animation` object: its state and its three timestamps. */
  datatype Controller = Controller(
    state: AnimationState,
    lastFrameTime: nat,
    lastIdleCheck: nat,
    lastAnimationEnd: nat)

  /** The fixed clip catalog. Every clip is a non-empty range inside the sheet. */
  function Catalog(): (clips: seq<AnimationClip>)
    ensures |clips| == 24
    ensures forall i :: 0 <= i < |clips| ==>
              clips[i].startFrame <= clips[i].endFrame <= LastCatalogFrame
  {
    [ AnimationClip(0, 20), AnimationClip(20, 62), AnimationClip(63, 86),
      AnimationClip(86, 135), AnimationClip(135, 194), AnimationClip(194, 217),
      AnimationClip(217, 233), AnimationClip(233, 249), AnimationClip(249, 267),
      AnimationClip(267, 306), AnimationClip(306, 343), AnimationClip(343, 359),
      AnimationClip(359, 416), AnimationClip(416, 434), AnimationClip(434, 497),
      AnimationClip(512, 535), AnimationClip(535, 554), AnimationClip(554, 613),
      AnimationClip(613, 698), AnimationClip(698, 717), AnimationClip(718, 735),
      AnimationClip(735, 790), AnimationClip(790, 821), AnimationClip(822, 885) ]
  }

  /** Splits a linear frame index into (column, row) of the sheet grid. */
  function LinearToGrid(linearFrame: nat): (cr: (nat, nat))
    ensures cr.0 < FramesPerRow
    ensures cr.1 * FramesPerRow + cr.0 == linearFrame
  {
    (linearFrame % FramesPerRow, linearFrame / FramesPerRow)
  }

  /** The state the controller may be in: a playing clip comes from the
      catalog and its current frame lies inside the clip. */
  ghost predicate Inv(c: Controller)
  {
    c.state.Playing? ==>
      && c.state.clip in Catalog()
      && c.state.clip.startFrame <= c.state.currentLinearFrame <= c.state.clip.endFrame
  }

  /** The cell displayed for a state: the idle pose (0, 0) unless a clip plays. */
  function SpriteCoordinates(s: AnimationState): (cr: (nat, nat))
    ensures !s.Playing? ==> cr == (0, 0)
    ensures s.Playing? ==> cr.0 < FramesPerRow && cr.1 * FramesPerRow + cr.0 == s.currentLinearFrame
  {
    match s
    case Idle => (0, 0)
    case Cooldown => (0, 0)
    case Playing(_, current) => LinearToGrid(current)
  }

  function IsPlaying(s: AnimationState): (b: bool)
    ensures b <==> s.Playing?
    ensures !b ==> SpriteCoordinates(s) == (0, 0)
  {
    s.Playing?
  }

  /** Remaining cooldown floor, present only while it has not elapsed. */
  function TimeUntilNextAnimation(c: Controller, now: nat): (r: Option<nat>)
    ensures r.Some? <==> c.state.Cooldown? && Elapsed(now, c.lastAnimationEnd) < MinDelayBetweenAnimationsMs
    ensures r.Some? ==> 0 < r.value <= MinDelayBetweenAnimationsMs
    ensures r.Some? ==> Elapsed(now, c.lastAnimationEnd) + r.value == MinDelayBetweenAnimationsMs
  {
    if c.state.Cooldown? then
      var elapsed := Elapsed(now, c.lastAnimationEnd);
      if elapsed < MinDelayBetweenAnimationsMs then Some(MinDelayBetweenAnimationsMs - elapsed) else None
    else
      None
  }

  /** The (progress, total) pair shown in the state description of a playing
      clip; the u32 subtractions of the source need the two requires. */
  function StateProgress(s: AnimationState): (r: Option<(nat, nat)>)
    requires s.Playing? ==> s.clip.startFrame <= s.currentLinearFrame && s.clip.startFrame <= s.clip.endFrame
    ensures r.Some? <==> s.Playing?
    ensures r.Some? ==> s.clip.startFrame + r.value.0 == s.currentLinearFrame && r.value.1 == s.clip.Length()
    ensures r.Some? ==> (r.value.0 < r.value.1 <==> s.currentLinearFrame <= s.clip.endFrame)
  {
    match s
    case Playing(clip, current) => Some((current - clip.startFrame, clip.Length()))
    case _ => None
  }

  /** Effect of `advance_frame` at time `now`. */
  function NextFrame(c: Controller, now: nat): Controller
  {
    match c.state
    case Playing(clip, current) =>
      if current + 1 > clip.endFrame then c.(state := Cooldown, lastAnimationEnd := now)
      else c.(state := Playing(clip, current + 1))
    case _ => c
  }

  /** Effect of `maybe_start_animation` at time `now` with the given draws. */
  function MaybeStart(c: Controller, now: nat, trigger: bool, clipIndex: nat): Controller
    requires clipIndex < |Catalog()|
  {
    if c.state.Cooldown? && Elapsed(now, c.lastAnimationEnd) < MinDelayBetweenAnimationsMs then c
    else
      var c' := if c.state.Cooldown? then c.(state := Idle) else c;
      if c'.state.Idle? && trigger && |Catalog()| > 0 then
        c'.(state := Playing(Catalog()[clipIndex], Catalog()[clipIndex].startFrame))
      else c'
  }

  /** Effect of one `update` at time `now`: the 75 ms frame gate, then the
      95 ms idle-check gate while idle or cooling down. */
  function UpdateState(c: Controller, now: nat, trigger: bool, clipIndex: nat): Controller
    requires clipIndex < |Catalog()|
  {
    var c' := if Elapsed(now, c.lastFrameTime) >= FrameDurationMs
              then NextFrame(c, now).(lastFrameTime := now) else c;
    if (c'.state.Idle? || c'.state.Cooldown?) && Elapsed(now, c'.lastIdleCheck) >= IdleCheckMs
    then MaybeStart(c', now, trigger, clipIndex).(lastIdleCheck := now)
    else c'
  }

  /** The `Animation` object of the source. */
  class Animation {
    var state: AnimationState
    var lastFrameTime: nat
    var lastIdleCheck: nat
    var lastAnimationEnd: nat

    function Snapshot(): Controller
      reads this
    {
      Controller(state, lastFrameTime, lastIdleCheck, lastAnimationEnd)
    }

    constructor (now: nat)
      ensures Snapshot() == Controller(Idle, now, now, now)
      ensures Inv(Snapshot())
    {
      state := Idle;
      lastFrameTime := now;
      lastIdleCheck := now;
      lastAnimationEnd := now;
    }

    method AdvanceFrame(now: nat)
      modifies this
      ensures Snapshot() == NextFrame(old(Snapshot()), now)
    {
      match state {
        case Idle =>
        case Cooldown =>
        case Playing(clip, current) =>
          var newFrame := current + 1;
          if newFrame > clip.endFrame {
            state := Cooldown;
            lastAnimationEnd := now;
          } else {
            state := Playing(clip, newFrame);
          }
      }
    }

    method MaybeStartAnimation(now: nat, trigger: bool, clipIndex: nat)
      requires clipIndex < |Catalog()|
      modifies this
      ensures Snapshot() == MaybeStart(old(Snapshot()), now, trigger, clipIndex)
    {
      if state.Cooldown? {
        var elapsed := Elapsed(now, lastAnimationEnd);
        if elapsed < MinDelayBetweenAnimationsMs {
          return;
        }
        state := Idle;
      }
      if state.Idle? {
        if trigger {
          var clips := Catalog();
          if |clips| > 0 {
            var clip := clips[clipIndex];
            state := Playing(clip, clip.startFrame);
          }
        }
      }
    }

    method Update(now: nat, trigger: bool, clipIndex: nat) returns (cr: (nat, nat))
      requires clipIndex < |Catalog()|
      modifies this
      ensures Snapshot() == UpdateState(old(Snapshot()), now, trigger, clipIndex)
      ensures cr == SpriteCoordinates(state)
    {
      if Elapsed(now, lastFrameTime) >= FrameDurationMs {
        AdvanceFrame(now);
        lastFrameTime := now;
      }
      if state.Idle? || state.Cooldown? {
        if Elapsed(now, lastIdleCheck) >= IdleCheckMs {
          MaybeStartAnimation(now, trigger, clipIndex);
          lastIdleCheck := now;
        }
      }
      cr := SpriteCoordinates(state);
    }
  }

  // ---------------------------------------------------------------------
  // Runs of several updates

  /** The clock reading and the two random draws of one `update` call. */
  datatype Tick = Tick(now: nat, trigger: bool, clipIndex: nat)

  predicate ValidTicks(ticks: seq<Tick>)
  {
    forall k :: 0 <= k < |ticks| ==> ticks[k].clipIndex < |Catalog()|
  }

  function Run(c: Controller, ticks: seq<Tick>): Controller
    requires ValidTicks(ticks)
    decreases |ticks|
  {
    if ticks == [] then c
    else Run(UpdateState(c, ticks[0].now, ticks[0].trigger, ticks[0].clipIndex), ticks[1..])
  }

  /** Every tick comes at least a frame duration after the previous frame advance. */
  predicate FrameGatesFire(lastFrameTime: nat, ticks: seq<Tick>)
    decreases |ticks|
  {
    ticks == [] ||
    (Elapsed(ticks[0].now, lastFrameTime) >= FrameDurationMs && FrameGatesFire(ticks[0].now, ticks[1..]))
  }

  // ---------------------------------------------------------------------
  // Properties

  /** The grid mapping is the inverse of row-major linearisation. */
  lemma GridRoundTrip(col: nat, row: nat)
    requires col < FramesPerRow
    ensures LinearToGrid(row * FramesPerRow + col) == (col, row)
  {
  }

  /** Every catalog frame lies in the first 33 rows of the sheet. */
  lemma CatalogFramesInSheet(i: nat, frame: nat)
    requires i < |Catalog()|
    requires Catalog()[i].startFrame <= frame <= Catalog()[i].endFrame
    ensures Catalog()[i].Length() >= 1
    ensures LinearToGrid(frame).1 <= 32
  {
  }

  /** In every reachable state the displayed cell is inside the sheet grid. */
  lemma CoordinatesInSheet(c: Controller)
    requires Inv(c)
    ensures SpriteCoordinates(c.state).0 < FramesPerRow
    ensures SpriteCoordinates(c.state).1 <= 32
  {
    if c.state.Playing? {
      var i :| 0 <= i < |Catalog()| && Catalog()[i] == c.state.clip;
      CatalogFramesInSheet(i, c.state.currentLinearFrame);
    }
  }

  /** `advance_frame` leaves Idle and Cooldown alone, and on a playing clip
      either steps one frame or, past the end, enters Cooldown and records
      the end time. */
  lemma AdvanceFrameCases(c: Controller, now: nat)
    ensures !c.state.Playing? ==> NextFrame(c, now) == c
    ensures c.state.Playing? && c.state.currentLinearFrame < c.state.clip.endFrame ==>
              NextFrame(c, now) == c.(state := Playing(c.state.clip, c.state.currentLinearFrame + 1))
    ensures c.state.Playing? && c.state.currentLinearFrame >= c.state.clip.endFrame ==>
              NextFrame(c, now) == c.(state := Cooldown, lastAnimationEnd := now)
    ensures NextFrame(c, now).lastFrameTime == c.lastFrameTime
    ensures NextFrame(c, now).lastIdleCheck == c.lastIdleCheck
  {
  }

  /** Starting a clip, from Idle or from a Cooldown whose floor has passed. */
  lemma StartPlaysCatalogClip(c: Controller, now: nat, trigger: bool, clipIndex: nat)
    requires clipIndex < |Catalog()|
    requires c.state.Idle? || (c.state.Cooldown? && Elapsed(now, c.lastAnimationEnd) >= MinDelayBetweenAnimationsMs)
    ensures trigger ==> MaybeStart(c, now, trigger, clipIndex).state
                        == Playing(Catalog()[clipIndex], Catalog()[clipIndex].startFrame)
    ensures !trigger ==> MaybeStart(c, now, trigger, clipIndex).state == Idle
    ensures MaybeStart(c, now, trigger, clipIndex).(state := c.state) == c
  {
  }

  /** Inside the nine-second floor, `maybe_start_animation` changes nothing,
      whatever the random draws. */
  lemma CooldownFloorBlocksStart(c: Controller, now: nat, trigger: bool, clipIndex: nat)
    requires clipIndex < |Catalog()|
    requires c.state.Cooldown? && Elapsed(now, c.lastAnimationEnd) < MinDelayBetweenAnimationsMs
    ensures MaybeStart(c, now, trigger, clipIndex) == c
  {
  }

  /** `update` rewrites each timestamp only when its own gate fires, and
      `last_animation_end` only when a clip ends. */
  lemma UpdateTimestamps(c: Controller, now: nat, trigger: bool, clipIndex: nat)
    requires clipIndex < |Catalog()|
    ensures var c' := UpdateState(c, now, trigger, clipIndex);
      && c'.lastFrameTime == (if Elapsed(now, c.lastFrameTime) >= FrameDurationMs then now else c.lastFrameTime)
      && (c'.lastIdleCheck != c.lastIdleCheck ==>
            c'.lastIdleCheck == now && Elapsed(now, c.lastIdleCheck) >= IdleCheckMs)
      && (c'.lastAnimationEnd != c.lastAnimationEnd ==>
            c'.lastAnimationEnd == now && c.state.Playing? && c'.state.Cooldown?)
  {
  }

  /** Two calls within both gates change nothing: the state and timestamps
      are those of the previous call, so the same cell is displayed. */
  lemma UpdateWithinGatesIsNoop(c: Controller, now: nat, trigger: bool, clipIndex: nat)
    requires clipIndex < |Catalog()|
    requires Elapsed(now, c.lastFrameTime) < FrameDurationMs
    requires c.state.Playing? || Elapsed(now, c.lastIdleCheck) < IdleCheckMs
    ensures UpdateState(c, now, trigger, clipIndex) == c
  {
  }

  /** A single frame gate alone does not freeze the display: starting from
      the controller `new` builds at time 0, a call at 80 ms advances the
      frame gate only, and a call at 100 ms, inside that gate, fires the
      separate idle-check gate and starts a clip, changing the cell. */
  lemma FrameGateAloneDoesNotFreeze()
    ensures var c0 := Controller(Idle, 0, 0, 0);
      var c1 := UpdateState(c0, 80, true, 1);
      var c2 := UpdateState(c1, 100, true, 1);
      && Elapsed(100, c1.lastFrameTime) < FrameDurationMs
      && SpriteCoordinates(c1.state) != SpriteCoordinates(c2.state)
  {
    var c0 := Controller(Idle, 0, 0, 0);
    var c1 := UpdateState(c0, 80, true, 1);
    assert c1 == Controller(Idle, 80, 0, 0);
    assert Catalog()[1] == AnimationClip(20, 62);
    assert UpdateState(c1, 100, true, 1).state == Playing(AnimationClip(20, 62), 20);
  }

  /** `update` keeps a playing clip inside its range and from the catalog. */
  lemma UpdatePreservesInv(c: Controller, now: nat, trigger: bool, clipIndex: nat)
    requires clipIndex < |Catalog()|
    requires Inv(c)
    ensures Inv(UpdateState(c, now, trigger, clipIndex))
  {
    var c' := UpdateState(c, now, trigger, clipIndex);
    if c'.state.Playing? && !c.state.Playing? {
      assert Catalog()[clipIndex] in Catalog();
    }
  }

  lemma {:induction false} RunPreservesInv(c: Controller, ticks: seq<Tick>)
    requires ValidTicks(ticks) && Inv(c)
    ensures Inv(Run(c, ticks))
    decreases |ticks|
  {
    if ticks != [] {
      UpdatePreservesInv(c, ticks[0].now, ticks[0].trigger, ticks[0].clipIndex);
      RunPreservesInv(UpdateState(c, ticks[0].now, ticks[0].trigger, ticks[0].clipIndex), ticks[1..]);
    }
  }

  /** While every frame gate fires and the clip has frames left, each tick
      steps the playing clip by exactly one frame. */
  lemma {:induction false} PlayingSteps(c: Controller, ticks: seq<Tick>)
    requires ValidTicks(ticks) && FrameGatesFire(c.lastFrameTime, ticks)
    requires c.state.Playing?
    requires c.state.currentLinearFrame + |ticks| <= c.state.clip.endFrame
    ensures Run(c, ticks).state == Playing(c.state.clip, c.state.currentLinearFrame + |ticks|)
    ensures Run(c, ticks).lastAnimationEnd == c.lastAnimationEnd
    decreases |ticks|
  {
    if ticks != [] {
      var c' := UpdateState(c, ticks[0].now, ticks[0].trigger, ticks[0].clipIndex);
      assert c'.state == Playing(c.state.clip, c.state.currentLinearFrame + 1);
      assert c'.lastFrameTime == ticks[0].now;
      PlayingSteps(c', ticks[1..]);
    }
  }

  /** A clip playing from `current` enters Cooldown on exactly the
      (end - current + 1)-th fired frame gate, stamped with that tick's time. */
  lemma {:induction false} PlayingEnds(c: Controller, ticks: seq<Tick>)
    requires ValidTicks(ticks) && FrameGatesFire(c.lastFrameTime, ticks)
    requires c.state.Playing?
    requires c.state.currentLinearFrame <= c.state.clip.endFrame
    requires |ticks| == c.state.clip.endFrame - c.state.currentLinearFrame + 1
    ensures Run(c, ticks).state == Cooldown
    ensures Run(c, ticks).lastAnimationEnd == ticks[|ticks| - 1].now
    decreases |ticks|
  {
    var t := ticks[0];
    var c' := UpdateState(c, t.now, t.trigger, t.clipIndex);
    if |ticks| == 1 {
      assert NextFrame(c, t.now).state == Cooldown;
      assert c' == MaybeStart(NextFrame(c, t.now).(lastFrameTime := t.now), t.now, t.trigger, t.clipIndex).(lastIdleCheck := t.now)
          || c' == NextFrame(c, t.now).(lastFrameTime := t.now);
      assert c'.state == Cooldown && c'.lastAnimationEnd == t.now;
      assert ticks[1..] == [];
    } else {
      assert c'.state == Playing(c.state.clip, c.state.currentLinearFrame + 1);
      assert c'.lastFrameTime == t.now;
      PlayingEnds(c', ticks[1..]);
    }
  }

  /** A freshly started clip shows `length()` frames: it is still playing
      after fewer fired frame gates and is in Cooldown after exactly that many. */
  lemma ClipLastsItsLength(c: Controller, ticks: seq<Tick>)
    requires ValidTicks(ticks) && FrameGatesFire(c.lastFrameTime, ticks)
    requires c.state.Playing? && c.state.currentLinearFrame == c.state.clip.startFrame
    requires c.state.clip.startFrame <= c.state.clip.endFrame
    requires |ticks| <= c.state.clip.Length()
    ensures |ticks| < c.state.clip.Length() ==>
              Run(c, ticks).state == Playing(c.state.clip, c.state.clip.startFrame + |ticks|)
    ensures |ticks| == c.state.clip.Length() ==> Run(c, ticks).state == Cooldown
  {
    if |ticks| < c.state.clip.Length() {
      PlayingSteps(c, ticks);
    } else {
      PlayingEnds(c, ticks);
    }
  }

  /** However often the idle-check gate fires and whatever the draws, no clip
      starts while the nine-second floor since the last clip's end has not passed. */
  lemma {:induction false} CooldownHoldsUntilDelay(c: Controller, ticks: seq<Tick>)
    requires ValidTicks(ticks)
    requires c.state.Cooldown?
    requires forall k :: 0 <= k < |ticks| ==>
               Elapsed(ticks[k].now, c.lastAnimationEnd) < MinDelayBetweenAnimationsMs
    ensures Run(c, ticks).state == Cooldown
    ensures Run(c, ticks).lastAnimationEnd == c.lastAnimationEnd
    decreases |ticks|
  {
    if ticks != [] {
      var t := ticks[0];
      var c' := UpdateState(c, t.now, t.trigger, t.clipIndex);
      assert Elapsed(t.now, c.lastAnimationEnd) < MinDelayBetweenAnimationsMs;
      assert c'.state == Cooldown && c'.lastAnimationEnd == c.lastAnimationEnd;
      forall k | 0 <= k < |ticks[1..]|
        ensures Elapsed(ticks[1..][k].now, c'.lastAnimationEnd) < MinDelayBetweenAnimationsMs
      {
        assert ticks[1..][k] == ticks[k + 1];
      }
      CooldownHoldsUntilDelay(c', ticks[1..]);
    }
  }

  /** Once the floor has passed, the next idle check leaves Cooldown and, with
      the trigger drawn, starts the drawn catalog clip in the same call. */
  lemma CooldownEndsAfterDelay(c: Controller, now: nat, trigger: bool, clipIndex: nat)
    requires clipIndex < |Catalog()|
    requires c.state.Cooldown?
    requires Elapsed(now, c.lastAnimationEnd) >= MinDelayBetweenAnimationsMs
    requires Elapsed(now, c.lastIdleCheck) >= IdleCheckMs
    ensures UpdateState(c, now, trigger, clipIndex).state
            == if trigger then Playing(Catalog()[clipIndex], Catalog()[clipIndex].startFrame) else Idle
    ensures UpdateState(c, now, trigger, clipIndex).lastIdleCheck == now
  {
  }
}
