/** Monotonic clock readings, as whole milliseconds. */
module Clock {

  /** `Instant::duration_since`, which saturates to zero when `earlier` is
      later than `now`. */
  function Elapsed(now: nat, earlier: nat): (d: nat)
    ensures earlier <= now ==> earlier + d == now
    ensures now < earlier ==> d == 0
  {
    if earlier <= now then now - earlier else 0
  }
}
