/** Monotonic clock readings, as the in-memory limiters use them. */
module Clock {
  /** `now.duration_since(t)`, which saturates at zero. */
  function Since(now: int, t: int): nat {
    if now >= t then now - t else 0
  }
}
