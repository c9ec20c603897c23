/** Fixed-duration windows on a nanosecond time line. */
module Windows {
  import opened Prelude
  import opened Contract

  /** `WindowBounds::new` refuses a window that does not end after its start. */
  function NewBounds(start: int, end: int): Result<Window, string> {
    if end <= start then Err("window end must be after window start") else Ok(Window(start, end))
  }

  /**
   * The window of `duration` that holds `now`: its start is a multiple of the whole seconds of the duration.
   * A positive duration under one second has none of those, and the remainder by zero panics.
   */
  function FixedBounds(duration: int, now: int): Result<Window, string>
    requires duration <= 0 || duration >= NANOS_PER_SECOND
  {
    if duration <= 0 then Err("fixed window duration must be positive")
    else
      var seconds := duration / NANOS_PER_SECOND;
      var timestamp := now / NANOS_PER_SECOND;
      var start := (timestamp - timestamp % seconds) * NANOS_PER_SECOND;
      NewBounds(start, start + duration)
  }

  predicate Holds(window: Window, instant: int) {
    window.start <= instant < window.end
  }

  ghost predicate Disjoint(a: Window, b: Window) {
    forall instant :: !(Holds(a, instant) && Holds(b, instant))
  }

  /** Every instant is in its own window, and two instants have the same window or windows with nothing in common. */
  ghost predicate Tiles(duration: int)
    requires duration >= NANOS_PER_SECOND
  {
    && (forall now :: FixedBounds(duration, now).Ok? && Holds(FixedBounds(duration, now).value, now))
    && (forall t1, t2 :: FixedBounds(duration, t1) == FixedBounds(duration, t2)
          || Disjoint(FixedBounds(duration, t1).value, FixedBounds(duration, t2).value))
  }

  /** Bounds are refused unless the end is after the start, and a fixed window only for a duration that is not positive. */
  lemma BoundsExactly(start: int, end: int, duration: int, now: int)
    requires duration <= 0 || duration >= 1_000_000_000
    ensures NewBounds(start, end).Ok? <==> start < end
    ensures NewBounds(start, end).Ok? ==> NewBounds(start, end).value == Window(start, end)
    ensures FixedBounds(duration, now).Err? <==> duration <= 0
  {
  }

  /** The start is the multiple of the whole seconds at or before the instant. */
  lemma StartIsMultiple(duration: int, now: int)
    requires duration >= NANOS_PER_SECOND
    ensures FixedBounds(duration, now).Ok?
    ensures
      var seconds := duration / NANOS_PER_SECOND;
      var window := FixedBounds(duration, now).value;
      && window.start == seconds * ((now / NANOS_PER_SECOND) / seconds) * NANOS_PER_SECOND
      && window.end == window.start + duration
      && window.start <= now < window.start + seconds * NANOS_PER_SECOND
  {
    var seconds := duration / NANOS_PER_SECOND;
    var timestamp := now / NANOS_PER_SECOND;
    assert timestamp == seconds * (timestamp / seconds) + timestamp % seconds;
    assert 0 <= timestamp % seconds < seconds;
  }

  lemma StartsApart(seconds: int, a: int, b: int)
    requires seconds >= 1 && a < b
    ensures seconds * a + seconds <= seconds * b
  {
    MulMonotone(seconds, a + 1, b);
    assert seconds * (a + 1) == seconds * a + seconds;
  }

  lemma WholeSecondsTile(duration: int, t1: int, t2: int)
    requires duration >= NANOS_PER_SECOND && duration % NANOS_PER_SECOND == 0
    ensures FixedBounds(duration, t1).Ok? && Holds(FixedBounds(duration, t1).value, t1)
    ensures FixedBounds(duration, t2).Ok?
    ensures FixedBounds(duration, t1) == FixedBounds(duration, t2)
            || Disjoint(FixedBounds(duration, t1).value, FixedBounds(duration, t2).value)
  {
    var seconds := duration / NANOS_PER_SECOND;
    StartIsMultiple(duration, t1);
    StartIsMultiple(duration, t2);
    var a, b := (t1 / NANOS_PER_SECOND) / seconds, (t2 / NANOS_PER_SECOND) / seconds;
    if a < b {
      StartsApart(seconds, a, b);
    } else if b < a {
      StartsApart(seconds, b, a);
    }
  }

  /** With a fraction of a second left over, the window of the instant zero runs into the next one. */
  lemma FractionOverlaps(duration: int)
    requires duration >= NANOS_PER_SECOND && duration % NANOS_PER_SECOND != 0
    ensures !Tiles(duration)
  {
    var seconds := duration / NANOS_PER_SECOND;
    var next := seconds * NANOS_PER_SECOND;
    StartIsMultiple(duration, 0);
    StartIsMultiple(duration, next);
    assert next / NANOS_PER_SECOND == seconds && seconds / seconds == 1 && 0 / seconds == 0;
    var first, second := FixedBounds(duration, 0).value, FixedBounds(duration, next).value;
    assert second.start == next;
    assert Holds(first, next) && Holds(second, next);
  }

  /** Fixed windows tile the time line, before the epoch as after it, exactly for whole-second durations. */
  lemma TilingExact(duration: int)
    requires duration >= NANOS_PER_SECOND
    ensures Tiles(duration) <==> duration % NANOS_PER_SECOND == 0
  {
    if duration % NANOS_PER_SECOND == 0 {
      forall t1, t2
        ensures FixedBounds(duration, t1).Ok? && Holds(FixedBounds(duration, t1).value, t1)
        ensures FixedBounds(duration, t1) == FixedBounds(duration, t2)
                || Disjoint(FixedBounds(duration, t1).value, FixedBounds(duration, t2).value)
      {
        WholeSecondsTile(duration, t1, t2);
      }
    } else {
      FractionOverlaps(duration);
    }
  }
}
