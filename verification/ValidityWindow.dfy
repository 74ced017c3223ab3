/**
 The window of a payment authorization: when it starts, when it ends, and the band its end is
 clamped into, in 64-bit seconds that wrap around.
 */
module ValidityWindow {
  import opened Outcomes

  const MIN_INT64: int := -0x8000_0000_0000_0000
  const MAX_INT64: int := 0x7FFF_FFFF_FFFF_FFFF

  type int64 = x: int | -0x8000_0000_0000_0000 <= x <= 0x7FFF_FFFF_FFFF_FFFF

  /** Addition and subtraction on int64 keep the low 64 bits. */
  function Wrap(x: int): (r: int64)
    ensures MIN_INT64 <= x <= MAX_INT64 ==> r == x
  {
    (x - MIN_INT64) % 0x1_0000_0000_0000_0000 + MIN_INT64
  }

  const DEFAULT_MARGIN: int64 := 300
  const DEFAULT_SKEW: int64 := 300
  const DEFAULT_MAX_WINDOW: int64 := 86400
  const DEFAULT_MIN_HEADROOM: int64 := 60

  datatype Input = Input(expiresAt: int64, now: int64, margin: int64, skew: int64, maxWindow: int64, minHeadroom: int64,
                         validBefore: Option<int64>, validAfter: Option<int64>, clamp: Option<bool>)

  datatype Window = Window(after: int64, before: int64)

  datatype WindowError = BadConfig | TooTight | TooWide | EmptyWindow

  function OrDefault(value: int64, default: int64): int64 {
    if value == 0 then default else value
  }

  function MaxWindow(input: Input): int64 { OrDefault(input.maxWindow, DEFAULT_MAX_WINDOW) }

  function MinHeadroom(input: Input): int64 { OrDefault(input.minHeadroom, DEFAULT_MIN_HEADROOM) }

  function After(input: Input): int64 {
    if input.validAfter.Some? then input.validAfter.value else Wrap(input.now - OrDefault(input.skew, DEFAULT_SKEW))
  }

  /** The end asked for, before it is banded. */
  function RawBefore(input: Input): int64 {
    if input.validBefore.Some? then input.validBefore.value
    else Wrap(input.expiresAt + OrDefault(input.margin, DEFAULT_MARGIN))
  }

  function Floor(input: Input): int64 { Wrap(input.now + MinHeadroom(input)) }

  function Ceiling(input: Input): int64 { Wrap(After(input) + MaxWindow(input)) }

  /** `ComputePaymentValidityWindow`. */
  function Compute(input: Input): Result<Window, WindowError> {
    if MaxWindow(input) < MinHeadroom(input) then Failure(BadConfig)
    else
      var after, raw, floor, ceiling := After(input), RawBefore(input), Floor(input), Ceiling(input);
      var clamp := input.clamp != Some(false);
      if !clamp && input.validBefore.Some? && raw < floor then Failure(TooTight)
      else if !clamp && input.validBefore.Some? && raw > ceiling then Failure(TooWide)
      else
        var banded := if raw < floor then floor else if raw > ceiling then ceiling else raw;
        if banded <= after then Failure(EmptyWindow) else Success(Window(after, banded))
  }

  /** `x` is what 64 bits keep of `y`. */
  predicate Low64(x: int64, y: int) {
    (y - x) % 0x1_0000_0000_0000_0000 == 0
  }

  lemma Wrapped(y: int)
    ensures Low64(Wrap(y), y)
  {
    var m := 0x1_0000_0000_0000_0000;
    assert y - Wrap(y) == (y - MIN_INT64) / m * m;
  }

  /** The ends in the input's own fields: each is pinned, or counted from the clock or the expiry by the amount the
      input gives or, where it gives 0, by five minutes, five minutes, one minute and a day. */
  lemma EndsExactly(input: Input)
    ensures input.validAfter.Some? ==> After(input) == input.validAfter.value
    ensures input.validAfter.None? ==> Low64(After(input), input.now - (if input.skew == 0 then 300 else input.skew))
    ensures input.validBefore.Some? ==> RawBefore(input) == input.validBefore.value
    ensures input.validBefore.None? ==>
              Low64(RawBefore(input), input.expiresAt + (if input.margin == 0 then 300 else input.margin))
    ensures Low64(Floor(input), input.now + (if input.minHeadroom == 0 then 60 else input.minHeadroom))
    ensures Low64(Ceiling(input), After(input) + (if input.maxWindow == 0 then 86400 else input.maxWindow))
  {
    hide Wrap, Low64;
    Wrapped(input.now - OrDefault(input.skew, DEFAULT_SKEW));
    Wrapped(input.expiresAt + OrDefault(input.margin, DEFAULT_MARGIN));
    Wrapped(input.now + MinHeadroom(input));
    Wrapped(After(input) + MaxWindow(input));
  }

  /** Why no window is computed: a cap below the headroom; an end that was pinned, must not be clamped and lies before
      or after the band; or an end that does not come after the start. */
  lemma RefusedExactly(input: Input)
    ensures var cap := if input.maxWindow == 0 then 86400 else input.maxWindow;
            var headroom := if input.minHeadroom == 0 then 60 else input.minHeadroom;
            var strict := input.clamp == Some(false) && input.validBefore.Some?;
            var early := strict && input.validBefore.value < Floor(input);
            var late := strict && !early && input.validBefore.value > Ceiling(input);
            && (Compute(input) == Failure(BadConfig) <==> cap < headroom)
            && (Compute(input) == Failure(TooTight) <==> cap >= headroom && early)
            && (Compute(input) == Failure(TooWide) <==> cap >= headroom && late)
            && (Compute(input) == Failure(EmptyWindow) <==>
                  && cap >= headroom && !early && !late
                  && (RawBefore(input) <= After(input) || Ceiling(input) <= After(input))
                  && (RawBefore(input) >= Floor(input) || Floor(input) <= After(input)))
  {
    hide Wrap;
  }

  // ----- What a success is worth -----

  predicate InBand(input: Input, before: int) {
    Floor(input) <= before <= Ceiling(input)
  }

  function Distance(a: int, b: int): nat {
    if a < b then b - a else a - b
  }

  ghost predicate NearestInBand(input: Input, before: int) {
    && InBand(input, before)
    && forall x :: InBand(input, x) ==> Distance(RawBefore(input), before) <= Distance(RawBefore(input), x)
  }

  /** Asking for exactly the window that was computed, and nothing else. */
  function Repinned(input: Input, w: Window): Input {
    input.(validAfter := Some(w.after), validBefore := Some(w.before), clamp := Some(false))
  }

  /** Every success starts where asked and has positive width. Its end is the point of the band nearest to the end
      asked for, and pinning the result without clamping reproduces it, exactly when the band is not empty; when it
      is empty, the end lies outside it. */
  lemma SuccessMeansNearest(input: Input)
    requires Compute(input).Success?
    ensures var w := Compute(input).value;
            && w.after == After(input) && w.after < w.before
            && (NearestInBand(input, w.before) <==> Floor(input) <= Ceiling(input))
            && (Compute(Repinned(input, w)) == Success(w) <==> Floor(input) <= Ceiling(input))
  {
    hide Wrap;
    var w := Compute(input).value;
    assert Floor(Repinned(input, w)) == Floor(input) && Ceiling(Repinned(input, w)) == Ceiling(input);
  }

  /** When a window is computed, over a nonempty band: the limits make sense, a pinned end that must not be clamped is
      in the band, and the end nearest to the one asked for comes after the start. */
  lemma SucceedsExactly(input: Input)
    requires Floor(input) <= Ceiling(input)
    ensures Compute(input).Success? <==>
            && MinHeadroom(input) <= MaxWindow(input)
            && (input.clamp == Some(false) && input.validBefore.Some? ==> InBand(input, RawBefore(input)))
            && (RawBefore(input) > After(input) || Floor(input) > After(input)) && Ceiling(input) > After(input)
  {
    hide Wrap;
  }

  predicate NoWrap(x: int) {
    MIN_INT64 <= x <= MAX_INT64
  }

  /** When nothing wraps, the band is nonempty exactly when the headroom fits between the start and the cap. With a
      start derived from the clock that asks for more than the configuration check does: the skew has to fit too. */
  lemma BandIsNonempty(input: Input)
    requires NoWrap(input.now + MinHeadroom(input)) && NoWrap(After(input) + MaxWindow(input))
    ensures Floor(input) <= Ceiling(input) <==> input.now + MinHeadroom(input) - MaxWindow(input) <= After(input)
    ensures input.validAfter.None? && NoWrap(input.now - OrDefault(input.skew, DEFAULT_SKEW)) ==>
              (Floor(input) <= Ceiling(input)
               <==> MinHeadroom(input) + OrDefault(input.skew, DEFAULT_SKEW) <= MaxWindow(input))
  {
    hide Wrap;
  }

  /** The band can be empty although the configuration check passes, and a window is computed all the same: with a start
      pinned far in the past it ends before the clock, with a cap just above the headroom it exceeds the cap. */
  lemma EmptyBandIsNotRefused()
    ensures var stale := Input(1000, 1000, 0, 0, 0, 0, None, Some(-1000000), None);
            Floor(stale) > Ceiling(stale) && Compute(stale) == Success(Window(-1000000, -913600)) && -913600 < stale.now
    ensures var narrow := Input(500, 1000, 0, 0, 100, 60, None, None, None);
            Floor(narrow) > Ceiling(narrow) && Compute(narrow) == Success(Window(700, 1060))
              && 1060 - 700 > MaxWindow(narrow)
  {
  }

  // ----- The default settings -----

  function Default(expiresAt: int64, now: int64): Input {
    Input(expiresAt, now, 0, 0, 0, 0, None, None, None)
  }

  const EARLIEST: int := MIN_INT64 + 300
  const LATEST: int := MAX_INT64 - 86100

  /** For every clock that leaves room for the skew and the cap, and every expiry whatever, the default settings give a
      window: it starts 300 seconds ago and ends between 60 and 86100 seconds ahead, at the expiry with its margin when
      that lies between. */
  lemma DefaultsNeverFail(expiresAt: int64, now: int64)
    requires EARLIEST <= now <= LATEST
    ensures Compute(Default(expiresAt, now)).Success?
    ensures var w := Compute(Default(expiresAt, now)).value;
            && w.after == now - 300 && now + 60 <= w.before <= now + 86100
            && (60 <= Wrap(expiresAt + 300) - now <= 86100 ==> w.before == Wrap(expiresAt + 300))
            && (Wrap(expiresAt + 300) < now + 60 ==> w.before == now + 60)
            && (Wrap(expiresAt + 300) > now + 86100 ==> w.before == now + 86100)
  {
    hide Wrap;
  }

  lemma WrapPast(x: int)
    requires MAX_INT64 < x <= MAX_INT64 + 0x1_0000_0000_0000_0000
    ensures Wrap(x) == x - 0x1_0000_0000_0000_0000
  {
    assert x - MIN_INT64 == (x - MIN_INT64 - 0x1_0000_0000_0000_0000) + 0x1_0000_0000_0000_0000;
  }

  lemma WrapBelow(x: int)
    requires MIN_INT64 - 0x1_0000_0000_0000_0000 <= x < MIN_INT64
    ensures Wrap(x) == x + 0x1_0000_0000_0000_0000
  {
    assert x - MIN_INT64 == (x - MIN_INT64 + 0x1_0000_0000_0000_0000) - 0x1_0000_0000_0000_0000;
  }

  /** Over all clocks: the default settings fail exactly where the wrap-around reaches the window. */
  lemma DefaultsExactly(expiresAt: int64, now: int64)
    ensures Compute(Default(expiresAt, now)).Success? <==>
            || EARLIEST <= now <= LATEST
            || (LATEST < now <= MAX_INT64 - 60 && Wrap(expiresAt + 300) < now + 60)
  {
    hide Wrap;
    if now < EARLIEST {
      WrapBelow(now - 300);
      WrapPast(now - 300 + 0x1_0000_0000_0000_0000 + 86400);
    } else if now > LATEST {
      WrapPast(now - 300 + 86400);
      if now > MAX_INT64 - 60 {
        WrapPast(now + 60);
      }
    }
  }
}
