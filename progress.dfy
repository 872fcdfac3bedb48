/**
 * The progress indicator of xbeachmi/progress.py: a counter of calls
 * (`i`), the simulation time of the previous call (`last`) and a wall-clock
 * stamp per named space. Simulation time is exact; the wall clock is a
 * parameter (`now`) of every operation that reads it.
 */
module Progress {
  import opened Wrappers

  /** The Python exceptions `progress` and `check_time` can raise. */
  datatype ProgressError = KeyError | ZeroDivisionError

  /** numpy's `mod` on floats: the remainder has the divisor's sign. */
  function Mod(t: real, d: real): (r: real)
    requires d != 0.0
    ensures d > 0.0 ==> 0.0 <= r < d
    ensures d < 0.0 ==> d < r <= 0.0
  {
    if d > 0.0 then FloorBounds(t, d); t - (t / d).Floor as real * d
    else FloorBoundsNegative(t, d); t - (t / d).Floor as real * d
  }

  /** The multiples of a positive `d` around `t`. */
  lemma FloorBounds(t: real, d: real)
    requires d > 0.0
    ensures (t / d).Floor as real * d <= t
    ensures t < ((t / d).Floor as real + 1.0) * d
  {
    var x := t / d;
    var q := x.Floor as real;
    assert q <= x < q + 1.0;
    assert t == x * d;
    ScaleLe(q, x, d);
    ScaleLt(x, q + 1.0, d);
    assert q * d <= t;
    assert t < (q + 1.0) * d;
  }

  /** The multiples of a negative `d` around `t`. */
  lemma FloorBoundsNegative(t: real, d: real)
    requires d < 0.0
    ensures (t / d).Floor as real * d >= t
    ensures t > ((t / d).Floor as real + 1.0) * d
  {
    var x := t / d;
    var q := x.Floor as real;
    assert q <= x < q + 1.0;
    assert t == x * d;
    ScaleLe(q, x, -d);
    ScaleLt(x, q + 1.0, -d);
    assert x * (-d) == -t;
    assert q * (-d) == -(q * d);
    assert (q + 1.0) * (-d) == -((q + 1.0) * d);
    assert q * d >= t;
    assert t > (q + 1.0) * d;
  }

  /** Multiplying by a positive number keeps an order. */
  lemma ScaleLe(a: real, b: real, d: real)
    requires a <= b && d > 0.0
    ensures a * d <= b * d
  {
    assert (b - a) * d >= 0.0;
  }

  lemma ScaleLt(a: real, b: real, d: real)
    requires a < b && d > 0.0
    ensures a * d < b * d
  {
    assert (b - a) * d > 0.0;
  }

  /** The `k`-th multiple of `d`. */
  function Multiple(k: int, d: real): real {
    k as real * d
  }

  /** `mod(t, interval) < t - last`; a zero interval gives NaN, which compares false. */
  predicate PeriodPassed(t: real, interval: real, last: real) {
    interval != 0.0 && Mod(t, interval) < t - last
  }

  /** The first space name that is not empty, as the constructor's `if not self.default_space` loop picks it. */
  function DefaultOf(names: seq<string>): (d: string)
    decreases |names|
  {
    if names == [] then ""
    else
      var rest := DefaultOf(names[..|names| - 1]);
      if rest == "" then names[|names| - 1] else rest
  }

  /** The state of one indicator; an empty `defaultSpace` stands for Python's `None`. */
  datatype Indicator = Indicator(
    start: real,
    duration: real,
    fraction: real,
    interval: real,
    last: real,
    i: int,
    spaces: map<string, real>,
    defaultSpace: string)

  /** The state `__init__` leaves: every listed space stamped with the same clock reading. */
  function Initial(duration: real, fraction: real, interval: real, names: seq<string>, now: real): (ind: Indicator)
  {
    Indicator(now, duration, fraction, interval, 0.0, 1, map s | s in names :: now, DefaultOf(names))
  }

  /** `check_period`. */
  function CheckPeriod(ind: Indicator, t: real, interval: real): bool {
    PeriodPassed(t, interval, ind.last)
  }

  /** The simulation-time period that a fraction of the duration spans. */
  function Share(ind: Indicator, fraction: real): real {
    ind.duration * fraction
  }

  /** `check_fraction`: a period of the given share of the duration. */
  function CheckFraction(ind: Indicator, t: real, fraction: real): bool {
    CheckPeriod(ind, t, Share(ind, fraction))
  }

  /** The space a call addresses: the named one, or the default when none is named. */
  function SpaceKey(ind: Indicator, space: string): string {
    if space == "" then ind.defaultSpace else space
  }

  /** `check_time`: more than `interval` wall-clock time has passed since the space was touched. */
  function CheckTime(ind: Indicator, interval: real, space: string, now: real): (r: Result<bool, ProgressError>)
    ensures r.Err? <==> SpaceKey(ind, space) !in ind.spaces
    ensures r.Ok? ==> (r.value <==> now - ind.spaces[SpaceKey(ind, space)] > interval)
  {
    var key := SpaceKey(ind, space);
    if key !in ind.spaces then Err(KeyError) else Ok(now - ind.spaces[key] > interval)
  }

  /** `touch_space`: stamp the addressed space with the clock, adding it when absent. */
  function Touch(ind: Indicator, space: string, now: real): (r: Indicator)
    ensures r.spaces.Keys == ind.spaces.Keys + {SpaceKey(ind, space)}
    ensures r.spaces[SpaceKey(ind, space)] == now
    ensures forall k :: k in ind.spaces && k != SpaceKey(ind, space) ==> r.spaces[k] == ind.spaces[k]
    ensures r == ind.(spaces := r.spaces)
  {
    ind.(spaces := ind.spaces[SpaceKey(ind, space) := now])
  }

  /**
   * One call of `progress(t)`. It logs when the fraction period has passed
   * or, failing that, when the default space is older than the interval;
   * logging divides by the duration and by the progress fraction `p`, and
   * touches the default space. Every call that does not raise counts and
   * records `t`.
   */
  function ProgressStep(ind: Indicator, t: real, now: real): (r: Result<Indicator, ProgressError>)
  {
    if |ind.spaces| == 0 then Ok(ind)
    else
      var fired := if CheckFraction(ind, t, ind.fraction) then Ok(true) else CheckTime(ind, ind.interval, "", now);
      match fired
      case Err(e) => Err(e)
      case Ok(f) =>
        if f && (ind.duration == 0.0 || t == 0.0) then Err(ZeroDivisionError)
        else
          var ind1 := if f then Touch(ind, "", now) else ind;
          Ok(ind1.(i := ind1.i + 1, last := t))
  }

  // ---------------------------------------------------------------------
  // Properties

  /** For a positive interval, the period has passed exactly when a multiple of it lies in `(last, t]`. */
  lemma PeriodPassedIff(t: real, interval: real, last: real)
    requires interval > 0.0
    ensures PeriodPassed(t, interval, last) <==> exists k: int :: last < Multiple(k, interval) <= t
  {
    var q := (t / interval).Floor;
    FloorBounds(t, interval);
    assert Multiple(q, interval) <= t < Multiple(q + 1, interval);
    assert Mod(t, interval) == t - Multiple(q, interval);
    if PeriodPassed(t, interval, last) {
      assert last < Multiple(q, interval) <= t;
    }
    if exists k: int :: last < Multiple(k, interval) <= t {
      var k: int :| last < Multiple(k, interval) <= t;
      MultipleBelow(k, q, t, interval);
    }
  }

  /** A multiple at or below `t` is at most the greatest one. */
  lemma MultipleBelow(k: int, q: int, t: real, d: real)
    requires d > 0.0 && Multiple(k, d) <= t < Multiple(q + 1, d)
    ensures Multiple(k, d) <= Multiple(q, d)
  {
    if q + 1 <= k {
      ScaleLe((q + 1) as real, k as real, d);
      assert false;
    }
    ScaleLe(k as real, q as real, d);
  }

  /** `check_fraction(t, f)` passes exactly when a multiple of `duration * f` lies in `(last, t]`. */
  lemma FractionIsPeriod(ind: Indicator, t: real, f: real)
    requires Share(ind, f) > 0.0
    ensures CheckFraction(ind, t, f) <==> exists k: int :: ind.last < Multiple(k, Share(ind, f)) <= t
  {
    PeriodPassedIff(t, Share(ind, f), ind.last);
  }

  /** A zero interval never passes. */
  lemma ZeroPeriodNeverPasses(ind: Indicator, t: real)
    ensures !CheckPeriod(ind, t, 0.0)
  {
  }

  /** Without spaces `progress` returns at once and changes nothing. */
  lemma ProgressWithoutSpaces(ind: Indicator, t: real, now: real)
    requires ind.spaces == map[]
    ensures ProgressStep(ind, t, now) == Ok(ind)
  {
  }

  /**
   * With spaces, a call that does not raise increases the counter by one and
   * records `t`, whether or not it logged; the settings stay, and the only
   * space whose stamp can change is the default one.
   */
  lemma ProgressCounts(ind: Indicator, t: real, now: real)
    requires |ind.spaces| > 0 && ProgressStep(ind, t, now).Ok?
    ensures var r := ProgressStep(ind, t, now).value;
      && r.i == ind.i + 1 && r.last == t
      && r.start == ind.start && r.duration == ind.duration && r.fraction == ind.fraction
      && r.interval == ind.interval && r.defaultSpace == ind.defaultSpace
      && (r.spaces == ind.spaces || r.spaces == ind.spaces[ind.defaultSpace := now])
  {
  }

  /** When the default space is missing and the fraction period has not passed, `progress` raises KeyError. */
  lemma ProgressMissingDefault(ind: Indicator, t: real, now: real)
    requires |ind.spaces| > 0 && ind.defaultSpace !in ind.spaces && !CheckFraction(ind, t, ind.fraction)
    ensures ProgressStep(ind, t, now) == Err(KeyError)
  {
  }

  /** Logging at time zero divides by a zero progress fraction. */
  lemma ProgressAtTimeZeroRaises(ind: Indicator, now: real)
    requires |ind.spaces| > 0 && ind.defaultSpace in ind.spaces
    requires now - ind.spaces[ind.defaultSpace] > ind.interval
    ensures ProgressStep(ind, 0.0, now) == Err(ZeroDivisionError)
  {
  }

  /** A space just touched is not older than any non-negative interval. */
  lemma TouchThenCheck(ind: Indicator, space: string, now: real, interval: real)
    requires interval >= 0.0
    ensures CheckTime(Touch(ind, space, now), interval, space, now) == Ok(false)
  {
  }

  /** The default space is the first non-empty name, and is one of the names when any is non-empty. */
  lemma {:induction false} DefaultIsFirstNamed(names: seq<string>, j: nat)
    requires j < |names| && names[j] != "" && forall k :: 0 <= k < j ==> names[k] == ""
    ensures DefaultOf(names) == names[j]
    decreases |names|
  {
    if j < |names| - 1 {
      var init := names[..|names| - 1];
      assert init[j] == names[j];
      DefaultIsFirstNamed(init, j);
    } else {
      DefaultAllEmpty(names[..|names| - 1]);
    }
  }

  lemma {:induction false} DefaultAllEmpty(names: seq<string>)
    requires forall k :: 0 <= k < |names| ==> names[k] == ""
    ensures DefaultOf(names) == ""
    decreases |names|
  {
    if names != [] {
      DefaultAllEmpty(names[..|names| - 1]);
    }
  }

  /** The constructor stamps exactly the listed spaces, all with the same time, and starts counting at one. */
  lemma InitialState(duration: real, fraction: real, interval: real, names: seq<string>, now: real)
    ensures var ind := Initial(duration, fraction, interval, names, now);
      && ind.i == 1 && ind.last == 0.0
      && ind.spaces.Keys == set s | s in names
      && (forall s :: s in ind.spaces ==> ind.spaces[s] == now)
  {
  }

  /** The indicator of xbeachmi/progress.py. Its fields update in place. */
  class ProgressIndicator {
    var start: real
    var duration: real
    var fraction: real
    var interval: real
    var last: real
    var i: int
    var spaces: map<string, real>
    var defaultSpace: string

    function Value(): Indicator
      reads this
    {
      Indicator(start, duration, fraction, interval, last, i, spaces, defaultSpace)
    }

    constructor (duration: real, fraction: real, interval: real, names: seq<string>, now: real)
      ensures Value() == Initial(duration, fraction, interval, names, now)
    {
      this.start := now;
      this.duration := duration;
      this.fraction := fraction;
      this.interval := interval;
      this.last := 0.0;
      this.i := 1;
      var stamps: map<string, real> := map[];
      var default := "";
      var j := 0;
      while j < |names|
        invariant 0 <= j <= |names|
        invariant stamps == map s | s in names[..j] :: now
        invariant default == DefaultOf(names[..j])
      {
        assert names[..j + 1][..j] == names[..j];
        stamps := stamps[names[j] := now];
        if default == "" {
          default := names[j];
        }
        j := j + 1;
      }
      assert names[..j] == names;
      this.spaces := stamps;
      this.defaultSpace := default;
    }

    method TouchSpace(space: string, now: real)
      modifies this
      ensures Value() == Touch(old(Value()), space, now)
    {
      var key := if space == "" then defaultSpace else space;
      spaces := spaces[key := now];
    }

    method Progress(t: real, now: real) returns (o: Outcome<ProgressError>)
      modifies this
      ensures ProgressStep(old(Value()), t, now).Ok? ==> o == Pass && Value() == ProgressStep(old(Value()), t, now).value
      ensures ProgressStep(old(Value()), t, now).Err? ==> o == Fail(ProgressStep(old(Value()), t, now).error) && Value() == old(Value())
    {
      if |spaces| == 0 {
        return Pass;
      }
      var fired := CheckFraction(Value(), t, fraction);
      if !fired {
        var c := CheckTime(Value(), interval, "", now);
        if c.Err? {
          return Fail(c.error);
        }
        fired := c.value;
      }
      if fired {
        if duration == 0.0 || t == 0.0 {
          return Fail(ZeroDivisionError);
        }
        TouchSpace("", now);
      }
      i := i + 1;
      last := t;
      o := Pass;
    }
  }
}
