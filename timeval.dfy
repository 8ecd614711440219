/** timeval_subtract (src/utils.c, with identical copies in
    src/timeval_subtract.c and src/mqoms.c): x - y for two timevals, with
    y normalised first by carrying whole seconds. */
module Timeval {
  import opened CText

  const USEC: int := 1000000

  /** A struct timeval; both fields may be updated in place. */
  class Timeval {
    var sec: int
    var usec: int

    constructor(sec: int, usec: int)
      ensures this.sec == sec && this.usec == usec
    {
      this.sec := sec;
      this.usec := usec;
    }

    function Value(): TV
      reads this
    {
      TV(sec, usec)
    }
  }

  /** The value of a timeval. */
  datatype TV = TV(sec: int, usec: int)

  function Micros(t: TV): int {
    t.sec * USEC + t.usec
  }

  predicate Normalised(t: TV) {
    0 <= t.usec < USEC
  }

  /** What the function leaves in *result and *y, and what it returns. */
  datatype Diff = Diff(result: TV, y: TV, neg: int)

  /** The first carry: x.usec < y.usec. */
  function Carry1(x: TV, y: TV): TV {
    if x.usec < y.usec then
      var nsec := (y.usec - x.usec) / USEC + 1;
      TV(y.sec + nsec, y.usec - USEC * nsec)
    else y
  }

  /** The second carry: more than a second of microseconds left over. */
  function Carry2(x: TV, y: TV): TV {
    if x.usec - y.usec > USEC then
      var nsec := (x.usec - y.usec) / USEC;
      TV(y.sec - nsec, y.usec + USEC * nsec)
    else y
  }

  /** The two carries applied to y, then the field-wise difference. Both
      divisions have a positive dividend, where C's and Dafny's `/` agree. */
  function Subtracted(x: TV, y: TV): Diff {
    var y2 := Carry2(x, Carry1(x, y));
    Diff(TV(x.sec - y2.sec, x.usec - y2.usec), y2, if x.sec < y2.sec then 1 else 0)
  }

  /** timeval_subtract(result, x, y). The three structs are distinct. */
  method Subtract(result: Timeval, x: Timeval, y: Timeval) returns (neg: int)
    requires result != x && result != y && x != y
    modifies result, y
    ensures result.Value() == Subtracted(x.Value(), old(y.Value())).result
    ensures y.Value() == Subtracted(x.Value(), old(y.Value())).y
    ensures neg == Subtracted(x.Value(), old(y.Value())).neg
    ensures x.Value() == old(x.Value())
  {
    if x.usec < y.usec {
      var nsec := (y.usec - x.usec) / 1000000 + 1;
      y.usec := y.usec - 1000000 * nsec;
      y.sec := y.sec + nsec;
    }
    if x.usec - y.usec > 1000000 {
      var nsec := (x.usec - y.usec) / 1000000;
      y.usec := y.usec + 1000000 * nsec;
      y.sec := y.sec - nsec;
    }
    result.sec := x.sec - y.sec;
    result.usec := x.usec - y.usec;
    neg := if x.sec < y.sec then 1 else 0;
  }

  /** The carries rewrite y without changing the time it stands for. */
  lemma SubtractKeepsY(x: TV, y: TV)
    ensures Micros(Subtracted(x, y).y) == Micros(y)
  {
    var y1 := Carry1(x, y);
    assert Micros(y1) == Micros(y) by {
      if x.usec < y.usec {
        var nsec := (y.usec - x.usec) / USEC + 1;
        assert Micros(y1) == (y.sec + nsec) * USEC + y.usec - USEC * nsec;
      }
    }
    var y2 := Carry2(x, y1);
    if x.usec - y1.usec > USEC {
      var nsec := (x.usec - y1.usec) / USEC;
      assert Micros(y2) == (y1.sec - nsec) * USEC + y1.usec + USEC * nsec;
    }
  }

  /** The result is x - y, in microseconds. */
  lemma SubtractExact(x: TV, y: TV)
    ensures Micros(Subtracted(x, y).result) == Micros(x) - Micros(y)
  {
    SubtractKeepsY(x, y);
    var d := Subtracted(x, y);
    assert Micros(d.result) == (x.sec - d.y.sec) * USEC + x.usec - d.y.usec;
  }

  /** With normalised inputs the result is normalised. */
  lemma SubtractNormalised(x: TV, y: TV)
    requires Normalised(x) && Normalised(y)
    ensures Normalised(Subtracted(x, y).result)
  {
    if x.usec < y.usec {
      assert (y.usec - x.usec) / USEC == 0;
    }
  }

  /** The return value is 1 exactly when the result's seconds are negative. */
  lemma SubtractSign(x: TV, y: TV)
    ensures Subtracted(x, y).neg == 1 <==> Subtracted(x, y).result.sec < 0
    ensures Subtracted(x, y).neg == 0 || Subtracted(x, y).neg == 1
  {
  }

  // ----- the wait until the next minute (per_minute_callback) -----

  /** The start of the minute after `sec`: `sec + (60 - sec % 60)` with C's
      remainder. */
  function NextMinute(sec: int): int {
    sec + (60 - CRem(sec, 60))
  }

  /** delta_ms: milliseconds from now to the next minute, plus one. */
  function MinuteDelayMs(sec: int, usec: int): int {
    var delta := Subtracted(TV(NextMinute(sec), 0), TV(sec, usec)).result;
    delta.sec * 1000 + CDiv(delta.usec, 1000) + 1
  }

  /** For a time after the epoch the timer is armed to fire at the next
      whole minute, at most a millisecond late, and never more than a
      minute and a millisecond ahead. */
  lemma MinuteDelayFires(sec: int, usec: int)
    requires sec >= 0 && 0 <= usec < USEC
    ensures NextMinute(sec) % 60 == 0 && sec < NextMinute(sec) <= sec + 60
    ensures var wait := NextMinute(sec) * USEC - (sec * USEC + usec);
      wait < MinuteDelayMs(sec, usec) * 1000 <= wait + 1000
    ensures 1 <= MinuteDelayMs(sec, usec) <= 60001
  {
    var next, now := TV(NextMinute(sec), 0), TV(sec, usec);
    SubtractExact(next, now);
    SubtractNormalised(next, now);
    var delta := Subtracted(next, now).result;
    var wait := Micros(next) - Micros(now);
    assert wait == delta.sec * USEC + delta.usec;
    var ms := delta.sec * 1000 + delta.usec / 1000;
    assert delta.usec / 1000 * 1000 <= delta.usec < delta.usec / 1000 * 1000 + 1000;
    assert ms * 1000 <= wait < ms * 1000 + 1000;
    assert 0 < wait <= 60 * USEC;
  }
}
