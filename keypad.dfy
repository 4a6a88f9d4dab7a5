/**
 * The debounced analog keypad (src/keypad.h, src/keypad.cpp).
 *
 * A resistor-ladder keypad is read through one analog pin. `read()` maps the
 * sample to a button code through a five-row threshold table, suppresses a
 * code until it has been steady for more than the debounce interval, and
 * grows a hold multiplier while one key stays pressed.
 *
 * The sample (`analogRead`) and the clock (`millis()`) are parameters here.
 */
module Keypad {

  /** The button codes of keypad.h, in the order of its enum. */
  datatype Button = Select | Left | Right | Up | Down | None

  /** The numeric value of each code in the C enum. */
  function Code(b: Button): (c: nat)
    ensures c <= 5
    ensures c == 5 <==> b == None
  {
    match b
    case Select => 0
    case Left => 1
    case Right => 2
    case Up => 3
    case Down => 4
    case None => 5
  }

  lemma CodeIsInjective(a: Button, b: Button)
    requires Code(a) == Code(b)
    ensures a == b
  {
  }

  /** `adc_key_val`: a sample below a row's threshold maps to that row's button. */
  const AdcKeyVal: seq<(int, Button)> :=
    [(800, Select), (600, Left), (400, Down), (200, Up), (50, Right)]

  lemma ThresholdsDecrease()
    ensures |AdcKeyVal| == 5
    ensures forall i, j :: 0 <= i < j < |AdcKeyVal| ==> AdcKeyVal[j].0 < AdcKeyVal[i].0
  {
  }

  /**
   * What the scan loop of `read()` holds after looking at the first `n` rows:
   * the button of the last row whose threshold is above the sample, or None.
   */
  function ScanPrefix(adc: int, n: nat): Button
    requires n <= |AdcKeyVal|
  {
    if n == 0 then None
    else if adc < AdcKeyVal[n - 1].0 then AdcKeyVal[n - 1].1
    else ScanPrefix(adc, n - 1)
  }

  /** The partition of the sample range that the table describes. */
  function ButtonOf(adc: int): Button
  {
    if adc >= 800 then None
    else if adc >= 600 then Select
    else if adc >= 400 then Left
    else if adc >= 200 then Down
    else if adc >= 50 then Up
    else Right
  }

  /** The full scan is the partition above. */
  lemma {:induction false} ScanIsPartition(adc: int)
    ensures ScanPrefix(adc, |AdcKeyVal|) == ButtonOf(adc)
  {
    assert ScanPrefix(adc, 1) == if adc < 800 then Select else None;
    assert ScanPrefix(adc, 2) == if adc < 600 then Left else ScanPrefix(adc, 1);
    assert ScanPrefix(adc, 3) == if adc < 400 then Down else ScanPrefix(adc, 2);
    assert ScanPrefix(adc, 4) == if adc < 200 then Up else ScanPrefix(adc, 3);
    assert ScanPrefix(adc, 5) == if adc < 50 then Right else ScanPrefix(adc, 4);
  }

  /**
   * Because the thresholds decrease down the table, the last matching row is
   * the row with the smallest threshold above the sample; no row matches
   * exactly when the sample is at or above every threshold.
   */
  lemma ButtonOfIsSmallestThresholdAbove(adc: int)
    ensures ButtonOf(adc) == None <==> forall i :: 0 <= i < |AdcKeyVal| ==> adc >= AdcKeyVal[i].0
    ensures ButtonOf(adc) != None ==>
      exists i :: 0 <= i < |AdcKeyVal| && adc < AdcKeyVal[i].0 && AdcKeyVal[i].1 == ButtonOf(adc) &&
        forall j :: 0 <= j < |AdcKeyVal| && adc < AdcKeyVal[j].0 ==> AdcKeyVal[i].0 <= AdcKeyVal[j].0
  {
    ThresholdsDecrease();
    if adc < 800 {
      var i := if adc < 50 then 4 else if adc < 200 then 3 else if adc < 400 then 2 else if adc < 600 then 1 else 0;
      assert adc < AdcKeyVal[i].0 && AdcKeyVal[i].1 == ButtonOf(adc);
      assert i < 4 ==> adc >= AdcKeyVal[i + 1].0;
    } else {
      assert adc >= AdcKeyVal[0].0;
    }
  }

  /** The scan loop of `read()`: the last row whose threshold exceeds the sample wins. */
  method MapAdc(adc: int) returns (b: Button)
    ensures b == ButtonOf(adc)
  {
    b := None;
    var i := 0;
    while i < 5
      invariant 0 <= i <= 5
      invariant b == ScanPrefix(adc, i)
    {
      if adc < AdcKeyVal[i].0 {
        b := AdcKeyVal[i].1;
      }
      i := i + 1;
    }
    ScanIsPartition(adc);
  }

  /** `m_debounce`: a steady code is accepted only after more than this many ms. */
  const Debounce: int := 120
  /** `millis()` is an `unsigned long`: 32 bits on the AVR. */
  const ClockModulus: int := 0x1_0000_0000
  const MaxMultiplier: int := 10000
  /** The default argument of `HoldMultiplier`: no cap. */
  const Uncapped: int := 0

  predicate IsTime(t: int) { 0 <= t < ClockModulus }

  /** `now - since` in unsigned 32-bit arithmetic. */
  function Elapsed(now: int, since: int): (d: int)
    requires IsTime(now) && IsTime(since)
    ensures 0 <= d < ClockModulus
    ensures since <= now ==> d == now - since
    ensures now < since ==> d == now - since + ClockModulus
  {
    (now - since) % ClockModulus
  }

  predicate IsMultiplier(m: int) { m == 1 || m == 10 || m == 100 || m == 1000 || m == 10000 }

  /** One ×10 step of the hold multiplier, which saturates at 10000. */
  function Grow(m: int): (r: int)
    ensures IsMultiplier(m) ==> IsMultiplier(r)
    ensures IsMultiplier(m) ==> m <= r <= MaxMultiplier && (r == m <==> m == MaxMultiplier)
  {
    if m < MaxMultiplier then m * 10 else m
  }

  /** `k` ×10 steps of the hold multiplier. */
  function GrowBy(m: int, k: nat): (r: int)
    ensures IsMultiplier(m) ==> IsMultiplier(r)
    decreases k
  {
    if k == 0 then m else GrowBy(Grow(m), k - 1)
  }

  /** Held long enough, the multiplier saturates at 10000 and stays there. */
  lemma {:induction false} GrowBySaturates(k: nat)
    requires k >= 4
    ensures GrowBy(1, k) == MaxMultiplier
  {
    assert GrowBy(1, k) == GrowBy(10, k - 1) == GrowBy(100, k - 2) == GrowBy(1000, k - 3) == GrowBy(10000, k - 4);
    GrowByFixed(k - 4);
  }

  lemma {:induction false} GrowByFixed(k: nat)
    ensures GrowBy(MaxMultiplier, k) == MaxMultiplier
  {
    if k > 0 {
      GrowByFixed(k - 1);
    }
  }

  /**
   * The persistent state of `read()`: its four `static` locals (plus whether
   * they have been initialised yet, since `lastTime` is initialised from
   * `millis()` on the first call) and the member `m_holdMultiplier`.
   */
  datatype KeyState = KeyState(
    started: bool,
    lastTime: int,
    held: int,
    oldBtn: Button,
    holdBtn: Button,
    multiplier: int)
  {
    predicate Valid()
    {
      IsTime(lastTime) && 0 <= held <= 9 && IsMultiplier(multiplier)
    }

    /** `KeyPad::HoldMultiplier(max)`: the multiplier, capped at `max` when `max > 0`. */
    function HoldMultiplier(max: int): (r: int)
      ensures max > 0 ==> r <= max && r <= multiplier && (r == max || r == multiplier)
      ensures max <= 0 ==> r == multiplier
    {
      if max > 0 && multiplier > max then max else multiplier
    }
  }

  /** The state right after the constructor `KeyPad::KeyPad`. */
  const Initial: KeyState := KeyState(false, 0, 0, None, None, 1)

  lemma InitialIsValid()
    ensures Initial.Valid() && Initial.HoldMultiplier(Uncapped) == 1
  {
  }

  /** One call of `read()` at time `now` with analog sample `adc`: the new state and the result. */
  function ReadStep(s: KeyState, adc: int, now: int): (r: (KeyState, Button))
    requires IsTime(now)
    requires s.started ==> IsTime(s.lastTime)
    ensures s.Valid() ==> r.0.Valid()
    ensures r.0.started && r.0.oldBtn == ButtonOf(adc)
    ensures r.1 == None || r.1 == ButtonOf(adc)
  {
    var last := if s.started then s.lastTime else now;
    var b := ButtonOf(adc);
    if b != s.oldBtn then
      (KeyState(true, now, 0, b, None, 1), None)
    else if Elapsed(now, last) > Debounce then
      if b == s.holdBtn && b != None then
        if s.held + 1 > 9 then
          (s.(started := true, lastTime := now, held := 0, multiplier := Grow(s.multiplier)), b)
        else
          (s.(started := true, lastTime := now, held := s.held + 1), b)
      else
        (s.(started := true, lastTime := now, holdBtn := b), b)
    else
      (s.(started := true, lastTime := last), None)
  }

  /** A changed code is a fresh press: the result is None and all tracking restarts. */
  lemma ChangedCodeRestarts(s: KeyState, adc: int, now: int)
    requires IsTime(now) && (s.started ==> IsTime(s.lastTime))
    requires ButtonOf(adc) != s.oldBtn
    ensures ReadStep(s, adc, now) == (KeyState(true, now, 0, ButtonOf(adc), None, 1), None)
  {
  }

  /** A steady code inside the debounce window yields None and changes nothing. */
  lemma InsideWindowChangesNothing(s: KeyState, adc: int, now: int)
    requires IsTime(now) && s.started && IsTime(s.lastTime)
    requires ButtonOf(adc) == s.oldBtn && Elapsed(now, s.lastTime) <= Debounce
    ensures ReadStep(s, adc, now) == (s, None)
  {
  }

  /** A steady code past the debounce window is reported and restarts the window. */
  lemma AcceptedReadReports(s: KeyState, adc: int, now: int)
    requires IsTime(now) && s.started && IsTime(s.lastTime)
    requires ButtonOf(adc) == s.oldBtn && Elapsed(now, s.lastTime) > Debounce
    ensures ReadStep(s, adc, now).1 == ButtonOf(adc) && ReadStep(s, adc, now).0.lastTime == now
  {
  }

  /** A None reading never advances the hold counter or the multiplier. */
  lemma NoneNeverGrows(s: KeyState, adc: int, now: int)
    requires IsTime(now) && s.Valid()
    requires ButtonOf(adc) == None
    ensures ReadStep(s, adc, now).0.held <= s.held
    ensures ReadStep(s, adc, now).0.multiplier <= s.multiplier
  {
  }

  /** One sample of a sequence of calls of `read()`. */
  datatype Sample = Sample(adc: int, now: int)

  predicate AllTimes(samples: seq<Sample>)
  {
    forall i :: 0 <= i < |samples| ==> IsTime(samples[i].now)
  }

  /** A sequence of calls of `read()`: the final state and every result. */
  function ReadAll(s: KeyState, samples: seq<Sample>): (r: (KeyState, seq<Button>))
    requires AllTimes(samples)
    requires s.started ==> IsTime(s.lastTime)
    ensures |r.1| == |samples|
    ensures samples != [] ==> r.0.started && IsTime(r.0.lastTime)
    decreases |samples|
  {
    if samples == [] then (s, [])
    else
      var step := ReadStep(s, samples[0].adc, samples[0].now);
      var rest := ReadAll(step.0, samples[1..]);
      (rest.0, [step.1] + rest.1)
  }

  /** Every sample maps to a different code than the one before it. */
  predicate ChangesEveryCall(prev: Button, samples: seq<Sample>)
    decreases |samples|
  {
    samples == [] ||
    (ButtonOf(samples[0].adc) != prev && ChangesEveryCall(ButtonOf(samples[0].adc), samples[1..]))
  }

  /** A code that changes on every call is never reported. */
  lemma {:induction false} ChangingCodeNeverReported(s: KeyState, samples: seq<Sample>)
    requires AllTimes(samples) && (s.started ==> IsTime(s.lastTime))
    requires ChangesEveryCall(s.oldBtn, samples)
    ensures forall i :: 0 <= i < |samples| ==> ReadAll(s, samples).1[i] == None
    decreases |samples|
  {
    if samples != [] {
      var step := ReadStep(s, samples[0].adc, samples[0].now);
      assert step.1 == None;
      assert AllTimes(samples[1..]);
      ChangingCodeNeverReported(step.0, samples[1..]);
      var rest := ReadAll(step.0, samples[1..]);
      assert ReadAll(s, samples).1 == [step.1] + rest.1;
    }
  }

  /**
   * Every sample maps to `code` and arrives more than the debounce interval
   * after the one before it (the first one after `last`).
   */
  predicate Accepted(last: int, code: Button, samples: seq<Sample>)
    requires IsTime(last) && AllTimes(samples)
    decreases |samples|
  {
    samples == [] ||
    (ButtonOf(samples[0].adc) == code && Elapsed(samples[0].now, last) > Debounce &&
     Accepted(samples[0].now, code, samples[1..]))
  }

  /**
   * While a non-None key stays held and every read is accepted, each read
   * reports it, and every tenth read multiplies the multiplier by ten (up to
   * 10000) and resets the hold counter.
   */
  lemma {:induction false} HeldKeyGrows(s: KeyState, code: Button, samples: seq<Sample>)
    requires s.Valid() && s.started && code != None && s.oldBtn == code && s.holdBtn == code
    requires AllTimes(samples) && Accepted(s.lastTime, code, samples)
    ensures ReadAll(s, samples).0.held == (s.held + |samples|) % 10
    ensures ReadAll(s, samples).0.multiplier == GrowBy(s.multiplier, (s.held + |samples|) / 10)
    ensures ReadAll(s, samples).0.holdBtn == code && ReadAll(s, samples).0.oldBtn == code
    ensures forall i :: 0 <= i < |samples| ==> ReadAll(s, samples).1[i] == code
    decreases |samples|
  {
    if samples != [] {
      var step := ReadStep(s, samples[0].adc, samples[0].now);
      assert step.1 == code && step.0.lastTime == samples[0].now;
      assert AllTimes(samples[1..]);
      HeldKeyGrows(step.0, code, samples[1..]);
      var rest := ReadAll(step.0, samples[1..]);
      assert ReadAll(s, samples).1 == [step.1] + rest.1;
      if s.held == 9 {
        assert step.0.held == 0 && step.0.multiplier == Grow(s.multiplier);
        assert (s.held + |samples|) / 10 == 1 + (|samples| - 1) / 10;
      } else {
        assert step.0.held == s.held + 1 && step.0.multiplier == s.multiplier;
      }
    }
  }

  /**
   * The first accepted read of a new key: it is reported, becomes the held
   * key, and the hold counter and the multiplier stay at their restarted
   * values 0 and 1.
   */
  lemma FirstAcceptedReadHolds(s: KeyState, adc: int, t0: int, t1: int)
    requires IsTime(t0) && IsTime(t1) && (s.started ==> IsTime(s.lastTime))
    requires ButtonOf(adc) != s.oldBtn && ButtonOf(adc) != None && Elapsed(t1, t0) > Debounce
    ensures var first := ReadStep(s, adc, t0); var second := ReadStep(first.0, adc, t1);
      first.1 == None && second.1 == ButtonOf(adc) &&
      second.0 == KeyState(true, t1, 0, ButtonOf(adc), ButtonOf(adc), 1) && second.0.Valid()
  {
  }

  /**
   * A key press from any state: the read that sees the new code reports
   * None, and when the key then stays down with every read accepted, each of
   * those reads reports it; after the first of them, every ten further reads
   * multiply the multiplier by ten, up to 10000.
   */
  lemma {:induction false} PressThenHold(s: KeyState, code: Button, press: Sample, samples: seq<Sample>)
    requires IsTime(press.now) && (s.started ==> IsTime(s.lastTime))
    requires ButtonOf(press.adc) == code && code != s.oldBtn && code != None
    requires AllTimes(samples) && Accepted(press.now, code, samples) && samples != []
    ensures AllTimes([press] + samples)
    ensures ReadAll(s, [press] + samples).1[0] == None
    ensures forall i :: 1 <= i <= |samples| ==> ReadAll(s, [press] + samples).1[i] == code
    ensures ReadAll(s, [press] + samples).0.held == (|samples| - 1) % 10
    ensures ReadAll(s, [press] + samples).0.multiplier == GrowBy(1, (|samples| - 1) / 10)
  {
    var all := [press] + samples;
    assert all[0] == press && all[1..] == samples;
    var first := ReadStep(s, press.adc, press.now);
    FirstAcceptedReadHolds(s, press.adc, press.now, samples[0].now);
    var second := ReadStep(first.0, samples[0].adc, samples[0].now);
    assert AllTimes(samples[1..]);
    HeldKeyGrows(second.0, code, samples[1..]);
    var rest := ReadAll(second.0, samples[1..]);
    assert ReadAll(first.0, samples).1 == [second.1] + rest.1;
    assert ReadAll(s, all).1 == [first.1] + ReadAll(first.0, samples).1;
  }

  /**
   * The keypad object. The `static` locals of `read()` are fields here, and
   * `millis()` and `analogRead()` are parameters of `Read`.
   */
  class KeyPad {
    var started: bool
    var lastTime: int
    var held: int
    var oldBtn: Button
    var holdBtn: Button
    var holdMultiplier: int

    function State(): KeyState
      reads this
    {
      KeyState(started, lastTime, held, oldBtn, holdBtn, holdMultiplier)
    }

    /** `KeyPad::KeyPad`: the multiplier starts at 1; the statics are not yet initialised. */
    constructor ()
      ensures State() == Initial
    {
      started := false;
      lastTime := 0;
      held := 0;
      oldBtn := None;
      holdBtn := None;
      holdMultiplier := 1;
    }

    /** `KeyPad::read()`. */
    method Read(adc: int, now: int) returns (b: Button)
      requires IsTime(now) && (started ==> IsTime(lastTime))
      modifies this
      ensures (State(), b) == ReadStep(old(State()), adc, now)
    {
      if !started {
        started := true;
        lastTime := now;
      }
      var newBtn := MapAdc(adc);
      if newBtn != oldBtn {
        oldBtn := newBtn;
        holdBtn := None;
        lastTime := now;
        held := 0;
        holdMultiplier := 1;
        return None;
      }
      if Elapsed(now, lastTime) > Debounce {
        lastTime := now;
      } else {
        return None;
      }
      if newBtn == holdBtn && newBtn != None {
        held := held + 1;
        if held > 9 {
          if holdMultiplier < MaxMultiplier {
            holdMultiplier := holdMultiplier * 10;
          }
          held := 0;
        }
      } else {
        holdBtn := newBtn;
      }
      return newBtn;
    }
  }
}
