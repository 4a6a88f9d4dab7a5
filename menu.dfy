/**
 * The menu and run state machine: the `switch (state)` of `loop()` and
 * `stateVal()` (src/main.cpp:26-34, 60-62, 77-97, 315-554), as a function
 * from the machine's state, one debounced key and the elapsed time to the
 * next state. The class `Firmware.Controller` is proved against `Step`.
 */
module Menu {
  import opened Keypad
  import opened ProgramImage
  import opened ProgramStore

  /** The 19 menu states, in the order of the enum in main.cpp. */
  datatype MenuState =
    | SelectPrg | SelectRun | SelectEdit
    | RunCountdown | RunPreStart | Running
    | SelectRewind | SelectReturn
    | Rewind | Return
    | EditType | EditSteps | EditSpeed | EditPreStart
    | EditLength | EditRadius | EditCircumference
    | EditSaveNo | EditSaveYes

  const StateCount: nat := 19

  /** The numeric value of a state in the C enum. */
  function Ordinal(s: MenuState): (n: nat)
    ensures n < StateCount
  {
    match s
    case SelectPrg => 0
    case SelectRun => 1
    case SelectEdit => 2
    case RunCountdown => 3
    case RunPreStart => 4
    case Running => 5
    case SelectRewind => 6
    case SelectReturn => 7
    case Rewind => 8
    case Return => 9
    case EditType => 10
    case EditSteps => 11
    case EditSpeed => 12
    case EditPreStart => 13
    case EditLength => 14
    case EditRadius => 15
    case EditCircumference => 16
    case EditSaveNo => 17
    case EditSaveYes => 18
  }

  function FromOrdinal(n: nat): (s: MenuState)
    requires n < StateCount
    ensures Ordinal(s) == n
  {
    if n == 0 then SelectPrg else if n == 1 then SelectRun else if n == 2 then SelectEdit
    else if n == 3 then RunCountdown else if n == 4 then RunPreStart else if n == 5 then Running
    else if n == 6 then SelectRewind else if n == 7 then SelectReturn
    else if n == 8 then Rewind else if n == 9 then Return
    else if n == 10 then EditType else if n == 11 then EditSteps else if n == 12 then EditSpeed
    else if n == 13 then EditPreStart else if n == 14 then EditLength else if n == 15 then EditRadius
    else if n == 16 then EditCircumference else if n == 17 then EditSaveNo else EditSaveYes
  }

  lemma OrdinalRoundTrip(s: MenuState)
    ensures FromOrdinal(Ordinal(s)) == s
  {
  }

  /** `state++`. */
  function NextState(s: MenuState): (r: MenuState)
    requires Ordinal(s) + 1 < StateCount
    ensures Ordinal(r) == Ordinal(s) + 1
  {
    FromOrdinal(Ordinal(s) + 1)
  }

  /** `state--`. */
  function PrevState(s: MenuState): (r: MenuState)
    requires Ordinal(s) > 0
    ensures Ordinal(r) == Ordinal(s) - 1
  {
    FromOrdinal(Ordinal(s) - 1)
  }

  /** The six states that edit one value of the record. */
  predicate IsFieldState(s: MenuState)
  {
    s == EditSteps || s == EditSpeed || s == EditPreStart ||
    s == EditLength || s == EditRadius || s == EditCircumference
  }

  /** `stateVal()`: the value a field state edits; 254 for every other state. */
  function StateVal(s: MenuState): (r: nat)
    ensures r < ValueCount <==> IsFieldState(s)
    ensures r < ValueCount || r == 254
  {
    match s
    case EditSteps => ValSteps
    case EditSpeed => ValSpeed
    case EditPreStart => ValPreStart
    case EditLength => ValLength
    case EditRadius => ValRadius
    case EditCircumference => ValCircumference
    case _ => 254
  }

  /** Length and radius share one value; the other field states have values of their own. */
  lemma StateValSharing(s: MenuState, t: MenuState)
    requires IsFieldState(s) && IsFieldState(t) && s != t
    ensures StateVal(s) == StateVal(t) <==> {s, t} == {EditLength, EditRadius}
  {
  }

  /**
   * The globals `loop()` works on: `state`, `curPrg`, `countdown`, the relay
   * output, the active record `Program`, the EEPROM contents, and how many
   * times `startLinear()` has been called.
   */
  datatype Machine = Machine(
    state: MenuState,
    curPrg: int,
    countdown: int,
    relay: bool,
    image: seq<byte>,
    mem: seq<byte>,
    linearStarts: nat)
  {
    predicate Valid()
    {
      1 <= curPrg <= MaxPrgs && |image| == RecordSize && |mem| == StorageSize
    }
  }

  /** The globals before the first tick: `setup()` never loads a program, so the record is the zero-filled global. */
  function Initial(mem: seq<byte>): (m: Machine)
    requires |mem| == StorageSize
    ensures m.Valid() && m.state == SelectPrg && m.curPrg == 1
    ensures m.image == Blank && m.image[0] == TypeEmpty && forall k :: 0 <= k < ValueCount ==> ValueAt(m.image, k) == 0
    ensures m.countdown == 0 && !m.relay && m.mem == mem && m.linearStarts == 0
  {
    BlankIsEmpty();
    Machine(SelectPrg, 1, 0, false, Blank, mem, 0)
  }

  /** The countdown armed on Select in the run menu. */
  const CountdownMs: int := 5500
  /** `KEY.HoldMultiplier(10)`: the cap on the slot step. */
  const SlotStepCap: int := 10

  /** The next slot on Up: an overshoot resets to slot 1. */
  function SlotUp(cur: int, step: int): (r: int)
    requires 1 <= cur <= MaxPrgs && 1 <= step
    ensures 1 <= r <= MaxPrgs
    ensures r == cur + step || (r == 1 && cur + step > MaxPrgs)
  {
    if cur + step > MaxPrgs then 1 else cur + step
  }

  /** The next slot on Down: an overshoot resets to the last slot. */
  function SlotDown(cur: int, step: int): (r: int)
    requires 1 <= cur <= MaxPrgs && 1 <= step
    ensures 1 <= r <= MaxPrgs
    ensures r == cur - step || (r == MaxPrgs && cur - step < 1)
  {
    if cur - step < 1 then MaxPrgs else cur - step
  }

  /** `MNU_SELECT_PRG`: Up/Down move to another slot and load it; Right enters the slot. */
  function SelectPrgKey(m: Machine, key: Button, step: int): Machine
    requires m.Valid() && 1 <= step
  {
    match key
    case Up =>
      var c := SlotUp(m.curPrg, step);
      m.(curPrg := c, image := Stored(m.mem, c))
    case Down =>
      var c := SlotDown(m.curPrg, step);
      m.(curPrg := c, image := Stored(m.mem, c))
    case Right => m.(state := if m.image[0] == TypeEmpty then SelectEdit else SelectRun)
    case _ => m
  }

  /** `MNU_SELECT_RUN`. */
  function SelectRunKey(m: Machine, key: Button): Machine
  {
    match key
    case Left => m.(state := SelectPrg)
    case Right => m.(state := SelectEdit)
    case Select => m.(state := RunCountdown, countdown := CountdownMs)
    case _ => m
  }

  /** `MNU_SELECT_EDIT`. */
  function SelectEditKey(m: Machine, key: Button): Machine
    requires m.Valid()
  {
    match key
    case Left => m.(state := if m.image[0] == TypeEmpty then SelectPrg else SelectRun)
    case Select => m.(state := EditType)
    case _ => m
  }

  /**
   * `MNU_RUN_COUNTDOWN`: once the countdown is below 1, switch the relay on and
   * arm the pre-start countdown from the pre-start value, converted to `int`
   * as it stands (no conversion from seconds).
   */
  function CountdownTick(m: Machine): Machine
    requires m.Valid()
  {
    if m.countdown < 1 then
      m.(relay := true, state := RunPreStart, countdown := Truncate(ValueAt(m.image, ValPreStart)))
    else m
  }

  /**
   * `MNU_RUN_PRE_START`: once the countdown is below 1, start a Linear or Rotary
   * run and switch the relay off; any other type stays in the pre-start state.
   */
  function PreStartTick(m: Machine): Machine
    requires m.Valid()
  {
    if m.countdown < 1 then
      var started :=
        if m.image[0] == TypeLinear then m.(state := Running, linearStarts := m.linearStarts + 1)
        else if m.image[0] == TypeRotary then m.(state := Running)
        else m;
      started.(relay := false)
    else m
  }

  /** `MNU_RUNNING`: any key aborts. */
  function RunningKey(m: Machine, key: Button): Machine
  {
    if key != None then m.(state := SelectRewind) else m
  }

  /** `MNU_SELECT_REWIND`. */
  function SelectRewindKey(m: Machine, key: Button): Machine
  {
    match key
    case Right => m.(state := SelectReturn)
    case Select => m.(state := Rewind)
    case _ => m
  }

  /** `MNU_SELECT_RETURN`. */
  function SelectReturnKey(m: Machine, key: Button): Machine
  {
    match key
    case Left => m.(state := SelectRewind)
    case Select => m.(state := Return)
    case _ => m
  }

  /** `Program.P.type++` with its wrap from `PRG_LAST` to `PRG_EMPTY` (the byte itself wraps at 256). */
  function TypeUp(t: byte): byte
  {
    var u := (t as int + 1) % 256;
    if u == TypeLast as int then TypeEmpty else u as byte
  }

  /** `Program.P.type--`, from `PRG_EMPTY` wrapping to the last real type. */
  function TypeDown(t: byte): byte
  {
    ((if t == TypeEmpty then TypeLast else t) as int - 1) as byte
  }

  predicate IsProgramType(t: byte) { t == TypeEmpty || t == TypeLinear || t == TypeRotary }

  /** Up and Down cycle through the three program types and undo each other. */
  lemma TypeCycle(t: byte)
    requires IsProgramType(t)
    ensures IsProgramType(TypeUp(t)) && IsProgramType(TypeDown(t))
    ensures TypeDown(TypeUp(t)) == t && TypeUp(TypeDown(t)) == t
    ensures TypeUp(TypeUp(TypeUp(t))) == t
  {
  }

  /** `MNU_EDIT_TYPE`. */
  function EditTypeKey(m: Machine, key: Button): Machine
    requires m.Valid()
  {
    match key
    case Up => m.(image := m.image[0 := TypeUp(m.image[0])])
    case Down => m.(image := m.image[0 := TypeDown(m.image[0])])
    case Right => if m.image[0] != TypeEmpty then m.(state := NextState(EditType)) else m
    case Select => if m.image[0] != TypeEmpty then m.(state := NextState(EditType)) else m
    case Left => m.(state := EditSaveNo)
    case None => m
  }

  /** The key part of the field-edit case: type-aware navigation, or a step of the value. */
  function FieldMove(m: Machine, key: Button, mult: int): (r: Machine)
    requires m.Valid() && IsFieldState(m.state)
    ensures r.Valid() && r == m.(state := r.state, image := r.image)
  {
    var s := m.state;
    var t := m.image[0];
    var k := StateVal(s);
    match key
    case Right =>
      m.(state :=
        if t == TypeRotary && s == EditPreStart then EditRadius
        else if t == TypeLinear && s == EditLength then EditSaveNo
        else NextState(s))
    case Left =>
      m.(state := if t == TypeRotary && s == EditRadius then EditPreStart else PrevState(s))
    // The += and the clamp that follows it act on the same value; the sum is
    // clamped at once so that it always fits the 32-bit stand-in.
    case Up => m.(image := WithValue(m.image, k, Clamp(ValueAt(m.image, k) + mult)))
    case Down => m.(image := WithValue(m.image, k, Clamp(ValueAt(m.image, k) - mult)))
    case _ => m
  }

  /**
   * The clamp after the field-edit switch, on the value of the state reached.
   * It is guarded by `stateVal() < 5`: the source indexes `values[254]` when
   * the switch has left the field states.
   */
  function ClampField(m: Machine): (r: Machine)
    requires m.Valid()
    ensures r.Valid() && r == m.(image := r.image) && r.image[0] == m.image[0]
    ensures IsFieldState(m.state) ==> ValueAt(r.image, StateVal(m.state)) == Clamp(ValueAt(m.image, StateVal(m.state)))
    ensures IsFieldState(m.state) ==> 0 <= ValueAt(r.image, StateVal(m.state)) < ValueLimit
    ensures forall j :: 0 <= j < ValueCount && j != StateVal(m.state) ==> ValueAt(r.image, j) == ValueAt(m.image, j)
    ensures !IsFieldState(m.state) ==> r == m
  {
    if IsFieldState(m.state) then
      var k := StateVal(m.state);
      var v := ValueAt(m.image, k);
      if v < 0 then
        var img := WithValue(m.image, k, ValueMax);
        OtherFieldsAgree(img, m.image, k);
        m.(image := img)
      else if v >= ValueLimit then
        var img := WithValue(m.image, k, 0);
        OtherFieldsAgree(img, m.image, k);
        m.(image := img)
      else m
    else m
  }

  /** `MNU_EDIT_STEPS` ... `MNU_EDIT_CIRCUMFERENCE`. */
  function FieldKey(m: Machine, key: Button, mult: int): Machine
    requires m.Valid() && IsFieldState(m.state)
  {
    ClampField(FieldMove(m, key, mult))
  }

  /** `MNU_EDIT_SAVE_NO`: Select drops the edits by reloading the slot. */
  function SaveNoKey(m: Machine, key: Button): Machine
    requires m.Valid()
  {
    match key
    case Right => m.(state := EditSaveYes)
    case Select => m.(image := Stored(m.mem, m.curPrg), state := SelectPrg)
    case _ => m
  }

  /** `MNU_EDIT_SAVE_YES`: Select saves the record into its slot. */
  function SaveYesKey(m: Machine, key: Button): Machine
    requires m.Valid()
  {
    match key
    case Left => m.(state := EditSaveNo)
    case Select => m.(mem := Saved(m.mem, m.curPrg, m.image), state := SelectPrg)
    case _ => m
  }

  /**
   * One pass of `loop()` after the key has been read: the countdown drops by
   * the elapsed time in every state, then the current state handles the key.
   * `pad` is the keypad after the read, for `HoldMultiplier`.
   */
  function Step(m: Machine, key: Button, elapsed: int, pad: KeyState): (r: Machine)
    requires m.Valid() && pad.Valid()
    ensures r.Valid()
  {
    Handle(m.(countdown := m.countdown - elapsed), key, pad)
  }

  /** The `switch (state)` of `loop()`. */
  function Handle(m: Machine, key: Button, pad: KeyState): (r: Machine)
    requires m.Valid() && pad.Valid()
    ensures r.Valid()
  {
    match m.state
    case SelectPrg => SelectPrgKey(m, key, pad.HoldMultiplier(SlotStepCap))
    case RunCountdown => CountdownTick(m)
    case RunPreStart => PreStartTick(m)
    case EditType => EditTypeKey(m, key)
    case EditSaveNo => SaveNoKey(m, key)
    case EditSaveYes => SaveYesKey(m, key)
    case EditSteps => FieldKey(m, key, pad.HoldMultiplier(Uncapped))
    case EditSpeed => FieldKey(m, key, pad.HoldMultiplier(Uncapped))
    case EditPreStart => FieldKey(m, key, pad.HoldMultiplier(Uncapped))
    case EditLength => FieldKey(m, key, pad.HoldMultiplier(Uncapped))
    case EditRadius => FieldKey(m, key, pad.HoldMultiplier(Uncapped))
    case EditCircumference => FieldKey(m, key, pad.HoldMultiplier(Uncapped))
    case _ => MoveKey(m, key)
  }

  /** The states whose case only moves to another state. */
  predicate IsMoveState(s: MenuState)
  {
    s == SelectRun || s == SelectEdit || s == Running || s == SelectRewind ||
    s == SelectReturn || s == Rewind || s == Return
  }

  /** The cases of the switch that change nothing but the state. */
  function MoveKey(m: Machine, key: Button): (r: Machine)
    requires m.Valid()
  {
    match m.state
    case SelectRun => SelectRunKey(m, key)
    case SelectEdit => SelectEditKey(m, key)
    case Running => RunningKey(m, key)
    case SelectRewind => SelectRewindKey(m, key)
    case SelectReturn => SelectReturnKey(m, key)
    case Rewind => m.(state := SelectRun)
    case Return => m.(state := SelectRun)
    case _ => m
  }

  // ---------------------------------------------------------------------------
  // Properties of one tick

  /**
   * Slot navigation: Up/Down move by the multiplier capped at 10, an
   * overshoot resets to the other end rather than wrapping modulo the slot
   * count, and the slot reached is loaded.
   */
  lemma SlotNavigation(m: Machine, key: Button, elapsed: int, pad: KeyState)
    requires m.Valid() && pad.Valid() && m.state == SelectPrg && (key == Up || key == Down)
    ensures var r := Step(m, key, elapsed, pad);
      var step := pad.HoldMultiplier(SlotStepCap);
      1 <= step <= SlotStepCap && 1 <= r.curPrg <= MaxPrgs &&
      r.image == Stored(m.mem, r.curPrg) && r.state == SelectPrg && r.mem == m.mem &&
      (key == Up ==> r.curPrg == if m.curPrg + step > MaxPrgs then 1 else m.curPrg + step) &&
      (key == Down ==> r.curPrg == if m.curPrg - step < 1 then MaxPrgs else m.curPrg - step)
  {
  }

  /** From the last slot Up goes to slot 1; from slot 1 Down goes to the last slot. */
  lemma SlotEnds(m: Machine, elapsed: int, pad: KeyState)
    requires m.Valid() && pad.Valid() && m.state == SelectPrg
    ensures m.curPrg == MaxPrgs ==> Step(m, Up, elapsed, pad).curPrg == 1
    ensures m.curPrg == 1 ==> Step(m, Down, elapsed, pad).curPrg == MaxPrgs
  {
  }

  /** In the type editor Right/Select advance to the first field exactly when the type is not Empty. */
  lemma EditTypeAdvance(m: Machine, key: Button, elapsed: int, pad: KeyState)
    requires m.Valid() && pad.Valid() && m.state == EditType && (key == Right || key == Select)
    ensures var r := Step(m, key, elapsed, pad);
      (r.state == EditSteps <==> m.image[0] != TypeEmpty) &&
      (r.state == EditType <==> m.image[0] == TypeEmpty) && r.image == m.image
  {
  }

  /** In the type editor Up/Down change only the type, and keep a program type a program type. */
  lemma EditTypeCycles(m: Machine, key: Button, elapsed: int, pad: KeyState)
    requires m.Valid() && pad.Valid() && m.state == EditType && (key == Up || key == Down)
    ensures var r := Step(m, key, elapsed, pad);
      r.state == EditType && r.image[1..] == m.image[1..] &&
      (IsProgramType(m.image[0]) ==> IsProgramType(r.image[0])) &&
      (key == Up ==> r.image[0] == TypeUp(m.image[0])) &&
      (key == Down ==> r.image[0] == TypeDown(m.image[0]))
  {
    var r := Step(m, key, elapsed, pad);
    assert r.image[1..] == m.image[1..];
    if IsProgramType(m.image[0]) {
      TypeCycle(m.image[0]);
    }
  }

  /**
   * Field edits: Up/Down move the edited value by the uncapped multiplier (in
   * hundredths) and wrap it into [0, 10000.00); the type, the other values
   * and the state stay as they were.
   */
  lemma FieldEdit(m: Machine, key: Button, elapsed: int, pad: KeyState, j: nat)
    requires m.Valid() && pad.Valid() && IsFieldState(m.state) && (key == Up || key == Down)
    requires j < ValueCount && j != StateVal(m.state)
    ensures var r := Step(m, key, elapsed, pad);
      var k := StateVal(m.state);
      var v := ValueAt(m.image, k);
      var mult := pad.HoldMultiplier(Uncapped);
      r.state == m.state && r.image[0] == m.image[0] && r.mem == m.mem &&
      0 <= ValueAt(r.image, k) < ValueLimit &&
      ValueAt(r.image, k) == (if key == Up then Clamp(v + mult) else Clamp(v - mult)) &&
      ValueAt(r.image, j) == ValueAt(m.image, j)
  {
    var k := StateVal(m.state);
    var n := m.(countdown := m.countdown - elapsed);
    var moved := FieldMove(n, key, pad.HoldMultiplier(Uncapped));
    WithValueFrame(n.image, k, ValueAt(moved.image, k), j);
    assert ClampField(moved) == moved;
  }

  /** Right in the slot menu enters the run menu exactly for a non-Empty record, the edit menu otherwise. */
  lemma EnterSlot(m: Machine, elapsed: int, pad: KeyState)
    requires m.Valid() && pad.Valid() && m.state == SelectPrg
    ensures var r := Step(m, Right, elapsed, pad);
      (r.state == SelectRun <==> m.image[0] != TypeEmpty) &&
      (r.state == SelectEdit <==> m.image[0] == TypeEmpty) &&
      r.image == m.image && r.curPrg == m.curPrg
  {
  }

  /** A run can only be started from the run menu by Select, which arms the 5.5 s countdown. */
  lemma RunOnlyFromSelectRun(m: Machine, key: Button, elapsed: int, pad: KeyState)
    requires m.Valid() && pad.Valid() && m.state != RunCountdown
    ensures var r := Step(m, key, elapsed, pad);
      r.state == RunCountdown <==> m.state == SelectRun && key == Select
    ensures var r := Step(m, key, elapsed, pad);
      r.state == RunCountdown ==> r.countdown == CountdownMs && r.image == m.image
  {
    if IsFieldState(m.state) {
      var n := m.(countdown := m.countdown - elapsed);
      var moved := FieldMove(n, key, pad.HoldMultiplier(Uncapped));
      assert Ordinal(moved.state) >= Ordinal(EditType);
    }
  }

  /**
   * The countdown before a run ignores the keys: once it is below 1 the relay
   * goes on and the pre-start countdown is armed with the pre-start value,
   * taken as milliseconds; before that only the countdown moves.
   */
  lemma CountdownPhase(m: Machine, key: Button, elapsed: int, pad: KeyState)
    requires m.Valid() && pad.Valid() && m.state == RunCountdown
    ensures var r := Step(m, key, elapsed, pad);
      if m.countdown - elapsed < 1 then
        r == m.(state := RunPreStart, relay := true, countdown := Truncate(ValueAt(m.image, ValPreStart)))
      else
        r == m.(countdown := m.countdown - elapsed)
  {
  }

  /**
   * The pre-start countdown: once it is below 1 the relay goes off, and a
   * Linear or Rotary record starts running (a Linear one calls `startLinear`);
   * a record of any other type stays in the pre-start state.
   */
  lemma PreStartPhase(m: Machine, key: Button, elapsed: int, pad: KeyState)
    requires m.Valid() && pad.Valid() && m.state == RunPreStart
    ensures var r := Step(m, key, elapsed, pad);
      r.countdown == m.countdown - elapsed && r.image == m.image && r.mem == m.mem &&
      (r.relay == m.relay <==> m.countdown - elapsed >= 1 || !m.relay) &&
      (m.countdown - elapsed < 1 ==> !r.relay) &&
      (r.state == Running <==> m.countdown - elapsed < 1 && (m.image[0] == TypeLinear || m.image[0] == TypeRotary)) &&
      (r.state != Running ==> r.state == RunPreStart) &&
      r.linearStarts == m.linearStarts + (if m.countdown - elapsed < 1 && m.image[0] == TypeLinear then 1 else 0)
  {
  }

  /** A run is left only on a key press; nothing else ends it. */
  lemma RunningPhase(m: Machine, key: Button, elapsed: int, pad: KeyState)
    requires m.Valid() && pad.Valid() && m.state == Running
    ensures var r := Step(m, key, elapsed, pad);
      (r.state == SelectRewind <==> key != None) && (r.state == Running <==> key == None) &&
      r == m.(countdown := m.countdown - elapsed, state := r.state)
  {
  }

  /** Rewind and Return last a single pass and go back to the run menu whatever the key. */
  lemma RewindReturnPhase(m: Machine, key: Button, elapsed: int, pad: KeyState)
    requires m.Valid() && pad.Valid() && (m.state == Rewind || m.state == Return)
    ensures Step(m, key, elapsed, pad) == m.(countdown := m.countdown - elapsed, state := SelectRun)
  {
  }

  /**
   * The relay changes only at the two run boundaries: it is switched on when
   * the countdown ends and off when the pre-start countdown ends.
   */
  lemma RelayChangesOnlyAtRunBoundaries(m: Machine, key: Button, elapsed: int, pad: KeyState)
    requires m.Valid() && pad.Valid()
    ensures var r := Step(m, key, elapsed, pad);
      r.relay != m.relay ==>
        (m.state == RunCountdown && r.state == RunPreStart && r.relay) ||
        (m.state == RunPreStart && !r.relay)
    ensures var r := Step(m, key, elapsed, pad);
      m.state == RunCountdown && r.state == RunPreStart ==> r.relay
  {
  }

  /**
   * The EEPROM changes only when Select is pressed on "save: yes"; the save
   * stores the record in the current slot, where loading finds it again, and
   * leaves every other slot as it was.
   */
  lemma StorageChangesOnlyOnSave(m: Machine, key: Button, elapsed: int, pad: KeyState)
    requires m.Valid() && pad.Valid()
    ensures var r := Step(m, key, elapsed, pad);
      r.mem != m.mem ==> m.state == EditSaveYes && key == Select
    ensures var r := Step(m, key, elapsed, pad);
      m.state == EditSaveYes && key == Select ==>
        r.mem == Saved(m.mem, m.curPrg, m.image) && Stored(r.mem, r.curPrg) == r.image &&
        r.state == SelectPrg &&
        forall other :: 1 <= other <= MaxPrgs && other != m.curPrg ==> Stored(r.mem, other) == Stored(m.mem, other)
  {
    var r := Step(m, key, elapsed, pad);
    if m.state == EditSaveYes && key == Select {
      SaveLoadRoundTrip(m.mem, m.curPrg, m.image);
      forall other | 1 <= other <= MaxPrgs && other != m.curPrg
        ensures Stored(r.mem, other) == Stored(m.mem, other)
      {
        SaveKeepsOtherSlots(m.mem, m.curPrg, m.image, other);
      }
    }
  }

  /** Select on "save: no" drops the edits: the record is reloaded from its slot. */
  lemma SaveNoReverts(m: Machine, elapsed: int, pad: KeyState)
    requires m.Valid() && pad.Valid() && m.state == EditSaveNo
    ensures var r := Step(m, Select, elapsed, pad);
      r.image == Stored(m.mem, m.curPrg) && r.mem == m.mem && r.state == SelectPrg && r.curPrg == m.curPrg
  {
  }

  /**
   * With no key the menus wait: only the countdown moves, except that a field
   * state still wraps an out-of-range value of the record into range.
   */
  lemma NoKeyIsIdle(m: Machine, elapsed: int, pad: KeyState)
    requires m.Valid() && pad.Valid()
    requires m.state !in {RunCountdown, RunPreStart, Rewind, Return}
    ensures var r := Step(m, None, elapsed, pad);
      !IsFieldState(m.state) ==> r == m.(countdown := m.countdown - elapsed)
    ensures var r := Step(m, None, elapsed, pad);
      IsFieldState(m.state) ==>
        r.state == m.state && r.mem == m.mem && 0 <= ValueAt(r.image, StateVal(m.state)) < ValueLimit &&
        (0 <= ValueAt(m.image, StateVal(m.state)) < ValueLimit ==> r == m.(countdown := m.countdown - elapsed))
  {
  }

  /** The states a Linear record visits while its fields are edited. */
  predicate OnLinearPath(s: MenuState)
  {
    s == EditType || s == EditSteps || s == EditSpeed || s == EditPreStart || s == EditLength || s == EditSaveNo
  }

  /** The states a Rotary record visits while its fields are edited. */
  predicate OnRotaryPath(s: MenuState)
  {
    s == EditType || s == EditSteps || s == EditSpeed || s == EditPreStart ||
    s == EditRadius || s == EditCircumference || s == EditSaveNo
  }

  /**
   * Field navigation is type-aware: from its own fields a Linear record never
   * reaches the radius or the circumference, and a Rotary record never
   * reaches the length.
   */
  lemma FieldNavigationFollowsType(m: Machine, key: Button, elapsed: int, pad: KeyState)
    requires m.Valid() && pad.Valid() && IsFieldState(m.state) && (key == Left || key == Right)
    ensures var r := Step(m, key, elapsed, pad);
      (m.image[0] == TypeLinear && OnLinearPath(m.state) ==> OnLinearPath(r.state)) &&
      (m.image[0] == TypeRotary && OnRotaryPath(m.state) ==> OnRotaryPath(r.state))
    ensures var r := Step(m, key, elapsed, pad);
      m.image[0] == TypeRotary && m.state == EditPreStart && key == Right ==> r.state == EditRadius
    ensures var r := Step(m, key, elapsed, pad);
      m.image[0] == TypeLinear && m.state == EditLength && key == Right ==> r.state == EditSaveNo
    ensures var r := Step(m, key, elapsed, pad);
      m.image[0] == TypeRotary && m.state == EditRadius && key == Left ==> r.state == EditPreStart
    ensures var r := Step(m, key, elapsed, pad);
      (key == Right && !(m.image[0] == TypeRotary && m.state == EditPreStart) &&
       !(m.image[0] == TypeLinear && m.state == EditLength)) ==> r.state == NextState(m.state)
    ensures var r := Step(m, key, elapsed, pad);
      key == Left && !(m.image[0] == TypeRotary && m.state == EditRadius) ==> r.state == PrevState(m.state)
  {
  }

  // ---------------------------------------------------------------------------
  // The clamp after the field-edit switch

  /**
   * The index the clamp of the field-edit case uses, as the code is written:
   * `stateVal()` of the state the switch has just moved to.
   */
  function ClampIndexAsWritten(m: Machine, key: Button, mult: int): (k: nat)
    requires m.Valid() && IsFieldState(m.state)
    ensures k < ValueCount || k == 254
    ensures k >= ValueCount <==>
      (key == Left && m.state == EditSteps) ||
      (key == Right && (m.state == EditCircumference || (m.image[0] == TypeLinear && m.state == EditLength)))
  {
    StateVal(FieldMove(m, key, mult).state)
  }

  /**
   * Leaving the field states reads and may write `values[254]`, far beyond
   * the five values of the record: Left from the steps, Right from the
   * circumference, and Right from the length of a Linear record.
   */
  lemma ClampIndexLeavesRecord(m: Machine, mult: int)
    requires m.Valid()
    ensures m.state == EditSteps ==> ClampIndexAsWritten(m, Left, mult) == 254
    ensures m.state == EditCircumference ==> ClampIndexAsWritten(m, Right, mult) == 254
    ensures m.state == EditLength && m.image[0] == TypeLinear ==> ClampIndexAsWritten(m, Right, mult) == 254
  {
  }

  /**
   * With the clamp guarded by `stateVal() < 5`, leaving the field states keeps
   * the record as it was, and a field state reached by navigation has its
   * value in range.
   */
  lemma LeavingFieldsKeepsRecord(m: Machine, key: Button, elapsed: int, pad: KeyState)
    requires m.Valid() && pad.Valid() && IsFieldState(m.state)
    ensures var r := Step(m, key, elapsed, pad);
      !IsFieldState(r.state) ==> r.image == m.image && r.mem == m.mem
    ensures var r := Step(m, key, elapsed, pad);
      IsFieldState(r.state) ==> 0 <= ValueAt(r.image, StateVal(r.state)) < ValueLimit
  {
  }
}
