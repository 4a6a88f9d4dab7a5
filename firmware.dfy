/**
 * The firmware's globals and `loop()` (src/main.cpp:44-66, 297-554) as a
 * class whose fields are the globals and the `static` locals of `loop()`.
 * `millis()` and `analogRead()` become parameters of `Loop`; every method
 * is proved against the pure machine of module `Menu`.
 */
module Firmware {
  import opened Keypad
  import opened ProgramImage
  import opened ProgramStore
  import opened Menu

  class Controller {
    /** `KEY`, the EEPROM and the active record `Program`. */
    const keypad: KeyPad
    const eeprom: Eeprom
    const program: array<byte>
    /** `state`, `curPrg`, `countdown` and the level of the relay pin. */
    var state: MenuState
    var curPrg: int
    var countdown: int
    var relay: bool
    /** The `static` `tm_last` of `loop()`. */
    var tmLast: int
    /** How many times `startLinear()` has been called. */
    ghost var linearStarts: nat

    predicate Valid()
      reads this, keypad
    {
      eeprom.mem.Length == StorageSize && program.Length == RecordSize && program != eeprom.mem &&
      1 <= curPrg <= MaxPrgs && IsTime(tmLast) && keypad.State().Valid()
    }

    /** The globals as a value of the pure machine. */
    ghost function Abs(): Machine
      reads this, program, eeprom.mem
    {
      Machine(state, curPrg, countdown, relay, program[..], eeprom.mem[..], linearStarts)
    }

    /** The global initialisers, with the EEPROM holding `contents`. */
    constructor (contents: seq<byte>)
      requires |contents| == StorageSize
      ensures Valid() && Abs() == Menu.Initial(contents) && tmLast == 0
      ensures keypad.State() == Keypad.Initial && eeprom.writes == 0
      ensures fresh(keypad) && fresh(eeprom) && fresh(eeprom.mem) && fresh(program)
    {
      keypad := new KeyPad();
      eeprom := new Eeprom(contents);
      program := new byte[RecordSize](_ => 0);
      state := SelectPrg;
      curPrg := 1;
      countdown := 0;
      relay := false;
      tmLast := 0;
      linearStarts := 0;
      new;
      assert program[..] == Blank;
    }

    /**
     * `setup()`: the relay off and `initEEPROM()`; no program is loaded. A
     * matching header costs no EEPROM write.
     */
    method Setup()
      requires Valid()
      modifies this, eeprom, eeprom.mem
      ensures Valid() && Abs() == old(Abs()).(relay := false, mem := eeprom.mem[..])
      ensures old(eeprom.mem[..HeaderSize]) == Version ==> eeprom.mem[..] == old(eeprom.mem[..])
      ensures old(eeprom.mem[..HeaderSize]) != Version ==> eeprom.mem[..] == Wiped
      ensures old(eeprom.mem[..HeaderSize]) == Version ==> eeprom.writes == old(eeprom.writes)
      ensures old(eeprom.mem[..HeaderSize]) != Version ==>
        eeprom.writes == old(eeprom.writes) + NonZeroCount(old(eeprom.mem[HeaderSize..])) +
          DiffCount(old(eeprom.mem[..HeaderSize]), Version)
      ensures tmLast == old(tmLast)
    {
      relay := false;
      InitEeprom(eeprom);
    }

    /** `Program.P.values[k] = v` on the bytes of the record. */
    method SetValue(k: nat, v: int)
      requires program.Length == RecordSize && k < ValueCount && IsInt32(v)
      modifies program
      ensures program[..] == WithValue(old(program[..]), k, v)
    {
      var o := ValueOffset(k);
      var bs := EncodeValue(v);
      ghost var before := program[..];
      var i := 0;
      while i < 4
        invariant 0 <= i <= 4
        invariant forall j :: 0 <= j < RecordSize ==>
          program[j] == if o <= j < o + i then bs[j - o] else before[j]
      {
        program[o + i] := bs[i];
        i := i + 1;
      }
      assert program[..] == before[..o] + bs + before[o + 4..];
    }

    /** The key switch of the field-edit case. */
    method MoveField(key: Button, mult: int)
      requires Valid() && IsFieldState(state)
      modifies this, program
      ensures Valid() && Abs() == FieldMove(old(Abs()), key, mult)
      ensures tmLast == old(tmLast)
    {
      if key == Right || key == Left {
        NavigateField(key);
      } else if key == Up || key == Down {
        var k := StateVal(state);
        var v := ValueAt(program[..], k);
        SetValue(k, Clamp(if key == Up then v + mult else v - mult));
      }
    }

    /** Right and Left in a field state: type-aware navigation. */
    method NavigateField(key: Button)
      requires Valid() && IsFieldState(state) && (key == Right || key == Left)
      modifies this
      ensures Valid() && Abs() == FieldMove(old(Abs()), key, 0)
      ensures tmLast == old(tmLast)
    {
      var t := program[0];
      var s := state;
      if key == Right {
        if t == TypeRotary && s == EditPreStart {
          state := EditRadius;
        } else if t == TypeLinear && s == EditLength {
          state := EditSaveNo;
        } else {
          state := NextState(s);
        }
      } else {
        if t == TypeRotary && s == EditRadius {
          state := EditPreStart;
        } else {
          state := PrevState(s);
        }
      }
    }

    /** The clamp after the field-edit switch, guarded by `stateVal() < 5`. */
    method ClampCurrent()
      requires Valid()
      modifies program
      ensures Valid() && Abs() == ClampField(old(Abs()))
    {
      var j := StateVal(state);
      if j < ValueCount {
        var v := ValueAt(program[..], j);
        if v < 0 {
          SetValue(j, ValueMax);
        } else if v >= ValueLimit {
          SetValue(j, 0);
        }
      }
    }

    /** `MNU_SELECT_PRG`: move to another slot and load it, or enter the slot. */
    method SelectPrgTick(key: Button, step: int)
      requires Valid() && 1 <= step
      modifies this, program
      ensures Valid() && Abs() == SelectPrgKey(old(Abs()), key, step)
      ensures tmLast == old(tmLast)
    {
      if key == Up {
        curPrg := curPrg + step;
        if curPrg > MaxPrgs {
          curPrg := 1;
        }
        LoadProgram(eeprom, curPrg, program);
      } else if key == Down {
        curPrg := curPrg - step;
        if curPrg < 1 {
          curPrg := MaxPrgs;
        }
        LoadProgram(eeprom, curPrg, program);
      } else if key == Right {
        state := if program[0] == TypeEmpty then SelectEdit else SelectRun;
      }
    }

    /** `MNU_RUN_COUNTDOWN`. */
    method RunCountdownTick()
      requires Valid()
      modifies this
      ensures Valid() && Abs() == CountdownTick(old(Abs()))
      ensures tmLast == old(tmLast)
    {
      if countdown < 1 {
        relay := true;
        state := RunPreStart;
        countdown := Truncate(ValueAt(program[..], ValPreStart));
      }
    }

    /** `MNU_RUN_PRE_START`. */
    method RunPreStartTick()
      requires Valid()
      modifies this
      ensures Valid() && Abs() == PreStartTick(old(Abs()))
      ensures tmLast == old(tmLast)
    {
      if countdown < 1 {
        if program[0] == TypeLinear {
          linearStarts := linearStarts + 1;
          state := Running;
        } else if program[0] == TypeRotary {
          state := Running;
        }
        relay := false;
      }
    }

    /** `MNU_EDIT_TYPE`. */
    method EditTypeTick(key: Button)
      requires Valid()
      modifies this, program
      ensures Valid() && Abs() == EditTypeKey(old(Abs()), key)
      ensures tmLast == old(tmLast)
    {
      var t := program[0];
      if key == Up {
        program[0] := TypeUp(t);
      } else if key == Down {
        program[0] := TypeDown(t);
      } else if key == Right || key == Select {
        if t != TypeEmpty {
          state := NextState(EditType);
        }
      } else if key == Left {
        state := EditSaveNo;
      }
    }

    /** `MNU_EDIT_SAVE_NO`. */
    method SaveNoTick(key: Button)
      requires Valid()
      modifies this, program
      ensures Valid() && Abs() == SaveNoKey(old(Abs()), key)
      ensures tmLast == old(tmLast)
    {
      if key == Right {
        state := EditSaveYes;
      } else if key == Select {
        LoadProgram(eeprom, curPrg, program);
        state := SelectPrg;
      }
    }

    /** `MNU_EDIT_SAVE_YES`: one EEPROM write per byte of the record that differs from the slot. */
    method SaveYesTick(key: Button)
      requires Valid()
      modifies this, eeprom, eeprom.mem
      ensures Valid() && Abs() == SaveYesKey(old(Abs()), key)
      ensures eeprom.writes == old(eeprom.writes) +
        if key == Select then DiffCount(Stored(old(eeprom.mem[..]), curPrg), program[..]) else 0
      ensures tmLast == old(tmLast)
    {
      if key == Left {
        state := EditSaveNo;
      } else if key == Select {
        SaveProgram(eeprom, curPrg, program);
        state := SelectPrg;
      }
    }

    /** The state-only cases of the switch. */
    method MoveTick(key: Button)
      requires Valid() && IsMoveState(state)
      modifies this
      ensures Valid() && Abs() == MoveKey(old(Abs()), key)
      ensures tmLast == old(tmLast)
    {
      match state
      case SelectRun =>
        if key == Left {
          state := SelectPrg;
        } else if key == Right {
          state := SelectEdit;
        } else if key == Select {
          state := RunCountdown;
          countdown := CountdownMs;
        }
      case SelectEdit =>
        if key == Left {
          state := if program[0] == TypeEmpty then SelectPrg else SelectRun;
        } else if key == Select {
          state := EditType;
        }
      case Running =>
        if key != None {
          state := SelectRewind;
        }
      case SelectRewind =>
        if key == Right {
          state := SelectReturn;
        } else if key == Select {
          state := Rewind;
        }
      case SelectReturn =>
        if key == Left {
          state := SelectRewind;
        } else if key == Select {
          state := Return;
        }
      case Rewind => state := SelectRun;
      case Return => state := SelectRun;
    }

    /** The `switch (state)` of `loop()`, except the save, which alone writes the EEPROM. */
    method HandleTick(key: Button)
      requires Valid() && state != EditSaveYes
      modifies this, program
      ensures Valid() && Abs() == Handle(old(Abs()), key, keypad.State())
      ensures tmLast == old(tmLast)
    {
      if IsMoveState(state) {
        MoveTick(key);
      } else if IsFieldState(state) {
        MoveField(key, keypad.State().HoldMultiplier(Uncapped));
        ClampCurrent();
      } else {
        match state
        case SelectPrg => SelectPrgTick(key, keypad.State().HoldMultiplier(SlotStepCap));
        case RunCountdown => RunCountdownTick();
        case RunPreStart => RunPreStartTick();
        case EditType => EditTypeTick(key);
        case EditSaveNo => SaveNoTick(key);
      }
    }

    /**
     * One pass of `loop()` after `KEY.read()` has returned `key`, `elapsed`
     * milliseconds after the previous pass. The EEPROM receives a write only
     * when Select saves the record, and then one per byte that differs.
     */
    method Tick(key: Button, elapsed: int)
      requires Valid()
      modifies this, program, eeprom, eeprom.mem
      ensures Valid() && Abs() == Step(old(Abs()), key, elapsed, keypad.State())
      ensures old(state) == EditSaveYes && key == Select ==>
        eeprom.writes == old(eeprom.writes) + DiffCount(Stored(old(eeprom.mem[..]), old(curPrg)), old(program[..]))
      ensures !(old(state) == EditSaveYes && key == Select) ==> eeprom.writes == old(eeprom.writes)
      ensures tmLast == old(tmLast)
    {
      countdown := countdown - elapsed;
      if state == EditSaveYes {
        SaveYesTick(key);
      } else {
        HandleTick(key);
      }
    }

    /**
     * `loop()` at clock reading `now` with analog sample `adc`: the elapsed
     * time since the previous pass (modulo the 32-bit clock), one read of the
     * keypad, one tick of the menu, and the clock remembered. The EEPROM is
     * written only when the key read saves the record in "save: yes".
     */
    method Loop(adc: int, now: int)
      requires Valid() && IsTime(now)
      modifies this, program, eeprom, eeprom.mem, keypad
      ensures Valid() && tmLast == now
      ensures keypad.State() == ReadStep(old(keypad.State()), adc, now).0
      ensures Abs() == Step(old(Abs()), ReadStep(old(keypad.State()), adc, now).1, Elapsed(now, old(tmLast)), keypad.State())
      ensures old(state) == EditSaveYes && ReadStep(old(keypad.State()), adc, now).1 == Select ==>
        eeprom.writes == old(eeprom.writes) + DiffCount(Stored(old(eeprom.mem[..]), old(curPrg)), old(program[..]))
      ensures !(old(state) == EditSaveYes && ReadStep(old(keypad.State()), adc, now).1 == Select) ==>
        eeprom.writes == old(eeprom.writes)
    {
      var ms := Elapsed(now, tmLast);
      var key := keypad.Read(adc, now);
      Tick(key, ms);
      tmLast := now;
    }
  }
}
