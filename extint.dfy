/** The external-interrupt registration table of the RA port
    (extint_modified.c): one slot per ICU vector holding the Python
    callback, its trigger mode, the hard/soft flag and the argument, with
    the "vector busy" rules of the two registration paths.

    The ICU itself (`ra_icu_*`) is represented by two ghost per-line
    records: whether the line's interrupt is enabled and which trigger
    condition code it was last given. */
module ExtInt {
  import opened Base

  /** `MP_HAL_PIN_TRIGGER_FALLING`, `_RISING` and `_LOWLEVEL` of the port's
      mphalport.h (not part of this model; values as in the RA port). */
  const TriggerFalling: bv32 := 1
  const TriggerRising: bv32 := 2
  const TriggerLowLevel: bv32 := 4

  /** `MP_HAL_PIN_PULL_NONE` and `MP_HAL_PIN_PULL_UP`. */
  const PullNone: nat := 0
  const PullUp: nat := 1

  /** The Python objects that reach this file: `None`, a `Pin` (identified by
      its CPU pin number), a callable and anything else. */
  datatype Obj = NoneObj | PinObj(pin: nat) | Callable(id: nat) | OtherObj(id: nat)

  /** The errors the registration paths raise. */
  datatype ExtIntError =
    | NotAPin        // ValueError "pin must be Pin"
    | NoExtInt       // ValueError "pin has no EXTINT"
    | InvalidPull    // ValueError "invalid pull"
    | VectorBusy     // ValueError "vector busy"
    | Busy           // OSError EBUSY

  // ---------------------------------------------------------------------
  // icu_set_trigger
  // ---------------------------------------------------------------------

  /** The ICU condition code `icu_set_trigger` selects for a pin trigger
      mode: 0 low level, 3 both edges, 2 rising edge, 1 falling edge. */
  function TriggerCondition(mode: bv32): (cond: nat)
    ensures cond <= 3
  {
    if mode & TriggerLowLevel != 0 then 0
    else if mode & TriggerRising != 0 && mode & TriggerFalling != 0 then 3
    else if mode & TriggerRising != 0 then 2
    else 1
  }

  /** What a condition code makes the line react to. */
  datatype Sensitivity = Sensitivity(lowLevel: bool, rising: bool, falling: bool)

  function Meaning(cond: nat): Sensitivity
    requires cond <= 3
  {
    match cond
    case 0 => Sensitivity(true, false, false)
    case 1 => Sensitivity(false, false, true)
    case 2 => Sensitivity(false, true, false)
    case 3 => Sensitivity(false, true, true)
  }

  /** The selected condition serves the request: a low-level bit wins over
      the edge bits; otherwise the line reacts to a rising edge exactly when
      the rising bit is set, and to a falling edge when the falling bit is set
      or, as the fallback, when neither edge bit is. */
  lemma TriggerConditionMeaning(mode: bv32)
    ensures var m := Meaning(TriggerCondition(mode));
            && (m.lowLevel <==> mode & TriggerLowLevel != 0)
            && (mode & TriggerLowLevel == 0 ==>
                  && (m.rising <==> mode & TriggerRising != 0)
                  && (m.falling <==> mode & TriggerFalling != 0 || mode & TriggerRising == 0))
            && (mode & TriggerLowLevel != 0 ==> !m.rising && !m.falling)
  {
  }

  /** The four codes, each with the exact set of modes that selects it. */
  lemma TriggerConditionCases(mode: bv32)
    ensures TriggerCondition(mode) == 0 <==> mode & TriggerLowLevel != 0
    ensures TriggerCondition(mode) == 3 <==>
              mode & TriggerLowLevel == 0 && mode & TriggerRising != 0 && mode & TriggerFalling != 0
    ensures TriggerCondition(mode) == 2 <==>
              mode & TriggerLowLevel == 0 && mode & TriggerRising != 0 && mode & TriggerFalling == 0
    ensures TriggerCondition(mode) == 1 <==>
              mode & TriggerLowLevel == 0 && mode & TriggerRising == 0
  {
  }

  /** `pyb_extint_mode` is `uint8_t`: a stored mode keeps its low byte. */
  function StoredMode(mode: bv32): (b: bv8)
    ensures b as bv32 == mode & 0xFF
  {
    (mode & 0xFF) as bv8
  }

  // ---------------------------------------------------------------------
  // Registration decisions
  // ---------------------------------------------------------------------

  /** What `extint_register(pin_obj, mode, pull, cb, override)` decides,
      given the vector table `lineOf` (`ra_icu_find_irq_no`) and the current
      slot contents; on success the line number it returns. */
  function RegisterOutcome(lineOf: map<nat, nat>, slots: seq<Obj>, pinObj: Obj, pull: nat,
                           cb: Obj, override: bool): (r: Result<nat, ExtIntError>)
    requires forall p :: p in lineOf ==> lineOf[p] < |slots|
    ensures r.Ok? ==> pinObj.PinObj? && pinObj.pin in lineOf && r.value == lineOf[pinObj.pin]
  {
    if !pinObj.PinObj? then Err(NotAPin)
    else if pinObj.pin !in lineOf then Err(NoExtInt)
    else if pull != PullNone && pull != PullUp then Err(InvalidPull)
    else
      var line := lineOf[pinObj.pin];
      if !override && slots[line] != NoneObj && cb != NoneObj then Err(VectorBusy)
      else Ok(line)
  }

  /** The checks come in the source's order, and "vector busy" is raised
      exactly when the request is otherwise valid, there is no override, the
      slot is occupied and the new callback is not None. */
  lemma RegisterRejections(lineOf: map<nat, nat>, slots: seq<Obj>, pinObj: Obj, pull: nat,
                           cb: Obj, override: bool)
    requires forall p :: p in lineOf ==> lineOf[p] < |slots|
    ensures var r := RegisterOutcome(lineOf, slots, pinObj, pull, cb, override);
            && (r == Err(NotAPin) <==> !pinObj.PinObj?)
            && (r == Err(NoExtInt) <==> pinObj.PinObj? && pinObj.pin !in lineOf)
            && (r == Err(InvalidPull) <==>
                  pinObj.PinObj? && pinObj.pin in lineOf && pull != PullNone && pull != PullUp)
            && (r == Err(VectorBusy) <==>
                  && pinObj.PinObj? && pinObj.pin in lineOf && (pull == PullNone || pull == PullUp)
                  && !override && slots[lineOf[pinObj.pin]] != NoneObj && cb != NoneObj)
  {
  }

  /** Unregistering (a None callback) or overriding never meets "vector
      busy". */
  lemma RegisterNoneOrOverrideNeverBusy(lineOf: map<nat, nat>, slots: seq<Obj>, pin: nat, pull: nat,
                                        cb: Obj, override: bool)
    requires forall p :: p in lineOf ==> lineOf[p] < |slots|
    requires pin in lineOf && (pull == PullNone || pull == PullUp)
    requires cb == NoneObj || override
    ensures RegisterOutcome(lineOf, slots, PinObj(pin), pull, cb, override) == Ok(lineOf[pin])
  {
  }

  /** What `extint_register_pin(pin, mode, hard_irq, cb)` decides: EBUSY
      when another pin's callback holds the slot and the new callback is not
      None. */
  function RegisterPinOutcome(lineOf: map<nat, nat>, slots: seq<Obj>, args: seq<Obj>, pin: nat,
                              cb: Obj): (r: Result<nat, ExtIntError>)
    requires forall p :: p in lineOf ==> lineOf[p] < |slots| && lineOf[p] < |args|
    ensures r.Ok? ==> pin in lineOf && r.value == lineOf[pin]
  {
    if pin !in lineOf then Err(NoExtInt)
    else
      var line := lineOf[pin];
      if slots[line] != NoneObj && cb != NoneObj && PinObj(pin) != args[line] then Err(Busy)
      else Ok(line)
  }

  /** The same pin may always re-register its own line, and EBUSY is raised
      exactly when the slot is occupied, the callback is not None and the
      slot's argument is a different object. */
  lemma RegisterPinBusyRule(lineOf: map<nat, nat>, slots: seq<Obj>, args: seq<Obj>, pin: nat, cb: Obj)
    requires forall p :: p in lineOf ==> lineOf[p] < |slots| && lineOf[p] < |args|
    requires pin in lineOf
    ensures var line := lineOf[pin];
            && (RegisterPinOutcome(lineOf, slots, args, pin, cb) == Err(Busy) <==>
                  slots[line] != NoneObj && cb != NoneObj && args[line] != PinObj(pin))
            && (args[line] == PinObj(pin) ==> RegisterPinOutcome(lineOf, slots, args, pin, cb) == Ok(line))
  {
  }

  /** What `extint_callback` does for an interrupt on a line. */
  datatype Dispatch =
    | Ignored                     // empty slot
    | HardCall(cb: Obj, arg: Obj) // called in interrupt context
    | Scheduled(cb: Obj, arg: Obj) // handed to mp_sched_schedule

  /** The per-line tables and the ICU state they drive. */
  class ExtIntTable {
    /** `EXTI_NUM_VECTORS`. */
    const numVectors: nat
    /** `ra_icu_find_irq_no`: the ICU line of each pin that has one. */
    const lineOf: map<nat, nat>
    /** `MP_STATE_PORT(pyb_extint_callback)`. */
    const callback: array<Obj>
    /** `pyb_extint_mode`. */
    const mode: array<bv8>
    /** `pyb_extint_hard_irq`. */
    const hardIrq: array<bool>
    /** `pyb_extint_callback_arg`. */
    const callbackArg: array<Obj>
    /** `extint_irq_no`. */
    const irqNo: array<nat>
    /** Whether the ICU line is enabled. */
    ghost var enabled: seq<bool>
    /** The condition code the ICU line was last given. */
    ghost var condition: seq<nat>

    ghost predicate Valid()
      reads this
    {
      && callback.Length == numVectors && mode.Length == numVectors && hardIrq.Length == numVectors
      && callbackArg.Length == numVectors && irqNo.Length == numVectors
      && |enabled| == numVectors && |condition| == numVectors
      && callback != callbackArg
      && callback as object != mode && callback as object != hardIrq && callback as object != irqNo
      && callbackArg as object != mode && callbackArg as object != hardIrq && callbackArg as object != irqNo
      && mode as object != hardIrq && mode as object != irqNo && hardIrq as object != irqNo
      && forall p :: p in lineOf ==> lineOf[p] < numVectors
    }

    constructor (n: nat, lines: map<nat, nat>)
      requires forall p :: p in lines ==> lines[p] < n
      ensures Valid() && numVectors == n && lineOf == lines
      ensures fresh(callback) && fresh(mode) && fresh(hardIrq) && fresh(callbackArg) && fresh(irqNo)
      ensures forall l :: 0 <= l < n ==> !enabled[l]
    {
      numVectors, lineOf := n, lines;
      callback := new Obj[n](_ => NoneObj);
      mode := new bv8[n](_ => 0);
      hardIrq := new bool[n](_ => false);
      callbackArg := new Obj[n](_ => NoneObj);
      irqNo := new nat[n](_ => 0);
      enabled := seq(n, _ => false);
      condition := seq(n, _ => 1);
    }

    /** `extint_enable(line)`: out-of-range lines are ignored. */
    method Enable(line: nat)
      requires Valid()
      modifies this`enabled
      ensures Valid()
      ensures enabled == if line < numVectors then old(enabled)[line := true] else old(enabled)
    {
      if line >= numVectors {
        return;
      }
      enabled := enabled[line := true];
    }

    /** `extint_disable(line)`: out-of-range lines are ignored. */
    method Disable(line: nat)
      requires Valid()
      modifies this`enabled
      ensures Valid()
      ensures enabled == if line < numVectors then old(enabled)[line := false] else old(enabled)
    {
      if line >= numVectors {
        return;
      }
      enabled := enabled[line := false];
    }

    /** `extint_trigger_mode(line, mode)`: out-of-range lines are ignored. */
    method TriggerMode(line: nat, m: bv32)
      requires Valid()
      modifies this`condition
      ensures Valid()
      ensures condition == if line < numVectors then old(condition)[line := TriggerCondition(m)]
                           else old(condition)
    {
      if line >= numVectors {
        return;
      }
      condition := condition[line := TriggerCondition(m)];
    }

    /** `extint_register(pin_obj, mode, pull, cb, override)`. A rejected
        request changes nothing. An accepted one disables the line, fills its
        slot (soft IRQ, the pin object as argument, the line as IRQ number)
        and, for a callback other than None, sets the trigger and enables the
        line again. */
    method Register(pinObj: Obj, m: bv32, pull: nat, cb: Obj, override: bool)
      returns (r: Result<nat, ExtIntError>)
      requires Valid()
      modifies this`enabled, this`condition, callback, mode, hardIrq, callbackArg, irqNo
      ensures Valid()
      ensures r == RegisterOutcome(lineOf, old(callback[..]), pinObj, pull, cb, override)
      ensures r.Err? ==>
                && callback[..] == old(callback[..]) && mode[..] == old(mode[..])
                && hardIrq[..] == old(hardIrq[..]) && callbackArg[..] == old(callbackArg[..])
                && irqNo[..] == old(irqNo[..]) && enabled == old(enabled) && condition == old(condition)
      ensures r.Ok? ==>
                var line := r.value;
                && callback[..] == old(callback[..])[line := cb]
                && mode[..] == old(mode[..])[line := StoredMode(m)]
                && hardIrq[..] == old(hardIrq[..])[line := false]
                && callbackArg[..] == old(callbackArg[..])[line := pinObj]
                && irqNo[..] == old(irqNo[..])[line := line]
                && enabled == old(enabled)[line := cb != NoneObj]
                && condition == if cb != NoneObj then old(condition)[line := TriggerCondition(m)]
                                else old(condition)
    {
      if !pinObj.PinObj? {
        return Err(NotAPin);
      }
      if pinObj.pin !in lineOf {
        return Err(NoExtInt);
      }
      var line := lineOf[pinObj.pin];
      if pull != PullNone && pull != PullUp {
        return Err(InvalidPull);
      }
      if !override && callback[line] != NoneObj && cb != NoneObj {
        return Err(VectorBusy);
      }
      Disable(line);
      callback[line] := cb;
      mode[line] := StoredMode(m);
      hardIrq[line] := false;
      callbackArg[line] := pinObj;
      irqNo[line] := line;
      if cb != NoneObj {
        condition := condition[line := TriggerCondition(m)];
        Enable(line);
      }
      return Ok(line);
    }

    /** `extint_register_pin(pin, mode, hard_irq, cb)`: as `Register`, but
        the caller's hard flag is stored and only another pin's occupied slot
        is refused (EBUSY). */
    method RegisterPin(pin: nat, m: bv32, hard: bool, cb: Obj) returns (r: Result<nat, ExtIntError>)
      requires Valid()
      modifies this`enabled, this`condition, callback, mode, hardIrq, callbackArg, irqNo
      ensures Valid()
      ensures r == RegisterPinOutcome(lineOf, old(callback[..]), old(callbackArg[..]), pin, cb)
      ensures r.Err? ==>
                && callback[..] == old(callback[..]) && mode[..] == old(mode[..])
                && hardIrq[..] == old(hardIrq[..]) && callbackArg[..] == old(callbackArg[..])
                && irqNo[..] == old(irqNo[..]) && enabled == old(enabled) && condition == old(condition)
      ensures r.Ok? ==>
                var line := r.value;
                && callback[..] == old(callback[..])[line := cb]
                && mode[..] == old(mode[..])[line := StoredMode(m)]
                && hardIrq[..] == old(hardIrq[..])[line := hard]
                && callbackArg[..] == old(callbackArg[..])[line := PinObj(pin)]
                && irqNo[..] == old(irqNo[..])[line := line]
                && enabled == old(enabled)[line := cb != NoneObj]
                && condition == if cb != NoneObj then old(condition)[line := TriggerCondition(m)]
                                else old(condition)
    {
      if pin !in lineOf {
        return Err(NoExtInt);
      }
      var line := lineOf[pin];
      if callback[line] != NoneObj && cb != NoneObj && PinObj(pin) != callbackArg[line] {
        return Err(Busy);
      }
      Disable(line);
      callback[line] := cb;
      mode[line] := StoredMode(m);
      hardIrq[line] := hard;
      callbackArg[line] := PinObj(pin);
      irqNo[line] := line;
      if cb != NoneObj {
        condition := condition[line := TriggerCondition(m)];
        Enable(line);
      }
      return Ok(line);
    }

    /** `extint_init0`: every callback slot becomes None. */
    method Init0()
      requires Valid()
      modifies callback
      ensures Valid()
      ensures forall l :: 0 <= l < numVectors ==> callback[l] == NoneObj
    {
      for i := 0 to numVectors
        invariant forall l :: 0 <= l < i ==> callback[l] == NoneObj
      {
        callback[i] := NoneObj;
      }
    }

    /** `extint_callback` for an interrupt on line `irq`: nothing for an
        empty slot; a soft IRQ is scheduled; a hard IRQ calls the callback,
        and if that raises (`raises`), the slot is cleared and the line is
        disabled. */
    method Callback(irq: nat, raises: bool) returns (d: Dispatch)
      requires Valid() && irq < numVectors
      modifies callback, this`enabled
      ensures Valid()
      ensures old(callback[irq]) == NoneObj ==> d == Ignored
      ensures old(callback[irq]) != NoneObj && !hardIrq[irq] ==> d == Scheduled(old(callback[irq]), callbackArg[irq])
      ensures old(callback[irq]) != NoneObj && hardIrq[irq] ==> d == HardCall(old(callback[irq]), callbackArg[irq])
      ensures if old(callback[irq]) != NoneObj && hardIrq[irq] && raises then
                callback[..] == old(callback[..])[irq := NoneObj] && enabled == old(enabled)[irq := false]
              else
                callback[..] == old(callback[..]) && enabled == old(enabled)
    {
      var cb := callback[irq];
      if cb == NoneObj {
        return Ignored;
      }
      if hardIrq[irq] {
        d := HardCall(cb, callbackArg[irq]);
        if raises {
          callback[irq] := NoneObj;
          Disable(irq);
        }
      } else {
        d := Scheduled(cb, callbackArg[irq]);
      }
    }
  }
}
