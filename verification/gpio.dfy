/**
  The per-resource step of the _CRS walk (`int3472_handle_gpio_resources`):
  filter GPIO/IO descriptors, ask the _DSM method for the pin's purpose with a
  selector derived from the running pin counter, classify the low byte of
  the answer and append to the GPIO lookup table or the regulator list.

  The _DSM method is an oracle `dsm` from function selector to the integer
  it returns, or None when the firmware returns no integer object. The two
  registration helpers are opaque appends whose return code comes from the
  oracle `sink`.
 */
module Gpio {
  import opened Acpi

  /** Labels the driver gives to pins it maps to the sensor. */
  const RESET_LABEL: string := "reset"
  const LED_LABEL: string := "indicator-led"

  /** An entry of the GPIO lookup table handed to the sensor. */
  datatype LookupEntry = LookupEntry(gpio: GpioDescriptor, purpose: string)

  /** The driver's device context: the pin counter `n_gpios` (an unsigned
      int), the GPIO lookup table and the regulator list. */
  datatype Context = Context(nGpios: u32, gpios: seq<LookupEntry>, regulators: seq<GpioDescriptor>)

  const EmptyContext: Context := Context(0, [], [])

  /** A call into one of the two registration helpers. */
  datatype SinkCall =
    | MapGpioToSensor(gpio: GpioDescriptor, purpose: string)
    | RegisterRegulator(gpio: GpioDescriptor)

  /** What one callback invocation did: the new context, its return code, and
      the _DSM selector it queried, if any. */
  datatype StepResult = StepResult(ctx: Context, ret: int, query: Option<u32>)

  /** Purpose of a pin, as encoded in the low byte of its _DSM integer. */
  datatype PinCategory =
    | ResetPin
    | PowerRegulator
    | PowerRegulatorSecondary
    | IndicatorLed
    | UnknownPurpose(code: byte)

  /** The purpose codes the driver recognises. */
  const KNOWN_CODES: set<byte> := {0x00, 0x01, 0x0b, 0x0c, 0x0d}

  /** The codes that denote each category: the classification table read
      from the other side. */
  function CodesOf(cat: PinCategory): set<byte> {
    match cat
    case ResetPin => {0x00}
    case PowerRegulator => {0x01, 0x0c}
    case PowerRegulatorSecondary => {0x0b}
    case IndicatorLed => {0x0d}
    case UnknownPurpose(c) => if c in KNOWN_CODES then {} else {c}
  }

  function Classify(code: byte): (cat: PinCategory)
    ensures cat.UnknownPurpose? <==> code !in KNOWN_CODES
    ensures code in CodesOf(cat)
  {
    if code == 0x00 then ResetPin
    else if code == 0x01 || code == 0x0c then PowerRegulator
    else if code == 0x0b then PowerRegulatorSecondary
    else if code == 0x0d then IndicatorLed
    else UnknownPurpose(code)
  }

  /** Classification and the code table agree in both directions. */
  lemma ClassifyMatchesCodes(code: byte, cat: PinCategory)
    ensures Classify(code) == cat <==> code in CodesOf(cat)
  {
  }

  /** The _DSM function selector used for the pin after `n` classified pins:
      `n_gpios + 2` in unsigned int arithmetic. The functions are numbered
      from 1 and function 1 only returns the number of pins, so pin i asks
      function i + 2. */
  function Selector(n: u32): (s: u32)
    // The sum itself, or the sum less one wrap of 2^32; as a u32 that fixes it.
    ensures s == n + 2 || s == n + 2 - U32_MODULUS
  {
    if n + 2 < U32_MODULUS then n + 2 else n + 2 - U32_MODULUS
  }

  /** `n_gpios++` on an unsigned int. */
  function Inc(n: u32): (m: u32)
    ensures m == n + 1 || m == n + 1 - U32_MODULUS
  {
    if n + 1 < U32_MODULUS then n + 1 else 0
  }

  /** The registration a category calls for, if any. Both regulator
      categories call the same helper with the same arguments. */
  function SinkCallFor(g: GpioDescriptor, cat: PinCategory): Option<SinkCall> {
    match cat
    case ResetPin => Some(MapGpioToSensor(g, RESET_LABEL))
    case PowerRegulator => Some(RegisterRegulator(g))
    case PowerRegulatorSecondary => Some(RegisterRegulator(g))
    case IndicatorLed => Some(MapGpioToSensor(g, LED_LABEL))
    case UnknownPurpose(_) => None
  }

  /** The callback's return code for a classified pin: the registration
      helper's code, or positive EINVAL when the category calls for none. */
  function PinCode(g: GpioDescriptor, cat: PinCategory, sink: SinkCall -> int): int {
    match SinkCallFor(g, cat)
    case Some(c) => sink(c)
    case None => EINVAL
  }

  /** What a pin of a given category adds to the lookup table. */
  function LookupsFor(g: GpioDescriptor, cat: PinCategory): seq<LookupEntry> {
    match cat
    case ResetPin => [LookupEntry(g, RESET_LABEL)]
    case IndicatorLed => [LookupEntry(g, LED_LABEL)]
    case _ => []
  }

  /** What a pin of a given category adds to the regulator list. */
  function RegulatorsFor(g: GpioDescriptor, cat: PinCategory): seq<GpioDescriptor> {
    if cat.PowerRegulator? || cat.PowerRegulatorSecondary? then [g] else []
  }

  /** The tables after a registration call appends to them. */
  function Record(ctx: Context, call: Option<SinkCall>): Context {
    match call
    case None => ctx
    case Some(MapGpioToSensor(g, purpose)) => ctx.(gpios := ctx.gpios + [LookupEntry(g, purpose)])
    case Some(RegisterRegulator(g)) => ctx.(regulators := ctx.regulators + [g])
  }

  /** Every label in the lookup table is one the driver hands out. */
  predicate LabelsValid(ctx: Context) {
    forall i :: 0 <= i < |ctx.gpios| ==> ctx.gpios[i].purpose == RESET_LABEL || ctx.gpios[i].purpose == LED_LABEL
  }

  /** One invocation of the resource callback, with the _DSM object checked
      for NULL before it is used. */
  function Step(ctx: Context, res: Resource, dsm: u32 -> Option<u64>, sink: SinkCall -> int): (r: StepResult)
    // Entries that are not GPIO/IO are skipped: positive EINVAL, no query.
    ensures !IsGpioIo(res) ==> r == StepResult(ctx, EINVAL, None)
    // A GPIO/IO entry queries the selector derived from the current counter.
    ensures IsGpioIo(res) ==> r.query == Some(Selector(ctx.nGpios))
    // No _DSM object: -ENODEV, nothing changes.
    ensures IsGpioIo(res) && dsm(Selector(ctx.nGpios)).None? ==> r.ctx == ctx && r.ret == -ENODEV
    // An object was obtained: the counter moves on by exactly one.
    ensures r.ctx.nGpios == (if IsGpioIo(res) && dsm(Selector(ctx.nGpios)).Some? then Inc(ctx.nGpios) else ctx.nGpios)
  {
    if !IsGpioIo(res) then
      StepResult(ctx, EINVAL, None)
    else
      var sel := Selector(ctx.nGpios);
      match dsm(sel)
      case None => StepResult(ctx, -ENODEV, Some(sel))
      case Some(v) =>
        var call := SinkCallFor(res.gpio, Classify(LowByte(v)));
        var ret := PinCode(res.gpio, Classify(LowByte(v)), sink);
        var after := Record(ctx, call);
        StepResult(after.(nGpios := Inc(ctx.nGpios)), ret, Some(sel))
  }

  /** The tables only grow, by what the pin's category calls for and
      nothing else, and the lookup labels stay among the driver's own. */
  lemma StepGrows(ctx: Context, res: Resource, dsm: u32 -> Option<u64>, sink: SinkCall -> int)
    ensures var r := Step(ctx, res, dsm, sink);
            && ctx.gpios <= r.ctx.gpios && ctx.regulators <= r.ctx.regulators
            && |r.ctx.gpios| + |r.ctx.regulators| <= |ctx.gpios| + |ctx.regulators| + 1
            && (LabelsValid(ctx) ==> LabelsValid(r.ctx))
    ensures IsGpioIo(res) && dsm(Selector(ctx.nGpios)).Some? ==>
              var r := Step(ctx, res, dsm, sink);
              var cat := Classify(LowByte(dsm(Selector(ctx.nGpios)).value));
              && r.ctx.gpios == ctx.gpios + LookupsFor(res.gpio, cat)
              && r.ctx.regulators == ctx.regulators + RegulatorsFor(res.gpio, cat)
  {
  }

  /** The classification table as the step applies it, stated on the raw
      low byte of the _DSM integer. */
  lemma StepTable(ctx: Context, g: GpioDescriptor, dsm: u32 -> Option<u64>, sink: SinkCall -> int)
    requires g.connection == IoConnection && dsm(Selector(ctx.nGpios)).Some?
    ensures var code := dsm(Selector(ctx.nGpios)).value % 0x100;
            var r := Step(ctx, GpioResource(g), dsm, sink);
            && (code == 0x00 ==>
                  r.ctx.gpios == ctx.gpios + [LookupEntry(g, "reset")] && r.ctx.regulators == ctx.regulators
                  && r.ret == sink(MapGpioToSensor(g, "reset")))
            && (code == 0x01 || code == 0x0b || code == 0x0c ==>
                  r.ctx.regulators == ctx.regulators + [g] && r.ctx.gpios == ctx.gpios
                  && r.ret == sink(RegisterRegulator(g)))
            && (code == 0x0d ==>
                  r.ctx.gpios == ctx.gpios + [LookupEntry(g, "indicator-led")] && r.ctx.regulators == ctx.regulators
                  && r.ret == sink(MapGpioToSensor(g, "indicator-led")))
            && (code !in KNOWN_CODES ==>
                  r.ctx.gpios == ctx.gpios && r.ctx.regulators == ctx.regulators && r.ret == EINVAL)
  {
  }

  /** Only the low eight bits of the _DSM integer matter. */
  lemma StepUsesLowByteOnly(ctx: Context, res: Resource, d1: u32 -> Option<u64>, d2: u32 -> Option<u64>,
                            sink: SinkCall -> int)
    requires d1(Selector(ctx.nGpios)).Some? == d2(Selector(ctx.nGpios)).Some?
    requires d1(Selector(ctx.nGpios)).Some? ==>
               d1(Selector(ctx.nGpios)).value % 0x100 == d2(Selector(ctx.nGpios)).value % 0x100
    ensures Step(ctx, res, d1, sink) == Step(ctx, res, d2, sink)
  {
  }

  /** `Selector` and `Inc` are unsigned int arithmetic: the sums taken
      modulo 2^32. */
  lemma CounterArithmeticWraps(n: u32)
    ensures Selector(n) == (n + 2) % U32_MODULUS
    ensures Inc(n) == (n + 1) % U32_MODULUS
    ensures Selector(Inc(n)) == (n + 3) % U32_MODULUS
  {
  }

  /** The outcome of the callback as written: it can fault. */
  datatype StepOutcome = Completed(result: StepResult) | NullDereference

  /** The callback as written: the `pr_info` reads the object's integer
      before the NULL check, so a missing _DSM object faults instead of
      reaching the -ENODEV return. */
  function StepAsWritten(ctx: Context, res: Resource, dsm: u32 -> Option<u64>, sink: SinkCall -> int): (o: StepOutcome)
    ensures o.NullDereference? <==> IsGpioIo(res) && dsm(Selector(ctx.nGpios)).None?
  {
    if !IsGpioIo(res) then Completed(StepResult(ctx, EINVAL, None))
    else
      var sel := Selector(ctx.nGpios);
      if dsm(sel).None? then NullDereference
      else Completed(Step(ctx, res, dsm, sink))
  }

  /** The fault is reachable: a GPIO/IO pin with no _DSM entry for selector 2
      makes the code as written read through NULL, where the corrected step
      returns -ENODEV and leaves the context as it was. */
  lemma MissingDsmFaultsAsWritten(g: GpioDescriptor, sink: SinkCall -> int)
    requires g.connection == IoConnection
    ensures StepAsWritten(EmptyContext, GpioResource(g), _ => None, sink) == NullDereference
    ensures Step(EmptyContext, GpioResource(g), _ => None, sink) == StepResult(EmptyContext, -ENODEV, Some(2))
  {
  }

  /** Whenever the code as written does not fault it agrees with the
      corrected step. */
  lemma AsWrittenAgreesWhenCompleted(ctx: Context, res: Resource, dsm: u32 -> Option<u64>, sink: SinkCall -> int)
    ensures StepAsWritten(ctx, res, dsm, sink).Completed? ==>
              StepAsWritten(ctx, res, dsm, sink).result == Step(ctx, res, dsm, sink)
  {
  }
}
