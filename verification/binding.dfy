/**
  Binding an INT3472 node (`int3472_add`): the CLDB gate, then a fresh
  device context and the _CRS walk.

  `AddAsWritten` is the code as written: it reports success on every path
  that leaves through its cleanup label, including the gate's rejections,
  and its callback faults on a missing _DSM object. `Bind` is the corrected
  binding, which reports the gate's error and walks with the corrected
  callback.
 */
module Binding {
  import opened Acpi
  import opened Cldb
  import opened Gate
  import opened Gpio
  import opened Crs

  /** Result of the code as written: its return value and the walk it
      performed, if it got that far, or the fault of its callback. */
  datatype AddOutcome = AddReturned(ret: int, walk: Option<WalkResult>) | AddFaulted

  /** Result of the corrected binding: the node is bound with the walk's
      outcome, or refused with the gate's error code. */
  datatype BindResult = Bound(walk: WalkResult) | Refused(ret: int)

  /** `int3472_add` as written. The record starts as the stale `stack`;
      only the two early returns report an error, and the walk uses the
      callback as written. */
  function AddAsWritten(e: Evaluation, stack: seq<byte>, rs: seq<Resource>, dsm: u32 -> Option<u64>,
                        sink: SinkCall -> int): (o: AddOutcome)
    requires |stack| == CLDB_SIZE
    ensures (o.AddReturned? && o.ret != 0) <==> e.EvalFailure? || e.obj.None?
    ensures o.AddReturned? && o.ret != 0 ==> o.ret == -ENODEV
    ensures (o.AddFaulted? || o.walk.Some?) <==> CheckCldb(e, stack).Accepted?
    ensures var w := Walk(EmptyContext, rs, dsm, sink);
            o.AddFaulted? <==> CheckCldb(e, stack).Accepted? && CountAnswered(w.queries, dsm) < |w.queries|
    ensures o.AddReturned? && o.walk.Some? ==> o.walk.value == Walk(EmptyContext, rs, dsm, sink)
  {
    match CheckCldb(e, stack)
    case Rejected(code) => AddReturned(if code == -ENODEV then -ENODEV else 0, None)
    case Accepted(_) =>
      WalkAsWrittenFaults(EmptyContext, rs, dsm, sink);
      match WalkAsWritten(EmptyContext, rs, dsm, sink)
      case WalkFaulted => AddFaulted
      case WalkDone(w) => AddReturned(0, Some(w))
  }

  /** The corrected binding: the zero-initialised gate decides, and a node
      that passes it is walked from a fresh context. */
  function Bind(e: Evaluation, rs: seq<Resource>, dsm: u32 -> Option<u64>, sink: SinkCall -> int): (p: BindResult)
    ensures p.Refused? <==> Validate(e).Rejected?
    ensures p.Refused? ==> p.ret == Validate(e).ret && p.ret < 0
    ensures p.Bound? ==> IsCopyable(e) && e.obj.value.bytes[CONTROL_LOGIC_TYPE_OFFSET] == 1
    ensures p.Bound? ==> p.walk == Walk(EmptyContext, rs, dsm, sink) && |p.walk.rets| == |rs|
  {
    match Validate(e)
    case Rejected(code) => Refused(code)
    case Accepted(_) => Bound(Walk(EmptyContext, rs, dsm, sink))
  }

  /** A buffer holding the image of a record of any other control-logic
      type (a TPS68470 or uP6641 PMIC, say) is refused with -EINVAL before
      any _DSM query; a discrete one is bound. */
  lemma BindChecksVariant(c: CldbRecord, rs: seq<Resource>, dsm: u32 -> Option<u64>, sink: SinkCall -> int)
    requires WellFormed(c)
    ensures c.controlLogicType != 1 ==> Bind(Evaluated(Some(Buffer(Encode(c)))), rs, dsm, sink) == Refused(-EINVAL)
    ensures c.controlLogicType == 1 ==> Bind(Evaluated(Some(Buffer(Encode(c)))), rs, dsm, sink).Bound?
  {
    FullBufferRoundTrip(c, Zeroes(CLDB_SIZE));
  }

  /** A bound node queries selectors 2, 3, 4, ... for its GPIO/IO entries
      when the firmware answers each of them, and ends with one count per
      such entry. */
  lemma BindQueriesFromTwo(e: Evaluation, rs: seq<Resource>, dsm: u32 -> Option<u64>, sink: SinkCall -> int)
    requires AnswersPins(dsm, 0, GpioCount(rs)) && GpioCount(rs) + 2 < U32_MODULUS
    requires Bind(e, rs, dsm, sink).Bound?
    ensures var w := Bind(e, rs, dsm, sink).walk;
            && w.ctx.nGpios == GpioCount(rs)
            && |w.queries| == GpioCount(rs)
            && (forall i :: 0 <= i < |w.queries| ==> w.queries[i] == i + 2)
  {
    FreshWalkSelectors(rs, dsm, sink);
  }

  /** The code as written reports success for a node it rejected: the image
      of a TPS68470 record is turned away by the gate, yet the add routine
      returns 0, where the corrected binding returns -EINVAL. */
  lemma AddReportsSuccessOnRejection(rs: seq<Resource>, dsm: u32 -> Option<u64>, sink: SinkCall -> int)
    ensures var c := CldbRecord(0, TypeCode(Tps68470), 0, 0, Zeroes(RESERVED_SIZE));
            var e := Evaluated(Some(Buffer(Encode(c))));
            && CheckCldb(e, Zeroes(CLDB_SIZE)) == Rejected(-EINVAL)
            && AddAsWritten(e, Zeroes(CLDB_SIZE), rs, dsm, sink) == AddReturned(0, None)
            && Bind(e, rs, dsm, sink) == Refused(-EINVAL)
  {
    var c := CldbRecord(0, TypeCode(Tps68470), 0, 0, Zeroes(RESERVED_SIZE));
    FullBufferRoundTrip(c, Zeroes(CLDB_SIZE));
  }

  /** On buffers that carry the control-logic type the two accept the same
      nodes; on an accepted node the code as written faults exactly when one
      of the corrected walk's queries went unanswered, and otherwise returns
      0 with the corrected walk. */
  lemma AddAgreesWithBind(e: Evaluation, stack: seq<byte>, rs: seq<Resource>, dsm: u32 -> Option<u64>,
                           sink: SinkCall -> int)
    requires |stack| == CLDB_SIZE
    requires !IsCopyable(e) || |e.obj.value.bytes| >= 2
    ensures var o := AddAsWritten(e, stack, rs, dsm, sink);
            (o.AddFaulted? || o.walk.Some?) <==> Bind(e, rs, dsm, sink).Bound?
    ensures Bind(e, rs, dsm, sink).Bound? ==>
              var w := Bind(e, rs, dsm, sink).walk;
              AddAsWritten(e, stack, rs, dsm, sink)
                == if CountAnswered(w.queries, dsm) == |w.queries| then AddReturned(0, Some(w)) else AddFaulted
  {
    ValidateAgreesWhenDefined(e, stack);
  }

  /** A discrete node with one GPIO/IO pin that has no _DSM entry: the code
      as written faults while binding, the corrected binding binds it with
      -ENODEV for that pin and empty tables. */
  lemma AddFaultsOnMissingAnswer(g: GpioDescriptor, sink: SinkCall -> int)
    requires g.connection == IoConnection
    ensures var c := CldbRecord(0, TypeCode(Discrete), 0, 0, Zeroes(RESERVED_SIZE));
            var e := Evaluated(Some(Buffer(Encode(c))));
            && AddAsWritten(e, Zeroes(CLDB_SIZE), [GpioResource(g)], _ => None, sink) == AddFaulted
            && Bind(e, [GpioResource(g)], _ => None, sink) == Bound(WalkResult(EmptyContext, [2], [-ENODEV]))
  {
    var c := CldbRecord(0, TypeCode(Discrete), 0, 0, Zeroes(RESERVED_SIZE));
    var e := Evaluated(Some(Buffer(Encode(c))));
    var rs, none: u32 -> Option<u64> := [GpioResource(g)], _ => None;
    FullBufferRoundTrip(c, Zeroes(CLDB_SIZE));
    assert Validate(e).Accepted?;
    assert rs[..0] == [];
    MissingDsmFaultsAsWritten(g, sink);
    WalkUnfold(EmptyContext, rs, none, sink);
    assert Walk(EmptyContext, rs, none, sink) == WalkResult(EmptyContext, [2], [-ENODEV]);
    WalkAsWrittenFaults(EmptyContext, rs, none, sink);
    assert CountAnswered([2], none) == 0 by {
      assert [2 as u32][..0] == [];
    }
  }
}
