/**
  The CLDB gate of `int3472_add`: evaluate the node's CLDB method, check that
  the result is a buffer no larger than the record, copy it into the record
  and accept the node only when its control-logic type is "discrete".

  `CheckCldb` models the code as written, where the record is a stack
  variable that the copy only partly overwrites when the buffer is short:
  the bytes it leaves alone are whatever the stack held, passed in here as
  `stack`. `Validate` is the corrected gate on a zero-initialised record.
 */
module Gate {
  import opened Acpi
  import opened Cldb

  datatype GateResult =
    | Accepted(cldb: CldbRecord)
    | Rejected(ret: int)

  /** The firmware buffer that reaches the copy, if any. */
  predicate IsCopyable(e: Evaluation) {
    e.Evaluated? && e.obj.Some? && e.obj.value.Buffer? && |e.obj.value.bytes| <= CLDB_SIZE
  }

  /** The record after the copy, starting from the prior contents `stack`. */
  function CopiedRecord(e: Evaluation, stack: seq<byte>): CldbRecord
    requires IsCopyable(e) && |stack| == CLDB_SIZE
  {
    Decode(Memcpy(stack, e.obj.value.bytes))
  }

  /** The gate as written, with checks in source order. */
  function CheckCldb(e: Evaluation, stack: seq<byte>): (r: GateResult)
    requires |stack| == CLDB_SIZE
    ensures e.EvalFailure? ==> r == Rejected(-ENODEV)
    ensures e.Evaluated? && e.obj.None? ==> r == Rejected(-ENODEV)
    ensures e.Evaluated? && e.obj.Some? && !e.obj.value.Buffer? ==> r == Rejected(-EINVAL)
    ensures e.Evaluated? && e.obj.Some? && e.obj.value.Buffer? && |e.obj.value.bytes| > CLDB_SIZE
            ==> r == Rejected(-EINVAL)
    ensures r.Rejected? ==> r.ret == -ENODEV || r.ret == -EINVAL
    ensures (e.EvalFailure? || e.obj.None?) <==> r == Rejected(-ENODEV)
    ensures IsCopyable(e) && CopiedRecord(e, stack).controlLogicType != 1 ==> r == Rejected(-EINVAL)
    ensures r.Accepted? <==> IsCopyable(e) && TypeOf(CopiedRecord(e, stack).controlLogicType) == Discrete
    ensures r.Accepted? ==> WellFormed(r.cldb) && r.cldb == CopiedRecord(e, stack)
  {
    match e
    case EvalFailure => Rejected(-ENODEV)
    case Evaluated(None) => Rejected(-ENODEV)
    case Evaluated(Some(obj)) =>
      if !obj.Buffer? then Rejected(-EINVAL)
      else if |obj.bytes| > CLDB_SIZE then Rejected(-EINVAL)
      else
        var cldb := Decode(Memcpy(stack, obj.bytes));
        if cldb.controlLogicType != 1 then Rejected(-EINVAL)
        else Accepted(cldb)
  }

  /** The record the source copies into: only the first `length` bytes come
      from firmware; the rest are the previous contents. */
  lemma CopyKeepsPrefix(e: Evaluation, stack: seq<byte>)
    requires |stack| == CLDB_SIZE && IsCopyable(e)
    ensures Encode(CopiedRecord(e, stack))[..|e.obj.value.bytes|] == e.obj.value.bytes
    ensures Encode(CopiedRecord(e, stack))[|e.obj.value.bytes|..] == stack[|e.obj.value.bytes|..]
  {
    EncodeDecode(Memcpy(stack, e.obj.value.bytes));
  }

  /** A full 32-byte buffer holding the image of a record is accepted exactly
      when that record is the discrete variant, and yields that very record
      whatever the stack held. */
  lemma FullBufferRoundTrip(c: CldbRecord, stack: seq<byte>)
    requires WellFormed(c) && |stack| == CLDB_SIZE
    ensures CheckCldb(Evaluated(Some(Buffer(Encode(c)))), stack).Accepted? <==> c.controlLogicType == 1
    ensures c.controlLogicType == 1 ==> CheckCldb(Evaluated(Some(Buffer(Encode(c)))), stack) == Accepted(c)
  {
    assert Memcpy(stack, Encode(c)) == Encode(c);
    DecodeEncode(c);
  }

  /** The gate reads the byte at offset 1 of the buffer: once the firmware
      supplies at least two bytes, the stale stack contents cannot change the
      decision. */
  lemma LongBufferIgnoresStack(e: Evaluation, s1: seq<byte>, s2: seq<byte>)
    requires |s1| == CLDB_SIZE && |s2| == CLDB_SIZE
    requires IsCopyable(e) && |e.obj.value.bytes| >= 2
    ensures CheckCldb(e, s1).Accepted? <==> e.obj.value.bytes[CONTROL_LOGIC_TYPE_OFFSET] == 1
    ensures CheckCldb(e, s1).Accepted? == CheckCldb(e, s2).Accepted?
  {
  }

  /** With fewer than two bytes the decision of the code as written rests on
      uninitialised memory: a one-byte buffer is accepted or rejected
      according to the stack byte at offset 1. */
  lemma ShortBufferReadsStack()
    ensures CheckCldb(Evaluated(Some(Buffer([0]))), Zeroes(CLDB_SIZE)[1 := 1]).Accepted?
    ensures CheckCldb(Evaluated(Some(Buffer([0]))), Zeroes(CLDB_SIZE)) == Rejected(-EINVAL)
  {
    var one := Zeroes(CLDB_SIZE)[1 := 1];
    assert Memcpy(one, [0])[1] == 1;
    assert Memcpy(Zeroes(CLDB_SIZE), [0])[1] == 0;
  }

  function Zeroes(n: nat): (z: seq<byte>)
    ensures |z| == n && forall i :: 0 <= i < n ==> z[i] == 0
  {
    seq(n, _ => 0)
  }

  /** The corrected gate: the record starts zero-initialised, so bytes the
      firmware did not supply read as 0. */
  function Validate(e: Evaluation): (r: GateResult)
    ensures r.Accepted? <==> IsCopyable(e) && |e.obj.value.bytes| >= 2
                              && e.obj.value.bytes[CONTROL_LOGIC_TYPE_OFFSET] == 1
    ensures r.Rejected? ==> r.ret == -ENODEV || r.ret == -EINVAL
    ensures (e.EvalFailure? || e.obj.None?) <==> r == Rejected(-ENODEV)
    ensures r.Accepted? ==> IsCopyable(e) && r.cldb == CopiedRecord(e, Zeroes(CLDB_SIZE))
  {
    CheckCldb(e, Zeroes(CLDB_SIZE))
  }

  /** The corrected gate agrees with the code as written on every buffer
      long enough to carry the control-logic type, and on every error path. */
  lemma ValidateAgreesWhenDefined(e: Evaluation, stack: seq<byte>)
    requires |stack| == CLDB_SIZE
    requires !IsCopyable(e) || |e.obj.value.bytes| >= 2
    ensures Validate(e).Accepted? == CheckCldb(e, stack).Accepted?
    ensures Validate(e).Rejected? ==> Validate(e) == CheckCldb(e, stack)
  {
  }
}
