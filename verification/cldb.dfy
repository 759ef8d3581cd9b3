/**
  The CLDB ("control logic data buffer") record an INT3472 node exposes: a
  32-byte structure of four one-byte fields followed by 28 reserved bytes,
  together with its byte layout and the documented control-logic types.
 */
module Cldb {
  import opened Acpi

  /** sizeof(struct int3472_cldb). */
  const CLDB_SIZE: nat := 32
  const RESERVED_SIZE: nat := 28

  /** Byte offsets of the fields within the record. */
  const VERSION_OFFSET: nat := 0
  const CONTROL_LOGIC_TYPE_OFFSET: nat := 1
  const CONTROL_LOGIC_ID_OFFSET: nat := 2
  const SENSOR_CARD_SKU_OFFSET: nat := 3
  const RESERVED_OFFSET: nat := 4

  datatype CldbRecord = CldbRecord(
    version: byte,
    controlLogicType: byte,
    controlLogicId: byte,
    sensorCardSku: byte,
    reserved: seq<byte>)

  /** A record whose reserved area has the declared 28 bytes. */
  predicate WellFormed(r: CldbRecord) {
    |r.reserved| == RESERVED_SIZE
  }

  /** The control-logic types documented for the `control_logic_type` byte. */
  datatype ControlLogicType =
    | UnknownLogic
    | Discrete
    | Tps68470
    | Up6641
    | Undocumented(code: byte)

  /** The byte value that denotes a given control-logic type. */
  function TypeCode(t: ControlLogicType): byte {
    match t
    case UnknownLogic => 0
    case Discrete => 1
    case Tps68470 => 2
    case Up6641 => 3
    case Undocumented(c) => c
  }

  /** Interpretation of a `control_logic_type` byte. Only the value 1 names
      the discrete variant; 0..3 are the documented values. */
  function TypeOf(code: byte): (t: ControlLogicType)
    ensures t.Discrete? <==> code == 1
    ensures t.Undocumented? <==> code > 3
    ensures TypeCode(t) == code
  {
    if code == 0 then UnknownLogic
    else if code == 1 then Discrete
    else if code == 2 then Tps68470
    else if code == 3 then Up6641
    else Undocumented(code)
  }

  /** Every documented type is read back from its own code. */
  lemma TypeCodeRoundTrip(t: ControlLogicType)
    requires !t.Undocumented? || t.code > 3
    ensures TypeOf(TypeCode(t)) == t
  {
  }

  /** The in-memory image of a record. */
  function Encode(r: CldbRecord): (b: seq<byte>)
    requires WellFormed(r)
    ensures |b| == CLDB_SIZE
    ensures b[VERSION_OFFSET] == r.version
    ensures b[CONTROL_LOGIC_TYPE_OFFSET] == r.controlLogicType
    ensures b[CONTROL_LOGIC_ID_OFFSET] == r.controlLogicId
    ensures b[SENSOR_CARD_SKU_OFFSET] == r.sensorCardSku
    ensures b[RESERVED_OFFSET..] == r.reserved
  {
    [r.version, r.controlLogicType, r.controlLogicId, r.sensorCardSku] + r.reserved
  }

  /** Reads a record out of a 32-byte image. */
  function Decode(b: seq<byte>): (r: CldbRecord)
    requires |b| == CLDB_SIZE
    ensures WellFormed(r)
    ensures r.controlLogicType == b[CONTROL_LOGIC_TYPE_OFFSET]
  {
    CldbRecord(b[0], b[1], b[2], b[3], b[RESERVED_OFFSET..])
  }

  lemma DecodeEncode(r: CldbRecord)
    requires WellFormed(r)
    ensures Decode(Encode(r)) == r
  {
  }

  lemma EncodeDecode(b: seq<byte>)
    requires |b| == CLDB_SIZE
    ensures Encode(Decode(b)) == b
  {
    assert Encode(Decode(b)) == b[..RESERVED_OFFSET] + b[RESERVED_OFFSET..];
  }

  /** `memcpy(dest, src, |src|)`: the first |src| bytes of `dest` are
      replaced by `src`, the rest of `dest` is left as it was. */
  function Memcpy(dest: seq<byte>, src: seq<byte>): (r: seq<byte>)
    requires |src| <= |dest|
    ensures |r| == |dest|
    ensures forall i :: 0 <= i < |src| ==> r[i] == src[i]
    ensures forall i :: |src| <= i < |dest| ==> r[i] == dest[i]
  {
    src + dest[|src|..]
  }

  /** Byte-by-byte copy, as memcpy performs it; it writes only inside the
      destination and agrees with `Memcpy`. */
  method CopyBytes(dest: seq<byte>, src: seq<byte>) returns (r: seq<byte>)
    requires |src| <= |dest|
    ensures |r| == |dest|
    ensures r[..|src|] == src
    ensures r[|src|..] == dest[|src|..]
    ensures r == Memcpy(dest, src)
  {
    r := dest;
    var i := 0;
    while i < |src|
      invariant 0 <= i <= |src|
      invariant |r| == |dest|
      invariant r[..i] == src[..i]
      invariant r[i..] == dest[i..]
    {
      r := r[i := src[i]];
      i := i + 1;
    }
  }
}
