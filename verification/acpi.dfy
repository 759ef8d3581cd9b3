/**
  Firmware-facing vocabulary shared by the INT3472 model: fixed-width
  integers, the kernel error numbers the driver returns, the ACPI objects a
  method evaluation can hand back, and the resource descriptors reported by a
  device's _CRS method.
 */
module Acpi {

  datatype Option<+T> = None | Some(value: T)

  type byte = x: int | 0 <= x < 0x100
  const U32_MODULUS: int := 0x1_0000_0000
  type u32 = x: int | 0 <= x < U32_MODULUS
  type u64 = x: int | 0 <= x < 0x1_0000_0000_0000_0000

  /** Linux error numbers used by the driver (returned negated, except where
      the resource callback deliberately returns a positive EINVAL). */
  const ENODEV: int := 19
  const EINVAL: int := 22

  /** The low byte of an ACPI integer, i.e. `value & 0xff`. */
  function LowByte(v: u64): byte {
    v % 0x100
  }

  /** An ACPI object as returned by a method evaluation. Only the cases the
      driver distinguishes are spelled out. */
  datatype AcpiObject =
    | Integer(value: u64)
    | Buffer(bytes: seq<byte>)
    | OtherObject(typeCode: nat)

  /** Outcome of `acpi_evaluate_object`: a failing status, or success with the
      returned buffer pointer, which may still be NULL. */
  datatype Evaluation =
    | EvalFailure
    | Evaluated(obj: Option<AcpiObject>)

  /** GPIO connection type of an ACPI GpioInt/GpioIo descriptor. */
  datatype ConnectionType = InterruptConnection | IoConnection

  /** The parts of an ACPI GPIO descriptor the mapping carries along; the
      driver passes the descriptor through to the sinks untouched. */
  datatype GpioDescriptor = GpioDescriptor(connection: ConnectionType, pins: seq<nat>, activeLow: bool)

  /** One entry of the _CRS resource list: a GPIO descriptor, or any other
      resource type, identified by its ACPI resource type number. */
  datatype Resource =
    | GpioResource(gpio: GpioDescriptor)
    | OtherResource(resourceType: nat)

  /** True for the entries the driver classifies: GPIO descriptors whose
      connection type is IO. */
  predicate IsGpioIo(r: Resource)
    // Skipped: every other resource type, and interrupt-type GPIO descriptors.
    ensures !IsGpioIo(r) <==> r.OtherResource? || r.gpio.connection == InterruptConnection
  {
    r.GpioResource? && r.gpio.connection == IoConnection
  }
}
