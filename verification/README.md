# INT3472 discrete camera PMIC: a Dafny model

The INT3472 ACPI device sits next to a camera sensor on laptops with Intel
IPU3 cameras. On machines designed for Windows it is often a "discrete"
stand-in rather than a real TPS68470 PMIC. In that case the sensor's GPIO
pins (reset line, power enables, privacy LED) are listed in the device's
_CRS method. The purpose of each pin is encoded in the integer a _DSM method
returns for it.

The driver does two things when it binds such a node:

- **The CLDB gate** (`int3472_add`). It evaluates the node's CLDB method and
  requires a buffer no larger than the 32-byte CLDB record. It copies the
  buffer into the record and binds only when the control-logic type byte
  (offset 1) is 1, "discrete".
- **The _CRS walk** (`int3472_parse_crs` and
  `int3472_handle_gpio_resources`). Every resource entry is handed to a
  callback, which does the following:
  - It skips anything that is not a GPIO descriptor of IO connection type,
    returning a positive EINVAL.
  - It asks the _DSM method for function `n_gpios + 2`, in unsigned int
    arithmetic.
  - It classifies the low byte of the answer:
    - 0x00: reset pin;
    - 0x01, 0x0b and 0x0c: regulator;
    - 0x0d: indicator LED;
    - anything else: unknown.
  - It hands the pin to the matching registration helper and increments
    `n_gpios`.

Modules:

- `Acpi` (acpi.dfy): bytes, unsigned widths, error numbers, ACPI objects,
  evaluation outcomes and resource descriptors.
- `Cldb` (cldb.dfy): the CLDB record, its control-logic type, and its 32-byte
  image (`Encode`/`Decode`). It also has the partial copy (`Memcpy`, and
  `CopyBytes` as a loop).
- `Gate` (gate.dfy): the CLDB checks. `CheckCldb` is the code as written,
  where bytes the firmware did not supply come from an uninitialised stack
  record. `Validate` is the same gate on a zero-initialised record.
- `Gpio` (gpio.dfy): the resource callback (`Step`), the pin classification
  and the counter arithmetic.
- `Crs` (crs.dfy): the callback folded over the resource list (`Walk`, and
  `ParseCrs` as a loop), with its properties.
- `Binding` (binding.dfy): binding a node. `AddAsWritten` is the code as written,
  including the callback as written (`Crs.WalkAsWritten`); `Bind` is the
  corrected version.

Several things come from firmware or from other code, so they are
parameters of the model:

- The _DSM method is a function `dsm` from selector to `Option<u64>`. `None`
  means no integer object came back.
- The two registration helpers (`cio2_bridge_map_gpio_to_sensor` and
  `cio2_bridge_register_regulator`) are modelled as appends to the lookup
  table and the regulator list. Their return code comes from an oracle
  `sink`.
- The CLDB evaluation is an `Evaluation` value.

Three points where the driver's behaviour is easy to misread; the model
follows the code in each:

- **The pin counter.** One could expect the counter to advance for every
  GPIO entry, classified or not. In the code it is incremented only after the
  _DSM method returned an object (int3472.c:29-32 returns before
  int3472.c:56); unknown codes do advance it. A GPIO entry whose _DSM answer
  is missing leaves the counter where it was, so if the resource iterator
  goes on past that negative return, the next GPIO entry queries the same
  selector (`MissingAnswerRepeatsSelector`).
- **Regulators.** One could expect code 0x0b, a supply wired to a device
  other than the sensor, to be recorded with a tag. In the code it calls the
  regulator helper exactly like 0x01 and 0x0c (int3472.c:38-44), so the model
  records no tag.
- **The counter's owner.** The source refers to the counter as
  `sensor->pmic.n_gpios`, through an identifier `sensor` that the function
  does not declare. The model uses the device context's own `n_gpios`
  (int3472.h:21), which the callback receives as its `data` argument.

## Model

| member | source | states |
|---|---|---|
| Cldb.TypeOf | int3472.h:3-10 | the control-logic type byte decodes to "discrete" exactly when it is 1, and to an undocumented type exactly when it is above 3; the decoding is lossless |
| Cldb.TypeCodeRoundTrip | int3472.h:3-10 | each documented control-logic type survives encoding to its byte and decoding back |
| Cldb.Encode | int3472.h:1-14 | the record's image is 32 bytes: version at offset 0, control-logic type at 1, control-logic id at 2, sensor card SKU at 3, the 28 reserved bytes from offset 4 |
| Cldb.Decode | int3472.h:1-14 | any 32-byte image reads as a well-formed record whose control-logic type is byte 1 |
| Cldb.DecodeEncode | int3472.h:1-14 | decoding the image of a well-formed record gives back that record |
| Cldb.EncodeDecode | int3472.h:1-14 | encoding the record read from any 32-byte image gives back that image |
| Cldb.Memcpy | int3472.c:115 | copying a shorter buffer into the record replaces exactly its first `length` bytes and keeps the rest as they were |
| Cldb.CopyBytes | int3472.c:115 | the byte-by-byte copy loop produces the firmware bytes as prefix and the previous contents as suffix, with the length unchanged, and so agrees with `Memcpy` |
| Gate.CheckCldb | int3472.c:93-125 | -ENODEV exactly for an evaluation failure or a missing object; a non-buffer, a buffer over 32 bytes and a copied record whose byte 1 is not 1 give -EINVAL; the node is accepted exactly when byte 1 of the copied record is 1, and the accepted record is the copied one; no other outcome |
| Gate.CopyKeepsPrefix | int3472.c:109-115 | the record after the copy begins with the firmware buffer and continues with the previous stack contents |
| Gate.FullBufferRoundTrip | int3472.c:115-125 | a 32-byte buffer holding a record's image is accepted exactly when that record is discrete, and then yields that very record whatever the stack held |
| Gate.LongBufferIgnoresStack | int3472.c:115-125 | with at least two firmware bytes the decision is byte 1 of the buffer and does not depend on the stale stack |
| Gate.ShortBufferReadsStack | int3472.c:81 | the same one-byte buffer is accepted or rejected depending on the uninitialised stack byte at offset 1 |
| Gate.Validate | int3472.c:93-125 | with a zero-initialised record, the node is accepted exactly when the object is a buffer of 2 to 32 bytes whose byte 1 is 1, and the accepted record is the buffer padded with zeroes; -ENODEV exactly for a failed evaluation or a missing object |
| Gate.ValidateAgreesWhenDefined | int3472.c:93-125 | the zero-initialised gate and the gate as written take the same decision, and return the same error, on every buffer of at least two bytes and on every non-buffer path |
| Acpi.IsGpioIo | int3472.c:14-15 | an entry is skipped exactly when it is another resource type or a GPIO descriptor of interrupt connection type |
| Gpio.Selector | int3472.c:22-25 | the _DSM function index is `n_gpios + 2`, or that sum less one wrap of 2^32, which as an unsigned int determines it |
| Gpio.Inc | int3472.c:56 | `n_gpios++` is `n_gpios + 1`, or that sum less one wrap of 2^32 |
| Gpio.Classify | int3472.c:34-54 | codes outside {0x00, 0x01, 0x0b, 0x0c, 0x0d} are exactly the unknown ones; every code lies in the code set of its category |
| Gpio.ClassifyMatchesCodes | int3472.c:34-54 | the classification and the code table per category agree in both directions |
| Gpio.Step | int3472.c:8-60 | a non-GPIO/IO entry returns positive EINVAL, queries nothing and changes nothing; a GPIO/IO entry queries selector `n_gpios + 2`; a missing _DSM object returns -ENODEV with the context unchanged; the counter advances by one exactly when an object came back |
| Gpio.StepGrows | int3472.c:34-56 | the lookup table and regulator list only grow, by at most one entry in total, and exactly by what the pin's category registers; lookup labels stay "reset" or "indicator-led" |
| Gpio.StepTable | int3472.c:34-54 | on the raw low byte: 0x00 maps the pin as "reset"; 0x01, 0x0b and 0x0c register a regulator; 0x0d maps it as "indicator-led"; unknown codes register nothing and return positive EINVAL; each return code is the helper's |
| Gpio.StepUsesLowByteOnly | int3472.c:34 | two _DSM answers with the same low byte lead to the same step |
| Gpio.CounterArithmeticWraps | int3472.h:21 | the selector and the increment are the unsigned int sums taken modulo 2^32 |
| Gpio.StepAsWritten | int3472.c:22-32 | the callback as written faults exactly on a GPIO/IO entry whose _DSM object is missing |
| Gpio.MissingDsmFaultsAsWritten | int3472.c:27-32 | a GPIO/IO pin with no _DSM answer faults as written, while the corrected step returns -ENODEV at selector 2 with nothing changed |
| Gpio.AsWrittenAgreesWhenCompleted | int3472.c:8-60 | when the code as written does not fault it computes the corrected step |
| Crs.Walk | int3472.c:62-75 | the callback runs once for every resource entry, in list order, with one return code per entry; the lemmas below state what the fold computes |
| Crs.WalkGrows | int3472.c:62-75 | over a whole walk the tables only grow, by at most one entry per GPIO/IO entry; non-GPIO entries return positive EINVAL; labels stay the driver's own |
| Crs.WalkQueryCount | int3472.c:14-25 | exactly the GPIO/IO entries query the _DSM method, one query each, whatever the counter does |
| Crs.WalkRetAt | int3472.c:62-75 | the j-th return code is the callback's code for entry j in the context left by the entries before it; a non-GPIO entry returns positive EINVAL and a GPIO/IO entry whose selector goes unanswered returns -ENODEV |
| Crs.WalkPinCodes | int3472.c:34-59 | when the firmware answers every selector up to the one a GPIO/IO entry asks, that entry's code is what its pin's category calls for (the helper's code for a known type, positive EINVAL for an unknown one), whatever follows it |
| Crs.WalkCounter | int3472.c:22-25 | without wrap-around, exactly the GPIO/IO entries query the _DSM method, and the counter ends at its start plus the number of answered queries |
| Crs.WalkCountsPins | int3472.c:56 | when the firmware answers the selectors `n + 2`, ..., `n + 1 + k` for the k GPIO/IO entries, the counter ends at its start plus k |
| Crs.WalkSelectors | int3472.c:18-25 | when the firmware answers those selectors, the k-th GPIO/IO entry queries selector `n + 2 + k`, with no gaps |
| Crs.FreshWalkSelectors | int3472.c:18-25 | from a fresh context whose selectors 2, ..., k + 1 are answered, the queries are exactly 2, 3, 4, ..., one per GPIO/IO entry |
| Crs.MissingAnswerRepeatsSelector | int3472.c:29-32 | a missing _DSM answer returns -ENODEV and leaves the counter as it was; in the full walk the next GPIO/IO entry then queries the same selector |
| Crs.WalkAppend | int3472.c:62-75 | walking a concatenation is walking the first part and then the second from where the first ended, so the walk of any prefix is a prefix of the walk |
| Crs.WalkSkipsOthers | int3472.c:14-16 | dropping the non-GPIO/IO entries changes neither the final context nor the queries |
| Crs.NoGpioNoChange | int3472.c:14-16 | a list without GPIO/IO entries queries nothing and leaves the context untouched |
| Crs.WalkTables | int3472.c:62-75 | when the firmware answers the selectors the GPIO/IO entries ask, the lookup table and regulator list are exactly the reference tables: the i-th GPIO/IO pin contributes what the answer to selector `n + 2 + i` classifies it as |
| Crs.WalkAsWritten | int3472.c:22-75 | the walk with the callback as written either faults or ends with one return code per entry and at most one _DSM query per entry; the next row gives when it faults |
| Crs.WalkAsWrittenFaults | int3472.c:22-60 | the walk with the callback as written faults exactly when one of the corrected walk's _DSM queries went unanswered, and otherwise ends exactly as the corrected walk |
| Crs.ParseCrs | int3472.c:62-75 | the loop over the resource list computes exactly the callback folded over the list, first entry first, with one return code per entry |
| Binding.AddAsWritten | int3472.c:93-147 | the add routine as written returns nonzero (-ENODEV) exactly when the evaluation failed or returned no object; it walks the resources exactly when the gate as written accepts; the walk faults exactly when a _DSM query went unanswered, and otherwise is the corrected walk from a fresh context |
| Binding.Bind | int3472.c:93-140 | the corrected binding refuses exactly when the zero-initialised gate rejects, with its negative error; it binds only a buffer whose byte 1 is 1, and then walks the resource list from a fresh context, one callback per entry |
| Binding.BindChecksVariant | int3472.c:117-125 | the image of a record of any control-logic type other than discrete is refused with -EINVAL; a discrete one is bound |
| Binding.BindQueriesFromTwo | int3472.c:127-138 | a bound node starts its walk from a fresh context, so when selectors 2, ..., k + 1 are answered its queries are 2, 3, 4, ... and its counter ends at the number k of GPIO/IO entries |
| Binding.AddReportsSuccessOnRejection | int3472.c:122-147 | the image of a TPS68470 record is rejected by the gate, yet the add routine as written returns 0, where the corrected binding returns -EINVAL |
| Binding.AddAgreesWithBind | int3472.c:93-140 | on buffers of at least two bytes the code as written and the corrected binding accept the same nodes; on an accepted node the code as written faults exactly when a query of the corrected walk went unanswered, and otherwise returns 0 with the corrected walk |
| Binding.AddFaultsOnMissingAnswer | int3472.c:22-32 | a discrete node with one GPIO/IO pin and no _DSM entry faults while binding as written, and is bound with -ENODEV for that pin by the corrected binding |

## Left out

- Module registration, the ACPI match table and `int3472_remove` are kernel glue with no logic of their own.
- How `acpi_dev_get_resources` reacts to the callback's return codes is not modelled. The walk visits every entry and records each code. `Crs.WalkAppend` shows that stopping after any prefix gives the walk of that prefix.
- The `acpi_dev_get_resources` return value itself is not modelled. `Binding.Bind` therefore reports a bound node with its walk, not with a return code.
- Memory management is not modelled: the buffers, `ACPI_FREE`, `kfree` and `acpi_dev_free_resource_list`. This includes the `kzalloc` failure path (-ENOMEM) and the swapped `kzalloc` arguments at int3472.c:127.
- The dependent sensor lookup (`acpi_dev_get_next_dep_dev`) is not modelled, and neither are the `adev`/`driver_data` links; the model has no consumer for them.
- Logging (`pr_info`, `dev_warn`, `dev_err`) is not modelled, except where the `pr_info` at int3472.c:27 dereferences the object (see Findings).
- The registration helpers are not part of this model. They are modelled as appends whose return code comes from an oracle.
- The _DSM GUID, revision and handle are fixed arguments and are folded into the `dsm` oracle.
- Crs.WalkCounter: proved only when the counter cannot wrap during the walk (fewer than 2^32 - 2 GPIO entries past the start), because the wrapping case needs modular reasoning the proof does not carry. Step and Walk themselves model the wrap; the query count alone holds without the bound (`Crs.WalkQueryCount`).
- Crs.WalkCountsPins: the same no-wrap precondition, for the same reason.
- Crs.WalkPinCodes: requires that the counter has not wrapped before the entry, for the same reason.
- Crs.WalkSelectors: the same no-wrap precondition, for the same reason.
- Crs.WalkTables: the same no-wrap precondition, for the same reason.
- Crs.FreshWalkSelectors: requires fewer than 2^32 - 2 GPIO entries, the no-wrap condition from a fresh context.
- Binding.BindQueriesFromTwo: the same bound on the number of GPIO entries.

## Findings

| source | as written | input that shows it | evidently intended | confidence | as-written member | corrected member |
|---|---|---|---|---|---|---|
| int3472.c:81-122 | `cldb` is an uninitialised stack variable, and `memcpy` only fills `buffer.length` bytes, so a buffer shorter than 2 bytes leaves the control-logic type as whatever was on the stack | CLDB buffer `[0]`: accepted if stack byte 1 happens to be 1, rejected if it is 0 | zero-initialise the record, so bytes the firmware did not supply read as 0 | high (not executed) | Gate.ShortBufferReadsStack | Gate.Validate |
| int3472.c:27-32 | the `pr_info` dereferences `obj` before the NULL check | a GPIO/IO entry for which the _DSM method returns no integer object | check for NULL first, return -ENODEV | high (not executed) | Gpio.MissingDsmFaultsAsWritten | Gpio.Step |
| int3472.c:122-147 | every `goto out_free_buff` path ends in `return 0`, so the gate's rejections (and a failed walk) report success | CLDB buffer holding a TPS68470 record (byte 1 = 2) | `return ret` | high (not executed) | Binding.AddReportsSuccessOnRejection | Binding.Bind |
