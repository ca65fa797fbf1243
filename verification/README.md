# SML execution core in Dafny

A model of the execution core of the SML register machine: the register store
(`Registers`), the label table (`Labels`), and the instruction contract with its
two arithmetic variants (`MulInstruction` and `SubInstruction`). The model is purely
functional. Each Java mutator becomes a function that returns the new state.
`execute` becomes a function that takes a machine context and returns the new context
together with the program-counter directive.

Modules:

- `Wrappers`: `Option`, used for Java references that may be null, and `Result`, used
  for operations that throw.
- `JavaInt`: Java `int` as the subset type `Int32`. It defines the two's-complement
  wrap (`Wrap`), the wrapping `*` and `-`, and the decimal text `Integer.toString`
  gives, together with a reader for that text.
- `RegisterStore`: the `Register` enum and the store, a map from every register to an
  `Int32`. Totality is part of the store's type. The module defines `clear`, `get`,
  `set`, `equals` and the sorted `toString`.
- `LabelTable`: the name-to-address map, with `addLabel`, `getAddress`, `reset` and
  `equals`.
- `Instructions`: the `Instruction` datatype, with one variant per Java subclass. It
  also defines the machine context `execute` acts on, the
  `NORMAL_PROGRAM_COUNTER_UPDATE` sentinel (-1), the opcode, the label string, the
  text form with a reader for it, and `equals`.

Behaviour worth knowing:

- `addLabel` with a name that is already present overwrites its address. The code
  has no duplicate-label check; it is only a TODO at `src/sml/Labels.java:24`.
- `getAddress` on an absent or null name fails when Java unboxes `null` into an
  `int`. The model reports that failure as the error `NoSuchLabel`.
- Addresses are plain Java `int`s, and nothing checks their sign.
- `toString` of the registers sorts the entries by the enum's ordinal, which is
  declaration order: `EBP` comes after `EDX`.

## Model

| member | source | states |
|---|---|---|
| JavaInt.Wrap | src/sml/instruction/MulInstruction.java:31 | a Java `int` result agrees with the exact value in its low 32 bits and equals it when it fits |
| JavaInt.WrapUnique | src/sml/instruction/SubInstruction.java:25 | exactly one Java `int` agrees with a given integer in its low 32 bits, so the wrapped value is fully determined |
| JavaInt.MulInt | src/sml/instruction/MulInstruction.java:29-31 | `value1 * value2` is congruent to the exact product mod 2^32 and is exact when the product fits |
| JavaInt.SubInt | src/sml/instruction/SubInstruction.java:23-25 | `value1 - value2` is congruent to the exact difference mod 2^32 and is exact when the difference fits |
| JavaInt.DigitsRoundTrip | src/sml/Registers.java:68 | reading the digit string of a natural number gives back the number |
| JavaInt.DecimalRoundTrip | src/sml/Registers.java:68 | the decimal rendering of a register value reads back as that value |
| JavaInt.DecimalInjective | src/sml/Registers.java:68 | distinct values render as distinct decimal strings |
| JavaInt.Decimal | src/sml/Registers.java:68 | `Integer.toString` gives a non-empty text of digits with a leading `-` exactly for negative values; `DecimalCanonical` rules out leading zeros and `DecimalRoundTrip` is its inverse, which together fix the text |
| JavaInt.DigitsCanonical | src/sml/Registers.java:68 | the digit string of zero is `"0"` and that of any other number starts with a non-zero digit |
| JavaInt.DecimalCanonical | src/sml/Registers.java:68 | the decimal text is `"0"` for zero and otherwise has no leading zero and no `-0` |
| RegisterStore.Ordinal | src/sml/Registers.java:15-17 | each register sits at its ordinal in the declaration-order listing `values()` |
| RegisterStore.ParseName | src/sml/Registers.java:15-17 | a recognised three-letter name is the name of the register it denotes |
| RegisterStore.Name | src/sml/Registers.java:16 | the enum's `toString` is a comma-free three-letter name; `NameRoundTrip` shows it names exactly one register |
| RegisterStore.SortedListingIsDeclarationOrder | src/sml/Registers.java:66-67 | the only listing of all eight registers sorted by key is EAX, EBX, ECX, EDX, ESP, EBP, ESI, EDI |
| RegisterStore.TotalCovers | src/sml/Registers.java:13-26 | every register is a key of every store, so `get` never meets a missing entry |
| RegisterStore.PutZeroes | src/sml/Registers.java:24-25 | the clearing loop adds exactly the listed registers as keys, sets them to 0 and leaves the others alone |
| RegisterStore.Clear | src/sml/Registers.java:23-26 | after `clear` the store is total and every register reads 0, whatever it held before |
| RegisterStore.New | src/sml/Registers.java:19-21 | a newly constructed store reads 0 in every register |
| RegisterStore.Set | src/sml/Registers.java:34-46 | after `set(r, v)`, `get(r)` is `v` and every other register reads as before |
| RegisterStore.Get | src/sml/Registers.java:44-46 | `get` never meets a missing key and returns the stored value |
| RegisterStore.SetCurrentValue | src/sml/Registers.java:34-36 | writing the value a register already holds leaves the store unchanged |
| RegisterStore.SetCommutes | src/sml/Registers.java:34-36 | writes to different registers commute; of two writes to one register, the last wins |
| RegisterStore.Extensionality | src/sml/Registers.java:51-57 | two stores that agree on every register are the same store |
| RegisterStore.Equal | src/sml/Registers.java:51-57 | two stores are equal iff every register holds the same value in both |
| RegisterStore.ClearIdempotent | src/sml/Registers.java:23-26 | clearing twice is clearing once, and a cleared store equals a new one |
| RegisterStore.Entries | src/sml/Registers.java:66-68 | the entries follow, one to one, any strictly key-sorted listing of all registers (that is, `sorted(comparingByKey())`), each as `NAME = value` |
| RegisterStore.Entry | src/sml/Registers.java:68 | one map entry as text contains no comma, so the `", "` separators can be found again |
| RegisterStore.EntryShape | src/sml/Registers.java:68 | an entry is the register's name, then `" = "`, then the decimal text of its value |
| RegisterStore.RenderRegisters | src/sml/Registers.java:64-70 | the rendering is the sorted entries joined by `", "` inside `[` and `]` |
| RegisterStore.Join | src/sml/Registers.java:69 | `Collectors.joining`: its length is the items' lengths plus one separator per gap, it is empty for no items and starts with the first item; `JoinInjective` is its partner |
| RegisterStore.EntriesInDeclarationOrder | src/sml/Registers.java:66-67 | since `values()` is key-sorted, the entries are those of EAX, EBX, …, EDI in that order |
| RegisterStore.JoinInjective | src/sml/Registers.java:69 | joining comma-free entries with `", "` loses no information |
| RegisterStore.RenderInjective | src/sml/Registers.java:64-70 | two stores render the same iff they are equal, so the text determines the store |
| LabelTable.Empty | src/sml/Labels.java:14 | a fresh table gives no name an address |
| LabelTable.GetAddress | src/sml/Labels.java:34-39 | a lookup succeeds exactly for a non-null name that was added and returns its address; otherwise it fails and names the label |
| LabelTable.AddLabel | src/sml/Labels.java:22-26 | a null name is rejected; otherwise the name reads the new address afterwards and every other name's lookup is unchanged |
| LabelTable.Reset | src/sml/Labels.java:70-72 | after `reset`, no name has an address |
| LabelTable.Equal | src/sml/Labels.java:55-61 | two tables are equal iff every name gets the same lookup result from both |
| LabelTable.AddLabelOverwrites | src/sml/Labels.java:24-25 | adding a present name again replaces its address, with no duplicate error |
| LabelTable.AddLabelCommutes | src/sml/Labels.java:25 | adding two different names gives the same table in either order |
| Instructions.Opcode | src/sml/instruction/MulInstruction.java:19-22 | the opcode is `"mul"` exactly for Mul and `"sub"` exactly for Sub |
| Instructions.Execute | src/sml/instruction/MulInstruction.java:28-33 | `execute` returns `NORMAL_PROGRAM_COUNTER_UPDATE` (-1), the sentinel meaning "advance to the next address". The result register gets a value congruent to the old product or difference of the two operands. Every other register and the labels are unchanged |
| Instructions.ExecuteResultValue | src/sml/instruction/SubInstruction.java:22-26 | the new result value is the wrapped exact product or difference, and is exact when that fits |
| Instructions.ExecuteSameRegister | src/sml/instruction/MulInstruction.java:29-31 | with one register as both operands, `mul` squares it (both reads come first) and `sub` zeroes it |
| Instructions.ExecuteDependsOnOperandsOnly | src/sml/instruction/SubInstruction.java:23-25 | the new result value depends only on the two operand values |
| Instructions.MulExamples | src/sml/instruction/MulInstruction.java:28-32 | `mul EAX EBX` with EAX = 5, EBX = 6 gives EAX = 30 and keeps EBX = 6; with EAX = -5 it gives -30 |
| Instructions.SubExample | src/sml/instruction/SubInstruction.java:22-26 | `sub EAX EBX` with EAX = -5, EBX = 6 gives EAX = -11 |
| Instructions.LabelString | src/sml/Instruction.java:47-49 | the label string is empty iff there is no label; otherwise it is the label followed by `": "` |
| Instructions.ParseLabel | src/sml/Instruction.java:47-49 | a label part that is read back renders to the same text |
| Instructions.LabelRoundTrip | src/sml/Instruction.java:47-49 | the label string reads back as the label, or as no label |
| Instructions.RenderInstruction | src/sml/instruction/MulInstruction.java:36-38 | `toString` is the label string, then the opcode, the result name and the source name, separated by single spaces. `RenderRoundTrip` and `RenderAgreesWithEqual` are its partners |
| Instructions.Parse | src/sml/instruction/MulInstruction.java:36-38 | any text that reads as an instruction is exactly that instruction's rendering |
| Instructions.RenderRoundTrip | src/sml/instruction/SubInstruction.java:46-49 | reading the rendering `<label: >opcode result source` gives back the instruction |
| Instructions.Equal | src/sml/instruction/MulInstruction.java:41-50 | two instructions are equal iff they have the same variant, label, result and source; a Mul never equals a Sub |
| Instructions.RenderAgreesWithEqual | src/sml/instruction/SubInstruction.java:29-39 | two instructions render the same iff they are equal |

## Left out

- `Machine`, the fetch-execute loop, jump instructions and the program loader are
  outside the modelled core. `execute` acts on a context record that holds only the
  registers and the labels.
- `Labels.toString` is left out because it is an unimplemented stub that returns `""`.
- All `hashCode` methods are left out. They are Java hashing plumbing; the model uses
  value equality.
- Null registers are not modelled, because the `Register` datatype has no null value.
  In Java, `get(null)` throws a `NullPointerException` when it unboxes. `set(null, v)`
  stores a ninth, null key; after that, `equals` sees the extra entry and `toString`
  throws while sorting. An instruction built with a null register throws in
  `execute`, and its `toString` prints `null`.
- The `RegisterName` interface and the `(Register)` casts are left out. There is only
  one implementation, so the model uses the `Register` datatype directly and the
  `ClassCastException` path cannot arise.
- `NORMAL_PROGRAM_COUNTER_UPDATE` is a constant in the model. In Java it is a mutable
  static field.
- `getLabel` and `getOpcode` have no separate functions. The label is the datatype
  field `labelName` and the opcode is `Opcode`. The fields cannot change because
  Dafny datatypes are immutable values.
- Duplicate-label rejection is not modelled. The code only has a TODO for it, and the
  model keeps the current overwriting behaviour.
- `Instructions.Parse` relies on every opcode and register name being three
  characters wide. It is a reader for the rendering, not the program loader's parser.
- `test/sml/instruction/AddInstructionTest.java` is not used. It builds a
  `MulInstruction` but expects sums (11 and 1), while the instruction multiplies
  (30 and -30; see `Instructions.MulExamples`).
