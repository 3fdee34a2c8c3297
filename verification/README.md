# Rubinius bytecode, compiled files and VM primitives in Dafny

This project models the core of the Rubinius virtual machine's bytecode layer
and the data primitives beneath it:

- the instruction set (`InstructionSet::OpCodes`), the lookup
  `InstructionSet[x]` and the stack-effect resolver `OpCode#stack_difference`;
- the `Encoder`: `encode_stream`, which turns symbolic instructions into an
  `InstructionSequence` and records its peak stack depth; `decode_iseq`,
  which reads slots back and tolerates padding and junk after a return;
  `replace_instruction`;
- the compiled-file format: unsigned base-128 varints (unsigned LEB128, as in
  section 7.6 of the DWARF 4 standard), the tag/length/value marshaller
  `CompiledFile::Marshal`, and the three-line `.rbc` header of
  `CompiledFile.load`, `dump`, `encode_to` and `body`;
- the VM primitives:
  - `Tuple` (`put`, `copy_from`, `delete_inplace`, `pattern`);
  - `ByteArray` (byte access, moves, comparison, search);
  - the symbol table;
  - `Fixnum` arithmetic, shifts, bit operations and `to_s(base)`;
- the kernel's `Array` as a window `tuple[start, start + total)`;
- `Regexp` option bitmasks and `MatchData` offsets;
- the call frame's operand and unwind stacks;
- the C-extension handle table;
- backtrace formatting.

Every state is an immutable value. An operation that writes in place in
Rubinius (a tuple `put`, an array `<<`, a frame `push`) returns the new
state. Errors the source raises are `Err` values of a `Result`, or `None` of
an `Option`. Fixnum arguments that the C++ code stores in an `int` are
wrapped to 32 bits explicitly, and the written left shift wraps its
`native_int` result to 64 bits (module `MachineInt`). Bignum is an unbounded
`int`. Bytes are the subset type `Byte` (0 to 255).

The files, one per source unit:

- `wrappers.dfy`, `objects.dfy`, `bytes.dfy`, `machine_int.dfy`: shared types.
- `opcodes.dfy`, `encoder.dfy`: kernel/delta/iseq.rb.
- `varint.dfy`, `marshal.dfy`, `compiled_file.dfy`: kernel/compiler/compiled_file.rb.
- `tuple.dfy`: vm/builtin/tuple.cpp.
- `bytearray.dfy`: vm/builtin/bytearray.cpp.
- `symbol_table.dfy`: vm/symboltable.cpp.
- `numerals.dfy`, `fixnum.dfy`: vm/builtin/fixnum.cpp.
- `array.dfy`: kernel/common/array.rb.
- `regexp.dfy`: kernel/common/regexp.rb.
- `call_frame.dfy`: vm/call_frame.hpp.
- `handle.dfy`: shotgun/lib/subtend/handle.c.
- `backtrace.dfy`: kernel/common/backtrace.rb.

## Model

| member | source | states |
|---|---|---|
| OpCodes.LastIndexNamed | kernel/delta/iseq.rb:313-320 | the mnemonic hash keeps the last entry inserted under a name: the result is an index with that mnemonic and no later index has it; `None` exactly when no entry has it |
| OpCodes.Resolve | kernel/delta/iseq.rb:322-331 | `InstructionSet[x]` succeeds for a Fixnum exactly when it indexes the Ruby array (negative ids count from the end) and for a symbol exactly when some entry has that mnemonic; any other reference raises `InvalidOpCode` naming it |
| OpCodes.EntryWellFormed | kernel/delta/iseq.rb:46-182 | every table entry sits at the bytecode its mnemonic names, and each negative stack code selects an operand that its opcode has |
| OpCodes.MnemonicsDistinct | kernel/delta/iseq.rb:46-182 | no two opcodes share a mnemonic |
| OpCodes.MnemonicLookupIsPosition | kernel/delta/iseq.rb:313-331 | looking an opcode up by its mnemonic and by its position gives the same bytecode, the position in `OpCodes` |
| OpCodes.TableWellFormed | kernel/delta/iseq.rb:46-182 | the table has 86 entries; bytecode 0 is an operand-less `noop`; every stack formula resolves |
| OpCodes.StackCodeRoundTrip | kernel/delta/iseq.rb:24-35 | the three-digit negative code scheme `-[mult][operand][const]` is faithful: every formula with one-digit parts is recovered from its code, as is every fixed count |
| OpCodes.StackDifference | kernel/delta/iseq.rb:272-284 | produced minus consumed; a negative code consumes `mult * operand + const` and fails exactly when it selects the opcode slot or a slot past the operands |
| OpCodes.FormulaResolves | kernel/delta/iseq.rb:272-284 | for a table entry and a correctly sized operand list the stack difference always exists |
| OpCodes.SendStackEffect | kernel/delta/iseq.rb:107 | `send_stack` (code -121) consumes its count operand plus one and pushes one |
| Encoder.Encode | kernel/delta/iseq.rb:518-561 | an unknown opcode raises `InvalidOpCode`; an operand count that differs from the descriptor's raises `ArgumentError`, and for a well-formed table these are the only failures; success gives the bytecode, the operands in order, and the stack difference |
| Encoder.EncodeAsWritten | kernel/delta/iseq.rb:529-535 | the source's `encode`: an array element is treated as by `Encode`, while a bare reference is written as its bytecode alone whatever operand count the opcode expects; it succeeds exactly when the reference resolves and its stack difference can be formed |
| Encoder.BareStackDifference | kernel/delta/iseq.rb:272-284 | `stack_difference` of a bare reference: a fixed count is as for an empty operand list; a formula reads `inst[operand]` from the reference, which for a Fixnum is one bit of it (`Fixnum#[]`) and for a symbol raises; the result lies between the formula with that bit 0 and with it 1, and is the formula with 0 when the bytecode is below 2^operand |
| Encoder.EncodeIn | kernel/delta/iseq.rb:518-561 | the `encode` the stream uses, as written or corrected: either way success gives the element's operands and the bytecode its reference resolves to, and the two agree on array elements |
| Encoder.EncodeStream | kernel/delta/iseq.rb:413-436 | for either `encode` (`AsWritten` is the source's; `Checked` applies the operand-count check to bare references too): fails exactly when some element does not encode, with the error of the first such element; otherwise the sequence has the sum of the element sizes as its slot count, lays out each bytecode followed by its operands in order, and records as its stack depth the peak running sum of the stack effects (never negative) |
| Encoder.LayoutSize | kernel/delta/iseq.rb:413-416 | the laid-out slots number exactly the slots `encode_stream` allocates |
| Encoder.PeakStep | kernel/delta/iseq.rb:541-546 | updating the recorded depth with `max(depth, running sum)` after each instruction keeps it the peak over all prefixes |
| Encoder.ReadSlot | kernel/delta/iseq.rb:502-506 | reading a slot succeeds exactly for an index inside the sequence, and otherwise is a bounds error at that index |
| Encoder.DecodeInstruction | kernel/delta/iseq.rb:479-498 | the opcode at `ip` resolved through `InstructionSet[]` (an unknown one raises), followed by exactly its `arg_count` operand slots; running past the end is a bounds error |
| Encoder.DecodeIseq | kernel/delta/iseq.rb:375-405 | every decoded instruction names an opcode of the instruction set |
| Encoder.DecodeIseqSymbols | kernel/delta/iseq.rb:400-402 | the `symbols_only` form is the decoded list with each bytecode replaced by its mnemonic; errors pass through |
| Encoder.DecodeLayoutWhole | kernel/delta/iseq.rb:375-399 | slots laid out from encodings that fit their opcodes decode to those bytecodes and operands, in order |
| Encoder.DecodeInvertsEncode | kernel/delta/iseq.rb:375-405 | round trip: decoding what `encode_stream` lays out gives back each element's bytecode and operands, in order |
| Encoder.DecodeSymbolsInvertsEncode | kernel/delta/iseq.rb:400-402 | round trip in symbol form: a list written with mnemonics decodes to the same mnemonics and operands |
| Encoder.DecodeZeros | kernel/delta/iseq.rb:47 | zero slots decode as `noop`s, one per slot |
| Encoder.DecodePadded | kernel/delta/iseq.rb:390-399 | an encoded sequence padded with zero slots decodes to its instructions followed by one `noop` per padding slot; padding is kept, not stripped |
| Encoder.DecodeJunk | kernel/delta/iseq.rb:380-396 | a slot that names no opcode ends decoding quietly exactly when the last non-`noop` instruction has flow `:return`, and otherwise raises `InvalidOpCode` |
| Encoder.SpillFree | kernel/delta/iseq.rb:455-461 | a wider replacement may only spill into slots that are all zero; otherwise it raises `ArgumentError` |
| Encoder.ReplaceChecks | kernel/delta/iseq.rb:451-461 | the checks before any write: the opcode at `ip` and the new opcode resolve, and a wider new instruction finds only zero slots to spill into; an instruction no wider always passes |
| Encoder.ReplaceInstruction | kernel/delta/iseq.rb:447-473 | corrected (see Findings): the sequence keeps its length; on success the result reports the instruction decoded at `ip` before the change, the new instruction decodes at `ip`, old operand slots beyond the new instruction become zero and every other slot keeps its value; when it raises, the only slots changed are zeroed slots after `ip` |
| Encoder.ReplaceSucceedsIffSpillFree | kernel/delta/iseq.rb:455-461 | when the old instruction decodes and the new one encodes and fits, the replacement succeeds exactly when every slot the new instruction spills into beyond the old one holds zero |
| Encoder.ReplaceArityErrorZeroes | kernel/delta/iseq.rb:463-471 | an operand count that does not fit a new opcode no wider than the old one raises `ArgumentError` after the old operand slots have been zeroed: the call leaves exactly those slots zero and the rest unchanged |
| Encoder.DecodeWritten | kernel/delta/iseq.rb:470-472 | an instruction written at `ip` decodes back from there |
| Encoder.ReplaceAsWritten | kernel/delta/iseq.rb:447-473 | the source's `replace_instruction`: keeps the length and, on success, reports the opcode at `ip` and its first old operand as the opcode slot itself, with the new bytecode at `ip`; every other slot it changes, raising or not, is zeroed after `ip`; an operand count that does not fit the new opcode raises after the clearing loop has written |
| Encoder.ClearAsWritten | kernel/delta/iseq.rb:463-468 | the clearing loop as written: the `i`-th value read is slot `ip + 2i` and slot `ip + 2i + 1` becomes zero; only zeroes after `ip` are written, and a bounds error comes only once the loop runs past the end, leaving the earlier writes in place |
| Encoder.ReplaceReportsOpcodeAsOperand | kernel/delta/iseq.rb:463-468 | replacing `push_int 5` as written reports the opcode 4 as its old operand |
| Encoder.ReplaceReportsOperand | kernel/delta/iseq.rb:447-473 | the corrected replacement reports the old operand 5 |
| Encoder.ClearSendStack | kernel/delta/iseq.rb:463-468 | the clearing loop as written zeroes every other slot from `ip + 1` and reads the slots in between |
| Encoder.ReplaceClobbersNextInstruction | kernel/delta/iseq.rb:463-468 | replacing `send_stack 7 2; ret` by `noop` as written zeroes the following `ret` |
| Encoder.ReplaceKeepsNextInstruction | kernel/delta/iseq.rb:447-473 | the corrected replacement zeroes only the two old operand slots |
| Encoder.ArityErrorLeavesOperandZeroed | kernel/delta/iseq.rb:463-471 | replacing `push_int 5` by `push_nil 3` raises `ArgumentError` from `encode` and leaves `[4, 0, 12]` behind, in both readings |
| Encoder.BareReferenceSkipsArityCheck | kernel/delta/iseq.rb:529-535 | a bare `push_int` (which takes one operand) is accepted as written, and refused once the operand-count check applies to bare references |
| Encoder.BareLayoutDecodesAsOperand | kernel/delta/iseq.rb:529-535 | as written, `push_int; ret` lays out `[4, 12]`, which decodes as `push_int 12`: the `ret` is lost |
| Encoder.BareFixnumReadsBit | kernel/delta/iseq.rb:274-279 | a bare `36` (`send_stack`, code -121) reads its count as `36[2]`, bit 2 of 36, which is 1: as written it encodes as `[36]` with effect -1; with the check it raises `ArgumentError` |
| Encoder.ModesAgreeOnArrays | kernel/delta/iseq.rb:518-561 | on a stream of array elements the written and the corrected `encode` accept the same streams and give the same encodings |
| Encoder.BareStreamAsWritten | kernel/delta/iseq.rb:413-436 | as written, the stream `[4, 12]` of bare `push_int` and `ret` is encoded and laid out as `[4, 12]`; the corrected stream refuses it |
| Varint.Groups | kernel/compiler/compiled_file.rb:339-349 | for a positive value: every byte but the last has bit 7 set, the last is a non-zero group below 128, and the byte count is the number of 7-bit groups the value needs |
| Varint.ToVarint | kernel/compiler/compiled_file.rb:334-352 | 0 is the single byte 0; every byte but the last has bit 7 set and the last has it clear; the length is minimal for the value |
| Varint.ReadVarintStopsAtFirstLowByte | kernel/compiler/compiled_file.rb:358-372 | a varint ends at the first byte below 128; a stream with no such byte holds no complete varint |
| Varint.ReadInvertsToVarint | kernel/compiler/compiled_file.rb:334-372 | reading `to_varint(n)` gives `n` and consumes exactly the bytes written, whatever follows |
| Varint.ToVarintInjective | kernel/compiler/compiled_file.rb:334-352 | different values have different encodings |
| Varint.ReadVarintLoop | kernel/compiler/compiled_file.rb:358-372 | the source's accumulate-and-shift loop computes the reference reading, including running out of data |
| Marshal.SlotVarint | kernel/compiler/compiled_file.rb:304-308 | a non-negative slot is written as its varint; a negative one writes nothing |
| Marshal.Marshal | kernel/compiler/compiled_file.rb:259-330 | the only error `marshal` raises is for an unsupported class, and every encoding is non-empty |
| Marshal.MarshalAll | kernel/compiler/compiled_file.rb:283-292 | the elements' encodings in order; the only error is an unsupported class |
| Marshal.NextVarint | kernel/compiler/compiled_file.rb:358-372 | reading a varint consumes at least one byte, and fails only by running out of data |
| Marshal.NextBytes | kernel/compiler/compiled_file.rb:230-234 | `next_bytes(count)` succeeds exactly when `count` bytes remain, and splits the stream into those bytes and the rest |
| Marshal.LineEnd | kernel/compiler/compiled_file.rb:218-224 | the position just past the first newline, or the end of the data when there is none |
| Marshal.NextLine | kernel/compiler/compiled_file.rb:218-224 | `next_string` splits the data after its first newline: the line ends with that newline and holds no other, the rest follows it, and without a newline the line is all the data |
| Marshal.Chop | kernel/compiler/compiled_file.rb:108 | `chop` returns a proper prefix of a non-empty string |
| Marshal.NextSlots | kernel/compiler/compiled_file.rb:163-171 | reading `count` slots gives exactly `count` non-negative values |
| Marshal.UnmarshalData | kernel/compiler/compiled_file.rb:94-196 | every successful read consumes at least the tag byte |
| Marshal.UnmarshalAll | kernel/compiler/compiled_file.rb:145-162 | the container loops read exactly `count` values |
| Marshal.Unmarshal | kernel/compiler/compiled_file.rb:76-88 | `unmarshal` succeeds exactly when the value at the start of the data decodes |
| Marshal.MarshalFailsOnlyOnUnsupported | kernel/compiler/compiled_file.rb:325-326 | `marshal` raises `ArgumentError` exactly when some object inside the value has a class it does not handle |
| Marshal.MarshalAllFailsOnlyOnUnsupported | kernel/compiler/compiled_file.rb:283-292 | a list marshals exactly when every element is supported |
| Marshal.WellFormedIsSupported | kernel/compiler/compiled_file.rb:259-330 | every value the VM writes is one `marshal` accepts |
| Marshal.NextVarintInvertsToVarint | kernel/compiler/compiled_file.rb:334-372 | a varint written by `to_varint` is read back whole, and the rest of the stream is left |
| Marshal.NextSlotsInvertsSlotVarints | kernel/compiler/compiled_file.rb:163-171 | non-negative instruction slots are read back exactly |
| Marshal.NextLineInvertsFloat | kernel/compiler/compiled_file.rb:107-108 | a one-line float payload is read back by `next_string.chop` |
| Marshal.BytesRoundTrip | kernel/compiler/compiled_file.rb:133-144 | a length prefix followed by the bytes is read back as exactly those bytes |
| Marshal.RoundTrip | kernel/compiler/compiled_file.rb:94-330 | `unmarshal_data(marshal(v))` is `v` for every well-formed value, consuming exactly the bytes `marshal` wrote |
| Marshal.RoundTripAll | kernel/compiler/compiled_file.rb:145-162 | the encodings of several values read back as the same values, in order |
| Marshal.RoundTripInt | kernel/compiler/compiled_file.rb:103-106 | an integer is written as `I` and its magnitude, or `J` and its negation when negative, and reads back as itself |
| Marshal.RoundTripFloat | kernel/compiler/compiled_file.rb:107-108 | a one-line float payload reads back as itself |
| Marshal.RoundTripIseq | kernel/compiler/compiled_file.rb:163-171 | an instruction sequence is written as a count and one untagged varint per slot, and reads back slot by slot |
| Marshal.RoundTripContainer | kernel/compiler/compiled_file.rb:145-162 | an array or tuple is written as a count and its elements, and reads back with the same elements in the same order |
| Marshal.RoundTripMethod | kernel/compiler/compiled_file.rb:172-192 | a compiled method is written as version 1 and its 14 fields in a fixed order, and reads back in the same order |
| Marshal.UnknownTagRaises | kernel/compiler/compiled_file.rb:193-195 | any tag byte outside `t f n I J d s x S A p i M` raises "Unknown type", whatever follows |
| Marshal.MethodVersionCheckedFirst | kernel/compiler/compiled_file.rb:172-176 | a method version other than 1 raises before any field is read |
| Marshal.UnmarshalInvertsMarshal | kernel/compiler/compiled_file.rb:76-88 | `unmarshal(marshal(v))` is `v`, with or without trailing bytes |
| CompiledFile.LStrip | kernel/compiler/compiled_file.rb:27-29 | a suffix of the input that does not start with white space |
| CompiledFile.RStrip | kernel/compiler/compiled_file.rb:27-29 | a prefix of the input that does not end in white space or NUL |
| CompiledFile.Strip | kernel/compiler/compiled_file.rb:27-29 | `strip` keeps a contiguous piece of its input, and that piece is trimmed |
| CompiledFile.StripFixesTrimmed | kernel/compiler/compiled_file.rb:27-29 | a trimmed string is left as it is |
| CompiledFile.StripIdempotent | kernel/compiler/compiled_file.rb:27-29 | stripping twice is stripping once |
| CompiledFile.StripLine | kernel/compiler/compiled_file.rb:27-29 | stripping a trimmed line with its newline gives the line |
| CompiledFile.Puts | kernel/compiler/compiled_file.rb:49-51 | what `puts` writes starts with the line and ends in a newline |
| CompiledFile.Gets | kernel/compiler/compiled_file.rb:27-29 | `gets` returns nil exactly at the end of the stream |
| CompiledFile.GetsAfterPuts | kernel/compiler/compiled_file.rb:27-51 | `gets` reads back, as one line, what `puts` wrote |
| CompiledFile.ParseUnsignedNumeral | kernel/compiler/compiled_file.rb:28 | `Integer()` reads back the decimal numeral of every natural number |
| CompiledFile.ParseInteger | kernel/compiler/compiled_file.rb:28 | `Integer()` of the empty string raises; a leading `-` negates the unsigned reading of the rest, a leading `+` is skipped, and otherwise the whole string is read unsigned |
| CompiledFile.ParseIntegerInvertsToS | kernel/compiler/compiled_file.rb:28-50 | `Integer()` reads back what `to_s` writes for every integer, negatives included |
| CompiledFile.SignedIsTrimmedLine | kernel/compiler/compiled_file.rb:50 | the version line `to_s` writes has no surrounding white space and no newline |
| CompiledFile.NewFile | kernel/compiler/compiled_file.rb:11-15 | a new file has no body read yet, and its header, when the magic and sum are trimmed lines, loads back as the same file |
| CompiledFile.Load | kernel/compiler/compiled_file.rb:26-32 | `load` consumes at least the three header lines and leaves the body undecoded |
| CompiledFile.ReadLine | kernel/compiler/compiled_file.rb:27-29 | reading a header line fails exactly at the end of the stream, and otherwise consumes at least one byte |
| CompiledFile.ReadLineAfterPuts | kernel/compiler/compiled_file.rb:27-51 | a header line written by `puts` is read back and strips to itself |
| CompiledFile.LoadHeader | kernel/compiler/compiled_file.rb:26-51 | `load` reads back the magic, version and sum that `encode_to` writes, and leaves what follows on the stream |
| CompiledFile.EncodeTo | kernel/compiler/compiled_file.rb:48-55 | the header is written first, and the body's failure is reported exactly when `marshal` refuses it |
| CompiledFile.Dump | kernel/compiler/compiled_file.rb:36-42 | something is written exactly when the file can be opened; `EACCES` is swallowed |
| CompiledFile.Body | kernel/compiler/compiled_file.rb:60-81 | the header is untouched; a truthy memo is returned without touching the file; otherwise the stream is read to its end before unmarshalling, so it is left empty whether `body` returns or raises, and the memo changes only to a body that is returned |
| CompiledFile.LoadInvertsEncodeTo | kernel/compiler/compiled_file.rb:26-65 | loading what `encode_to` wrote gives back the header, and `body` gives back the marshalled value |
| CompiledFile.BodyReadsStream | kernel/compiler/compiled_file.rb:60-81 | the first `body` of a loaded file returns or raises what unmarshalling the stream does, and uses the stream up |
| CompiledFile.BodyFailureIsFinal | kernel/compiler/compiled_file.rb:60-81 | after a `body` that raises, the stream is used up and no body is memoised, so the next `body` raises on the empty input |
| CompiledFile.DumpHeader | kernel/compiler/compiled_file.rb:36-42 | `dump` writes the header `!RBIX`, 0, `x`, and loading the file gives the body back |
| CompiledFile.BodyMemoised | kernel/compiler/compiled_file.rb:61 | once `body` has returned a truthy value, later calls return it again without reading the stream |
| CompiledFile.BodyNilIsReread | kernel/compiler/compiled_file.rb:61-64 | a body that unmarshals to nil is not memoised: the next call reads the stream again, which is now used up |
| Numerals.Digits | vm/builtin/fixnum.cpp:325-357 | the base-`b` digits of `n`, most significant first: each below the base, no leading zero, and `[0]` for zero |
| Numerals.ValueOfDigits | vm/builtin/fixnum.cpp:325-357 | the digits denote the number they were taken from |
| Numerals.DigitsInjective | vm/builtin/fixnum.cpp:325-357 | different numbers have different digits |
| Numerals.DigitOfDigitChar | vm/builtin/fixnum.cpp:327 | each character of `digitmap` reads back as its digit |
| Numerals.Spell | vm/builtin/fixnum.cpp:327 | the digit string written with `digitmap`, one character per digit |
| Numerals.ReadDigits | kernel/compiler/compiled_file.rb:28 | the digit values of a non-empty string whose characters are all digits below the base |
| Numerals.ReadSpelledDigits | vm/builtin/fixnum.cpp:327 | every spelled digit string reads back as itself |
| Numerals.ReadNumeral | vm/builtin/fixnum.cpp:325-357 | reading the numeral of `n` back gives `n` |
| Numerals.NumeralShape | vm/builtin/fixnum.cpp:325-357 | a numeral has no sign, and starts with `0` only when it is zero |
| MachineInt.Int32 | vm/builtin/tuple.cpp:65-67 | storing a value in a C `int` keeps it modulo 2^32 and in the signed 32-bit range |
| MachineInt.Int32Fits | vm/builtin/tuple.cpp:65-67 | a value that fits an `int` is stored unchanged |
| MachineInt.Int32OfUnsigned | vm/builtin/tuple.cpp:107-109 | a sum of two non-negative `int`s beyond 2^31 - 1 comes out negative |
| MachineInt.Int64 | vm/builtin/fixnum.cpp:261 | a result stored in a 64-bit `native_int` is kept modulo 2^64 in the signed 64-bit range, and unchanged when it fits |
| MachineInt.Unsigned32 | vm/builtin/bytearray.cpp:69 | a C `(unsigned)` cast keeps the value modulo 2^32, below 2^32, and leaves a value already in range unchanged |
| Tuples.Put | vm/builtin/tuple.cpp:17-25 | `put` succeeds exactly for an index inside the tuple, raising the bounds error otherwise, and changes only that field |
| Tuples.PutSameIsIdentity | vm/builtin/tuple.cpp:17-25 | storing a field's own value leaves the tuple as it was |
| Tuples.PutIdempotent | vm/builtin/tuple.cpp:17-25 | storing the same value twice is storing it once |
| Tuples.CopyBounds | vm/builtin/tuple.cpp:69-91 | the argument checks of `copy_from` pass exactly when both windows are non-negative, fit their tuples and the source end does not overflow an `int` |
| Tuples.CopyFrom | vm/builtin/tuple.cpp:61-104 | from another tuple: fails exactly when a check fails, with that check's error; otherwise the window lands at the destination and every other field stays |
| Tuples.CopyWithin | vm/builtin/tuple.cpp:61-104 | within one tuple: the same checks; a copy to a lower index is a faithful move, a copy to a higher one repeats the start of the window |
| Tuples.ForwardCopy | vm/builtin/tuple.cpp:93-101 | the front-to-back copy loop, on overlapping windows as well as disjoint ones |
| Tuples.WithoutRemovesAll | vm/builtin/tuple.cpp:106-146 | removing every `obj` leaves no `obj`, keeps the other fields with their multiplicities, and shortens by the count of `obj` |
| Tuples.DeleteInplace | vm/builtin/tuple.cpp:106-146 | an empty tuple is left alone; otherwise a window outside the tuple raises, and a valid one has every `obj` removed, the rest moved down in order, nils after them, and the removed count returned |
| Tuples.CompactedWhenAbsent | vm/builtin/tuple.cpp:118-146 | a window without `obj` is left as it is and nothing is counted |
| Tuples.Compact | vm/builtin/tuple.cpp:120-142 | the two inner loops compact the window from the first `obj` on |
| Tuples.ShiftDown | vm/builtin/tuple.cpp:125-134 | the shifting loop moves the fields other than `obj` down in order and stops below the window's end |
| Tuples.NilFill | vm/builtin/tuple.cpp:136-140 | the filling loop writes nil to the freed slots and nothing else |
| Tuples.Pattern | vm/builtin/tuple.cpp:149-163 | `pattern(n, val)` is `n` copies of `val` |
| ByteArrays.GetByte | vm/builtin/bytearray.cpp:66-74 | the byte at an index inside the array, the bounds error otherwise |
| ByteArrays.SetByte | vm/builtin/bytearray.cpp:76-85 | inside the array, stores the value modulo 256 and changes no other byte; outside, the bounds error |
| ByteArrays.GetAfterSet | vm/builtin/bytearray.cpp:66-85 | reading back a stored byte gives what `set_byte` returned, the value itself when it is a byte |
| ByteArrays.IndexCheckPassesAsWritten | vm/builtin/bytearray.cpp:69-79 | the written `(unsigned)idx >= size()` test passes only non-negative indices, and for an index below 2^32 exactly those inside the array |
| ByteArrays.UnsignedCastPassesOutOfRange | vm/builtin/bytearray.cpp:69 | the written `(unsigned)idx` test accepts an index 2^32 past a one-byte array |
| ByteArrays.MoveCheck | vm/builtin/bytearray.cpp:92-102 | corrected (see Findings): the checks of `move_bytes` pass exactly when both windows are non-negative and inside the array |
| ByteArrays.MoveCheckAsWritten | vm/builtin/bytearray.cpp:92-102 | the written checks, whose end tests keep only the low 32 bits of `dst + cnt` and `src + cnt`: they agree with the corrected ones while both ends are below 2^32, and pass only non-negative arguments |
| ByteArrays.MoveCheckPassesBeyondEnd | vm/builtin/bytearray.cpp:98 | moving one byte to 2^32 - 1 in a one-byte array passes the written checks and is refused by the corrected ones |
| ByteArrays.MoveBytes | vm/builtin/bytearray.cpp:87-107 | corrected (see Findings): `memmove` semantics: the destination window gets the old source window even when they overlap, and the count is returned |
| ByteArrays.MoveDown | vm/builtin/bytearray.cpp:104 | an overlapping move towards lower indices, copied front to back, is a faithful move |
| ByteArrays.MoveUp | vm/builtin/bytearray.cpp:104 | an overlapping move towards higher indices, copied back to front, is a faithful move |
| ByteArrays.FetchBytes | vm/builtin/bytearray.cpp:109-126 | corrected (see Findings): a window inside the array comes back as a new array with a trailing NUL byte |
| ByteArrays.FetchCheckAsWritten | vm/builtin/bytearray.cpp:113-119 | the written checks of `fetch_bytes`: with an end below 2^32 they pass exactly for a non-negative window inside the array |
| ByteArrays.FetchCheckPassesBeyondEnd | vm/builtin/bytearray.cpp:117 | fetching one byte at 2^32 - 1 of a one-byte array passes the written checks and is refused by the corrected `fetch_bytes` |
| ByteArrays.MemcmpZeroIffEqual | vm/builtin/bytearray.cpp:128-162 | the `memcmp` sign is -1, 0 or 1, zero exactly on equal prefixes, and flips with the operands |
| ByteArrays.CompareBytes | vm/builtin/bytearray.cpp:128-162 | corrected (see Findings): two non-negative limits give -1, 0 or 1; a negative limit of this array raises "bytes of self to compare is less than zero", and otherwise a negative limit of the other raises "bytes of other to compare is less than zero" |
| ByteArrays.ClampAsWritten | vm/builtin/bytearray.cpp:141-142 | the written clamp compares the size with the low 32 bits of the limit: it is the smaller of the two for a limit below 2^32, and always one of them |
| ByteArrays.ClampKeepsLimitBeyondEnd | vm/builtin/bytearray.cpp:141-145 | a limit of 2^32 on a one-byte array is kept as written, so `memcmp` would run past the end; the corrected comparison clamps it and compares one byte |
| ByteArrays.CompareBytesAntisymmetric | vm/builtin/bytearray.cpp:128-162 | comparing the other way flips the sign, and 0 means the clamped prefixes are equal and equally long |
| ByteArrays.DupInto | vm/builtin/bytearray.cpp:164-170 | this array's bytes over the front of the other, the rest of the other unchanged |
| ByteArrays.DupIntoComparesEqual | vm/builtin/bytearray.cpp:128-170 | a duplicate into a large enough array compares equal to the original over its length |
| ByteArrays.Locate | vm/builtin/bytearray.cpp:172-195 | corrected (see Findings): the index just past the first occurrence of the pattern at or after `start`, nil when there is none or `start` is negative; an empty pattern is found at `start`; when the pattern fits in the array it returns what the written loop finds |
| ByteArrays.LocateLimitAsWritten | vm/builtin/bytearray.cpp:180 | the written loop bound `size() - len` on `size_t`: the difference when the pattern fits, and 2^64 minus the excess when it is longer |
| ByteArrays.MatchRestAsWritten | vm/builtin/bytearray.cpp:183-186 | the inner loop as written: a full match ends at `i + len` inside the array with every compared byte equal; a read past the end is reported at an index below `i + len` |
| ByteArrays.LocateFromAsWritten | vm/builtin/bytearray.cpp:180-191 | the outer loop as written: a match it reports is an occurrence of the pattern at or after the candidate; a read it reports is at or past the end of the array |
| ByteArrays.LocateAsWritten | vm/builtin/bytearray.cpp:172-195 | `locate` as written, with `start` converted to `size_t` and the wrapped bound: an empty pattern gives `start`, a match is an occurrence of the pattern, and a read it reports is past the end |
| ByteArrays.LocateReadsPastEnd | vm/builtin/bytearray.cpp:180-186 | with a pattern longer than the array, the written loop started anywhere from 0 to the size of the array reads past the end |
| ByteArrays.FirstMatchIsWritten | vm/builtin/bytearray.cpp:172-195 | when the pattern fits and `start` is a valid `size_t`, the first occurrence at or after `start` is what the written loop finds, and no occurrence means it finds nothing |
| ByteArrays.LocateAsWrittenInBounds | vm/builtin/bytearray.cpp:180-186 | when the pattern fits in the array, the written loop never reads past the end |
| SymbolTables.DetectKind | vm/symboltable.cpp:11-40 | constant for an upper-case start, instance variable for one `@`, class variable for `@@` and more, system for `__` and more, normal otherwise |
| SymbolTables.DetectKindShortSigils | vm/symboltable.cpp:11-40 | `@`, `@@` and `__` alone are normal names |
| SymbolTables.EmptyValid | vm/symboltable.cpp:46-76 | an empty table meets the table invariant |
| SymbolTables.Add | vm/symboltable.cpp:46-50 | the new symbol is the old size, its string and kind are appended and nothing else changes |
| SymbolTables.FindIn | vm/symboltable.cpp:59-70 | the bucket search returns an id of the bucket naming the string, or none when no id in the bucket names it |
| SymbolTables.Lookup | vm/symboltable.cpp:52-76 | an empty name raises; any other is interned |
| SymbolTables.PresentIsFound | vm/symboltable.cpp:59-70 | a string in the table is found in its hash bucket with its own id |
| SymbolTables.MissingIsAbsent | vm/symboltable.cpp:59-73 | a string the bucket search misses is not in the table |
| SymbolTables.LookupInterns | vm/symboltable.cpp:52-76 | lookup keeps the invariant, returns an id naming the string, and only appends |
| SymbolTables.AddKeepsValid | vm/symboltable.cpp:63-73 | appending a new string and filing its id in its bucket keeps the invariant |
| SymbolTables.LookupFindsExisting | vm/symboltable.cpp:59-70 | an interned string returns its id and leaves the table alone |
| SymbolTables.LookupAddsNew | vm/symboltable.cpp:63-73 | a new string gets the next id and grows the table by one |
| SymbolTables.LookupIdempotent | vm/symboltable.cpp:52-76 | a second lookup of the same string returns the same symbol and changes nothing |
| SymbolTables.LookupString | vm/symboltable.cpp:98-105 | a nil symbol raises; any other gives its stored string read as a C string: a NUL-free prefix of it, ending just before its first NUL byte if it has one |
| SymbolTables.LookupStringInvertsLookup | vm/symboltable.cpp:52-105 | the string of a looked-up symbol is the C string of the string looked up: the string itself when it holds no NUL byte, and something shorter when it does |
| SymbolTables.LookupStringTruncates | vm/symboltable.cpp:52-105 | `"a\0b"` is interned with all three bytes, and `lookup_string` gives back `"a"` |
| SymbolTables.KindOfLookup | vm/symboltable.cpp:42-44 | a symbol's kind is the kind its spelling says |
| SymbolTables.CString | vm/symboltable.cpp:78-80 | a C string is the bytes before the first NUL |
| SymbolTables.LookupCString | vm/symboltable.cpp:78-80 | a C string succeeds exactly when it is not empty |
| SymbolTables.LookupRubyString | vm/symboltable.cpp:82-97 | a nil string and a string holding a NUL raise; any other is looked up |
| SymbolTables.CStringOfNulFree | vm/symboltable.cpp:78-97 | a string without NUL bytes is its own C string |
| Fixnums.Mul | vm/builtin/fixnum.cpp:56-85 | the product is exact, kept a Fixnum when in range |
| Fixnums.QuotientBound | vm/builtin/fixnum.cpp:66-80 | the division test the overflow check uses says exactly that the product is too large |
| Fixnums.MulPromotesExactlyOnOverflow | vm/builtin/fixnum.cpp:56-85 | `mul` promotes to a Bignum exactly when the product leaves the Fixnum range |
| Fixnums.TruncDivRemainder | vm/builtin/fixnum.cpp:101 | C's truncating division leaves a remainder smaller than the divisor, with the dividend's sign |
| Fixnums.TruncDivZero | vm/builtin/fixnum.cpp:101 | the truncated quotient is zero exactly when the dividend is smaller, negative exactly when the signs differ and it is not |
| Fixnums.DivAsWritten | vm/builtin/fixnum.cpp:95-104 | `div` as written raises exactly on a zero divisor |
| Fixnums.Div | vm/builtin/fixnum.cpp:95-104 | the corrected `div` raises ZeroDivisionError exactly on a zero divisor |
| Fixnums.DivIsFloored | vm/builtin/fixnum.cpp:95-104 | `div` is the floor of the true quotient |
| Fixnums.DivAsWrittenDiffers | vm/builtin/fixnum.cpp:102 | the written `div` is off exactly when the signs differ and the dividend is smaller than the divisor but not zero |
| Fixnums.DivAsWrittenMinusOneByTwo | vm/builtin/fixnum.cpp:102 | `-1 div 2` is 0 and `-1 mod 2` is -1 as written; Ruby's answers are -1 and 1 |
| Fixnums.ModAsWritten | vm/builtin/fixnum.cpp:114-119 | `mod` as written raises exactly on a zero divisor |
| Fixnums.Mod | vm/builtin/fixnum.cpp:114-119 | corrected (it uses the corrected `div`, see Findings): `mod` raises exactly on a zero divisor |
| Fixnums.ModHasDivisorSign | vm/builtin/fixnum.cpp:95-119 | quotient and modulo recombine to the dividend, and the modulo has the divisor's sign and is smaller than it |
| Fixnums.DivMod | vm/builtin/fixnum.cpp:129-140 | corrected (it uses the corrected `div`, see Findings): `divmod` raises on zero and otherwise pairs `div` and `mod` |
| Fixnums.DivModAsWritten | vm/builtin/fixnum.cpp:129-140 | `divmod` as written raises exactly on zero and otherwise pairs the written `div` and `mod`, which recombine to the dividend |
| Fixnums.DivModAsWrittenDiffers | vm/builtin/fixnum.cpp:102-140 | the written `divmod` differs from the floored one exactly where the written `div` does |
| Fixnums.DivModAsWrittenMinusOneByTwo | vm/builtin/fixnum.cpp:102-140 | `-1 divmod 2` is `[0, -1]` as written and `[-1, 1]` corrected |
| Fixnums.Compare | vm/builtin/fixnum.cpp:174-184 | `<=>` is -1, 0 or 1, by the order of the operands |
| Fixnums.CompareAntisymmetric | vm/builtin/fixnum.cpp:174-184 | swapping the operands flips the sign |
| Fixnums.BitReference | kernel/delta/iseq.rb:279 | `Fixnum#[]`: bit `k` of the two's-complement value, 0 or 1; 0 for a non-negative value below 2^k and 1 for a negative one at least -2^k |
| Fixnums.BitsOf36 | kernel/delta/iseq.rb:279 | bits 2 and 5 of 36 are 1, bits 1 and 3 are 0 |
| Fixnums.LeftShiftAsWritten | vm/builtin/fixnum.cpp:249-262 | `left_shift` as written: a promoted result is the exact `x * 2^s`; a result kept as a Fixnum is the 64-bit `native_int` shift, which is `x * 2^s` only while that fits in 64 bits and otherwise that value modulo 2^64 |
| Fixnums.LeftShiftAsWrittenAgreesOnNonneg | vm/builtin/fixnum.cpp:255-261 | on a non-negative value the written overflow test gives the same result as the corrected one |
| Fixnums.LeftShiftAsWrittenWraps | vm/builtin/fixnum.cpp:257-261 | `FIXNUM_MIN << 2` passes the written test and the 64-bit shift wraps `-2^64 + 4` to the Fixnum 4 |
| Fixnums.LeftShiftAsWrittenMissesNegativeOverflow | vm/builtin/fixnum.cpp:257 | the smallest Fixnum shifted left by one stays a Fixnum as written, though the value is out of range |
| Fixnums.LeftShiftNonneg | vm/builtin/fixnum.cpp:255-261 | the corrected left shift by a non-negative amount computes the exact shifted value |
| Fixnums.RightShiftNonneg | vm/builtin/fixnum.cpp:270 | a right shift stays a Fixnum and is the floor of the value over 2^s |
| Fixnums.LeftShift | vm/builtin/fixnum.cpp:249-262 | corrected (see Findings): `<<` by `s >= 0` is `x * 2^s`, promoted exactly when out of range; a negative amount shifts right with flooring |
| Fixnums.RightShift | vm/builtin/fixnum.cpp:264-271 | corrected (see Findings): `>>` by `s >= 0` floors `x / 2^s`; a negative amount goes to the corrected left shift, so it is promoted exactly when out of range |
| Fixnums.LeftShiftWithinWidth | vm/builtin/fixnum.cpp:255-261 | up to the Fixnum width, the overflow test is exactly the range check |
| Fixnums.LeftShiftBeyondWidth | vm/builtin/fixnum.cpp:255-261 | beyond the width, any non-zero value leaves the range |
| Fixnums.LeftShiftPromotesExactlyOnOverflow | vm/builtin/fixnum.cpp:249-262 | the corrected left shift promotes exactly when the shifted value leaves the range |
| Fixnums.ShiftRoundTrip | vm/builtin/fixnum.cpp:249-271 | shifting left and back right by the same amount gives the value back, and a negative amount swaps the two shifts |
| Fixnums.FromToWord | vm/builtin/fixnum.cpp:277-315 | a native integer read back from its 64-bit word is itself |
| Fixnums.ComplementValue | vm/builtin/fixnum.cpp:313-315 | flipping every bit of a `k`-bit value subtracts it from `2^k - 1` |
| Fixnums.BitwiseLaws | vm/builtin/fixnum.cpp:277-315 | on `k`-bit values, xor twice is the identity, `&` and `|` are idempotent, and De Morgan's law holds |
| Fixnums.BitwiseBounds | vm/builtin/fixnum.cpp:277-303 | on `k`-bit words, `&` is at most either operand, `|` at least either, and `^` is zero exactly on equal operands |
| Fixnums.BitAnd | vm/builtin/fixnum.cpp:277-279 | `&` with a non-negative operand is non-negative and at most that operand |
| Fixnums.BitOr | vm/builtin/fixnum.cpp:289-291 | `|` with a negative operand is negative and at least that operand |
| Fixnums.BitXor | vm/builtin/fixnum.cpp:301-303 | `^` is zero exactly when the operands are equal |
| Fixnums.ComplementWord | vm/builtin/fixnum.cpp:313-315 | flipping the 64 bits of a native integer's word gives the word of `-x - 1` |
| Fixnums.Invert | vm/builtin/fixnum.cpp:313-315 | `~x` is `-x - 1` |
| Fixnums.BitOpsLaws | vm/builtin/fixnum.cpp:277-315 | on native integers, xor twice is the identity, `&` and `|` are idempotent, and De Morgan's law holds |
| Fixnums.ToS | vm/builtin/fixnum.cpp:325-357 | a base outside 2..36 raises; otherwise the result is the signed numeral of the value in that base |
| RubyArrays.Elements | kernel/common/array.rb:100-108 | the elements are the `@total` tuple slots from `@start`, the i-th element being `@tuple.at(@start + i)` |
| RubyArrays.ValidIsNilPadded | kernel/common/array.rb:40-79 | an array is valid exactly when its tuple is nils before `@start`, then the elements, then nils after the window |
| RubyArrays.Size | kernel/common/array.rb:1239-1245 | `size` and `length` are the number of elements |
| RubyArrays.At | kernel/common/array.rb:100-108 | `[]` with one index gives the element at the index, a negative one counting from the end, and nil outside the array |
| RubyArrays.Slice | kernel/common/array.rb:111-144 | `[]` with a count: nil for a negative count or a start outside the array, an empty array one past the end, else the elements from the start up to the count, cut at the end |
| RubyArrays.SliceOfOne | kernel/common/array.rb:93-144 | a slice of one element holds the element `[]` returns for that index |
| RubyArrays.Reallocate | kernel/common/array.rb:1272-1286 | `reallocate` keeps the elements, does nothing while the tuple is large enough, else gives a tuple of at least the asked size and twice the old one |
| RubyArrays.Push | kernel/common/array.rb:240-246 | `<<` appends the element, growing the tuple when needed |
| RubyArrays.Concat | kernel/common/array.rb:448-458 | `concat` holds this array's elements, then the other's |
| RubyArrays.DeleteAt | kernel/common/array.rb:491-506 | `delete_at` removes and returns the element at a valid index and closes the gap; outside the array it changes nothing and returns nil |
| RubyArrays.ShrinkSize | kernel/common/array.rb:1295-1297 | the halving loop gives a size no more than half the old one, still holding the elements and at most six times their number |
| RubyArrays.ReallocateShrink | kernel/common/array.rb:1290-1306 | `reallocate_shrink` keeps the elements, does nothing while more than a third of the tuple is used, else centres them in a tuple at most half the size |
| RubyArrays.Pop | kernel/common/array.rb:934-944 | `pop` removes and returns the last element, or returns nil for an empty array |
| RubyArrays.Shift | kernel/common/array.rb:1048-1059 | `shift` removes and returns the first element, or returns nil for an empty array |
| RubyArrays.Unshift | kernel/common/array.rb:1247-1262 | `unshift` puts the values, in order, in front of the elements |
| RubyArrays.UnshiftInPlace | kernel/common/array.rb:1248-1251 | with room before the elements, the values go into the free slots in front of them |
| RubyArrays.UnshiftFresh | kernel/common/array.rb:1252-1259 | without room, a fresh tuple holds the values, then the elements |
| RubyArrays.PopAfterPush | kernel/common/array.rb:934-944 | popping what was pushed gives the element and the old contents back |
| RubyArrays.ShiftAfterUnshift | kernel/common/array.rb:1048-1059 | shifting off what was unshifted gives the element and the old contents back |
| RubyArrays.Store | kernel/common/array.rb:179-235 | `[]=` with an index stores the element, padding with nils past the end; an index before the start raises IndexError |
| RubyArrays.Splice | kernel/common/array.rb:179-225 | `[]=` with an index and a length replaces the elements in the clipped range by the replacement; a negative length or an index before the start raises, and an index past the end pads with nils |
| RubyArrays.SpliceContents | kernel/common/array.rb:187-223 | the fresh tuple built by the three copies holds the elements before the index, the replacement, then the elements after the replaced ones |
| RubyArrays.SplicePast | kernel/common/array.rb:207-216 | an index past the end leaves nils between the elements and the replacement |
| RubyArrays.Insert | kernel/common/array.rb:763-773 | `insert` with no items changes nothing; otherwise a non-negative index puts the items before that element, a negative one after it, and an index before the start raises |
| RubyArrays.InsertAfterDeleteAt | kernel/common/array.rb:763-773 | inserting a deleted element back at its index restores the contents |
| RubyArrays.ReversedInvolutive | kernel/common/array.rb:1005-1021 | reversing twice is the identity |
| RubyArrays.Reverse | kernel/common/array.rb:1005-1021 | `reverse!` leaves the elements in reverse order |
| Regexps.LetterFlag | kernel/common/regexp.rb:97-101 | exactly the letters m, i and x stand for an option |
| Regexps.OptionToString | kernel/common/regexp.rb:490-496 | the letters are exactly those of the option bits that are set, in the order m, i, x |
| Regexps.LettersToOptions | kernel/common/regexp.rb:97-101 | option letters turn on only the three option bits |
| Regexps.LettersOfOptionToString | kernel/common/regexp.rb:490-496 | reading the letters back gives the three option bits |
| Regexps.CaseFold | kernel/common/regexp.rb:86-88 | `casefold?` is the IGNORECASE bit, so it holds exactly when the letters contain `i` |
| Regexps.KcodeOfLetter | kernel/common/regexp.rb:17-18 | the letters `n`, `e`, `s` and `u` select the four kcode values, and no other letter selects one |
| Regexps.Kcode | kernel/common/regexp.rb:429-436 | `kcode` is nil exactly when the kcode bits hold none of the four values; KCODE_NONE, KCODE_EUC, KCODE_SJIS and KCODE_UTF8 give exactly "none", "euc", "sjis" and "utf8", and the first letter selects those bits |
| Regexps.EqlOptions | kernel/common/regexp.rb:394-403 | the compared options keep every bit outside the kcode mask and read an unset kcode as KCODE_NONE |
| Regexps.Eql | kernel/common/regexp.rb:390-406 | `eql?` holds exactly when the sources are equal, every bit outside the kcode mask is equal, and the kcodes are equal or are 0 and KCODE_NONE |
| Regexps.HashString | kernel/common/regexp.rb:410-418 | the digested string is "/", the source, "/" and the option letters, then one letter that selects the kcode (an unset kcode read as KCODE_NONE, so "n"); it fails exactly when the kcode bits are set to no kcode value |
| Regexps.OptionLettersFromLowBits | kernel/common/regexp.rb:490-496 | the option letters and `casefold?` depend on the three option bits alone |
| Regexps.EqlAgrees | kernel/common/regexp.rb:390-418 | regexps that are `eql?` have the same option letters, the same `casefold?` and the same hash string |
| Regexps.EqlIgnoresKcodeNone | kernel/common/regexp.rb:394-403 | an unset kcode and KCODE_NONE compare equal, though `kcode` tells them apart |
| Regexps.EqlSeesKcode | kernel/common/regexp.rb:390-405 | two different kcodes, neither unset, make regexps unequal |
| Regexps.Downcase | kernel/common/regexp.rb:333 | `downcase` maps only the ASCII upper-case letters, to their lower-case forms |
| Regexps.OptsBeforeLang | kernel/common/regexp.rb:318-329 | a positive Fixnum `opts` for a String pattern is masked to the option and kcode bits |
| Regexps.LangKcode | kernel/common/regexp.rb:333-334 | `lang` selects a kcode exactly when its downcased first letter is one of "nesu" |
| Regexps.ApplyLang | kernel/common/regexp.rb:331-335 | a String `lang` keeps the option bits and leaves no bit outside the two masks |
| Regexps.Initialize | kernel/common/regexp.rb:317-338 | a Fixnum or Float pattern raises TypeError; otherwise the source is the pattern's, and a String `lang` leaves only masked bits |
| Regexps.LangSetsKcode | kernel/common/regexp.rb:331-335 | after a String `lang`, `kcode` starts with its downcased first letter, or is nil when that letter selects no kcode |
| Regexps.InitializeKeepsFlags | kernel/common/regexp.rb:323-329 | a Fixnum `opts` gives its option bits, another truthy `opts` gives `i` alone, and nil or false gives none |
| Regexps.InitializeCopy | kernel/common/regexp.rb:340-342 | `initialize_copy` keeps the source |
| Regexps.CopyIsIdentity | kernel/common/regexp.rb:317-342 | a copy of a regexp whose options fit the masks is the same regexp |
| Regexps.CopyDropsStrayBits | kernel/common/regexp.rb:331-342 | a copy clears option bits outside the masks, so it is not `eql?` to the original |
| Regexps.InitializeWellFormed | kernel/common/regexp.rb:317-338 | `initialize` with a String pattern and a positive or non-Fixnum `opts`, or with a String `lang`, gives options that fit the masks |
| Regexps.Excluded | kernel/common/regexp.rb:304-306 | the letters of "mix" not chosen |
| Regexps.Completed | kernel/common/regexp.rb:308-312 | the chosen letters, then what makes m, i and x all mentioned |
| Regexps.OptionsString | kernel/common/regexp.rb:293-313 | the options group mentions m, i and x, and starts with the regexp's own letters unless there is exactly one part |
| Regexps.SettingAppend | kernel/common/regexp.rb:293-313 | under the reference meaning of an `(?on-off:` group written by `options_string`, the last mention of a letter decides its setting, and a `-` turns off the letters after it |
| Regexps.SettingNegated | kernel/common/regexp.rb:293-313 | under the reference meaning of an `(?on-off:` group, a letter after the `-` is turned off |
| Regexps.SettingPlain | kernel/common/regexp.rb:293-313 | under the reference meaning of an `(?on-off:` group, a letter in a group without `-` is turned on |
| Regexps.CompletedMeaning | kernel/common/regexp.rb:293-313 | a completed group turns a letter on or off as the inner options say, or else as the regexp's own letters do |
| Regexps.OptionsStringMeaning | kernel/common/regexp.rb:293-313 | the group written in front of a flattened source turns each of m, i and x on exactly when the regexp's flag (or a lone part's own group) does |
| Regexps.Group | kernel/common/regexp.rb:561-579 | group 0 is the whole match and group `idx` is region entry `idx - 1`; other indices raise the bounds error |
| Regexps.Begin | kernel/common/regexp.rb:561-569 | `begin` is the group's start, nil for a group other than 0 that did not take part |
| Regexps.End | kernel/common/regexp.rb:571-579 | `end` is the group's end, nil for a group other than 0 that did not take part |
| Regexps.Offset | kernel/common/regexp.rb:581-586 | `offset` succeeds for exactly the groups `begin` and `end` accept |
| Regexps.OffsetOfGroup | kernel/common/regexp.rb:581-586 | `offset` is the pair of begin and end, -1 read as nil except for the whole match, and `collapsing?` holds exactly when the whole match's pair repeats a number |
| Regexps.Collapsing | kernel/common/regexp.rb:671-673 | `collapsing?` holds exactly when `begin(0)` and `end(0)` are equal |
| CallFrames.Prepare | vm/call_frame.hpp:48-61 | a prepared frame has the given number of nil slots, an empty operand stack, ip 0 and no unwind record |
| CallFrames.CalculateSp | vm/call_frame.hpp:134-136 | the stack pointer is the depth minus one |
| CallFrames.Push | vm/call_frame.hpp:89-94 | `push` adds the value on top when a slot is free and overflows otherwise; the slots and unwinds stay |
| CallFrames.PushAsWritten | vm/call_frame.hpp:89-94 | the protected `push` as written succeeds only when a slot above the new top stays free |
| CallFrames.PushAsWrittenRejectsLastSlot | vm/call_frame.hpp:92 | a one-slot frame refuses its one push as written, and the corrected check takes it |
| CallFrames.PushAsWrittenDiffers | vm/call_frame.hpp:89-94 | the written and the corrected `push` differ only on the push that fills the frame |
| CallFrames.Pop | vm/call_frame.hpp:82-87 | `pop` returns the top value and the frame without it; an empty stack underflows |
| CallFrames.Top | vm/call_frame.hpp:109-111 | `top` is the top value of a non-empty stack |
| CallFrames.StackBack | vm/call_frame.hpp:96-99 | `stack_back(n)` is the value `n` below the top, when there is one |
| CallFrames.ClearStack | vm/call_frame.hpp:73-80 | `clear_stack(n)` drops the top `n` values when there are that many, leaving the slots as they are |
| CallFrames.PopAfterPush | vm/call_frame.hpp:82-94 | popping what was pushed gives the value and the old stack back |
| CallFrames.ClearIsRepeatedPop | vm/call_frame.hpp:73-87 | clearing `n` values succeeds and leaves the same stack exactly as `n` pops do |
| CallFrames.PushUnwind | vm/call_frame.hpp:147-153 | `push_unwind` records the handler with the current stack pointer while a record is free, and fails otherwise |
| CallFrames.PopUnwind | vm/call_frame.hpp:155-158 | `pop_unwind` takes off the latest record, when there is one, leaving the stack alone |
| CallFrames.HasUnwinds | vm/call_frame.hpp:160-162 | `has_unwinds_p` holds exactly when `pop_unwind` would succeed |
| CallFrames.UnwindsAreLifo | vm/call_frame.hpp:147-162 | a pushed handler is the next one popped, with the stack depth it was pushed at |
| CallFrames.PreparedFrameIsEmpty | vm/call_frame.hpp:48-61 | a fresh frame has no handler and nothing to pop |
| Handles.HandleTableNew | shotgun/lib/subtend/handle.c:12-21 | a new table meets the table invariant, starts at id 1 with the initial number of slots, and no handle matches it |
| Handles.HandleToObject | shotgun/lib/subtend/handle.c:155-190 | an immediate is itself, handle 0 is nil, a live handle gives its object, and a handle whose slot holds another id aborts; an empty slot or one past the table is an error of its own, where the source would read through NULL or past the table |
| Handles.HandleNew | shotgun/lib/subtend/handle.c:35-69 | the object goes in the free slot under the next id, the table grows by 25 slots when it fills, other slots stay, and the new handle looks up the object |
| Handles.NewKeepsOthers | shotgun/lib/subtend/handle.c:35-69 | handles live before `handle_new` still find their objects |
| Handles.HandleRemoveAsWritten | shotgun/lib/subtend/handle.c:204-214 | the written `handle_remove` works only on a slot that still holds an entry |
| Handles.HandleRemove | shotgun/lib/subtend/handle.c:204-214 | removing a live handle empties its slot and returns its object; any other handle of the table leaves it alone and returns nil |
| Handles.RemoveKeepsValid | shotgun/lib/subtend/handle.c:204-214 | removal keeps the table invariant |
| Handles.LiveHandleIds | shotgun/lib/subtend/handle.c:35-69 | a live handle's slot is its id minus one, so two live handles share an id exactly when they share a slot |
| Handles.RemoveThenUse | shotgun/lib/subtend/handle.c:155-214 | a removed handle gives back its object once, and then finds an empty slot |
| Handles.RemoveKeepsOthers | shotgun/lib/subtend/handle.c:204-214 | removing one handle leaves every other live handle's object |
| Handles.MakeGlobal | shotgun/lib/subtend/handle.c:192-194 | marking a handle global sets the flag and keeps its id and slot |
| Handles.ClearGlobal | shotgun/lib/subtend/handle.c:196-198 | clearing the mark unsets the flag and keeps its id and slot |
| Handles.IsGlobal | shotgun/lib/subtend/handle.c:200-202 | a handle is global exactly when setting the flag would change nothing |
| Handles.MakeGlobalKeepsOtherFlags | shotgun/lib/subtend/handle.c:192-194 | marking changes no other flag bit |
| Handles.ClearGlobalKeepsOtherFlags | shotgun/lib/subtend/handle.c:196-198 | clearing changes no other flag bit |
| Handles.ClearUndoesMake | shotgun/lib/subtend/handle.c:192-198 | clearing after marking is clearing alone |
| Handles.MakeGlobalIdempotent | shotgun/lib/subtend/handle.c:192-202 | marking changes a handle exactly when it is not yet global |
| Handles.GlobalIsInvisibleToLookup | shotgun/lib/subtend/handle.c:155-202 | the global mark does not change what the handle finds |
| Backtraces.Initialize | kernel/common/backtrace.rb:13-25 | colouring is off exactly when RBX_NOCOLOR is set or the setting is "no" or "NO"; the default colours are red, blue and yellow |
| Backtraces.Search | kernel/common/backtrace.rb:66-68 | the test holds exactly when the pattern occurs at or after the index, at a line start when anchored |
| Backtraces.ColorFromLoc | kernel/common/backtrace.rb:64-73 | the first line gets the first colour; else "kernel" at a line start gives the kernel colour, else "(eval)" anywhere the eval colour, else none |
| Backtraces.KernelColorNeedsLineStart | kernel/common/backtrace.rb:66 | "kernel" counts only at a line start, and then before "(eval)" |
| Backtraces.Longest | kernel/common/backtrace.rb:39-44 | the longest description, 0 without locations |
| Backtraces.Width | kernel/common/backtrace.rb:39-45 | the padding width is the longest description, capped at 40 |
| Backtraces.Spaces | kernel/common/backtrace.rb:51-53 | `n` spaces |
| Backtraces.FormatLine | kernel/common/backtrace.rb:47-54 | a line is the colour, four spaces, the padding, the description, " at ", the position and the clear code |
| Backtraces.AtColumnAligned | kernel/common/backtrace.rb:47-54 | uncoloured, a description within the width ends at the same column on every line, followed by " at " |
| Backtraces.Lines | kernel/common/backtrace.rb:47-54 | one formatted line per location, only the first formatted as first |
| Backtraces.JoinLines | kernel/common/backtrace.rb:55 | joining one line gives that line, joining none gives the empty string |
| Backtraces.JoinAvoids | kernel/common/backtrace.rb:55 | joining adds no character beyond those of the parts and the separator |
| Backtraces.JoinLength | kernel/common/backtrace.rb:55 | the joined length is the parts' lengths plus one separator between each two |
| Backtraces.Show | kernel/common/backtrace.rb:31-56 | `show` is empty without locations, the first line's formatting for one location, and otherwise the first line, `sep`, and the remaining lines joined by `sep`, as long as the lines and the separators between them |
| Backtraces.LineAvoids | kernel/common/backtrace.rb:47-54 | an uncoloured line adds only spaces and " at " to the description and the position |
| Backtraces.NoColorNoEscape | kernel/common/backtrace.rb:33-37 | with colouring off, `show` emits no escape character of its own |
| Backtraces.ColoredLines | kernel/common/backtrace.rb:47-54 | with colouring on, every line starts with its location's colour |
| Backtraces.ClearedLines | kernel/common/backtrace.rb:31-56 | with colouring on, every line ends with the clear code |
| Backtraces.FirstLineColored | kernel/common/backtrace.rb:47-54 | with colouring on, the first line starts with the first-line colour |
| Backtraces.ColoredLine | kernel/common/backtrace.rb:47-54 | a coloured line starts with its colour and ends with the clear code |
| Backtraces.JoinAsWritten | kernel/common/backtrace.rb:58-60 | `join(sep)` as written is `show` with the default newline separator |
| Backtraces.JoinAsWrittenIgnoresSeparator | kernel/common/backtrace.rb:58-60 | with two locations or more and a separator that is not one character long, the written `join` differs from joining by the separator |
| Backtraces.Join | kernel/common/backtrace.rb:58-60 | the corrected `join(sep)` puts the separator between each two lines |
| Backtraces.MriMethod | kernel/common/backtrace.rb:88-94 | the method part is the name, then " {}" for a block, " (method)" when the method name differs, nothing otherwise |
| Backtraces.MriLine | kernel/common/backtrace.rb:96 | an MRI line is the position, ":in `", the method part and a closing quote |
| Backtraces.ToMri | kernel/common/backtrace.rb:86-98 | one MRI line per location, in order |
| Backtraces.MriLineInjective | kernel/common/backtrace.rb:96 | with positions of the same length, equal MRI lines have the same position and method part |

## Left out

- OpCodes.OpRef: `encode` and `replace_instruction` also accept an `InstructionSet::OpCode` object (kernel/delta/iseq.rb:453-454, 521-523); the model gives such an object as its bytecode `Id`, which `InstructionSet[]` resolves to the same entry.

- Floats: the `d` marshal payload (kernel/compiler/compiled_file.rb:107-132, 293-303) is kept as an opaque newline-terminated line; `frexp`, the `%+.54f` formatting and the Infinity/NaN spellings are not modelled, and neither are the Float overloads of the Fixnum operations.
- Bignum is an unbounded `int`; its LibTomMath internals are not part of this model.
- I/O: the stream `CompiledFile` reads from and writes to is a byte sequence. The file open inside `dump` becomes a `writable` flag standing for the `EACCES` case the source swallows.
- The environment and configuration (`RBX_NOCOLOR`, `rbx.colorize_backtraces`) are parameters of `Backtraces.Initialize`.
- `kMaxUnwindInfos` and the unwind `type` values are defined in a header that is not part of this model; they are parameters of `CallFrames.PushUnwind`.
- `FIXNUM_WIDTH` and the Fixnum range come from a header that is not part of this model; the model assumes a 64-bit host (62-bit Fixnums, `FIXNUM_MAX = 2^62 - 1`, `FIXNUM_MIN = -FIXNUM_MAX`).
- The hash function of the symbol table is a parameter; only its use as a bucket key matters.
- `String#hash` is not modelled: `Regexps.HashString` gives the string that is digested. `kcode[0, 1]` on a nil kcode raises NoMethodError; the model returns None there.
- Regexp options are 64-bit words (`bv64`), the machine words of Fixnum options.
- Regexp matching, `match`, `=~`, `match_all`, `inspect`, `to_s`, `union` and `escape` are not modelled. The parsing of `SourceParser` is not modelled either: its parts are given as source text and the option letters of their groups.
- `check_rstruct_data`, `handle_allocate`, `handle_delete`, and the diagnostic `printf` of handle.c are not modelled. The commented-out block at shotgun/lib/subtend/handle.c:71-121 is not code.
- The initial slots of a handle table are read as empty: line 19 of handle.c allocates them without zeroing.
- `GLOBAL_FLAG` is a parameter of the global-flag helpers. `Handles.ClearGlobal` requires it to be non-zero, as any flag bit is.
- `Handles.HandleNew` requires the free-slot pointer to be inside the table, which every table built by `HandleTableNew` and `HandleNew` satisfies.
- CallFrame members not named as operations here are not modelled: `self`, `module`, `set_top`, `stack_at`, `stack_put`, `position_stack`, `set_ip` and `promote_scope`.
- `OpCode#arg_count`, `size`, `width`, `terminator?`, `check_interrupts?`, `to_s`, `stack_consumed` and `stack_produced` (kernel/delta/iseq.rb:198-218) are accessors of the table entries; `size` and `width` are the operand count plus one by definition, and the rest of the model uses them without a separate contract.
- `Tuples.Pattern` requires a non-negative count. `Tuple::pattern` converts the size itself and passes a negative count unchecked to `Tuple::create`, whose `size_t` parameter turns it into a huge allocation (vm/builtin/tuple.cpp:150-151); the model does not cover that allocation.
- The `at`, `put` and `fields` primitives of `Tuple`, `Tuple::create` and `Tuple::from`, and `ByteArray`'s `size`, `allocate` and `to_chars` are not modelled beyond the reads and writes above.
- `SymbolTable::all_as_array` is not modelled. `SymbolTables.Size` is the number of interned strings by definition and carries no contract of its own.
- `Backtrace#[]`, `each` and `Backtrace.backtrace` are not modelled; they only read or wrap the locations.
- Array: the Range forms of `[]` and `[]=` (kernel/common/array.rb:96-97, 126-130, 159-177), the conversion of `ent` to the replacement array (kernel/common/array.rb:197-205), `at`, `push(*args)`, the values the writers return, and `Type.coerce_to` are not modelled; indices, counts and replacements are given as integers and element sequences.
- `Integer()` in `CompiledFile.Load` accepts a sign, the `0x`, `0b`, `0o` and `0d` prefixes and a leading-zero octal form; underscores between digits are not modelled.
- The Fixnum operations `neg`, `pow`, `equal`, `gt`, `ge`, `lt`, `le`, `size`, `to_f` and `coerce`, and the Bignum overloads are not modelled.
- The padding rule of `Encoder.DecodeIseq` follows the code: `InvalidOpCode` is swallowed only after an instruction whose flow is `:return` (kernel/delta/iseq.rb:380-396).
- `encode_stream` prints the stream to STDERR before re-raising an encoding error (kernel/delta/iseq.rb:427-430); the output is not modelled, only the error.
- `Fixnum#[]` is not part of this model; `Fixnums.BitReference` gives it Ruby's meaning, bit `k` of the two's-complement value.
- Fixnums.RightShiftNonneg: a shift by 64 or more is undefined behaviour of C's `>>` on a 64-bit word (x86 reduces the count modulo 64); the model gives the floor, 0 or -1.
- Fixnums.RightShift: the same for a shift of 64 or more, or a negative amount of -64 or less.
- Fixnums.LeftShift: a negative amount of -64 or less shifts right by 64 or more, undefined in C; the model gives the floor.
- Fixnums.LeftShiftAsWritten: the 64-bit value of `self << shift` is kept as the Fixnum's value; how `Fixnum::from` tags a value outside the Fixnum range is not part of this model.
- ByteArrays.Locate: pattern and array bytes are compared as values 0 to 255. The source compares a `const char` pattern byte with an array byte (vm/builtin/bytearray.cpp:173, 181, 185); where `char` is signed and the array bytes are unsigned, a pattern byte of 128 or more never matches. The declaration of the array bytes is not part of this model.
- Backtraces.Longest: descriptions are measured in characters; Ruby 1.8's `String#size` counts bytes, so a non-ASCII description is measured differently (kernel/common/backtrace.rb:42).
- Backtraces.Width: the padding width is in characters for the same reason.
- Backtraces.FormatLine: the padding count `width - str.size` is computed from the character length, not the byte length (kernel/common/backtrace.rb:51).
- `Tuples.CopyWithin` models `copy_from` of a tuple into itself as written: the copy runs forward, so a destination above the start repeats the first fields of the window instead of moving them. Nothing in the model depends on such a copy.

## Findings

| source | as written | input that shows it | evidently intended | confidence | as-written member | corrected member |
|---|---|---|---|---|---|---|
| kernel/delta/iseq.rb:463-468 | the clearing loop of `replace_instruction` starts at `ip`, so it reports the opcode as the first old operand and zeroes every other slot from `ip + 1` (a later `ArgumentError` from `encode` leaves those writes in place) | `[4, 5, 12]` (push_int 5; ret) with `ip` 0 and `push_nil`; `[36, 7, 2, 12]` (send_stack) with `ip` 0 and `noop` clobbers the following instruction | the old operands are the slots after the opcode, and exactly those slots are cleared | not executed | Encoder.ReplaceAsWritten, Encoder.ClearAsWritten, Encoder.ReplaceReportsOpcodeAsOperand, Encoder.ReplaceClobbersNextInstruction | Encoder.ReplaceInstruction, Encoder.ReplaceReportsOperand, Encoder.ReplaceKeepsNextInstruction |
| kernel/delta/iseq.rb:529-535 | a bare reference is encoded without the arity check, so an opcode that takes operands is written alone, and a formula stack code reads a bit of a bare Fixnum as its operand | `[:push_int, :ret]` with bare `push_int`; a bare `36` (`send_stack`) | a bare reference is accepted only for an opcode without operands | not executed | Encoder.EncodeAsWritten, Encoder.BareReferenceSkipsArityCheck, Encoder.BareLayoutDecodesAsOperand, Encoder.BareFixnumReadsBit, Encoder.BareStreamAsWritten | Encoder.Encode, Encoder.DecodeInvertsEncode |
| vm/builtin/fixnum.cpp:102 | `div` lowers the truncated quotient only when it is negative, so a truncated quotient of 0 is never lowered; `mod` and `divmod` inherit it | `-1 div 2` gives 0, `-1 mod 2` gives -1 and `-1 divmod 2` gives `[0, -1]` | floor division: -1, 1 and `[-1, 1]` | not executed | Fixnums.DivAsWritten, Fixnums.ModAsWritten, Fixnums.DivModAsWritten, Fixnums.DivAsWrittenMinusOneByTwo, Fixnums.DivModAsWrittenMinusOneByTwo | Fixnums.Div, Fixnums.Mod, Fixnums.DivMod, Fixnums.DivIsFloored, Fixnums.ModHasDivisorSign |
| vm/builtin/fixnum.cpp:257 | the overflow test of `left_shift` compares against `FIXNUM_MAX` only, so a negative value that leaves the range stays a Fixnum, and one beyond 64 bits wraps around in `self << shift` | `FIXNUM_MIN << 1` stays a Fixnum; `FIXNUM_MIN << 2` gives 4 | promotion to Bignum whenever the shifted value leaves the Fixnum range | not executed | Fixnums.LeftShiftAsWritten, Fixnums.LeftShiftAsWrittenMissesNegativeOverflow, Fixnums.LeftShiftAsWrittenWraps | Fixnums.LeftShiftNonneg, Fixnums.LeftShiftPromotesExactlyOnOverflow, Fixnums.LeftShift, Fixnums.RightShift |
| vm/builtin/bytearray.cpp:180 | the loop bound `size() - len` is unsigned, so a pattern longer than the array wraps it and the loop reads past the end | a 1-byte array, a 2-byte pattern, start 0 | no match when the pattern is longer than the rest of the array | not executed | ByteArrays.LocateLimitAsWritten, ByteArrays.LocateAsWritten, ByteArrays.LocateReadsPastEnd | ByteArrays.Locate, ByteArrays.LocateAsWrittenInBounds, ByteArrays.FirstMatchIsWritten |
| vm/call_frame.hpp:92 | the protected build asserts that the incremented stack pointer is below `stack_top`, the last slot, so the last slot can never be pushed | a frame prepared with one slot, then one push | every slot can be pushed | not executed | CallFrames.PushAsWritten, CallFrames.PushAsWrittenRejectsLastSlot | CallFrames.Push, CallFrames.PushAsWrittenDiffers |
| kernel/common/backtrace.rb:58-60 | `join(sep)` calls `show` without `sep`, so the lines are always joined by newlines | two locations, separator ", " | the lines joined by `sep` | not executed | Backtraces.JoinAsWritten, Backtraces.JoinAsWrittenIgnoresSeparator | Backtraces.Join |
| vm/builtin/bytearray.cpp:69-79 | the bounds test `(unsigned)idx >= size()` keeps only the low 32 bits of the 64-bit index, so an index 2^32 past the end passes and `bytes[idx]` reads outside the array | index 2^32 on a 1-byte array | the index is refused unless `0 <= idx < size` | not executed | ByteArrays.IndexCheckPassesAsWritten, ByteArrays.UnsignedCastPassesOutOfRange | ByteArrays.GetByte, ByteArrays.SetByte |
| shotgun/lib/subtend/handle.c:204-214 | `handle_remove` reads the entry of the slot without checking that it is still there, so removing a handle twice dereferences NULL | `handle_remove` of a live handle, then of the same handle again | the second removal finds the slot empty and returns nil | not executed | Handles.HandleRemoveAsWritten, Handles.RemoveThenUse | Handles.HandleRemove, Handles.RemoveKeepsValid |
| vm/builtin/bytearray.cpp:98-117 | the end tests of `move_bytes` and `fetch_bytes` cast `dst + cnt` and `src + cnt` to `unsigned`, keeping the low 32 bits, so a window ending 2^32 or more past the start passes and `memmove` or `memcpy` runs outside the array | a 1-byte array: move 1 byte from 0 to 2^32 - 1; fetch 1 byte at 2^32 - 1 | a window is accepted only when it lies inside the array | not executed | ByteArrays.MoveCheckAsWritten, ByteArrays.MoveCheckPassesBeyondEnd, ByteArrays.FetchCheckAsWritten, ByteArrays.FetchCheckPassesBeyondEnd | ByteArrays.MoveCheck, ByteArrays.MoveBytes, ByteArrays.FetchBytes |
| vm/builtin/bytearray.cpp:141-142 | the clamp of `compare_bytes` compares the size with `(unsigned)slim`, so a limit of 2^32 or more reads as small and is kept whole, and `memcmp` runs past the end | a 1-byte array compared with itself with both limits 2^32 | each limit is clamped to its array's size | not executed | ByteArrays.ClampAsWritten, ByteArrays.ClampKeepsLimitBeyondEnd | ByteArrays.CompareBytes, ByteArrays.CompareBytesAntisymmetric |
