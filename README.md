# PAC parsing core of Patapon-Utilities, modelled in Dafny

Patapon-Utilities is a reverse-engineering toolkit for the scripts of a PSP game. Its PAC
files are byte buffers that mix variable-length instructions with raw data, padding, jump
tables and message tables. Nothing marks where one ends and the next begins. This project
models four parts of it:

- **The instruction-definition loader** (`PataponDebugger.read_instruction_set` and
  `PAC_instruction.__init__`, in `patapon_debugger.dfy`). It reads a `;`-separated text file,
  one row per opcode. Each row becomes a definition. The address comes from field 0 and the
  signature from fields 1–4 joined in hex. The name is field 6 and the description field 8.
  The remaining fields pair up as (type, name) parameters. The definitions go into two
  registries: signature → definition and name → signature.
- **`FrozenKeysDict`** (`frozen_keys_dict.dfy`). A dictionary whose key set is fixed by one
  initialisation. Later writes may only overwrite existing keys.
- **`PAC_parser`** (`pac_parser.dfy`, over the `PAC_file` indexes of `pac_entities.dfy`). It
  makes one pass with a cursor (`cur_offset`) and a flush mark (`last_offset`):
  - it scans for a `%` byte whose signed little-endian word the heuristic accepts, or that is
    a known signature;
  - it flushes the bytes before that point as a message table, left-out arguments or a memory
    entity;
  - it then records a known instruction, or an unknown one that runs to the next candidate;
  - after a string parameter it may add padding, and after the indexed jump a switch-case table.
- **`disassemble_to_file`** (`pac_disassembler.dfy`). It writes one line per listed offset:
  the offset in zero-padded upper-case hex, two spaces, then a description of the entity.
  The output file is modelled as the lines written.

`builtins.dfy` holds the Python string and number built-ins these files use: clamped slicing,
`str.split` / `str.join`, `str.replace(c, "")`, `int(s, 16)`, the `X`, `08X` and `{}`
formats of integers, `str` of a boolean, and `struct.unpack_from("<i")`. It also holds
`PackInt32LE`, which stands for nothing in the source: it is the inverse that the unpacking
round trip is stated against. The list built-ins the loader uses (`zip`, the `[0::2]` slice
and `dict.fromkeys`) are in `patapon_debugger.dfy`, next to their only user. `wrappers.dfy`
holds `Option` and `Result`.

`read_instruction_set` takes the lines of the file as Python's file iterator yields them:
each line but possibly the last keeps its trailing `"\n"`. So the last field of a row ends with
that newline, and with it the last parameter name (or, for a row of at most 10 fields, the
last of those fields).

The code the parser calls but that is not part of this model is a set of parameters, the
`PacParser.Collaborators` datatype: the argument decoder, `is_PAC_msg_table`,
`is_left_out_PAC_args`, `defaultMayBeInstruction` and the entity initialisers. The model
assumes only one thing about the decoder (`PacParser.DecoderStaysInside`): an instruction
that starts at a whole word has a positive size and ends inside the buffer.

Behaviour kept exactly as the code has it:

- **Signature byte order.** The parser reads signatures as *signed little-endian* words
  (`"<i"`). The definition file spells them big-endian, A B C D
  (`PataponDebugger.SignatureFromFourBytes`).
- **Empty buffers.** `parse` raises on an empty buffer (`PacParser.PacParser.Parse` returns
  `EmptyRawData`).
- **Address field.** The function address is field 0 of a definition row.
- **Duplicate parameters.** `dict.fromkeys` merges them silently and keeps the first
  occurrence.
- **Loading is additive and not atomic.** Definitions from an earlier file stay. When a row
  raises, the rows before it stay applied (`PataponDebugger.LoadStopsAtFirstMalformedRow`).
- **The jump table is taken whatever the scan finds.** After the indexed jump,
  `processAddressTable` runs whether or not `findNextInstruction` succeeded, and the table is
  recorded at `last_offset`.
- **Padding comes after the jump table.** When both happen, padding is checked at the
  position reached after the jump table.
- **`last_offset` does not move over instructions.** Neither `processInstruction` nor
  `processUnknownInstruction` moves it. So the next flush records the bytes from the
  instruction's own offset to the next candidate, and that entity overwrites the
  instruction's entry in `entities`. An unknown instruction is never listed in
  `entities_offsets`. `last_was_instruction` is never set, so the left-out-arguments branch
  is never taken. No invariant that the entities tile the buffer holds, and none is claimed.
  What is proved about a parse is in the table below.

## Model

| member | source | states |
|---|---|---|
| Builtins.PySlice | Patapon_Debugger/PataponDebugger.py:115-116 | a slice with clamped bounds has the clamped length and the elements from `lo` on; with bounds inside the sequence it is the ordinary slice |
| Builtins.Split | Patapon_Debugger/PataponDebugger.py:112 | `split(";")` gives at least one field and no field contains the separator |
| Builtins.JoinSplit | Patapon_Debugger/PataponDebugger.py:112 | joining the fields of a split with the separator gives back the line |
| Builtins.SplitJoin | Patapon_Debugger/PataponDebugger.py:112 | splitting a join of separator-free fields gives back the fields |
| Builtins.Without | Patapon_Debugger/pac_disassembler.py:36 | `replace("\x00", "")` leaves no NUL, keeps every other character as often as it occurs, and changes nothing when there is no NUL |
| Builtins.WithoutSingle | Patapon_Debugger/pac_disassembler.py:36 | one character is removed exactly when it is the NUL |
| Builtins.WithoutConcat | Patapon_Debugger/pac_disassembler.py:36 | removal distributes over concatenation, so every kept character stays in its order |
| Builtins.WithoutIdempotent | Patapon_Debugger/pac_disassembler.py:45 | removing NULs a second time changes nothing |
| Builtins.ParseHex | Patapon_Debugger/PataponDebugger.py:47-48 | `int(s, 16)` succeeds exactly on a non-empty string of hex digits |
| Builtins.Numeral | Patapon_Debugger/pac_disassembler.py:28 | the `X` / `{}` numeral has at least one digit, every character an upper-case digit of the base, and no leading zero |
| Builtins.NumeralRoundTrip | Patapon_Debugger/pac_disassembler.py:28 | reading a numeral back in its base gives the number |
| Builtins.Hex8Value | Patapon_Debugger/pac_disassembler.py:5 | the zero-padded offset reads back as the offset |
| Builtins.Hex8Digits | Patapon_Debugger/pac_disassembler.py:5 | the zero-padded offset is exactly 8 characters, or the numeral itself when longer: zeros, then the `X` numeral, all upper-case hex digits |
| Builtins.Hex8RoundTrip | Patapon_Debugger/pac_disassembler.py:5 | `f"{offset:08X}"` is at least 8 hex digits and `int(·, 16)` of it is the offset |
| Builtins.UnpackInt32LE | Patapon_Debugger/pac_parser.py:40 | `struct.unpack_from("<i")` gives a signed 32-bit value |
| Builtins.PackUnpack | Patapon_Debugger/pac_parser.py:46 | packing the unpacked word gives back the four bytes |
| Builtins.UnpackPack | Patapon_Debugger/pac_parser.py:173 | unpacking a packed word gives back the word |
| Builtins.LowByte | Patapon_Debugger/pac_parser.py:33-40 | the unpacked word's low byte is the byte at the position read |
| Builtins.SignedHexRoundTrip | Patapon_Debugger/pac_disassembler.py:28 | `f"{i:X}"` starts with `-` exactly for a negative value, and reads back as the value |
| Builtins.SignedDecimalRoundTrip | Patapon_Debugger/pac_disassembler.py:22-24 | `f"{i}"` starts with `-` exactly for a negative value, and reads back as the value |
| Builtins.PyBool | Patapon_Debugger/pac_disassembler.py:23 | `str` of a boolean is `True` or `False`, `True` exactly when it holds |
| FrozenKeys.FrozenKeysDict.constructor | Patapon_Debugger/FrozenKeysDict.py:8-10 | a new dictionary is uninitialised and empty |
| FrozenKeys.FrozenKeysDict.InitializeFromKwargs | Patapon_Debugger/FrozenKeysDict.py:12-16 | the first initialisation installs the keyword arguments; any later one raises "Initialization is over" and changes nothing |
| FrozenKeys.FrozenKeysDict.InitializeFromDict | Patapon_Debugger/FrozenKeysDict.py:18-22 | the first initialisation installs the dictionary; any later one raises and changes nothing |
| FrozenKeys.FrozenKeysDict.SetItem | Patapon_Debugger/FrozenKeysDict.py:24-27 | a missing key raises KeyError and changes nothing; a present key gets the value; the key set never changes; other values stay; before initialisation every write is refused |
| PataponDebugger.EvenPositionsAt | Patapon_Debugger/PataponDebugger.py:54 | `s[0::2]` has ⌈n/2⌉ elements, element i being `s[2i]` |
| PataponDebugger.ZipAt | Patapon_Debugger/PataponDebugger.py:54 | `zip` is as long as the shorter input and pairs equal positions |
| PataponDebugger.ParamPairsAt | Patapon_Debugger/PataponDebugger.py:54-55 | the parameters are the consecutive (type, name) pairs of the argument fields; an unpaired last field is dropped |
| PataponDebugger.FromKeys | Patapon_Debugger/PataponDebugger.py:56 | the keys of `dict.fromkeys` are exactly the elements, each once |
| PataponDebugger.FromKeysOrder | Patapon_Debugger/PataponDebugger.py:56 | the keys keep the order of their first occurrences |
| PataponDebugger.NewParamDict | Patapon_Debugger/PataponDebugger.py:52-58 | PAC_params is a fresh, initialised FrozenKeysDict whose keys are exactly the declared parameters, each mapped to None |
| PataponDebugger.DecodeRow | Patapon_Debugger/PataponDebugger.py:43-58 | a row is accepted exactly when it has at least 9 fields and fields 0 and 1–4 (joined) are hex |
| PataponDebugger.DecodedRowFields | Patapon_Debugger/PataponDebugger.py:47-58 | an accepted row's address and signature are the hex values of field 0 and of fields 1–4; name and description are fields 6 and 8; the parameters are exactly the declared pairs, without duplicates |
| PataponDebugger.RowIgnoresUnusedFields | Patapon_Debugger/PataponDebugger.py:44-50 | raw size, extended name and parameter count (fields 5, 7, 9) do not affect the definition |
| PataponDebugger.MalformedRowsRejected | Patapon_Debugger/PataponDebugger.py:47-50 | fewer than 9 fields is an error (no fields: IndexError); a non-hex character in fields 0–4 is a ValueError |
| PataponDebugger.SignatureFromFourBytes | Patapon_Debugger/PataponDebugger.py:48 | with four two-digit fields the signature is the big-endian word A B C D |
| PataponDebugger.Record | Patapon_Debugger/PataponDebugger.py:120-121 | recording a definition adds its signature and its name to the registries' keys |
| PataponDebugger.LoadCompletes | Patapon_Debugger/PataponDebugger.py:109-122 | a file whose every row is well formed loads without an error |
| PataponDebugger.LoadKeepsUnmentionedSignature | Patapon_Debugger/PataponDebugger.py:120 | rows that never mention a signature leave its entry as it was |
| PataponDebugger.LoadKeepsUnmentionedName | Patapon_Debugger/PataponDebugger.py:121 | rows that never mention a name leave its entry as it was |
| PataponDebugger.LastRowWinsSignature | Patapon_Debugger/PataponDebugger.py:120 | the last row with a signature is the definition registered under it |
| PataponDebugger.LastRowWinsName | Patapon_Debugger/PataponDebugger.py:121 | the last row with a name decides the signature that name maps to |
| PataponDebugger.LoadStopsAtFirstMalformedRow | Patapon_Debugger/PataponDebugger.py:111-121 | the first malformed row ends the load with its error; the rows before it stay applied |
| PataponDebugger.LoadedSignatures | Patapon_Debugger/PataponDebugger.py:120 | after a complete load, the registered signatures are the old ones plus those of every row |
| PataponDebugger.PataponDebugger.constructor | Patapon_Debugger/PataponDebugger.py:106-107 | a new session has empty registries |
| PataponDebugger.PataponDebugger.ReadInstructionSet | Patapon_Debugger/PataponDebugger.py:109-122 | the registries and the error afterwards are those of folding the decoded lines, in order, over the old registries |
| PacEntities.Put2 | Patapon_Debugger/pac_parser.py:99-101 | `setdefault(k1, {})[k2] = v` adds both keys, stores the value and leaves every other entry alone |
| PacEntities.PacFile.constructor | Patapon_Debugger/pac_parser.py:12 | a new PAC_file holds the buffer with every index empty |
| PacParser.NextStop | Patapon_Debugger/pac_parser.py:30-52 | the scan stops at the first position at or after the start that is past the data, a `%` too close to the end, or an accepted `%` |
| PacParser.NextStopFindsCandidate | Patapon_Debugger/pac_parser.py:24-52 | the scan ends on a candidate exactly when one exists at or after the start, exactly when a whole word remains there |
| PacParser.SkippedPositionsRejected | Patapon_Debugger/pac_parser.py:33-50 | every position skipped is not a `%`, or its word was rejected |
| PacParser.NextStopIdempotent | Patapon_Debugger/pac_parser.py:30-52 | scanning again from where a scan stopped stays put |
| PacParser.CandidateSignatureLowByte | Patapon_Debugger/pac_parser.py:33-40 | every accepted signature has 0x25 as its low byte |
| PacParser.PacParser.constructor | Patapon_Debugger/pac_parser.py:3-16 | a new parser has no templates and has its cursor, mark and signature at 0, the flag down, and the given settings; with `DefaultSettings` these are the values `__init__` sets (table after the jump, jump signature 0, search for unknown instructions, the default heuristic) |
| PacParser.PacParser.AcceptanceRule | Patapon_Debugger/pac_parser.py:18-19 | the scan accepts a word through `mayBeInstruction` when unknown instructions are searched for, and only a known signature otherwise |
| PacParser.PacParser.AcceptTemplates | Patapon_Debugger/pac_parser.py:21-22 | the templates are replaced |
| PacParser.PacParser.FindNextInstruction | Patapon_Debugger/pac_parser.py:24-52 | the cursor moves to the scan's stop; the result is true exactly when a whole word remains there, and then it is a candidate |
| PacParser.PacParser.ProcessMessageTable | Patapon_Debugger/pac_parser.py:54-58 | a message table is recorded at the mark in both indexes |
| PacParser.PacParser.ProcessLeftOutArgs | Patapon_Debugger/pac_parser.py:60-64 | left-out arguments from the last listed entity to the end of the buffer are recorded at the mark, with size mark minus that entity's offset |
| PacParser.PacParser.ProcessMemoryEntity | Patapon_Debugger/pac_parser.py:66-70 | a memory entity is recorded at the mark in both indexes |
| PacParser.PacParser.ProcessRawData | Patapon_Debugger/pac_parser.py:72-90 | nothing happens when the cursor is at the mark; otherwise the gap becomes a message table, else left-out arguments after an instruction, else a memory entity; it is listed, the mark moves to the cursor and the flag drops |
| PacParser.PacParser.RecordInstruction | Patapon_Debugger/pac_parser.py:92-109 | the cursor is listed; the decoded instruction goes into every instruction index (and the cut ones when cut off); the cursor moves past it |
| PacParser.PacParser.TakeJumpTable | Patapon_Debugger/pac_parser.py:111-114 | after the indexed jump the cursor moves to the next stop, and a non-empty span from the mark is listed and recorded as a switch-case table |
| PacParser.PacParser.FinishInstruction | Patapon_Debugger/pac_parser.py:111-117 | the jump-table step, then alignment after a trailing string parameter |
| PacParser.PacParser.ProcessInstruction | Patapon_Debugger/pac_parser.py:92-117 | the whole effect on the cursor and on every index: the instruction, then the table, then the padding; the mark does not move |
| PacParser.PacParser.ProcessUnknownInstruction | Patapon_Debugger/pac_parser.py:119-138 | the span from the mark to the next candidate after the first word (or to the end) is recorded as unknown, counted, and not listed |
| PacParser.PacParser.FixAlignment | Patapon_Debugger/pac_parser.py:140-151 | an unaligned cursor is padded to the next multiple of 4 and the padding is listed; an aligned one changes nothing |
| PacParser.PacParser.ProcessAddressTable | Patapon_Debugger/pac_parser.py:153-162 | a non-empty span from the mark to the cursor is listed and recorded as a switch-case table; an empty one changes nothing |
| PacParser.PacParser.ParseRound | Patapon_Debugger/pac_parser.py:169-184 | one loop round moves the cursor forward, only appends to the offset list and never lowers a counter |
| PacParser.PacParser.Parse | Patapon_Debugger/pac_parser.py:164-185 | an empty buffer is an error that changes nothing; otherwise the cursor reaches the end, the offset list only grows and the counters never drop |
| PacDisassembler.EntityText | Patapon_Debugger/pac_disassembler.py:9-75 | an entity's text completes except for a switch-case table without branches |
| PacDisassembler.ListingOfCompletesIff | Patapon_Debugger/pac_disassembler.py:4-76 | the listing runs to the end exactly when every offset has an entity whose text completes |
| PacDisassembler.ListingCompletesIff | Patapon_Debugger/pac_disassembler.py:8-64 | disassembly raises nothing exactly when every listed offset has an entity and no listed switch-case table is empty |
| PacDisassembler.ListingPrefixes | Patapon_Debugger/pac_disassembler.py:4-6 | there is at most one line per offset, and each line, complete or cut short, starts with its offset's prefix, in list order |
| PacDisassembler.ListingLines | Patapon_Debugger/pac_disassembler.py:4-76 | a complete listing has one line per offset: its prefix, the entity's text and a newline |
| PacDisassembler.ParsedFileHasEveryEntity | Patapon_Debugger/pac_disassembler.py:4-8 | on a consistent PAC_file the only possible exception is an empty switch-case table, never a missing entity |
| PacDisassembler.NoMissingEntity | Patapon_Debugger/pac_disassembler.py:8 | when every offset has an entity, the listing never stops on a missing one |
| PacDisassembler.OffsetReadsBack | Patapon_Debugger/pac_disassembler.py:5 | each line's prefix is at least 8 hex digits that read back as the offset, then two spaces |
| PacDisassembler.CutOffWarningIff | Patapon_Debugger/pac_disassembler.py:48-50 | an instruction's text ends with the warning exactly when it is cut off |
| PacDisassembler.StringValueWithoutNul | Patapon_Debugger/pac_disassembler.py:44-45 | a string argument is printed in quotes with its NULs removed and none left |
| PacDisassembler.ParamsTextSeparated | Patapon_Debugger/pac_disassembler.py:29-47 | no arguments print nothing; each further argument adds `", "` and its text, so no separator trails |
| PacDisassembler.UnlistedEntityLine | Patapon_Debugger/pac_disassembler.py:9-76 | an entity of any other type gives its offset prefix and a newline |
| PacDisassembler.JoinAsTerminated | Patapon_Debugger/pac_disassembler.py:31-47 | writing each part but the last with a separator after it, then the last, is the join |
| PacDisassembler.WriteParams | Patapon_Debugger/pac_disassembler.py:29-47 | the loop writes the arguments joined by `", "` |
| PacDisassembler.WriteInstruction | Patapon_Debugger/pac_disassembler.py:26-50 | the instruction's text: signature, name, arguments, and the warning when cut off |
| PacDisassembler.WriteBranches | Patapon_Debugger/pac_disassembler.py:62-64 | with branches, the addresses joined by `", "`; without, the IndexError |
| PacDisassembler.WriteSwitchTable | Patapon_Debugger/pac_disassembler.py:56-64 | the header, then the addresses and `)`, or the header alone before the IndexError |
| PacDisassembler.WriteEntity | Patapon_Debugger/pac_disassembler.py:9-75 | the text written for each kind of entity |
| PacDisassembler.DisassembleToFile | Patapon_Debugger/pac_disassembler.py:2-77 | the lines written are the listing of the offsets in order, ending at the first exception |

## Left out

- File and console I/O. `read_instruction_set` takes the lines of the file. `disassemble_to_file`
  returns the lines it would write. A line cut short by an exception is the last one. The
  diagnostics `print`ed on shift-jis failures are not modelled.
- The shift-jis decoder (`read_shift_jis_from_bytes`) is a parameter, and `None` stands for any
  exception it raises.
- How an argument value prints when it is neither an integer nor a string (`f"{value}"` of a
  float and so on). It is kept as its printed form (`OtherValue`). A Python `bool` argument is
  not distinguished from an integer.
- `int(s, 16)` is modelled on plain ASCII digit strings. Python's acceptance of surrounding
  whitespace, a sign, `0x`, `_` and non-ASCII Unicode decimal digits is not modelled, so such
  rows are rejected here.
- The argument decoder, `is_PAC_msg_table`, `is_left_out_PAC_args`, `defaultMayBeInstruction` and
  the entity initialisers (`Memory_entity`, `Padding_bytes`, `Switch_case_table`, …) are not part
  of this model. They are parameters (`PacParser.Collaborators`). Only their results as stored in
  the indexes are modelled.
- `PAC_instruction_template` is not part of this model. `PacParser.Template` keeps only the
  declared parameters the parser looks at.
- `FrozenKeysDict`'s other `UserDict` methods (reads, deletion, iteration) are not modelled.
  Neither is the aliasing created by `self.data = value`, which shares the caller's dictionary.
  The keyword-argument dictionary has keys of the same type as any other.
- PacParser.PacParser.constructor: the PAC_file and the settings are given to the constructor.
  In the code, `__init__` creates an empty `PAC_file` and the caller assigns the file and the
  switches afterwards. `PacParser.DefaultSettings` gives the values `__init__` sets.
- PacParser.PacParser.ProcessLeftOutArgs: requires a listed entity. The IndexError of an empty
  list is not modelled, because its only caller reaches it only after an instruction, which the
  parser invariant ties to a non-empty list.
- PacParser.PacParser.Parse: states the error case, termination at the end of the buffer and
  monotonicity. It does not state the final indexes as a function of the buffer. Each round is
  specified by the contracts of the methods it calls.
- PacParser.PacParser.ParseRound: states only the progress and monotonicity `parse` needs. The
  effect of each branch is stated by the processing methods' own contracts.
- The debugger session (emulator connection, breakpoints, `asyncio` calls), the other
  `PataponDebugger` methods, and `disassemble_pacs_in_directory` are not part of this model.
